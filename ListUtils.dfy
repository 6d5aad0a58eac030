/**
 * Paging of a stream (utils/ListUtils.java). `applyPage` receives two nullable
 * Integers; `None` stands for null. The arithmetic is on unbounded integers.
 */
module ListUtils {
  import opened Errors

  /**
   * `Stream.limit` throws IllegalArgumentException for a negative size, and
   * `applyPage` does not catch it: that is the one call its callers must avoid.
   */
  predicate LimitArgumentValid(pageNumber: Option<int>, pageSize: Option<int>) {
    pageNumber.Some? || pageSize.None? || pageSize.value >= 0
  }

  /** `s` is the slice `[from, to)` of `t`. */
  ghost predicate IsSliceOf<E>(s: seq<E>, t: seq<E>) {
    exists from, to :: 0 <= from <= to <= |t| && s == t[from..to]
  }

  /**
   * The page of `s`. With a page number the list is materialised and cut with
   * `subList`, whose IndexOutOfBounds/IllegalArgument exceptions become an empty
   * page; the end index of a page with a size is `pageNumber * (pageSize + 1)`
   * when `pageNumber > 0`, as the source writes it.
   */
  function ApplyPage<E>(s: seq<E>, pageNumber: Option<int>, pageSize: Option<int>): (r: seq<E>)
    requires LimitArgumentValid(pageNumber, pageSize)
    ensures |r| <= |s|
    ensures IsSliceOf(r, s)
  {
    if pageNumber.Some? then
      var number := pageNumber.value;
      if pageSize.None? then
        if 0 <= number <= |s| then
          assert s[number..] == s[number..|s|];
          s[number..]
        else
          assert [] == s[0..0];
          []
      else
        var size := pageSize.value;
        var fromIndex := number * size;
        var toIndex := if number > 0 then number * (size + 1) else size;
        var toIndex' := if toIndex > |s| then |s| else toIndex;
        if 0 <= fromIndex <= toIndex' then s[fromIndex..toIndex']
        else
          assert [] == s[0..0];
          []
    else if pageSize.Some? then
      var size := pageSize.value;
      assert s[..if size < |s| then size else |s|] == s[0..if size < |s| then size else |s|];
      s[..if size < |s| then size else |s|]
    else
      assert s == s[0..|s|];
      s
  }

  /** Neither argument: the stream is returned unchanged. */
  lemma NoPageArgumentsKeepEverything<E>(s: seq<E>)
    ensures ApplyPage(s, None, None) == s
  {
  }

  /** Only a size: the first `min(pageSize, n)` elements. */
  lemma OnlyPageSizeTakesPrefix<E>(s: seq<E>, size: int)
    requires size >= 0
    ensures ApplyPage(s, None, Some(size)) == s[..if size < |s| then size else |s|]
  {
  }

  /** Only a number: the first `pageNumber` elements are dropped; too large or negative gives nothing. */
  lemma OnlyPageNumberDropsPrefix<E>(s: seq<E>, number: int)
    ensures 0 <= number <= |s| ==> ApplyPage(s, Some(number), None) == s[number..]
    ensures (number < 0 || number > |s|) ==> ApplyPage(s, Some(number), None) == []
  {
  }

  /**
   * Both arguments: the slice from `pageNumber * pageSize` to the quirky end
   * index, clamped to the length; a range that does not fit gives nothing.
   */
  lemma BothArgumentsSlice<E>(s: seq<E>, number: int, size: int)
    ensures var from := number * size;
            var to := if number > 0 then number * (size + 1) else size;
            var to' := if to > |s| then |s| else to;
            ApplyPage(s, Some(number), Some(size)) == if 0 <= from <= to' then s[from..to'] else []
  {
  }

  /** A start index at or past the end gives an empty page rather than an error. */
  lemma {:induction false} StartPastEndIsEmpty<E>(s: seq<E>, number: int, size: int)
    requires number * size >= |s|
    ensures ApplyPage(s, Some(number), Some(size)) == []
  {
  }

  /** A negative page number always gives an empty page. */
  lemma {:induction false} NegativePageNumberIsEmpty<E>(s: seq<E>, number: int, pageSize: Option<int>)
    requires number < 0
    ensures ApplyPage(s, Some(number), pageSize) == []
  {
    if pageSize.Some? {
      var size := pageSize.value;
      if size > 0 {
        assert number * size < 0;
      } else if size < 0 {
        assert number * size > 0;
      }
    }
  }

  /**
   * The end-index quirk: for `pageNumber > 0` over a long enough list the page
   * holds `pageNumber` elements, whatever the page size.
   */
  lemma {:induction false} PageHoldsPageNumberElements<E>(s: seq<E>, number: int, size: int)
    requires number > 0 && size >= 0
    requires number * (size + 1) <= |s|
    ensures |ApplyPage(s, Some(number), Some(size))| == number
  {
    assert number * (size + 1) == number * size + number;
  }

  /** The six test vectors of ListUtilsTest over the list 0..9. */
  lemma TestVectors()
    ensures ApplyPage([0, 1, 2, 3, 4, 5, 6, 7, 8, 9], None, None) == [0, 1, 2, 3, 4, 5, 6, 7, 8, 9]
    ensures ApplyPage([0, 1, 2, 3, 4, 5, 6, 7, 8, 9], Some(4), None) == [4, 5, 6, 7, 8, 9]
    ensures ApplyPage([0, 1, 2, 3, 4, 5, 6, 7, 8, 9], Some(2), Some(2)) == [4, 5]
    ensures ApplyPage([0, 1, 2, 3, 4, 5, 6, 7, 8, 9], None, Some(5)) == [0, 1, 2, 3, 4]
    ensures ApplyPage([0, 1, 2, 3, 4, 5, 6, 7, 8, 9], Some(0), Some(5)) == [0, 1, 2, 3, 4]
    ensures ApplyPage([0, 1, 2, 3, 4, 5, 6, 7, 8, 9], Some(4), Some(10)) == []
  {
    var s := [0, 1, 2, 3, 4, 5, 6, 7, 8, 9];
    assert s[4..] == [4, 5, 6, 7, 8, 9];
    assert s[4..6] == [4, 5];
    assert s[..5] == [0, 1, 2, 3, 4];
    assert s[0..5] == [0, 1, 2, 3, 4];
  }
}
