/**
 * `Stream.sorted(Comparator.comparing(key))` over string keys: a stable
 * insertion sort, specified as a sorted permutation of its input.
 */
module Sorting {
  import opened Text

  /** The keys of `s` never decrease. */
  ghost predicate SortedBy<E>(s: seq<E>, key: E -> string) {
    forall i, j :: 0 <= i < j < |s| ==> LexLessEq(key(s[i]), key(s[j]))
  }

  /** Inserts `x` before the first element whose key is not below its own. */
  function Insert<E>(x: E, s: seq<E>, key: E -> string): (r: seq<E>)
    requires SortedBy(s, key)
    ensures SortedBy(r, key)
    ensures multiset(r) == multiset(s) + multiset{x}
    ensures forall i :: 0 <= i < |r| ==> r[i] == x || r[i] in s
  {
    if s == [] then [x]
    else if LexLessEq(key(x), key(s[0])) then
      InsertFrontSorted(x, s, key);
      [x] + s
    else
      var rest := Insert(x, s[1..], key);
      InsertBehindHead(x, s, rest, key);
      [s[0]] + rest
  }

  /** `x` goes after the head of `s`: the head stays first and the order is kept. */
  lemma InsertBehindHead<E>(x: E, s: seq<E>, rest: seq<E>, key: E -> string)
    requires SortedBy(s, key) && s != [] && !LexLessEq(key(x), key(s[0]))
    requires SortedBy(rest, key) && multiset(rest) == multiset(s[1..]) + multiset{x}
    requires forall i :: 0 <= i < |rest| ==> rest[i] == x || rest[i] in s[1..]
    ensures SortedBy([s[0]] + rest, key)
    ensures multiset([s[0]] + rest) == multiset(s) + multiset{x}
    ensures forall i :: 0 <= i < |[s[0]] + rest| ==> ([s[0]] + rest)[i] == x || ([s[0]] + rest)[i] in s
  {
    LexTotal(key(x), key(s[0]));
    assert s == [s[0]] + s[1..];
    forall i | 0 <= i < |rest| ensures LexLessEq(key(s[0]), key(rest[i])) {
      if rest[i] != x {
        var k :| 0 <= k < |s[1..]| && s[1..][k] == rest[i];
        assert s[k + 1] == rest[i];
      }
    }
    var t := [s[0]] + rest;
    forall i, j | 0 <= i < j < |t| ensures LexLessEq(key(t[i]), key(t[j])) {
      if i == 0 {
        assert t[j] == rest[j - 1];
      } else {
        assert t[i] == rest[i - 1] && t[j] == rest[j - 1];
      }
    }
  }

  lemma InsertFrontSorted<E>(x: E, s: seq<E>, key: E -> string)
    requires SortedBy(s, key) && s != [] && LexLessEq(key(x), key(s[0]))
    ensures SortedBy([x] + s, key)
  {
    forall j | 1 <= j < |s| ensures LexLessEq(key(x), key(s[j])) {
      LexTransitive(key(x), key(s[0]), key(s[j]));
    }
  }

  /** The elements of `s` in key order. */
  function SortBy<E>(s: seq<E>, key: E -> string): (r: seq<E>)
    ensures SortedBy(r, key)
    ensures multiset(r) == multiset(s)
  {
    if s == [] then []
    else
      assert s == [s[0]] + s[1..];
      Insert(s[0], SortBy(s[1..], key), key)
  }

  /** Every element of a permutation of `s` is an element of `s`. */
  lemma PermutationKeepsMembers<E>(r: seq<E>, s: seq<E>)
    requires multiset(r) == multiset(s)
    ensures forall k :: 0 <= k < |r| ==> r[k] in s
  {
    forall k | 0 <= k < |r| ensures r[k] in s {
      assert r[k] in multiset(r);
    }
  }
}
