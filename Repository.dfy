/**
 * The in-memory store (impl/RepositoryImpl.java): an append-only list of
 * entities. `Repository.Entity.getId()` becomes the function `idOf` that the
 * store is built with; the entities themselves may be references, in which
 * case the list holds aliases of the caller's objects.
 */
module Repository {
  import opened Errors

  /** The first element of `s` whose id is `id` (`filter(...).findFirst()`). */
  function FirstWithId<E>(s: seq<E>, idOf: E -> string, id: string): (r: Option<E>)
    ensures r.None? <==> forall i :: 0 <= i < |s| ==> idOf(s[i]) != id
    ensures r.Some? ==> exists i :: 0 <= i < |s| && s[i] == r.value && idOf(s[i]) == id &&
                                   forall j :: 0 <= j < i ==> idOf(s[j]) != id
  {
    if s == [] then None
    else if idOf(s[0]) == id then Some(s[0])
    else
      assert forall j :: 1 <= j < |s| ==> s[j] == s[1..][j - 1];
      FirstWithId(s[1..], idOf, id)
  }

  /** Appending an entity whose id is new makes it the one found under that id. */
  lemma {:induction false} FirstWithIdAfterAppend<E>(s: seq<E>, idOf: E -> string, e: E)
    requires forall i :: 0 <= i < |s| ==> idOf(s[i]) != idOf(e)
    ensures FirstWithId(s + [e], idOf, idOf(e)) == Some(e)
  {
    var r := FirstWithId(s + [e], idOf, idOf(e));
    var i :| 0 <= i < |s + [e]| && (s + [e])[i] == r.value && idOf((s + [e])[i]) == idOf(e);
    assert i == |s|;
  }

  /** Appending never changes what an id already present finds. */
  lemma {:induction false} FirstWithIdStableUnderAppend<E>(s: seq<E>, idOf: E -> string, e: E, id: string)
    requires FirstWithId(s, idOf, id).Some?
    ensures FirstWithId(s + [e], idOf, id) == FirstWithId(s, idOf, id)
    decreases |s|
  {
    assert s != [];
    if idOf(s[0]) != id {
      assert (s + [e])[1..] == s[1..] + [e];
      FirstWithIdStableUnderAppend(s[1..], idOf, e, id);
    }
  }

  class RepositoryImpl<E> {
    /** The stored entities, in insertion order. */
    var entities: seq<E>
    /** `Entity.getId()`. */
    const idOf: E -> string

    constructor (idOf: E -> string)
      ensures this.idOf == idOf && entities == []
    {
      this.idOf := idOf;
      entities := [];
    }

    /** `getEntityById`: the first stored entity with that id, if any. */
    function GetEntityById(id: string): (r: Option<E>)
      reads this
      ensures r == FirstWithId(entities, idOf, id)
    {
      FirstWithId(entities, idOf, id)
    }

    /** `all`: a copy of the list, which later saves cannot change. */
    function All(): (r: seq<E>)
      reads this
      ensures |r| == |entities| && forall i :: 0 <= i < |r| ==> r[i] == entities[i]
    {
      entities
    }

    /** `save`: appends, never replaces, and returns its argument. */
    method Save(entity: E) returns (r: E)
      modifies this
      ensures entities == old(entities) + [entity]
      ensures r == entity
    {
      entities := entities + [entity];
      r := entity;
    }

    /**
     * `delete`: keeps the entities whose id differs from their own id, which
     * is none of them, so the store is emptied whatever the argument.
     */
    method Delete(entity: E) returns (r: E)
      modifies this
      ensures entities == []
      ensures r == entity
    {
      var keep := e => idOf(e) != idOf(e);
      FilterRejectingAllIsEmpty(entities, keep);
      var tmp := Filter(entities, keep);
      entities := tmp;
      r := entity;
    }
  }

  /** `stream.filter(keep)`: the elements that pass, in order. */
  function Filter<E>(s: seq<E>, keep: E -> bool): (r: seq<E>)
    ensures |r| <= |s|
    ensures forall i :: 0 <= i < |r| ==> keep(r[i])
    ensures forall i :: 0 <= i < |s| && keep(s[i]) ==> s[i] in r
  {
    if s == [] then []
    else
      assert forall j :: 1 <= j < |s| ==> s[j] == s[1..][j - 1];
      if keep(s[0]) then [s[0]] + Filter(s[1..], keep)
      else Filter(s[1..], keep)
  }

  /** The filter of a single element keeps it exactly when it passes. */
  lemma FilterSingleton<E>(x: E, keep: E -> bool)
    ensures Filter([x], keep) == if keep(x) then [x] else []
  {
    assert [x][1..] == [];
  }

  /** Filtering distributes over concatenation, so order and repetitions are kept. */
  lemma {:induction false} FilterConcat<E>(a: seq<E>, b: seq<E>, keep: E -> bool)
    ensures Filter(a + b, keep) == Filter(a, keep) + Filter(b, keep)
  {
    if a == [] {
      assert a + b == b;
    } else {
      assert (a + b)[0] == a[0] && (a + b)[1..] == a[1..] + b;
      FilterConcat(a[1..], b, keep);
    }
  }

  /** A filter that passes nothing yields nothing. */
  lemma {:induction false} FilterRejectingAllIsEmpty<E>(s: seq<E>, keep: E -> bool)
    requires forall x :: !keep(x)
    ensures Filter(s, keep) == []
  {
    if s != [] {
      FilterRejectingAllIsEmpty(s[1..], keep);
    }
  }

  /** A snapshot taken by `all` is unaffected by a later `save`. */
  method SnapshotSurvivesSave<E>(repository: RepositoryImpl<E>, e: E) returns (snapshot: seq<E>)
    modifies repository
    ensures snapshot == old(repository.entities)
    ensures repository.entities == snapshot + [e]
  {
    snapshot := repository.All();
    var _ := repository.Save(e);
  }
}
