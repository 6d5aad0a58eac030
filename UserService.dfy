/**
 * User lifecycle (impl/UserServiceImpl.java). The `changeUser` consumer is
 * modelled by the sequence of calls it makes on the `ChangeUser` it is given;
 * a rejected personal id throws to the consumer, which here catches it (the
 * rejections are returned beside the user).
 */
module UserService {
  import opened Errors
  import opened Entities
  import opened Repository
  import opened ListUtils
  import opened Text
  import opened Sorting

  /** `UserService.SortOrder`; `Unsorted` is the constant named `None`. */
  datatype SortOrder = Unsorted | Name | PersonalId

  /** A call the `changeUser` consumer makes. */
  datatype UserChange = SetName(name: string) | SetPersonalIdentificationNumber(pid: string)

  /** `checkIfPersonalIdentificationNumberIsUnique` (true when the id is already held). */
  predicate PersonalIdTaken(s: seq<UserImpl>, pid: string)
    reads s
  {
    exists k :: 0 <= k < |s| && s[k].personalIdentificationNumber == pid
  }

  /** The personal ids of the stored users other than `u`. */
  function OtherPersonalIds(s: seq<UserImpl>, u: UserImpl): set<string>
    reads s
  {
    set k | 0 <= k < |s| && s[k] != u :: s[k].personalIdentificationNumber
  }

  /** The changed user's name and id, the `ifPersonalIdIsUnique` flag and the rejections so far. */
  datatype UserEdit = UserEdit(name: string, pid: string, save: bool, rejected: seq<UseError>)

  /**
   * One consumer call. The user being changed is itself a stored user, so the
   * id it holds at the moment of the call is taken as well as `taken`.
   */
  function ApplyUserChange(e: UserEdit, taken: set<string>, call: UserChange): UserEdit {
    match call
    case SetName(n) => e.(name := n)
    case SetPersonalIdentificationNumber(p) =>
      if p in taken || p == e.pid then
        e.(save := false, rejected := e.rejected + [UseError(UPDATE_USER, USER_PERSONAL_ID_NOT_UNIQUE)])
      else
        e.(pid := p)
  }

  /** The consumer's calls, in order. */
  function ReplayUserChanges(e: UserEdit, taken: set<string>, calls: seq<UserChange>): UserEdit
    decreases |calls|
  {
    if calls == [] then e else ReplayUserChanges(ApplyUserChange(e, taken, calls[0]), taken, calls[1..])
  }

  /** A name change touches only the name. */
  lemma NameChangeTouchesOnlyName(e: UserEdit, taken: set<string>, n: string)
    ensures ReplayUserChanges(e, taken, [SetName(n)]) == e.(name := n)
  {
  }

  /** A personal id change touches only the id, or is rejected and blocks the save. */
  lemma PersonalIdChangeTouchesOnlyId(e: UserEdit, taken: set<string>, p: string)
    ensures var e' := ReplayUserChanges(e, taken, [SetPersonalIdentificationNumber(p)]);
            && e'.name == e.name
            && (p !in taken && p != e.pid ==> e' == e.(pid := p))
            && (p in taken || p == e.pid ==>
                  e' == e.(save := false, rejected := e.rejected + [UseError(UPDATE_USER, USER_PERSONAL_ID_NOT_UNIQUE)]))
  {
  }

  /** Once a personal id has been rejected the user is not saved, whatever follows. */
  lemma {:induction false} RejectionBlocksTheSave(e: UserEdit, taken: set<string>, calls: seq<UserChange>)
    requires !e.save
    ensures !ReplayUserChanges(e, taken, calls).save
    decreases |calls|
  {
    if calls != [] {
      RejectionBlocksTheSave(ApplyUserChange(e, taken, calls[0]), taken, calls[1..]);
    }
  }

  /** The user is saved exactly when no personal id was rejected. */
  lemma {:induction false} SavedIffNothingRejected(e: UserEdit, taken: set<string>, calls: seq<UserChange>)
    requires e.save && e.rejected == []
    ensures var e' := ReplayUserChanges(e, taken, calls); e'.save <==> e'.rejected == []
    decreases |calls|
  {
    if calls != [] {
      var e1 := ApplyUserChange(e, taken, calls[0]);
      if e1.save {
        SavedIffNothingRejected(e1, taken, calls[1..]);
      } else {
        RejectionBlocksTheSave(e1, taken, calls[1..]);
        RejectionsAccumulate(e1, taken, calls[1..]);
      }
    }
  }

  /** Rejections are only ever added behind the earlier ones, never dropped or reordered. */
  lemma {:induction false} RejectionsAccumulate(e: UserEdit, taken: set<string>, calls: seq<UserChange>)
    ensures e.rejected <= ReplayUserChanges(e, taken, calls).rejected
    ensures |ReplayUserChanges(e, taken, calls).rejected| >= |e.rejected|
    decreases |calls|
  {
    if calls != [] {
      RejectionsAccumulate(ApplyUserChange(e, taken, calls[0]), taken, calls[1..]);
    }
  }

  /** The search filter of `find`: active, and the lower-cased name contains the search string. */
  predicate Selected(u: UserImpl, searchString: string)
    reads u
  {
    Contains(ToLower(u.name), searchString) && u.active
  }

  /** `filter(Selected)`: the selected users, in order. */
  function SelectUsers(s: seq<UserImpl>, searchString: string): (r: seq<UserImpl>)
    reads s
    ensures forall k :: 0 <= k < |r| ==> Selected(r[k], searchString)
    ensures forall k :: 0 <= k < |s| && Selected(s[k], searchString) ==> s[k] in r
    ensures forall k :: 0 <= k < |r| ==> r[k] in s
  {
    if s == [] then []
    else
      var rest := SelectUsers(s[1..], searchString);
      assert forall k :: 1 <= k < |s| ==> s[k] == s[1..][k - 1];
      if Selected(s[0], searchString) then [s[0]] + rest else rest
  }

  /** A single user is kept exactly when it is selected. */
  lemma SelectUsersSingleton(u: UserImpl, searchString: string)
    ensures SelectUsers([u], searchString) == if Selected(u, searchString) then [u] else []
  {
    assert [u][1..] == [];
  }

  /** Selection distributes over concatenation: order and repeated references are kept. */
  lemma {:induction false} SelectUsersConcat(a: seq<UserImpl>, b: seq<UserImpl>, searchString: string)
    ensures SelectUsers(a + b, searchString) == SelectUsers(a, searchString) + SelectUsers(b, searchString)
  {
    if a == [] {
      assert a + b == b;
    } else {
      assert (a + b)[0] == a[0] && (a + b)[1..] == a[1..] + b;
      SelectUsersConcat(a[1..], b, searchString);
    }
  }

  /** A user stored twice, as a re-save leaves it, is found twice. */
  lemma ResavedUserIsFoundTwice(u: UserImpl, searchString: string)
    requires Selected(u, searchString)
    ensures SelectUsers([u, u], searchString) == [u, u]
  {
    assert [u, u] == [u] + [u];
    SelectUsersConcat([u], [u], searchString);
    SelectUsersSingleton(u, searchString);
  }

  class UserServiceImpl {
    const usersRepository: RepositoryImpl<UserImpl>

    /** The store is searched by the users' ids. */
    ghost predicate Valid() {
      usersRepository.idOf == UserId
    }

    constructor (usersRepository: RepositoryImpl<UserImpl>)
      requires usersRepository.idOf == UserId
      ensures Valid()
      ensures this.usersRepository == usersRepository
    {
      this.usersRepository := usersRepository;
    }

    /** `createUser`: a personal id held by any stored user is refused; otherwise one new active user is saved. */
    method CreateUser(name: string, personalIdentificationNumber: string, newId: string) returns (r: Result<UserImpl>)
      requires Valid()
      modifies usersRepository
      ensures old(PersonalIdTaken(usersRepository.entities, personalIdentificationNumber)) ==>
                r == Err(UseError(CREATE_USER, USER_PERSONAL_ID_NOT_UNIQUE)) &&
                usersRepository.entities == old(usersRepository.entities)
      ensures !old(PersonalIdTaken(usersRepository.entities, personalIdentificationNumber)) ==>
                && r.Ok? && fresh(r.value)
                && r.value.id == newId && r.value.name == name
                && r.value.personalIdentificationNumber == personalIdentificationNumber && r.value.active
                && usersRepository.entities == old(usersRepository.entities) + [r.value]
      ensures r.Ok? && old(usersRepository.GetEntityById(newId)).None? ==>
                usersRepository.GetEntityById(newId) == Some(r.value)
    {
      if PersonalIdTaken(usersRepository.All(), personalIdentificationNumber) {
        return Err(UseError(CREATE_USER, USER_PERSONAL_ID_NOT_UNIQUE));
      }
      var user := new UserImpl(newId, name, personalIdentificationNumber, true);
      if usersRepository.GetEntityById(newId).None? {
        FirstWithIdAfterAppend(usersRepository.entities, usersRepository.idOf, user);
      }
      var saved := usersRepository.Save(user);
      return Ok(saved);
    }

    /**
     * `changeUser`: an unknown id is NOT_FOUND; otherwise the consumer's calls
     * are applied to the stored user in order, and it is saved unless a
     * personal id was rejected.
     */
    method ChangeUser(userId: string, calls: seq<UserChange>) returns (r: Result<UserImpl>, rejected: seq<UseError>)
      requires Valid()
      modifies usersRepository, usersRepository.entities
      ensures r.Ok? ==> r.value.id == userId
      ensures old(usersRepository.GetEntityById(userId)).None? ==>
                && r == Err(UseError(UPDATE_USER, NOT_FOUND)) && rejected == []
                && usersRepository.entities == old(usersRepository.entities)
      ensures old(usersRepository.GetEntityById(userId)).Some? ==>
                var u := old(usersRepository.GetEntityById(userId)).value;
                var e := ReplayUserChanges(UserEdit(old(u.name), old(u.personalIdentificationNumber), true, []),
                                           old(OtherPersonalIds(usersRepository.entities, u)), calls);
                && r == Ok(u) && rejected == e.rejected
                && u.name == e.name && u.personalIdentificationNumber == e.pid && u.active == old(u.active)
                && usersRepository.entities == old(usersRepository.entities) + (if e.save then [u] else [])
      ensures forall v :: v in old(usersRepository.entities) && (r.Err? || v != r.value) ==> unchanged(v)
    {
      var found := usersRepository.GetEntityById(userId);
      if found.None? {
        return Err(UseError(UPDATE_USER, NOT_FOUND)), [];
      }
      var user := found.value;
      ghost var stored := usersRepository.entities;
      ghost var taken := OtherPersonalIds(stored, user);
      ghost var start := UserEdit(user.name, user.personalIdentificationNumber, true, []);
      var ifPersonalIdIsUnique := true;
      rejected := [];
      var i := 0;
      while i < |calls|
        invariant 0 <= i <= |calls|
        invariant usersRepository.entities == stored && user in stored
        invariant user.active == old(user.active)
        invariant forall v :: v in stored && v != user ==> unchanged(v)
        invariant OtherPersonalIds(stored, user) == taken
        invariant ReplayUserChanges(start, taken, calls) ==
                  ReplayUserChanges(UserEdit(user.name, user.personalIdentificationNumber, ifPersonalIdIsUnique, rejected),
                                    taken, calls[i..])
        modifies user
      {
        assert calls[i..] == [calls[i]] + calls[i + 1..];
        match calls[i] {
          case SetName(n) =>
            user.name := n;
          case SetPersonalIdentificationNumber(p) =>
            PersonalIdTakenSplit(stored, user, p, taken);
            if PersonalIdTaken(usersRepository.All(), p) {
              ifPersonalIdIsUnique := false;
              rejected := rejected + [UseError(UPDATE_USER, USER_PERSONAL_ID_NOT_UNIQUE)];
            } else {
              user.personalIdentificationNumber := p;
            }
        }
        i := i + 1;
      }
      if ifPersonalIdIsUnique {
        var _ := usersRepository.Save(user);
      }
      return Ok(user), rejected;
    }

    /** `inactivateUser`: an unknown id is NOT_FOUND; otherwise the user becomes inactive and is saved again. */
    method InactivateUser(userId: string) returns (r: Result<UserImpl>)
      requires Valid()
      modifies usersRepository, usersRepository.entities
      ensures r.Ok? ==> r.value.id == userId
      ensures old(usersRepository.GetEntityById(userId)).None? ==>
                r == Err(UseError(UPDATE_USER, NOT_FOUND)) && usersRepository.entities == old(usersRepository.entities)
      ensures old(usersRepository.GetEntityById(userId)).Some? ==>
                var u := old(usersRepository.GetEntityById(userId)).value;
                && r == Ok(u) && !u.active
                && u.name == old(u.name) && u.personalIdentificationNumber == old(u.personalIdentificationNumber)
                && usersRepository.entities == old(usersRepository.entities) + [u]
      ensures forall v :: v in old(usersRepository.entities) && (r.Err? || v != r.value) ==> unchanged(v)
    {
      var found := usersRepository.GetEntityById(userId);
      if found.None? {
        return Err(UseError(UPDATE_USER, NOT_FOUND));
      }
      var user := found.value;
      user.active := false;
      var _ := usersRepository.Save(user);
      return Ok(user);
    }

    /** `getUser`: the repository lookup. */
    method GetUser(userId: string) returns (r: Option<UserImpl>)
      requires Valid()
      ensures r == FirstWithId(usersRepository.entities, usersRepository.idOf, userId)
      ensures r.None? <==> forall k :: 0 <= k < |usersRepository.entities| ==> usersRepository.entities[k].id != userId
      ensures r.Some? ==> r.value.id == userId && r.value in usersRepository.entities
    {
      r := usersRepository.GetEntityById(userId);
    }

    /**
     * `find`: pages all users first, keeps the active users whose lower-cased
     * name contains the search string, then sorts by name or personal id.
     */
    method Find(searchString: string, pageNumber: Option<int>, pageSize: Option<int>, sortOrder: SortOrder)
      returns (r: seq<UserImpl>)
      requires Valid()
      requires LimitArgumentValid(pageNumber, pageSize)
      ensures var selected := SelectUsers(ApplyPage(usersRepository.entities, pageNumber, pageSize), searchString);
              && multiset(r) == multiset(selected)
              && (sortOrder == Unsorted ==> r == selected)
              && (sortOrder == Name ==> forall i, j :: 0 <= i < j < |r| ==> LexLessEq(r[i].name, r[j].name))
              && (sortOrder == PersonalId ==>
                    forall i, j :: 0 <= i < j < |r| ==>
                      LexLessEq(r[i].personalIdentificationNumber, r[j].personalIdentificationNumber))
      ensures forall k :: 0 <= k < |r| ==> r[k].active && Contains(ToLower(r[k].name), searchString)
    {
      var user := SelectUsers(ApplyPage(usersRepository.All(), pageNumber, pageSize), searchString);
      match sortOrder {
        case Name =>
          r := SortUsersByName(user);
        case PersonalId =>
          r := SortUsersByPersonalId(user);
        case Unsorted =>
          r := user;
      }
      PermutationKeepsMembers(r, user);
    }
  }

  /** `sorted(comparing(User::getName))`. */
  method SortUsersByName(s: seq<UserImpl>) returns (r: seq<UserImpl>)
    ensures multiset(r) == multiset(s)
    ensures forall i, j :: 0 <= i < j < |r| ==> LexLessEq(r[i].name, r[j].name)
  {
    var names := map u | u in s :: u.name;
    var key := (u: UserImpl) => if u in names then names[u] else "";
    r := SortBy(s, key);
    PermutationKeepsMembers(r, s);
  }

  /** `sorted(comparing(User::getPersonalIdentificationNumber))`. */
  method SortUsersByPersonalId(s: seq<UserImpl>) returns (r: seq<UserImpl>)
    ensures multiset(r) == multiset(s)
    ensures forall i, j :: 0 <= i < j < |r| ==> LexLessEq(r[i].personalIdentificationNumber, r[j].personalIdentificationNumber)
  {
    var pids := map u | u in s :: u.personalIdentificationNumber;
    var key := (u: UserImpl) => if u in pids then pids[u] else "";
    r := SortBy(s, key);
    PermutationKeepsMembers(r, s);
  }

  /** With `u` stored, a personal id is held exactly when `u` holds it or another stored user does. */
  lemma PersonalIdTakenSplit(s: seq<UserImpl>, u: UserImpl, p: string, taken: set<string>)
    requires u in s && taken == OtherPersonalIds(s, u)
    ensures PersonalIdTaken(s, p) <==> p in taken || p == u.personalIdentificationNumber
  {
    if p in taken {
      var k :| 0 <= k < |s| && s[k] != u && s[k].personalIdentificationNumber == p;
    }
    if PersonalIdTaken(s, p) {
      var k :| 0 <= k < |s| && s[k].personalIdentificationNumber == p;
      if s[k] != u {
        assert p in OtherPersonalIds(s, u);
      }
    }
  }
}
