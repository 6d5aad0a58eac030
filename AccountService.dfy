/**
 * Account lifecycle (impl/AccountServiceImpl.java). The accounts are the
 * objects held by the accounts store, so changing one changes what the store
 * shows; saving it again appends a second reference. The `changeAccount`
 * consumer is modelled by the names it passes to `setName`, in order; a
 * rejected name throws to the consumer, which here catches it.
 */
module AccountService {
  import opened Errors
  import opened Entities
  import opened Repository
  import opened ListUtils
  import opened Text
  import opened Sorting

  /** `AccountService.SortOrder`; `Unsorted` is the constant named `None`. */
  datatype SortOrder = Unsorted | AccountName

  /** `checkIfAccountNameIsUnique` fails: some stored account has the name. */
  predicate AccountNameTaken(s: seq<AccountImpl>, name: string)
    reads s
  {
    exists k :: 0 <= k < |s| && s[k].name == name
  }

  /** The names of the stored accounts other than `a`. */
  function OtherAccountNames(s: seq<AccountImpl>, a: AccountImpl): set<string>
    reads s
  {
    set k | 0 <= k < |s| && s[k] != a :: s[k].name
  }

  /** Distinct stored accounts have distinct names. */
  predicate AccountNamesDistinct(s: seq<AccountImpl>)
    reads s
  {
    forall i, j :: 0 <= i < |s| && 0 <= j < |s| && s[i] != s[j] ==> s[i].name != s[j].name
  }

  /** The changed account's name, the `save` flag and the rejections so far. */
  datatype AccountEdit = AccountEdit(name: string, save: bool, rejected: seq<UseError>)

  /**
   * One `setName` call. The uniqueness test comes first and the account being
   * changed is itself stored, so its current name counts as taken; the
   * following same-name test can then never hold.
   */
  function ApplySetName(e: AccountEdit, taken: set<string>, name: string): AccountEdit {
    if name in taken || name == e.name then
      e.(save := false, rejected := e.rejected + [UseError(UPDATE_ACCOUNT, ACCOUNT_NAME_NOT_UNIQUE)])
    else
      e.(name := name)
  }

  /** The consumer's `setName` calls, in order. */
  function ReplaySetNames(e: AccountEdit, taken: set<string>, names: seq<string>): AccountEdit
    decreases |names|
  {
    if names == [] then e else ReplaySetNames(ApplySetName(e, taken, names[0]), taken, names[1..])
  }

  /** Renaming an account to the name it already has is refused as not unique. */
  lemma RenameToCurrentNameIsRejected(e: AccountEdit, taken: set<string>)
    ensures ReplaySetNames(e, taken, [e.name]) ==
            e.(save := false, rejected := e.rejected + [UseError(UPDATE_ACCOUNT, ACCOUNT_NAME_NOT_UNIQUE)])
  {
  }

  /** A name held by no other account and differing from the current one is taken over. */
  lemma FreshNameIsTakenOver(e: AccountEdit, taken: set<string>, name: string)
    requires name !in taken && name != e.name
    ensures ReplaySetNames(e, taken, [name]) == e.(name := name)
  {
  }

  /** The account never ends with a name another account holds. */
  lemma {:induction false} ReplayKeepsNameUnique(e: AccountEdit, taken: set<string>, names: seq<string>)
    requires e.name !in taken
    ensures ReplaySetNames(e, taken, names).name !in taken
    decreases |names|
  {
    if names != [] {
      ReplayKeepsNameUnique(ApplySetName(e, taken, names[0]), taken, names[1..]);
    }
  }

  /** Once a name has been rejected the account is not saved, whatever follows. */
  lemma {:induction false} RejectionBlocksSave(e: AccountEdit, taken: set<string>, names: seq<string>)
    requires !e.save
    ensures !ReplaySetNames(e, taken, names).save
    decreases |names|
  {
    if names != [] {
      RejectionBlocksSave(ApplySetName(e, taken, names[0]), taken, names[1..]);
    }
  }

  /** Rejections are only ever added behind the earlier ones, never dropped or reordered. */
  lemma {:induction false} RejectionsOnlyGrow(e: AccountEdit, taken: set<string>, names: seq<string>)
    ensures e.rejected <= ReplaySetNames(e, taken, names).rejected
    ensures |ReplaySetNames(e, taken, names).rejected| >= |e.rejected|
    decreases |names|
  {
    if names != [] {
      RejectionsOnlyGrow(ApplySetName(e, taken, names[0]), taken, names[1..]);
    }
  }

  /** The account is saved exactly when no name was rejected. */
  lemma {:induction false} SavedIffNoNameRejected(e: AccountEdit, taken: set<string>, names: seq<string>)
    requires e.save && e.rejected == []
    ensures var e' := ReplaySetNames(e, taken, names); e'.save <==> e'.rejected == []
    decreases |names|
  {
    if names != [] {
      var e1 := ApplySetName(e, taken, names[0]);
      if e1.save {
        SavedIffNoNameRejected(e1, taken, names[1..]);
      } else {
        RejectionBlocksSave(e1, taken, names[1..]);
        RejectionsOnlyGrow(e1, taken, names[1..]);
      }
    }
  }

  /** The two filters of `findAccounts` when no sort order is asked for. */
  datatype AccountFilter = OwnedOrSharedBy(userId: string) | NameContains(searchValue: string)

  predicate Passes(a: AccountImpl, f: AccountFilter)
    reads a
  {
    match f
    case OwnedOrSharedBy(userId) => HasOwnerOrMember(a, userId)
    case NameContains(searchValue) => Contains(ToLower(a.name), searchValue)
  }

  /** `filter(f)`: the stored accounts that pass, in order. */
  function SelectAccounts(s: seq<AccountImpl>, f: AccountFilter): (r: seq<AccountImpl>)
    reads s
    ensures forall k :: 0 <= k < |r| ==> Passes(r[k], f)
    ensures forall k :: 0 <= k < |s| && Passes(s[k], f) ==> s[k] in r
    ensures forall k :: 0 <= k < |r| ==> r[k] in s
  {
    if s == [] then []
    else
      var rest := SelectAccounts(s[1..], f);
      assert forall k :: 1 <= k < |s| ==> s[k] == s[1..][k - 1];
      if Passes(s[0], f) then [s[0]] + rest else rest
  }

  /** A single account is kept exactly when it passes. */
  lemma SelectAccountsSingleton(a: AccountImpl, f: AccountFilter)
    ensures SelectAccounts([a], f) == if Passes(a, f) then [a] else []
  {
    assert [a][1..] == [];
  }

  /** Selection distributes over concatenation: order and repeated references are kept. */
  lemma {:induction false} SelectAccountsConcat(a: seq<AccountImpl>, b: seq<AccountImpl>, f: AccountFilter)
    ensures SelectAccounts(a + b, f) == SelectAccounts(a, f) + SelectAccounts(b, f)
  {
    if a == [] {
      assert a + b == b;
    } else {
      assert (a + b)[0] == a[0] && (a + b)[1..] == a[1..] + b;
      SelectAccountsConcat(a[1..], b, f);
    }
  }

  /** An account stored twice, as a re-save leaves it, is found twice. */
  lemma ResavedAccountIsFoundTwice(a: AccountImpl, f: AccountFilter)
    requires Passes(a, f)
    ensures SelectAccounts([a, a], f) == [a, a]
  {
    assert [a, a] == [a] + [a];
    SelectAccountsConcat([a], [a], f);
    SelectAccountsSingleton(a, f);
  }

  /**
   * The names never decrease along `s`, read from the live fields.
   * `Sorting.SortedBy` takes a key function that reads no heap, so it cannot
   * state this of mutable account names; `FindAccounts` sorts through a
   * snapshot of the names and then states the order of the accounts as they
   * are.
   */
  predicate AccountsSortedByName(s: seq<AccountImpl>)
    reads s
  {
    forall i, j :: 0 <= i < j < |s| ==> LexLessEq(s[i].name, s[j].name)
  }

  /** Dropping the element at `m` keeps the ids apart from `ownerId` and from each other. */
  lemma DropKeepsIdsDistinct(s: seq<UserImpl>, m: nat, ownerId: string)
    requires m < |s|
    requires forall k :: 0 <= k < |s| ==> s[k].id != ownerId
    requires forall i, j :: 0 <= i < j < |s| ==> s[i].id != s[j].id
    ensures var r := s[..m] + s[m + 1..];
            && (forall k :: 0 <= k < |r| ==> r[k].id != ownerId)
            && (forall i, j :: 0 <= i < j < |r| ==> r[i].id != r[j].id)
  {
    var r := s[..m] + s[m + 1..];
    assert forall k :: 0 <= k < m ==> r[k] == s[k];
    assert forall k :: m <= k < |r| ==> r[k] == s[k + 1];
  }

  /** Removing a member keeps the members well formed. */
  lemma RemoveKeepsMembersWellFormed(s: seq<UserImpl>, x: UserImpl, ownerId: string)
    requires forall k :: 0 <= k < |s| ==> s[k].id != ownerId
    requires forall i, j :: 0 <= i < j < |s| ==> s[i].id != s[j].id
    ensures var r := RemoveFirst(s, x);
            && (forall k :: 0 <= k < |r| ==> r[k].id != ownerId)
            && (forall i, j :: 0 <= i < j < |r| ==> r[i].id != r[j].id)
  {
    if x in s {
      var m :| 0 <= m < |s| && s[m] == x && x !in s[..m] && RemoveFirst(s, x) == s[..m] + s[m + 1..];
      DropKeepsIdsDistinct(s, m, ownerId);
    }
  }

  class AccountServiceImpl {
    const usersRepository: RepositoryImpl<UserImpl>
    const accountsRepository: RepositoryImpl<AccountImpl>

    /** The stores are searched by the records' ids. */
    ghost predicate Valid() {
      usersRepository.idOf == UserId && accountsRepository.idOf == AccountId
    }

    constructor (usersRepository: RepositoryImpl<UserImpl>, accountsRepository: RepositoryImpl<AccountImpl>)
      requires usersRepository.idOf == UserId && accountsRepository.idOf == AccountId
      ensures Valid()
      ensures this.usersRepository == usersRepository && this.accountsRepository == accountsRepository
    {
      this.usersRepository := usersRepository;
      this.accountsRepository := accountsRepository;
    }

    /**
     * `createAccount`: an unknown owner is USER_NOT_FOUND and a name already
     * held by a stored account is ACCOUNT_NAME_NOT_UNIQUE; otherwise one new
     * active account without members is saved.
     */
    method CreateAccount(userId: string, accountName: string, newId: string) returns (r: Result<AccountImpl>)
      requires Valid()
      modifies accountsRepository
      ensures r.Ok? ==> r.value.owner.id == userId
      ensures r.Ok? && old(accountsRepository.GetEntityById(newId)).None? ==>
                accountsRepository.GetEntityById(newId) == Some(r.value)
      ensures old(usersRepository.GetEntityById(userId)).None? ==>
                r == Err(UseError(CREATE_ACCOUNT, USER_NOT_FOUND))
      ensures old(usersRepository.GetEntityById(userId)).Some? && old(AccountNameTaken(accountsRepository.entities, accountName)) ==>
                r == Err(UseError(CREATE_ACCOUNT, ACCOUNT_NAME_NOT_UNIQUE))
      ensures old(usersRepository.GetEntityById(userId)).Some? && !old(AccountNameTaken(accountsRepository.entities, accountName)) ==>
                && r.Ok? && fresh(r.value)
                && r.value.id == newId && r.value.owner == old(usersRepository.GetEntityById(userId)).value
                && r.value.name == accountName && r.value.active && r.value.users == []
                && accountsRepository.entities == old(accountsRepository.entities) + [r.value]
      ensures r.Err? ==> accountsRepository.entities == old(accountsRepository.entities)
      ensures old(AccountNamesDistinct(accountsRepository.entities)) ==> AccountNamesDistinct(accountsRepository.entities)
    {
      var user := usersRepository.GetEntityById(userId);
      if user.None? {
        return Err(UseError(CREATE_ACCOUNT, USER_NOT_FOUND));
      }
      var account := new AccountImpl(newId, user.value, accountName, true);
      if AccountNameTaken(accountsRepository.All(), accountName) {
        return Err(UseError(CREATE_ACCOUNT, ACCOUNT_NAME_NOT_UNIQUE));
      }
      if accountsRepository.GetEntityById(newId).None? {
        FirstWithIdAfterAppend(accountsRepository.entities, accountsRepository.idOf, account);
      }
      var saved := accountsRepository.Save(account);
      return Ok(saved);
    }

    /**
     * `changeAccount`: ACCOUNT_NOT_FOUND, then NOT_OWNER, then NOT_ACTIVE;
     * otherwise each name is tried in order and the account is saved unless
     * one was rejected.
     */
    method ChangeAccount(userId: string, accountId: string, names: seq<string>)
      returns (r: Result<AccountImpl>, rejected: seq<UseError>)
      requires Valid()
      modifies accountsRepository, accountsRepository.entities
      ensures r.Ok? ==> r.value.id == accountId
      ensures var found := old(accountsRepository.GetEntityById(accountId));
              && (found.None? ==> r == Err(UseError(UPDATE_ACCOUNT, ACCOUNT_NOT_FOUND)) && rejected == [])
              && (found.Some? && old(found.value.owner.id) != userId ==>
                    r == Err(UseError(UPDATE_ACCOUNT, NOT_OWNER)) && rejected == [])
              && (found.Some? && old(found.value.owner.id) == userId && !old(found.value.active) ==>
                    r == Err(UseError(UPDATE_ACCOUNT, NOT_ACTIVE)) && rejected == [])
              && (found.Some? && old(found.value.owner.id) == userId && old(found.value.active) ==>
                    var a := found.value;
                    var e := ReplaySetNames(AccountEdit(old(a.name), true, []),
                                            old(OtherAccountNames(accountsRepository.entities, a)), names);
                    && r == Ok(a) && rejected == e.rejected && a.name == e.name
                    && a.owner == old(a.owner) && a.active && a.users == old(a.users)
                    && accountsRepository.entities == old(accountsRepository.entities) + (if e.save then [a] else []))
      ensures r.Err? ==> accountsRepository.entities == old(accountsRepository.entities)
      ensures forall v :: v in old(accountsRepository.entities) && (r.Err? || v != r.value) ==> unchanged(v)
      ensures old(AccountNamesDistinct(accountsRepository.entities)) ==> AccountNamesDistinct(accountsRepository.entities)
    {
      var found := accountsRepository.GetEntityById(accountId);
      if found.None? {
        return Err(UseError(UPDATE_ACCOUNT, ACCOUNT_NOT_FOUND)), [];
      }
      var account := found.value;
      if account.owner.id != userId {
        return Err(UseError(UPDATE_ACCOUNT, NOT_OWNER)), [];
      }
      if !account.active {
        return Err(UseError(UPDATE_ACCOUNT, NOT_ACTIVE)), [];
      }
      ghost var stored := accountsRepository.entities;
      ghost var taken := OtherAccountNames(stored, account);
      ghost var start := AccountEdit(account.name, true, []);
      ghost var distinct := AccountNamesDistinct(stored);
      if distinct {
        assert account.name !in taken;
      }
      var save := true;
      rejected := [];
      var i := 0;
      while i < |names|
        invariant 0 <= i <= |names|
        invariant accountsRepository.entities == stored && account in stored
        invariant account.owner == old(account.owner) && account.active && account.users == old(account.users)
        invariant forall v :: v in stored && v != account ==> unchanged(v)
        invariant OtherAccountNames(stored, account) == taken
        invariant ReplaySetNames(start, taken, names) ==
                  ReplaySetNames(AccountEdit(account.name, save, rejected), taken, names[i..])
        invariant distinct ==> account.name !in taken
        modifies account
      {
        assert names[i..] == [names[i]] + names[i + 1..];
        var name := names[i];
        NameTakenSplit(stored, account, name, taken);
        if AccountNameTaken(accountsRepository.All(), name) {
          save := false;
          rejected := rejected + [UseError(UPDATE_ACCOUNT, ACCOUNT_NAME_NOT_UNIQUE)];
        } else if account.name == name {
          save := false;
        } else {
          account.name := name;
        }
        i := i + 1;
      }
      if distinct {
        NamesDistinctAfterRename(stored, account);
      }
      if save {
        var _ := accountsRepository.Save(account);
        if distinct {
          assert accountsRepository.entities == stored + [account];
          AppendStoredKeepsDistinct(stored, account);
        }
      }
      return Ok(account), rejected;
    }

    /**
     * `addUserToAccount`: USER_NOT_FOUND, NOT_FOUND, ACCOUNT_NOT_ACTIVE,
     * CANNOT_ADD_OWNER_AS_USER, USER_ALREADY_ASSIGNED_TO_THIS_ACCOUNT and
     * NOT_OWNER, tested in that order; otherwise the user joins the members
     * and the account is saved again.
     */
    method AddUserToAccount(userId: string, accountId: string, userIdToBeAssigned: string) returns (r: Result<AccountImpl>)
      requires Valid()
      modifies accountsRepository, accountsRepository.entities
      ensures r.Ok? ==> |r.value.users| > 0 && r.value.users[|r.value.users| - 1].id == userIdToBeAssigned
      ensures r.Ok? ==> r.value.id == accountId
      ensures var u := old(usersRepository.GetEntityById(userIdToBeAssigned));
              var found := old(accountsRepository.GetEntityById(accountId));
              && (u.None? ==> r == Err(UseError(UPDATE_ACCOUNT, USER_NOT_FOUND)))
              && (u.Some? && found.None? ==> r == Err(UseError(UPDATE_ACCOUNT, NOT_FOUND)))
              && (u.Some? && found.Some? ==>
                    var a := found.value;
                    && (!old(a.active) ==> r == Err(UseError(UPDATE_ACCOUNT, ACCOUNT_NOT_ACTIVE)))
                    && (old(a.active) && userId == u.value.id ==>
                          r == Err(UseError(UPDATE_ACCOUNT, CANNOT_ADD_OWNER_AS_USER)))
                    && (old(a.active) && userId != u.value.id && old(HasMemberWithId(a, u.value.id)) ==>
                          r == Err(UseError(UPDATE_ACCOUNT, USER_ALREADY_ASSIGNED_TO_THIS_ACCOUNT)))
                    && (old(a.active) && userId != u.value.id && !old(HasMemberWithId(a, u.value.id)) &&
                        old(a.owner.id) != userId ==>
                          r == Err(UseError(UPDATE_ACCOUNT, NOT_OWNER)))
                    && (old(a.active) && userId != u.value.id && !old(HasMemberWithId(a, u.value.id)) &&
                        old(a.owner.id) == userId ==>
                          && r == Ok(a) && a.users == old(a.users) + [u.value]
                          && a.owner == old(a.owner) && a.name == old(a.name) && a.active
                          && accountsRepository.entities == old(accountsRepository.entities) + [a]))
      ensures r.Err? ==> accountsRepository.entities == old(accountsRepository.entities)
      ensures forall v :: v in old(accountsRepository.entities) && (r.Err? || v != r.value) ==> unchanged(v)
      ensures r.Ok? && old(MembersWellFormed(r.value)) ==> MembersWellFormed(r.value)
    {
      var newUser := usersRepository.GetEntityById(userIdToBeAssigned);
      if newUser.None? {
        return Err(UseError(UPDATE_ACCOUNT, USER_NOT_FOUND));
      }
      var found := accountsRepository.GetEntityById(accountId);
      if found.None? {
        return Err(UseError(UPDATE_ACCOUNT, NOT_FOUND));
      }
      var account := found.value;
      if !account.active {
        return Err(UseError(UPDATE_ACCOUNT, ACCOUNT_NOT_ACTIVE));
      }
      if userId == newUser.value.id {
        return Err(UseError(UPDATE_ACCOUNT, CANNOT_ADD_OWNER_AS_USER));
      }
      if HasMemberWithId(account, newUser.value.id) {
        return Err(UseError(UPDATE_ACCOUNT, USER_ALREADY_ASSIGNED_TO_THIS_ACCOUNT));
      }
      if account.owner.id != userId {
        return Err(UseError(UPDATE_ACCOUNT, NOT_OWNER));
      }
      account.AddUser(newUser.value);
      var saved := accountsRepository.Save(account);
      return Ok(saved);
    }

    /**
     * `removeUserFromAccount`: NOT_FOUND, USER_NOT_FOUND, NOT_OWNER and
     * USER_NOT_ASSIGNED_TO_THIS_ACCOUNT, tested in that order; otherwise the
     * stored user is dropped from the members and the account is saved again.
     */
    method RemoveUserFromAccount(userId: string, accountId: string, userIdToBeAssigned: string) returns (r: Result<AccountImpl>)
      requires Valid()
      modifies accountsRepository, accountsRepository.entities
      ensures r.Ok? ==> r.value.id == accountId
      ensures var found := old(accountsRepository.GetEntityById(accountId));
              var u := old(usersRepository.GetEntityById(userIdToBeAssigned));
              && (found.None? ==> r == Err(UseError(UPDATE_ACCOUNT, NOT_FOUND)))
              && (found.Some? && u.None? ==> r == Err(UseError(UPDATE_ACCOUNT, USER_NOT_FOUND)))
              && (found.Some? && u.Some? ==>
                    var a := found.value;
                    && (old(a.owner.id) != userId ==> r == Err(UseError(UPDATE_ACCOUNT, NOT_OWNER)))
                    && (old(a.owner.id) == userId && !old(HasMemberWithId(a, userIdToBeAssigned)) ==>
                          r == Err(UseError(UPDATE_ACCOUNT, USER_NOT_ASSIGNED_TO_THIS_ACCOUNT)))
                    && (old(a.owner.id) == userId && old(HasMemberWithId(a, userIdToBeAssigned)) ==>
                          && r == Ok(a) && a.users == RemoveFirst(old(a.users), u.value)
                          && a.owner == old(a.owner) && a.name == old(a.name) && a.active == old(a.active)
                          && accountsRepository.entities == old(accountsRepository.entities) + [a]))
      ensures r.Err? ==> accountsRepository.entities == old(accountsRepository.entities)
      ensures forall v :: v in old(accountsRepository.entities) && (r.Err? || v != r.value) ==> unchanged(v)
      ensures r.Ok? && old(MembersWellFormed(r.value)) ==> MembersWellFormed(r.value)
    {
      var found := accountsRepository.GetEntityById(accountId);
      if found.None? {
        return Err(UseError(UPDATE_ACCOUNT, NOT_FOUND));
      }
      var user := usersRepository.GetEntityById(userIdToBeAssigned);
      if user.None? {
        return Err(UseError(UPDATE_ACCOUNT, USER_NOT_FOUND));
      }
      var account := found.value;
      if account.owner.id != userId {
        return Err(UseError(UPDATE_ACCOUNT, NOT_OWNER));
      }
      if !HasMemberWithId(account, userIdToBeAssigned) {
        return Err(UseError(UPDATE_ACCOUNT, USER_NOT_ASSIGNED_TO_THIS_ACCOUNT));
      }
      if MembersWellFormed(account) {
        RemoveKeepsMembersWellFormed(account.users, user.value, account.owner.id);
      }
      account.RemoveUser(user.value);
      var saved := accountsRepository.Save(account);
      return Ok(saved);
    }

    /**
     * `inactivateAccount`: USER_NOT_FOUND, NOT_FOUND, NOT_ACTIVE and
     * NOT_OWNER, tested in that order; otherwise the account becomes inactive
     * and is saved again.
     */
    method InactivateAccount(userId: string, accountId: string) returns (r: Result<AccountImpl>)
      requires Valid()
      modifies accountsRepository, accountsRepository.entities
      ensures r.Ok? ==> r.value.id == accountId
      ensures var u := old(usersRepository.GetEntityById(userId));
              var found := old(accountsRepository.GetEntityById(accountId));
              && (u.None? ==> r == Err(UseError(INACTIVATE_ACCOUNT, USER_NOT_FOUND)))
              && (u.Some? && found.None? ==> r == Err(UseError(INACTIVATE_ACCOUNT, NOT_FOUND)))
              && (u.Some? && found.Some? ==>
                    var a := found.value;
                    && (!old(a.active) ==> r == Err(UseError(INACTIVATE_ACCOUNT, NOT_ACTIVE)))
                    && (old(a.active) && old(a.owner.id) != u.value.id ==>
                          r == Err(UseError(INACTIVATE_ACCOUNT, NOT_OWNER)))
                    && (old(a.active) && old(a.owner.id) == u.value.id ==>
                          && r == Ok(a) && !a.active
                          && a.owner == old(a.owner) && a.name == old(a.name) && a.users == old(a.users)
                          && accountsRepository.entities == old(accountsRepository.entities) + [a]))
      ensures r.Err? ==> accountsRepository.entities == old(accountsRepository.entities)
      ensures forall v :: v in old(accountsRepository.entities) && (r.Err? || v != r.value) ==> unchanged(v)
    {
      var user := usersRepository.GetEntityById(userId);
      if user.None? {
        return Err(UseError(INACTIVATE_ACCOUNT, USER_NOT_FOUND));
      }
      var found := accountsRepository.GetEntityById(accountId);
      if found.None? {
        return Err(UseError(INACTIVATE_ACCOUNT, NOT_FOUND));
      }
      var account := found.value;
      if !account.active {
        return Err(UseError(INACTIVATE_ACCOUNT, NOT_ACTIVE));
      }
      if account.owner.id != user.value.id {
        return Err(UseError(INACTIVATE_ACCOUNT, NOT_OWNER));
      }
      account.active := false;
      var saved := accountsRepository.Save(account);
      return Ok(saved);
    }

    /**
     * `findAccounts`. By name: every stored account sorted by name, paged
     * when a page number or size is given. Unsorted: with an empty search and
     * no user, the stored accounts paged; with a user, the accounts it owns or
     * is a member of; otherwise the accounts whose lower-cased name contains
     * the search value. The last two are never paged.
     */
    method FindAccounts(searchValue: string, userId: Option<string>, pageNumber: Option<int>, pageSize: Option<int>,
                        sortOrder: SortOrder)
      returns (r: seq<AccountImpl>)
      requires Valid()
      requires sortOrder == AccountName || (searchValue == [] && userId.None?) ==> LimitArgumentValid(pageNumber, pageSize)
      ensures sortOrder == AccountName ==>
                exists sorted :: AccountsSortedByName(sorted) && multiset(sorted) == multiset(accountsRepository.entities) &&
                                 r == ApplyPage(sorted, pageNumber, pageSize)
      ensures sortOrder == Unsorted && searchValue == [] && userId.None? ==>
                r == ApplyPage(accountsRepository.entities, pageNumber, pageSize)
      ensures sortOrder == Unsorted && userId.Some? ==>
                r == SelectAccounts(accountsRepository.entities, OwnedOrSharedBy(userId.value))
      ensures sortOrder == Unsorted && searchValue != [] && userId.None? ==>
                r == SelectAccounts(accountsRepository.entities, NameContains(searchValue))
    {
      var account := accountsRepository.All();
      match sortOrder {
        case AccountName =>
          var names := map a | a in account :: a.name;
          var key := (a: AccountImpl) => if a in names then names[a] else "";
          var sorted := SortBy(account, key);
          PermutationKeepsMembers(sorted, account);
          assert AccountsSortedByName(sorted);
          if pageNumber.Some? || pageSize.Some? {
            r := ApplyPage(sorted, pageNumber, pageSize);
          } else {
            NoPageArgumentsKeepEverything(sorted);
            r := sorted;
          }
        case Unsorted =>
          if searchValue == [] && userId.None? {
            r := ApplyPage(account, pageNumber, pageSize);
          } else if userId.Some? {
            r := SelectAccounts(account, OwnedOrSharedBy(userId.value));
          } else {
            r := SelectAccounts(account, NameContains(searchValue));
          }
      }
    }
  }

  /** With `a` stored, a name is held exactly when `a` holds it or another stored account does. */
  lemma NameTakenSplit(s: seq<AccountImpl>, a: AccountImpl, name: string, taken: set<string>)
    requires a in s && taken == OtherAccountNames(s, a)
    ensures AccountNameTaken(s, name) <==> name in taken || name == a.name
  {
    if name in taken {
      var k :| 0 <= k < |s| && s[k] != a && s[k].name == name;
    }
    if AccountNameTaken(s, name) {
      var k :| 0 <= k < |s| && s[k].name == name;
      if s[k] != a {
        assert name in OtherAccountNames(s, a);
      }
    }
  }

  /** The names stay distinct when `a` holds a name no other stored account holds. */
  lemma NamesDistinctAfterRename(s: seq<AccountImpl>, a: AccountImpl)
    requires forall i, j :: 0 <= i < |s| && 0 <= j < |s| && s[i] != s[j] && s[i] != a && s[j] != a ==>
               s[i].name != s[j].name
    requires a.name !in OtherAccountNames(s, a)
    ensures AccountNamesDistinct(s)
  {
    forall i, j | 0 <= i < |s| && 0 <= j < |s| && s[i] != s[j] ensures s[i].name != s[j].name {
      if s[i] == a {
        assert s[j].name in OtherAccountNames(s, a);
      } else if s[j] == a {
        assert s[i].name in OtherAccountNames(s, a);
      }
    }
  }

  /** Appending an account already stored keeps the names distinct. */
  lemma AppendStoredKeepsDistinct(s: seq<AccountImpl>, a: AccountImpl)
    requires a in s && AccountNamesDistinct(s)
    ensures AccountNamesDistinct(s + [a])
  {
    var t := s + [a];
    var m :| 0 <= m < |s| && s[m] == a;
    assert forall i :: 0 <= i < |t| ==> t[i] == s[if i < |s| then i else m];
  }
}
