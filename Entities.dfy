/**
 * The records of the ledger. Users and accounts are mutable objects shared by
 * reference between the stores, the services and each other (impl/UserImpl.java,
 * impl/AccountImpl.java); a transaction is never changed after it is built
 * (impl/TransactionImpl.java). Java's `equals` between the records is
 * reference equality here: every record gets a fresh random id, so two
 * distinct records never agree on every field.
 */
module Entities {

  class UserImpl {
    const id: string
    var name: string
    var personalIdentificationNumber: string
    var active: bool

    constructor (id: string, name: string, personalIdentificationNumber: string, active: bool)
      ensures this.id == id && this.name == name
      ensures this.personalIdentificationNumber == personalIdentificationNumber
      ensures this.active == active
    {
      this.id := id;
      this.name := name;
      this.personalIdentificationNumber := personalIdentificationNumber;
      this.active := active;
    }
  }

  /** `s` without its first element equal to `x`, or `s` itself if there is none (`List.remove`). */
  function RemoveFirst<E(==)>(s: seq<E>, x: E): (r: seq<E>)
    ensures x !in s ==> r == s
    ensures x in s ==> exists i :: 0 <= i < |s| && s[i] == x && x !in s[..i] && r == s[..i] + s[i + 1..]
  {
    if s == [] then []
    else if s[0] == x then
      assert s[..0] == [] && s[1..] == s[0 + 1..];
      s[1..]
    else
      var rest := RemoveFirst(s[1..], x);
      if x in s[1..] then
        RemoveFirstShift(s, x, rest);
        [s[0]] + rest
      else
        [s[0]] + rest
  }

  lemma RemoveFirstShift<E>(s: seq<E>, x: E, rest: seq<E>)
    requires s != [] && s[0] != x
    requires exists i :: 0 <= i < |s[1..]| && s[1..][i] == x && x !in s[1..][..i] && rest == s[1..][..i] + s[1..][i + 1..]
    ensures exists i :: 0 <= i < |s| && s[i] == x && x !in s[..i] && [s[0]] + rest == s[..i] + s[i + 1..]
  {
    var i :| 0 <= i < |s[1..]| && s[1..][i] == x && x !in s[1..][..i] && rest == s[1..][..i] + s[1..][i + 1..];
    assert s[..i + 1] == [s[0]] + s[1..][..i];
    assert s[i + 2..] == s[1..][i + 1..];
    assert s[i + 1] == x;
  }

  class AccountImpl {
    const id: string
    var owner: UserImpl
    var name: string
    var active: bool
    /** The members, in the order they were added. */
    var users: seq<UserImpl>

    constructor (id: string, owner: UserImpl, name: string, active: bool)
      ensures this.id == id && this.owner == owner && this.name == name && this.active == active
      ensures users == []
    {
      this.id := id;
      this.owner := owner;
      this.name := name;
      this.active := active;
      users := [];
    }

    /** `getUsers`: the members in insertion order. */
    function GetUsers(): (r: seq<UserImpl>)
      reads this
      ensures r == users
    {
      users
    }

    /** `addUser`: appends at the end; nothing else changes. */
    method AddUser(user: UserImpl)
      modifies this
      ensures users == old(users) + [user]
      ensures owner == old(owner) && name == old(name) && active == old(active)
    {
      users := users + [user];
    }

    /** `removeUser`: drops the first member that is `user`; nothing else changes. */
    method RemoveUser(user: UserImpl)
      modifies this
      ensures users == RemoveFirst(old(users), user)
      ensures owner == old(owner) && name == old(name) && active == old(active)
    {
      users := RemoveFirst(users, user);
    }
  }

  /** Some member of `a` has the id (`getUsers().anyMatch(u -> u.getId().equals(id))`). */
  predicate HasMemberWithId(a: AccountImpl, id: string)
    reads a
  {
    exists k :: 0 <= k < |a.users| && a.users[k].id == id
  }

  /** The owner or a member of `a` has the id. */
  predicate HasOwnerOrMember(a: AccountImpl, id: string)
    reads a
  {
    a.owner.id == id || HasMemberWithId(a, id)
  }

  /**
   * What `addUserToAccount` keeps true of an account: no member has the
   * owner's id, and no two members share an id.
   */
  predicate MembersWellFormed(a: AccountImpl)
    reads a
  {
    && (forall k :: 0 <= k < |a.users| ==> a.users[k].id != a.owner.id)
    && (forall i, j :: 0 <= i < j < |a.users| ==> a.users[i].id != a.users[j].id)
  }

  /** A posted amount on an account at a minute (`created`), by a user. */
  datatype Transaction = Transaction(id: string, created: int, user: UserImpl, account: AccountImpl, amount: int)

  /** `getId()` of each record kind, the key its store is searched by. */
  function UserId(u: UserImpl): string { u.id }
  function AccountId(a: AccountImpl): string { a.id }
  function TransactionId(t: Transaction): string { t.id }
}
