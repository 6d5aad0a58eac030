/**
 * Posting and balance (impl/TransactionServiceImpl.java). Amounts are whole
 * numbers and `created` is an already parsed minute. Monitors are foreign
 * callbacks; the model records each call they receive in a notification log.
 */
module TransactionService {
  import opened Errors
  import opened Entities
  import opened Repository

  /** A transaction enters the balance of `accountId` as of `cutoff` (`before(date) || equals(date)`). */
  predicate Counts(t: Transaction, accountId: string, cutoff: int) {
    t.account.id == accountId && t.created <= cutoff
  }

  /** `countSum`: the amounts on `accountId` created at or before `cutoff`, summed. */
  function Balance(ts: seq<Transaction>, accountId: string, cutoff: int): int {
    if ts == [] then 0
    else (if Counts(ts[0], accountId, cutoff) then ts[0].amount else 0) + Balance(ts[1..], accountId, cutoff)
  }

  /** Appending one transaction adds its amount exactly when it counts. */
  lemma {:induction false} BalanceAppend(ts: seq<Transaction>, t: Transaction, accountId: string, cutoff: int)
    ensures Balance(ts + [t], accountId, cutoff) ==
            Balance(ts, accountId, cutoff) + if Counts(t, accountId, cutoff) then t.amount else 0
  {
    if ts != [] {
      assert (ts + [t])[1..] == ts[1..] + [t];
      BalanceAppend(ts[1..], t, accountId, cutoff);
    }
  }

  /** The balance of a concatenation is the sum of the balances. */
  lemma {:induction false} BalanceConcat(xs: seq<Transaction>, ys: seq<Transaction>, accountId: string, cutoff: int)
    ensures Balance(xs + ys, accountId, cutoff) == Balance(xs, accountId, cutoff) + Balance(ys, accountId, cutoff)
  {
    if xs != [] {
      assert (xs + ys)[0] == xs[0] && (xs + ys)[1..] == xs[1..] + ys;
      assert Balance(xs + ys, accountId, cutoff) ==
             (if Counts(xs[0], accountId, cutoff) then xs[0].amount else 0) + Balance(xs[1..] + ys, accountId, cutoff);
      BalanceConcat(xs[1..], ys, accountId, cutoff);
    } else {
      assert xs + ys == ys;
    }
  }

  /** The balance does not depend on the order the transactions were stored in. */
  lemma {:induction false} BalanceIgnoresOrder(xs: seq<Transaction>, ys: seq<Transaction>, accountId: string, cutoff: int)
    requires multiset(xs) == multiset(ys)
    ensures Balance(xs, accountId, cutoff) == Balance(ys, accountId, cutoff)
    decreases |xs|
  {
    if xs != [] {
      var x := xs[0];
      assert x in multiset(ys);
      var k :| 0 <= k < |ys| && ys[k] == x;
      var rest := ys[..k] + ys[k + 1..];
      assert ys == ys[..k] + [x] + ys[k + 1..];
      assert multiset(ys) == multiset(rest) + multiset{x};
      assert xs == [x] + xs[1..];
      assert multiset(xs) == multiset{x} + multiset(xs[1..]);
      assert multiset(xs[1..]) == multiset(xs) - multiset{x};
      assert multiset(rest) == multiset(ys) - multiset{x};
      BalanceIgnoresOrder(xs[1..], rest, accountId, cutoff);
      BalanceConcat(ys[..k] + [x], ys[k + 1..], accountId, cutoff);
      BalanceConcat(ys[..k], [x], accountId, cutoff);
      BalanceConcat(ys[..k], ys[k + 1..], accountId, cutoff);
    }
  }

  /** The cutoff is inclusive: a transaction counts at its own minute and not before. */
  lemma CutoffIsInclusive(t: Transaction, cutoff: int)
    ensures Balance([t], t.account.id, t.created) == t.amount
    ensures cutoff < t.created ==> Balance([t], t.account.id, cutoff) == 0
  {
  }

  /** Admitting a posting whose check passed leaves its own as-of balance non-negative. */
  lemma AdmittedPostingIsFunded(ts: seq<Transaction>, t: Transaction)
    requires Balance(ts, t.account.id, t.created) + t.amount >= 0
    ensures Balance(ts + [t], t.account.id, t.created) >= 0
  {
    BalanceAppend(ts, t, t.account.id, t.created);
  }

  /** Deposits of 1, all on the account and within the cutoff, sum to their number. */
  lemma {:induction false} UnitDepositsSumToTheirCount(ts: seq<Transaction>, accountId: string, cutoff: int)
    requires forall i :: 0 <= i < |ts| ==> Counts(ts[i], accountId, cutoff) && ts[i].amount == 1
    ensures Balance(ts, accountId, cutoff) == |ts|
  {
    if ts != [] {
      UnitDepositsSumToTheirCount(ts[1..], accountId, cutoff);
    }
  }

  /**
   * Admission checks only the balance as of the new transaction's own minute,
   * in arrival order: a deposit of 100 at minute 40, a withdrawal of 100 at
   * minute 50 and then one at minute 45 all pass their checks, and the balance
   * as of minute 50 ends at -100.
   */
  lemma ArrivalOrderCanOverdrawALaterMinute(user: UserImpl, account: AccountImpl)
    ensures var deposit := Transaction("d", 40, user, account, 100);
            var late := Transaction("w50", 50, user, account, -100);
            var early := Transaction("w45", 45, user, account, -100);
            && Balance([], account.id, 40) + deposit.amount >= 0
            && Balance([deposit], account.id, 50) + late.amount >= 0
            && Balance([deposit, late], account.id, 45) + early.amount >= 0
            && Balance([deposit, late, early], account.id, 50) == -100
  {
    var deposit := Transaction("d", 40, user, account, 100);
    var late := Transaction("w50", 50, user, account, -100);
    var early := Transaction("w45", 45, user, account, -100);
    assert [deposit, late][1..] == [late];
    assert [deposit, late, early][1..] == [late, early];
    assert [late, early][1..] == [early];
    assert Balance([early], account.id, 50) == -100;
    assert Balance([late, early], account.id, 50) == -200;
    assert Balance([late], account.id, 45) == 0;
    assert Balance([deposit, late], account.id, 45) == 100;
  }

  /** What the service does with a monitor: one log entry per call. */
  type Monitor = nat
  datatype Notification = Notification(monitor: Monitor, transaction: Transaction)

  /** The calls `listMonitor.forEach(m -> m.accept(t))` makes, in registration order. */
  function NotifyAll(monitors: seq<Monitor>, t: Transaction): seq<Notification> {
    seq(|monitors|, k requires 0 <= k < |monitors| => Notification(monitors[k], t))
  }

  /**
   * A run of admitted postings with one registered monitor: step `i` is one
   * successful `createTransaction`, which notifies every monitor and then
   * appends `ts[i]`. The monitor is then called once per posting, in order,
   * with that posting, and the store grows by exactly those postings.
   */
  lemma {:induction false} OneMonitorSeesEveryPosting(m: Monitor, ts: seq<Transaction>,
                                                      logs: seq<seq<Notification>>, stores: seq<seq<Transaction>>)
    requires |logs| == |ts| + 1 && |stores| == |ts| + 1
    requires forall i :: 0 <= i < |ts| ==> logs[i + 1] == logs[i] + NotifyAll([m], ts[i])
    requires forall i :: 0 <= i < |ts| ==> stores[i + 1] == stores[i] + [ts[i]]
    ensures logs[|ts|] == logs[0] + seq(|ts|, i requires 0 <= i < |ts| => Notification(m, ts[i]))
    ensures |logs[|ts|]| == |logs[0]| + |ts|
    ensures stores[|ts|] == stores[0] + ts
  {
    var n := |ts|;
    if n > 0 {
      OneMonitorSeesEveryPosting(m, ts[..n - 1], logs[..n], stores[..n]);
      assert ts[..n - 1] + [ts[n - 1]] == ts;
      assert NotifyAll([m], ts[n - 1]) == [Notification(m, ts[n - 1])];
      assert seq(n - 1, i requires 0 <= i < n - 1 => Notification(m, ts[..n - 1][i])) + [Notification(m, ts[n - 1])]
          == seq(n, i requires 0 <= i < n => Notification(m, ts[i]));
    }
  }

  /** `checkIfUserIsOwnerOfAccount` passes: the user is the owner or a member has its id. */
  predicate MayPost(account: AccountImpl, user: UserImpl, userId: string)
    reads account
  {
    account.owner == user || HasMemberWithId(account, userId)
  }

  class TransactionServiceImpl {
    const usersRepository: RepositoryImpl<UserImpl>
    const accountsRepository: RepositoryImpl<AccountImpl>
    const transactionsRepository: RepositoryImpl<Transaction>
    /** The registered monitors, in registration order. */
    var listMonitor: seq<Monitor>
    /** Every monitor call made so far. */
    var notifications: seq<Notification>

    /** The stores are searched by the records' ids. */
    ghost predicate Valid() {
      && usersRepository.idOf == UserId
      && accountsRepository.idOf == AccountId
      && transactionsRepository.idOf == TransactionId
    }

    constructor (usersRepository: RepositoryImpl<UserImpl>, accountsRepository: RepositoryImpl<AccountImpl>,
                 transactionsRepository: RepositoryImpl<Transaction>)
      requires usersRepository.idOf == UserId && accountsRepository.idOf == AccountId
      requires transactionsRepository.idOf == TransactionId
      ensures Valid()
      ensures this.usersRepository == usersRepository && this.accountsRepository == accountsRepository
      ensures this.transactionsRepository == transactionsRepository
      ensures listMonitor == [] && notifications == []
    {
      this.usersRepository := usersRepository;
      this.accountsRepository := accountsRepository;
      this.transactionsRepository := transactionsRepository;
      listMonitor := [];
      notifications := [];
    }

    /** `countSum` over the stored transactions. */
    function CountSum(date: int, accountId: string): (r: int)
      reads transactionsRepository
      requires Valid()
      ensures r == Balance(transactionsRepository.entities, accountId, date)
    {
      Balance(transactionsRepository.All(), accountId, date)
    }

    /**
     * `createTransaction`: user lookup, account lookup, owner/member check,
     * funds check, then every monitor is called and the transaction is saved.
     * `newId` is the random UUID.
     */
    method CreateTransaction(created: int, userId: string, accountId: string, amount: int, newId: string)
      returns (r: Result<Transaction>)
      requires Valid()
      modifies this, transactionsRepository
      ensures listMonitor == old(listMonitor)
      ensures usersRepository.GetEntityById(userId).None? ==>
                r == Err(UseError(CREATE_TRANSACTION, USER_NOT_FOUND))
      ensures usersRepository.GetEntityById(userId).Some? && accountsRepository.GetEntityById(accountId).None? ==>
                r == Err(UseError(CREATE_TRANSACTION, ACCOUNT_NOT_FOUND))
      ensures usersRepository.GetEntityById(userId).Some? && accountsRepository.GetEntityById(accountId).Some? ==>
                var user := usersRepository.GetEntityById(userId).value;
                var account := accountsRepository.GetEntityById(accountId).value;
                && (!MayPost(account, user, userId) ==> r == Err(UseError(CREATE_TRANSACTION, NOT_ALLOWED)))
                && (MayPost(account, user, userId) && old(Balance(transactionsRepository.entities, accountId, created)) + amount < 0 ==>
                      r == Err(UseError(CREATE_TRANSACTION, NOT_FUNDED)))
                && (MayPost(account, user, userId) && old(Balance(transactionsRepository.entities, accountId, created)) + amount >= 0 ==>
                      r == Ok(Transaction(newId, created, user, account, amount)))
      ensures r.Err? ==> transactionsRepository.entities == old(transactionsRepository.entities)
      ensures r.Err? ==> notifications == old(notifications)
      ensures r.Ok? ==> transactionsRepository.entities == old(transactionsRepository.entities) + [r.value]
      ensures r.Ok? ==> notifications == old(notifications) + NotifyAll(listMonitor, r.value)
      ensures r.Ok? ==> Balance(transactionsRepository.entities, accountId, created) >= 0
    {
      var user := usersRepository.GetEntityById(userId);
      if user.None? {
        return Err(UseError(CREATE_TRANSACTION, USER_NOT_FOUND));
      }
      var account := accountsRepository.GetEntityById(accountId);
      if account.None? {
        return Err(UseError(CREATE_TRANSACTION, ACCOUNT_NOT_FOUND));
      }
      if !MayPost(account.value, user.value, userId) {
        return Err(UseError(CREATE_TRANSACTION, NOT_ALLOWED));
      }
      if CountSum(created, accountId) + amount < 0 {
        return Err(UseError(CREATE_TRANSACTION, NOT_FUNDED));
      }
      var transaction := Transaction(newId, created, user.value, account.value, amount);
      var i := 0;
      while i < |listMonitor|
        invariant 0 <= i <= |listMonitor|
        invariant notifications == old(notifications) + NotifyAll(listMonitor[..i], transaction)
        invariant listMonitor == old(listMonitor)
        invariant transactionsRepository.entities == old(transactionsRepository.entities)
      {
        notifications := notifications + [Notification(listMonitor[i], transaction)];
        i := i + 1;
      }
      assert listMonitor[..i] == listMonitor;
      AdmittedPostingIsFunded(transactionsRepository.entities, transaction);
      var saved := transactionsRepository.Save(transaction);
      return Ok(saved);
    }

    /** `sum`: account lookup, then the owner/member check, then the balance; nothing changes. */
    method Sum(created: int, userId: string, accountId: string) returns (r: Result<int>)
      requires Valid()
      ensures accountsRepository.GetEntityById(accountId).None? ==>
                r == Err(UseError(CREATE_TRANSACTION, ACCOUNT_NOT_FOUND))
      ensures accountsRepository.GetEntityById(accountId).Some? ==>
                var account := accountsRepository.GetEntityById(accountId).value;
                && (!HasOwnerOrMember(account, userId) ==> r == Err(UseError(SUM_TRANSACTION, NOT_ALLOWED)))
                && (HasOwnerOrMember(account, userId) ==> r == Ok(Balance(transactionsRepository.entities, accountId, created)))
    {
      var account := accountsRepository.GetEntityById(accountId);
      if account.None? {
        return Err(UseError(CREATE_TRANSACTION, ACCOUNT_NOT_FOUND));
      }
      if !HasOwnerOrMember(account.value, userId) {
        return Err(UseError(SUM_TRANSACTION, NOT_ALLOWED));
      }
      return Ok(CountSum(created, accountId));
    }

    /** `addMonitor`: registers at the end. */
    method AddMonitor(monitor: Monitor)
      requires Valid()
      modifies this
      ensures Valid()
      ensures listMonitor == old(listMonitor) + [monitor]
      ensures notifications == old(notifications)
    {
      listMonitor := listMonitor + [monitor];
    }
  }
}
