# Banking ledger core in Dafny

This project models the sequential core of a small in-memory banking ledger: users, accounts shared between an owner and members, and transactions posted against accounts. It has three services:

- The user service creates users with unique personal ids, changes them, inactivates them and searches them.
- The account service creates accounts with unique names, renames them, adds and removes members, inactivates accounts and searches them.
- The transaction service posts amounts, checks funds and authorisation, notifies monitors and reports as-of balances.

Underneath sit an append-only store per entity kind and a pagination helper.

Every service failure is a use exception that carries an activity and an exception type. Here it is the `Err` of a `Result`, whose error is `UseError(activity, kind)`.

The model follows the objects of the program:

- Users and accounts are classes with a constant id and mutable fields.
- A store (`RepositoryImpl`) is a class holding a sequence of its entities plus the function that reads an entity's id.
- A service is a class holding its stores. Its `Valid()` says each store is searched by the records' own ids; the constructor establishes it, and every operation of the three services requires it (`AddMonitor` also keeps it).

A service changes a stored user or account in place and then saves it. Saving appends a second reference to the same object; it never replaces an entry. Each state-changing method states:

- its result;
- the new contents of the store;
- the changed object's new fields;
- that every other stored object is unchanged.

Each of the following is a pure specification function, and lemmas about it carry the properties:

- paging;
- lookup by id;
- the balance;
- the filters;
- sorting;
- the replay of the change callbacks.

Modelling choices:

- **Ids.** A random UUID becomes a `newId` parameter.
- **Time.** A timestamp is an integer minute.
- **Amounts.** An amount is an `int`.
- **Equality.** Java `equals` between users or accounts is reference equality, because every record carries its own random id.
- **Change callbacks.** The `changeUser` and `changeAccount` callbacks are modelled by the calls the consumer makes, in order. A call the service rejects throws into the consumer. The modelled consumer catches it and goes on, so the method also returns the rejections it raised.
- **Monitors.** The transaction monitors are modelled as a log of notifications.

Where the code and its description disagree, the model follows the code.

- **Rename to the current name.** `changeAccount` tests whether any stored account has the new name before it tests whether the name is the account's own. The account being renamed is itself stored. So renaming an account to the name it already has is rejected as ACCOUNT_NAME_NOT_UNIQUE, not treated as a no-op. The no-op branch cannot fire against the real store (`RenameToCurrentNameIsRejected`).
- **Own personal id.** `changeUser` likewise rejects a user's own current personal id as not unique.
- **Page end index.** When a page number and a size are both given and the page number is positive, the page ends at `pageNumber * (pageSize + 1)`, not at `(pageNumber + 1) * pageSize`. So with a positive page number, a size of zero or more and a list of at least `pageNumber * (pageSize + 1)` elements, the page holds exactly `pageNumber` elements whatever the size. A negative size makes the start index negative and the page empty, and a shorter list gives a shorter page.
- **Monitors before the save.** `createTransaction` calls every monitor before it saves the transaction, so a monitor runs while the transaction is not yet in the store (`CreateTransaction`).
- **No active check on posting.** `createTransaction` checks the user, the account, ownership or membership and the funds, but not whether the account is active, so an inactive account still accepts postings (`CreateTransaction`).
- **Funds check.** The funds check only looks at the balance as of the new posting's own minute. Posting a backdated withdrawal can therefore leave a later minute's balance negative (`ArrivalOrderCanOverdrawALaterMinute`).

## Model

| member | source | states |
|---|---|---|
| ListUtils.ApplyPage | src/main/java/se/sensera/banking/utils/ListUtils.java:9-35 | the page is a contiguous slice of the input, never longer than it; `limit` with a negative size is excluded by the requires because it throws |
| ListUtils.NoPageArgumentsKeepEverything | src/main/java/se/sensera/banking/utils/ListUtils.java:32-34 | with neither argument the input is returned unchanged |
| ListUtils.OnlyPageSizeTakesPrefix | src/main/java/se/sensera/banking/utils/ListUtils.java:32-33 | with only a size the page is the first `min(pageSize, n)` elements |
| ListUtils.OnlyPageNumberDropsPrefix | src/main/java/se/sensera/banking/utils/ListUtils.java:10-19 | with only a number the first `pageNumber` elements are dropped; a number that is negative or greater than `n` gives an empty page |
| ListUtils.BothArgumentsSlice | src/main/java/se/sensera/banking/utils/ListUtils.java:20-30 | with both arguments the page is the slice from `pageNumber*pageSize` to the end index as written, clamped to `n`, or empty when that range is invalid |
| ListUtils.StartPastEndIsEmpty | src/main/java/se/sensera/banking/utils/ListUtils.java:22-30 | a start index at or past the end gives an empty page, not an error |
| ListUtils.NegativePageNumberIsEmpty | src/main/java/se/sensera/banking/utils/ListUtils.java:12-30 | with a negative page number every size gives an empty page |
| ListUtils.PageHoldsPageNumberElements | src/main/java/se/sensera/banking/utils/ListUtils.java:22-28 | with a positive page number and a long enough list, the page holds exactly `pageNumber` elements whatever the size |
| ListUtils.TestVectors | src/test/java/se/sensera/banking/utils/ListUtilsTest.java:23-69 | the six expected pages of the test over the list 0..9 |
| Text.ContainsMeaning | src/main/java/se/sensera/banking/impl/UserServiceImpl.java:85 | `contains` holds exactly when the search string occurs at some index |
| Text.ToLower | src/main/java/se/sensera/banking/impl/UserServiceImpl.java:85 | `toLowerCase` on ASCII text: same length, no capital letter left, every other character kept and each capital moved to its lower-case letter |
| Text.LexTotal | src/main/java/se/sensera/banking/impl/UserServiceImpl.java:89 | the string order used by the comparators is total |
| Text.LexTransitive | src/main/java/se/sensera/banking/impl/UserServiceImpl.java:89 | the string order is transitive |
| Text.LexAntisymmetric | src/main/java/se/sensera/banking/impl/UserServiceImpl.java:89 | the string order is antisymmetric |
| Text.LexReflexive | src/main/java/se/sensera/banking/impl/UserServiceImpl.java:89 | the string order is reflexive |
| Text.LexLessEq | src/main/java/se/sensera/banking/impl/UserServiceImpl.java:89 | `compareTo(...) <= 0`, the order the name and personal-id comparators use; the four lemmas above prove it a total order |
| Sorting.Insert | src/main/java/se/sensera/banking/impl/UserServiceImpl.java:89 | inserting into a sorted list keeps it sorted and adds exactly the new element |
| Sorting.SortBy | src/main/java/se/sensera/banking/impl/UserServiceImpl.java:89-92 | `sorted(comparing(key))` returns a permutation of its input with non-decreasing keys |
| Sorting.PermutationKeepsMembers | src/main/java/se/sensera/banking/impl/AccountServiceImpl.java:159 | sorting brings in no element that was not in the input |
| Repository.FirstWithId | src/main/java/se/sensera/banking/impl/RepositoryImpl.java:15-20 | finds nothing exactly when no element has the id; otherwise finds an element with the id that no earlier element shares |
| Repository.FirstWithIdAfterAppend | src/main/java/se/sensera/banking/impl/RepositoryImpl.java:15-31 | after saving an entity whose id was absent, a lookup by that id returns it |
| Repository.FirstWithIdStableUnderAppend | src/main/java/se/sensera/banking/impl/RepositoryImpl.java:15-31 | saving never changes what an id already present finds, so a second save under that id does not replace the first |
| Repository.RepositoryImpl.GetEntityById | src/main/java/se/sensera/banking/impl/RepositoryImpl.java:15-20 | the lookup is the first stored entity with that id |
| Repository.RepositoryImpl.constructor | src/main/java/se/sensera/banking/impl/RepositoryImpl.java:11-12 | a new store is empty and reads ids through the given function |
| Repository.RepositoryImpl.All | src/main/java/se/sensera/banking/impl/RepositoryImpl.java:23-25 | a copy equal, element by element, to the contents in insertion order |
| Repository.RepositoryImpl.Save | src/main/java/se/sensera/banking/impl/RepositoryImpl.java:28-31 | appends the argument at the end, keeps every earlier entry and returns the argument |
| Repository.RepositoryImpl.Delete | src/main/java/se/sensera/banking/impl/RepositoryImpl.java:34-42 | the store is empty afterwards whatever the argument, and the argument is returned |
| Repository.Filter | src/main/java/se/sensera/banking/impl/RepositoryImpl.java:35-38 | every element kept passes the filter, every passing element is kept, and no more elements come out than went in |
| Repository.FilterSingleton | src/main/java/se/sensera/banking/impl/RepositoryImpl.java:35-38 | a single element is kept exactly when it passes |
| Repository.FilterConcat | src/main/java/se/sensera/banking/impl/RepositoryImpl.java:35-38 | filtering distributes over concatenation, so the input's order and repetitions are kept |
| Repository.FilterRejectingAllIsEmpty | src/main/java/se/sensera/banking/impl/RepositoryImpl.java:37 | a filter that compares each id with itself and negates rejects everything |
| Repository.SnapshotSurvivesSave | src/main/java/se/sensera/banking/impl/RepositoryImpl.java:23-31 | a usage example of `All` and `Save`: the snapshot `all` returned is still the old contents after a later save, and the store is that snapshot plus the saved entity. Sequences are values, so this follows from the two contracts |
| Entities.HasOwnerOrMember | src/main/java/se/sensera/banking/impl/TransactionServiceImpl.java:95-100 | `checkIfUsersExistInAccount` passes: the owner's id or some member's id is the given id; the same test filters `findAccounts` by user (AccountServiceImpl.java:170-172) |
| Entities.HasMemberWithId | src/main/java/se/sensera/banking/impl/AccountServiceImpl.java:105-117 | some member of the account has the id, the `anyMatch` test behind `checkIfUserIsAssignedToAccount` and `checkIfUserIsNotAssignedToAccount` and the member half of TransactionServiceImpl.java:65 |
| Entities.RemoveFirst | src/main/java/se/sensera/banking/impl/AccountImpl.java:36-38 | removes only the first element equal to the argument, or nothing when there is none |
| Entities.UserImpl.constructor | src/main/java/se/sensera/banking/impl/UserImpl.java:8-15 | the given id, name, personal id and active flag |
| Entities.AccountImpl.constructor | src/main/java/se/sensera/banking/impl/AccountImpl.java:19-24 | the given id, owner, name and active flag, with no members |
| Entities.AccountImpl.GetUsers | src/main/java/se/sensera/banking/impl/AccountImpl.java:26-28 | the members in insertion order |
| Entities.AccountImpl.AddUser | src/main/java/se/sensera/banking/impl/AccountImpl.java:31-33 | appends the user to the members; owner, name and active flag are unchanged |
| Entities.AccountImpl.RemoveUser | src/main/java/se/sensera/banking/impl/AccountImpl.java:36-38 | drops the first member equal to the user; the other fields are unchanged |
| TransactionService.Balance | src/main/java/se/sensera/banking/impl/TransactionServiceImpl.java:57-61 | the amounts of the transactions on the account created at or before the cutoff, summed; its properties are the lemmas below |
| TransactionService.MayPost | src/main/java/se/sensera/banking/impl/TransactionServiceImpl.java:63-68 | `checkIfUserIsOwnerOfAccount` passes: the looked-up user is the owner, or some member has the given id |
| TransactionService.NotifyAll | src/main/java/se/sensera/banking/impl/TransactionServiceImpl.java:39 | one notification per registered monitor, in registration order, each carrying the new transaction |
| TransactionService.BalanceAppend | src/main/java/se/sensera/banking/impl/TransactionServiceImpl.java:57-61 | a new transaction adds its amount to an as-of balance exactly when it is on the account and not later than the cutoff |
| TransactionService.BalanceConcat | src/main/java/se/sensera/banking/impl/TransactionServiceImpl.java:57-61 | the balance of two lists joined is the sum of their balances |
| TransactionService.BalanceIgnoresOrder | src/main/java/se/sensera/banking/impl/TransactionServiceImpl.java:57-61 | the balance is the same for every ordering of the same transactions |
| TransactionService.CutoffIsInclusive | src/main/java/se/sensera/banking/impl/TransactionServiceImpl.java:59 | a transaction counts at its own minute and not before it |
| TransactionService.AdmittedPostingIsFunded | src/main/java/se/sensera/banking/impl/TransactionServiceImpl.java:44-50 | a posting that passed the funds check leaves its as-of balance non-negative |
| TransactionService.UnitDepositsSumToTheirCount | src/main/java/se/sensera/banking/impl/TransactionServiceImpl.java:57-61 | `countSum` adds every counted amount once: n counted deposits of 1 sum to n |
| TransactionService.OneMonitorSeesEveryPosting | src/test/java/se/sensera/banking/TransactionServiceParallelTest.java:114-158 | over a run of successful postings with one monitor registered, each step as `CreateTransaction` ensures it, the monitor is called once per posting, in order, with that posting, and the store grows by exactly those postings, so n postings give n monitor calls and n stored transactions |
| TransactionService.ArrivalOrderCanOverdrawALaterMinute | src/main/java/se/sensera/banking/impl/TransactionServiceImpl.java:44-50 | postings admitted one at a time can leave the balance at a later minute negative |
| TransactionService.TransactionServiceImpl.CountSum | src/main/java/se/sensera/banking/impl/TransactionServiceImpl.java:57-61 | the sum of the stored amounts on the account created at or before the date |
| TransactionService.TransactionServiceImpl.constructor | src/main/java/se/sensera/banking/impl/TransactionServiceImpl.java:19-28 | the given stores, searched by the records' ids, with no monitor registered and no notification made |
| TransactionService.TransactionServiceImpl.CreateTransaction | src/main/java/se/sensera/banking/impl/TransactionServiceImpl.java:31-54 | USER_NOT_FOUND, then ACCOUNT_NOT_FOUND, then NOT_ALLOWED unless the user owns the account or a member has the id, then NOT_FUNDED when balance plus amount is negative, all with activity CREATE_TRANSACTION. On failure nothing is saved and no monitor is called. On success every monitor is notified in registration order, one transaction with the new id and the given fields is appended and returned, and its as-of balance is non-negative |
| TransactionService.TransactionServiceImpl.Sum | src/main/java/se/sensera/banking/impl/TransactionServiceImpl.java:86-100 | an unknown account gives ACCOUNT_NOT_FOUND (CREATE_TRANSACTION); a user who neither owns nor is a member of the account gives NOT_ALLOWED (SUM_TRANSACTION); otherwise the balance, with nothing changed |
| TransactionService.TransactionServiceImpl.AddMonitor | src/main/java/se/sensera/banking/impl/TransactionServiceImpl.java:103-105 | the monitor is registered last; nothing else changes |
| UserService.PersonalIdTaken | src/main/java/se/sensera/banking/impl/UserServiceImpl.java:32-35 | the personal id helper: true exactly when some stored user, active or not, holds the id |
| UserService.ApplyUserChange | src/main/java/se/sensera/banking/impl/UserServiceImpl.java:44-55 | one consumer call: a name is set unconditionally; a personal id held by another stored user or by this user is rejected and clears the save flag, any other replaces the id |
| UserService.ReplayUserChanges | src/main/java/se/sensera/banking/impl/UserServiceImpl.java:42-56 | the consumer's calls applied in order, each through `ApplyUserChange` against the personal ids of the other stored users; the lemmas below state what the run keeps and when it saves |
| UserService.NameChangeTouchesOnlyName | src/main/java/se/sensera/banking/impl/UserServiceImpl.java:44-46 | a name change alters only the name |
| UserService.PersonalIdChangeTouchesOnlyId | src/main/java/se/sensera/banking/impl/UserServiceImpl.java:49-55 | a personal id held elsewhere, or by this user, is rejected and blocks the save; any other id replaces only the id |
| UserService.RejectionBlocksTheSave | src/main/java/se/sensera/banking/impl/UserServiceImpl.java:49-59 | once a personal id was rejected the user is not saved, whatever later calls do |
| UserService.SavedIffNothingRejected | src/main/java/se/sensera/banking/impl/UserServiceImpl.java:39-59 | the user is saved exactly when no personal id was rejected |
| UserService.RejectionsAccumulate | src/main/java/se/sensera/banking/impl/UserServiceImpl.java:49-53 | the earlier rejections stay a prefix of the later ones: none is dropped or reordered, and their number never shrinks |
| UserService.PersonalIdTakenSplit | src/main/java/se/sensera/banking/impl/UserServiceImpl.java:32-35 | with the user stored, its personal id check fails exactly on its own current id or another stored user's id |
| UserService.SelectUsers | src/main/java/se/sensera/banking/impl/UserServiceImpl.java:84-85 | every user kept is active and its lower-cased name contains the search string; every such user of the input is kept, and nothing else |
| UserService.SelectUsersSingleton | src/main/java/se/sensera/banking/impl/UserServiceImpl.java:84-85 | a single user is kept exactly when it is selected |
| UserService.SelectUsersConcat | src/main/java/se/sensera/banking/impl/UserServiceImpl.java:84-85 | selection distributes over concatenation, so the store's order and repeated references are kept |
| UserService.ResavedUserIsFoundTwice | src/main/java/se/sensera/banking/impl/UserServiceImpl.java:84-85 | a selected user stored twice, as a re-save leaves it, is returned twice |
| UserService.UserServiceImpl.constructor | src/main/java/se/sensera/banking/impl/UserServiceImpl.java:18-20 | the given store, searched by the users' ids |
| UserService.UserServiceImpl.CreateUser | src/main/java/se/sensera/banking/impl/UserServiceImpl.java:23-35 | a personal id held by any stored user, active or not, gives USER_PERSONAL_ID_NOT_UNIQUE (CREATE_USER) and saves nothing; otherwise one new active user with the new id, the name and the personal id is appended and returned, and a lookup by a new id then finds it |
| UserService.UserServiceImpl.ChangeUser | src/main/java/se/sensera/banking/impl/UserServiceImpl.java:37-66 | an unknown id gives NOT_FOUND (UPDATE_USER) and saves nothing; otherwise the calls are applied to the stored user in order, the rejections are USER_PERSONAL_ID_NOT_UNIQUE (UPDATE_USER), the user is saved again unless one was raised, and no other stored user changes |
| UserService.UserServiceImpl.InactivateUser | src/main/java/se/sensera/banking/impl/UserServiceImpl.java:68-75 | an unknown id gives NOT_FOUND (UPDATE_USER); otherwise only the active flag is cleared and the user is saved again, whether or not it was active already |
| UserService.UserServiceImpl.GetUser | src/main/java/se/sensera/banking/impl/UserServiceImpl.java:77-80 | exactly the store's lookup: nothing when no stored user has the id, otherwise a stored user with that id |
| UserService.UserServiceImpl.Find | src/main/java/se/sensera/banking/impl/UserServiceImpl.java:82-96 | pages all users first, then keeps the active users whose lower-cased name contains the search string; the result is a permutation of those, in their order when unsorted and by non-decreasing name or personal id otherwise; it never holds an inactive user |
| UserService.SortUsersByName | src/main/java/se/sensera/banking/impl/UserServiceImpl.java:88-90 | a permutation of the selected users with non-decreasing names |
| UserService.SortUsersByPersonalId | src/main/java/se/sensera/banking/impl/UserServiceImpl.java:91-93 | a permutation of the selected users with non-decreasing personal ids |
| AccountService.AccountNameTaken | src/main/java/se/sensera/banking/impl/AccountServiceImpl.java:29-34 | the name check fails exactly when some stored account holds the name |
| AccountService.ApplySetName | src/main/java/se/sensera/banking/impl/AccountServiceImpl.java:44-55 | one `setName` call: a name held by another stored account or by this account is rejected and clears the save flag, any other replaces the name |
| AccountService.ReplaySetNames | src/main/java/se/sensera/banking/impl/AccountServiceImpl.java:44-55 | the consumer's `setName` calls applied in order, each through `ApplySetName` against the names of the other stored accounts; the lemmas below state what the run keeps and when it saves |
| AccountService.RenameToCurrentNameIsRejected | src/main/java/se/sensera/banking/impl/AccountServiceImpl.java:44-55 | a rename to the account's own name is rejected as ACCOUNT_NAME_NOT_UNIQUE and blocks the save |
| AccountService.FreshNameIsTakenOver | src/main/java/se/sensera/banking/impl/AccountServiceImpl.java:44-55 | a name no stored account holds replaces the name |
| AccountService.ReplayKeepsNameUnique | src/main/java/se/sensera/banking/impl/AccountServiceImpl.java:44-55 | however the consumer calls `setName`, the account never ends with another account's name |
| AccountService.RejectionBlocksSave | src/main/java/se/sensera/banking/impl/AccountServiceImpl.java:44-59 | once a name was rejected the account is not saved, whatever later calls do |
| AccountService.RejectionsOnlyGrow | src/main/java/se/sensera/banking/impl/AccountServiceImpl.java:45-49 | the earlier rejections stay a prefix of the later ones: none is dropped or reordered, and their number never shrinks |
| AccountService.SavedIffNoNameRejected | src/main/java/se/sensera/banking/impl/AccountServiceImpl.java:38-59 | the account is saved exactly when no name was rejected |
| AccountService.NameTakenSplit | src/main/java/se/sensera/banking/impl/AccountServiceImpl.java:45-46 | with the account stored, the name check fails exactly on its own current name or another stored account's name |
| AccountService.SelectAccounts | src/main/java/se/sensera/banking/impl/AccountServiceImpl.java:169-174 | every account kept passes the filter (owned by or shared with the user, or name containing the search value); every passing account of the input is kept, and nothing else |
| AccountService.SelectAccountsSingleton | src/main/java/se/sensera/banking/impl/AccountServiceImpl.java:169-174 | a single account is kept exactly when it passes |
| AccountService.SelectAccountsConcat | src/main/java/se/sensera/banking/impl/AccountServiceImpl.java:169-174 | selection distributes over concatenation, so the store's order and repeated references are kept |
| AccountService.ResavedAccountIsFoundTwice | src/main/java/se/sensera/banking/impl/AccountServiceImpl.java:169-174 | a passing account stored twice, as a re-save leaves it, is returned twice |
| AccountService.DropKeepsIdsDistinct | src/main/java/se/sensera/banking/impl/AccountImpl.java:36-38 | dropping one member keeps the member ids distinct and apart from the owner's |
| AccountService.RemoveKeepsMembersWellFormed | src/main/java/se/sensera/banking/impl/AccountServiceImpl.java:119-129 | removing a member keeps the members distinct and without the owner |
| AccountService.NamesDistinctAfterRename | src/main/java/se/sensera/banking/impl/AccountServiceImpl.java:44-59 | names of the other stored accounts that were distinct, plus a renamed account holding a name none of them holds, are all distinct |
| AccountService.AppendStoredKeepsDistinct | src/main/java/se/sensera/banking/impl/RepositoryImpl.java:28-31 | saving again an account already stored keeps the stored names distinct |
| AccountService.AccountServiceImpl.constructor | src/main/java/se/sensera/banking/impl/AccountServiceImpl.java:15-18 | the given user and account stores, searched by the records' ids |
| AccountService.AccountServiceImpl.CreateAccount | src/main/java/se/sensera/banking/impl/AccountServiceImpl.java:21-34 | an unknown owner gives USER_NOT_FOUND, then a name any stored account holds gives ACCOUNT_NAME_NOT_UNIQUE, both with CREATE_ACCOUNT and no save; otherwise one new active account with that owner and name and no members is appended and returned, and a lookup by a new id then finds it. Distinct account names stay distinct |
| AccountService.AccountServiceImpl.ChangeAccount | src/main/java/se/sensera/banking/impl/AccountServiceImpl.java:36-78 | ACCOUNT_NOT_FOUND, then NOT_OWNER, then NOT_ACTIVE, all with UPDATE_ACCOUNT, before any rename; otherwise the names are tried in order, a held name is rejected as ACCOUNT_NAME_NOT_UNIQUE, the account is saved again unless one was rejected, no other stored account changes, and distinct account names stay distinct |
| AccountService.AccountServiceImpl.AddUserToAccount | src/main/java/se/sensera/banking/impl/AccountServiceImpl.java:86-110 | USER_NOT_FOUND, NOT_FOUND, ACCOUNT_NOT_ACTIVE, CANNOT_ADD_OWNER_AS_USER, USER_ALREADY_ASSIGNED_TO_THIS_ACCOUNT, NOT_OWNER in that order, all with UPDATE_ACCOUNT and nothing changed; otherwise the user is appended to the members and the account saved again. Members without the owner and without duplicate ids stay so |
| AccountService.AccountServiceImpl.RemoveUserFromAccount | src/main/java/se/sensera/banking/impl/AccountServiceImpl.java:112-129 | NOT_FOUND, USER_NOT_FOUND, NOT_OWNER, USER_NOT_ASSIGNED_TO_THIS_ACCOUNT in that order with no active check, all with UPDATE_ACCOUNT and nothing changed; otherwise the first member equal to the stored user is removed and the account saved again. Well-formed members stay well formed |
| AccountService.AccountServiceImpl.InactivateAccount | src/main/java/se/sensera/banking/impl/AccountServiceImpl.java:131-141 | USER_NOT_FOUND, NOT_FOUND, NOT_ACTIVE, NOT_OWNER in that order, all with INACTIVATE_ACCOUNT and nothing changed; otherwise only the active flag is cleared and the account saved again, so an inactive account cannot be inactivated again |
| AccountService.AccountServiceImpl.FindAccounts | src/main/java/se/sensera/banking/impl/AccountServiceImpl.java:143-175 | by name: a permutation of all accounts with non-decreasing names, paged when a page argument is given; unsorted: with an empty search and no user the accounts paged, with a user the accounts it owns or is a member of, otherwise the accounts whose lower-cased name contains the search value |

## Left out

- Concurrency: the stores and the monitor list are unsynchronised lists, and the parallel stream in `getEntityById` keeps encounter order for `findFirst`. The model is sequential.
- The single-thread executor in the funds check is a direct call to the balance; its swallowed `InterruptedException` and `ExecutionException` are not modelled.
- Amounts are `double` in the source and `int` here; floating-point rounding of the sum is not modelled.
- Parsing the `created` string into a date in the system time zone (`formatStringToDate`) is not modelled: `created` is an already parsed minute, and a malformed string, which throws, is not represented.
- `HandleException`, the console client, `Main` and `RepositoryFactory` are not part of this model.
- `UseExceptionType.java` is not part of this model; its constants are those the services raise.
- Random UUIDs are a `newId` parameter; their uniqueness is not assumed by any contract.
- `toLowerCase` is modelled on ASCII letters only; locale and Unicode case mapping are left out. String order is lexicographic by character code.
- What a monitor does, what it throws and what it observes of the store are left out; only the log of calls is kept.
- ApplyPage: Java 32-bit overflow of `pageNumber * pageSize` and `pageNumber * (pageSize + 1)` is not modelled; the indices are unbounded integers.
- ApplyPage: `limit` with a negative size and no page number throws an uncaught exception in the source; the model excludes that input by its requires instead. `UserService.UserServiceImpl.Find` and `AccountService.AccountServiceImpl.FindAccounts` inherit the same requires on the paged paths.
- Sorting.SortBy: the result is stated to be a sorted permutation; that it is stable (equal keys keep their order, as `Stream.sorted` promises) is not proved.
- Find and FindAccounts: a null sort order, which throws a null pointer exception in the `switch`, is not representable; the unreachable `default` branch of `findAccounts` is omitted.
- UserService.SortUsersByName: sorts through SortBy, so the order of users with equal names is not stated.
- UserService.SortUsersByPersonalId: sorts through SortBy, so the order of users with equal personal ids is not stated.
- UserService.UserServiceImpl.Find: when sorted, the order of users with equal keys is not stated.
- AccountService.AccountServiceImpl.FindAccounts: the sorted result is stated as some sorted permutation of the stored accounts; which of the accounts with equal names comes first is not stated.
- Sum: that a refused caller's request reads no transaction is not stated; the contract only says nothing changes.
- ChangeUser and ChangeAccount: a consumer that lets a rejection propagate would end the call with the exception and no save; only consumers that catch and continue are modelled.
- Lombok's field-by-field `equals` is modelled as reference equality; `removeUser` therefore removes the same object, which coincides as long as distinct records have distinct ids.
