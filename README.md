# Bank service: transfers and account lifecycle, in Dafny

This project models the core of a small banking service. There are two generations: the
`backend/` application and the older top-level application (called *legacy* below).

The backend `TransferService.createTransfer` does five things in order:

1. It rejects a self-transfer and a missing or non-positive amount.
2. With a non-blank idempotency key, it returns the DEBIT row already stored under that key.
3. It locks both accounts in ascending id order and re-validates them.
4. It moves the money and writes a DEBIT/CREDIT pair to the ledger.
5. If a save breaks the ledger's unique `(accountId, idempotencyKey, type)` constraint, it
   looks the DEBIT row up again.

The legacy `createTransfer` has no locks and no key, and it runs its checks in a different
order. The two `AccountService`s create accounts (one at a time or, in the backend, as a
validated batch), update them, freeze and unfreeze them, and delete them.

Modules, one per file:

- `Entities` (`entities.dfy`): the value types. Accounts, transfers and the error kinds are
  datatypes; amounts are integer cents. Java's `String.trim` and `String.isBlank` are modelled
  on `seq<char>`, and `EffectiveKey` is the "non-null and non-blank" idempotency key.
- `Repositories` (`repositories.dfy`): the two tables. `AccountRepository` is a class over a
  `map` of accounts plus its IDENTITY counter. `TransferRepository` is a class over an
  append-only `seq` ledger. Both come with the constraints of the tables, the lookups the
  services use, and their `save`, `saveAll`, `deleteById` and rollback.
- `Transfers` (`transfers.dfy`): the backend engine. `Execute` is the reference definition on a
  snapshot of both tables. The class `TransferService` runs the same steps against the
  repositories and is proved to end exactly as `Execute` says, including the trace of locked ids.
- `TransferProperties` (`transfer_properties.dfy`): what `Execute` promises. This covers error
  precedence, replay, lock order, atomicity, conservation of money, pairing, the tables'
  constraints, concurrent and sequential retries, and the two tests written as lemmas.
- `Accounts` and `AccountProperties` (`accounts.dfy`, `account_properties.dfy`): the backend
  `AccountService`. There are reference definitions for each operation, the class whose methods
  are proved against them, and their properties.
- `LegacyTransfers`, `LegacyAccounts`, `LegacyProperties` (`legacy_*.dfy`): the legacy services,
  their properties, and how they compare with the backend.

A concurrent writer is a parameter, `racer: Option<Request>`. It stands for another
`createTransfer` that commits after this call's idempotency lookup and before this call takes
its locks. That window is the only place where a colliding row can appear. Any row that
collides with ours names our source (DEBIT) or our destination (CREDIT), so its writer holds
one of our locks and runs entirely before or after our locked phase.

## Model

| member | source | states |
|---|---|---|
| Entities.LeadingSpace | backend/src/main/java/smartit_task/bank_service/service/AccountService.java:33-34 | the prefix `trim` removes is all characters ≤ U+0020 and stops at the first larger one |
| Entities.TrailingSpace | backend/src/main/java/smartit_task/bank_service/service/AccountService.java:33-34 | the suffix `trim` removes is all characters ≤ U+0020 and stops at the last larger one |
| Entities.Trim | backend/src/main/java/smartit_task/bank_service/service/AccountService.java:33-34 | the result is the slice of the input left after dropping the leading and trailing characters ≤ U+0020, and it starts and ends with a larger character |
| Entities.TrimIdempotent | backend/src/main/java/smartit_task/bank_service/service/AccountService.java:33-34 | trimming twice is trimming once |
| Entities.TrimKeepsClean | backend/src/main/java/smartit_task/bank_service/service/AccountService.java:33-34 | a string with no removable end character is its own trim |
| Entities.EffectiveKey | backend/src/main/java/smartit_task/bank_service/service/TransferService.java:44 | the key is acted on exactly when it is non-null and non-blank, and then unchanged |
| Entities.IsWhitespace | backend/src/main/java/smartit_task/bank_service/service/AccountService.java:64-67 | `Character.isWhitespace`, which `isBlank` tests: the Unicode space, line and paragraph separators except the no-break spaces, plus tab, line feed, vertical tab, form feed, carriage return and U+001C to U+001F; `EffectiveKey` and `BatchErrorNone` carry its use |
| Entities.IsBlank | backend/src/main/java/smartit_task/bank_service/service/AccountService.java:64-67 | `String.isBlank` as used at :64, :67 and TransferService.java:44: empty or only `IsWhitespace` characters; `EffectiveKey` states that a blank key counts as none |
| Repositories.BalanceChangeKeepsConsistent | backend/src/main/java/smartit_task/bank_service/service/TransferService.java:80-81 | setting one balance to a non-negative value keeps unique names and IBANs and non-negative balances |
| Repositories.InsertedAllAt | backend/src/main/java/smartit_task/bank_service/service/AccountService.java:101 | after `saveAll`, the batch row at position k is stored under identity value nextId + k |
| Repositories.InsertedAllFacts | backend/src/main/java/smartit_task/bank_service/service/AccountService.java:101 | `saveAll` hands out consecutive ids in batch order, keeps every old row and adds no other id |
| Repositories.FindByKey | backend/src/main/java/smartit_task/bank_service/repository/TransferRepository.java:18-19 | the row found is in the ledger and in the (account, key, type) slot; no result means no row occupies that slot |
| Repositories.FindByKeyAppend | backend/src/main/java/smartit_task/bank_service/repository/TransferRepository.java:18-19 | a lookup in a longer ledger finds the old row if there was one, otherwise it searches only the appended rows |
| Repositories.AppendKeepsLedgerValid | backend/src/main/java/smartit_task/bank_service/service/TransferService.java:85-86 | appending a row with the next id, a positive amount and a free slot keeps ids sequential, amounts positive and slots unique |
| Repositories.HasUpdate | backend/src/main/java/smartit_task/bank_service/service/AccountService.java:101 | storing one row can make a name or IBAN taken only if that row carries it |
| Repositories.Inserted | backend/src/main/java/smartit_task/bank_service/service/AccountService.java:49 | `save` of a new entity under an IDENTITY column: the row is stored under `nextId`, which advances by one; `AccountRepository.Insert` and `CreateOutcomes` carry its promises |
| Repositories.InsertedAll | backend/src/main/java/smartit_task/bank_service/service/AccountService.java:101 | `saveAll`: the rows are inserted one by one in list order; `InsertedAllAt` and `InsertedAllFacts` state the ids and rows it leaves |
| Repositories.AccountRepository.FindById | backend/src/main/java/smartit_task/bank_service/service/AccountService.java:106-107 | found exactly when the id is stored, and then the stored row |
| Repositories.AccountRepository.Save | backend/src/main/java/smartit_task/bank_service/service/AccountService.java:122 | overwrites the row under its id and nothing else |
| Repositories.AccountRepository.Insert | backend/src/main/java/smartit_task/bank_service/service/AccountService.java:49-52 | a taken name or IBAN refuses the insert and changes nothing; otherwise the row is stored under the next identity value, which then advances |
| Repositories.AccountRepository.SaveAll | backend/src/main/java/smartit_task/bank_service/service/AccountService.java:101 | returns the batch numbered from the next identity value and leaves the store with every row inserted in order; the table stays valid |
| Repositories.AccountRepository.DeleteById | backend/src/main/java/smartit_task/bank_service/service/AccountService.java:145 | removes exactly that id |
| Repositories.TransferRepository.Save | backend/src/main/java/smartit_task/bank_service/service/TransferService.java:85-86 | a row that breaks the idempotency constraint is refused with the ledger unchanged; otherwise it is appended with the next id |
| Repositories.TransferRepository.Rollback | backend/src/main/java/smartit_task/bank_service/service/TransferService.java:90 | the rows inserted after the mark are discarded |
| Repositories.AccountRepository.ExistsById | backend/src/main/java/smartit_task/bank_service/service/AccountService.java:142 | true exactly when a row is stored under the id |
| Repositories.AccountRepository.ExistsByName | backend/src/main/java/smartit_task/bank_service/repository/AccountRepository.java:19 | true exactly when some stored row has that name (`HasName`) |
| Repositories.AccountRepository.ExistsByIban | backend/src/main/java/smartit_task/bank_service/repository/AccountRepository.java:20 | true exactly when some stored row has that IBAN (`HasIban`) |
| Repositories.TransferRepository.FindByAccountIdAndIdempotencyKeyAndType | backend/src/main/java/smartit_task/bank_service/repository/TransferRepository.java:18-19 | the lookup over the stored rows is `FindByKey`: a row in the (account, key, type) slot, or none exactly when the slot is empty |
| Transfers.Execute | backend/src/main/java/smartit_task/bank_service/service/TransferService.java:35-98 | the reference definition of createTransfer (corrected recovery): self-transfer, then a null or non-positive amount, then the replay of the DEBIT row under the effective key, then the locked phase on the store left by the racing writer; its promises are the TransferProperties lemmas |
| Transfers.LockState | backend/src/main/java/smartit_task/bank_service/service/TransferService.java:44-52 | the store the locks see: the racing writer's commit, if there is one, falls between the idempotency lookup and the first lock |
| Transfers.Locked | backend/src/main/java/smartit_task/bank_service/service/TransferService.java:49-97 | lock min(from, to) then max(from, to), each failing as "not found" with the locks taken so far; then source frozen, destination frozen, funds; then the corrected commit |
| Transfers.Commit | backend/src/main/java/smartit_task/bank_service/service/TransferService.java:71-97 | the corrected unit of work: both rows with the effective key and both balances moved, or, on a clash, rolled back and the committed DEBIT row returned, else the conflict |
| Transfers.CommitAsWritten | backend/src/main/java/smartit_task/bank_service/service/TransferService.java:84-96 | the unit of work as written: after a clash on the CREDIT leg alone, the lookup also sees this call's own uncommitted DEBIT row; otherwise as `Commit` (`CommitsAgreeElsewhere`) |
| Transfers.PriorDebit | backend/src/main/java/smartit_task/bank_service/service/TransferService.java:92-94 | the DEBIT lookup of :45 and :92-94: a search of the (source, key, DEBIT) slot when there is a key, otherwise none; `ReplayReturnsPrior` and `FindByKey` carry its promises |
| Transfers.TransferService.CreateTransfer | backend/src/main/java/smartit_task/bank_service/service/TransferService.java:35-98 | result, both tables and the lock trace are those of `Execute`, with its corrected recovery; the tables stay valid |
| Transfers.TransferService.LockedPhase | backend/src/main/java/smartit_task/bank_service/service/TransferService.java:49-69 | locks min(from, to) then max(from, to), re-validates, and ends as `Locked` says, with its corrected recovery |
| Transfers.TransferService.SaveTransfer | backend/src/main/java/smartit_task/bank_service/service/TransferService.java:71-97 | builds the pair, moves both balances and saves, or recovers from a conflict, exactly as `Commit` says; that is the corrected recovery, whose lookup sees only committed rows (see Findings) |
| Transfers.TransferService.SaveLegs | backend/src/main/java/smartit_task/bank_service/service/TransferService.java:84-90 | both ledger inserts succeed and append the pair, or the unit of work rolls back to the ledger as it was; the rollback comes before the recovery's lookup, the corrected order (see Findings) |
| Transfers.TransferService.CreateTransferWithoutKey | backend/src/main/java/smartit_task/bank_service/service/TransferService.java:101-103 | the three-argument overload is the four-argument call with a null key |
| TransferProperties.TotalUpdate | backend/src/main/java/smartit_task/bank_service/service/TransferService.java:80-81 | replacing one balance changes the total by exactly the difference |
| TransferProperties.RejectedBeforeStoreAccess | backend/src/main/java/smartit_task/bank_service/service/TransferService.java:36-42 | a self-transfer (first) or a null or non-positive amount fails without a lock or a change, whatever the tables and concurrent writers |
| TransferProperties.ReplayReturnsPrior | backend/src/main/java/smartit_task/bank_service/service/TransferService.java:44-47 | with a non-blank key that already has a DEBIT row from the source, that row is returned, with no lock and no change |
| TransferProperties.BlankKeyIsNoKey | backend/src/main/java/smartit_task/bank_service/service/TransferService.java:44 | a blank key behaves exactly as no key |
| TransferProperties.LockOrder | backend/src/main/java/smartit_task/bank_service/service/TransferService.java:49-55 | locks are strictly ascending, min(from, to) then max(from, to), and none are taken exactly when the call stops before its locked phase |
| TransferProperties.NotFoundNamesFirstMissing | backend/src/main/java/smartit_task/bank_service/service/TransferService.java:52-55 | "not found" names the first missing id in lock order, after locking up to it, and changes nothing |
| TransferProperties.PostLockChecks | backend/src/main/java/smartit_task/bank_service/service/TransferService.java:61-69 | after locking: source frozen, then destination frozen, then missing funds, each an if-and-only-if, and each leaves the tables unchanged |
| TransferProperties.FailureChangesNothing | backend/src/main/java/smartit_task/bank_service/service/TransferService.java:84-97 | without a concurrent writer, every failure leaves both tables as they were |
| TransferProperties.ExecuteIsLocked | backend/src/main/java/smartit_task/bank_service/service/TransferService.java:44-55 | past the self-transfer and amount checks and a missed replay lookup, a call is `Locked` on the store left by the racing writer |
| TransferProperties.LockedIsCommit | backend/src/main/java/smartit_task/bank_service/service/TransferService.java:61-71 | with both rows found, both active and the source covering the amount, the locked phase is the commit with locks [min, max] |
| TransferProperties.SuccessCommits | backend/src/main/java/smartit_task/bank_service/service/TransferService.java:71-89 | a success that found no prior row committed exactly the pair and the two balance changes |
| TransferProperties.SuccessConservesMoney | backend/src/main/java/smartit_task/bank_service/service/TransferService.java:67-81 | on success the source loses and the destination gains exactly the amount, other accounts are untouched, the total is conserved and the source stays ≥ 0 |
| TransferProperties.SuccessAppendsPair | backend/src/main/java/smartit_task/bank_service/service/TransferService.java:71-89 | on success exactly DEBIT(from → to) and CREDIT(to → from) with equal amounts are appended, carrying the key exactly when it is non-blank, and the DEBIT row is returned |
| TransferProperties.CommitKeepsValid | backend/src/main/java/smartit_task/bank_service/service/TransferService.java:80-97 | a commit keeps both tables' constraints, the same accounts and the old ledger prefix |
| TransferProperties.ExecutePreservesValid | backend/src/main/java/smartit_task/bank_service/service/TransferService.java:35-98 | every call, racer included, keeps both tables valid, creates or removes no account and only appends to the ledger |
| TransferProperties.RetryReplays | backend/src/main/java/smartit_task/bank_service/service/TransferService.java:44-47 | repeating a successful keyed call returns the same DEBIT row with no lock and no change |
| TransferProperties.LedgerGrows | backend/src/main/java/smartit_task/bank_service/service/TransferService.java:85-86 | the ledger after a call starts with the ledger before it |
| TransferProperties.RacerCommitsFirst | backend/src/main/java/smartit_task/bank_service/service/TransferService.java:44-55 | a call whose key is still free after the racer committed behaves as if it had started after the racer |
| TransferProperties.ConcurrentRetryCommitsOnce | backend/src/main/java/smartit_task/bank_service/service/TransferService.java:84-95 | two racing calls with the same key commit one pair: the second gets the first's DEBIT row back, or fails on funds, and leaves the tables as the first left them |
| TransferProperties.CreditSlotTaken | backend/src/main/java/smartit_task/bank_service/service/TransferService.java:84-97 | in the corrected commit, a taken CREDIT slot with a free DEBIT slot rolls the commit back and raises the conflict (as written, the code returns its own discarded DEBIT row: `PhantomDebit`) |
| TransferProperties.CommittedRows | backend/src/main/java/smartit_task/bank_service/service/TransferService.java:71-89 | the rows a keyed commit appends, and which slots they occupy |
| TransferProperties.RacerTakesCreditSlot | backend/src/main/java/smartit_task/bank_service/service/TransferService.java:84-97 | a racer from another source that committed a CREDIT row to our destination under our key makes our corrected commit conflict |
| TransferProperties.CreditLegCollision | backend/src/main/java/smartit_task/bank_service/service/TransferService.java:90-96 | in the corrected engine that collision reaches the caller as a storage conflict, with our rows rolled back and the locks taken (the code as written returns a phantom DEBIT row instead: see Findings) |
| TransferProperties.PhantomDebit | backend/src/main/java/smartit_task/bank_service/service/TransferService.java:84-94 | as written, a clash on the CREDIT leg alone makes the in-transaction lookup return this call's own DEBIT row, which the discarded unit of work never stores; the corrected commit raises the conflict |
| TransferProperties.PhantomDebitExample | backend/src/main/java/smartit_task/bank_service/service/TransferService.java:84-94 | after 3 → 2 under key "k", in a transfer 1 → 2 under "k" the in-transaction lookup returns DEBIT row 3, while the ledger keeps two rows; corrected, the call gets the conflict |
| TransferProperties.CommitsAgreeElsewhere | backend/src/main/java/smartit_task/bank_service/service/TransferService.java:84-97 | the as-written and the corrected commit agree whenever the DEBIT leg clashes or the CREDIT leg does not |
| TransferProperties.ExecuteReturnsStoredRow | backend/src/main/java/smartit_task/bank_service/service/TransferService.java:35-98 | every successful call of the corrected engine, racer included, returns a row of the ledger it leaves |
| TransferProperties.LockedReturnsStoredRow | backend/src/main/java/smartit_task/bank_service/service/TransferService.java:49-97 | the locked phase returns the DEBIT row it appended or one already in the ledger |
| TransferProperties.NoKeyNeverConflicts | backend/src/main/java/smartit_task/bank_service/service/TransferService.java:96 | without an effective key the conflict is never raised |
| TransferProperties.Shift | backend/src/main/java/smartit_task/bank_service/service/TransferService.java:80-81 | moving money keeps the set of accounts and changes exactly the two balances |
| TransferProperties.KeylessCovered | backend/src/main/java/smartit_task/bank_service/service/TransferService.java:67-89 | a key-less transfer between two active accounts that the source covers commits the pair and the shift |
| TransferProperties.KeylessUncovered | backend/src/main/java/smartit_task/bank_service/service/TransferService.java:67-69 | one the source does not cover fails on funds and changes nothing |
| TransferProperties.KeylessStep | backend/src/main/java/smartit_task/bank_service/service/TransferService.java:67-89 | such a transfer succeeds exactly when the source covers it |
| TransferProperties.RepeatStep | backend/src/test/java/smartit_task/bank_service/service/TransferServiceConcurrencyIT.java:57-75 | the n-th of a series of calls moves the amount or nothing and counts one success or one failure |
| TransferProperties.MovedIsProduct | backend/src/test/java/smartit_task/bank_service/service/TransferServiceConcurrencyIT.java:82-89 | s transfers of a move a · s |
| TransferProperties.MovedMono | backend/src/test/java/smartit_task/bank_service/service/TransferServiceConcurrencyIT.java:82-89 | more transfers move more |
| TransferProperties.FundsCover | backend/src/test/java/smartit_task/bank_service/service/TransferServiceConcurrencyIT.java:82-89 | when q transfers of a fit in the funds and the (q + 1)-th does not, the balance left after s ≤ q transfers covers one more exactly when s < q |
| TransferProperties.RepeatIsSimulated | backend/src/test/java/smartit_task/bank_service/service/TransferServiceConcurrencyIT.java:57-89 | a series of calls follows the arithmetic simulation: same counts, same two balances |
| TransferProperties.SimulatedCounts | backend/src/test/java/smartit_task/bank_service/service/TransferServiceConcurrencyIT.java:82-89 | the first min(n, q) transfers succeed, the rest fail, and exactly the successful amounts move |
| TransferProperties.SimulatedProduct | backend/src/test/java/smartit_task/bank_service/service/TransferServiceConcurrencyIT.java:82-89 | min(n, funds / a) succeed and a times that many move |
| TransferProperties.RepeatedTransfers | backend/src/test/java/smartit_task/bank_service/service/TransferServiceConcurrencyIT.java:57-89 | n key-less transfers: min(n, funds / amount) succeed, the rest fail on funds, the balances move by amount times the successes |
| TransferProperties.TenTransfersOfFifteen | backend/src/test/java/smartit_task/bank_service/service/TransferServiceConcurrencyIT.java:36-89 | ten transfers of 15.00 from 100.00 give six successes and four failures, ending at 10.00 and 90.00 |
| TransferProperties.HappyPath | backend/src/test/java/smartit_task/bank_service/service/TransferServiceTest.java:64-96 | 25.00 from 100.00 to 50.00 leaves 75.00 and 75.00, writes DEBIT 1 → 2 and CREDIT 2 → 1, and locks 1 then 2 |
| Accounts.BatchErrorNone | backend/src/main/java/smartit_task/bank_service/service/AccountService.java:63-79 | the validation scan finds no error exactly when every name and IBAN is present and non-blank and unseen, no two requests share one, and no initial amount is negative |
| Accounts.RequestError | backend/src/main/java/smartit_task/bank_service/service/AccountService.java:64-78 | the checks on one batch request, in the order of the source: name missing or blank, IBAN missing or blank, name already seen, IBAN already seen, negative amount; `BatchFirstError` and `BatchDuplicateName` carry its promises |
| Accounts.BatchError | backend/src/main/java/smartit_task/bank_service/service/AccountService.java:63-79 | the validation loop: the first request with a problem decides the error, each earlier request adding its name and IBAN to the seen sets; `BatchErrorNone` and `BatchFirstError` state what it returns |
| Accounts.NewAccount | backend/src/main/java/smartit_task/bank_service/service/AccountService.java:44-48 | the entity built for a request, as at :44-48 and :93-97: name and IBAN as given, ACTIVE, the initial amount or zero when it is null; `CreateDefaults` and `BatchSaved` carry its promises |
| Accounts.NewAccounts | backend/src/main/java/smartit_task/bank_service/service/AccountService.java:92-99 | the stream map: one `NewAccount` per request, in request order; `BatchSaved` states the rows it leaves |
| Accounts.NamesOfSnoc | backend/src/main/java/smartit_task/bank_service/service/AccountService.java:70-75 | the names and IBANs seen after one more request are the old ones plus that request's, as `names.add` and `ibans.add` |
| Accounts.Created | backend/src/main/java/smartit_task/bank_service/service/AccountService.java:32-53 | createAccount on a snapshot: trimmed name probe, then trimmed IBAN probe, then the raw insert or the "same name or IBAN" conflict; its promises are the Create lemmas |
| Accounts.BatchOutcome | backend/src/main/java/smartit_task/bank_service/service/AccountService.java:55-102 | the outcomes createAccounts allows: no requests, else the first validation error, else a stored batch name, else a stored batch IBAN, each with nothing stored; else the numbered batch inserted in order |
| Accounts.Updated | backend/src/main/java/smartit_task/bank_service/service/AccountService.java:105-123 | updateAccount on a snapshot: not found, then a changed name that is taken, then a changed IBAN that is taken, else name, IBAN and balance replaced |
| Accounts.StatusSet | backend/src/main/java/smartit_task/bank_service/service/AccountService.java:125-139 | freezeAccount and unfreezeAccount on a snapshot: not found, else only the status replaced |
| Accounts.Deleted | backend/src/main/java/smartit_task/bank_service/service/AccountService.java:141-146 | deleteAccount on a snapshot: not found, else exactly that row removed |
| Accounts.ValidateBatch | backend/src/main/java/smartit_task/bank_service/service/AccountService.java:60-79 | the loop returns the scan's error, and on success the names, IBANs and presence of the whole batch |
| Accounts.UpdateKeepsConsistent | backend/src/main/java/smartit_task/bank_service/service/AccountService.java:109-122 | replacing a row by one whose name and IBAN are its own or free keeps the table valid |
| Accounts.AccountService.CreateAccount | backend/src/main/java/smartit_task/bank_service/service/AccountService.java:32-53 | result and store are those of `Created`; the table stays valid |
| Accounts.AccountService.CreateAccounts | backend/src/main/java/smartit_task/bank_service/service/AccountService.java:55-102 | result and store satisfy `BatchOutcome`; the table stays valid |
| Accounts.AccountService.ProbeNames | backend/src/main/java/smartit_task/bank_service/service/AccountService.java:81-85 | reports a batch name that is stored, or proves none is |
| Accounts.AccountService.ProbeIbans | backend/src/main/java/smartit_task/bank_service/service/AccountService.java:86-90 | reports a batch IBAN that is stored, or proves none is |
| Accounts.AccountService.UpdateAccount | backend/src/main/java/smartit_task/bank_service/service/AccountService.java:105-123 | result and store are those of `Updated`; the table stays valid |
| Accounts.AccountService.FreezeAccount | backend/src/main/java/smartit_task/bank_service/service/AccountService.java:125-131 | result and store are those of `StatusSet(…, Frozen)` |
| Accounts.AccountService.UnfreezeAccount | backend/src/main/java/smartit_task/bank_service/service/AccountService.java:133-139 | result and store are those of `StatusSet(…, Active)` |
| Accounts.AccountService.DeleteAccount | backend/src/main/java/smartit_task/bank_service/service/AccountService.java:141-146 | result and store are those of `Deleted` |
| AccountProperties.CreateOutcomes | backend/src/main/java/smartit_task/bank_service/service/AccountService.java:32-53 | success exactly when neither the trimmed nor the raw name and IBAN are taken; then one ACTIVE row with the raw name and IBAN and the initial amount or 0 is stored under the next id; rejections store nothing |
| AccountProperties.CreateProbeOrder | backend/src/main/java/smartit_task/bank_service/service/AccountService.java:36-41 | the trimmed name is probed first, then the trimmed IBAN, each failing with that value |
| AccountProperties.CreateConflictNeedsUntrimmed | backend/src/main/java/smartit_task/bank_service/service/AccountService.java:43-52 | the "same name or IBAN" conflict needs a name or IBAN that trimming changes |
| AccountProperties.CreateConflictExample | backend/src/test/java/smartit_task/bank_service/service/AccountServiceTest.java:101-112 | with " Bob" stored, creating " Bob" passes the probe for "Bob" and ends in the conflict |
| AccountProperties.TrimLeadingBlank | backend/src/main/java/smartit_task/bank_service/service/AccountService.java:33 | trimming " Bob" gives "Bob" |
| AccountProperties.CreateDefaults | backend/src/test/java/smartit_task/bank_service/service/AccountServiceTest.java:54-74 | without an initial amount the new account is ACTIVE with balance 0 |
| AccountProperties.CreatePreservesValid | backend/src/main/java/smartit_task/bank_service/service/AccountService.java:43-49 | createAccount keeps the table valid |
| AccountProperties.InsertFreshKeepsValid | backend/src/main/java/smartit_task/bank_service/service/AccountService.java:49 | inserting a row with a free name and IBAN keeps the table valid |
| AccountProperties.NamesOfAppend | backend/src/main/java/smartit_task/bank_service/service/AccountService.java:70-75 | the names and IBANs of joined batches are the unions |
| AccountProperties.BatchErrorSplit | backend/src/main/java/smartit_task/bank_service/service/AccountService.java:63-79 | a valid prefix passes and hands its names and IBANs on to the rest |
| AccountProperties.BatchFirstError | backend/src/main/java/smartit_task/bank_service/service/AccountService.java:63-79 | the first request with a problem decides the error |
| AccountProperties.BatchDuplicateName | backend/src/test/java/smartit_task/bank_service/service/AccountServiceTest.java:140-149 | a second request with the first's name is rejected as a duplicate |
| AccountProperties.BatchOutcomes | backend/src/main/java/smartit_task/bank_service/service/AccountService.java:55-101 | success exactly when the batch is non-empty and valid and none of its names or IBANs is stored; errors store nothing; success stores the entities in order |
| AccountProperties.BatchSaved | backend/src/main/java/smartit_task/bank_service/service/AccountService.java:92-101 | as many rows as requests, in order, ACTIVE, with the initial amount or 0, numbered from the next id, stored next to the old rows |
| AccountProperties.StoredRow | backend/src/main/java/smartit_task/bank_service/service/AccountService.java:92-101 | each row after a batch insert is an old row or the entity of the request at its offset |
| AccountProperties.BatchInsertKeepsValid | backend/src/main/java/smartit_task/bank_service/service/AccountService.java:81-101 | a valid batch with free names and IBANs keeps the table valid |
| AccountProperties.StoredRowsDistinct | backend/src/main/java/smartit_task/bank_service/service/AccountService.java:70-101 | two rows after such a batch insert differ in name and IBAN |
| AccountProperties.BatchPreservesValid | backend/src/main/java/smartit_task/bank_service/service/AccountService.java:55-102 | createAccounts keeps the table valid |
| AccountProperties.UpdateOutcomes | backend/src/main/java/smartit_task/bank_service/service/AccountService.java:105-123 | success exactly for an existing row whose new name and IBAN are each unchanged or free; "not found" exactly for a missing id; on success name, IBAN and balance are replaced, id and status kept, no other row changes; rejections store nothing |
| AccountProperties.UpdateKeepingNameAndIban | backend/src/main/java/smartit_task/bank_service/service/AccountService.java:109-116 | resubmitting the stored name and IBAN always succeeds: unchanged fields are not probed |
| AccountProperties.UpdateTakenName | backend/src/main/java/smartit_task/bank_service/service/AccountService.java:109-112 | a changed name held by another row is rejected and nothing changes |
| AccountProperties.UpdateTakenIban | backend/src/main/java/smartit_task/bank_service/service/AccountService.java:109-116 | with the name unchanged or free, a changed IBAN held by another row is rejected with that IBAN and nothing changes; the name is probed first |
| AccountProperties.UpdateIdempotent | backend/src/main/java/smartit_task/bank_service/service/AccountService.java:105-123 | repeating a successful update changes nothing more |
| AccountProperties.UpdatePreservesValid | backend/src/main/java/smartit_task/bank_service/service/AccountService.java:105-123 | updateAccount keeps the table valid |
| AccountProperties.StatusOutcomes | backend/src/main/java/smartit_task/bank_service/service/AccountService.java:125-139 | only the status of an existing row changes; a missing id is "not found" with nothing changed |
| AccountProperties.StatusIdempotent | backend/src/main/java/smartit_task/bank_service/service/AccountService.java:125-139 | freezing a frozen account, or unfreezing an active one, changes nothing |
| AccountProperties.FreezeThenUnfreeze | backend/src/main/java/smartit_task/bank_service/service/AccountService.java:125-139 | unfreezing after freezing restores an active account exactly |
| AccountProperties.StatusPreservesValid | backend/src/main/java/smartit_task/bank_service/service/AccountService.java:125-139 | freezing and unfreezing keep the table valid |
| AccountProperties.DeleteOutcomes | backend/src/main/java/smartit_task/bank_service/service/AccountService.java:141-146 | removes exactly the given existing row; a missing id is "not found" with nothing deleted |
| AccountProperties.DeleteTwice | backend/src/main/java/smartit_task/bank_service/service/AccountService.java:141-146 | a second delete of the same id is "not found" |
| AccountProperties.DeletePreservesValid | backend/src/main/java/smartit_task/bank_service/service/AccountService.java:141-146 | deleteAccount keeps the table valid |
| LegacyAccounts.AccountService.CreateAccount | src/main/java/smartit_task/bank_service/service/AccountService.java:29-38 | result and store are those of `LegacyCreated`; the table stays valid |
| LegacyAccounts.AccountService.UpdateAccount | src/main/java/smartit_task/bank_service/service/AccountService.java:40-59 | result and store are those of the backend's `Updated` |
| LegacyAccounts.AccountService.SetStatus | src/main/java/smartit_task/bank_service/service/AccountService.java:61-75 | result and store are those of `StatusSet` for the given status |
| LegacyAccounts.AccountService.FreezeAccount | src/main/java/smartit_task/bank_service/service/AccountService.java:61-67 | result and store are those of `StatusSet(…, Frozen)` |
| LegacyAccounts.AccountService.UnfreezeAccount | src/main/java/smartit_task/bank_service/service/AccountService.java:69-75 | result and store are those of `StatusSet(…, Active)` |
| LegacyAccounts.AccountService.DeleteAccount | src/main/java/smartit_task/bank_service/service/AccountService.java:77-82 | result and store are those of `Deleted` |
| LegacyAccounts.LegacyCreated | src/main/java/smartit_task/bank_service/service/AccountService.java:29-38 | the legacy createAccount on a snapshot: raw name probe, then raw IBAN probe, then the submitted entity inserted under the next id |
| LegacyTransfers.TransferService.CreateTransfer | src/main/java/smartit_task/bank_service/service/TransferService.java:34-81 | result and both tables are those of `LegacyExecute`; the tables stay valid |
| LegacyTransfers.TransferService.SaveTransfer | src/main/java/smartit_task/bank_service/service/TransferService.java:64-80 | builds the key-less pair, moves both balances and saves, as `LegacyCommit` says |
| LegacyTransfers.TransferService.SaveRows | src/main/java/smartit_task/bank_service/service/TransferService.java:75-76 | both key-less rows are appended, with the next two ids |
| LegacyTransfers.LegacyExecute | src/main/java/smartit_task/bank_service/service/TransferService.java:34-81 | the legacy createTransfer on a snapshot: source, destination, source frozen, destination frozen, funds, amount, self-transfer, then the commit |
| LegacyTransfers.LegacyCommit | src/main/java/smartit_task/bank_service/service/TransferService.java:64-80 | the key-less DEBIT and CREDIT rows with the next two ids, and both balances moved |
| LegacyProperties.LegacyOutcomes | src/main/java/smartit_task/bank_service/service/TransferService.java:34-81 | success exactly when both accounts exist and differ, both are active, the amount is positive and covered; so every self-transfer and every non-positive amount fails, and every failure changes nothing |
| LegacyProperties.LegacyLookupOrder | src/main/java/smartit_task/bank_service/service/TransferService.java:36-40 | a missing source is reported before a missing destination, each under its own error |
| LegacyProperties.LegacyFrozenOrder | src/main/java/smartit_task/bank_service/service/TransferService.java:43-48 | with both accounts found, a frozen source is reported before a frozen destination, and each failure changes nothing |
| LegacyProperties.LegacySelfTransfer | src/main/java/smartit_task/bank_service/service/TransferService.java:60-62 | the self-transfer error comes last: an active source covering a positive amount gets it |
| LegacyProperties.LegacySuccessEffects | src/main/java/smartit_task/bank_service/service/TransferService.java:64-80 | on success the key-less DEBIT row is returned, DEBIT(from → to) and CREDIT(to → from) are appended, the amount moves and the total is conserved |
| LegacyProperties.LegacyPreservesValid | src/main/java/smartit_task/bank_service/service/TransferService.java:34-81 | the legacy transfer keeps both tables valid |
| LegacyProperties.LegacyRetryDuplicates | src/main/java/smartit_task/bank_service/service/TransferService.java:64-80 | the same call twice, with funds for both, appends two pairs and moves the amount twice |
| LegacyProperties.EnginesAgreeOnSuccess | src/main/java/smartit_task/bank_service/service/TransferService.java:34-81 | without a key and a racer, both engines succeed on the same calls, and then return the same row and leave the same tables |
| LegacyProperties.SelfTransferPrecedence | src/main/java/smartit_task/bank_service/service/TransferService.java:51-62 | a self-transfer the source cannot cover: the backend reports the self-transfer, the legacy engine the funds |
| LegacyProperties.AmountPrecedence | src/main/java/smartit_task/bank_service/service/TransferService.java:36-58 | a missing source with a non-positive amount: the backend reports the amount, the legacy engine the source |
| LegacyProperties.MissingAccountPrecedence | src/main/java/smartit_task/bank_service/service/TransferService.java:36-40 | two missing accounts: the backend names the smaller id, the legacy engine the source |
| LegacyProperties.LegacyCreateOutcomes | src/main/java/smartit_task/bank_service/service/AccountService.java:29-38 | success exactly when the raw name and IBAN are free (name checked first); the entity is stored as submitted, status and balance included, under the next id; rejections store nothing |
| LegacyProperties.LegacyCreatePreservesValid | src/main/java/smartit_task/bank_service/service/AccountService.java:29-38 | the legacy createAccount keeps the table valid |
| LegacyProperties.CreateAgreesOnTrimmedInput | src/main/java/smartit_task/bank_service/service/AccountService.java:29-38 | on input trimming leaves alone, the backend createAccount is the legacy one applied to the backend's entity |
| LegacyProperties.CreateDiffersOnPaddedName | src/main/java/smartit_task/bank_service/service/AccountService.java:31-33 | a name that differs from a stored one only by surrounding blanks: backend refuses, legacy accepts |

## Left out

- Controllers, the exception handler, mappers and DTOs, and the React frontend are not modelled.
  They route HTTP requests, copy fields and map exceptions to status codes.
- The read-only delegations (`getAll*`, `get*ById`, `findAllTransfersByAccountId`) are direct
  repository reads.
- Declarative validation becomes preconditions. `@PositiveOrZero` on the account balance and
  the initial amount turns into `requires … >= 0` on create and update. The IBAN `@Pattern` is
  not modelled.
- A null name or IBAN in the backend `createAccount` throws a NullPointerException at
  `trim()`. The model requires both to be present instead.
- Accounts.AccountService.UpdateAccount and LegacyAccounts.AccountService.UpdateAccount: a null
  name, IBAN or balance in `accountDetails` is not modelled. The model's account fields are never
  null. In the source the setters store the null, and the flush then fails on the NOT NULL
  column with a persistence error, not an IllegalArgumentException.
- LegacyAccounts.AccountService.CreateAccount: a submitted entity with a null status or balance
  is not modelled for the same reason. The flush would fail on a NOT NULL column.
- Column lengths are not modelled. In the legacy entity the name has at most 120 characters, the
  IBAN 34 and the status 10. The backend entity is not part of this model. If the backend keeps
  the same lengths, an over-long name or IBAN fails the insert with a DataIntegrityViolationException.
  The catch then reports it as "same name or IBAN". So
  AccountProperties.CreateConflictNeedsUntrimmed holds only for values within the column lengths.
- A null amount in the legacy `createTransfer` throws a NullPointerException at the funds
  comparison. The model's legacy amount is never null.
- A client-supplied id on the legacy `createAccount` would make JPA merge into that row. The
  model always inserts under the next identity value and ignores the submitted id.
- Row locking, `@Transactional` and real concurrency are not modelled. Locks are a returned
  trace of ids. Commit is all-or-nothing: JPA's rollback appears as `Rollback` and as the
  unchanged snapshot on failure, as an assumption about the framework. Concurrency is one
  racing writer that commits between this call's idempotency lookup and its locks.
- Transfers.Commit, Transfers.Locked, Transfers.Execute, Transfers.TransferService.CreateTransfer,
  Transfers.TransferService.LockedPhase, Transfers.TransferService.SaveTransfer,
  Transfers.TransferService.SaveLegs and TransferProperties.CreditLegCollision model the corrected recovery: the unit of work rolls
  back, then the DEBIT row is looked up among committed rows. The code as written looks it up
  inside the open unit of work, where it would see its own DEBIT row after a clash on the CREDIT
  leg. That behaviour is `Transfers.CommitAsWritten` (see Findings). What the framework then
  does is not modelled. The commit of a unit of work marked rollback-only may itself throw, and
  PostgreSQL refuses any query in an aborted transaction.
- Transfers.TransferService.CreateTransfer: the `throw dup` for a key-less conflict (source
  line 96) is unreachable in the model. Without a key no save can break the constraint, and
  `NoKeyNeverConflicts` proves that.
- Timestamps (`createdOn`, `modifiedOn`) are not modelled. Identity values come from a counter
  `nextId` for accounts and from the ledger position for transfers. The model has no id gaps:
  a real IDENTITY column uses up the value of a failed or rolled-back insert, so after a
  conflict the database hands the next row a higher id than the model does.
- Ids are plain integers. The legacy tree mixes UUID (service and controller) and Long
  (repository) account ids.
- Accounts.AccountService.CreateAccounts: the store is probed in HashSet iteration order,
  which Java leaves unspecified. The model picks the names in an arbitrary order, and
  `BatchOutcome` only says that the name (or IBAN) reported is a taken one from the batch.
- BigDecimal amounts are integer cents, because the scale is fixed at 2.
- The legacy repositories are the backend's. The legacy ledger has no idempotency column, so
  every legacy row is saved without a key. The legacy repository interfaces are not part of
  this model.
- The TransferServiceConcurrencyIT thread pool runs as a sequence of calls (`Repeat`). The
  claim proved is that sequential result.

## Findings

| source | as written | input that shows it | evidently intended | confidence | as-written member | corrected member |
|---|---|---|---|---|---|---|
| backend/src/main/java/smartit_task/bank_service/service/TransferService.java:84-94 | The catch block looks up (from, key, DEBIT) while the unit of work that saved this call's DEBIT row is still open. After a clash on the CREDIT save alone, the lookup finds that uncommitted row and returns it, and the row is then discarded with the rollback. | Ledger [DEBIT 3 → 2 key "k", CREDIT 2 → 3 key "k"], then createTransfer(1, 2, 10.00, "k"): the DEBIT save succeeds, the CREDIT save breaks (2, "k", CREDIT), and the lookup returns DEBIT row 3, which is never stored | return only a DEBIT row that another call committed; otherwise raise the conflict | not executed; medium | TransferProperties.PhantomDebit | TransferProperties.ExecuteReturnsStoredRow |
