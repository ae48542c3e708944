/**
 * The backend transfer engine (TransferService.createTransfer, both
 * overloads): reject a self-transfer, reject a missing or non-positive amount,
 * return the prior DEBIT row of a non-blank idempotency key, lock both accounts
 * in ascending id order, re-validate, move the money and write the DEBIT/CREDIT
 * pair, and recover from a duplicate-key conflict by looking the DEBIT row up
 * again.
 *
 * `Execute` is the reference definition over a snapshot of both stores; the
 * class TransferService runs the same steps against the repositories and is
 * proved to end in exactly the state and result `Execute` gives.
 *
 * Concurrency is represented by one oracle, `racer`: another createTransfer
 * that commits after this call's idempotency lookup and before this call
 * takes its locks. Only there can a writer commit a row that collides with
 * ours: a colliding DEBIT row belongs to our source account and a colliding
 * CREDIT row to our destination, so its writer must hold one of our two locks
 * and is serialised entirely before or entirely after our locked phase.
 */
module Transfers {
  import opened Entities
  import opened Repositories

  /** A snapshot of the two tables. */
  datatype Bank = Bank(accounts: map<AccountId, Account>, ledger: seq<Transfer>)

  /** The arguments of createTransfer(fromAccountId, toAccountId, amount, idemKey);
      a null amount or key is None. */
  datatype Request = Request(from: AccountId, to: AccountId, amount: Option<Cents>, idemKey: Option<string>)

  /** What one call returns, the state it leaves, and the ids it passed to lockById, in order. */
  datatype Run = Run(outcome: Result<Transfer, TransferError>, after: Bank, locked: seq<AccountId>)

  ghost predicate BankValid(b: Bank) {
    AccountsConsistent(b.accounts) && LedgerValid(b.ledger)
  }

  function Min(x: int, y: int): int { if x < y then x else y }
  function Max(x: int, y: int): int { if x < y then y else x }

  function PriorDebit(ledger: seq<Transfer>, from: AccountId, key: Option<string>): Option<Transfer> {
    if key.Some? then FindByKey(ledger, from, key.value, Debit) else None
  }

  /** The CREDIT leg that goes with a DEBIT row of the same call. */
  function CreditLeg(debit: Transfer): Transfer {
    Transfer(debit.id + 1, debit.beneficiaryAccountId, debit.accountId, Credit, debit.amount, debit.idempotencyKey)
  }

  /** createTransfer: the checks before any store access, the idempotency
      short-cut, then (after the racing writer, if any, has committed) the
      locked phase. */
  function Execute(b: Bank, req: Request, racer: Option<Request>): (run: Run)
    decreases if racer.Some? then 1 else 0, 2
  {
    if req.from == req.to then Run(Err(SameAccount), b, [])
    else if req.amount.None? || req.amount.value <= 0 then Run(Err(NonPositiveAmount), b, [])
    else
      var key := EffectiveKey(req.idemKey);
      var prior := PriorDebit(b.ledger, req.from, key);
      if prior.Some? then Run(Ok(prior.value), b, [])
      else
        Locked(LockState(b, racer), req.from, req.to, req.amount.value, key)
  }

  /** The store as this call finds it when it takes its locks: after the
      racing writer, if there is one, has committed. */
  function LockState(b: Bank, racer: Option<Request>): Bank
    decreases if racer.Some? then 1 else 0, 1
  {
    if racer.Some? then Execute(b, racer.value, None).after else b
  }

  /** Lock min(from, to) then max(from, to), re-validate against the locked
      rows, and commit. */
  function Locked(b: Bank, from: AccountId, to: AccountId, amount: Cents, key: Option<string>): (run: Run)
    requires from != to
  {
    var first, second := Min(from, to), Max(from, to);
    if first !in b.accounts then Run(Err(AccountNotFound(first)), b, [first])
    else if second !in b.accounts then Run(Err(AccountNotFound(second)), b, [first, second])
    else if b.accounts[from].status == Frozen then Run(Err(SourceFrozen), b, [first, second])
    else if b.accounts[to].status == Frozen then Run(Err(DestinationFrozen), b, [first, second])
    else if b.accounts[from].availableAmount < amount then Run(Err(InsufficientFunds), b, [first, second])
    else Commit(b, from, to, amount, key, [first, second])
  }

  /** The four saves as one unit of work, corrected. A save that breaks the
      idempotency constraint rolls the whole unit back; a non-blank key then
      returns the committed DEBIT row found under it, and otherwise the
      conflict is raised. The code as written looks the row up before the
      rollback (`CommitAsWritten` below). */
  function Commit(b: Bank, from: AccountId, to: AccountId, amount: Cents, key: Option<string>, locked: seq<AccountId>): Run
    requires from in b.accounts && to in b.accounts && from != to
  {
    var debit := Transfer(|b.ledger| + 1, from, to, Debit, amount, key);
    var credit := Transfer(|b.ledger| + 2, to, from, Credit, amount, key);
    if Violates(b.ledger, debit) || Violates(b.ledger + [debit], credit) then
      var again := PriorDebit(b.ledger, from, key);
      Run(if again.Some? then Ok(again.value) else Err(StorageConflict), b, locked)
    else
      var src, dst := b.accounts[from], b.accounts[to];
      var accounts := b.accounts[from := src.(availableAmount := src.availableAmount - amount)]
                                [to := dst.(availableAmount := dst.availableAmount + amount)];
      Run(Ok(debit), Bank(accounts, b.ledger + [debit, credit]), locked)
  }

  /** The commit as lines 84-97 are written. The lookup in the catch block
      runs inside the unit of work that is still open, so after a clash on
      the CREDIT leg it sees the DEBIT row this same call saved a moment
      before, and returns that row even though the unit of work is then
      discarded. `Commit` above is the corrected definition: the lookup sees
      only committed rows. */
  function CommitAsWritten(b: Bank, from: AccountId, to: AccountId, amount: Cents, key: Option<string>, locked: seq<AccountId>): Run
    requires from in b.accounts && to in b.accounts && from != to
  {
    var debit := Transfer(|b.ledger| + 1, from, to, Debit, amount, key);
    var credit := Transfer(|b.ledger| + 2, to, from, Credit, amount, key);
    if Violates(b.ledger, debit) then
      var again := PriorDebit(b.ledger, from, key);
      Run(if again.Some? then Ok(again.value) else Err(StorageConflict), b, locked)
    else if Violates(b.ledger + [debit], credit) then
      var again := PriorDebit(b.ledger + [debit], from, key);
      Run(if again.Some? then Ok(again.value) else Err(StorageConflict), b, locked)
    else
      Commit(b, from, to, amount, key, locked)
  }

  class TransferService {
    const accountRepository: AccountRepository
    const transferRepository: TransferRepository

    constructor (accountRepository: AccountRepository, transferRepository: TransferRepository)
      ensures this.accountRepository == accountRepository && this.transferRepository == transferRepository
    {
      this.accountRepository := accountRepository;
      this.transferRepository := transferRepository;
    }

    ghost predicate Valid()
      reads this, accountRepository, transferRepository
    {
      accountRepository.Valid() && transferRepository.Valid()
    }

    function Snapshot(): Bank
      reads this, accountRepository, transferRepository
    {
      Bank(accountRepository.accounts, transferRepository.rows)
    }

    /** createTransfer(fromAccountId, toAccountId, amount, idemKey); `locked`
        lists the ids passed to lockById, in order. */
    method CreateTransfer(fromAccountId: AccountId, toAccountId: AccountId, amount: Option<Cents>, idemKey: Option<string>,
                          racer: Option<Request>)
      returns (result: Result<Transfer, TransferError>, locked: seq<AccountId>)
      requires Valid()
      modifies accountRepository, transferRepository
      decreases if racer.Some? then 1 else 0
      ensures Valid()
      ensures var run := Execute(old(Snapshot()), Request(fromAccountId, toAccountId, amount, idemKey), racer);
              result == run.outcome && Snapshot() == run.after && locked == run.locked
      ensures accountRepository.nextId == old(accountRepository.nextId)
    {
      if fromAccountId == toAccountId {
        return Err(SameAccount), [];
      }
      if amount.None? || amount.value <= 0 {
        return Err(NonPositiveAmount), [];
      }
      var key := EffectiveKey(idemKey);
      if key.Some? {
        var prior := transferRepository.FindByAccountIdAndIdempotencyKeyAndType(fromAccountId, key.value, Debit);
        if prior.Some? {
          return Ok(prior.value), [];
        }
      }
      if racer.Some? {
        // the concurrent call that wins the locks commits first
        var _, _ := CreateTransfer(racer.value.from, racer.value.to, racer.value.amount, racer.value.idemKey, None);
      }
      result, locked := LockedPhase(fromAccountId, toAccountId, amount.value, key);
    }

    /** Lock both rows in ascending id order, re-validate them, and commit. */
    method LockedPhase(fromAccountId: AccountId, toAccountId: AccountId, amount: Cents, key: Option<string>)
      returns (result: Result<Transfer, TransferError>, locked: seq<AccountId>)
      requires Valid() && fromAccountId != toAccountId && amount > 0
      modifies accountRepository, transferRepository
      ensures Valid()
      ensures var run := Locked(old(Snapshot()), fromAccountId, toAccountId, amount, key);
              result == run.outcome && Snapshot() == run.after && locked == run.locked
      ensures accountRepository.nextId == old(accountRepository.nextId)
    {
      var firstId := if fromAccountId < toAccountId then fromAccountId else toAccountId;
      var secondId := if fromAccountId < toAccountId then toAccountId else fromAccountId;
      locked := [firstId];
      var firstLocked := accountRepository.FindById(firstId);
      if firstLocked.None? {
        return Err(AccountNotFound(firstId)), locked;
      }
      locked := locked + [secondId];
      var secondLocked := accountRepository.FindById(secondId);
      if secondLocked.None? {
        return Err(AccountNotFound(secondId)), locked;
      }
      var fromAccount := if fromAccountId == firstId then firstLocked.value else secondLocked.value;
      var toAccount := if toAccountId == secondId then secondLocked.value else firstLocked.value;

      if fromAccount.status == Frozen {
        return Err(SourceFrozen), locked;
      }
      if toAccount.status == Frozen {
        return Err(DestinationFrozen), locked;
      }
      if fromAccount.availableAmount < amount {
        return Err(InsufficientFunds), locked;
      }
      result := SaveTransfer(fromAccount, toAccount, amount, key);
    }

    /** Debit and credit the two locked rows and save the DEBIT and CREDIT
        legs; on a DataIntegrityViolationException the unit of work is rolled
        back and the DEBIT row is looked up again under the key, among the
        committed rows (the corrected order of `Commit`). */
    method SaveTransfer(fromAccount: Account, toAccount: Account, amount: Cents, key: Option<string>)
      returns (result: Result<Transfer, TransferError>)
      requires Valid() && amount > 0 && fromAccount.id != toAccount.id
      requires fromAccount.id in accountRepository.accounts && accountRepository.accounts[fromAccount.id] == fromAccount
      requires toAccount.id in accountRepository.accounts && accountRepository.accounts[toAccount.id] == toAccount
      requires fromAccount.availableAmount >= amount
      modifies accountRepository, transferRepository
      ensures Valid()
      ensures var run := Commit(old(Snapshot()), fromAccount.id, toAccount.id, amount, key, []);
              result == run.outcome && Snapshot() == run.after
      ensures accountRepository.nextId == old(accountRepository.nextId)
    {
      var debitTransfer := Transfer(0, fromAccount.id, toAccount.id, Debit, amount, None);
      var creditTransfer := Transfer(0, toAccount.id, fromAccount.id, Credit, amount, None);
      if key.Some? {
        debitTransfer := debitTransfer.(idempotencyKey := key);
        creditTransfer := creditTransfer.(idempotencyKey := key);
      }
      var debited := fromAccount.(availableAmount := fromAccount.availableAmount - amount);
      var credited := toAccount.(availableAmount := toAccount.availableAmount + amount);

      var savedDebit := SaveLegs(debitTransfer, creditTransfer);
      if savedDebit.Some? {
        BalanceChangeKeepsConsistent(accountRepository.accounts, fromAccount.id, debited.availableAmount);
        accountRepository.Save(debited);
        BalanceChangeKeepsConsistent(accountRepository.accounts, toAccount.id, credited.availableAmount);
        accountRepository.Save(credited);
        return Ok(savedDebit.value);
      }
      // DataIntegrityViolationException: the unit of work was rolled back
      if key.Some? {
        var again := transferRepository.FindByAccountIdAndIdempotencyKeyAndType(fromAccount.id, key.value, Debit);
        if again.Some? {
          return Ok(again.value);
        }
      }
      return Err(StorageConflict);
    }

    /** The DEBIT and CREDIT inserts of one unit of work. When either breaks
        the idempotency constraint the unit is rolled back and the ledger is
        as it was. */
    method SaveLegs(debit: Transfer, credit: Transfer) returns (saved: Option<Transfer>)
      requires transferRepository.Valid() && debit.amount > 0 && credit.amount > 0
      modifies transferRepository
      ensures transferRepository.Valid()
      ensures var rows := old(transferRepository.rows);
              var d, c := debit.(id := |rows| + 1), credit.(id := |rows| + 2);
              if Violates(rows, d) || Violates(rows + [d], c) then saved.None? && transferRepository.rows == rows
              else saved == Some(d) && transferRepository.rows == rows + [d, c]
    {
      ghost var ledger := transferRepository.rows;
      var mark := |transferRepository.rows|;
      var savedDebit := transferRepository.Save(debit);
      if savedDebit.Some? {
        var savedCredit := transferRepository.Save(credit);
        if savedCredit.Some? {
          AppendKeepsLedgerValid(ledger, savedDebit.value);
          AppendKeepsLedgerValid(ledger + [savedDebit.value], savedCredit.value);
          assert ledger + [savedDebit.value] + [savedCredit.value] == ledger + [savedDebit.value, savedCredit.value];
          return savedDebit;
        }
      }
      transferRepository.Rollback(mark);
      assert transferRepository.rows == ledger;
      return None;
    }

    /** createTransfer(fromAccountId, toAccountId, amount): no idempotency key. */
    method CreateTransferWithoutKey(fromAccountId: AccountId, toAccountId: AccountId, amount: Option<Cents>, racer: Option<Request>)
      returns (result: Result<Transfer, TransferError>, locked: seq<AccountId>)
      requires Valid()
      modifies accountRepository, transferRepository
      ensures Valid()
      ensures var run := Execute(old(Snapshot()), Request(fromAccountId, toAccountId, amount, None), racer);
              result == run.outcome && Snapshot() == run.after && locked == run.locked
    {
      result, locked := CreateTransfer(fromAccountId, toAccountId, amount, None, racer);
    }
  }
}
