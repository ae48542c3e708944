/**
 * The legacy transfer engine (TransferService.createTransfer in the
 * top-level application): no row locks, no idempotency key, and its checks
 * in a different order from the backend's. The source account is looked up
 * first, then the destination; then come the frozen checks, the funds check,
 * the positivity check and, last, the self-transfer check. The ledger has no
 * idempotency column, so every row is saved without a key.
 */
module LegacyTransfers {
  import opened Entities
  import opened Repositories
  import opened Transfers

  /** What one legacy call returns and the state it leaves. */
  datatype LegacyRun = LegacyRun(outcome: Result<Transfer, TransferError>, after: Bank)

  /** createTransfer(fromAccountId, toAccountId, amount), on a snapshot. */
  function LegacyExecute(b: Bank, from: AccountId, to: AccountId, amount: Cents): LegacyRun {
    if from !in b.accounts then LegacyRun(Err(SourceNotFound(from)), b)
    else if to !in b.accounts then LegacyRun(Err(DestinationNotFound(to)), b)
    else if b.accounts[from].status == Frozen then LegacyRun(Err(SourceFrozen), b)
    else if b.accounts[to].status == Frozen then LegacyRun(Err(DestinationFrozen), b)
    else if b.accounts[from].availableAmount < amount then LegacyRun(Err(InsufficientFunds), b)
    else if amount <= 0 then LegacyRun(Err(NonPositiveAmount), b)
    else if from == to then LegacyRun(Err(SameAccount), b)
    else LegacyCommit(b, from, to, amount)
  }

  /** The DEBIT and CREDIT rows, without a key, and both balances moved. */
  function LegacyCommit(b: Bank, from: AccountId, to: AccountId, amount: Cents): LegacyRun
    requires from in b.accounts && to in b.accounts
  {
    var debit := Transfer(|b.ledger| + 1, from, to, Debit, amount, None);
    var credit := Transfer(|b.ledger| + 2, to, from, Credit, amount, None);
    var src, dst := b.accounts[from], b.accounts[to];
    var accounts := b.accounts[from := src.(availableAmount := src.availableAmount - amount)]
                              [to := dst.(availableAmount := dst.availableAmount + amount)];
    LegacyRun(Ok(debit), Bank(accounts, b.ledger + [debit, credit]))
  }

  class TransferService {
    const accountRepository: AccountRepository
    const transferRepository: TransferRepository

    constructor (accountRepository: AccountRepository, transferRepository: TransferRepository)
      ensures this.accountRepository == accountRepository && this.transferRepository == transferRepository
    {
      this.accountRepository := accountRepository;
      this.transferRepository := transferRepository;
    }

    ghost predicate Valid()
      reads this, accountRepository, transferRepository
    {
      accountRepository.Valid() && transferRepository.Valid()
    }

    function Snapshot(): Bank
      reads this, accountRepository, transferRepository
    {
      Bank(accountRepository.accounts, transferRepository.rows)
    }

    /** createTransfer(fromAccountId, toAccountId, amount). */
    method CreateTransfer(fromAccountId: AccountId, toAccountId: AccountId, amount: Cents)
      returns (result: Result<Transfer, TransferError>)
      requires Valid()
      modifies accountRepository, transferRepository
      ensures Valid()
      ensures var run := LegacyExecute(old(Snapshot()), fromAccountId, toAccountId, amount);
              result == run.outcome && Snapshot() == run.after
      ensures accountRepository.nextId == old(accountRepository.nextId)
    {
      var foundFrom := accountRepository.FindById(fromAccountId);
      if foundFrom.None? {
        return Err(SourceNotFound(fromAccountId));
      }
      var foundTo := accountRepository.FindById(toAccountId);
      if foundTo.None? {
        return Err(DestinationNotFound(toAccountId));
      }
      var fromAccount, toAccount := foundFrom.value, foundTo.value;
      if fromAccount.status == Frozen {
        return Err(SourceFrozen);
      }
      if toAccount.status == Frozen {
        return Err(DestinationFrozen);
      }
      if fromAccount.availableAmount < amount {
        return Err(InsufficientFunds);
      }
      if amount <= 0 {
        return Err(NonPositiveAmount);
      }
      if fromAccountId == toAccountId {
        return Err(SameAccount);
      }
      result := SaveTransfer(fromAccount, toAccount, amount);
    }

    /** Debit and credit the two rows and save the DEBIT and CREDIT rows, then
        both accounts. */
    method SaveTransfer(fromAccount: Account, toAccount: Account, amount: Cents) returns (result: Result<Transfer, TransferError>)
      requires Valid() && amount > 0 && fromAccount.id != toAccount.id
      requires fromAccount.id in accountRepository.accounts && accountRepository.accounts[fromAccount.id] == fromAccount
      requires toAccount.id in accountRepository.accounts && accountRepository.accounts[toAccount.id] == toAccount
      requires fromAccount.availableAmount >= amount
      modifies accountRepository, transferRepository
      ensures Valid()
      ensures var run := LegacyCommit(old(Snapshot()), fromAccount.id, toAccount.id, amount);
              result == run.outcome && Snapshot() == run.after
      ensures accountRepository.nextId == old(accountRepository.nextId)
    {
      var debitTransfer := Transfer(0, fromAccount.id, toAccount.id, Debit, amount, None);
      var creditTransfer := Transfer(0, toAccount.id, fromAccount.id, Credit, amount, None);
      var debited := fromAccount.(availableAmount := fromAccount.availableAmount - amount);
      var credited := toAccount.(availableAmount := toAccount.availableAmount + amount);

      var savedDebit := SaveRows(debitTransfer, creditTransfer);
      BalanceChangeKeepsConsistent(accountRepository.accounts, fromAccount.id, debited.availableAmount);
      accountRepository.Save(debited);
      BalanceChangeKeepsConsistent(accountRepository.accounts, toAccount.id, credited.availableAmount);
      accountRepository.Save(credited);
      return Ok(savedDebit);
    }

    /** The two transfer saves. Without a key no row can break the
        idempotency constraint, so both are appended. */
    method SaveRows(debit: Transfer, credit: Transfer) returns (savedDebit: Transfer)
      requires transferRepository.Valid() && debit.amount > 0 && credit.amount > 0
      requires debit.idempotencyKey.None? && credit.idempotencyKey.None?
      modifies transferRepository
      ensures transferRepository.Valid()
      ensures var rows := old(transferRepository.rows);
              savedDebit == debit.(id := |rows| + 1) && transferRepository.rows == rows + [savedDebit, credit.(id := |rows| + 2)]
    {
      ghost var ledger := transferRepository.rows;
      var d := transferRepository.Save(debit);
      AppendKeepsLedgerValid(ledger, d.value);
      var c := transferRepository.Save(credit);
      AppendKeepsLedgerValid(ledger + [d.value], c.value);
      assert ledger + [d.value] + [c.value] == ledger + [d.value, c.value];
      return d.value;
    }
  }
}
