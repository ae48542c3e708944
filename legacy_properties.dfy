/**
 * Properties of the legacy services, and how they compare with the backend:
 * where the two transfer engines agree, where their check order makes them
 * report different errors, what a legacy retry does, and how the two
 * createAccount operations relate.
 */
module LegacyProperties {
  import opened Entities
  import opened Repositories
  import opened Transfers
  import opened TransferProperties
  import Accounts
  import AccountProperties
  import opened LegacyTransfers
  import opened LegacyAccounts

  // ------------------------------------------------------- legacy transfers

  /** The legacy transfer succeeds exactly when both accounts exist and
      differ, both are active, the amount is positive and the source covers
      it; every failure leaves both tables as they were. */
  lemma LegacyOutcomes(b: Bank, from: AccountId, to: AccountId, amount: Cents)
    ensures var run := LegacyExecute(b, from, to, amount);
            && (run.outcome.Ok? <==>
                  && from in b.accounts && to in b.accounts && from != to
                  && b.accounts[from].status == Active && b.accounts[to].status == Active
                  && amount > 0 && b.accounts[from].availableAmount >= amount)
            && (run.outcome.Err? ==> run.after == b)
  {
  }

  /** The source is looked up before the destination, and both before any
      other check. */
  lemma LegacyLookupOrder(b: Bank, from: AccountId, to: AccountId, amount: Cents)
    ensures from !in b.accounts ==> LegacyExecute(b, from, to, amount).outcome == Err(SourceNotFound(from))
    ensures from in b.accounts && to !in b.accounts ==>
              LegacyExecute(b, from, to, amount).outcome == Err(DestinationNotFound(to))
  {
  }

  /** With both accounts found, a frozen source is reported before a frozen
      destination, and both before the funds check. */
  lemma LegacyFrozenOrder(b: Bank, from: AccountId, to: AccountId, amount: Cents)
    requires from in b.accounts && to in b.accounts
    ensures b.accounts[from].status == Frozen ==> LegacyExecute(b, from, to, amount) == LegacyRun(Err(SourceFrozen), b)
    ensures b.accounts[from].status == Active && b.accounts[to].status == Frozen ==>
              LegacyExecute(b, from, to, amount) == LegacyRun(Err(DestinationFrozen), b)
  {
  }

  /** The self-transfer check comes last: it is reported only for an active
      account that covers a positive amount. */
  lemma LegacySelfTransfer(b: Bank, id: AccountId, amount: Cents)
    requires id in b.accounts && b.accounts[id].status == Active
    requires amount > 0 && b.accounts[id].availableAmount >= amount
    ensures LegacyExecute(b, id, id, amount) == LegacyRun(Err(SameAccount), b)
  {
  }

  /** On success the DEBIT row is returned, the key-less pair DEBIT(from ->
      to), CREDIT(to -> from) is appended, the amount moves from the source to
      the destination and the total balance is conserved. */
  lemma LegacySuccessEffects(b: Bank, from: AccountId, to: AccountId, amount: Cents)
    requires LegacyExecute(b, from, to, amount).outcome.Ok?
    ensures var run := LegacyExecute(b, from, to, amount);
            var d := Transfer(|b.ledger| + 1, from, to, Debit, amount, None);
            && from in b.accounts && to in b.accounts && from != to
            && run.outcome == Ok(d)
            && run.after.ledger == b.ledger + [d, CreditLeg(d)]
            && run.after.accounts == Shift(b.accounts, from, to, amount)
            && Total(run.after.accounts) == Total(b.accounts)
  {
    var m := b.accounts;
    var src, dst := m[from], m[to];
    var m1 := m[from := src.(availableAmount := src.availableAmount - amount)];
    TotalUpdate(m, from, src.(availableAmount := src.availableAmount - amount));
    TotalUpdate(m1, to, dst.(availableAmount := dst.availableAmount + amount));
  }

  /** The legacy transfer keeps every constraint of both tables. */
  lemma LegacyPreservesValid(b: Bank, from: AccountId, to: AccountId, amount: Cents)
    requires BankValid(b)
    ensures BankValid(LegacyExecute(b, from, to, amount).after)
  {
    if LegacyExecute(b, from, to, amount).outcome.Ok? {
      var d := Transfer(|b.ledger| + 1, from, to, Debit, amount, None);
      var c := Transfer(|b.ledger| + 2, to, from, Credit, amount, None);
      AppendKeepsLedgerValid(b.ledger, d);
      AppendKeepsLedgerValid(b.ledger + [d], c);
      assert b.ledger + [d] + [c] == b.ledger + [d, c];
      var src, dst := b.accounts[from], b.accounts[to];
      BalanceChangeKeepsConsistent(b.accounts, from, src.availableAmount - amount);
      BalanceChangeKeepsConsistent(b.accounts[from := src.(availableAmount := src.availableAmount - amount)], to, dst.availableAmount + amount);
    }
  }

  /** A legacy retry is a second transfer: with funds for both, the same
      call twice appends two pairs and debits the source twice. */
  lemma LegacyRetryDuplicates(b: Bank, from: AccountId, to: AccountId, amount: Cents)
    requires LegacyExecute(b, from, to, amount).outcome.Ok?
    requires b.accounts[from].availableAmount >= 2 * amount
    ensures var first := LegacyExecute(b, from, to, amount);
            var second := LegacyExecute(first.after, from, to, amount);
            && second.outcome.Ok?
            && |second.after.ledger| == |b.ledger| + 4
            && second.after.accounts[from].availableAmount == b.accounts[from].availableAmount - 2 * amount
            && second.after.accounts[to].availableAmount == b.accounts[to].availableAmount + 2 * amount
  {
    LegacySuccessEffects(b, from, to, amount);
    var first := LegacyExecute(b, from, to, amount);
    assert first.after.accounts[from].availableAmount >= amount;
    LegacySuccessEffects(first.after, from, to, amount);
  }

  // ------------------------------------------------ the two transfer engines

  /** Without a key and without a concurrent writer, the backend and the
      legacy engine succeed on the same calls, and then return the same row
      and leave the same tables. */
  lemma EnginesAgreeOnSuccess(b: Bank, from: AccountId, to: AccountId, amount: Cents)
    ensures var back := Execute(b, Request(from, to, Some(amount), None), None);
            var legacy := LegacyExecute(b, from, to, amount);
            && (back.outcome.Ok? <==> legacy.outcome.Ok?)
            && (legacy.outcome.Ok? ==> back.outcome == legacy.outcome && back.after == legacy.after)
  {
    var req := Request(from, to, Some(amount), None);
    if LegacyExecute(b, from, to, amount).outcome.Ok? {
      KeylessCovered(b, req);
    } else if from != to && amount > 0 {
      ExecuteIsLocked(b, req, None);
      if Min(from, to) in b.accounts && Max(from, to) in b.accounts && b.accounts[from].status == Active
         && b.accounts[to].status == Active && b.accounts[from].availableAmount >= amount {
        LockedIsCommit(b, from, to, amount, None);
      }
    }
  }

  /** A self-transfer the source cannot cover: the backend reports the self
      transfer, the legacy engine the missing funds. */
  lemma SelfTransferPrecedence(b: Bank, id: AccountId, amount: Cents)
    requires id in b.accounts && b.accounts[id].status == Active
    requires amount > 0 && b.accounts[id].availableAmount < amount
    ensures Execute(b, Request(id, id, Some(amount), None), None).outcome == Err(SameAccount)
    ensures LegacyExecute(b, id, id, amount).outcome == Err(InsufficientFunds)
  {
  }

  /** A missing source with a non-positive amount: the backend reports the
      amount, the legacy engine the missing account. */
  lemma AmountPrecedence(b: Bank, from: AccountId, to: AccountId, amount: Cents)
    requires from != to && from !in b.accounts && amount <= 0
    ensures Execute(b, Request(from, to, Some(amount), None), None).outcome == Err(NonPositiveAmount)
    ensures LegacyExecute(b, from, to, amount).outcome == Err(SourceNotFound(from))
  {
  }

  /** Two missing accounts: the backend names the smaller id, the first one
      it locks; the legacy engine names the source. */
  lemma MissingAccountPrecedence(b: Bank, from: AccountId, to: AccountId, amount: Cents)
    requires from != to && from !in b.accounts && to !in b.accounts && amount > 0
    ensures Execute(b, Request(from, to, Some(amount), None), None).outcome == Err(AccountNotFound(Min(from, to)))
    ensures LegacyExecute(b, from, to, amount).outcome == Err(SourceNotFound(from))
  {
    ExecuteIsLocked(b, Request(from, to, Some(amount), None), None);
  }

  // -------------------------------------------------------- legacy accounts

  /** The legacy createAccount succeeds exactly when the name and IBAN, as
      given, are free. It stores the submitted entity, status included, under
      the next identity value; a rejection stores nothing. */
  lemma LegacyCreateOutcomes(s: AccountStore, account: Account)
    ensures var o := LegacyCreated(s, account);
            && (o.result.Ok? <==> !HasName(s.accounts, account.name) && !HasIban(s.accounts, account.iban))
            && (o.result.Err? ==> o.after == s)
            && (o.result.Ok? ==>
                  && o.result.value == Account(s.nextId, account.name, account.iban, account.status, account.availableAmount)
                  && o.after.accounts == s.accounts[s.nextId := o.result.value] && o.after.nextId == s.nextId + 1)
    ensures HasName(s.accounts, account.name) ==> LegacyCreated(s, account).result == Err(NameExists(account.name))
  {
  }

  /** The legacy createAccount keeps the table valid. */
  lemma LegacyCreatePreservesValid(s: AccountStore, account: Account)
    requires StoreValid(s) && account.availableAmount >= 0
    ensures StoreValid(LegacyCreated(s, account).after)
  {
    if LegacyCreated(s, account).result.Ok? {
      AccountProperties.InsertFreshKeepsValid(s, account);
    }
  }

  /** On a name and IBAN that trimming leaves alone, the backend createAccount
      is the legacy one applied to the entity the backend builds. */
  lemma CreateAgreesOnTrimmedInput(s: AccountStore, req: Accounts.CreateRequest)
    requires req.name.Some? && req.iban.Some?
    requires Trim(req.name.value) == req.name.value && Trim(req.iban.value) == req.iban.value
    ensures Accounts.Created(s, req) == LegacyCreated(s, Accounts.NewAccount(req))
  {
  }

  /** A name that differs from a stored one only in surrounding blanks is
      refused by the backend and accepted by the legacy service. */
  lemma CreateDiffersOnPaddedName(s: AccountStore, req: Accounts.CreateRequest)
    requires req.name.Some? && req.iban.Some?
    requires HasName(s.accounts, Trim(req.name.value))
    requires !HasName(s.accounts, req.name.value) && !HasIban(s.accounts, req.iban.value)
    ensures Accounts.Created(s, req).result == Err(NameExists(Trim(req.name.value)))
    ensures LegacyCreated(s, Accounts.NewAccount(req)).result.Ok?
  {
  }
}
