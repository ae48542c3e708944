/**
 * What the backend createTransfer promises, proved about its reference
 * definition `Transfers.Execute`: error precedence, idempotent replay, lock
 * order, failure atomicity, conservation of money, the DEBIT/CREDIT pairing,
 * preservation of the store's constraints, and the behaviour of retries,
 * sequential and concurrent.
 */
module TransferProperties {
  import opened Entities
  import opened Repositories
  import opened Transfers

  // ------------------------------------------------------------ total money

  /** The sum of all balances. */
  ghost function Total(m: map<AccountId, Account>): int
    decreases |m|
  {
    if m == map[] then 0
    else
      var k := AnyId(m);
      m[k].availableAmount + Total(m - {k})
  }

  ghost function AnyId(m: map<AccountId, Account>): (k: AccountId)
    requires m != map[]
    ensures k in m
  {
    NonEmptyHasKey(m);
    var k :| k in m; k
  }

  lemma NonEmptyHasKey(m: map<AccountId, Account>)
    requires m != map[]
    ensures exists k :: k in m
  {
    if forall k :: k !in m {
      assert false;
    }
  }

  lemma {:induction false} TotalRemove(m: map<AccountId, Account>, k: AccountId)
    requires k in m
    ensures Total(m) == m[k].availableAmount + Total(m - {k})
    decreases |m|
  {
    var j := AnyId(m);
    if j != k {
      TotalRemove(m - {j}, k);
      TotalRemove(m - {k}, j);
      assert m - {j} - {k} == m - {k} - {j};
    }
  }

  /** Replacing one balance changes the total by the difference. */
  lemma TotalUpdate(m: map<AccountId, Account>, k: AccountId, a: Account)
    requires k in m
    ensures Total(m[k := a]) == Total(m) - m[k].availableAmount + a.availableAmount
  {
    TotalRemove(m[k := a], k);
    TotalRemove(m, k);
    assert m[k := a] - {k} == m - {k};
  }

  // ------------------------------------------------- what a commit leaves

  /** `run` committed the transfer `req` on the store `s`: the DEBIT row is
      returned, the pair DEBIT(from -> to), CREDIT(to -> from) with equal
      amounts and the effective key is appended, the source loses exactly the
      amount and the destination gains it, and nothing else changes. */
  ghost predicate Committed(s: Bank, req: Request, run: Run) {
    && run.outcome.Ok? && req.amount.Some?
    && req.from in s.accounts && req.to in s.accounts
    && var d, amount := run.outcome.value, req.amount.value;
    && d == Transfer(|s.ledger| + 1, req.from, req.to, Debit, amount, EffectiveKey(req.idemKey))
    && run.after.ledger == s.ledger + [d, CreditLeg(d)]
    && run.after.accounts.Keys == s.accounts.Keys
    && run.after.accounts[req.from] == s.accounts[req.from].(availableAmount := s.accounts[req.from].availableAmount - amount)
    && run.after.accounts[req.to] == s.accounts[req.to].(availableAmount := s.accounts[req.to].availableAmount + amount)
    && (forall id | id in s.accounts && id != req.from && id != req.to :: run.after.accounts[id] == s.accounts[id])
  }

  // ------------------------------------------------------- error precedence

  /** A self-transfer and then a missing or non-positive amount are rejected
      before either store is read: the result does not depend on the store or
      on a concurrent writer, no lock is taken and nothing changes. */
  lemma RejectedBeforeStoreAccess(b: Bank, b': Bank, req: Request, racer: Option<Request>, racer': Option<Request>)
    requires req.from == req.to || req.amount.None? || req.amount.value <= 0
    ensures Execute(b, req, racer) ==
            Run(if req.from == req.to then Err(SameAccount) else Err(NonPositiveAmount), b, [])
    ensures Execute(b, req, racer).outcome == Execute(b', req, racer').outcome
  {
  }

  /** With a non-blank key under which the source already has a DEBIT row,
      that row is returned: no lock is taken and nothing changes. */
  lemma ReplayReturnsPrior(b: Bank, req: Request, racer: Option<Request>, prior: Transfer)
    requires req.from != req.to && req.amount.Some? && req.amount.value > 0
    requires req.idemKey.Some? && !IsBlank(req.idemKey.value)
    requires FindByKey(b.ledger, req.from, req.idemKey.value, Debit) == Some(prior)
    ensures Execute(b, req, racer) == Run(Ok(prior), b, [])
  {
  }

  /** A blank key is no key at all: the call behaves as the three-argument overload. */
  lemma BlankKeyIsNoKey(b: Bank, from: AccountId, to: AccountId, amount: Option<Cents>, key: string, racer: Option<Request>)
    requires IsBlank(key)
    ensures Execute(b, Request(from, to, amount, Some(key)), racer) == Execute(b, Request(from, to, amount, None), racer)
  {
  }

  /** Locks are taken in strictly ascending id order, min(from, to) and then
      max(from, to), and none at all when the call stops before its locked
      phase. */
  lemma LockOrder(b: Bank, req: Request, racer: Option<Request>)
    ensures var run := Execute(b, req, racer);
            && (forall i, j | 0 <= i < j < |run.locked| :: run.locked[i] < run.locked[j])
            && (run.locked == [] || run.locked == [Min(req.from, req.to)] || run.locked == [Min(req.from, req.to), Max(req.from, req.to)])
            && (run.locked == [] <==>
                  req.from == req.to || req.amount.None? || req.amount.value <= 0 ||
                  PriorDebit(b.ledger, req.from, EffectiveKey(req.idemKey)).Some?)
  {
  }

  /** Locks go to min(from, to) and then max(from, to); a missing account is
      reported under the first id in that order that is missing, after the
      locks up to and including it. */
  lemma NotFoundNamesFirstMissing(b: Bank, req: Request, racer: Option<Request>, id: AccountId)
    requires Execute(b, req, racer).outcome == Err(AccountNotFound(id))
    ensures var s, run := LockState(b, racer), Execute(b, req, racer);
            && req.from != req.to
            && id == (if Min(req.from, req.to) !in s.accounts then Min(req.from, req.to) else Max(req.from, req.to))
            && id !in s.accounts
            && run.locked == (if id == Min(req.from, req.to) then [id] else [Min(req.from, req.to), id])
            && run.after == s
  {
  }

  /** Once both rows are locked they are checked in the order source frozen,
      destination frozen, funds; each of these failures changes nothing. */
  lemma PostLockChecks(b: Bank, req: Request, racer: Option<Request>)
    requires req.from != req.to && req.amount.Some? && req.amount.value > 0
    requires PriorDebit(b.ledger, req.from, EffectiveKey(req.idemKey)).None?
    requires req.from in LockState(b, racer).accounts && req.to in LockState(b, racer).accounts
    ensures var s, run := LockState(b, racer), Execute(b, req, racer);
            var src, dst := s.accounts[req.from], s.accounts[req.to];
            && run.locked == [Min(req.from, req.to), Max(req.from, req.to)]
            && (run.outcome == Err(SourceFrozen) <==> src.status == Frozen)
            && (run.outcome == Err(DestinationFrozen) <==> src.status == Active && dst.status == Frozen)
            && (run.outcome == Err(InsufficientFunds) <==>
                  src.status == Active && dst.status == Active && src.availableAmount < req.amount.value)
            && (src.status == Frozen || dst.status == Frozen || src.availableAmount < req.amount.value ==> run.after == s)
  {
  }

  /** Without a concurrent writer every failure leaves both tables as they were. */
  lemma FailureChangesNothing(b: Bank, req: Request)
    requires Execute(b, req, None).outcome.Err?
    ensures Execute(b, req, None).after == b
  {
  }

  // ------------------------------------------------------------- success

  /** Past the pre-checks and the idempotency look-up, a call is its locked phase. */
  lemma ExecuteIsLocked(b: Bank, req: Request, racer: Option<Request>)
    requires req.from != req.to && req.amount.Some? && req.amount.value > 0
    requires PriorDebit(b.ledger, req.from, EffectiveKey(req.idemKey)).None?
    ensures Execute(b, req, racer) == Locked(LockState(b, racer), req.from, req.to, req.amount.value, EffectiveKey(req.idemKey))
  {
  }

  /** Past the post-lock checks, the locked phase is the commit. */
  lemma LockedIsCommit(s: Bank, from: AccountId, to: AccountId, amount: Cents, key: Option<string>)
    requires from != to && from in s.accounts && to in s.accounts
    requires s.accounts[from].status == Active && s.accounts[to].status == Active && s.accounts[from].availableAmount >= amount
    ensures Locked(s, from, to, amount, key) == Commit(s, from, to, amount, key, [Min(from, to), Max(from, to)])
  {
  }


  /** A successful call that found no prior row under its key committed the
      transfer on the store it locked. */
  lemma {:induction false} SuccessCommits(b: Bank, req: Request, racer: Option<Request>)
    requires Execute(b, req, racer).outcome.Ok?
    requires PriorDebit(LockState(b, racer).ledger, req.from, EffectiveKey(req.idemKey)).None?
    requires PriorDebit(b.ledger, req.from, EffectiveKey(req.idemKey)).None?
    ensures Committed(LockState(b, racer), req, Execute(b, req, racer))
  {
    var s, key := LockState(b, racer), EffectiveKey(req.idemKey);
    var amount := req.amount.value;
    ExecuteIsLocked(b, req, racer);
    LockedIsCommit(s, req.from, req.to, amount, key);
    var d := Transfer(|s.ledger| + 1, req.from, req.to, Debit, amount, key);
    var c := Transfer(|s.ledger| + 2, req.to, req.from, Credit, amount, key);
    assert !(Violates(s.ledger, d) || Violates(s.ledger + [d], c));
    assert c == CreditLeg(d);
  }

  /** On success the source loses exactly the amount, the destination gains
      it, every other account is untouched, the total balance is conserved
      and the source stays non-negative. */
  lemma SuccessConservesMoney(b: Bank, req: Request)
    requires BankValid(b)
    requires Execute(b, req, None).outcome.Ok? && PriorDebit(b.ledger, req.from, EffectiveKey(req.idemKey)).None?
    ensures var run := Execute(b, req, None);
            && req.from in b.accounts && req.to in b.accounts && req.amount.Some?
            && run.after.accounts[req.from].availableAmount == b.accounts[req.from].availableAmount - req.amount.value
            && run.after.accounts[req.to].availableAmount == b.accounts[req.to].availableAmount + req.amount.value
            && (forall id | id in b.accounts && id != req.from && id != req.to :: run.after.accounts[id] == b.accounts[id])
            && run.after.accounts.Keys == b.accounts.Keys
            && Total(run.after.accounts) == Total(b.accounts)
            && run.after.accounts[req.from].availableAmount >= 0
  {
    SuccessCommits(b, req, None);
    var run := Execute(b, req, None);
    var m, amount := b.accounts, req.amount.value;
    var src, dst := m[req.from], m[req.to];
    var m1 := m[req.from := src.(availableAmount := src.availableAmount - amount)];
    assert run.after.accounts == m1[req.to := dst.(availableAmount := dst.availableAmount + amount)];
    TotalUpdate(m, req.from, src.(availableAmount := src.availableAmount - amount));
    TotalUpdate(m1, req.to, dst.(availableAmount := dst.availableAmount + amount));
  }

  /** On success exactly two rows are appended, DEBIT(from -> to) and
      CREDIT(to -> from), with the requested amount, carrying the key exactly
      when it is non-blank; the DEBIT row is returned. */
  lemma SuccessAppendsPair(b: Bank, req: Request)
    requires Execute(b, req, None).outcome.Ok? && PriorDebit(b.ledger, req.from, EffectiveKey(req.idemKey)).None?
    ensures var run := Execute(b, req, None); var d := run.outcome.value;
            && run.after.ledger == b.ledger + [d, CreditLeg(d)]
            && d.kind == Debit && d.accountId == req.from && d.beneficiaryAccountId == req.to
            && CreditLeg(d).kind == Credit && CreditLeg(d).accountId == req.to && CreditLeg(d).beneficiaryAccountId == req.from
            && req.amount == Some(d.amount) && CreditLeg(d).amount == d.amount
            && (d.idempotencyKey.Some? <==> req.idemKey.Some? && !IsBlank(req.idemKey.value))
            && (d.idempotencyKey.Some? ==> d.idempotencyKey == req.idemKey)
  {
    SuccessCommits(b, req, None);
  }

  // ------------------------------------------------------- store invariants

  /** A committed transfer keeps every constraint of both tables. */
  lemma CommitKeepsValid(b: Bank, from: AccountId, to: AccountId, amount: Cents, key: Option<string>, locked: seq<AccountId>)
    requires BankValid(b) && from in b.accounts && to in b.accounts && from != to
    requires amount > 0 && b.accounts[from].availableAmount >= amount
    ensures BankValid(Commit(b, from, to, amount, key, locked).after)
    ensures Commit(b, from, to, amount, key, locked).after.accounts.Keys == b.accounts.Keys
    ensures Commit(b, from, to, amount, key, locked).after.ledger[..|b.ledger|] == b.ledger
  {
    var d := Transfer(|b.ledger| + 1, from, to, Debit, amount, key);
    var c := Transfer(|b.ledger| + 2, to, from, Credit, amount, key);
    if !(Violates(b.ledger, d) || Violates(b.ledger + [d], c)) {
      AppendKeepsLedgerValid(b.ledger, d);
      AppendKeepsLedgerValid(b.ledger + [d], c);
      assert b.ledger + [d] + [c] == b.ledger + [d, c];
      var src, dst := b.accounts[from], b.accounts[to];
      BalanceChangeKeepsConsistent(b.accounts, from, src.availableAmount - amount);
      BalanceChangeKeepsConsistent(b.accounts[from := src.(availableAmount := src.availableAmount - amount)], to, dst.availableAmount + amount);
    } else {
      assert b.ledger[..|b.ledger|] == b.ledger;
    }
  }

  /** createTransfer keeps unique names and IBANs, non-negative balances,
      the ledger's ids and its idempotency constraint; it neither creates nor
      removes accounts, and rows already in the ledger stay where they are. */
  lemma {:induction false} ExecutePreservesValid(b: Bank, req: Request, racer: Option<Request>)
    requires BankValid(b)
    decreases if racer.Some? then 1 else 0
    ensures BankValid(Execute(b, req, racer).after)
    ensures Execute(b, req, racer).after.accounts.Keys == b.accounts.Keys
    ensures |b.ledger| <= |Execute(b, req, racer).after.ledger|
    ensures Execute(b, req, racer).after.ledger[..|b.ledger|] == b.ledger
  {
    if req.from == req.to || req.amount.None? || req.amount.value <= 0 {
    } else if PriorDebit(b.ledger, req.from, EffectiveKey(req.idemKey)).Some? {
    } else {
      var s := LockState(b, racer);
      if racer.Some? {
        ExecutePreservesValid(b, racer.value, None);
      }
      assert BankValid(s) && s.accounts.Keys == b.accounts.Keys && s.ledger[..|b.ledger|] == b.ledger by {
        if racer.None? { assert b.ledger[..|b.ledger|] == b.ledger; }
      }
      var from, to, amount := req.from, req.to, req.amount.value;
      if Min(from, to) in s.accounts && Max(from, to) in s.accounts && s.accounts[from].status == Active
         && s.accounts[to].status == Active && s.accounts[from].availableAmount >= amount {
        ExecuteIsLocked(b, req, racer);
        LockedIsCommit(s, from, to, amount, EffectiveKey(req.idemKey));
        CommitKeepsValid(s, from, to, amount, EffectiveKey(req.idemKey), [Min(from, to), Max(from, to)]);
        var after := Execute(b, req, racer).after;
        assert after.ledger[..|b.ledger|] == after.ledger[..|s.ledger|][..|b.ledger|];
      }
    }
  }

  // ----------------------------------------------------------------- retries

  /** Calling again with the same non-blank key after a success replays it:
      the same DEBIT row comes back, with no lock and no change. */
  lemma RetryReplays(b: Bank, req: Request)
    requires BankValid(b) && req.idemKey.Some? && !IsBlank(req.idemKey.value)
    requires Execute(b, req, None).outcome.Ok?
    ensures var first := Execute(b, req, None);
            Execute(first.after, req, None) == Run(first.outcome, first.after, [])
  {
    var first, key := Execute(b, req, None), req.idemKey.value;
    if FindByKey(b.ledger, req.from, key, Debit).None? {
      SuccessCommits(b, req, None);
      var d := first.outcome.value;
      FindByKeyAppend(b.ledger, [d, CreditLeg(d)], req.from, key, Debit);
    }
  }

  /** The ledger after a call starts with the ledger before it. */
  lemma LedgerGrows(b: Bank, req: Request)
    ensures |b.ledger| <= |Execute(b, req, None).after.ledger|
    ensures Execute(b, req, None).after.ledger[..|b.ledger|] == b.ledger
  {
    assert b.ledger[..|b.ledger|] == b.ledger;
  }

  /** A call that finds nothing under its key even after the racing writer
      has committed behaves as if it had started after that writer. */
  lemma RacerCommitsFirst(b: Bank, req: Request, r: Request)
    requires req.from != req.to && req.amount.Some? && req.amount.value > 0
    requires PriorDebit(LockState(b, Some(r)).ledger, req.from, EffectiveKey(req.idemKey)).None?
    ensures PriorDebit(b.ledger, req.from, EffectiveKey(req.idemKey)).None?
    ensures Execute(b, req, Some(r)) == Execute(LockState(b, Some(r)), req, None)
  {
    var s, key := LockState(b, Some(r)), EffectiveKey(req.idemKey);
    if key.Some? {
      LedgerGrows(b, r);
      assert s.ledger == b.ledger + s.ledger[|b.ledger|..];
      FindByKeyAppend(b.ledger, s.ledger[|b.ledger|..], req.from, key.value, Debit);
    }
  }

  /** Two calls with the same non-blank key racing for the same locks commit
      one pair: the one that locks second either gets the first one's DEBIT
      row back from the duplicate-key recovery, or fails on the funds check
      if the first one has already spent them. Either way the store is
      exactly as the first call left it. */
  lemma ConcurrentRetryCommitsOnce(b: Bank, req: Request)
    requires BankValid(b) && req.idemKey.Some? && !IsBlank(req.idemKey.value)
    requires FindByKey(b.ledger, req.from, req.idemKey.value, Debit).None?
    ensures var first, second := Execute(b, req, None), Execute(b, req, Some(req));
            && second.after == first.after
            && (first.outcome.Err? ==> second == first)
            && (first.outcome.Ok? ==>
                  && first.after.ledger == b.ledger + [first.outcome.value, CreditLeg(first.outcome.value)]
                  && second.outcome == (if first.after.accounts[req.from].availableAmount >= req.amount.value
                                        then first.outcome else Err(InsufficientFunds)))
  {
    var first, key := Execute(b, req, None), req.idemKey.value;
    if first.outcome.Ok? {
      SuccessCommits(b, req, None);
      var d := first.outcome.value;
      FindByKeyAppend(b.ledger, [d, CreditLeg(d)], req.from, key, Debit);
      assert FindByKey(first.after.ledger, req.from, key, Debit) == Some(d);
      var d2 := Transfer(|first.after.ledger| + 1, req.from, req.to, Debit, req.amount.value, Some(key));
      assert Violates(first.after.ledger, d2);
    }
  }

  /** When the CREDIT slot of a keyed commit is already taken and the DEBIT
      slot is free, the commit is rolled back and the conflict is raised. */
  lemma CreditSlotTaken(s: Bank, from: AccountId, to: AccountId, amount: Cents, key: string, locked: seq<AccountId>)
    requires from in s.accounts && to in s.accounts && from != to
    requires FindByKey(s.ledger, from, key, Debit).None? && FindByKey(s.ledger, to, key, Credit).Some?
    ensures Commit(s, from, to, amount, Some(key), locked) == Run(Err(StorageConflict), s, locked)
  {
    var debit := Transfer(|s.ledger| + 1, from, to, Debit, amount, Some(key));
    FindByKeyAppend(s.ledger, [debit], to, key, Credit);
  }

  /** The rows a keyed call appends when it commits. */
  lemma CommittedRows(b: Bank, r: Request)
    requires Execute(b, r, None).outcome.Ok? && PriorDebit(b.ledger, r.from, EffectiveKey(r.idemKey)).None?
    ensures var run := Execute(b, r, None); var d := run.outcome.value;
            && run.after.ledger == b.ledger + [d, CreditLeg(d)]
            && d.accountId == r.from && d.kind == Debit && d.idempotencyKey == EffectiveKey(r.idemKey)
            && d.beneficiaryAccountId == r.to
  {
    SuccessCommits(b, r, None);
  }

  /** After a keyed racer from another source committed a CREDIT row to our
      destination, our commit under the same key finds that slot taken. */
  lemma RacerTakesCreditSlot(b: Bank, r: Request, from: AccountId, to: AccountId, amount: Cents, key: string, locked: seq<AccountId>)
    requires r.idemKey == Some(key) && !IsBlank(key) && r.to == to && r.from != from && from != to
    requires FindByKey(b.ledger, from, key, Debit).None? && FindByKey(b.ledger, r.from, key, Debit).None?
    requires Execute(b, r, None).outcome.Ok?
    requires from in Execute(b, r, None).after.accounts && to in Execute(b, r, None).after.accounts
    ensures var s := Execute(b, r, None).after;
            Commit(s, from, to, amount, Some(key), locked) == Run(Err(StorageConflict), s, locked)
  {
    var s, d := Execute(b, r, None).after, Execute(b, r, None).outcome.value;
    CommittedRows(b, r);
    FindByKeyAppend(b.ledger, [d, CreditLeg(d)], from, key, Debit);
    FindByKeyAppend(b.ledger, [d, CreditLeg(d)], to, key, Credit);
    assert FindByKey([d, CreditLeg(d)], from, key, Debit).None? by {
      assert !InSlot(d, from, key, Debit) && !InSlot(CreditLeg(d), from, key, Debit);
    }
    assert FindByKey([d, CreditLeg(d)], to, key, Credit) == Some(CreditLeg(d)) by {
      assert !InSlot(d, to, key, Credit) && InSlot(CreditLeg(d), to, key, Credit);
    }
    CreditSlotTaken(s, from, to, amount, key, locked);
  }

  /** A racing writer with the same key but another source that commits a
      CREDIT row to the same destination makes our CREDIT save break the
      constraint; the DEBIT lookup finds nothing, so the conflict reaches the
      caller and our rows are rolled back. */
  lemma {:induction false} CreditLegCollision(b: Bank, req: Request, r: Request)
    requires BankValid(b) && req.idemKey.Some? && !IsBlank(req.idemKey.value)
    requires r.idemKey == req.idemKey && r.to == req.to && r.from != req.from && r.from != req.to
    requires FindByKey(b.ledger, req.from, req.idemKey.value, Debit).None?
    requires FindByKey(b.ledger, r.from, r.idemKey.value, Debit).None?
    requires req.amount.Some? && req.amount.value > 0 && req.from != req.to
    requires Execute(b, r, None).outcome.Ok?
    requires var s := Execute(b, r, None).after;
             && req.from in s.accounts && req.to in s.accounts
             && s.accounts[req.from].status == Active && s.accounts[req.to].status == Active
             && s.accounts[req.from].availableAmount >= req.amount.value
    ensures Execute(b, req, Some(r)) ==
            Run(Err(StorageConflict), LockState(b, Some(r)), [Min(req.from, req.to), Max(req.from, req.to)])
  {
    var s, locks := LockState(b, Some(r)), [Min(req.from, req.to), Max(req.from, req.to)];
    RacerTakesCreditSlot(b, r, req.from, req.to, req.amount.value, req.idemKey.value, locks);
    assert Locked(s, req.from, req.to, req.amount.value, req.idemKey) == Run(Err(StorageConflict), s, locks);
  }

  // ------------------------------------------- the re-lookup in the catch

  /** The catch block as written: the CREDIT slot is taken, the DEBIT slot is
      free, and the lookup, still inside the open unit of work, finds the DEBIT
      row this call has just saved. That row is returned although the unit of
      work is discarded, so the caller holds a row that is not in the ledger.
      The corrected commit raises the conflict instead. */
  lemma PhantomDebit(s: Bank, from: AccountId, to: AccountId, amount: Cents, key: string, locked: seq<AccountId>)
    requires from in s.accounts && to in s.accounts && from != to
    requires FindByKey(s.ledger, from, key, Debit).None? && FindByKey(s.ledger, to, key, Credit).Some?
    ensures var d := Transfer(|s.ledger| + 1, from, to, Debit, amount, Some(key));
            var run := CommitAsWritten(s, from, to, amount, Some(key), locked);
            && run.outcome == Ok(d) && run.after == s && d !in run.after.ledger
    ensures Commit(s, from, to, amount, Some(key), locked).outcome == Err(StorageConflict)
  {
    var d := Transfer(|s.ledger| + 1, from, to, Debit, amount, Some(key));
    FindByKeyAppend(s.ledger, [d], to, key, Credit);
    FindByKeyAppend(s.ledger, [d], from, key, Debit);
    assert FindByKey([d], from, key, Debit) == Some(d);
    CreditSlotTaken(s, from, to, amount, key, locked);
  }

  /** The input that shows it: account 3 has sent to account 2 under key "k";
      in a transfer from 1 to 2 under "k", the in-transaction lookup then
      returns DEBIT row 3, while the ledger keeps its two rows. */
  lemma PhantomDebitExample()
    ensures var s := Bank(map[1 := Account(1, "A", "BG01", Active, 10000),
                              2 := Account(2, "B", "BG02", Active, 0),
                              3 := Account(3, "C", "BG03", Active, 5000)],
                          [Transfer(1, 3, 2, Debit, 500, Some("k")), Transfer(2, 2, 3, Credit, 500, Some("k"))]);
            && CommitAsWritten(s, 1, 2, 1000, Some("k"), [1, 2]) == Run(Ok(Transfer(3, 1, 2, Debit, 1000, Some("k"))), s, [1, 2])
            && |s.ledger| == 2
            && Commit(s, 1, 2, 1000, Some("k"), [1, 2]) == Run(Err(StorageConflict), s, [1, 2])
  {
    var s := Bank(map[1 := Account(1, "A", "BG01", Active, 10000),
                      2 := Account(2, "B", "BG02", Active, 0),
                      3 := Account(3, "C", "BG03", Active, 5000)],
                  [Transfer(1, 3, 2, Debit, 500, Some("k")), Transfer(2, 2, 3, Credit, 500, Some("k"))]);
    assert InSlot(s.ledger[1], 2, "k", Credit);
    assert FindByKey(s.ledger, 1, "k", Debit).None? by {
      assert !InSlot(s.ledger[0], 1, "k", Debit) && !InSlot(s.ledger[1], 1, "k", Debit);
    }
    PhantomDebit(s, 1, 2, 1000, "k", [1, 2]);
  }

  /** The two commits differ only on a clash on the CREDIT leg alone. */
  lemma CommitsAgreeElsewhere(s: Bank, from: AccountId, to: AccountId, amount: Cents, key: Option<string>, locked: seq<AccountId>)
    requires from in s.accounts && to in s.accounts && from != to
    requires var debit := Transfer(|s.ledger| + 1, from, to, Debit, amount, key);
             var credit := Transfer(|s.ledger| + 2, to, from, Credit, amount, key);
             Violates(s.ledger, debit) || !Violates(s.ledger + [debit], credit)
    ensures CommitAsWritten(s, from, to, amount, key, locked) == Commit(s, from, to, amount, key, locked)
  {
  }

  /** The corrected engine never hands back a row that is not stored: every
      successful call returns a row of the ledger it leaves. */
  lemma {:induction false} ExecuteReturnsStoredRow(b: Bank, req: Request, racer: Option<Request>)
    ensures var run := Execute(b, req, racer);
            run.outcome.Ok? ==> run.outcome.value in run.after.ledger
    decreases if racer.Some? then 1 else 0
  {
    var run := Execute(b, req, racer);
    if run.outcome.Ok? && req.from != req.to && req.amount.Some? && req.amount.value > 0
       && PriorDebit(b.ledger, req.from, EffectiveKey(req.idemKey)).None? {
      var st, a, key := LockState(b, racer), req.amount.value, EffectiveKey(req.idemKey);
      ExecuteIsLocked(b, req, racer);
      LockedReturnsStoredRow(st, req.from, req.to, a, key);
    }
  }

  /** The locked phase returns the DEBIT row it appended or one found in the
      ledger. */
  lemma LockedReturnsStoredRow(s: Bank, from: AccountId, to: AccountId, amount: Cents, key: Option<string>)
    requires from != to
    ensures var run := Locked(s, from, to, amount, key);
            run.outcome.Ok? ==> run.outcome.value in run.after.ledger
  {
    var run := Locked(s, from, to, amount, key);
    if run.outcome.Ok? {
      var debit := Transfer(|s.ledger| + 1, from, to, Debit, amount, key);
      var credit := Transfer(|s.ledger| + 2, to, from, Credit, amount, key);
      if !Violates(s.ledger, debit) && !Violates(s.ledger + [debit], credit) {
        assert run.after.ledger == s.ledger + [debit, credit];
        assert run.after.ledger[|s.ledger|] == debit;
      }
    }
  }

  /** Without an effective key no save can break the idempotency constraint,
      so the storage conflict is never raised. */
  lemma NoKeyNeverConflicts(b: Bank, req: Request, racer: Option<Request>)
    requires EffectiveKey(req.idemKey).None?
    ensures Execute(b, req, racer).outcome != Err(StorageConflict)
  {
  }

  // ------------------------------------------------- sequential transfers

  /** The result of calling createTransfer `n` times in a row. */
  datatype Tally = Tally(bank: Bank, successes: nat, failures: nat)

  function Repeat(b: Bank, req: Request, n: nat): Tally {
    if n == 0 then Tally(b, 0, 0)
    else
      var t := Repeat(b, req, n - 1);
      var run := Execute(t.bank, req, None);
      if run.outcome.Ok? then Tally(run.after, t.successes + 1, t.failures)
      else Tally(run.after, t.successes, t.failures + 1)
  }

  /** Both accounts exist and are active, and the request is a key-less
      transfer of a positive amount between them. */
  predicate Ready(m: map<AccountId, Account>, req: Request) {
    && req.from != req.to && req.from in m && req.to in m
    && m[req.from].status == Active && m[req.to].status == Active
    && req.amount.Some? && req.amount.value > 0 && req.idemKey.None?
  }

  /** The balances after `a` cents moved from `from` to `to`. */
  function Shift(m: map<AccountId, Account>, from: AccountId, to: AccountId, a: Cents): (m': map<AccountId, Account>)
    requires from in m && to in m && from != to
    ensures m'.Keys == m.Keys
    ensures m'[from] == m[from].(availableAmount := m[from].availableAmount - a)
    ensures m'[to] == m[to].(availableAmount := m[to].availableAmount + a)
  {
    m[from := m[from].(availableAmount := m[from].availableAmount - a)]
     [to := m[to].(availableAmount := m[to].availableAmount + a)]
  }

  /** A key-less transfer the source covers commits. */
  lemma KeylessCovered(b: Bank, req: Request)
    requires Ready(b.accounts, req) && b.accounts[req.from].availableAmount >= req.amount.value
    ensures var a := req.amount.value;
            var d := Transfer(|b.ledger| + 1, req.from, req.to, Debit, a, None);
            Execute(b, req, None) ==
              Run(Ok(d), Bank(Shift(b.accounts, req.from, req.to, a), b.ledger + [d, CreditLeg(d)]),
                  [Min(req.from, req.to), Max(req.from, req.to)])
  {
    var a, locks := req.amount.value, [Min(req.from, req.to), Max(req.from, req.to)];
    assert Execute(b, req, None) == Locked(b, req.from, req.to, a, None);
    assert Locked(b, req.from, req.to, a, None) == Commit(b, req.from, req.to, a, None, locks);
  }

  /** A key-less transfer the source does not cover fails on the funds check. */
  lemma KeylessUncovered(b: Bank, req: Request)
    requires Ready(b.accounts, req) && b.accounts[req.from].availableAmount < req.amount.value
    ensures Execute(b, req, None) == Run(Err(InsufficientFunds), b, [Min(req.from, req.to), Max(req.from, req.to)])
  {
    assert Execute(b, req, None) == Locked(b, req.from, req.to, req.amount.value, None);
  }

  /** One key-less transfer between two active accounts succeeds exactly
      when the source covers the amount. */
  lemma KeylessStep(b: Bank, req: Request)
    requires Ready(b.accounts, req)
    ensures var run, a := Execute(b, req, None), req.amount.value;
            && (run.outcome.Ok? <==> b.accounts[req.from].availableAmount >= a)
            && (run.outcome.Ok? ==> run.after.accounts == Shift(b.accounts, req.from, req.to, a))
            && (run.outcome.Err? ==> run.after == b)
  {
    if b.accounts[req.from].availableAmount >= req.amount.value {
      KeylessCovered(b, req);
    } else {
      KeylessUncovered(b, req);
    }
  }

  /** The n-th call of Repeat, in terms of the (n-1)-th. */
  lemma RepeatStep(b: Bank, req: Request, n: nat, t: Tally)
    requires n > 0 && t == Repeat(b, req, n - 1) && Ready(t.bank.accounts, req)
    ensures var m, t', a := t.bank.accounts, Repeat(b, req, n), req.amount.value;
            var moved := if m[req.from].availableAmount >= a then a else 0;
            && Ready(t'.bank.accounts, req)
            && t'.successes == t.successes + (if moved == a then 1 else 0)
            && t'.failures == t.failures + (if moved == a then 0 else 1)
            && t'.bank.accounts[req.from].availableAmount == m[req.from].availableAmount - moved
            && t'.bank.accounts[req.to].availableAmount == m[req.to].availableAmount + moved
  {
    KeylessStep(t.bank, req);
  }

  /** `s` transfers of `a` cents move `a * s` cents, written additively. */
  function Moved(a: int, s: nat): int {
    if s == 0 then 0 else Moved(a, s - 1) + a
  }

  lemma {:induction false} MovedIsProduct(a: int, s: nat)
    ensures Moved(a, s) == a * s
  {
    if s > 0 {
      MovedIsProduct(a, s - 1);
      assert a * s == a * (s - 1) + a;
    }
  }

  lemma {:induction false} MovedMono(a: int, x: nat, y: nat)
    requires a >= 0 && x <= y
    ensures Moved(a, x) <= Moved(a, y)
    decreases y - x
  {
    if x < y {
      MovedMono(a, x, y - 1);
    }
  }

  /** The balance left after `s` transfers covers one more exactly when
      fewer than `q` have been taken, where `q` transfers fit in `funds`. */
  lemma FundsCover(funds: int, a: int, q: nat, s: nat)
    requires a > 0 && Moved(a, q) <= funds < Moved(a, q) + a && s <= q
    ensures funds - Moved(a, s) >= a <==> s < q
  {
    if s < q {
      MovedMono(a, s + 1, q);
    }
  }

  /** The two balances and the counts after `n` transfers of `a` cents, as
      arithmetic alone: a transfer succeeds exactly when the source covers it. */
  datatype Count = Count(src: int, dst: int, successes: nat, failures: nat)

  function Simulate(src: int, dst: int, a: int, n: nat): Count {
    if n == 0 then Count(src, dst, 0, 0)
    else
      var c := Simulate(src, dst, a, n - 1);
      if c.src >= a then Count(c.src - a, c.dst + a, c.successes + 1, c.failures)
      else c.(failures := c.failures + 1)
  }

  /** Repeat follows the simulation: the accounts stay ready, and the counts
      and both balances are the simulated ones. */
  lemma {:induction false} RepeatIsSimulated(b: Bank, req: Request, n: nat)
    requires Ready(b.accounts, req)
    ensures var t, c := Repeat(b, req, n),
                        Simulate(b.accounts[req.from].availableAmount, b.accounts[req.to].availableAmount, req.amount.value, n);
            && Ready(t.bank.accounts, req)
            && t.successes == c.successes && t.failures == c.failures
            && t.bank.accounts[req.from].availableAmount == c.src && t.bank.accounts[req.to].availableAmount == c.dst
  {
    if n > 0 {
      RepeatIsSimulated(b, req, n - 1);
      RepeatStep(b, req, n, Repeat(b, req, n - 1));
    }
  }

  /** When `q` transfers fit in the source balance, the first min(n, q)
      succeed and the rest fail, and exactly the successful amounts move. */
  lemma {:induction false} SimulatedCounts(src: int, dst: int, a: int, n: nat, q: nat)
    requires a > 0 && Moved(a, q) <= src < Moved(a, q) + a
    ensures var c := Simulate(src, dst, a, n);
            && c.successes == Min(n, q) && c.successes + c.failures == n
            && c.src == src - Moved(a, c.successes) && c.dst == dst + Moved(a, c.successes)
  {
    if n > 0 {
      SimulatedCounts(src, dst, a, n - 1, q);
      FundsCover(src, a, q, Simulate(src, dst, a, n - 1).successes);
    }
  }

  /** The simulation in closed form: min(n, src / a) transfers succeed. */
  lemma SimulatedProduct(src: int, dst: int, a: int, n: nat)
    requires a > 0 && src >= 0
    ensures var c := Simulate(src, dst, a, n);
            && c.successes == Min(n, src / a) && c.successes + c.failures == n
            && c.src == src - a * c.successes && c.dst == dst + a * c.successes
  {
    var q := src / a;
    MovedIsProduct(a, q);
    MovedIsProduct(a, q + 1);
    SimulatedCounts(src, dst, a, n, q);
    MovedIsProduct(a, Simulate(src, dst, a, n).successes);
  }

  /** `n` key-less transfers of `amount` between two active accounts: as many
      succeed as the source's balance covers, the rest fail on the funds
      check, and exactly the successful amounts move. */
  lemma RepeatedTransfers(b: Bank, req: Request, n: nat)
    requires Ready(b.accounts, req) && b.accounts[req.from].availableAmount >= 0
    ensures var t, a, funds := Repeat(b, req, n), req.amount.value, b.accounts[req.from].availableAmount;
            && Ready(t.bank.accounts, req)
            && t.successes == Min(n, funds / a) && t.successes + t.failures == n
            && t.bank.accounts[req.from].availableAmount == funds - a * t.successes
            && t.bank.accounts[req.to].availableAmount == b.accounts[req.to].availableAmount + a * t.successes
  {
    RepeatIsSimulated(b, req, n);
    SimulatedProduct(b.accounts[req.from].availableAmount, b.accounts[req.to].availableAmount, req.amount.value, n);
  }

  /** TransferServiceConcurrencyIT, serialised: ten transfers of 15.00 from
      100.00 give six successes and four failures, ending at 10.00 and 90.00. */
  lemma TenTransfersOfFifteen(b: Bank, req: Request, n: nat)
    requires b == Bank(map[1 := Account(1, "From", "BG00FROM00000000000001", Active, 10000),
                           2 := Account(2, "To", "BG00TO00000000000002", Active, 0)], [])
    requires req == Request(1, 2, Some(1500), None) && n == 10
    ensures var t := Repeat(b, req, n);
            && t.successes == 6 && t.failures == 4
            && 1 in t.bank.accounts && 2 in t.bank.accounts
            && t.bank.accounts[1].availableAmount == 1000 && t.bank.accounts[2].availableAmount == 9000
  {
    RepeatedTransfers(b, req, n);
    assert 10000 / 1500 == 6;
  }

  /** The happy path of TransferServiceTest: 25.00 from 100.00 to 50.00. */
  lemma HappyPath()
    ensures var b := Bank(map[1 := Account(1, "Alice", "BG11TEST00000000000001", Active, 10000),
                             2 := Account(2, "Bob", "BG11TEST00000000000002", Active, 5000)], []);
            var run := Execute(b, Request(1, 2, Some(2500), None), None);
            && run.outcome == Ok(Transfer(1, 1, 2, Debit, 2500, None))
            && run.after.accounts[1].availableAmount == 7500 && run.after.accounts[2].availableAmount == 7500
            && run.after.ledger == [Transfer(1, 1, 2, Debit, 2500, None), Transfer(2, 2, 1, Credit, 2500, None)]
            && run.locked == [1, 2]
  {
  }
}
