/**
 * Properties of the backend account operations, stated on their reference
 * definitions in module Accounts: what each rejection leaves, which
 * invariants of the accounts table every operation keeps, how the batch
 * validation decides its error, and how update, freeze, unfreeze and delete
 * compose.
 */
module AccountProperties {
  import opened Entities
  import opened Repositories
  import opened Accounts

  /** The amount createAccount stores: the initial amount, or zero. */
  function InitialBalance(req: CreateRequest): Cents {
    if req.initialAmount.Some? then req.initialAmount.value else 0
  }

  // ----------------------------------------------------------- createAccount

  /** createAccount succeeds exactly when neither the trimmed nor the raw name
      and IBAN are taken. It then stores one new ACTIVE row under the next
      identity value, and every rejection stores nothing. */
  lemma CreateOutcomes(s: AccountStore, req: CreateRequest)
    requires req.name.Some? && req.iban.Some?
    ensures var o := Created(s, req);
            && (o.result.Ok? <==>
                  !HasName(s.accounts, Trim(req.name.value)) && !HasIban(s.accounts, Trim(req.iban.value))
                  && !HasName(s.accounts, req.name.value) && !HasIban(s.accounts, req.iban.value))
            && (o.result.Err? ==> o.after == s)
            && (o.result.Ok? ==>
                  && o.result.value == Account(s.nextId, req.name.value, req.iban.value, Active, InitialBalance(req))
                  && o.after.accounts == s.accounts[s.nextId := o.result.value]
                  && o.after.nextId == s.nextId + 1)
  {
  }

  /** The name is probed before the IBAN, both trimmed. */
  lemma CreateProbeOrder(s: AccountStore, req: CreateRequest)
    requires req.name.Some? && req.iban.Some?
    ensures HasName(s.accounts, Trim(req.name.value)) ==>
              Created(s, req).result == Err(NameExists(Trim(req.name.value)))
    ensures !HasName(s.accounts, Trim(req.name.value)) && HasIban(s.accounts, Trim(req.iban.value)) ==>
              Created(s, req).result == Err(IbanExists(Trim(req.iban.value)))
  {
  }

  /** The insert's own conflict is reachable only with a name or IBAN that
      trimming changes: for trimmed input the probes have already decided. */
  lemma CreateConflictNeedsUntrimmed(s: AccountStore, req: CreateRequest)
    requires req.name.Some? && req.iban.Some?
    requires Created(s, req).result == Err(SameNameOrIban)
    ensures Trim(req.name.value) != req.name.value || Trim(req.iban.value) != req.iban.value
  {
  }

  /** An instance of that conflict: " Bob" is stored, the probe looks for
      "Bob", and the insert of " Bob" then collides. */
  lemma CreateConflictExample()
    ensures var s := AccountStore(map[1 := Account(1, " Bob", "BG01", Active, 0)], 2);
            Created(s, CreateRequest(Some(" Bob"), Some("BG02"), None)).result == Err(SameNameOrIban)
  {
    var s := AccountStore(map[1 := Account(1, " Bob", "BG01", Active, 0)], 2);
    TrimLeadingBlank();
    TrimKeepsClean("BG02");
    assert s.accounts.Keys == {1};
    assert !HasName(s.accounts, "Bob");
    assert !HasIban(s.accounts, "BG02");
    assert HasName(s.accounts, " Bob") by {
      assert s.accounts[1].name == " Bob";
    }
  }

  lemma TrimLeadingBlank()
    ensures Trim(" Bob") == "Bob"
  {
    var name: string := " Bob";
    assert LeadingSpace(name) == 1 by {
      assert name[0] == ' ' && name[1] == 'B';
    }
    assert TrailingSpace(name[1..]) == 0 by {
      assert name[1..][|name[1..]| - 1] == 'b';
    }
  }

  /** A request without an initial amount opens an ACTIVE account with a zero balance. */
  lemma CreateDefaults(s: AccountStore, req: CreateRequest)
    requires req.name.Some? && req.iban.Some? && req.initialAmount.None?
    requires Created(s, req).result.Ok?
    ensures Created(s, req).result.value.status == Active
    ensures Created(s, req).result.value.availableAmount == 0
  {
  }

  /** createAccount keeps the table valid. */
  lemma CreatePreservesValid(s: AccountStore, req: CreateRequest)
    requires StoreValid(s) && req.name.Some? && req.iban.Some?
    requires req.initialAmount.None? || req.initialAmount.value >= 0
    ensures StoreValid(Created(s, req).after)
  {
    var o := Created(s, req);
    if o.result.Ok? {
      InsertFreshKeepsValid(s, NewAccount(req));
    }
  }

  /** Inserting a row whose name and IBAN are free keeps the table valid. */
  lemma InsertFreshKeepsValid(s: AccountStore, a: Account)
    requires StoreValid(s) && a.availableAmount >= 0
    requires !HasName(s.accounts, a.name) && !HasIban(s.accounts, a.iban)
    ensures StoreValid(Inserted(s, a))
  {
    var m := Inserted(s, a).accounts;
    forall x, y | x in m && y in m && x != y
      ensures m[x].name != m[y].name && m[x].iban != m[y].iban
    {
      if x == s.nextId {
        assert s.accounts[y].name != a.name && s.accounts[y].iban != a.iban;
      } else if y == s.nextId {
        assert s.accounts[x].name != a.name && s.accounts[x].iban != a.iban;
      }
    }
  }

  // ---------------------------------------------------------- createAccounts

  /** The names and IBANs of two batches joined. */
  lemma NamesOfAppend(p: seq<CreateRequest>, q: seq<CreateRequest>)
    ensures NamesOf(p + q) == NamesOf(p) + NamesOf(q)
    ensures IbansOf(p + q) == IbansOf(p) + IbansOf(q)
  {
    var t := p + q;
    forall n | n in NamesOf(t) ensures n in NamesOf(p) + NamesOf(q) {
      var i :| 0 <= i < |t| && t[i].name == Some(n);
      if i >= |p| { assert q[i - |p|] == t[i]; }
    }
    forall n | n in NamesOf(p) + NamesOf(q) ensures n in NamesOf(t) {
      if n in NamesOf(p) {
        var i :| 0 <= i < |p| && p[i].name == Some(n);
        assert t[i] == p[i];
      } else {
        var i :| 0 <= i < |q| && q[i].name == Some(n);
        assert t[|p| + i] == q[i];
      }
    }
    forall n | n in IbansOf(t) ensures n in IbansOf(p) + IbansOf(q) {
      var i :| 0 <= i < |t| && t[i].iban == Some(n);
      if i >= |p| { assert q[i - |p|] == t[i]; }
    }
    forall n | n in IbansOf(p) + IbansOf(q) ensures n in IbansOf(t) {
      if n in IbansOf(p) {
        var i :| 0 <= i < |p| && p[i].iban == Some(n);
        assert t[i] == p[i];
      } else {
        var i :| 0 <= i < |q| && q[i].iban == Some(n);
        assert t[|p| + i] == q[i];
      }
    }
  }

  /** A valid prefix passes the scan and hands its names and IBANs on to the
      rest of the batch. */
  lemma {:induction false} BatchErrorSplit(p: seq<CreateRequest>, q: seq<CreateRequest>, names: set<string>, ibans: set<string>)
    requires BatchValid(p, names, ibans)
    ensures BatchError(p + q, names, ibans) == BatchError(q, names + NamesOf(p), ibans + IbansOf(p))
    decreases |p|
  {
    if p == [] {
      assert p + q == q;
      assert NamesOf(p) == {} && IbansOf(p) == {};
      assert names + NamesOf(p) == names && ibans + IbansOf(p) == ibans;
    } else {
      var r := p[0];
      var names', ibans' := names + {r.name.value}, ibans + {r.iban.value};
      assert RequestError(r, names, ibans).None?;
      assert (p + q)[0] == r && (p + q)[1..] == p[1..] + q;
      assert BatchValid(p[1..], names', ibans') by {
        BatchErrorNone(p, names, ibans);
        assert BatchError(p[1..], names', ibans').None?;
        BatchErrorNone(p[1..], names', ibans');
      }
      BatchErrorSplit(p[1..], q, names', ibans');
      NamesOfAppend([r], p[1..]);
      assert [r] + p[1..] == p;
      assert NamesOf([r]) == {r.name.value} && IbansOf([r]) == {r.iban.value};
      assert names' + NamesOf(p[1..]) == names + NamesOf(p);
      assert ibans' + IbansOf(p[1..]) == ibans + IbansOf(p);
      assert BatchError(p + q, names, ibans) == BatchError(p[1..] + q, names', ibans');
    }
  }

  /** The first request with a problem decides the batch's error. */
  lemma BatchFirstError(reqs: seq<CreateRequest>, k: nat)
    requires k < |reqs| && BatchValid(reqs[..k], {}, {})
    requires RequestError(reqs[k], NamesOf(reqs[..k]), IbansOf(reqs[..k])).Some?
    ensures BatchError(reqs, {}, {}) == RequestError(reqs[k], NamesOf(reqs[..k]), IbansOf(reqs[..k]))
  {
    BatchErrorSplit(reqs[..k], reqs[k..], {}, {});
    assert reqs[..k] + reqs[k..] == reqs;
    assert reqs[k..][0] == reqs[k];
    assert {} + NamesOf(reqs[..k]) == NamesOf(reqs[..k]) && {} + IbansOf(reqs[..k]) == IbansOf(reqs[..k]);
  }

  /** Two requests with the same name: the second one is rejected as a
      duplicate when everything before it is in order. */
  lemma BatchDuplicateName(a: CreateRequest, b: CreateRequest)
    requires BatchValid([a], {}, {})
    requires b.name.Some? && !IsBlank(b.name.value) && b.iban.Some? && !IsBlank(b.iban.value)
    requires b.name == a.name
    ensures BatchError([a, b], {}, {}) == Some(DuplicateName(b.name.value))
  {
    assert [a, b][..1] == [a];
    assert NamesOf([a]) == {a.name.value} by {
      assert [a][0] == a;
    }
    BatchFirstError([a, b], 1);
  }

  /** createAccounts succeeds exactly when the batch is non-empty and valid
      and none of its names and IBANs is stored; every rejection stores
      nothing, and a success stores the batch's entities in order. */
  lemma BatchOutcomes(s: AccountStore, reqs: seq<CreateRequest>, r: Result<seq<Account>, AccountError>, s': AccountStore)
    requires BatchOutcome(s, reqs, r, s')
    ensures r.Ok? <==>
              && reqs != [] && BatchValid(reqs, {}, {})
              && (forall n | n in NamesOf(reqs) :: !HasName(s.accounts, n))
              && (forall n | n in IbansOf(reqs) :: !HasIban(s.accounts, n))
    ensures r.Err? ==> s' == s
    ensures r.Ok? ==> Named(reqs) && r.value == Numbered(NewAccounts(reqs), s.nextId) && s' == InsertedAll(s, NewAccounts(reqs))
  {
    BatchErrorNone(reqs, {}, {});
  }

  /** The rows a successful batch returns and stores: one ACTIVE row per
      request, in request order, numbered from the next identity value,
      stored next to the rows that were there. */
  lemma BatchSaved(s: AccountStore, reqs: seq<CreateRequest>)
    requires Named(reqs)
    ensures var rows, s' := Numbered(NewAccounts(reqs), s.nextId), InsertedAll(s, NewAccounts(reqs));
            && |rows| == |reqs| && s'.nextId == s.nextId + |reqs|
            && (forall i | 0 <= i < |reqs| ::
                  rows[i] == Account(s.nextId + i, reqs[i].name.value, reqs[i].iban.value, Active, InitialBalance(reqs[i])))
            && (forall i | 0 <= i < |reqs| :: rows[i].id in s'.accounts && s'.accounts[rows[i].id] == rows[i])
            && (forall id | id in s.accounts && id < s.nextId :: id in s'.accounts && s'.accounts[id] == s.accounts[id])
            && (forall id | id in s'.accounts :: id in s.accounts || s.nextId <= id < s'.nextId)
  {
    var batch := NewAccounts(reqs);
    var rows := Numbered(batch, s.nextId);
    InsertedAllFacts(s, batch);
    forall i | 0 <= i < |reqs| ensures rows[i].id in InsertedAll(s, batch).accounts && InsertedAll(s, batch).accounts[rows[i].id] == rows[i] {
      assert rows[i].id == s.nextId + i;
    }
  }

  /** A row of the store after a batch insert is an old row, or the entity
      of the request at its offset from the old identity value. */
  lemma StoredRow(s: AccountStore, reqs: seq<CreateRequest>, id: AccountId)
    requires StoreValid(s) && Named(reqs)
    ensures var s' := InsertedAll(s, NewAccounts(reqs));
            && s'.nextId == s.nextId + |reqs|
            && (id in s'.accounts && id < s.nextId ==> id in s.accounts && s'.accounts[id] == s.accounts[id])
            && (id in s'.accounts && id >= s.nextId ==>
                  && id < s'.nextId
                  && var r := reqs[id - s.nextId];
                     s'.accounts[id] == Account(id, r.name.value, r.iban.value, Active, InitialBalance(r)))
            && (id in s'.accounts ==> id in s.accounts || s.nextId <= id)
  {
    InsertedAllFacts(s, NewAccounts(reqs));
  }

  /** Storing a valid batch whose names and IBANs are free keeps the table valid. */
  lemma BatchInsertKeepsValid(s: AccountStore, reqs: seq<CreateRequest>)
    requires StoreValid(s) && BatchValid(reqs, {}, {})
    requires forall n | n in NamesOf(reqs) :: !HasName(s.accounts, n)
    requires forall n | n in IbansOf(reqs) :: !HasIban(s.accounts, n)
    ensures Named(reqs) && StoreValid(InsertedAll(s, NewAccounts(reqs)))
  {
    var s' := InsertedAll(s, NewAccounts(reqs));
    var m := s'.accounts;
    forall id | id in m ensures m[id].id == id && m[id].availableAmount >= 0 && id < s'.nextId {
      StoredRow(s, reqs, id);
    }
    forall x, y | x in m && y in m && x != y
      ensures m[x].name != m[y].name && m[x].iban != m[y].iban
    {
      StoredRowsDistinct(s, reqs, x, y);
    }
  }

  /** Two rows of the store after a valid batch insert differ in name and IBAN. */
  lemma StoredRowsDistinct(s: AccountStore, reqs: seq<CreateRequest>, x: AccountId, y: AccountId)
    requires StoreValid(s) && BatchValid(reqs, {}, {})
    requires forall n | n in NamesOf(reqs) :: !HasName(s.accounts, n)
    requires forall n | n in IbansOf(reqs) :: !HasIban(s.accounts, n)
    requires var m := InsertedAll(s, NewAccounts(reqs)).accounts; x in m && y in m && x != y
    ensures var m := InsertedAll(s, NewAccounts(reqs)).accounts;
            m[x].name != m[y].name && m[x].iban != m[y].iban
  {
    StoredRow(s, reqs, x);
    StoredRow(s, reqs, y);
    if x >= s.nextId && y >= s.nextId {
      var i, j := x - s.nextId, y - s.nextId;
      if i < j {
        assert reqs[i].name != reqs[j].name && reqs[i].iban != reqs[j].iban;
      } else {
        assert reqs[j].name != reqs[i].name && reqs[j].iban != reqs[i].iban;
      }
    } else if x >= s.nextId {
      var i := x - s.nextId;
      assert reqs[i].name.value in NamesOf(reqs) && reqs[i].iban.value in IbansOf(reqs);
    } else if y >= s.nextId {
      var j := y - s.nextId;
      assert reqs[j].name.value in NamesOf(reqs) && reqs[j].iban.value in IbansOf(reqs);
    }
  }

  /** createAccounts keeps the table valid. */
  lemma BatchPreservesValid(s: AccountStore, reqs: seq<CreateRequest>, r: Result<seq<Account>, AccountError>, s': AccountStore)
    requires StoreValid(s) && BatchOutcome(s, reqs, r, s')
    ensures StoreValid(s')
  {
    BatchOutcomes(s, reqs, r, s');
    if r.Ok? {
      BatchInsertKeepsValid(s, reqs);
    }
  }

  // ----------------------------------------------------------- updateAccount

  /** updateAccount succeeds exactly on an existing row whose name and IBAN
      are each unchanged or free; it then replaces the name, IBAN and balance
      and nothing else: the row's id and status stay, all other rows stay. A
      rejection stores nothing, and a missing id is the only way to "not
      found". */
  lemma UpdateOutcomes(s: AccountStore, id: AccountId, details: Account)
    ensures var o := Updated(s, id, details);
            && (o.result.Ok? <==>
                  && id in s.accounts
                  && (details.name == s.accounts[id].name || !HasName(s.accounts, details.name))
                  && (details.iban == s.accounts[id].iban || !HasIban(s.accounts, details.iban)))
            && (o.result == Err(NotFound(id)) <==> id !in s.accounts)
            && (o.result.Err? ==> o.after == s)
            && (o.result.Ok? ==>
                  && o.result.value == s.accounts[id].(name := details.name, iban := details.iban,
                                                       availableAmount := details.availableAmount)
                  && o.after.accounts == s.accounts[id := o.result.value] && o.after.nextId == s.nextId)
  {
  }

  /** Only a changed name or IBAN is probed: resubmitting the stored name and
      IBAN always succeeds. */
  lemma UpdateKeepingNameAndIban(s: AccountStore, id: AccountId, details: Account)
    requires id in s.accounts
    requires details.name == s.accounts[id].name && details.iban == s.accounts[id].iban
    ensures Updated(s, id, details).result.Ok?
  {
  }

  /** A changed name held by another row is rejected even when the row's own
      old name would be free. */
  lemma UpdateTakenName(s: AccountStore, id: AccountId, other: AccountId, details: Account)
    requires id in s.accounts && other in s.accounts
    requires details.name != s.accounts[id].name && details.name == s.accounts[other].name
    ensures Updated(s, id, details) == Outcome(Err(NameExists(details.name)), s)
  {
  }

  /** The name is probed before the IBAN: with the name unchanged or free, a
      changed IBAN held by another row is rejected and nothing changes. */
  lemma UpdateTakenIban(s: AccountStore, id: AccountId, other: AccountId, details: Account)
    requires id in s.accounts && other in s.accounts
    requires details.name == s.accounts[id].name || !HasName(s.accounts, details.name)
    requires details.iban != s.accounts[id].iban && details.iban == s.accounts[other].iban
    ensures Updated(s, id, details) == Outcome(Err(IbanExists(details.iban)), s)
  {
  }

  /** Repeating a successful update changes nothing more. */
  lemma UpdateIdempotent(s: AccountStore, id: AccountId, details: Account)
    requires Updated(s, id, details).result.Ok?
    ensures var o := Updated(s, id, details);
            Updated(o.after, id, details) == o
  {
    var o := Updated(s, id, details);
    var a' := o.result.value;
    assert o.after.accounts[id] == a';
    assert o.after.accounts[id := a'] == o.after.accounts;
  }

  /** updateAccount keeps the table valid. */
  lemma UpdatePreservesValid(s: AccountStore, id: AccountId, details: Account)
    requires StoreValid(s) && details.availableAmount >= 0
    ensures StoreValid(Updated(s, id, details).after)
  {
    var o := Updated(s, id, details);
    if o.result.Ok? {
      UpdateKeepsConsistent(s, id, o.result.value);
    }
  }

  // ----------------------------------------------------- freeze and unfreeze

  /** freezeAccount and unfreezeAccount change the status of an existing row
      and nothing else. */
  lemma StatusOutcomes(s: AccountStore, id: AccountId, status: AccountStatus)
    ensures var o := StatusSet(s, id, status);
            && (o.result.Err? <==> id !in s.accounts)
            && (o.result.Err? ==> o.result == Err(NotFound(id)) && o.after == s)
            && (o.result.Ok? ==>
                  && o.result.value == s.accounts[id].(status := status)
                  && o.after.accounts == s.accounts[id := o.result.value] && o.after.nextId == s.nextId)
  {
  }

  /** Freezing a frozen account (unfreezing an active one) changes nothing. */
  lemma StatusIdempotent(s: AccountStore, id: AccountId, status: AccountStatus)
    requires id in s.accounts && s.accounts[id].status == status
    ensures StatusSet(s, id, status) == Outcome(Ok(s.accounts[id]), s)
  {
    assert s.accounts[id := s.accounts[id]] == s.accounts;
  }

  /** Unfreezing after freezing restores an active account exactly. */
  lemma FreezeThenUnfreeze(s: AccountStore, id: AccountId)
    requires id in s.accounts && s.accounts[id].status == Active
    ensures StatusSet(StatusSet(s, id, Frozen).after, id, Active).after == s
  {
    assert s.accounts[id := s.accounts[id].(status := Frozen)][id := s.accounts[id]] == s.accounts;
  }

  /** freezeAccount and unfreezeAccount keep the table valid. */
  lemma StatusPreservesValid(s: AccountStore, id: AccountId, status: AccountStatus)
    requires StoreValid(s)
    ensures StoreValid(StatusSet(s, id, status).after)
  {
    if id in s.accounts {
      UpdateKeepsConsistent(s, id, s.accounts[id].(status := status));
    }
  }

  // ----------------------------------------------------------- deleteAccount

  /** deleteAccount removes exactly the given row, and refuses a missing id. */
  lemma DeleteOutcomes(s: AccountStore, id: AccountId)
    ensures var o := Deleted(s, id);
            && (o.result.Err? <==> id !in s.accounts)
            && (o.result.Err? ==> o.result == Err(NotFound(id)) && o.after == s)
            && (o.result.Ok? ==>
                  && o.after.accounts.Keys == s.accounts.Keys - {id} && o.after.nextId == s.nextId
                  && forall k | k in o.after.accounts :: o.after.accounts[k] == s.accounts[k])
  {
  }

  /** A second delete of the same id is "not found". */
  lemma DeleteTwice(s: AccountStore, id: AccountId)
    ensures Deleted(Deleted(s, id).after, id).result == Err(NotFound(id))
  {
  }

  /** deleteAccount keeps the table valid. */
  lemma DeletePreservesValid(s: AccountStore, id: AccountId)
    requires StoreValid(s)
    ensures StoreValid(Deleted(s, id).after)
  {
  }
}
