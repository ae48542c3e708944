/**
 * The two Spring Data repositories as in-memory stores: the `accounts` table
 * as a map from id to row, the `transfers` table as an append-only sequence.
 * The database's constraints are explicit: unique account name, unique IBAN,
 * and a unique (accountId, idempotencyKey, type) triple for every ledger row
 * that carries a key. A save that would break one of them is refused, as the
 * database refuses it with a DataIntegrityViolationException.
 */
module Repositories {
  import opened Entities

  // ---------------------------------------------------------------- accounts

  /** existsByName */
  predicate HasName(accounts: map<AccountId, Account>, name: string) {
    exists id | id in accounts :: accounts[id].name == name
  }

  /** existsByIban */
  predicate HasIban(accounts: map<AccountId, Account>, iban: string) {
    exists id | id in accounts :: accounts[id].iban == iban
  }

  /** Every row sits under its own id, names and IBANs are unique, and no
      balance is negative (the @PositiveOrZero column). */
  ghost predicate AccountsConsistent(accounts: map<AccountId, Account>) {
    && (forall id | id in accounts :: accounts[id].id == id && accounts[id].availableAmount >= 0)
    && (forall x, y | x in accounts && y in accounts && x != y ::
          accounts[x].name != accounts[y].name && accounts[x].iban != accounts[y].iban)
  }

  /** Changing only a balance, to a non-negative one, keeps the accounts consistent. */
  lemma BalanceChangeKeepsConsistent(m: map<AccountId, Account>, id: AccountId, amount: Cents)
    requires AccountsConsistent(m) && id in m && amount >= 0
    ensures AccountsConsistent(m[id := m[id].(availableAmount := amount)])
  {
  }

  /** The accounts table together with its IDENTITY counter. */
  datatype AccountStore = AccountStore(accounts: map<AccountId, Account>, nextId: AccountId)

  /** The table's constraints hold and every stored id was handed out already. */
  ghost predicate StoreValid(s: AccountStore) {
    AccountsConsistent(s.accounts) && forall id | id in s.accounts :: id < s.nextId
  }

  /** The store after inserting `a` under the next identity value. */
  function Inserted(s: AccountStore, a: Account): AccountStore {
    AccountStore(s.accounts[s.nextId := a.(id := s.nextId)], s.nextId + 1)
  }

  /** The store after inserting the rows of `batch`, in order. */
  function InsertedAll(s: AccountStore, batch: seq<Account>): AccountStore
    decreases |batch|
  {
    if batch == [] then s else Inserted(InsertedAll(s, batch[..|batch| - 1]), batch[|batch| - 1])
  }

  /** The rows of `batch` as stored from identity value `start` on. */
  function Numbered(batch: seq<Account>, start: AccountId): seq<Account> {
    seq(|batch|, i requires 0 <= i < |batch| => batch[i].(id := start + i))
  }

  /** The row of a batch at position id - s.nextId is stored under id. */
  lemma {:induction false} InsertedAllAt(s: AccountStore, batch: seq<Account>, id: AccountId)
    requires s.nextId <= id < s.nextId + |batch|
    ensures InsertedAll(s, batch).nextId == s.nextId + |batch|
    ensures id in InsertedAll(s, batch).accounts
    ensures InsertedAll(s, batch).accounts[id] == batch[id - s.nextId].(id := id)
    decreases |batch|
  {
    var init := batch[..|batch| - 1];
    if id < s.nextId + |init| {
      InsertedAllAt(s, init, id);
      assert init[id - s.nextId] == batch[id - s.nextId];
    } else if init != [] {
      InsertedAllAt(s, init, s.nextId);
    }
  }

  /** Inserting a batch hands out consecutive ids in batch order, stores each
      row under its id, keeps every row that was there, and adds nothing else. */
  lemma {:induction false} InsertedAllFacts(s: AccountStore, batch: seq<Account>)
    ensures var s' := InsertedAll(s, batch);
            && s'.nextId == s.nextId + |batch|
            && (forall id | s.nextId <= id < s'.nextId :: id in s'.accounts && s'.accounts[id] == batch[id - s.nextId].(id := id))
            && (forall id | id in s.accounts && id < s.nextId :: id in s'.accounts && s'.accounts[id] == s.accounts[id])
            && (forall id | id in s'.accounts :: id in s.accounts || s.nextId <= id < s'.nextId)
    decreases |batch|
  {
    if batch == [] {
    } else {
      InsertedAllFacts(s, batch[..|batch| - 1]);
      forall id | s.nextId <= id < s.nextId + |batch|
        ensures id in InsertedAll(s, batch).accounts && InsertedAll(s, batch).accounts[id] == batch[id - s.nextId].(id := id)
      {
        InsertedAllAt(s, batch, id);
      }
    }
  }

  // ------------------------------------------------------------------ ledger

  /** A row occupies the unique slot (accountId, key, type). */
  predicate InSlot(t: Transfer, accountId: AccountId, key: string, kind: TransferType) {
    t.accountId == accountId && t.idempotencyKey == Some(key) && t.kind == kind
  }

  /** findByAccountIdAndIdempotencyKeyAndType: the first row in the slot. */
  function FindByKey(rows: seq<Transfer>, accountId: AccountId, key: string, kind: TransferType): (r: Option<Transfer>)
    ensures r.Some? ==> r.value in rows && InSlot(r.value, accountId, key, kind)
    ensures r.None? ==> forall i | 0 <= i < |rows| :: !InSlot(rows[i], accountId, key, kind)
  {
    if rows == [] then None
    else if InSlot(rows[0], accountId, key, kind) then Some(rows[0])
    else FindByKey(rows[1..], accountId, key, kind)
  }

  /** Looking up in a longer ledger finds the old row if there was one, and
      otherwise searches only the appended rows. */
  lemma {:induction false} FindByKeyAppend(rows: seq<Transfer>, more: seq<Transfer>, accountId: AccountId, key: string, kind: TransferType)
    ensures FindByKey(rows + more, accountId, key, kind) ==
            if FindByKey(rows, accountId, key, kind).Some? then FindByKey(rows, accountId, key, kind)
            else FindByKey(more, accountId, key, kind)
  {
    if rows != [] {
      assert (rows + more)[0] == rows[0];
      assert (rows + more)[1..] == rows[1..] + more;
      FindByKeyAppend(rows[1..], more, accountId, key, kind);
    } else {
      assert rows + more == more;
    }
  }

  /** Inserting `t` would break the unique idempotency constraint. */
  predicate Violates(rows: seq<Transfer>, t: Transfer) {
    t.idempotencyKey.Some? && FindByKey(rows, t.accountId, t.idempotencyKey.value, t.kind).Some?
  }

  /** Row i has the identity id i + 1, every amount is positive (@Positive),
      and no two keyed rows share a slot. */
  ghost predicate LedgerValid(rows: seq<Transfer>) {
    && (forall i | 0 <= i < |rows| :: rows[i].id == i + 1 && rows[i].amount > 0)
    && (forall i, j | 0 <= i < j < |rows| && rows[i].idempotencyKey.Some? ::
          !InSlot(rows[j], rows[i].accountId, rows[i].idempotencyKey.value, rows[i].kind))
  }

  /** Appending a row that breaks no constraint keeps the ledger valid. */
  lemma AppendKeepsLedgerValid(rows: seq<Transfer>, t: Transfer)
    requires LedgerValid(rows)
    requires t.id == |rows| + 1 && t.amount > 0 && !Violates(rows, t)
    ensures LedgerValid(rows + [t])
  {
    var r := rows + [t];
    forall i, j | 0 <= i < j < |r| && r[i].idempotencyKey.Some?
      ensures !InSlot(r[j], r[i].accountId, r[i].idempotencyKey.value, r[i].kind)
    {
      if j == |rows| && t.idempotencyKey.Some? {
        assert r[i] == rows[i] && r[j] == t;
        assert !InSlot(rows[i], t.accountId, t.idempotencyKey.value, t.kind);
      }
    }
  }

  /** Storing one row can make a name or IBAN taken only if the row has it. */
  lemma HasUpdate(accounts: map<AccountId, Account>, id: AccountId, a: Account, name: string, iban: string)
    ensures HasName(accounts[id := a], name) ==> HasName(accounts, name) || a.name == name
    ensures HasIban(accounts[id := a], iban) ==> HasIban(accounts, iban) || a.iban == iban
  {
    if HasName(accounts[id := a], name) {
      var x :| x in accounts[id := a] && accounts[id := a][x].name == name;
      if x != id { assert accounts[x].name == name; }
    }
    if HasIban(accounts[id := a], iban) {
      var x :| x in accounts[id := a] && accounts[id := a][x].iban == iban;
      if x != id { assert accounts[x].iban == iban; }
    }
  }

  class AccountRepository {
    var accounts: map<AccountId, Account>
    /** The next IDENTITY value. */
    var nextId: AccountId

    ghost predicate Valid()
      reads this
    {
      StoreValid(State())
    }

    function State(): AccountStore
      reads this
    {
      AccountStore(accounts, nextId)
    }

    constructor ()
      ensures Valid() && accounts == map[] && nextId == 1
    {
      accounts := map[];
      nextId := 1;
    }

    function FindById(id: AccountId): (r: Option<Account>)
      reads this
      ensures r.Some? <==> id in accounts
      ensures r.Some? ==> r.value == accounts[id]
    {
      if id in accounts then Some(accounts[id]) else None
    }

    function ExistsById(id: AccountId): bool
      reads this
    {
      id in accounts
    }

    function ExistsByName(name: string): bool
      reads this
    {
      HasName(accounts, name)
    }

    function ExistsByIban(iban: string): bool
      reads this
    {
      HasIban(accounts, iban)
    }

    /** save() of a row that is already stored: overwrites it by id. */
    method Save(a: Account)
      requires a.id in accounts
      modifies this
      ensures accounts == old(accounts)[a.id := a] && nextId == old(nextId)
    {
      accounts := accounts[a.id := a];
    }

    /** save() of a new row: the store assigns the next id, unless the name or
        the IBAN is already taken, when the insert is refused and nothing changes. */
    method Insert(a: Account) returns (r: Option<Account>)
      requires Valid() && a.availableAmount >= 0
      modifies this
      ensures Valid()
      ensures HasName(old(accounts), a.name) || HasIban(old(accounts), a.iban) ==>
                r.None? && accounts == old(accounts) && nextId == old(nextId)
      ensures !HasName(old(accounts), a.name) && !HasIban(old(accounts), a.iban) ==>
                && r == Some(a.(id := old(nextId)))
                && accounts == old(accounts)[old(nextId) := r.value]
                && nextId == old(nextId) + 1
    {
      if HasName(accounts, a.name) || HasIban(accounts, a.iban) {
        return None;
      }
      var row := a.(id := nextId);
      accounts := accounts[nextId := row];
      nextId := nextId + 1;
      return Some(row);
    }

    /** saveAll() of new rows, one insert after the other; the callers have
        checked that the names and IBANs are free and pairwise distinct, so
        every row is stored, under consecutive ids, in order. */
    method SaveAll(batch: seq<Account>) returns (saved: seq<Account>)
      requires Valid()
      requires forall i | 0 <= i < |batch| :: batch[i].availableAmount >= 0
      requires forall i | 0 <= i < |batch| :: !HasName(accounts, batch[i].name) && !HasIban(accounts, batch[i].iban)
      requires forall i, j | 0 <= i < j < |batch| :: batch[i].name != batch[j].name && batch[i].iban != batch[j].iban
      modifies this
      ensures Valid()
      ensures saved == Numbered(batch, old(nextId)) && State() == InsertedAll(old(State()), batch)
    {
      ghost var before := State();
      saved := [];
      var i := 0;
      while i < |batch|
        invariant 0 <= i <= |batch| && Valid()
        invariant nextId == before.nextId + i
        invariant saved == Numbered(batch[..i], before.nextId) && State() == InsertedAll(before, batch[..i])
        invariant forall k | i <= k < |batch| :: !HasName(accounts, batch[k].name) && !HasIban(accounts, batch[k].iban)
      {
        ghost var pre := accounts;
        var row := Insert(batch[i]);
        forall k | i < k < |batch|
          ensures !HasName(accounts, batch[k].name) && !HasIban(accounts, batch[k].iban)
        {
          HasUpdate(pre, nextId - 1, row.value, batch[k].name, batch[k].iban);
        }
        assert batch[..i + 1][..i] == batch[..i];
        assert Numbered(batch[..i + 1], before.nextId) == saved + [row.value];
        saved := saved + [row.value];
        i := i + 1;
      }
      assert batch[..i] == batch;
    }

    method DeleteById(id: AccountId)
      modifies this
      ensures accounts == old(accounts) - {id} && nextId == old(nextId)
    {
      accounts := accounts - {id};
    }
  }

  class TransferRepository {
    var rows: seq<Transfer>

    ghost predicate Valid()
      reads this
    {
      LedgerValid(rows)
    }

    constructor ()
      ensures Valid() && rows == []
    {
      rows := [];
    }

    function FindByAccountIdAndIdempotencyKeyAndType(accountId: AccountId, key: string, kind: TransferType): Option<Transfer>
      reads this
    {
      FindByKey(rows, accountId, key, kind)
    }

    /** save() of a new ledger row: it receives the next identity value and is
        appended, unless it would break the idempotency constraint. */
    method Save(t: Transfer) returns (r: Option<Transfer>)
      modifies this
      ensures Violates(old(rows), t) ==> r.None? && rows == old(rows)
      ensures !Violates(old(rows), t) ==> r == Some(t.(id := |old(rows)| + 1)) && rows == old(rows) + [r.value]
    {
      if Violates(rows, t) {
        return None;
      }
      var row := t.(id := |rows| + 1);
      rows := rows + [row];
      return Some(row);
    }

    /** The unit of work rolls back: rows it inserted past `mark` are discarded. */
    method Rollback(mark: nat)
      requires mark <= |rows|
      modifies this
      ensures rows == old(rows)[..mark]
    {
      rows := rows[..mark];
    }
  }
}
