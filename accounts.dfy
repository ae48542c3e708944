/**
 * The backend AccountService: create one account, create a batch, update,
 * freeze, unfreeze and delete. Each operation has a reference definition
 * over a snapshot of the accounts store (`Created`, `BatchOutcome`,
 * `Updated`, `StatusSet`, `Deleted`), and the class AccountService runs the
 * same steps against the repository and is proved to end as that definition
 * says.
 */
module Accounts {
  import opened Entities
  import opened Repositories

  /** AccountCreateRequest(name, iban, initialAmount); a null field is None. */
  datatype CreateRequest = CreateRequest(name: Option<string>, iban: Option<string>, initialAmount: Option<Cents>)

  /** What an account operation returns and the store it leaves. */
  datatype Outcome<T> = Outcome(result: Result<T, AccountError>, after: AccountStore)

  /** The entity built from a request: name and IBAN as given, ACTIVE, and the
      initial amount, or zero when it is null. */
  function NewAccount(r: CreateRequest): Account
    requires r.name.Some? && r.iban.Some?
  {
    Account(0, r.name.value, r.iban.value, Active, if r.initialAmount.Some? then r.initialAmount.value else 0)
  }

  // ----------------------------------------------------------- createAccount

  /** createAccount(req): probe the trimmed name, then the trimmed IBAN; insert
      the request's own (untrimmed) values; a uniqueness conflict raised by the
      insert becomes "same name or IBAN". */
  function Created(s: AccountStore, req: CreateRequest): Outcome<Account>
    requires req.name.Some? && req.iban.Some?
  {
    var name, iban := Trim(req.name.value), Trim(req.iban.value);
    if HasName(s.accounts, name) then Outcome(Err(NameExists(name)), s)
    else if HasIban(s.accounts, iban) then Outcome(Err(IbanExists(iban)), s)
    else
      var a := NewAccount(req);
      if HasName(s.accounts, a.name) || HasIban(s.accounts, a.iban) then Outcome(Err(SameNameOrIban), s)
      else Outcome(Ok(a.(id := s.nextId)), Inserted(s, a))
  }

  // ---------------------------------------------------------- createAccounts

  /** The checks of one request of a batch, in order, given the names and
      IBANs of the requests before it. */
  function RequestError(r: CreateRequest, names: set<string>, ibans: set<string>): Option<AccountError> {
    if r.name.None? || IsBlank(r.name.value) then Some(NameRequired)
    else if r.iban.None? || IsBlank(r.iban.value) then Some(IbanRequired)
    else if r.name.value in names then Some(DuplicateName(r.name.value))
    else if r.iban.value in ibans then Some(DuplicateIban(r.iban.value))
    else if r.initialAmount.Some? && r.initialAmount.value < 0 then Some(NegativeInitialAmount(r.name.value))
    else None
  }

  /** The validation scan of createAccounts: the first request with a problem
      decides the error. */
  function BatchError(reqs: seq<CreateRequest>, names: set<string>, ibans: set<string>): Option<AccountError> {
    if reqs == [] then None
    else if RequestError(reqs[0], names, ibans).Some? then RequestError(reqs[0], names, ibans)
    else BatchError(reqs[1..], names + {reqs[0].name.value}, ibans + {reqs[0].iban.value})
  }

  function NamesOf(reqs: seq<CreateRequest>): set<string> {
    set i | 0 <= i < |reqs| && reqs[i].name.Some? :: reqs[i].name.value
  }

  function IbansOf(reqs: seq<CreateRequest>): set<string> {
    set i | 0 <= i < |reqs| && reqs[i].iban.Some? :: reqs[i].iban.value
  }

  /** A batch without a problem, stated directly: every request has a
      non-blank name and IBAN, none of them already seen, no two requests
      share a name or an IBAN, and no initial amount is negative. */
  predicate BatchValid(reqs: seq<CreateRequest>, names: set<string>, ibans: set<string>) {
    && (forall i | 0 <= i < |reqs| ::
          && reqs[i].name.Some? && !IsBlank(reqs[i].name.value) && reqs[i].name.value !in names
          && reqs[i].iban.Some? && !IsBlank(reqs[i].iban.value) && reqs[i].iban.value !in ibans
          && (reqs[i].initialAmount.None? || reqs[i].initialAmount.value >= 0))
    && (forall i, j | 0 <= i < j < |reqs| :: reqs[i].name != reqs[j].name && reqs[i].iban != reqs[j].iban)
  }

  /** The scan finds nothing exactly when the batch is valid. */
  lemma {:induction false} BatchErrorNone(reqs: seq<CreateRequest>, names: set<string>, ibans: set<string>)
    ensures BatchError(reqs, names, ibans).None? <==> BatchValid(reqs, names, ibans)
    decreases |reqs|
  {
    if reqs != [] {
      var r, rest := reqs[0], reqs[1..];
      if RequestError(r, names, ibans).None? {
        var names', ibans' := names + {r.name.value}, ibans + {r.iban.value};
        BatchErrorNone(rest, names', ibans');
        if BatchValid(rest, names', ibans') {
          forall i, j | 0 <= i < j < |reqs| ensures reqs[i].name != reqs[j].name && reqs[i].iban != reqs[j].iban {
            if i > 0 {
              assert reqs[i] == rest[i - 1] && reqs[j] == rest[j - 1];
            } else {
              assert reqs[j] == rest[j - 1];
            }
          }
          forall i | 0 <= i < |reqs|
            ensures reqs[i].name.Some? && reqs[i].name.value !in names && reqs[i].iban.Some? && reqs[i].iban.value !in ibans
          {
            if i > 0 { assert reqs[i] == rest[i - 1]; }
          }
        }
        if BatchValid(reqs, names, ibans) {
          forall i | 0 <= i < |rest|
            ensures rest[i].name.Some? && rest[i].name.value !in names' && rest[i].iban.Some? && rest[i].iban.value !in ibans'
          {
            assert rest[i] == reqs[i + 1];
            assert reqs[0].name != reqs[i + 1].name && reqs[0].iban != reqs[i + 1].iban;
          }
          forall i, j | 0 <= i < j < |rest| ensures rest[i].name != rest[j].name && rest[i].iban != rest[j].iban {
            assert rest[i] == reqs[i + 1] && rest[j] == reqs[j + 1];
          }
        }
      } else {
        assert reqs[0] == r;
      }
    }
  }

  /** Every request of a batch names an account and an IBAN. */
  predicate Named(reqs: seq<CreateRequest>) {
    forall i | 0 <= i < |reqs| :: reqs[i].name.Some? && reqs[i].iban.Some?
  }

  /** The stream map of createAccounts: one ACTIVE entity per request, in order. */
  function NewAccounts(reqs: seq<CreateRequest>): seq<Account>
    requires Named(reqs)
  {
    seq(|reqs|, i requires 0 <= i < |reqs| => NewAccount(reqs[i]))
  }

  /** What createAccounts may return and leave. An empty list, then the
      validation scan, then a name already stored, then an IBAN already
      stored, each reject the whole batch with nothing saved. The source
      probes names and IBANs by iterating a HashSet, so which stored name
      (IBAN) is reported is left open. Otherwise every entity is stored, in
      request order, and the stored rows are returned. */
  ghost predicate BatchOutcome(s: AccountStore, reqs: seq<CreateRequest>, r: Result<seq<Account>, AccountError>, s': AccountStore) {
    if reqs == [] then r == Err(NoAccountsProvided) && s' == s
    else if BatchError(reqs, {}, {}).Some? then r == Err(BatchError(reqs, {}, {}).value) && s' == s
    else if exists n | n in NamesOf(reqs) :: HasName(s.accounts, n) then
      s' == s && r.Err? && r.error.NameExists? && r.error.name in NamesOf(reqs) && HasName(s.accounts, r.error.name)
    else if exists n | n in IbansOf(reqs) :: HasIban(s.accounts, n) then
      s' == s && r.Err? && r.error.IbanExists? && r.error.iban in IbansOf(reqs) && HasIban(s.accounts, r.error.iban)
    else
      Named(reqs) && r == Ok(Numbered(NewAccounts(reqs), s.nextId)) && s' == InsertedAll(s, NewAccounts(reqs))
  }

  // ------------------------------------------- update, freeze, unfreeze, delete

  /** updateAccount(id, details): a missing id is not found; a changed name
      (IBAN) that another row has is rejected; then name, IBAN and balance are
      replaced and the status is kept. */
  function Updated(s: AccountStore, id: AccountId, details: Account): Outcome<Account> {
    if id !in s.accounts then Outcome(Err(NotFound(id)), s)
    else
      var a := s.accounts[id];
      if a.name != details.name && HasName(s.accounts, details.name) then Outcome(Err(NameExists(details.name)), s)
      else if a.iban != details.iban && HasIban(s.accounts, details.iban) then Outcome(Err(IbanExists(details.iban)), s)
      else
        var a' := a.(name := details.name, iban := details.iban, availableAmount := details.availableAmount);
        Outcome(Ok(a'), AccountStore(s.accounts[id := a'], s.nextId))
  }

  /** freezeAccount (status FROZEN) and unfreezeAccount (status ACTIVE). */
  function StatusSet(s: AccountStore, id: AccountId, status: AccountStatus): Outcome<Account> {
    if id !in s.accounts then Outcome(Err(NotFound(id)), s)
    else
      var a' := s.accounts[id].(status := status);
      Outcome(Ok(a'), AccountStore(s.accounts[id := a'], s.nextId))
  }

  /** deleteAccount(id). */
  function Deleted(s: AccountStore, id: AccountId): Outcome<()> {
    if id !in s.accounts then Outcome(Err(NotFound(id)), s)
    else Outcome(Ok(()), AccountStore(s.accounts - {id}, s.nextId))
  }

  class AccountService {
    const accountRepository: AccountRepository

    constructor (accountRepository: AccountRepository)
      ensures this.accountRepository == accountRepository
    {
      this.accountRepository := accountRepository;
    }

    ghost predicate Valid()
      reads this, accountRepository
    {
      accountRepository.Valid()
    }

    /** createAccount(req). A negative initial amount is refused by the
        @PositiveOrZero validation before the service runs. */
    method CreateAccount(req: CreateRequest) returns (result: Result<Account, AccountError>)
      requires Valid() && req.name.Some? && req.iban.Some?
      requires req.initialAmount.None? || req.initialAmount.value >= 0
      modifies accountRepository
      ensures Valid()
      ensures var o := Created(old(accountRepository.State()), req);
              result == o.result && accountRepository.State() == o.after
    {
      var name := Trim(req.name.value);
      var iban := Trim(req.iban.value);
      if accountRepository.ExistsByName(name) {
        return Err(NameExists(name));
      }
      if accountRepository.ExistsByIban(iban) {
        return Err(IbanExists(iban));
      }
      var a := Account(0, req.name.value, req.iban.value, Active, 0);
      if req.initialAmount.Some? {
        a := a.(availableAmount := req.initialAmount.value);
      }
      var saved := accountRepository.Insert(a);
      if saved.None? {
        // DataIntegrityViolationException from the unique constraints
        return Err(SameNameOrIban);
      }
      return Ok(saved.value);
    }

    /** createAccounts(requests); a null list is the empty list. */
    method CreateAccounts(requests: seq<CreateRequest>) returns (result: Result<seq<Account>, AccountError>)
      requires Valid()
      modifies accountRepository
      ensures Valid()
      ensures BatchOutcome(old(accountRepository.State()), requests, result, accountRepository.State())
    {
      if |requests| == 0 {
        return Err(NoAccountsProvided);
      }
      var error, names, ibans := ValidateBatch(requests);
      if error.Some? {
        return Err(error.value);
      }
      BatchErrorNone(requests, {}, {});
      var takenName := ProbeNames(names);
      if takenName.Some? {
        return Err(NameExists(takenName.value));
      }
      var takenIban := ProbeIbans(ibans);
      if takenIban.Some? {
        return Err(IbanExists(takenIban.value));
      }
      var entities := NewAccounts(requests);
      forall k | 0 <= k < |entities|
        ensures !HasName(accountRepository.accounts, entities[k].name) && !HasIban(accountRepository.accounts, entities[k].iban)
      {
        assert entities[k].name in names && entities[k].iban in ibans;
      }
      var saved := accountRepository.SaveAll(entities);
      return Ok(saved);
    }

    /** The name probes of createAccounts: existsByName for each name of the
        batch, in the unspecified order of a HashSet, stopping at a taken one. */
    method ProbeNames(names: set<string>) returns (taken: Option<string>)
      requires Valid()
      ensures taken.Some? ==> taken.value in names && HasName(accountRepository.accounts, taken.value)
      ensures taken.None? ==> forall n | n in names :: !HasName(accountRepository.accounts, n)
    {
      var rest := names;
      while rest != {}
        invariant rest <= names
        invariant forall n | n in names - rest :: !HasName(accountRepository.accounts, n)
        decreases rest
      {
        var n :| n in rest;
        var exists_ := accountRepository.ExistsByName(n);
        if exists_ {
          return Some(n);
        }
        rest := rest - {n};
      }
      return None;
    }

    /** The IBAN probes of createAccounts, like the name probes. */
    method ProbeIbans(ibans: set<string>) returns (taken: Option<string>)
      requires Valid()
      ensures taken.Some? ==> taken.value in ibans && HasIban(accountRepository.accounts, taken.value)
      ensures taken.None? ==> forall n | n in ibans :: !HasIban(accountRepository.accounts, n)
    {
      var rest := ibans;
      while rest != {}
        invariant rest <= ibans
        invariant forall n | n in ibans - rest :: !HasIban(accountRepository.accounts, n)
        decreases rest
      {
        var n :| n in rest;
        var exists_ := accountRepository.ExistsByIban(n);
        if exists_ {
          return Some(n);
        }
        rest := rest - {n};
      }
      return None;
    }
    /** updateAccount(id, accountDetails). The entity's @PositiveOrZero
        validation keeps the new balance non-negative. */
    method UpdateAccount(id: AccountId, accountDetails: Account) returns (result: Result<Account, AccountError>)
      requires Valid() && accountDetails.availableAmount >= 0
      modifies accountRepository
      ensures Valid()
      ensures var o := Updated(old(accountRepository.State()), id, accountDetails);
              result == o.result && accountRepository.State() == o.after
    {
      var found := accountRepository.FindById(id);
      if found.None? {
        return Err(NotFound(id));
      }
      var account := found.value;
      if account.name != accountDetails.name && accountRepository.ExistsByName(accountDetails.name) {
        return Err(NameExists(accountDetails.name));
      }
      if account.iban != accountDetails.iban && accountRepository.ExistsByIban(accountDetails.iban) {
        return Err(IbanExists(accountDetails.iban));
      }
      account := account.(name := accountDetails.name);
      account := account.(iban := accountDetails.iban);
      account := account.(availableAmount := accountDetails.availableAmount);
      UpdateKeepsConsistent(accountRepository.State(), id, account);
      accountRepository.Save(account);
      return Ok(account);
    }

    /** freezeAccount(id). */
    method FreezeAccount(id: AccountId) returns (result: Result<Account, AccountError>)
      requires Valid()
      modifies accountRepository
      ensures Valid()
      ensures var o := StatusSet(old(accountRepository.State()), id, Frozen);
              result == o.result && accountRepository.State() == o.after
    {
      var found := accountRepository.FindById(id);
      if found.None? {
        return Err(NotFound(id));
      }
      var account := found.value.(status := Frozen);
      UpdateKeepsConsistent(accountRepository.State(), id, account);
      accountRepository.Save(account);
      return Ok(account);
    }

    /** unfreezeAccount(id). */
    method UnfreezeAccount(id: AccountId) returns (result: Result<Account, AccountError>)
      requires Valid()
      modifies accountRepository
      ensures Valid()
      ensures var o := StatusSet(old(accountRepository.State()), id, Active);
              result == o.result && accountRepository.State() == o.after
    {
      var found := accountRepository.FindById(id);
      if found.None? {
        return Err(NotFound(id));
      }
      var account := found.value.(status := Active);
      UpdateKeepsConsistent(accountRepository.State(), id, account);
      accountRepository.Save(account);
      return Ok(account);
    }

    /** deleteAccount(id). */
    method DeleteAccount(id: AccountId) returns (result: Result<(), AccountError>)
      requires Valid()
      modifies accountRepository
      ensures Valid()
      ensures var o := Deleted(old(accountRepository.State()), id);
              result == o.result && accountRepository.State() == o.after
    {
      if !accountRepository.ExistsById(id) {
        return Err(NotFound(id));
      }
      accountRepository.DeleteById(id);
      return Ok(());
    }
  }

  /** The validation loop of createAccounts: the checks of each request in
      turn, collecting the names and IBANs seen so far. */
  method ValidateBatch(requests: seq<CreateRequest>) returns (error: Option<AccountError>, names: set<string>, ibans: set<string>)
    ensures error == BatchError(requests, {}, {})
    ensures error.None? ==> Named(requests) && names == NamesOf(requests) && ibans == IbansOf(requests)
  {
    names, ibans := {}, {};
    var i := 0;
    while i < |requests|
      invariant 0 <= i <= |requests|
      invariant BatchError(requests, {}, {}) == BatchError(requests[i..], names, ibans)
      invariant Named(requests[..i]) && names == NamesOf(requests[..i]) && ibans == IbansOf(requests[..i])
    {
      var r := requests[i];
      assert requests[i..][0] == r && requests[i..][1..] == requests[i + 1..];
      if r.name.None? || IsBlank(r.name.value) {
        return Some(NameRequired), names, ibans;
      }
      if r.iban.None? || IsBlank(r.iban.value) {
        return Some(IbanRequired), names, ibans;
      }
      // HashSet.add is false for a name already in the set
      if r.name.value in names {
        return Some(DuplicateName(r.name.value)), names, ibans;
      }
      names := names + {r.name.value};
      if r.iban.value in ibans {
        return Some(DuplicateIban(r.iban.value)), names, ibans;
      }
      ibans := ibans + {r.iban.value};
      if r.initialAmount.Some? && r.initialAmount.value < 0 {
        return Some(NegativeInitialAmount(r.name.value)), names, ibans;
      }
      NamesOfSnoc(requests[..i], r);
      assert requests[..i + 1] == requests[..i] + [r];
      i := i + 1;
    }
    assert requests[..i] == requests;
    return None, names, ibans;
  }

  /** The names and IBANs of a batch grow by those of an appended request. */
  lemma NamesOfSnoc(reqs: seq<CreateRequest>, r: CreateRequest)
    requires r.name.Some? && r.iban.Some?
    ensures NamesOf(reqs + [r]) == NamesOf(reqs) + {r.name.value}
    ensures IbansOf(reqs + [r]) == IbansOf(reqs) + {r.iban.value}
  {
    var t := reqs + [r];
    assert t[|reqs|] == r;
    forall n | n in NamesOf(reqs) ensures n in NamesOf(t) {
      var i :| 0 <= i < |reqs| && reqs[i].name == Some(n);
      assert t[i] == reqs[i];
    }
    forall n | n in IbansOf(reqs) ensures n in IbansOf(t) {
      var i :| 0 <= i < |reqs| && reqs[i].iban == Some(n);
      assert t[i] == reqs[i];
    }
  }

  /** Replacing a row by one whose name and IBAN are its own or free, and
      whose balance is non-negative, keeps the store valid. */
  lemma UpdateKeepsConsistent(s: AccountStore, id: AccountId, a: Account)
    requires StoreValid(s) && id in s.accounts && a.id == id && a.availableAmount >= 0
    requires a.name == s.accounts[id].name || !HasName(s.accounts, a.name)
    requires a.iban == s.accounts[id].iban || !HasIban(s.accounts, a.iban)
    ensures StoreValid(AccountStore(s.accounts[id := a], s.nextId))
  {
    var m := s.accounts[id := a];
    forall x, y | x in m && y in m && x != y
      ensures m[x].name != m[y].name && m[x].iban != m[y].iban
    {
      if x == id {
        assert s.accounts[y].name != s.accounts[id].name && s.accounts[y].iban != s.accounts[id].iban;
      } else if y == id {
        assert s.accounts[x].name != s.accounts[id].name && s.accounts[x].iban != s.accounts[id].iban;
      }
    }
  }
}
