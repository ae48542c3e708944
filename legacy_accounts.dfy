/**
 * The legacy AccountService. createAccount stores the submitted entity after
 * probing its name and IBAN exactly as given: there is no trimming and no
 * conflict path. Its update, freeze, unfreeze and delete do what the backend's
 * do, so they are proved against the same reference definitions
 * (`Accounts.Updated`, `Accounts.StatusSet`, `Accounts.Deleted`).
 */
module LegacyAccounts {
  import opened Entities
  import opened Repositories
  import Accounts

  /** createAccount(account): name first, then IBAN, then the insert under the
      next identity value, with the status and balance the entity carries. */
  function LegacyCreated(s: AccountStore, account: Account): Accounts.Outcome<Account> {
    if HasName(s.accounts, account.name) then Accounts.Outcome(Err(NameExists(account.name)), s)
    else if HasIban(s.accounts, account.iban) then Accounts.Outcome(Err(IbanExists(account.iban)), s)
    else Accounts.Outcome(Ok(account.(id := s.nextId)), Inserted(s, account))
  }

  class AccountService {
    const accountRepository: AccountRepository

    constructor (accountRepository: AccountRepository)
      ensures this.accountRepository == accountRepository
    {
      this.accountRepository := accountRepository;
    }

    ghost predicate Valid()
      reads this, accountRepository
    {
      accountRepository.Valid()
    }

    /** createAccount(account). The controller's @Valid and the entity's
        @PositiveOrZero keep the balance non-negative. */
    method CreateAccount(account: Account) returns (result: Result<Account, AccountError>)
      requires Valid() && account.availableAmount >= 0
      modifies accountRepository
      ensures Valid()
      ensures var o := LegacyCreated(old(accountRepository.State()), account);
              result == o.result && accountRepository.State() == o.after
    {
      if accountRepository.ExistsByName(account.name) {
        return Err(NameExists(account.name));
      }
      if accountRepository.ExistsByIban(account.iban) {
        return Err(IbanExists(account.iban));
      }
      var saved := accountRepository.Insert(account);
      return Ok(saved.value);
    }

    /** updateAccount(id, accountDetails). */
    method UpdateAccount(id: AccountId, accountDetails: Account) returns (result: Result<Account, AccountError>)
      requires Valid() && accountDetails.availableAmount >= 0
      modifies accountRepository
      ensures Valid()
      ensures var o := Accounts.Updated(old(accountRepository.State()), id, accountDetails);
              result == o.result && accountRepository.State() == o.after
    {
      var found := accountRepository.FindById(id);
      if found.None? {
        return Err(NotFound(id));
      }
      var account := found.value;
      if account.name != accountDetails.name && accountRepository.ExistsByName(accountDetails.name) {
        return Err(NameExists(accountDetails.name));
      }
      if account.iban != accountDetails.iban && accountRepository.ExistsByIban(accountDetails.iban) {
        return Err(IbanExists(accountDetails.iban));
      }
      account := account.(name := accountDetails.name, iban := accountDetails.iban,
                          availableAmount := accountDetails.availableAmount);
      Accounts.UpdateKeepsConsistent(accountRepository.State(), id, account);
      accountRepository.Save(account);
      return Ok(account);
    }

    /** freezeAccount(id) and unfreezeAccount(id): the two differ only in the
        status they set. */
    method SetStatus(id: AccountId, status: AccountStatus) returns (result: Result<Account, AccountError>)
      requires Valid()
      modifies accountRepository
      ensures Valid()
      ensures var o := Accounts.StatusSet(old(accountRepository.State()), id, status);
              result == o.result && accountRepository.State() == o.after
    {
      var found := accountRepository.FindById(id);
      if found.None? {
        return Err(NotFound(id));
      }
      var account := found.value.(status := status);
      Accounts.UpdateKeepsConsistent(accountRepository.State(), id, account);
      accountRepository.Save(account);
      return Ok(account);
    }

    /** freezeAccount(id). */
    method FreezeAccount(id: AccountId) returns (result: Result<Account, AccountError>)
      requires Valid()
      modifies accountRepository
      ensures Valid()
      ensures var o := Accounts.StatusSet(old(accountRepository.State()), id, Frozen);
              result == o.result && accountRepository.State() == o.after
    {
      result := SetStatus(id, Frozen);
    }

    /** unfreezeAccount(id). */
    method UnfreezeAccount(id: AccountId) returns (result: Result<Account, AccountError>)
      requires Valid()
      modifies accountRepository
      ensures Valid()
      ensures var o := Accounts.StatusSet(old(accountRepository.State()), id, Active);
              result == o.result && accountRepository.State() == o.after
    {
      result := SetStatus(id, Active);
    }

    /** deleteAccount(id). */
    method DeleteAccount(id: AccountId) returns (result: Result<(), AccountError>)
      requires Valid()
      modifies accountRepository
      ensures Valid()
      ensures var o := Accounts.Deleted(old(accountRepository.State()), id);
              result == o.result && accountRepository.State() == o.after
    {
      if !accountRepository.ExistsById(id) {
        return Err(NotFound(id));
      }
      accountRepository.DeleteById(id);
      return Ok(());
    }
  }
}
