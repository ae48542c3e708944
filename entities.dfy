/**
 * The persistent entities of the bank service (accounts and ledger rows), the
 * error kinds the services raise, and the two pieces of java.lang.String
 * behaviour the services depend on: `trim()` and `isBlank()`.
 *
 * Money is a BigDecimal of scale 2 in the source; here it is an integer
 * number of cents, so 25.00 is 2500.
 */
module Entities {

  datatype Option<+T> = None | Some(value: T)

  datatype Result<+T, +E> = Ok(value: T) | Err(error: E)

  /** Account ids are store-assigned Longs (UUIDs in the legacy controller); kept abstract. */
  type AccountId = int

  /** An amount of money in cents (BigDecimal with scale 2). */
  type Cents = int

  datatype AccountStatus = Active | Frozen

  datatype Account = Account(
    id: AccountId,
    name: string,
    iban: string,
    status: AccountStatus,
    availableAmount: Cents)

  datatype TransferType = Debit | Credit

  /** One leg of a transfer: a row of the `transfers` table. */
  datatype Transfer = Transfer(
    id: int,
    accountId: AccountId,
    beneficiaryAccountId: AccountId,
    kind: TransferType,
    amount: Cents,
    idempotencyKey: Option<string>)

  /** The IllegalArgumentException messages and the re-raised storage conflict of both transfer services. */
  datatype TransferError =
    | SameAccount                       // "Cannot transfer to the same account"
    | NonPositiveAmount                 // "Transfer amount must be positive"
    | AccountNotFound(id: AccountId)    // "Account not found with id: <id>"
    | SourceNotFound(id: AccountId)     // legacy: "Source account not found with id: <id>"
    | DestinationNotFound(id: AccountId) // legacy: "Destination account not found with id: <id>"
    | SourceFrozen                      // "Source account is frozen"
    | DestinationFrozen                 // "Destination account is frozen"
    | InsufficientFunds                 // "Insufficient funds in source account"
    | StorageConflict                   // the DataIntegrityViolationException, re-raised

  /** The IllegalArgumentException messages of both account services. */
  datatype AccountError =
    | NameExists(name: string)          // "Account with name '<name>' already exists"
    | IbanExists(iban: string)          // "Account with IBAN '<iban>' already exists"
    | SameNameOrIban                    // "Account with same name or IBAN already exists"
    | NoAccountsProvided                // "No accounts provided"
    | NameRequired                      // "Name is required for all accounts"
    | IbanRequired                      // "IBAN is required for all accounts"
    | DuplicateName(name: string)       // "Duplicate account name in request: <name>"
    | DuplicateIban(iban: string)       // "Duplicate IBAN in request: <iban>"
    | NegativeInitialAmount(name: string) // "Initial amount must be >= 0 for account: <name>"
    | NotFound(id: AccountId)           // "Account not found with id: <id>"

  /** java.lang.Character.isWhitespace: Unicode space, line and paragraph separators
      other than the no-break spaces, plus the ASCII control whitespace. */
  predicate IsWhitespace(c: char) {
    || c == ' ' || c == '\t' || c == '\n' || c == '\U{B}' || c == '\U{C}' || c == '\r'
    || ('\U{1C}' <= c <= '\U{1F}')
    || c == '\U{1680}'
    || ('\U{2000}' <= c <= '\U{2006}') || ('\U{2008}' <= c <= '\U{200A}')
    || c == '\U{2028}' || c == '\U{2029}' || c == '\U{205F}' || c == '\U{3000}'
  }

  /** String.isBlank: empty or only whitespace. */
  predicate IsBlank(s: string) {
    forall i | 0 <= i < |s| :: IsWhitespace(s[i])
  }

  /** Number of leading characters that String.trim removes (code point <= U+0020). */
  function LeadingSpace(s: string): (n: nat)
    ensures n <= |s|
    ensures forall k | 0 <= k < n :: s[k] <= ' '
    ensures n < |s| ==> s[n] > ' '
  {
    if s == [] || s[0] > ' ' then 0 else 1 + LeadingSpace(s[1..])
  }

  /** Number of trailing characters that String.trim removes. */
  function TrailingSpace(s: string): (n: nat)
    ensures n <= |s|
    ensures forall k | |s| - n <= k < |s| :: s[k] <= ' '
    ensures n < |s| ==> s[|s| - 1 - n] > ' '
  {
    if s == [] || s[|s| - 1] > ' ' then 0 else 1 + TrailingSpace(s[..|s| - 1])
  }

  /** String.trim: the slice of `s` left after removing every leading and
      trailing character whose code is at most U+0020. */
  function Trim(s: string): (t: string)
    ensures |t| <= |s|
    ensures LeadingSpace(s) + |t| <= |s| && t == s[LeadingSpace(s)..LeadingSpace(s) + |t|]
    ensures forall k | 0 <= k < LeadingSpace(s) :: s[k] <= ' '
    ensures forall k | LeadingSpace(s) + |t| <= k < |s| :: s[k] <= ' '
    ensures t != [] ==> t[0] > ' ' && t[|t| - 1] > ' '
  {
    var n := LeadingSpace(s);
    var rest := s[n..];
    var t := rest[..|rest| - TrailingSpace(rest)];
    assert t == s[n..n + |t|];
    t
  }

  /** Trimming twice is trimming once. */
  lemma TrimIdempotent(s: string)
    ensures Trim(Trim(s)) == Trim(s)
  {
    TrimKeepsClean(Trim(s));
  }

  /** A string with no removable character at either end is its own trim. */
  lemma TrimKeepsClean(s: string)
    requires s != [] ==> s[0] > ' ' && s[|s| - 1] > ' '
    ensures Trim(s) == s
  {
    assert LeadingSpace(s) == 0;
    assert TrailingSpace(s) == 0;
  }

  /** The key the backend acts on: `idemKey != null && !idemKey.isBlank()`. */
  function EffectiveKey(key: Option<string>): (k: Option<string>)
    ensures k.Some? <==> key.Some? && !IsBlank(key.value)
    ensures k.Some? ==> k == key
  {
    if key.Some? && !IsBlank(key.value) then key else None
  }
}
