/** The `accounts` section of the configuration: every entry names a user
    and a password and is registered in list order; the first bad entry
    stops the reading, leaving the earlier ones registered. */
module AccountConfiguration {
  import opened Wrappers
  import opened ConfigValue
  import opened AccountRepository

  const AccountListKey := "accounts"
  const UsernameKey := "username"
  const PasswordKey := "password"

  /** The message of the `CarrierConfigurationException` thrown. */
  datatype AccountConfigError =
    | MissingUsername               // an entry has no `username` key
    | MissingPassword               // an entry has no `password` key
    | InvalidAccountConfiguration   // a null list, or a value of the wrong type

  /** The registry after `initialize`, and whether it threw. */
  datatype AccountInit = AccountInit(accounts: Accounts, status: Outcome<AccountConfigError>)

  /** A value read as a `String`: null stays null, anything else but a
      string fails its cast. */
  function AsText(v: Value): (r: Result<Option<string>, AccountConfigError>)
    ensures r.Success? <==> v.Null? || v.Text?
    ensures v.Text? ==> r == Success(Some(v.s))
    ensures v.Null? ==> r == Success(None)
    ensures r.Failure? ==> r.error == InvalidAccountConfiguration
  {
    match v
    case Null => Success(None)
    case Text(s) => Success(Some(s))
    case _ => Failure(InvalidAccountConfiguration)
  }

  /** The account an entry describes, or why it is rejected: the key checks
      come first, then the casts of the two values. */
  function EntryAccount(entry: Value): (r: Result<Account, AccountConfigError>)
    ensures !entry.Object? ==> r == Failure(InvalidAccountConfiguration)
    ensures entry.Object? && UsernameKey !in entry.fields ==> r == Failure(MissingUsername)
    ensures entry.Object? && UsernameKey in entry.fields && PasswordKey !in entry.fields ==> r == Failure(MissingPassword)
    ensures r.Success? ==>
      && entry.Object? && UsernameKey in entry.fields && PasswordKey in entry.fields
      && AsText(entry.fields[UsernameKey]) == Success(r.value.username)
      && AsText(entry.fields[PasswordKey]) == Success(r.value.password)
  {
    if !entry.Object? then Failure(InvalidAccountConfiguration)
    else if UsernameKey !in entry.fields then Failure(MissingUsername)
    else if PasswordKey !in entry.fields then Failure(MissingPassword)
    else
      var username :- AsText(entry.fields[UsernameKey]);
      var password :- AsText(entry.fields[PasswordKey]);
      Success(Account(username, password))
  }

  /** The number of entries before the first rejected one. */
  function LeadingValid(entries: seq<Value>): (k: nat)
    ensures k <= |entries|
    ensures forall j :: 0 <= j < k ==> EntryAccount(entries[j]).Success?
    ensures k < |entries| ==> EntryAccount(entries[k]).Failure?
  {
    if entries == [] || EntryAccount(entries[0]).Failure? then 0
    else 1 + LeadingValid(entries[1..])
  }

  /** The accounts the first `k` entries describe. */
  function AccountsOf(entries: seq<Value>, k: nat): (accs: seq<Account>)
    requires k <= |entries|
    requires forall j :: 0 <= j < k ==> EntryAccount(entries[j]).Success?
    ensures |accs| == k
  {
    seq(k, j requires 0 <= j < k => EntryAccount(entries[j]).value)
  }

  /** The loop over the entries: each accepted entry is registered before
      the next one is looked at. */
  function RegisterEntries(entries: seq<Value>, accounts: Accounts): (r: AccountInit)
    ensures var k := LeadingValid(entries);
      && (r.status.Pass? <==> k == |entries|)
      && (r.status.Fail? ==> Failure(r.status.error) == EntryAccount(entries[k]))
      && (forall a :: a in r.accounts <==> a in accounts || a in AccountsOf(entries, k))
  {
    if entries == [] then AccountInit(accounts, Pass)
    else
      match EntryAccount(entries[0])
      case Failure(e) => AccountInit(accounts, Fail(e))
      case Success(account) =>
        var r := RegisterEntries(entries[1..], Register(accounts, account));
        var k := LeadingValid(entries);
        assert k == 1 + LeadingValid(entries[1..]);
        assert AccountsOf(entries, k) == [account] + AccountsOf(entries[1..], k - 1);
        r
  }

  /** `AccountConfiguration.initialize`. */
  function Initialize(configuration: map<string, Value>, accounts: Accounts): (r: AccountInit)
    ensures !Get(configuration, AccountListKey).List? ==>
      r == AccountInit(accounts, Fail(InvalidAccountConfiguration))
    ensures Get(configuration, AccountListKey).List? ==>
      r == RegisterEntries(Get(configuration, AccountListKey).items, accounts)
  {
    match Get(configuration, AccountListKey)
    case List(entries) => RegisterEntries(entries, accounts)
    case _ => AccountInit(accounts, Fail(InvalidAccountConfiguration))
  }

  /** An empty list is accepted and registers nothing. */
  lemma EmptyListRegistersNothing(configuration: map<string, Value>, accounts: Accounts)
    requires Get(configuration, AccountListKey) == List([])
    ensures Initialize(configuration, accounts) == AccountInit(accounts, Pass)
  {
  }

  /** A well-formed list registers an account for every entry, with the
      entry's user name and password; other keys of an entry are ignored. */
  lemma WellFormedListRegistersAll(configuration: map<string, Value>, accounts: Accounts, i: nat)
    requires Get(configuration, AccountListKey).List?
    requires forall j :: 0 <= j < |Get(configuration, AccountListKey).items| ==>
      EntryAccount(Get(configuration, AccountListKey).items[j]).Success?
    requires i < |Get(configuration, AccountListKey).items|
    ensures var r := Initialize(configuration, accounts);
      && r.status.Pass?
      && EntryAccount(Get(configuration, AccountListKey).items[i]).value in r.accounts
  {
    var entries := Get(configuration, AccountListKey).items;
    var k := LeadingValid(entries);
    assert k == |entries|;
    assert AccountsOf(entries, k)[i] == EntryAccount(entries[i]).value;
  }
}
