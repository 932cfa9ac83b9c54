/** The in-memory set of web accounts and its lookup by user name. */
module AccountRepository {
  import opened Wrappers

  /** A web account; `None` stands for a Java null. */
  datatype Account = Account(username: Option<string>, password: Option<string>)

  /** The registered accounts, in registration order (the order in which the
      set is searched is not specified, so any order is a faithful choice). */
  type Accounts = seq<Account>

  /** `getUsername().equals(...)` on an account without user name. */
  datatype NullUsername = NullUsername

  /** Some registered account has no user name. */
  predicate HasNullUsername(accounts: Accounts)
  {
    exists i :: 0 <= i < |accounts| && accounts[i].username.None?
  }

  /** `findByUsername`: an account with that user name, if any. Comparing
      against an account without user name throws. A null argument matches
      no account. */
  function FindByUsername(accounts: Accounts, username: Option<string>): (r: Result<Option<Account>, NullUsername>)
    ensures r.Failure? ==> HasNullUsername(accounts)
    ensures r.Success? && r.value.Some? ==>
      r.value.value in accounts && r.value.value.username.Some? && r.value.value.username == username
    ensures r.Success? && r.value.None? ==>
      forall i :: 0 <= i < |accounts| ==> accounts[i].username.Some? && accounts[i].username != username
    ensures !HasNullUsername(accounts) ==> r.Success?
  {
    if accounts == [] then Success(None)
    else if accounts[0].username.None? then Failure(NullUsername)
    else if accounts[0].username == username then Success(Some(accounts[0]))
    else
      var r := FindByUsername(accounts[1..], username);
      assert HasNullUsername(accounts[1..]) ==> HasNullUsername(accounts) by {
        if HasNullUsername(accounts[1..]) {
          var i :| 0 <= i < |accounts[1..]| && accounts[1..][i].username.None?;
          assert accounts[i + 1].username.None?;
        }
      }
      r
  }

  /** `register`: adding an account already in the set changes nothing. */
  function Register(accounts: Accounts, account: Account): (r: Accounts)
    ensures account in r
    ensures forall a :: a in r <==> a in accounts || a == account
    ensures account in accounts ==> r == accounts
  {
    if account in accounts then accounts else accounts + [account]
  }

  /** Registering the same account twice is registering it once. */
  lemma RegisterIdempotent(accounts: Accounts, account: Account)
    ensures Register(Register(accounts, account), account) == Register(accounts, account)
  {
  }

  /** A null user name is never found. */
  lemma NullNameNotFound(accounts: Accounts)
    requires !HasNullUsername(accounts)
    ensures FindByUsername(accounts, None) == Success(None)
  {
  }

  /** After registering an account with a user name, a lookup of that name
      finds an account with it. */
  lemma {:induction false} FoundAfterRegister(accounts: Accounts, account: Account)
    requires account.username.Some?
    requires !HasNullUsername(accounts)
    ensures var r := FindByUsername(Register(accounts, account), account.username);
      r.Success? && r.value.Some? && r.value.value.username == account.username
  {
    var registered := Register(accounts, account);
    assert !HasNullUsername(registered) by {
      forall i | 0 <= i < |registered|
        ensures registered[i].username.Some?
      {
        assert registered[i] in accounts || registered[i] == account;
        if registered[i] in accounts {
          var j :| 0 <= j < |accounts| && accounts[j] == registered[i];
        }
      }
    }
    var k :| 0 <= k < |registered| && registered[k] == account;
    assert !(forall i :: 0 <= i < |registered| ==> registered[i].username.Some? && registered[i].username != account.username) by {
      assert registered[k].username == account.username;
    }
  }
}
