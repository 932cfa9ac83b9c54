/** The administration endpoints `/create`, `/get` and `/delete` as
    transitions of the store. */
module CarrierRestController {
  import opened Wrappers
  import opened MaskedAddresses
  import opened MaskedAddressRepository

  /** `CarrierAddressNotFoundException`. */
  datatype AddressNotFound = AddressNotFound(address: string)

  /** `create`: the record under `address` is deleted if there is one, and a
      fresh record for `destination` is saved in its place. */
  function Create(s: Store, address: string, destination: string): (s': Store)
    requires Valid(s)
    ensures Valid(s')
    ensures address in s' && s'[address] == New(address, destination)
    ensures forall a :: a != address ==> (a in s' <==> a in s)
    ensures forall a :: a != address && a in s ==> s'[a] == s[a]
  {
    var kept := if FindByAddress(s, address).Some? then s - {address} else s;
    RemovePreservesValid(s, address);
    PutPreservesValid(kept, New(address, destination));
    kept[address := New(address, destination)]
  }

  /** Creating the same address twice leaves the store as creating it once. */
  lemma CreateIdempotent(s: Store, address: string, destination: string)
    requires Valid(s)
    ensures Create(Create(s, address, destination), address, destination) == Create(s, address, destination)
  {
    var once := Create(s, address, destination);
    var twice := Create(once, address, destination);
    assert twice.Keys == once.Keys;
  }

  /** Re-creating an address forgets every token the old record handed out:
      none of them leads to a record any more. */
  lemma CreateForgetsTokens(s: Store, address: string, destination: string, token: string)
    requires Valid(s)
    requires address in s && token in s[address].replyAddresses
    ensures FindByReplyAddress(Create(s, address, destination), token).None?
  {
    var s' := Create(s, address, destination);
    forall m | m in s'.Values
      ensures token !in m.replyAddresses
    {
      var a :| a in s' && s'[a] == m;
      if a != address {
        assert s'[a] == s[a];
      }
    }
  }

  /** `get`: the record under `address`, or not-found. */
  function Get(s: Store, address: string): (r: Result<MaskedAddress, AddressNotFound>)
    requires Valid(s)
    ensures r.Success? <==> address in s
    ensures r.Success? ==> r.value in s.Values && r.value.address == address
    ensures r.Failure? ==> r.error == AddressNotFound(address)
  {
    match FindByAddress(s, address)
    case None => Failure(AddressNotFound(address))
    case Some(m) => Success(m)
  }

  /** The store after `delete`, and whether it threw not-found. */
  datatype Deletion = Deletion(store: Store, outcome: Outcome<AddressNotFound>)

  /** `delete`: the record under `address` goes, with all its tokens; an
      absent address is not-found and changes nothing. */
  function Delete(s: Store, address: string): (r: Deletion)
    requires Valid(s)
    ensures Valid(r.store)
    ensures r.outcome.Pass? <==> address in s
    ensures r.outcome.Fail? ==> r.outcome.error == AddressNotFound(address) && r.store == s
    ensures address !in r.store
    ensures forall a :: a != address ==> (a in r.store <==> a in s)
    ensures forall a :: a != address && a in s ==> r.store[a] == s[a]
  {
    match FindByAddress(s, address)
    case None => Deletion(s, Fail(AddressNotFound(address)))
    case Some(m) =>
      RemovePreservesValid(s, m.address);
      Deletion(s - {m.address}, Pass)
  }

  /** A record that was just created can be fetched. */
  lemma CreateThenGet(s: Store, address: string, destination: string)
    requires Valid(s)
    ensures Get(Create(s, address, destination), address) == Success(New(address, destination))
  {
  }

  /** Deleting a record that was just created leaves the store as it was
      apart from that address. */
  lemma CreateThenDelete(s: Store, address: string, destination: string)
    requires Valid(s)
    ensures Delete(Create(s, address, destination), address) == Deletion(s - {address}, Pass)
  {
    var d := Delete(Create(s, address, destination), address);
    assert d.outcome == Pass;
    SameStore(d.store, s - {address});
  }
}
