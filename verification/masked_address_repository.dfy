/** The persistent store of masking addresses and its two queries. The store
    is a map from masking address (the entity id) to its record. */
module MaskedAddressRepository {
  import opened Wrappers
  import opened MaskedAddresses

  type Store = map<string, MaskedAddress>

  /** Each record sits under its own address, and a reply token belongs to
      at most one record (the reply query yields a single record). */
  ghost predicate Valid(s: Store)
  {
    && (forall a :: a in s ==> s[a].address == a)
    && (forall a, b, k :: a in s && b in s && k in s[a].replyAddresses && k in s[b].replyAddresses ==> a == b)
  }

  /** `findByAddress`: the record whose address is `address`, if any. */
  function FindByAddress(s: Store, address: string): (r: Option<MaskedAddress>)
    requires Valid(s)
    ensures r.Some? ==> r.value in s.Values && r.value.address == address
    ensures r.None? ==> forall m :: m in s.Values ==> m.address != address
  {
    if address in s then Some(s[address]) else None
  }

  /** Whether some record has handed out `replyAddress` as a token. */
  predicate IsReplyKey(s: Store, replyAddress: string)
  {
    exists a :: a in s && replyAddress in s[a].replyAddresses
  }

  /** `findByReplyAddress`: the record whose reply map has `replyAddress`
      as a key; masking addresses and correspondents are not searched. */
  function FindByReplyAddress(s: Store, replyAddress: string): (r: Option<MaskedAddress>)
    requires Valid(s)
    ensures r.Some? ==> r.value in s.Values && replyAddress in r.value.replyAddresses
    ensures r.Some? ==> forall m :: m in s.Values && replyAddress in m.replyAddresses ==> m == r.value
    ensures r.None? ==> forall m :: m in s.Values ==> replyAddress !in m.replyAddresses
  {
    if IsReplyKey(s, replyAddress) then
      var a :| a in s && replyAddress in s[a].replyAddresses;
      Some(s[a])
    else
      None
  }

  /** The reply query depends only on the token keys of the records: a store
      whose records have the same addresses and key sets answers alike. */
  lemma FindByReplyAddressReadsKeysOnly(s: Store, t: Store, replyAddress: string)
    requires Valid(s) && Valid(t)
    requires s.Keys == t.Keys
    requires forall a :: a in s ==> s[a].replyAddresses.Keys == t[a].replyAddresses.Keys
    ensures FindByReplyAddress(s, replyAddress).Some? <==> FindByReplyAddress(t, replyAddress).Some?
    ensures FindByReplyAddress(s, replyAddress).Some? ==>
      FindByReplyAddress(s, replyAddress).value.address == FindByReplyAddress(t, replyAddress).value.address
  {
    var r := FindByReplyAddress(s, replyAddress);
    if r.Some? {
      var a := r.value.address;
      assert s[a] == r.value;
      assert replyAddress in t[a].replyAddresses;
      assert t[a] in t.Values;
    }
  }

  /** Removing a record keeps the store valid. */
  lemma RemovePreservesValid(s: Store, address: string)
    requires Valid(s)
    ensures Valid(s - {address})
  {
  }

  /** Storing a record under its own address keeps the store valid when
      none of its tokens belongs to another record. */
  lemma PutPreservesValid(s: Store, m: MaskedAddress)
    requires Valid(s)
    requires forall b, k :: b in s && b != m.address && k in m.replyAddresses ==> k !in s[b].replyAddresses
    ensures Valid(s[m.address := m])
  {
    var s' := s[m.address := m];
    forall a, b, k | a in s' && b in s' && k in s'[a].replyAddresses && k in s'[b].replyAddresses
      ensures a == b
    {
      if a != m.address && b != m.address {
        assert s'[a] == s[a] && s'[b] == s[b];
      }
    }
  }

  /** Two stores with the same addresses and the same record under each
      are the same store. */
  lemma SameStore(s: Store, t: Store)
    requires s.Keys == t.Keys
    requires forall a :: a in s ==> s[a] == t[a]
    ensures s == t
  {
  }

  /** Taking out a key just put into a map that lacked it restores the map. */
  lemma RemoveAfterPut(r: map<string, string>, k: string, v: string)
    requires k !in r
    ensures r[k := v] - {k} == r
  {
    assert (r[k := v] - {k}).Keys == r.Keys;
  }
}
