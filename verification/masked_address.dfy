/** A masking address: the public address, the real mailbox behind it, and the
    reply tokens handed out to correspondents, each mapped to the correspondent
    it stands for. */
module MaskedAddresses {
  import opened Wrappers
  import opened Text
  import opened Base32
  import MailResolver

  datatype MaskedAddress = MaskedAddress(
    address: string,
    destination: string,
    replyAddresses: map<string, string>)

  /** The public constructor: no reply token has been handed out yet. */
  function New(address: string, destination: string): (m: MaskedAddress)
    ensures m.address == address && m.destination == destination
    ensures |m.replyAddresses| == 0
  {
    MaskedAddress(address, destination, map[])
  }

  /** The domain as string concatenation renders it: an unset domain is
      the four characters "null". */
  function DomainText(domain: Option<string>): string
  {
    match domain
    case None => "null"
    case Some(d) => d
  }

  /** The token address for the random value `n`: its base-32 numeral, an
      '@' and the domain. */
  function TokenAddress(n: nat, domain: Option<string>): (t: string)
    ensures var k := IndexOf(t, '@');
      && k == |ToBase32(n)| && k < |t|
      && t[..k] == ToBase32(n)
      && t[k + 1..] == DomainText(domain)
  {
    NoAtInNumeral(n);
    IndexAfterPrefix(ToBase32(n), '@', "@" + DomainText(domain));
    assert ToBase32(n) + "@" + DomainText(domain) == ToBase32(n) + ("@" + DomainText(domain));
    ToBase32(n) + "@" + DomainText(domain)
  }

  /** The record after a token was handed out, and the token address. */
  datatype Generated = Generated(owner: MaskedAddress, replyAddress: string)

  /** `generateReplyAddress`, the 130 random bits being `n`: records the token
      address as standing for `fromAddress` and returns it. */
  function GenerateReplyAddress(m: MaskedAddress, domain: Option<string>, fromAddress: string, n: nat): (g: Generated)
    requires n < TokenBound
    ensures g.owner.address == m.address && g.owner.destination == m.destination
    ensures g.replyAddress in g.owner.replyAddresses
    ensures g.owner.replyAddresses[g.replyAddress] == fromAddress
    ensures forall k :: k != g.replyAddress ==>
      && (k in g.owner.replyAddresses <==> k in m.replyAddresses)
      && (k in m.replyAddresses ==> g.owner.replyAddresses[k] == m.replyAddresses[k])
    ensures |g.owner.replyAddresses| <= |m.replyAddresses| + 1
    ensures var k := IndexOf(g.replyAddress, '@');
      && k <= 26 && k < |g.replyAddress|
      && g.replyAddress[..k] == ToBase32(n)
      && g.replyAddress[k + 1..] == DomainText(domain)
  {
    var token := TokenAddress(n, domain);
    TokenDigits(n);
    var replies := m.replyAddresses[token := fromAddress];
    assert replies.Keys == m.replyAddresses.Keys + {token};
    Generated(MaskedAddress(m.address, m.destination, replies), token)
  }

  /** The reply map after generation is the old one with the token put in. */
  lemma GeneratedReplies(m: MaskedAddress, domain: Option<string>, fromAddress: string, n: nat)
    requires n < TokenBound
    ensures GenerateReplyAddress(m, domain, fromAddress, n).owner
         == m.(replyAddresses := m.replyAddresses[TokenAddress(n, domain) := fromAddress])
  {
  }

  /** The numeral never holds an '@', whatever the value. */
  lemma NoAtInNumeral(n: nat)
    ensures '@' !in ToBase32(n)
  {
  }

  /** Distinct random values give distinct token addresses. */
  lemma TokenAddressInjective(m: nat, n: nat, domain: Option<string>)
    requires TokenAddress(m, domain) == TokenAddress(n, domain)
    ensures m == n
  {
    ToBase32Injective(m, n);
  }

  /** The domain extraction of the resolver recovers the domain of a token
      address, when that domain has no line break. */
  lemma TokenDomain(n: nat, domain: Option<string>)
    requires MailResolver.HasNoLineTerminator(DomainText(domain))
    ensures MailResolver.ExtractDomain(TokenAddress(n, domain)) == Some(DomainText(domain))
  {
    NoAtInNumeral(n);
    MailResolver.ExtractDomainOfAddress(ToBase32(n), DomainText(domain));
  }
}
