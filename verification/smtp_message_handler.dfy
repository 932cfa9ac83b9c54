/** The SMTP listener: which recipients the relay accepts, and delivery of
    an accepted message, whose forwarding failures are swallowed. */
module SmtpMessageHandler {
  import opened Wrappers
  import opened Text
  import opened Base32
  import opened MaskedAddresses
  import opened MaskedAddressRepository
  import opened MailResolver
  import opened SmtpClientConfiguration
  import opened SmtpMessageFactory
  import opened MailForwardingService

  /** Whether some record handed out `recipient` as a token and has a
      destination equal to `from`, ignoring case. */
  predicate IsReplyFromOwner(s: Store, from: string, recipient: string)
  {
    exists m :: m in s.Values && recipient in m.replyAddresses && EqualsIgnoreCase(from, m.destination)
  }

  /** `accept`: a token accepted from the owner's destination, or any mail to
      a masking address. The store is only read. */
  function Accept(s: Store, from: string, recipient: string): (r: bool)
    requires Valid(s)
    ensures r <==> recipient in s || IsReplyFromOwner(s, from, recipient)
  {
    var reply := FindByReplyAddress(s, recipient);
    if reply.Some? && EqualsIgnoreCase(from, reply.value.destination) then true
    else
      assert reply.Some? ==> !IsReplyFromOwner(s, from, recipient);
      FindByAddress(s, recipient).Some?
  }

  /** Mail to a masking address is accepted whoever sends it. */
  lemma AcceptsMaskingAddress(s: Store, from: string, recipient: string)
    requires Valid(s)
    requires recipient in s
    ensures Accept(s, from, recipient)
  {
  }

  /** A token is accepted from its owner's destination, in any ASCII case. */
  lemma AcceptsReplyFromOwner(s: Store, from: string, a: string, token: string)
    requires Valid(s)
    requires a in s && token in s[a].replyAddresses
    requires ToLowerAscii(from) == ToLowerAscii(s[a].destination)
    ensures Accept(s, from, token)
  {
    EqualsIgnoreCaseIsLowerEquality(from, s[a].destination);
    assert s[a] in s.Values;
  }

  /** A token from anyone but the owner's destination is refused unless it
      is itself a masking address. */
  lemma RejectsReplyFromStranger(s: Store, from: string, a: string, token: string)
    requires Valid(s)
    requires a in s && token in s[a].replyAddresses && token !in s
    requires ToLowerAscii(from) != ToLowerAscii(s[a].destination)
    ensures !Accept(s, from, token)
  {
    EqualsIgnoreCaseIsLowerEquality(from, s[a].destination);
    assert s[a] in s.Values;
  }

  /** A recipient that is neither a masking address nor a token is refused. */
  lemma RejectsUnknown(s: Store, from: string, recipient: string)
    requires Valid(s)
    requires recipient !in s && !IsReplyKey(s, recipient)
    ensures !Accept(s, from, recipient)
  {
  }

  /** The sender is compared ignoring case, so senders equal up to case are
      treated alike. */
  lemma SenderCaseIgnored(s: Store, from: string, from': string, recipient: string)
    requires Valid(s)
    requires ToLowerAscii(from) == ToLowerAscii(from')
    ensures Accept(s, from, recipient) == Accept(s, from', recipient)
  {
    forall m | m in s.Values
      ensures EqualsIgnoreCase(from, m.destination) == EqualsIgnoreCase(from', m.destination)
    {
      EqualsIgnoreCaseIsLowerEquality(from, m.destination);
      EqualsIgnoreCaseIsLowerEquality(from', m.destination);
    }
  }

  /** The `IOException` `deliver` throws. */
  datatype DeliveryError = MimeParseError

  /** The store after `deliver`, the message handed to the transport if any,
      and whether `deliver` threw. */
  datatype Delivery = Delivery(store: Store, sent: Option<Outbound>, outcome: Outcome<DeliveryError>)

  /** `deliver`: the parsed message (`None` when the MIME parser fails) is
      forwarded; a forwarding failure is swallowed. The SMTP envelope is not
      used: forwarding reads the message headers. */
  function Deliver(s: Store, parsed: Option<Email>, config: ClientConfig, loadKey: string -> Option<PrivateKey>, accepts: SignerCheck,
                   n: nat, resolve: string -> Resolution, send: Outbound -> bool): (d: Delivery)
    requires Valid(s)
    requires n < TokenBound
    ensures d.outcome.Fail? <==> parsed.None?
    ensures parsed.None? ==> d.store == s && d.sent.None? && d.outcome == Fail(MimeParseError)
    ensures parsed.Some? ==>
      var f := Forward(s, parsed.value, config, loadKey, accepts, n, resolve, send);
      d.store == f.store && d.sent == f.sent
  {
    match parsed
    case None => Delivery(s, None, Fail(MimeParseError))
    case Some(email) =>
      var f := Forward(s, email, config, loadKey, accepts, n, resolve, send);
      Delivery(f.store, f.sent, Pass)
  }

  /** A message to an unknown masking address is dropped silently: nothing
      is sent, nothing changes, and `deliver` still returns normally. */
  lemma DeliverySwallowsUnknownAddress(s: Store, email: Email, config: ClientConfig, loadKey: string -> Option<PrivateKey>, accepts: SignerCheck,
                                       n: nat, resolve: string -> Resolution, send: Outbound -> bool)
    requires Valid(s)
    requires n < TokenBound
    requires email.toHeader.address !in s
    ensures Deliver(s, Some(email), config, loadKey, accepts, n, resolve, send) == Delivery(s, None, Pass)
  {
  }

  /** A reply reaches the relay addressed to the masking address itself,
      with the token as display name, so the gate accepts it from any
      sender, and forwarding consumes the token and sends to the
      correspondent whoever wrote it. The owner check on tokens applies only
      to mail addressed to the token. */
  lemma ReplyFromAnySender(s: Store, from: string, email: Email, domain: Option<string>, n: nat)
    requires Valid(s)
    requires n < TokenBound
    requires email.toHeader.address in s && IsReply(s[email.toHeader.address], email.toHeader)
    ensures Accept(s, from, email.toHeader.address)
    ensures var m := s[email.toHeader.address];
      Prepare(s, email, domain, n).envelope.value.to == Mailbox(m.replyAddresses[email.toHeader.personal.value], None)
  {
  }
}
