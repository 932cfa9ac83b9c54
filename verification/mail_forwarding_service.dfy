/** `forward`: a message to a masking address goes to its destination with a
    fresh reply token in the sender's display name; a message whose display
    name is a token goes back to the correspondent the token stands for. The
    store change comes first and stays, whatever happens afterwards. The DNS
    lookup and the transport are parameters. */
module MailForwardingService {
  import opened Wrappers
  import opened Base32
  import opened MaskedAddresses
  import opened MaskedAddressRepository
  import opened MailResolver
  import opened SmtpClientConfiguration
  import opened SmtpMessageFactory

  /** The cause wrapped in the `CarrierForwardingException`. */
  datatype ForwardingError =
    | UnknownMaskedAddress(address: string)   // the To header is no masking address
    | NoMxRecord(address: string)             // `resolve` gave an empty result
    | ResolverFailed(fault: ResolverFault)    // `resolve` threw
    | ComposeFailed(cause: ComposeError)      // the message could not be built
    | SendFailed                              // the transport threw

  /** Who the forwarded message is from and to, and the addresses whose mail
      host is looked up, in order (the last one is used for sending). */
  datatype Envelope = Envelope(from: Mailbox, to: Mailbox, lookups: seq<string>)

  /** The store after the reply map was updated, and the envelope or the
      failure so far. */
  datatype Step = Step(store: Store, envelope: Result<Envelope, ForwardingError>)

  /** The record addressed by the To header, looked up by masking address. */
  function MaskedAddressOf(s: Store, email: Email): (r: Option<MaskedAddress>)
    requires Valid(s)
    ensures r.Some? <==> email.toHeader.address in s
    ensures r.Some? ==> r.value == s[email.toHeader.address]
  {
    FindByAddress(s, email.toHeader.address)
  }

  /** Whether the To header's display name is one of the record's tokens. */
  predicate IsReply(m: MaskedAddress, toHeader: Mailbox)
  {
    toHeader.personal.Some? && toHeader.personal.value in m.replyAddresses
  }

  /** On a valid store the reply test agrees with the repository's reply
      query: the display name is a token of this record exactly when the
      query finds this record for it. */
  lemma IsReplyAgreesWithQuery(s: Store, a: string, toHeader: Mailbox)
    requires Valid(s) && a in s
    ensures IsReply(s[a], toHeader) <==>
      toHeader.personal.Some? && FindByReplyAddress(s, toHeader.personal.value) == Some(s[a])
  {
    assert s[a] in s.Values;
  }

  /** The reply path: the token is consumed and the message goes back to
      its correspondent, from the bare masking address. */
  function ReplyStep(s: Store, m: MaskedAddress, token: string): (st: Step)
    requires Valid(s) && m.address in s && s[m.address] == m
    requires token in m.replyAddresses
    ensures Valid(st.store)
    ensures st.store.Keys == s.Keys
    ensures forall b :: b in s && b != m.address ==> st.store[b] == s[b]
    ensures st.store[m.address].address == m.address
    ensures st.store[m.address].destination == m.destination
    ensures st.store[m.address].replyAddresses.Keys == m.replyAddresses.Keys - {token}
    ensures forall k :: k in st.store[m.address].replyAddresses ==>
      st.store[m.address].replyAddresses[k] == m.replyAddresses[k]
    ensures st.envelope == Success(Envelope(
      Mailbox(m.address, None),
      Mailbox(m.replyAddresses[token], None),
      [m.replyAddresses[token], m.replyAddresses[token]]))
  {
    var correspondent := m.replyAddresses[token];
    var m' := m.(replyAddresses := m.replyAddresses - {token});
    PutPreservesValid(s, m');
    Step(s[m.address := m'],
      Success(Envelope(Mailbox(m.address, None), Mailbox(correspondent, None), [correspondent, correspondent])))
  }

  /** The inbound path: a token standing for the sender is handed out and
      shown as the display name of the masking address. */
  function InboundStep(s: Store, m: MaskedAddress, email: Email, domain: Option<string>, n: nat): (st: Step)
    requires Valid(s) && m.address in s && s[m.address] == m
    requires n < TokenBound
    ensures st.store.Keys == s.Keys
    ensures forall b :: b in s && b != m.address ==> st.store[b] == s[b]
    ensures st.store[m.address] == GenerateReplyAddress(m, domain, email.fromHeader.address, n).owner
    ensures st.envelope == Success(Envelope(
      email.toHeader.(personal := Some(TokenAddress(n, domain))),
      Mailbox(m.destination, None),
      [m.destination]))
  {
    var g := GenerateReplyAddress(m, domain, email.fromHeader.address, n);
    Step(s[m.address := g.owner],
      Success(Envelope(email.toHeader.(personal := Some(g.replyAddress)), Mailbox(m.destination, None), [m.destination])))
  }

  /** The part of `forward` before routing: find the record, then take the
      reply or the inbound path. */
  function Prepare(s: Store, email: Email, domain: Option<string>, n: nat): (st: Step)
    requires Valid(s)
    requires n < TokenBound
    ensures email.toHeader.address !in s ==>
      st == Step(s, Failure(UnknownMaskedAddress(email.toHeader.address)))
    ensures email.toHeader.address in s ==>
      && st.envelope.Success?
      && |st.envelope.value.lookups| >= 1
      && st.envelope.value.lookups[|st.envelope.value.lookups| - 1] == st.envelope.value.to.address
    ensures email.toHeader.address in s && IsReply(s[email.toHeader.address], email.toHeader) ==>
      st == ReplyStep(s, s[email.toHeader.address], email.toHeader.personal.value)
    ensures email.toHeader.address in s && !IsReply(s[email.toHeader.address], email.toHeader) ==>
      st == InboundStep(s, s[email.toHeader.address], email, domain, n)
  {
    match MaskedAddressOf(s, email)
    case None => Step(s, Failure(UnknownMaskedAddress(email.toHeader.address)))
    case Some(m) =>
      if IsReply(m, email.toHeader) then ReplyStep(s, m, email.toHeader.personal.value)
      else InboundStep(s, m, email, domain, n)
  }

  /** `updateHost`: the mail host for an address, or the failure. */
  function UpdateHost(address: string, resolve: string -> Resolution): (r: Result<string, ForwardingError>)
    ensures r.Success? <==> resolve(address).Host?
    ensures r.Success? ==> r.value == resolve(address).name
    ensures resolve(address).NoRoute? ==> r == Failure(NoMxRecord(address))
    ensures resolve(address).Fault? ==> r == Failure(ResolverFailed(resolve(address).fault))
  {
    match resolve(address)
    case Host(h) => Success(h)
    case NoRoute => Failure(NoMxRecord(address))
    case Fault(f) => Failure(ResolverFailed(f))
  }

  /** Every address of `lookups` has a mail host. */
  predicate AllRouted(lookups: seq<string>, resolve: string -> Resolution)
  {
    forall i :: 0 <= i < |lookups| ==> resolve(lookups[i]).Host?
  }

  /** The lookup at `i` is the first one without a mail host. */
  predicate FirstUnrouted(lookups: seq<string>, resolve: string -> Resolution, i: nat)
  {
    && i < |lookups|
    && !resolve(lookups[i]).Host?
    && forall j :: 0 <= j < i ==> resolve(lookups[j]).Host?
  }

  /** The `updateHost` calls in order: the first failure ends routing, and
      the host of the last lookup is the one the transport uses. */
  function RouteAll(lookups: seq<string>, resolve: string -> Resolution): (r: Result<string, ForwardingError>)
    requires |lookups| >= 1
    ensures r.Success? <==> AllRouted(lookups, resolve)
    ensures r.Success? ==> r.value == resolve(lookups[|lookups| - 1]).name
    ensures forall i: nat :: FirstUnrouted(lookups, resolve, i) ==> r == UpdateHost(lookups[i], resolve)
  {
    if !resolve(lookups[0]).Host? then
      assert forall i: nat :: FirstUnrouted(lookups, resolve, i) ==> i == 0;
      UpdateHost(lookups[0], resolve)
    else if |lookups| == 1 then
      Success(resolve(lookups[0]).name)
    else
      var r := RouteAll(lookups[1..], resolve);
      assert forall i :: 1 <= i < |lookups| ==> lookups[i] == lookups[1..][i - 1];
      assert forall i: nat :: FirstUnrouted(lookups, resolve, i) ==> i > 0 && FirstUnrouted(lookups[1..], resolve, i - 1);
      r
  }

  /** What was handed to the transport, and through which host. */
  datatype Outbound = Outbound(message: MimeMessage, host: string)

  /** The store after `forward`, the one send attempt if there was one, and
      whether `forward` threw. */
  datatype Forwarding = Forwarding(store: Store, sent: Option<Outbound>, outcome: Outcome<ForwardingError>)

  /** `forward`, with the random token value `n`, the resolver and the
      transport (true when the message was handed over) as parameters. */
  function Forward(s: Store, email: Email, config: ClientConfig, loadKey: string -> Option<PrivateKey>, accepts: SignerCheck,
                   n: nat, resolve: string -> Resolution, send: Outbound -> bool): (f: Forwarding)
    requires Valid(s)
    requires n < TokenBound
    ensures f.store == Prepare(s, email, config.domain, n).store
    ensures email.toHeader.address !in s ==>
      f == Forwarding(s, None, Fail(UnknownMaskedAddress(email.toHeader.address)))
    ensures f.outcome.Pass? ==> f.sent.Some? && send(f.sent.value)
    ensures f.sent.Some? ==> (f.outcome.Pass? <==> send(f.sent.value))
    ensures f.sent.Some? ==>
      var env := Prepare(s, email, config.domain, n).envelope.value;
      && CreateMimeMessage(config, loadKey, accepts, email, env.from, env.to) == Success(f.sent.value.message)
      && resolve(env.to.address) == Host(f.sent.value.host)
    ensures email.toHeader.address in s ==>
      var env := Prepare(s, email, config.domain, n).envelope.value;
      var message := CreateMimeMessage(config, loadKey, accepts, email, env.from, env.to);
      && (!AllRouted(env.lookups, resolve) ==> f.sent.None? && f.outcome.Fail?)
      && (forall i: nat :: FirstUnrouted(env.lookups, resolve, i) ==>
            f.sent.None? && f.outcome == Fail(UpdateHost(env.lookups[i], resolve).error))
      && (AllRouted(env.lookups, resolve) && message.Failure? ==>
            f.sent.None? && f.outcome == Fail(ComposeFailed(message.error)))
      && (AllRouted(env.lookups, resolve) && message.Success? ==>
            && f.sent == Some(Outbound(message.value, resolve(env.to.address).name))
            && f.outcome == (if send(f.sent.value) then Pass else Fail(SendFailed)))
  {
    var st := Prepare(s, email, config.domain, n);
    match st.envelope
    case Failure(e) => Forwarding(st.store, None, Fail(e))
    case Success(env) =>
      match RouteAll(env.lookups, resolve)
      case Failure(e) => Forwarding(st.store, None, Fail(e))
      case Success(host) =>
        match CreateMimeMessage(config, loadKey, accepts, email, env.from, env.to)
        case Failure(e) => Forwarding(st.store, None, Fail(ComposeFailed(e)))
        case Success(message) =>
          var out := Outbound(message, host);
          Forwarding(st.store, Some(out), if send(out) then Pass else Fail(SendFailed))
  }

  /** `forward` returns normally exactly when the To header names a masking
      address, every lookup finds a mail host, the message can be built and
      the transport takes it. */
  lemma ForwardPasses(s: Store, email: Email, config: ClientConfig, loadKey: string -> Option<PrivateKey>, accepts: SignerCheck,
                      n: nat, resolve: string -> Resolution, send: Outbound -> bool)
    requires Valid(s)
    requires n < TokenBound
    ensures Forward(s, email, config, loadKey, accepts, n, resolve, send).outcome.Pass? <==>
      && email.toHeader.address in s
      && var env := Prepare(s, email, config.domain, n).envelope.value;
         var message := CreateMimeMessage(config, loadKey, accepts, email, env.from, env.to);
         && AllRouted(env.lookups, resolve)
         && message.Success?
         && send(Outbound(message.value, resolve(env.to.address).name))
  {
  }

  /** The token is not handed out by any record other than `a`. */
  predicate FreshElsewhere(s: Store, a: string, token: string)
  {
    forall b :: b in s && b != a ==> token !in s[b].replyAddresses
  }

  /** The store stays valid across `forward` when the new token, if one is
      handed out, does not collide with a token of another record. */
  lemma PrepareKeepsValid(s: Store, email: Email, domain: Option<string>, n: nat)
    requires Valid(s)
    requires n < TokenBound
    requires FreshElsewhere(s, email.toHeader.address, TokenAddress(n, domain))
    ensures Valid(Prepare(s, email, domain, n).store)
  {
    var a := email.toHeader.address;
    if a in s && !IsReply(s[a], email.toHeader) {
      var g := GenerateReplyAddress(s[a], domain, email.fromHeader.address, n);
      forall b, k | b in s && b != a && k in g.owner.replyAddresses
        ensures k !in s[b].replyAddresses
      {
        if k != g.replyAddress {
          assert k in s[a].replyAddresses;
        }
      }
      PutPreservesValid(s, g.owner);
    }
  }

  /** A reply is recognised by the display name alone: who sent it does not
      matter. */
  lemma ReplyIgnoresSender(s: Store, email: Email, sender: Mailbox, domain: Option<string>, n: nat)
    requires Valid(s)
    requires n < TokenBound
    requires email.toHeader.address in s && IsReply(s[email.toHeader.address], email.toHeader)
    ensures Prepare(s, email.(fromHeader := sender), domain, n) == Prepare(s, email, domain, n)
  {
  }

  /** Round trip: a message forwarded inbound hands out a fresh token; a reply
      addressed to the From header it was forwarded with goes back to the
      original sender, and the store returns to what it was. */
  lemma {:induction false} RoundTrip(s: Store, inbound: Email, reply: Email, domain: Option<string>, n: nat, n': nat)
    requires Valid(s)
    requires n < TokenBound && n' < TokenBound
    requires inbound.toHeader.address in s && !IsReply(s[inbound.toHeader.address], inbound.toHeader)
    requires !IsReplyKey(s, TokenAddress(n, domain))
    requires reply.toHeader == Prepare(s, inbound, domain, n).envelope.value.from
    ensures var s1 := Prepare(s, inbound, domain, n).store;
      && Valid(s1)
      && Prepare(s1, reply, domain, n').envelope.value.to == Mailbox(inbound.fromHeader.address, None)
      && Prepare(s1, reply, domain, n').store == s
  {
    var a := inbound.toHeader.address;
    var t := TokenAddress(n, domain);
    var m := s[a];
    var s1 := Prepare(s, inbound, domain, n).store;
    PrepareKeepsValid(s, inbound, domain, n);
    var g := GenerateReplyAddress(m, domain, inbound.fromHeader.address, n);
    assert s1[a] == g.owner;
    assert reply.toHeader == Mailbox(a, Some(t));
    var s2 := Prepare(s1, reply, domain, n').store;
    assert s2 == ReplyStep(s1, g.owner, t).store;
    ConsumingTheTokenRestores(m, domain, inbound.fromHeader.address, n);
    assert s2[a] == m;
    SameStore(s2, s);
  }

  /** Removing a token just handed out gives the record back. */
  lemma ConsumingTheTokenRestores(m: MaskedAddress, domain: Option<string>, fromAddress: string, n: nat)
    requires n < TokenBound
    requires TokenAddress(n, domain) !in m.replyAddresses
    ensures var owner := GenerateReplyAddress(m, domain, fromAddress, n).owner;
      owner.(replyAddresses := owner.replyAddresses - {TokenAddress(n, domain)}) == m
  {
    GeneratedReplies(m, domain, fromAddress, n);
    RemoveAfterPut(m.replyAddresses, TokenAddress(n, domain), fromAddress);
  }

  /** A token is good for one reply: once consumed, a message with the same
      display name takes the inbound path. */
  lemma TokenSingleUse(s: Store, email: Email, domain: Option<string>, n: nat, n': nat)
    requires Valid(s)
    requires n < TokenBound && n' < TokenBound
    requires email.toHeader.address in s && IsReply(s[email.toHeader.address], email.toHeader)
    ensures var s1 := Prepare(s, email, domain, n).store;
      && Valid(s1)
      && !IsReply(s1[email.toHeader.address], email.toHeader)
      && Prepare(s1, email, domain, n') == InboundStep(s1, s1[email.toHeader.address], email, domain, n')
  {
  }

  /** When no mail host is found for the destination of an inbound message,
      nothing is sent, yet the token stays handed out. */
  lemma RouteFailureKeepsToken(s: Store, email: Email, config: ClientConfig, loadKey: string -> Option<PrivateKey>, accepts: SignerCheck,
                               n: nat, resolve: string -> Resolution, send: Outbound -> bool)
    requires Valid(s)
    requires n < TokenBound
    requires email.toHeader.address in s && !IsReply(s[email.toHeader.address], email.toHeader)
    requires !resolve(s[email.toHeader.address].destination).Host?
    ensures var f := Forward(s, email, config, loadKey, accepts, n, resolve, send);
      && f.sent.None? && f.outcome.Fail?
      && TokenAddress(n, config.domain) in f.store[email.toHeader.address].replyAddresses
      && f.store[email.toHeader.address].replyAddresses[TokenAddress(n, config.domain)] == email.fromHeader.address
  {
    var env := Prepare(s, email, config.domain, n).envelope.value;
    assert env.lookups[0] == s[email.toHeader.address].destination;
  }
}
