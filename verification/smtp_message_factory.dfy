/** The outgoing message: sender, one recipient, subject, the plain-text body
    with its line breaks normalised, the attachments as opaque files, and on
    request a DKIM signature over the whole. MIME serialisation and the
    signature itself are not modelled; the message is kept as a structure. */
module SmtpMessageFactory {
  import opened Wrappers
  import opened Text
  import opened SmtpClientConfiguration

  // ---------------------------------------------------------------------
  // Body normalisation: `BufferedReader.lines()` joined with "\n".
  // ---------------------------------------------------------------------

  /** The characters that end a line for `BufferedReader.readLine`. */
  predicate IsLineBreak(c: char)
  {
    c == '\n' || c == '\r'
  }

  predicate HasNoLineBreak(s: string)
  {
    forall i :: 0 <= i < |s| ==> !IsLineBreak(s[i])
  }

  /** Position of the first line break of `s`, or `|s|` when it has none. */
  function LineEnd(s: string): (i: nat)
    ensures i <= |s|
    ensures i < |s| ==> IsLineBreak(s[i])
    ensures HasNoLineBreak(s[..i])
  {
    if s == [] || IsLineBreak(s[0]) then 0
    else
      var j := LineEnd(s[1..]);
      assert s[..j + 1] == [s[0]] + s[1..][..j];
      j + 1
  }

  /** Where the line after the break at `i` starts: "\r\n" is one break. */
  function NextLine(s: string, i: nat): (next: nat)
    requires i < |s|
    ensures i < next <= |s|
  {
    if s[i] == '\r' && i + 1 < |s| && s[i + 1] == '\n' then i + 2 else i + 1
  }

  /** The lines `readLine` yields: each break ends a line, and text after
      the last break is a final line; an empty stream has no line. */
  function Lines(s: string): (ls: seq<string>)
    ensures forall k :: 0 <= k < |ls| ==> HasNoLineBreak(ls[k])
    ensures |ls| == 0 <==> s == []
    decreases |s|
  {
    if s == [] then []
    else
      var i := LineEnd(s);
      if i == |s| then [s]
      else [s[..i]] + Lines(s[NextLine(s, i)..])
  }

  /** The text of the body part: the lines joined with "\n". */
  function NormaliseLines(s: string): (r: string)
    ensures '\r' !in r
  {
    var ls := Lines(s);
    forall k | 0 <= k < |ls|
      ensures '\r' !in ls[k]
    {
      assert HasNoLineBreak(ls[k]);
    }
    JoinLacks(ls, '\n', '\r');
    Join(ls, '\n')
  }

  /** Joining parts that lack a character other than the separator gives a
      text that lacks it too. */
  lemma {:induction false} JoinLacks(parts: seq<string>, sep: char, x: char)
    requires x != sep
    requires forall k :: 0 <= k < |parts| ==> x !in parts[k]
    ensures x !in Join(parts, sep)
  {
    if |parts| > 1 {
      JoinLacks(parts[1..], sep, x);
    }
  }

  /** The first break of `p + t` is the first of `t` when `p` has none. */
  lemma LineEndAfterPrefix(p: string, t: string)
    requires HasNoLineBreak(p)
    requires |t| > 0 && IsLineBreak(t[0])
    ensures LineEnd(p + t) == |p|
  {
    if p != [] {
      assert (p + t)[1..] == p[1..] + t;
      LineEndAfterPrefix(p[1..], t);
    }
  }

  /** Whether `brk` is one line break as `readLine` reads it in front of
      `t`: "\n", "\r\n", or a "\r" not followed by "\n". */
  predicate IsBreakBefore(brk: string, t: string)
  {
    brk == "\n" || brk == "\r\n" || (brk == "\r" && (t == [] || t[0] != '\n'))
  }

  /** A line, then one break, then the rest: the line is read, and reading
      goes on after the break, so "\r\n" ends a single line. */
  lemma LinesAfterBreak(a: string, brk: string, t: string)
    requires HasNoLineBreak(a)
    requires IsBreakBefore(brk, t)
    ensures Lines(a + brk + t) == [a] + Lines(t)
  {
    var s := a + brk + t;
    assert s == a + (brk + t);
    LineEndAfterPrefix(a, brk + t);
    assert s[..|a|] == a;
    assert NextLine(s, |a|) == |a| + |brk|;
    assert s[|a| + |brk|..] == t;
  }

  /** Two lines split by any one break normalise to the same text: a DOS or
      old-Mac break becomes a single "\n". */
  lemma NormaliseOneBreak(a: string, brk: string, b: string)
    requires HasNoLineBreak(a) && HasNoLineBreak(b) && b != []
    requires IsBreakBefore(brk, b)
    ensures NormaliseLines(a + brk + b) == a + "\n" + b
  {
    LinesAfterBreak(a, brk, b);
    assert Lines(b) == [b];
    var ls := [a] + [b];
    assert Lines(a + brk + b) == ls;
    assert ls[1..] == [b];
    assert Join(ls, '\n') == a + ['\n'] + b;
  }

  /** Reading back lines joined with "\n" gives the lines, except that a
      final empty line is lost: its break became the end of the text. */
  lemma {:induction false} LinesOfJoin(ls: seq<string>)
    requires forall k :: 0 <= k < |ls| ==> HasNoLineBreak(ls[k])
    ensures Lines(Join(ls, '\n')) ==
      if |ls| > 0 && ls[|ls| - 1] == "" then ls[..|ls| - 1] else ls
  {
    if |ls| == 1 {
      assert ls[0] == "" ==> ls[..0] == [];
    } else if |ls| > 1 {
      var rest := Join(ls[1..], '\n');
      var s := Join(ls, '\n');
      assert s == ls[0] + ("\n" + rest);
      LineEndAfterPrefix(ls[0], "\n" + rest);
      assert NextLine(s, |ls[0]|) == |ls[0]| + 1;
      assert s[..|ls[0]|] == ls[0];
      assert s[|ls[0]| + 1..] == rest;
      LinesOfJoin(ls[1..]);
      assert ls == [ls[0]] + ls[1..];
      if ls[|ls| - 1] == "" {
        assert ls[..|ls| - 1] == [ls[0]] + ls[1..][..|ls[1..]| - 1];
      }
    }
  }

  /** Normalising keeps the line sequence exactly when the body has no
      final empty line (no blank line directly before its end). */
  lemma NormalisingKeepsLines(s: string)
    ensures Lines(NormaliseLines(s)) == Lines(s) <==>
      (Lines(s) == [] || Lines(s)[|Lines(s)| - 1] != "")
  {
    LinesOfJoin(Lines(s));
  }

  /** Whether the text ends with a line break. */
  predicate EndsWithBreak(s: string)
  {
    |s| > 0 && IsLineBreak(s[|s| - 1])
  }

  /** Normalising never lengthens the text, and a final break is dropped. */
  lemma {:induction false} NormaliseShortens(s: string)
    ensures |NormaliseLines(s)| + (if EndsWithBreak(s) then 1 else 0) <= |s|
    decreases |s|
  {
    if s != [] {
      var i := LineEnd(s);
      if i < |s| {
        var next := NextLine(s, i);
        var rest := s[next..];
        var tail := Lines(rest);
        assert Lines(s) == [s[..i]] + tail;
        if tail == [] {
          assert Join(Lines(s), '\n') == s[..i];
          assert next == |s|;
          assert IsLineBreak(s[next - 1]);
        } else {
          NormaliseShortens(rest);
          JoinCons(s[..i], tail, '\n');
          assert EndsWithBreak(rest) == EndsWithBreak(s);
        }
      }
    }
  }

  /** A text without carriage returns that does not end with a newline is
      its own normal form. */
  lemma {:induction false} NormaliseKeepsUnixText(s: string)
    requires '\r' !in s
    requires !EndsWithBreak(s)
    ensures NormaliseLines(s) == s
    decreases |s|
  {
    if s != [] {
      var i := LineEnd(s);
      if i < |s| {
        var rest := s[i + 1..];
        NewlineInsideUnixText(s, i);
        NormaliseKeepsUnixText(rest);
        assert Lines(s) == [s[..i]] + Lines(rest);
        JoinCons(s[..i], Lines(rest), '\n');
        SplitAround(s, i);
      }
    }
  }

  /** In such a text a break is a newline, is not the last character, and
      the rest after it is again such a text. */
  lemma NewlineInsideUnixText(s: string, i: nat)
    requires '\r' !in s && !EndsWithBreak(s)
    requires i < |s| && IsLineBreak(s[i])
    ensures s[i] == '\n' && i < |s| - 1 && NextLine(s, i) == i + 1
    ensures '\r' !in s[i + 1..] && !EndsWithBreak(s[i + 1..]) && s[i + 1..] != []
  {
    assert s[i] != '\r';
  }

  /** Joining a first part before at least one more puts the separator
      after it. */
  lemma JoinCons(a: string, ls: seq<string>, c: char)
    requires |ls| >= 1
    ensures Join([a] + ls, c) == a + [c] + Join(ls, c)
  {
    assert ([a] + ls)[1..] == ls;
  }

  /** A text is its prefix, the character at `i` and its suffix. */
  lemma SplitAround(s: string, i: nat)
    requires i < |s|
    ensures s == s[..i] + [s[i]] + s[i + 1..]
  {
  }

  /** The normal form is reached in one step exactly on texts without
      carriage returns that do not end with a newline. */
  lemma NormaliseFixedPoints(s: string)
    ensures NormaliseLines(s) == s <==> '\r' !in s && !EndsWithBreak(s)
  {
    if '\r' !in s && !EndsWithBreak(s) {
      NormaliseKeepsUnixText(s);
    } else if NormaliseLines(s) == s {
      NormaliseShortens(s);
    }
  }

  // ---------------------------------------------------------------------
  // The message.
  // ---------------------------------------------------------------------

  /** An address with an optional display name, as `InternetAddress`
      holds it after parsing. */
  datatype Mailbox = Mailbox(address: string, personal: Option<string>)

  /** An attachment of the parsed message: file name and decoded bytes. */
  datatype Attachment = Attachment(name: string, data: seq<bv8>)

  /** The parsed incoming message. The bodies are decoded text; a body the
      message does not have is `None`. */
  datatype Email = Email(
    toHeader: Mailbox,
    fromHeader: Mailbox,
    subject: Option<string>,
    plainTextBody: Option<string>,
    htmlBody: Option<string>,
    attachments: seq<Attachment>)

  const OctetStream := "application/octet-stream"

  /** A part of the outgoing multipart body. */
  datatype BodyPart =
    | TextPart(text: string)
    | FilePart(fileName: string, data: seq<bv8>, contentType: string)

  /** The outgoing message before serialisation. */
  datatype Message = Message(from: Mailbox, to: seq<Mailbox>, subject: Option<string>, parts: seq<BodyPart>)

  /** Canonicalisation algorithms of section 3.4 of RFC 6376. */
  datatype Canonicalization = Simple | Relaxed

  /** Signing algorithms of section 3.3 of RFC 6376. */
  datatype SigningAlgorithm = RsaSha1 | RsaSha256

  /** The content of the private key file. */
  type PrivateKey = seq<bv8>

  /** The settings of the signer; `lengthParam` is the `l=` tag and `zParam`
      the `z=` tag of section 3.5 of RFC 6376. */
  datatype DkimSigner = DkimSigner(
    domain: Option<string>,
    selector: Option<string>,
    key: PrivateKey,
    identity: string,
    headerCanonicalization: Canonicalization,
    bodyCanonicalization: Canonicalization,
    algorithm: SigningAlgorithm,
    lengthParam: bool,
    zParam: bool)

  /** What is handed to the transport: the message, signed or not. */
  datatype MimeMessage =
    | Unsigned(message: Message)
    | Signed(message: Message, signer: DkimSigner)

  /** Why the message could not be built. */
  datatype ComposeError =
    | MissingPlainTextBody          // `getPlainTextEmailBody()` is null
    | KeyUnavailable(path: Option<string>)  // no key file, or it does not read as a key
    | SignerRejected(domain: Option<string>, identity: string)  // the signer refused its settings

  /** The checks of the signing library that are not part of this model:
      whether `DkimSigner` takes the signing domain and selector, and then
      the identity (the sender's address) given to `setIdentity`. */
  type SignerCheck = (Option<string>, Option<string>, string) -> bool

  /** The attachment parts, in input order. */
  function AttachmentParts(attachments: seq<Attachment>): (ps: seq<BodyPart>)
    ensures |ps| == |attachments|
    ensures forall i :: 0 <= i < |ps| ==> ps[i].FilePart? && ps[i].contentType == OctetStream
  {
    seq(|attachments|, i requires 0 <= i < |attachments| =>
      FilePart(attachments[i].name, attachments[i].data, OctetStream))
  }

  /** The attachments a list of file parts carries. */
  function AttachmentsOf(ps: seq<BodyPart>): seq<Attachment>
    requires forall i :: 0 <= i < |ps| ==> ps[i].FilePart?
  {
    seq(|ps|, i requires 0 <= i < |ps| => Attachment(ps[i].fileName, ps[i].data))
  }

  /** Every attachment comes back from its part with its name and bytes. */
  lemma AttachmentsRoundTrip(attachments: seq<Attachment>)
    ensures AttachmentsOf(AttachmentParts(attachments)) == attachments
  {
  }

  /** `createUnsignedMimeMessage`. */
  function CreateUnsigned(email: Email, from: Mailbox, to: Mailbox): (r: Result<Message, ComposeError>)
    ensures r.Failure? <==> email.plainTextBody.None?
    ensures r.Failure? ==> r.error == MissingPlainTextBody
    ensures r.Success? ==>
      && r.value.from == from && r.value.to == [to] && r.value.subject == email.subject
      && |r.value.parts| == 1 + |email.attachments|
      && r.value.parts[0] == TextPart(NormaliseLines(email.plainTextBody.value))
      && (forall i :: 1 <= i < |r.value.parts| ==>
            r.value.parts[i].FilePart? && r.value.parts[i].contentType == OctetStream)
      && AttachmentsOf(r.value.parts[1..]) == email.attachments
  {
    match email.plainTextBody
    case None => Failure(MissingPlainTextBody)
    case Some(body) =>
      var parts := [TextPart(NormaliseLines(body))] + AttachmentParts(email.attachments);
      assert parts[1..] == AttachmentParts(email.attachments);
      AttachmentsRoundTrip(email.attachments);
      Success(Message(from, [to], email.subject, parts))
  }

  /** The signer `createSignedMimeMessage` configures. */
  function Signer(config: ClientConfig, key: PrivateKey, from: Mailbox): (d: DkimSigner)
    ensures d.domain == config.domain && d.selector == config.dkimSelector
    ensures d.key == key && d.identity == from.address
    ensures d.headerCanonicalization == Simple && d.bodyCanonicalization == Relaxed
    ensures d.algorithm == RsaSha256
    ensures d.lengthParam && !d.zParam
  {
    DkimSigner(config.domain, config.dkimSelector, key, from.address, Simple, Relaxed, RsaSha256, true, false)
  }

  /** `createSignedMimeMessage`: the key is read and the signer's settings
      checked first, then the unsigned message is built and wrapped. */
  function CreateSigned(config: ClientConfig, loadKey: string -> Option<PrivateKey>, accepts: SignerCheck,
                        email: Email, from: Mailbox, to: Mailbox): (r: Result<MimeMessage, ComposeError>)
    ensures r.Success? <==> KeyLoads(config, loadKey) && SignerAccepts(config, accepts, from) && email.plainTextBody.Some?
    ensures !KeyLoads(config, loadKey) ==> r == Failure(KeyUnavailable(config.privateKeyFile))
    ensures KeyLoads(config, loadKey) && !SignerAccepts(config, accepts, from) ==>
      r == Failure(SignerRejected(config.domain, from.address))
    ensures r.Success? ==>
      r.value == Signed(CreateUnsigned(email, from, to).value, Signer(config, loadKey(config.privateKeyFile.value).value, from))
  {
    match config.privateKeyFile
    case None => Failure(KeyUnavailable(None))
    case Some(path) =>
      match loadKey(path)
      case None => Failure(KeyUnavailable(Some(path)))
      case Some(key) =>
        if !accepts(config.domain, config.dkimSelector, from.address) then
          Failure(SignerRejected(config.domain, from.address))
        else
          var message :- CreateUnsigned(email, from, to);
          Success(Signed(message, Signer(config, key, from)))
  }

  /** Whether the configured key file reads as a key. */
  predicate KeyLoads(config: ClientConfig, loadKey: string -> Option<PrivateKey>)
  {
    config.privateKeyFile.Some? && loadKey(config.privateKeyFile.value).Some?
  }

  /** Whether the signing library takes the configured domain and selector
      with the sender as identity. */
  predicate SignerAccepts(config: ClientConfig, accepts: SignerCheck, from: Mailbox)
  {
    accepts(config.domain, config.dkimSelector, from.address)
  }

  /** `createMimeMessage`: signed exactly when signing is enabled, and the
      signed message wraps the unsigned one unchanged. */
  function CreateMimeMessage(config: ClientConfig, loadKey: string -> Option<PrivateKey>, accepts: SignerCheck,
                             email: Email, from: Mailbox, to: Mailbox): (r: Result<MimeMessage, ComposeError>)
    ensures r.Success? <==>
      email.plainTextBody.Some? && (config.dkimEnabled ==> KeyLoads(config, loadKey) && SignerAccepts(config, accepts, from))
    ensures config.dkimEnabled && !KeyLoads(config, loadKey) ==> r == Failure(KeyUnavailable(config.privateKeyFile))
    ensures config.dkimEnabled && KeyLoads(config, loadKey) && !SignerAccepts(config, accepts, from) ==>
      r == Failure(SignerRejected(config.domain, from.address))
    ensures r.Success? ==> (r.value.Signed? <==> config.dkimEnabled)
    ensures r.Success? ==> CreateUnsigned(email, from, to) == Success(r.value.message)
    ensures r.Success? && r.value.Signed? ==>
      r.value.signer == Signer(config, loadKey(config.privateKeyFile.value).value, from)
  {
    if config.dkimEnabled then CreateSigned(config, loadKey, accepts, email, from, to)
    else
      var message :- CreateUnsigned(email, from, to);
      Success(Unsigned(message))
  }

  /** The HTML body never reaches the outgoing message. */
  lemma HtmlBodyIgnored(config: ClientConfig, loadKey: string -> Option<PrivateKey>, accepts: SignerCheck,
                        email: Email, html: Option<string>, from: Mailbox, to: Mailbox)
    ensures CreateMimeMessage(config, loadKey, accepts, email.(htmlBody := html), from, to)
         == CreateMimeMessage(config, loadKey, accepts, email, from, to)
  {
  }
}
