# Carrier mail relay: a Dafny model of its forwarding core

Carrier presents masking addresses that hide a real mailbox. Mail sent to a
masking address goes to its destination. The sender is replaced by the masking
address, and the display name carries a fresh single-use reply token that
stands for the original correspondent. When the owner replies to that display
name, the token is consumed and the reply goes back to the correspondent. It
comes from the bare masking address.

This project models that core as pure functions over immutable data:

- **Store** (`MaskedAddressRepository`): a map from masking address to its
  record. Each record is the address, the destination, and the reply map from
  token address to correspondent.
- **Token generation** (`MaskedAddresses`, `Base32`): the token is the base-32
  numeral of a 130-bit value, then `@`, then the configured domain.
- **Admin endpoints** (`CarrierRestController`): create-or-replace, get and
  delete.
- **Acceptance gate and `deliver`** (`SmtpMessageHandler`).
- **The forwarding transition** (`MailForwardingService`): it returns the new
  store, the single send attempt and the outcome.
- **Mail-exchanger choice** (`MailResolver`): decoding of the MX answer, the
  least preference with ties broken by the smallest host, and the cut of the
  last character.
- **The outgoing message** (`SmtpMessageFactory`): header fields, body line
  normalisation, attachment parts, and the fixed DKIM signer settings of
  sections 3.3, 3.4 and 3.5 of RFC 6376.
- **Configuration readers** (`SmtpClientConfiguration`, `AccountConfiguration`,
  `AccountRepository`): the client section with its defaults and the system
  properties it writes, plus the account list and the account registry.

Effects become parameters:

- the random 130-bit value is `n`;
- the DNS query is a function from domain to answer;
- the resolver seen by forwarding is a function from address to resolution;
- the transport is a function that says whether the message was handed over;
- reading the DKIM key file is a function from path to key bytes;
- the signing library's checks on the signing domain, selector and identity are a predicate on those three;
- the host of the `mail.smtp.host` property is returned in the outbound value.

A Java `null` is `None`. A thrown exception is a `Failure`, `Fail` or `Fault`
value naming its cause.

The model follows the code as written, including where it behaves in ways one
might not expect:

- The forwarded From keeps the masking address as its address. The token goes
  into the display name. It is not the address part.
- A reply is recognised by the To header's display name being a token of the
  record named by the To address. The envelope recipient is not consulted, so
  such a reply is addressed to the masking address. The gate accepts it from
  any sender, and forwarding sends it on (`SmtpMessageHandler.ReplyFromAnySender`).
  The owner check at the gate applies only to mail addressed to a token
  itself. Forwarding then drops such mail, because its To address is no masking
  address.
- Only the plain-text body is used; an HTML body is ignored. A message without
  a plain-text body fails to compose.
- The store change happens before routing and sending, and it persists when
  either fails.
- `AccountConfiguration` adds accounts through a `getAccounts()` accessor that
  `AccountRepository` does not define. The model uses `register`.
- An MX answer whose chosen host is empty makes the cut throw. This is modelled
  as the `EmptyHost` fault rather than excluded by a precondition.

## Model

| member | source | states |
|---|---|---|
| `Base32.ToBase32` | src/main/java/com/stevesoltys/carrier/model/MaskedAddress.java:48 | the numeral uses only the digits 0-9a-v, is non-empty, and starts with 0 exactly when the value is 0 |
| `Base32.FromToBase32` | src/main/java/com/stevesoltys/carrier/model/MaskedAddress.java:48 | reading the numeral back gives the value: the rendering loses nothing |
| `Base32.ToBase32Injective` | src/main/java/com/stevesoltys/carrier/model/MaskedAddress.java:48 | distinct values have distinct numerals |
| `Base32.ToBase32Length` | src/main/java/com/stevesoltys/carrier/model/MaskedAddress.java:48 | a value below 32^k has at most k digits |
| `Base32.TokenDigits` | src/main/java/com/stevesoltys/carrier/model/MaskedAddress.java:48 | a 130-bit value has at most 26 digits, none of them '@' |
| `MaskedAddresses.New` | src/main/java/com/stevesoltys/carrier/model/MaskedAddress.java:31-37 | a new record has the given address and destination and no reply token |
| `MaskedAddresses.TokenAddress` | src/main/java/com/stevesoltys/carrier/model/MaskedAddress.java:48 | the first '@' of the token address ends the base-32 numeral of n, and the rest is the domain text |
| `MaskedAddresses.GenerateReplyAddress` | src/main/java/com/stevesoltys/carrier/model/MaskedAddress.java:47-52 | address and destination are unchanged; the returned token maps to the sender; every other entry is unchanged; the map grows by at most one; the token is the numeral of n (at most 26 digits), then '@', then the domain ("null" when unset) |
| `MaskedAddresses.GeneratedReplies` | src/main/java/com/stevesoltys/carrier/model/MaskedAddress.java:49 | generation only puts the token into the reply map |
| `MaskedAddresses.TokenAddressInjective` | src/main/java/com/stevesoltys/carrier/model/MaskedAddress.java:48 | distinct random values give distinct token addresses |
| `MaskedAddresses.TokenDomain` | src/main/java/com/stevesoltys/carrier/model/MaskedAddress.java:48 | the resolver's domain extraction recovers the token's domain |
| `MaskedAddressRepository.FindByAddress` | src/main/java/com/stevesoltys/carrier/repository/MaskedAddressRepository.java:18 | the result is a stored record with that address; none is found exactly when no record has it |
| `MaskedAddressRepository.FindByReplyAddress` | src/main/java/com/stevesoltys/carrier/repository/MaskedAddressRepository.java:20-21 | the result is the one record whose reply map has the key; none is found exactly when no record has that key |
| `MaskedAddressRepository.FindByReplyAddressReadsKeysOnly` | src/main/java/com/stevesoltys/carrier/repository/MaskedAddressRepository.java:20 | the reply query depends only on the reply-map keys, not on correspondents or destinations |
| `MaskedAddressRepository.PutPreservesValid` | src/main/java/com/stevesoltys/carrier/repository/MaskedAddressRepository.java:21 | storing a record whose tokens no other record holds keeps tokens owned by at most one record |
| `MaskedAddressRepository.RemovePreservesValid` | src/main/java/com/stevesoltys/carrier/repository/MaskedAddressRepository.java:21 | removing a record keeps the store invariant |
| `MaskedAddressRepository.RemoveAfterPut` | src/main/java/com/stevesoltys/carrier/model/MaskedAddress.java:49 | removing a key just put into a map that lacked it restores the map, so consuming a fresh token undoes its generation |
| `CarrierRestController.Create` | src/main/java/com/stevesoltys/carrier/controller/CarrierRestController.java:36-46 | the address now holds a fresh record for the destination, even if it existed before; every other record is unchanged; the invariant is kept |
| `CarrierRestController.CreateIdempotent` | src/main/java/com/stevesoltys/carrier/controller/CarrierRestController.java:39-45 | creating twice leaves the store as creating once |
| `CarrierRestController.CreateForgetsTokens` | src/main/java/com/stevesoltys/carrier/controller/CarrierRestController.java:41-45 | after re-creation, no token of the replaced record leads to any record |
| `CarrierRestController.Get` | src/main/java/com/stevesoltys/carrier/controller/CarrierRestController.java:48-59 | the stored record when the address is present, otherwise not-found for that address |
| `CarrierRestController.Delete` | src/main/java/com/stevesoltys/carrier/controller/CarrierRestController.java:61-72 | a present address is removed with its tokens and all else is kept; an absent one gives not-found and an unchanged store |
| `CarrierRestController.CreateThenGet` | src/main/java/com/stevesoltys/carrier/controller/CarrierRestController.java:52-58 | a created record can be fetched as created |
| `CarrierRestController.CreateThenDelete` | src/main/java/com/stevesoltys/carrier/controller/CarrierRestController.java:65-71 | deleting a just-created record leaves the earlier store without that address |
| `MailResolver.LinePrefix` | src/main/java/com/stevesoltys/carrier/service/MailResolverService.java:21 | `.*` matches the longest prefix without a Java line terminator |
| `MailResolver.ExtractDomain` | src/main/java/com/stevesoltys/carrier/service/MailResolverService.java:90-99 | empty exactly when there is no '@'; otherwise the text after the first '@', up to the first line terminator |
| `MailResolver.ExtractDomainOfAddress` | src/main/java/com/stevesoltys/carrier/service/MailResolverService.java:90-99 | for local@domain with no '@' in local and no line break in domain, the domain is extracted exactly |
| `MailResolver.LinePrefixOfLine` | src/main/java/com/stevesoltys/carrier/service/MailResolverService.java:21 | a text without a line terminator is matched whole |
| `MailResolver.SplitOnSpace` | src/main/java/com/stevesoltys/carrier/service/MailResolverService.java:70 | no field has a space; a text without a space is its own only field; otherwise the fields are the pieces between single spaces with exactly the trailing empty pieces dropped |
| `MailResolver.SplitIgnoresTrailingSpace` | src/main/java/com/stevesoltys/carrier/service/MailResolverService.java:70 | a trailing space does not add a field: fields joined by spaces, then a space, split back into the fields |
| `MailResolver.SplitOfJoin` | src/main/java/com/stevesoltys/carrier/service/MailResolverService.java:70 | splitting fields joined by single spaces gives them back when the last is non-empty |
| `MailResolver.ParseInt` | src/main/java/com/stevesoltys/carrier/service/MailResolverService.java:75 | accepted exactly when, after an optional '+' or '-', there is at least one digit, only digits, and the value fits 32 bits; the result is that value, negated after '-' |
| `MailResolver.ParseIntRejects` | src/main/java/com/stevesoltys/carrier/service/MailResolverService.java:75 | any character other than a digit or a leading sign makes the text unparsable |
| `MailResolver.ParseShowInt` | src/main/java/com/stevesoltys/carrier/service/MailResolverService.java:75 | every 32-bit integer parses back from its decimal rendering |
| `MailResolver.DecimalRoundTrip` | src/main/java/com/stevesoltys/carrier/service/MailResolverService.java:75 | the value of a decimal numeral is the number rendered |
| `MailResolver.DecodeRecord` | src/main/java/com/stevesoltys/carrier/service/MailResolverService.java:69-84 | a record is kept exactly when it splits into at least two fields and the first parses as an int; it is then (that int, the second field); short or non-numeric records are dropped |
| `MailResolver.DecodeRenderedRecord` | src/main/java/com/stevesoltys/carrier/service/MailResolverService.java:70-78 | "rank host" decodes to (rank, host) for a 32-bit rank and a non-empty host without spaces |
| `MailResolver.Present` | src/main/java/com/stevesoltys/carrier/service/MailResolverService.java:69-85 | exactly the records that decoded are kept |
| `MailResolver.InDecodedSet` | src/main/java/com/stevesoltys/carrier/service/MailResolverService.java:66-88 | a (rank, host) pair is in the map exactly when some record of the answer decodes to it |
| `MailResolver.LeastIsUnique` | src/main/java/com/stevesoltys/carrier/service/MailResolverService.java:53 | the first entry of the (rank, host) order is unique |
| `MailResolver.Least` | src/main/java/com/stevesoltys/carrier/service/MailResolverService.java:50-56 | the least element of a non-empty list is a member no greater than any other |
| `MailResolver.LeastPresent` | src/main/java/com/stevesoltys/carrier/service/MailResolverService.java:52-56 | no record exactly when nothing decoded; otherwise the least decoded record |
| `MailResolver.Best` | src/main/java/com/stevesoltys/carrier/service/MailResolverService.java:52-56 | the first entry of the map: none exactly when nothing decoded, otherwise the decoded pair no greater than any other |
| `MailResolver.ChooseFrom` | src/main/java/com/stevesoltys/carrier/service/MailResolverService.java:52-63 | empty exactly when nothing decoded; otherwise the least record's host less its last character, or the empty-host fault |
| `MailResolver.ChooseBestRecord` | src/main/java/com/stevesoltys/carrier/service/MailResolverService.java:49-64 | empty exactly when nothing decodes; a chosen host is the least (rank, host) pair's host with its last character cut, dot or not |
| `MailResolver.ChoiceDependsOnlyOnDecodedSet` | src/main/java/com/stevesoltys/carrier/service/MailResolverService.java:66-88 | answers with the same set of decoded pairs choose alike, whatever their order or repeats |
| `MailResolver.Resolve` | src/main/java/com/stevesoltys/carrier/service/MailResolverService.java:23-47 | no '@' or an unparsable name gives empty; a failed lookup throws; an answer gives the record choice |
| `MailResolver.ResolveWithoutAtSkipsLookup` | src/main/java/com/stevesoltys/carrier/service/MailResolverService.java:24-28 | without an '@' the result is empty whatever the lookup would say |
| `MailResolver.DecodedSetOfThree` | src/main/java/com/stevesoltys/carrier/service/MailResolverService.java:66-88 | three records that each decode give exactly the three pairs |
| `MailResolver.ChoiceOfLeast` | src/main/java/com/stevesoltys/carrier/service/MailResolverService.java:52-58 | the least decoded record is the one chosen, its non-empty host cut by its last character |
| `MailResolver.ChoiceOfThree` | src/main/java/com/stevesoltys/carrier/service/MailResolverService.java:49-64 | of three decoded records, the one no greater than the others is chosen and cut |
| `MailResolver.ExampleChoice` | src/main/java/com/stevesoltys/carrier/service/MailResolverService.java:49-64 | answers "10 mx2.example.", "5 mx1.example." and "5 mx0.example." give "mx0.example" |
| `Text.PiecesOfJoin` | src/main/java/com/stevesoltys/carrier/service/MailResolverService.java:70 | splitting joined pieces on the separator gives the pieces back |
| `Text.IndexOf` | src/main/java/com/stevesoltys/carrier/service/MailResolverService.java:93 | the first position of the character, or the length when it does not occur |
| `Text.Pieces` | src/main/java/com/stevesoltys/carrier/service/MailResolverService.java:70 | at least one piece, none containing the separator, and joining the pieces with it gives the text back |
| `Text.LexLeReflexive` | src/main/java/com/stevesoltys/carrier/service/MailResolverService.java:67 | the natural string order is reflexive |
| `Text.LexLe` | src/main/java/com/stevesoltys/carrier/service/MailResolverService.java:67 | Java's natural string order: a prefix is no greater, and a non-empty text is no greater only than a text whose first character is at least its own |
| `Text.LexLeTotal` | src/main/java/com/stevesoltys/carrier/service/MailResolverService.java:67 | the natural string order is total |
| `Text.LexLeAntisymmetric` | src/main/java/com/stevesoltys/carrier/service/MailResolverService.java:67 | the natural string order is antisymmetric |
| `Text.LexLeTransitive` | src/main/java/com/stevesoltys/carrier/service/MailResolverService.java:67 | the natural string order is transitive |
| `Text.LexLeFirstDifference` | src/main/java/com/stevesoltys/carrier/service/MailResolverService.java:67 | the host order is the textbook one: a prefix first, otherwise the smaller character at the first difference |
| `Text.EqualsIgnoreCaseIsLowerEquality` | src/main/java/com/stevesoltys/carrier/net/SMTPMessageHandler.java:47 | case-insensitive equality is equality after lower-casing |
| `Text.EqualsIgnoreCase` | src/main/java/com/stevesoltys/carrier/net/SMTPMessageHandler.java:47 | equal texts match, and matching texts have the same length |
| `SmtpMessageFactory.LineEnd` | src/main/java/com/stevesoltys/carrier/net/SMTPMessageFactory.java:65 | the first '\n' or '\r', with no break before it |
| `SmtpMessageFactory.Lines` | src/main/java/com/stevesoltys/carrier/net/SMTPMessageFactory.java:65 | lines hold no break, and there are none exactly for the empty text |
| `SmtpMessageFactory.LinesAfterBreak` | src/main/java/com/stevesoltys/carrier/net/SMTPMessageFactory.java:65 | a line ends at "\n", at "\r\n" taken as one break, or at a "\r" not followed by "\n", and reading goes on after that break |
| `SmtpMessageFactory.NormaliseOneBreak` | src/main/java/com/stevesoltys/carrier/net/SMTPMessageFactory.java:65 | two lines split by any one break normalise to the two lines split by a single "\n" |
| `SmtpMessageFactory.NormaliseLines` | src/main/java/com/stevesoltys/carrier/net/SMTPMessageFactory.java:65 | the body read line by line and joined with newlines has no carriage return |
| `SmtpMessageFactory.LinesOfJoin` | src/main/java/com/stevesoltys/carrier/net/SMTPMessageFactory.java:65 | reading back lines joined by '\n' gives them, less a final empty line |
| `SmtpMessageFactory.NormalisingKeepsLines` | src/main/java/com/stevesoltys/carrier/net/SMTPMessageFactory.java:65 | normalising keeps the line sequence exactly when the last line is not empty |
| `SmtpMessageFactory.NormaliseShortens` | src/main/java/com/stevesoltys/carrier/net/SMTPMessageFactory.java:65 | normalising never lengthens the body and drops a final break |
| `SmtpMessageFactory.NormaliseKeepsUnixText` | src/main/java/com/stevesoltys/carrier/net/SMTPMessageFactory.java:65 | a body without '\r' and without a final newline is unchanged |
| `SmtpMessageFactory.NormaliseFixedPoints` | src/main/java/com/stevesoltys/carrier/net/SMTPMessageFactory.java:65 | a body is unchanged exactly when it has no '\r' and no final break |
| `SmtpMessageFactory.AttachmentParts` | src/main/java/com/stevesoltys/carrier/net/SMTPMessageFactory.java:71-81 | one file part per attachment, each application/octet-stream |
| `SmtpMessageFactory.AttachmentsRoundTrip` | src/main/java/com/stevesoltys/carrier/net/SMTPMessageFactory.java:73-78 | every attachment comes back from its part with its name and exact bytes, in order |
| `SmtpMessageFactory.CreateUnsigned` | src/main/java/com/stevesoltys/carrier/net/SMTPMessageFactory.java:52-86 | From, exactly one To, and Subject as given; the normalised plain-text part first, then one application/octet-stream file part per attachment in order with its name and bytes; fails exactly without a plain-text body |
| `SmtpMessageFactory.Signer` | src/main/java/com/stevesoltys/carrier/net/SMTPMessageFactory.java:91-103 | configured domain and selector; identity is the from address; simple header and relaxed body canonicalisation; rsa-sha256; l= on and z= off |
| `SmtpMessageFactory.CreateSigned` | src/main/java/com/stevesoltys/carrier/net/SMTPMessageFactory.java:88-106 | the key is read and the signer's settings checked first, so either failure happens even without a body; success exactly when the key loads, the signing library accepts the domain, selector and sender identity, and there is a plain-text body; the result wraps the unsigned message with the configured signer |
| `SmtpMessageFactory.CreateMimeMessage` | src/main/java/com/stevesoltys/carrier/net/SMTPMessageFactory.java:41-50 | signed exactly when DKIM is enabled; the signed message wraps the unsigned one unchanged; fails exactly without a plain-text body or, when signing, without a readable key or with settings the signing library refuses |
| `SmtpMessageFactory.HtmlBodyIgnored` | src/main/java/com/stevesoltys/carrier/net/SMTPMessageFactory.java:64 | the HTML body does not affect the outgoing message |
| `MailForwardingService.MaskedAddressOf` | src/main/java/com/stevesoltys/carrier/service/MailForwardingService.java:109-113 | the record is found by the To header's address, and only when it is a masking address |
| `MailForwardingService.IsReply` | src/main/java/com/stevesoltys/carrier/service/MailForwardingService.java:70 | the `containsKey(personal)` test: the To display name is a key of the record's reply map (its meaning on a store is given by `IsReplyAgreesWithQuery`) |
| `MailForwardingService.IsReplyAgreesWithQuery` | src/main/java/com/stevesoltys/carrier/service/MailForwardingService.java:70 | on a valid store, the To display name is a token of the record exactly when the reply query finds that record for it |
| `MailForwardingService.ReplyStep` | src/main/java/com/stevesoltys/carrier/service/MailForwardingService.java:70-76 | exactly the token is removed and all else is kept; To is the correspondent; From is the bare masking address; the invariant is kept |
| `MailForwardingService.InboundStep` | src/main/java/com/stevesoltys/carrier/service/MailForwardingService.java:79-83 | the record gains the token for the sender; To is the destination; From is the To header with the token as display name |
| `MailForwardingService.Prepare` | src/main/java/com/stevesoltys/carrier/service/MailForwardingService.java:56-83 | an unknown To address fails with the store unchanged; the reply path is taken exactly when the display name is a token of the record |
| `MailForwardingService.UpdateHost` | src/main/java/com/stevesoltys/carrier/service/MailForwardingService.java:98-107 | the resolved host, or a failure naming the address or the resolver fault |
| `MailForwardingService.RouteAll` | src/main/java/com/stevesoltys/carrier/service/MailForwardingService.java:74-86 | succeeds exactly when every lookup finds a host, giving the last one; otherwise fails with the error of the first lookup without a host |
| `MailForwardingService.Forward` | src/main/java/com/stevesoltys/carrier/service/MailForwardingService.java:53-96 | the store change of the chosen path stays; an unknown address sends nothing and changes nothing; the first lookup without a host, or a message that cannot be built, ends it with that cause and nothing sent; otherwise the built message goes to the recipient's host, and the outcome is success exactly when the transport takes it |
| `MailForwardingService.ForwardPasses` | src/main/java/com/stevesoltys/carrier/service/MailForwardingService.java:53-96 | forwarding succeeds exactly when the To address is a masking address, every lookup finds a host, the message is built, and the transport takes it |
| `MailForwardingService.PrepareKeepsValid` | src/main/java/com/stevesoltys/carrier/service/MailForwardingService.java:70-83 | forwarding keeps the store invariant when the new token is held by no other record |
| `MailForwardingService.ReplyIgnoresSender` | src/main/java/com/stevesoltys/carrier/service/MailForwardingService.java:70 | the reply path does not look at the sender |
| `MailForwardingService.RoundTrip` | src/main/java/com/stevesoltys/carrier/service/MailForwardingService.java:70-83 | a reply to an inbound forward goes to the original sender and restores the store |
| `MailForwardingService.ConsumingTheTokenRestores` | src/main/java/com/stevesoltys/carrier/service/MailForwardingService.java:72 | removing a just-generated fresh token gives the record back |
| `MailForwardingService.TokenSingleUse` | src/main/java/com/stevesoltys/carrier/service/MailForwardingService.java:70-72 | once a token is consumed, the same display name takes the inbound path |
| `MailForwardingService.RouteFailureKeepsToken` | src/main/java/com/stevesoltys/carrier/service/MailForwardingService.java:79-93 | without a route for the destination nothing is sent, yet the new token stays |
| `SmtpMessageHandler.Accept` | src/main/java/com/stevesoltys/carrier/net/SMTPMessageHandler.java:43-52 | accepted exactly when the recipient is a masking address, or a token whose owner's destination equals the sender ignoring case |
| `SmtpMessageHandler.AcceptsMaskingAddress` | src/main/java/com/stevesoltys/carrier/net/SMTPMessageHandler.java:51 | a masking address is accepted from any sender |
| `SmtpMessageHandler.AcceptsReplyFromOwner` | src/main/java/com/stevesoltys/carrier/net/SMTPMessageHandler.java:45-48 | a token is accepted from its owner's destination in any ASCII case |
| `SmtpMessageHandler.RejectsReplyFromStranger` | src/main/java/com/stevesoltys/carrier/net/SMTPMessageHandler.java:45-51 | a token from another sender is refused unless it is also a masking address |
| `SmtpMessageHandler.RejectsUnknown` | src/main/java/com/stevesoltys/carrier/net/SMTPMessageHandler.java:45-51 | a recipient that is neither masking address nor token is refused |
| `SmtpMessageHandler.SenderCaseIgnored` | src/main/java/com/stevesoltys/carrier/net/SMTPMessageHandler.java:47 | senders equal up to case get the same answer |
| `SmtpMessageHandler.Deliver` | src/main/java/com/stevesoltys/carrier/net/SMTPMessageHandler.java:55-82 | only a parse failure surfaces, with the store unchanged; otherwise the forwarding effects happen and the failure is swallowed |
| `SmtpMessageHandler.DeliverySwallowsUnknownAddress` | src/main/java/com/stevesoltys/carrier/net/SMTPMessageHandler.java:76-81 | mail to an unknown masking address returns normally with nothing sent or changed |
| `SmtpMessageHandler.ReplyFromAnySender` | src/main/java/com/stevesoltys/carrier/net/SMTPMessageHandler.java:51 | a reply addressed to the masking address is accepted from anyone and goes to the correspondent |
| `SmtpClientConfiguration.ReadFlag` | src/main/java/com/stevesoltys/carrier/configuration/SMTPClientConfiguration.java:56 | an absent key gives the default, a boolean gives its value, and anything else fails the cast or the unboxing |
| `SmtpClientConfiguration.ReadText` | src/main/java/com/stevesoltys/carrier/configuration/SMTPClientConfiguration.java:57-60 | an absent key gives the default, a string or null is kept, and anything else fails the cast |
| `SmtpClientConfiguration.ReadSettings` | src/main/java/com/stevesoltys/carrier/configuration/SMTPClientConfiguration.java:56-62 | reads succeed exactly when every present key has its reader's type; a failure names a present, mistyped key; each setting equals its present value or else its default |
| `SmtpClientConfiguration.Initialize` | src/main/java/com/stevesoltys/carrier/configuration/SMTPClientConfiguration.java:49-74 | a missing section fails with no property written, a section that is not a map fails the cast; a map initialises exactly when all six settings and both keystore keys have their reader's type, and then the settings are those `ReadSettings` reads; a failed settings read writes no property; starttls and ssl are written first; the keystore pair is written exactly when both are strings |
| `SmtpClientConfiguration.MistypedFlagFails` | src/main/java/com/stevesoltys/carrier/configuration/SMTPClientConfiguration.java:56 | a string under `dkim` fails the boolean cast before any property is written |
| `SmtpClientConfiguration.ReadSettingsOfWellTyped` | src/main/java/com/stevesoltys/carrier/configuration/SMTPClientConfiguration.java:56-62 | well-typed settings read as each given value or its default |
| `SmtpClientConfiguration.InitializeUsesValuesOrDefaults` | src/main/java/com/stevesoltys/carrier/configuration/SMTPClientConfiguration.java:56-62 | a well-typed section initialises to its values or the defaults |
| `SmtpClientConfiguration.InitializeEmptySection` | src/main/java/com/stevesoltys/carrier/configuration/SMTPClientConfiguration.java:22-23 | an empty section gives: dkim off, no selector, the key at dkim.der in the configuration directory, no domain, starttls on, ssl off |
| `SmtpClientConfiguration.InitializeFullSection` | src/test/java/com/stevesoltys/carrier/configuration/CarrierConfigurationTests.java:49-83 | the fully populated section initialises with its values and the keystore properties |
| `AccountRepository.FindByUsername` | src/main/java/com/stevesoltys/carrier/repository/AccountRepository.java:29-39 | an account found has the name; none is found only when no account has it; only an account without a name can make it throw |
| `AccountRepository.Register` | src/main/java/com/stevesoltys/carrier/repository/AccountRepository.java:46-48 | the registry becomes the old accounts plus the new one, and is unchanged if the account was already there |
| `AccountRepository.RegisterIdempotent` | src/main/java/com/stevesoltys/carrier/repository/AccountRepository.java:21 | registering an account twice is registering it once |
| `AccountRepository.NullNameNotFound` | src/test/java/com/stevesoltys/carrier/repository/AccountRepositoryTests.java:54-59 | a null name is not found |
| `AccountRepository.FoundAfterRegister` | src/test/java/com/stevesoltys/carrier/repository/AccountRepositoryTests.java:64-69 | after registering a named account, its name is found |
| `AccountConfiguration.AsText` | src/main/java/com/stevesoltys/carrier/configuration/AccountConfiguration.java:64-65 | a string or null is read, and anything else fails the cast |
| `AccountConfiguration.EntryAccount` | src/main/java/com/stevesoltys/carrier/configuration/AccountConfiguration.java:52-66 | a missing username, then a missing password, is reported; a non-map entry or a non-string value is invalid; otherwise the account of the two values |
| `AccountConfiguration.LeadingValid` | src/main/java/com/stevesoltys/carrier/configuration/AccountConfiguration.java:52-62 | the entries before the first rejected one are all accepted |
| `AccountConfiguration.RegisterEntries` | src/main/java/com/stevesoltys/carrier/configuration/AccountConfiguration.java:52-68 | success exactly when every entry is accepted; a failure reports the first rejected entry; exactly the earlier accounts and the entries' accounts before it are registered |
| `AccountConfiguration.Initialize` | src/main/java/com/stevesoltys/carrier/configuration/AccountConfiguration.java:47-73 | a missing or non-list `accounts` value is invalid with nothing registered; a list is registered entry by entry |
| `AccountConfiguration.EmptyListRegistersNothing` | src/main/java/com/stevesoltys/carrier/configuration/AccountConfiguration.java:52 | an empty list succeeds and registers nothing |
| `AccountConfiguration.WellFormedListRegistersAll` | src/main/java/com/stevesoltys/carrier/configuration/AccountConfiguration.java:52-68 | a list of valid entries succeeds and registers each entry's account |

## Left out

- DNS: `Lookup` and its record parsing are not modelled. An answer is its list of rdata strings, or the two failure kinds.
- The transport (`Transport.send`), MIME serialisation, mime4j parsing in `deliver` and DKIM signing itself are not modelled. A parse failure is `None`; the transport is a parameter.
- `InternetAddress` parsing: headers are taken as already parsed. The `AddressException` paths of `forward` are not modelled: an unparsable destination, To header, From header, correspondent or generated token address.
- MaskedAddresses.GenerateReplyAddress: the source parses the token address after storing it, so a domain `InternetAddress` rejects (the empty one, giving "token@") makes it throw with the token already stored. The model returns the token. Address syntax is not modelled.
- MailForwardingService.InboundStep: for the same reason, with such a domain, the model forwards where the source fails with the token stored and nothing sent.
- The process-wide `mail.smtp.host` property is not modelled. The host is returned as a value.
- Character decoding of the body stream is not modelled: bodies are text.
- Spring transactions and concurrency are not modelled. Transitions are single-threaded.
- `SMTPServerConfiguration`, `CarrierConfigurationLoader`, the wiring classes and the exception classes are outside this model. The exceptions appear only as error values.
- `Text.LexLe`: compares characters as code points, where Java compares UTF-16 units. The two orders agree on the ASCII host names MX records carry.
- `Text.EqualsIgnoreCase`: folds ASCII letters only. Java also folds other letters.
- `MailResolver.ParseInt`: accepts ASCII digits only. Java also accepts other Unicode decimal digits.
- `AccountRepository.Register`: accounts are compared by value, where the source `HashSet` uses object identity. Two distinct objects with equal fields are one entry here. No lookup can tell them apart.
- `AccountRepository.FindByUsername`: searches in registration order, where the `HashSet` order is unspecified. Its contract states only facts that hold in every order, so it does not say which of several equally named accounts is returned, or whether an unnamed account is met first.
- `SmtpMessageFactory.CreateSigned`: the signing library's checks on the domain, selector and identity are a parameter, not modelled. The key-file read is taken to come before them, so an unreadable key is reported even when the settings would also be refused.
