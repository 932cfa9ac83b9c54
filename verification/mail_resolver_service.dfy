/** Choice of the mail exchanger for an address: the domain after the first
    '@', the MX answer for it (given as data instead of a DNS query), and the
    record with the least preference, ties broken by the smallest host name. */
module MailResolver {
  import opened Wrappers
  import opened Text

  // ---------------------------------------------------------------------
  // Domain extraction: the pattern `([^@]*)@(.*)` applied with `find`.
  // ---------------------------------------------------------------------

  /** Characters that Java's regular-expression `.` does not match. */
  predicate IsLineTerminator(c: char)
  {
    c == '\n' || c == '\r' || c == '\U{0085}' || c == '\U{2028}' || c == '\U{2029}'
  }

  predicate HasNoLineTerminator(s: string)
  {
    forall i :: 0 <= i < |s| ==> !IsLineTerminator(s[i])
  }

  /** The longest prefix of `s` that `.*` matches. */
  function LinePrefix(s: string): (p: string)
    ensures p <= s
    ensures HasNoLineTerminator(p)
    ensures |p| == |s| || IsLineTerminator(s[|p|])
  {
    if s == [] || IsLineTerminator(s[0]) then []
    else [s[0]] + LinePrefix(s[1..])
  }

  /** `extractDomain`: the second group of the first match, or empty when the
      address has no '@'. */
  function ExtractDomain(email: string): (r: Option<string>)
    ensures r.None? <==> '@' !in email
    ensures r.Some? ==>
      var k := IndexOf(email, '@');
      && r.value <= email[k + 1..]
      && HasNoLineTerminator(r.value)
      && (k + 1 + |r.value| == |email| || IsLineTerminator(email[k + 1 + |r.value|]))
  {
    var k := IndexOf(email, '@');
    if k == |email| then None else Some(LinePrefix(email[k + 1..]))
  }

  /** For an address `local@domain` whose local part has no '@' and whose
      domain has no line break, the extracted domain is exactly `domain`. */
  lemma ExtractDomainOfAddress(local: string, domain: string)
    requires '@' !in local
    requires HasNoLineTerminator(domain)
    ensures ExtractDomain(local + "@" + domain) == Some(domain)
  {
    var email := local + "@" + domain;
    IndexAfterPrefix(local, '@', "@" + domain);
    assert email == local + ("@" + domain);
    assert email[|local| + 1..] == domain;
    LinePrefixOfLine(domain);
  }

  lemma {:induction false} LinePrefixOfLine(s: string)
    requires HasNoLineTerminator(s)
    ensures LinePrefix(s) == s
  {
    if s != [] {
      LinePrefixOfLine(s[1..]);
    }
  }

  // ---------------------------------------------------------------------
  // Record decoding: `rdataToString().split(" ")` and `Integer.parseInt`.
  // ---------------------------------------------------------------------

  /** Removes the empty pieces at the end, as `split` with limit 0 does. */
  function DropTrailingEmpty(ps: seq<string>): (r: seq<string>)
    ensures r <= ps
    ensures |r| == 0 || r[|r| - 1] != ""
    ensures forall k :: |r| <= k < |ps| ==> ps[k] == ""
  {
    if ps == [] || ps[|ps| - 1] != "" then ps
    else DropTrailingEmpty(ps[..|ps| - 1])
  }

  /** Java `s.split(" ")`: a string without a space gives itself alone (even
      the empty string); otherwise the pieces between single spaces, leading
      empty pieces kept and trailing ones dropped. */
  function SplitOnSpace(s: string): (fields: seq<string>)
    ensures ' ' !in s ==> fields == [s]
    ensures forall k :: 0 <= k < |fields| ==> ' ' !in fields[k]
    ensures ' ' in s ==> |fields| == 0 || fields[|fields| - 1] != ""
    ensures ' ' in s ==> fields <= Pieces(s, ' ')
    ensures ' ' in s ==> forall k :: |fields| <= k < |Pieces(s, ' ')| ==> Pieces(s, ' ')[k] == ""
  {
    if ' ' !in s then [s] else DropTrailingEmpty(Pieces(s, ' '))
  }

  /** Trailing spaces are ignored: `"10 mx.example. "` splits as
      `"10 mx.example."` does. */
  lemma SplitIgnoresTrailingSpace(fields: seq<string>)
    requires |fields| >= 1
    requires forall k :: 0 <= k < |fields| ==> ' ' !in fields[k]
    requires fields[|fields| - 1] != ""
    ensures SplitOnSpace(Join(fields, ' ') + " ") == fields
  {
    var ps := fields + [""];
    JoinAppend(fields, "", ' ');
    assert Join(ps, ' ') == Join(fields, ' ') + " ";
    PiecesOfJoin(ps, ' ');
    assert ps[..|ps| - 1] == fields;
  }

  /** Splitting fields joined by single spaces gives the fields back when the
      last one is not empty. */
  lemma SplitOfJoin(fields: seq<string>)
    requires |fields| >= 2
    requires forall k :: 0 <= k < |fields| ==> ' ' !in fields[k]
    requires fields[|fields| - 1] != ""
    ensures SplitOnSpace(Join(fields, ' ')) == fields
  {
    var s := Join(fields, ' ');
    PiecesOfJoin(fields, ' ');
    assert s == fields[0] + [' '] + Join(fields[1..], ' ');
    assert s[|fields[0]|] == ' ';
  }

  const IntMin: int := -0x8000_0000
  const IntMax: int := 0x7fff_ffff

  predicate IsDecimalDigit(c: char)
  {
    '0' <= c <= '9'
  }

  predicate AllDecimalDigits(s: string)
  {
    forall i :: 0 <= i < |s| ==> IsDecimalDigit(s[i])
  }

  /** The value of a decimal numeral (leading zeros allowed). */
  function DecimalValue(s: string): nat
    requires AllDecimalDigits(s)
  {
    if s == [] then 0 else DecimalValue(s[..|s| - 1]) * 10 + (s[|s| - 1] as int - '0' as int)
  }

  /** Whether `s` starts with a minus sign. */
  predicate IsNegative(s: string)
  {
    |s| > 0 && s[0] == '-'
  }

  /** `s` without its leading sign, if it has one. */
  function Magnitude(s: string): (m: string)
    ensures |s| > 0 && (s[0] == '-' || s[0] == '+') ==> m == s[1..]
    ensures |s| == 0 || (s[0] != '-' && s[0] != '+') ==> m == s
  {
    if |s| > 0 && (s[0] == '-' || s[0] == '+') then s[1..] else s
  }

  /** Java `Integer.parseInt`: an optional sign, then at least one decimal
      digit, and a value within the 32-bit range; anything else throws, which
      is `None` here. */
  function ParseInt(s: string): (r: Option<int>)
    ensures r.Some? <==>
      && Magnitude(s) != []
      && AllDecimalDigits(Magnitude(s))
      && DecimalValue(Magnitude(s)) <= (if IsNegative(s) then -IntMin else IntMax)
    ensures r.Some? ==>
      r.value == (if IsNegative(s) then -(DecimalValue(Magnitude(s)) as int) else DecimalValue(Magnitude(s)))
    ensures r.Some? ==> IntMin <= r.value <= IntMax
    ensures r.Some? ==> |s| > 0 && (s[0] == '-' || s[0] == '+' || IsDecimalDigit(s[0]))
  {
    if s == [] then None
    else
      var digits := Magnitude(s);
      if digits == [] || !AllDecimalDigits(digits) then None
      else
        var v: int := if IsNegative(s) then -(DecimalValue(digits) as int) else DecimalValue(digits);
        if IntMin <= v <= IntMax then Some(v) else None
  }

  /** A character that is neither a digit nor the leading sign makes the
      text unparsable ("12a", "1 2", "--1"). */
  lemma ParseIntRejects(s: string, i: nat)
    requires i < |s| && !IsDecimalDigit(s[i])
    requires i > 0 || (s[0] != '-' && s[0] != '+')
    ensures ParseInt(s) == None
  {
    if i > 0 && (s[0] == '-' || s[0] == '+') {
      assert Magnitude(s)[i - 1] == s[i];
    } else {
      assert Magnitude(s)[i] == s[i];
    }
  }

  function DecimalDigit(d: nat): (c: char)
    requires d < 10
    ensures IsDecimalDigit(c)
  {
    ('0' as int + d) as char
  }

  /** The decimal numeral of `n`, without leading zeros. */
  function Decimal(n: nat): (s: string)
    ensures |s| >= 1
    ensures AllDecimalDigits(s)
  {
    if n < 10 then [DecimalDigit(n)] else Decimal(n / 10) + [DecimalDigit(n % 10)]
  }

  lemma {:induction false} DecimalRoundTrip(n: nat)
    ensures DecimalValue(Decimal(n)) == n
  {
    if n >= 10 {
      var s := Decimal(n);
      DecimalRoundTrip(n / 10);
      assert s[..|s| - 1] == Decimal(n / 10);
    }
  }

  /** Java `Integer.toString`. */
  function ShowInt(i: int): string
  {
    if i < 0 then "-" + Decimal(-i) else Decimal(i)
  }

  /** Parsing the rendering of a 32-bit integer gives the integer back. */
  lemma ParseShowInt(i: int)
    requires IntMin <= i <= IntMax
    ensures ParseInt(ShowInt(i)) == Some(i)
    ensures ' ' !in ShowInt(i)
  {
    if i < 0 {
      ParseNegative(-i);
    } else {
      ParseNonNegative(i);
    }
  }

  lemma ParseNegative(n: nat)
    requires 0 < n <= -IntMin
    ensures ParseInt("-" + Decimal(n)) == Some(-(n as int))
    ensures ' ' !in "-" + Decimal(n)
  {
    var s := "-" + Decimal(n);
    DecimalRoundTrip(n);
    assert s[1..] == Decimal(n);
    NoSpaceInDigits(Decimal(n));
  }

  lemma ParseNonNegative(n: nat)
    requires n <= IntMax
    ensures ParseInt(Decimal(n)) == Some(n)
    ensures ' ' !in Decimal(n)
  {
    DecimalRoundTrip(n);
    NoSpaceInDigits(Decimal(n));
  }

  lemma NoSpaceInDigits(s: string)
    requires AllDecimalDigits(s)
    ensures ' ' !in s
  {
  }

  /** A decoded MX record: preference and exchange host as printed. */
  datatype MxRecord = MxRecord(rank: int, host: string)

  /** The lambda of `decodeRecords`: at least two fields and a first field
      that parses, or the record is dropped. */
  function DecodeRecord(rdata: string): (r: Option<MxRecord>)
    ensures var fields := SplitOnSpace(rdata);
      r.Some? <==> |fields| >= 2 && ParseInt(fields[0]).Some?
    ensures var fields := SplitOnSpace(rdata);
      r.Some? ==> r.value == MxRecord(ParseInt(fields[0]).value, fields[1])
    ensures r.Some? ==> IntMin <= r.value.rank <= IntMax && ' ' !in r.value.host
    ensures ' ' !in rdata ==> r.None?
  {
    var fields := SplitOnSpace(rdata);
    if |fields| < 2 then None
    else match ParseInt(fields[0])
      case None => None
      case Some(rank) => Some(MxRecord(rank, fields[1]))
  }

  /** The presentation form of an MX record's data. */
  function RenderRecord(rank: int, host: string): string
  {
    ShowInt(rank) + " " + host
  }

  /** A record printed as preference, one space and a non-empty host without
      spaces decodes to that preference and host. */
  lemma DecodeRenderedRecord(rank: int, host: string)
    requires IntMin <= rank <= IntMax
    requires host != [] && ' ' !in host
    ensures DecodeRecord(RenderRecord(rank, host)) == Some(MxRecord(rank, host))
  {
    ParseShowInt(rank);
    var fields := [ShowInt(rank), host];
    assert Join(fields[1..], ' ') == host;
    assert Join(fields, ' ') == RenderRecord(rank, host);
    SplitOfJoin(fields);
  }

  /** The decoding of every record of the answer, in answer order. */
  function DecodeEach(rs: seq<string>): (os: seq<Option<MxRecord>>)
    ensures |os| == |rs|
  {
    seq(|rs|, i requires 0 <= i < |rs| => DecodeRecord(rs[i]))
  }

  /** The records that decoded, in order, the dropped ones left out. */
  function Present(os: seq<Option<MxRecord>>): (ps: seq<MxRecord>)
    ensures forall p :: p in ps <==> Some(p) in os
  {
    if os == [] then []
    else
      assert forall o :: o in os <==> o == os[0] || o in os[1..];
      match os[0]
      case None => Present(os[1..])
      case Some(p) => [p] + Present(os[1..])
  }

  /** The content of the `TreeMultimap`: the set of decoded pairs, in which
      answer order and repeated records are lost. */
  function DecodedSet(rs: seq<string>): set<MxRecord>
  {
    PresentSet(DecodeEach(rs))
  }

  /** A pair is in the map exactly when some record of the answer decodes
      to it. */
  lemma InDecodedSet(rs: seq<string>, p: MxRecord)
    ensures p in DecodedSet(rs) <==> exists i :: 0 <= i < |rs| && DecodeRecord(rs[i]) == Some(p)
  {
    var os := DecodeEach(rs);
    if Some(p) in os {
      var i :| 0 <= i < |os| && os[i] == Some(p);
      assert DecodeRecord(rs[i]) == Some(p);
    }
    if exists i :: 0 <= i < |rs| && DecodeRecord(rs[i]) == Some(p) {
      var i :| 0 <= i < |rs| && DecodeRecord(rs[i]) == Some(p);
      assert os[i] == Some(p);
    }
  }

  function PresentSet(os: seq<Option<MxRecord>>): set<MxRecord>
  {
    set p | p in Present(os)
  }

  // ---------------------------------------------------------------------
  // Choice of the best record.
  // ---------------------------------------------------------------------

  /** The order of the `TreeMultimap`: preference first, then host name. */
  predicate RecordLe(p: MxRecord, q: MxRecord)
  {
    p.rank < q.rank || (p.rank == q.rank && LexLe(p.host, q.host))
  }

  /** `p` is the first entry of `records` in that order. */
  predicate IsLeast(p: MxRecord, records: set<MxRecord>)
  {
    p in records && forall q :: q in records ==> RecordLe(p, q)
  }

  /** There is only one first entry. */
  lemma LeastIsUnique(p: MxRecord, q: MxRecord, records: set<MxRecord>)
    requires IsLeast(p, records) && IsLeast(q, records)
    ensures p == q
  {
    assert RecordLe(p, q) && RecordLe(q, p);
    LexLeAntisymmetric(p.host, q.host);
  }

  /** The least record of a sequence, if any. */
  function Least(ps: seq<MxRecord>): (r: Option<MxRecord>)
    ensures r.None? <==> |ps| == 0
    ensures r.Some? ==> r.value in ps && forall q :: q in ps ==> RecordLe(r.value, q)
  {
    if ps == [] then None
    else
      LexLeReflexive(ps[0].host);
      match Least(ps[1..])
      case None => Some(ps[0])
      case Some(m) =>
        LexLeTotal(ps[0].host, m.host);
        if RecordLe(ps[0], m) then
          assert forall q :: q in ps[1..] ==> RecordLe(ps[0], q) by {
            forall q | q in ps[1..]
              ensures RecordLe(ps[0], q)
            {
              if ps[0].rank == m.rank == q.rank {
                LexLeTransitive(ps[0].host, m.host, q.host);
              }
            }
          }
          Some(ps[0])
        else
          Some(m)
  }

  /** Why the resolver could throw instead of answering. */
  datatype ResolverFault =
    | NullAnswer   // `Arrays.asList` of the null array a failed lookup returns
    | EmptyHost    // `substring(0, -1)` on an empty host field

  /** What `resolve` gives back: a host, an empty `Optional`, or a throw. */
  datatype Resolution = Host(name: string) | NoRoute | Fault(fault: ResolverFault)

  /** The first entry of the records that decoded, when there is one. */
  function LeastPresent(os: seq<Option<MxRecord>>): (r: Option<MxRecord>)
    ensures r.None? <==> PresentSet(os) == {}
    ensures r.Some? ==> IsLeast(r.value, PresentSet(os))
  {
    var r := Least(Present(os));
    if r.None? then
      assert forall p :: p !in PresentSet(os);
      r
    else
      assert r.value in Present(os);
      assert r.value in PresentSet(os);
      r
  }

  /** The first entry of the decoded records, when there is one. */
  function Best(rs: seq<string>): (r: Option<MxRecord>)
    ensures r.None? <==> DecodedSet(rs) == {}
    ensures r.Some? ==> IsLeast(r.value, DecodedSet(rs))
  {
    LeastPresent(DecodeEach(rs))
  }

  /** The host of the least record present in `os`, its last character
      cut whether or not it is a dot; an empty host cannot be cut. */
  function ChooseFrom(os: seq<Option<MxRecord>>): (r: Resolution)
    ensures r.NoRoute? <==> PresentSet(os) == {}
    ensures r.Fault? ==> r.fault == EmptyHost
    ensures forall p :: IsLeast(p, PresentSet(os)) ==>
      && (r.Host? <==> p.host != [])
      && (r.Host? ==> p.host == r.name + [p.host[|p.host| - 1]])
  {
    var best := LeastPresent(os);
    if best.None? then NoRoute
    else
      var host := best.value.host;
      assert forall p :: IsLeast(p, PresentSet(os)) ==> p == best.value by {
        forall p | IsLeast(p, PresentSet(os))
          ensures p == best.value
        {
          LeastIsUnique(p, best.value, PresentSet(os));
        }
      }
      if host == [] then Fault(EmptyHost)
      else
        assert host == host[..|host| - 1] + [host[|host| - 1]];
        Host(host[..|host| - 1])
  }

  /** `chooseBestRecord`: the cut host of the first entry of the
      decoded records. */
  function ChooseBestRecord(rs: seq<string>): (r: Resolution)
    ensures r.NoRoute? <==> DecodedSet(rs) == {}
    ensures r.Fault? ==> r.fault == EmptyHost
    ensures forall p :: IsLeast(p, DecodedSet(rs)) ==>
      && (r.Host? <==> p.host != [])
      && (r.Host? ==> p.host == r.name + [p.host[|p.host| - 1]])
  {
    ChooseFrom(DecodeEach(rs))
  }

  /** The choice depends only on the set of decoded pairs: not on the order
      of the answer, nor on repeated records. */
  lemma ChoiceDependsOnlyOnDecodedSet(rs1: seq<string>, rs2: seq<string>)
    requires DecodedSet(rs1) == DecodedSet(rs2)
    ensures ChooseBestRecord(rs1) == ChooseBestRecord(rs2)
  {
    var l1 := Best(rs1);
    var l2 := Best(rs2);
    if l1.Some? {
      assert l2.Some? by {
        assert l1.value in DecodedSet(rs2);
      }
      LeastIsUnique(l1.value, l2.value, DecodedSet(rs1));
    } else {
      assert DecodedSet(rs2) == {};
    }
  }

  /** The answer to an MX query for a domain, as the lookup yields it. */
  datatype LookupAnswer =
    | InvalidName          // the name does not parse: `TextParseException`
    | NoAnswer             // the lookup was not successful: `run()` gives null
    | Answer(rdata: seq<string>)

  /** `resolve`: the MX host for an address, the DNS query being `lookup`. */
  function Resolve(email: string, lookup: string -> LookupAnswer): (r: Resolution)
    ensures '@' !in email ==> r.NoRoute?
    ensures '@' in email ==>
      var answer := lookup(ExtractDomain(email).value);
      && (answer.InvalidName? ==> r.NoRoute?)
      && (answer.NoAnswer? ==> r == Fault(NullAnswer))
      && (answer.Answer? ==> r == ChooseBestRecord(answer.rdata))
  {
    match ExtractDomain(email)
    case None => NoRoute
    case Some(domain) =>
      match lookup(domain)
      case InvalidName => NoRoute
      case NoAnswer => Fault(NullAnswer)
      case Answer(rs) => if |rs| == 0 then NoRoute else ChooseBestRecord(rs)
  }

  /** Without an '@' the lookup is never consulted. */
  lemma ResolveWithoutAtSkipsLookup(email: string, lookup1: string -> LookupAnswer, lookup2: string -> LookupAnswer)
    requires '@' !in email
    ensures Resolve(email, lookup1) == Resolve(email, lookup2) == NoRoute
  {
  }

  /** Decoding a three-record answer decodes each record in place. */
  lemma DecodeEachOfThree(rs: seq<string>)
    requires |rs| == 3
    ensures DecodeEach(rs) == [DecodeRecord(rs[0]), DecodeRecord(rs[1]), DecodeRecord(rs[2])]
  {
  }

  /** Three records that each decode give the set of the three. */
  lemma DecodedSetOfThree(rs: seq<string>, a: MxRecord, b: MxRecord, c: MxRecord)
    requires |rs| == 3
    requires DecodeRecord(rs[0]) == Some(a) && DecodeRecord(rs[1]) == Some(b) && DecodeRecord(rs[2]) == Some(c)
    ensures DecodedSet(rs) == {a, b, c}
  {
    DecodeEachOfThree(rs);
    PresentSetOfThree(a, b, c);
  }

  lemma PresentSetOfThree(a: MxRecord, b: MxRecord, c: MxRecord)
    ensures PresentSet([Some(a), Some(b), Some(c)]) == {a, b, c}
  {
    var os := [Some(a), Some(b), Some(c)];
    assert os[1..] == [Some(b), Some(c)];
    assert os[1..][1..] == [Some(c)];
    assert os[1..][1..][1..] == [];
    assert Present(os[1..][1..]) == [c];
    assert Present(os[1..]) == [b, c];
    assert Present(os) == [a, b, c];
  }

  lemma LeastOfThree(a: MxRecord, b: MxRecord, c: MxRecord)
    requires RecordLe(c, a) && RecordLe(c, b) && RecordLe(c, c)
    ensures IsLeast(c, {a, b, c})
  {
  }

  /** Of three decoded records, the one no greater than the other two is
      chosen, its last character cut. */
  lemma ChoiceOfThree(rs: seq<string>, a: MxRecord, b: MxRecord, c: MxRecord)
    requires |rs| == 3
    requires DecodeRecord(rs[0]) == Some(a) && DecodeRecord(rs[1]) == Some(b) && DecodeRecord(rs[2]) == Some(c)
    requires RecordLe(c, a) && RecordLe(c, b) && c.host != []
    ensures ChooseBestRecord(rs) == Host(c.host[..|c.host| - 1])
  {
    DecodedSetOfThree(rs, a, b, c);
    LexLeReflexive(c.host);
    LeastOfThree(a, b, c);
    ChoiceOfLeast(rs, c);
  }

  /** The least decoded record, when its host is not empty, is chosen with
      its last character cut. */
  lemma ChoiceOfLeast(rs: seq<string>, c: MxRecord)
    requires IsLeast(c, DecodedSet(rs)) && c.host != []
    ensures ChooseBestRecord(rs) == Host(c.host[..|c.host| - 1])
  {
    var r := ChooseBestRecord(rs);
    assert r.Host? && c.host == r.name + [c.host[|c.host| - 1]];
    assert c.host[..|c.host| - 1] == r.name;
  }

  /** The worked example's records decode as printed, one lemma per record
      (each stays small for the solver). */
  lemma ExampleRecord10()
    ensures DecodeRecord("10 mx2.example.") == Some(MxRecord(10, "mx2.example."))
  {
    assert ShowInt(10) == "10";
    assert RenderRecord(10, "mx2.example.") == "10 mx2.example.";
    DecodeRenderedRecord(10, "mx2.example.");
  }

  lemma ExampleRecord5a()
    ensures DecodeRecord("5 mx1.example.") == Some(MxRecord(5, "mx1.example."))
  {
    assert RenderRecord(5, "mx1.example.") == "5 mx1.example.";
    DecodeRenderedRecord(5, "mx1.example.");
  }

  lemma ExampleRecord5b()
    ensures DecodeRecord("5 mx0.example.") == Some(MxRecord(5, "mx0.example."))
  {
    assert RenderRecord(5, "mx0.example.") == "5 mx0.example.";
    DecodeRenderedRecord(5, "mx0.example.");
  }

  /** The worked example's hosts: "mx0" sorts first, and the cut drops the
      trailing dot. */
  lemma ExampleHosts()
    ensures LexLe("mx0.example.", "mx1.example.")
    ensures var h := "mx0.example."; h[..|h| - 1] == "mx0.example"
  {
  }

  /** The worked example: preference 5 wins and "mx0" is the smaller of its
      two hosts; the trailing dot is cut. */
  lemma ExampleChoice()
    ensures ChooseBestRecord(["10 mx2.example.", "5 mx1.example.", "5 mx0.example."]) == Host("mx0.example")
  {
    var a, b, c := MxRecord(10, "mx2.example."), MxRecord(5, "mx1.example."), MxRecord(5, "mx0.example.");
    ExampleRecord10();
    ExampleRecord5a();
    ExampleRecord5b();
    ExampleHosts();
    assert RecordLe(c, a) && RecordLe(c, b);
    ChoiceOfThree(["10 mx2.example.", "5 mx1.example.", "5 mx0.example."], a, b, c);
  }
}
