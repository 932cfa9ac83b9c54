/** String helpers shared by the resolver, the message factory and the
    acceptance gate. Strings are sequences of characters; Java's UTF-16
    code units are not modelled. */
module Text {

  /** Position of the first `c` in `s`, or `|s|` when `s` has none. */
  function IndexOf(s: string, c: char): (i: nat)
    ensures i <= |s|
    ensures i < |s| ==> s[i] == c
    ensures c !in s[..i]
    ensures i == |s| <==> c !in s
  {
    if s == [] then 0
    else if s[0] == c then 0
    else
      var j := IndexOf(s[1..], c);
      assert s[..j + 1] == [s[0]] + s[1..][..j];
      j + 1
  }

  /** The pieces of `s` between occurrences of `c`, empty pieces included:
      the splitting loop of Java's `String.split` before it trims. */
  function Pieces(s: string, c: char): (ps: seq<string>)
    ensures |ps| >= 1
    ensures forall k :: 0 <= k < |ps| ==> c !in ps[k]
    ensures Join(ps, c) == s
    decreases |s|
  {
    var i := IndexOf(s, c);
    if i == |s| then [s]
    else
      var rest := Pieces(s[i + 1..], c);
      var ps := [s[..i]] + rest;
      assert ps[1..] == rest;
      assert s == s[..i] + [c] + s[i + 1..];
      ps
  }

  /** Joins `parts` with the separator `c` in between. */
  function Join(parts: seq<string>, c: char): string
  {
    if parts == [] then []
    else if |parts| == 1 then parts[0]
    else parts[0] + [c] + Join(parts[1..], c)
  }

  /** Joining one more part adds the separator and the part at the end. */
  lemma {:induction false} JoinAppend(parts: seq<string>, x: string, c: char)
    requires |parts| >= 1
    ensures Join(parts + [x], c) == Join(parts, c) + [c] + x
  {
    if |parts| > 1 {
      assert (parts + [x])[1..] == parts[1..] + [x];
      JoinAppend(parts[1..], x, c);
    }
  }

  /** Splitting a joined sequence on its separator gives the parts back. */
  lemma {:induction false} PiecesOfJoin(parts: seq<string>, c: char)
    requires |parts| >= 1
    requires forall k :: 0 <= k < |parts| ==> c !in parts[k]
    ensures Pieces(Join(parts, c), c) == parts
  {
    if |parts| > 1 {
      var s := Join(parts, c);
      var rest := Join(parts[1..], c);
      assert s == parts[0] + ([c] + rest);
      IndexAfterPrefix(parts[0], c, [c] + rest);
      assert s[..|parts[0]|] == parts[0];
      assert s[|parts[0]| + 1..] == rest;
      PiecesOfJoin(parts[1..], c);
    }
  }

  /** The first `c` of `p + t` is the first of `t` when `p` has none. */
  lemma IndexAfterPrefix(p: string, c: char, t: string)
    requires c !in p
    requires |t| > 0 && t[0] == c
    ensures IndexOf(p + t, c) == |p|
  {
    var s := p + t;
    assert s[|p|] == c;
    assert s[..|p|] == p;
  }

  /** Java `String.compareTo(b) <= 0`: lexicographic, a proper prefix first. */
  predicate LexLe(a: string, b: string): (r: bool)
    ensures a <= b ==> r
    ensures r && a != [] ==> b != [] && a[0] <= b[0]
  {
    if a == [] then true
    else if b == [] then false
    else if a[0] != b[0] then a[0] < b[0]
    else LexLe(a[1..], b[1..])
  }

  lemma {:induction false} LexLeReflexive(a: string)
    ensures LexLe(a, a)
  {
    if a != [] {
      LexLeReflexive(a[1..]);
    }
  }

  lemma {:induction false} LexLeTotal(a: string, b: string)
    ensures LexLe(a, b) || LexLe(b, a)
  {
    if a != [] && b != [] && a[0] == b[0] {
      LexLeTotal(a[1..], b[1..]);
    }
  }

  lemma {:induction false} LexLeAntisymmetric(a: string, b: string)
    requires LexLe(a, b) && LexLe(b, a)
    ensures a == b
  {
    if a != [] && b != [] {
      LexLeAntisymmetric(a[1..], b[1..]);
      assert a == [a[0]] + a[1..];
      assert b == [b[0]] + b[1..];
    }
  }

  lemma {:induction false} LexLeTransitive(a: string, b: string, c: string)
    requires LexLe(a, b) && LexLe(b, c)
    ensures LexLe(a, c)
  {
    if a != [] && b != [] && c != [] && a[0] == b[0] && b[0] == c[0] {
      LexLeTransitive(a[1..], b[1..], c[1..]);
    }
  }

  /** `a` is a proper prefix of `b` at the first `i` characters and then
      has the smaller character. */
  predicate SmallerAt(a: string, b: string, i: nat)
  {
    i < |a| && i < |b| && a[..i] == b[..i] && a[i] < b[i]
  }

  /** The order is the textbook one: `a` is a prefix of `b`, or the first
      character where they differ is smaller in `a`. */
  lemma {:induction false} LexLeFirstDifference(a: string, b: string)
    ensures LexLe(a, b) <==> a <= b || exists i: nat :: SmallerAt(a, b, i)
  {
    if a == [] || b == [] {
    } else if a[0] != b[0] {
      assert !(a <= b);
      if a[0] < b[0] {
        assert SmallerAt(a, b, 0);
      } else {
        assert forall i: nat :: i > 0 && SmallerAt(a, b, i) ==> a[..i][0] == b[..i][0];
      }
    } else {
      LexLeFirstDifference(a[1..], b[1..]);
      assert a == [a[0]] + a[1..] && b == [b[0]] + b[1..];
      assert a <= b <==> a[1..] <= b[1..];
      forall i: nat | SmallerAt(a, b, i)
        ensures i > 0 && SmallerAt(a[1..], b[1..], i - 1)
      {
        if i == 0 {
          assert false;
        }
        assert a[1..][..i - 1] == a[..i][1..];
        assert b[1..][..i - 1] == b[..i][1..];
      }
      forall j: nat | SmallerAt(a[1..], b[1..], j)
        ensures SmallerAt(a, b, j + 1)
      {
        assert a[..j + 1] == [a[0]] + a[1..][..j];
        assert b[..j + 1] == [b[0]] + b[1..][..j];
      }
    }
  }

  /** Java `Character.toUpperCase` restricted to ASCII letters. */
  function UpperAscii(c: char): char
  {
    if 'a' <= c <= 'z' then (c as int - 32) as char else c
  }

  /** Java `Character.toLowerCase` restricted to ASCII letters. */
  function LowerAscii(c: char): char
  {
    if 'A' <= c <= 'Z' then (c as int + 32) as char else c
  }

  /** The per-character test of Java's `String.regionMatches(true, ...)`. */
  predicate CharEqualsIgnoreCase(c: char, d: char)
  {
    c == d || UpperAscii(c) == UpperAscii(d) || LowerAscii(UpperAscii(c)) == LowerAscii(UpperAscii(d))
  }

  /** Java `String.equalsIgnoreCase` (ASCII case mapping). */
  predicate EqualsIgnoreCase(a: string, b: string): (r: bool)
    ensures a == b ==> r
    ensures r ==> |a| == |b|
  {
    |a| == |b| && forall i :: 0 <= i < |a| ==> CharEqualsIgnoreCase(a[i], b[i])
  }

  /** Lower-cases every ASCII letter of `s`. */
  function ToLowerAscii(s: string): (r: string)
    ensures |r| == |s|
    ensures forall i :: 0 <= i < |s| ==> r[i] == LowerAscii(s[i])
  {
    seq(|s|, i requires 0 <= i < |s| => LowerAscii(s[i]))
  }

  /** Case-insensitive equality is equality after lower-casing. */
  lemma EqualsIgnoreCaseIsLowerEquality(a: string, b: string)
    ensures EqualsIgnoreCase(a, b) <==> ToLowerAscii(a) == ToLowerAscii(b)
  {
    if ToLowerAscii(a) == ToLowerAscii(b) {
      assert |a| == |b|;
      forall i | 0 <= i < |a|
        ensures CharEqualsIgnoreCase(a[i], b[i])
      {
        assert ToLowerAscii(a)[i] == ToLowerAscii(b)[i];
      }
    }
  }
}
