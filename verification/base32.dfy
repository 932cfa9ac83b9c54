/** Java's `BigInteger.toString(32)` for non-negative values: the rendering
    of a reply token's random part. */
module Base32 {

  /** Digits used by `Character.forDigit(d, 32)`. */
  const Alphabet: string := "0123456789abcdefghijklmnopqrstuv"

  /** `new BigInteger(130, random)` is always below this bound. */
  const TokenBound: nat := Pow2(130)

  predicate IsDigit(c: char)
  {
    '0' <= c <= '9' || 'a' <= c <= 'v'
  }

  function Digit(d: nat): (c: char)
    requires d < 32
    ensures IsDigit(c)
    ensures DigitValue(c) == d
  {
    Alphabet[d]
  }

  /** Inverse of `Digit` on the alphabet. */
  function DigitValue(c: char): nat
  {
    if '0' <= c <= '9' then c as int - '0' as int
    else if 'a' <= c <= 'v' then c as int - 'a' as int + 10
    else 0
  }

  /** The base-32 rendering of `n`, most significant digit first. */
  function ToBase32(n: nat): (s: string)
    ensures |s| >= 1
    ensures forall i :: 0 <= i < |s| ==> IsDigit(s[i])
    ensures s[0] == '0' <==> n == 0
    decreases n
  {
    if n < 32 then [Digit(n)] else ToBase32(n / 32) + [Digit(n % 32)]
  }

  /** Reads a base-32 numeral back. */
  function FromBase32(s: string): nat
  {
    if s == [] then 0 else FromBase32(s[..|s| - 1]) * 32 + DigitValue(s[|s| - 1])
  }

  function Pow2(k: nat): nat
  {
    if k == 0 then 1 else 2 * Pow2(k - 1)
  }

  function Pow32(k: nat): nat
  {
    if k == 0 then 1 else 32 * Pow32(k - 1)
  }

  lemma {:induction false} Pow32IsPow2(k: nat)
    ensures Pow32(k) == Pow2(5 * k)
  {
    if k > 0 {
      Pow32IsPow2(k - 1);
      var j := 5 * (k - 1);
      assert Pow2(j + 5) == 2 * Pow2(j + 4) == 4 * Pow2(j + 3) == 8 * Pow2(j + 2) == 16 * Pow2(j + 1) == 32 * Pow2(j);
    }
  }

  /** Reading the rendering back gives the number. */
  lemma {:induction false} FromToBase32(n: nat)
    ensures FromBase32(ToBase32(n)) == n
    decreases n
  {
    var s := ToBase32(n);
    if n >= 32 {
      FromToBase32(n / 32);
      assert s[..|s| - 1] == ToBase32(n / 32);
    }
  }

  /** Distinct numbers render to distinct numerals. */
  lemma ToBase32Injective(m: nat, n: nat)
    requires ToBase32(m) == ToBase32(n)
    ensures m == n
  {
    FromToBase32(m);
    FromToBase32(n);
  }

  /** A number below 32^k renders in at most k digits (one at least). */
  lemma {:induction false} ToBase32Length(n: nat, k: nat)
    requires k >= 1 && n < Pow32(k)
    ensures |ToBase32(n)| <= k
    decreases n
  {
    if n >= 32 {
      ToBase32Length(n / 32, k - 1);
    }
  }

  /** A random part of a reply token has at most 26 digits, none of them '@'. */
  lemma TokenDigits(n: nat)
    requires n < TokenBound
    ensures |ToBase32(n)| <= 26
    ensures '@' !in ToBase32(n)
  {
    Pow32IsPow2(26);
    ToBase32Length(n, 26);
  }
}
