/**
 * The two conversions a JSON number goes through before it is stored as a
 * field value: the narrowing `get<int>()` to a 32-bit `int`, and
 * `std::to_string(int)`, which writes it in decimal.
 */
module Decimal {

  const Int32Min: int := -0x8000_0000
  const Int32Max: int := 0x7fff_ffff
  const Int32Span: int := 0x1_0000_0000

  /** Converting a 64-bit integer to a 32-bit `int` keeps it modulo 2^32. */
  function ToInt32(n: int): (r: int)
    ensures Int32Min <= r <= Int32Max
    ensures (r - n) % Int32Span == 0
    ensures Int32Min <= n <= Int32Max ==> r == n
  {
    (n - Int32Min) % Int32Span + Int32Min
  }

  predicate IsDigit(c: char) {
    '0' <= c <= '9'
  }

  predicate AllDigits(s: string) {
    forall i :: 0 <= i < |s| ==> IsDigit(s[i])
  }

  function DigitChar(d: nat): (c: char)
    requires d < 10
    ensures IsDigit(c) && c as int - '0' as int == d
  {
    ('0' as int + d) as char
  }

  /** The decimal digits of `n`, most significant first, without leading zeros. */
  function NatText(n: nat): (s: string)
    ensures |s| >= 1 && AllDigits(s)
    ensures s[0] == '0' ==> n == 0 && s == "0"
    decreases n
  {
    if n < 10 then [DigitChar(n)] else NatText(n / 10) + [DigitChar(n % 10)]
  }

  /** The text `std::to_string` writes for an integer: an optional minus sign,
      then at least one digit, no leading zero, and no "-0". */
  predicate Canonical(s: string) {
    |s| >= 1 &&
    var d := if s[0] == '-' then s[1..] else s;
    |d| >= 1 && AllDigits(d) && (d[0] == '0' ==> d == "0" && s[0] != '-')
  }

  /** `std::to_string` of an integer: a minus sign for negative values, then the digits. */
  function IntText(i: int): (s: string)
    ensures Canonical(s)
    ensures (s[0] == '-') <==> i < 0
  {
    if i < 0 then "-" + NatText(-i) else NatText(i)
  }

  /** Reading a string of decimal digits back as a number. */
  function ParseNat(s: string): nat
    requires AllDigits(s)
  {
    if s == [] then 0
    else ParseNat(s[..|s| - 1]) * 10 + (s[|s| - 1] as int - '0' as int)
  }

  /** Reading an optionally signed decimal number back. */
  function ParseInt(s: string): int
    requires |s| >= 1
    requires AllDigits(if s[0] == '-' then s[1..] else s)
  {
    if s[0] == '-' then -(ParseNat(s[1..]) as int) else ParseNat(s)
  }

  lemma {:induction false} NatTextRoundTrip(n: nat)
    ensures ParseNat(NatText(n)) == n
    decreases n
  {
    if n >= 10 {
      var s := NatText(n);
      assert s[..|s| - 1] == NatText(n / 10);
      NatTextRoundTrip(n / 10);
    }
  }

  /** A non-zero leading digit makes the number at least 1. */
  lemma {:induction false} ParseNatPositive(s: string)
    requires |s| >= 1 && AllDigits(s) && s[0] != '0'
    ensures ParseNat(s) >= 1
    decreases |s|
  {
    if |s| > 1 {
      ParseNatPositive(s[..|s| - 1]);
    }
  }

  /** Digits without a leading zero are the text of the number they denote. */
  lemma {:induction false} NatTextUnique(d: string)
    requires |d| >= 1 && AllDigits(d) && (d[0] == '0' ==> d == "0")
    ensures d == NatText(ParseNat(d))
    decreases |d|
  {
    var p := d[..|d| - 1];
    if |d| == 1 {
      assert p == [];
    } else {
      NatTextUnique(p);
      ParseNatPositive(p);
      assert d == p + [d[|d| - 1]];
    }
  }

  /** Canonical text is the only text of its value: `to_string` could have
      written nothing else. */
  lemma CanonicalUnique(s: string)
    requires Canonical(s)
    ensures s == IntText(ParseInt(s))
  {
    if s[0] == '-' {
      NatTextUnique(s[1..]);
      ParseNatPositive(s[1..]);
      assert s == "-" + s[1..];
    } else {
      NatTextUnique(s);
    }
  }

  /** Decimal text identifies the integer it was written from. */
  lemma IntTextRoundTrip(i: int)
    ensures ParseInt(IntText(i)) == i
  {
    if i < 0 {
      NatTextRoundTrip(-i);
      assert IntText(i)[1..] == NatText(-i);
    } else {
      NatTextRoundTrip(i);
    }
  }
}
