/** The helpers of hashtable/misc.go: `min`, `max` and `kv`. */
module Misc {

  /** `min(a, b)`: `b` when `a > b`, otherwise `a`. */
  function Min(a: int, b: int): (r: int)
    ensures r <= a && r <= b
    ensures r == a || r == b
    ensures a > b ==> r == b
    ensures a <= b ==> r == a
  {
    if a > b then b else a
  }

  /** `max(a, b)`: `a` when `a > b`, otherwise `b`. */
  function Max(a: int, b: int): (r: int)
    ensures r >= a && r >= b
    ensures r == a || r == b
    ensures a > b ==> r == a
    ensures a <= b ==> r == b
  {
    if a > b then a else b
  }

  lemma MinPlusMax(a: int, b: int)
    ensures Min(a, b) + Max(a, b) == a + b
  {
  }

  /** The character of a decimal digit. */
  function DigitChar(d: nat): (c: char)
    requires d < 10
    ensures '0' <= c <= '9'
  {
    "0123456789"[d]
  }

  /** The value of a decimal digit character. */
  function DigitValue(c: char): (d: nat)
    requires '0' <= c <= '9'
    ensures d < 10
  {
    (c as int - '0' as int) as nat
  }

  lemma DigitRoundTrip(d: nat)
    requires d < 10
    ensures DigitValue(DigitChar(d)) == d
  {
  }

  predicate IsDigits(s: string) {
    forall i :: 0 <= i < |s| ==> '0' <= s[i] <= '9'
  }

  /** Decimal rendering of a natural number, most significant digit first, no leading zeros. */
  function NatToDecimal(n: nat): (s: string)
    ensures |s| > 0 && IsDigits(s)
    ensures s[0] == '0' ==> n == 0
    decreases n
  {
    if n < 10 then [DigitChar(n)] else NatToDecimal(n / 10) + [DigitChar(n % 10)]
  }

  /** Go's `fmt.Sprintf("%d", i)`: a leading '-' for negative numbers. */
  function Decimal(i: int): (s: string)
    ensures |s| > 0
    ensures s[0] == '-' <==> i < 0
  {
    if i < 0 then "-" + NatToDecimal(-i) else NatToDecimal(i)
  }

  /** Reads a string of decimal digits back into a number. */
  function ParseNat(s: string): (n: nat)
    requires IsDigits(s)
    decreases |s|
  {
    if s == [] then 0 else 10 * ParseNat(s[..|s| - 1]) + DigitValue(s[|s| - 1])
  }

  /** A string `ParseDecimal` accepts: digits, optionally after a leading '-'. */
  predicate Parsable(s: string) {
    |s| > 0 && (if s[0] == '-' then IsDigits(s[1..]) else IsDigits(s))
  }

  /** Reads a rendering produced by `Decimal` back into a number. */
  function ParseDecimal(s: string): (i: int)
    requires Parsable(s)
  {
    if s[0] == '-' then -(ParseNat(s[1..]) as int) else ParseNat(s)
  }

  lemma {:induction false} NatDecimalRoundTrip(n: nat)
    ensures ParseNat(NatToDecimal(n)) == n
    decreases n
  {
    if n < 10 {
      DigitRoundTrip(n);
    } else {
      var s := NatToDecimal(n);
      NatDecimalRoundTrip(n / 10);
      assert s[..|s| - 1] == NatToDecimal(n / 10);
      DigitRoundTrip(n % 10);
    }
  }

  lemma ParseSigned(t: string)
    requires |t| > 0 && IsDigits(t)
    ensures Parsable("-" + t) && ParseDecimal("-" + t) == -(ParseNat(t) as int)
  {
    assert ("-" + t)[1..] == t;
  }

  lemma ParseUnsigned(t: string)
    requires |t| > 0 && IsDigits(t)
    ensures Parsable(t) && ParseDecimal(t) == ParseNat(t)
  {
  }

  lemma NegativeDecimalRoundTrip(i: int)
    requires i < 0
    ensures Parsable(Decimal(i)) && ParseDecimal(Decimal(i)) == i
  {
    var n: nat := -i;
    var t := NatToDecimal(n);
    assert Decimal(i) == "-" + t;
    ParseSigned(t);
    NatDecimalRoundTrip(n);
    assert ParseNat(t) == n;
  }

  lemma NonNegativeDecimalRoundTrip(i: int)
    requires i >= 0
    ensures Parsable(Decimal(i)) && ParseDecimal(Decimal(i)) == i
  {
    ParseUnsigned(NatToDecimal(i));
    NatDecimalRoundTrip(i);
  }

  /** `ParseDecimal` undoes `Decimal`. */
  lemma DecimalRoundTrip(i: int)
    ensures Parsable(Decimal(i)) && ParseDecimal(Decimal(i)) == i
  {
    if i < 0 {
      NegativeDecimalRoundTrip(i);
    } else {
      NonNegativeDecimalRoundTrip(i);
    }
  }

  /** `kv(i)`: the key is the decimal rendering of `i`, the value is "value " followed by it. */
  function Kv(i: int): (r: (string, string))
    ensures r.1 == "value " + r.0
    ensures |r.0| > 0 && (r.0[0] == '-' <==> i < 0)
  {
    (Decimal(i), "value " + Decimal(i))
  }

  /** Distinct indices give distinct keys (and distinct values). */
  lemma KvInjective(i: int, j: int)
    requires i != j
    ensures Kv(i).0 != Kv(j).0 && Kv(i).1 != Kv(j).1
  {
    DecimalRoundTrip(i);
    DecimalRoundTrip(j);
    assert Kv(i).1[6..] == Kv(i).0 && Kv(j).1[6..] == Kv(j).0;
  }
}
