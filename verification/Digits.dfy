// Little-endian positional notation. Kyber's serialisation formats (ByteEncode and ByteDecode in
// section 4.2.1 of FIPS 203) read one and the same integer as bytes and as d-bit values.
module Digits {
  import opened IntFacts

  predicate AreDigits(base: int, s: seq<int>) {
    forall i :: 0 <= i < |s| ==> 0 <= s[i] < base
  }

  /** The integer with these digits, least significant first. */
  function ToNat(base: nat, s: seq<int>): int {
    if s == [] then 0 else s[0] + base * ToNat(base, s[1..])
  }

  /** The n low digits of v. */
  function FromNat(base: nat, n: nat, v: int): (s: seq<int>)
    requires base > 0
    ensures |s| == n && AreDigits(base, s)
  {
    if n == 0 then [] else
      DivMod(v, base);
      [v % base] + FromNat(base, n - 1, v / base)
  }

  lemma {:induction false} ToNatRange(base: nat, s: seq<int>)
    requires AreDigits(base, s)
    ensures 0 <= ToNat(base, s) < Pow(base, |s|)
  {
    if s != [] {
      ToNatRange(base, s[1..]);
      RangeStep(base, s[0], ToNat(base, s[1..]), Pow(base, |s| - 1));
    }
  }

  lemma RangeStep(base: nat, x: int, v: int, p: int)
    requires 0 <= x < base && 0 <= v < p
    ensures 0 <= x + base * v < base * p
  {
    assert base * p == base * v + base * (p - v);
    assert base * v >= 0;
    MulAtLeast(base, p - v);
  }

  /** Digits are determined by the integer and their number. */
  lemma {:induction false} FromNatOfToNat(base: nat, s: seq<int>)
    requires base > 0 && AreDigits(base, s)
    ensures FromNat(base, |s|, ToNat(base, s)) == s
  {
    if s != [] {
      var v := ToNat(base, s[1..]);
      DivUnique(s[0] + base * v, base, v, s[0]);
      FromNatOfToNat(base, s[1..]);
    }
  }

  lemma {:induction false} ToNatOfFromNat(base: nat, n: nat, v: int)
    requires base > 0 && 0 <= v < Pow(base, n)
    ensures ToNat(base, FromNat(base, n, v)) == v
  {
    if n != 0 {
      DivMod(v, base);
      QuotientRange(v, base, Pow(base, n - 1));
      ToNatOfFromNat(base, n - 1, v / base);
      assert FromNat(base, n, v)[1..] == FromNat(base, n - 1, v / base);
    }
  }

  lemma Spread(base: int, a: int, p: int, b: int)
    ensures base * (a + p * b) == base * a + base * p * b
  {
    assert base * (p * b) == base * p * b;
  }

  lemma {:induction false} ToNatConcat(base: nat, s: seq<int>, t: seq<int>)
    ensures ToNat(base, s + t) == ToNat(base, s) + Pow(base, |s|) * ToNat(base, t)
  {
    if s == [] {
      assert s + t == t;
    } else {
      ToNatConcat(base, s[1..], t);
      assert (s + t)[1..] == s[1..] + t;
      Spread(base, ToNat(base, s[1..]), Pow(base, |s| - 1), ToNat(base, t));
    }
  }

  /** The same integer in another base: `n` digits. */
  function Convert(base: nat, n: nat, base': nat, s: seq<int>): (t: seq<int>)
    requires base' > 0
    ensures |t| == n && AreDigits(base', t)
  {
    FromNat(base', n, ToNat(base, s))
  }

  /** Converting back restores the digits when both formats have the same capacity. */
  lemma ConvertBack(base: nat, base': nat, s: seq<int>, n: nat)
    requires base > 0 && base' > 0 && AreDigits(base, s) && Pow(base, |s|) == Pow(base', n)
    ensures Convert(base', |s|, base, Convert(base, n, base', s)) == s
  {
    ToNatRange(base, s);
    ToNatOfFromNat(base', n, ToNat(base, s));
    FromNatOfToNat(base, s);
  }

  /** Two digit strings for the same integer are conversions of each other. */
  lemma ConvertUnique(base: nat, base': nat, s: seq<int>, t: seq<int>)
    requires base' > 0 && AreDigits(base', t) && ToNat(base, s) == ToNat(base', t)
    ensures Convert(base, |t|, base', s) == t
  {
    FromNatOfToNat(base', t);
  }

  /** Equal groups of digits, appended to strings of equal value, keep the values equal. */
  lemma AppendGroup(base: nat, base': nat, s: seq<int>, t: seq<int>, g: seq<int>, h: seq<int>)
    requires ToNat(base, s) == ToNat(base', t) && Pow(base, |s|) == Pow(base', |t|)
    requires ToNat(base, g) == ToNat(base', h) && Pow(base, |g|) == Pow(base', |h|)
    ensures ToNat(base, s + g) == ToNat(base', t + h) && Pow(base, |s + g|) == Pow(base', |t + h|)
  {
    ToNatConcat(base, s, g);
    ToNatConcat(base', t, h);
    PowAdd(base, |s|, |g|);
    PowAdd(base', |t|, |h|);
  }

  /** Digit j by division. */
  lemma {:induction false} DigitByDivision(base: nat, n: nat, v: int, j: nat)
    requires base > 0 && j < n
    ensures Pow(base, j) > 0
    ensures FromNat(base, n, v)[j] == v / Pow(base, j) % base
    decreases j
  {
    PowerPositive(base, j);
    if j != 0 {
      DigitByDivision(base, n - 1, v / base, j - 1);
      DivideTwice(v, base, Pow(base, j - 1));
    }
  }

  lemma {:induction false} PowerPositive(base: nat, j: nat)
    requires base > 0
    ensures Pow(base, j) > 0
  {
    if j != 0 {
      PowerPositive(base, j - 1);
      MulAtLeast(base, Pow(base, j - 1));
    }
  }

  lemma DivideTwice(v: int, a: int, b: int)
    requires a > 0 && b > 0
    ensures a * b > 0 && v / (a * b) == v / a / b
  {
    DivMod(v, a);
    DivMod(v / a, b);
    var q, r, s := v / a / b, v / a % b, v % a;
    MulAtLeast(a, b);
    assert v == a * b * q + (a * r + s) by {
      assert a * (b * q + r) == a * b * q + a * r;
    }
    assert a * (b - r) == a * b - a * r && a * r >= 0;
    MulAtLeast(a, b - r);
    DivUnique(v, a * b, q, a * r + s);
  }
}
