// cbd.c: centred binomial noise, with all fields of a word counted at once.
module Noise {
  import opened MachineInts
  import opened IntFacts
  import opened Digits
  import opened Verify
  import NttCode

  /** The bits of a byte string, in order. */
  function BitString(b: seq<int>): (t: seq<int>)
    ensures |t| == 8 * |b| && AreDigits(2, t)
  {
    Convert(256, 8 * |b|, 2, b)
  }

  function SumBits(t: seq<int>, from: nat, n: nat): int
    requires from + n <= |t|
    decreases n
  {
    if n == 0 then 0 else t[from] + SumBits(t, from + 1, n - 1)
  }

  /** Coefficient i of the noise polynomial: eta bits minus the next eta bits (FIPS 203, section 4.2.2). */
  function NoiseAt(eta: nat, t: seq<int>, i: nat): int
    requires 2 * eta * i + 2 * eta <= |t|
  {
    SumBits(t, 2 * eta * i, eta) - SumBits(t, 2 * eta * i + eta, eta)
  }

  // The masks 0x55555555 and 0x00249249 have a one in the lowest bit of each field.

  function FieldBase(eta: nat): nat {
    if eta == 2 then 4 else 8
  }

  function Mask(eta: nat, n: nat): nat {
    if n == 0 then 0 else 1 + FieldBase(eta) * Mask(eta, n - 1)
  }

  /** The masks of the source: 16 fields of two bits, 8 fields of three bits. */
  lemma MaskValues()
    ensures Mask(2, 16) == 0x5555_5555 && Mask(3, 8) == 0x24_9249
  {
    assert Mask(2, 4) == 0x55 && Mask(3, 4) == 0x249;
    assert Mask(2, 8) == 0x5555;
    assert Mask(2, 12) == 0x55_5555;
  }

  /** The sum of the masked shifts: every field of the result counts the ones in that field of t. */
  function Counts(eta: nat, n: nat, t: int): int {
    if eta == 2 then And(2 * n, t, Mask(2, n)) + And(2 * n, t / 2, Mask(2, n))
    else And(3 * n, t, Mask(3, n)) + And(3 * n, t / 2, Mask(3, n)) + And(3 * n, t / 4, Mask(3, n))
  }

  lemma AndStep(n: nat, x: int, y: int)
    ensures And(n + 1, x, y) == x % 2 * (y % 2) + 2 * And(n, x / 2, y / 2)
  {
  }

  /** A field bit of the mask passes the lowest bit; a zero bit passes nothing. */
  lemma AndOne(n: nat, x: int, m: int)
    ensures And(n + 1, x, 1 + 2 * m) == x % 2 + 2 * And(n, x / 2, m)
    ensures And(n + 1, x, 2 * m) == 2 * And(n, x / 2, m)
  {
    hide And;
    AndStep(n, x, 1 + 2 * m);
    AndStep(n, x, 2 * m);
    assert (1 + 2 * m) % 2 == 1 && (1 + 2 * m) / 2 == m && 2 * m % 2 == 0 && 2 * m / 2 == m;
  }

  lemma AndField2(n: nat, t: int, m: int)
    ensures And(2 * n + 2, t, 1 + 4 * m) == t % 2 + 4 * And(2 * n, t / 4, m)
  {
    hide And;
    AndOne(2 * n + 1, t, 2 * m);
    AndOne(2 * n, t / 2, m);
    Halves(t);
  }

  lemma AndField3(n: nat, t: int, m: int)
    ensures And(3 * n + 3, t, 1 + 8 * m) == t % 2 + 8 * And(3 * n, t / 8, m)
  {
    hide And;
    AndOne(3 * n + 2, t, 4 * m);
    AndOne(3 * n + 1, t / 2, 2 * m);
    AndOne(3 * n, t / 4, m);
    Halves(t);
  }

  lemma Halves(t: int)
    ensures t / 2 / 2 == t / 4 && t / 4 / 2 == t / 8
  {
  }

  /** The lowest field of the counts, and the rest. */
  lemma CountsStep(eta: nat, n: nat, t: int)
    requires eta == 2 || eta == 3
    ensures Counts(2, n + 1, t) == t % 2 + t / 2 % 2 + 4 * Counts(2, n, t / 4)
    ensures Counts(3, n + 1, t) == t % 2 + t / 2 % 2 + t / 4 % 2 + 8 * Counts(3, n, t / 8)
  {
    hide And;
    AndField2(n, t, Mask(2, n));
    AndField2(n, t / 2, Mask(2, n));
    AndField3(n, t, Mask(3, n));
    AndField3(n, t / 2, Mask(3, n));
    AndField3(n, t / 4, Mask(3, n));
    assert t / 2 / 4 == t / 4 / 2 && t / 2 / 8 == t / 8 / 2 && t / 4 / 8 == t / 8 / 4;
  }

  /** The counts at most eta fit their fields, so the sums of masked words carry nothing over. */
  lemma {:induction false} CountsRange(eta: nat, n: nat, t: int)
    requires eta == 2 || eta == 3
    ensures 0 <= Counts(eta, n, t) < Pow(FieldBase(eta), n)
  {
    hide And, Mask;
    if n == 0 {
      CountsNothing(t);
    } else {
      CountsRange(eta, n - 1, t / FieldBase(eta));
      CountsStep(eta, n - 1, t);
      var c := if eta == 2 then t % 2 + t / 2 % 2 else t % 2 + t / 2 % 2 + t / 4 % 2;
      RangeStep(FieldBase(eta), c, Counts(eta, n - 1, t / FieldBase(eta)), Pow(FieldBase(eta), n - 1));
    }
  }

  lemma CountsNothing(t: int)
    ensures Counts(2, 0, t) == 0 && Counts(3, 0, t) == 0
  {
  }

  lemma {:induction false} SumBitsEqual(s: seq<int>, f: nat, t: seq<int>, g: nat, n: nat)
    requires f + n <= |s| && g + n <= |t| && s[f..f + n] == t[g..g + n]
    ensures SumBits(s, f, n) == SumBits(t, g, n)
    decreases n
  {
    if n != 0 {
      assert s[f] == s[f..f + n][0] && t[g] == t[g..g + n][0];
      assert s[f + 1..f + n] == s[f..f + n][1..] && t[g + 1..g + n] == t[g..g + n][1..];
      SumBitsEqual(s, f + 1, t, g + 1, n - 1);
    }
  }

  /** The lowest eta bits, and the rest. */
  lemma LowField(eta: nat, m: nat, t: int)
    requires eta == 2 || eta == 3
    ensures FromNat(2, m + 2, t) == [t % 2, t / 2 % 2] + FromNat(2, m, t / 4)
    ensures FromNat(2, m + 3, t) == [t % 2, t / 2 % 2, t / 4 % 2] + FromNat(2, m, t / 8)
  {
    assert t / 2 / 2 == t / 4 && t / 4 / 2 == t / 8;
    assert FromNat(2, m + 3, t) == [t % 2] + FromNat(2, m + 2, t / 2);
    assert FromNat(2, m + 2, t / 2) == [t / 2 % 2] + FromNat(2, m + 1, t / 4);
    assert FromNat(2, m + 1, t / 4) == [t / 4 % 2] + FromNat(2, m, t / 8);
    assert FromNat(2, m + 2, t) == [t % 2] + FromNat(2, m + 1, t / 2);
    assert FromNat(2, m + 1, t / 2) == [t / 2 % 2] + FromNat(2, m, t / 4);
  }

  /** Splitting off the lowest field of the counts and of the bits. */
  lemma FieldStep(eta: nat, n: nat, m: nat, t: int)
    requires (eta == 2 || eta == 3) && n > 0 && m >= eta
    ensures var b, t' := FieldBase(eta), t / FieldBase(eta); var bits := FromNat(2, m, t);
            && FromNat(b, n, Counts(eta, n, t)) == [SumBits(bits, 0, eta)] + FromNat(b, n - 1, Counts(eta, n - 1, t'))
            && bits[eta..] == FromNat(2, m - eta, t')
  {
    hide And, Mask, Counts;
    var b, d := FieldBase(eta), Counts(eta, n, t);
    var d', bits := Counts(eta, n - 1, t / b), FromNat(2, m, t);
    CountsStep(eta, n - 1, t);
    LowField(eta, m - eta, t);
    FirstField(eta, bits);
    DivUnique(d, b, d', SumBits(bits, 0, eta));
  }

  lemma OneLess(eta: int, n: int)
    ensures eta * (n - 1) == eta * n - eta
  {
  }

  lemma RestOfBits(bits: seq<int>, eta: nat, o: nat)
    requires eta <= o && o + eta <= |bits|
    ensures bits[eta..][o - eta..o] == bits[o..o + eta]
  {
    var t := bits[eta..];
    var x, y := t[o - eta..o], bits[o..o + eta];
    forall i | 0 <= i < |x|
      ensures x[i] == y[i]
    {
      assert t[o - eta + i] == bits[o + i];
    }
  }

  /** Field k of the counts is the number of ones among bits eta*k to eta*k + eta - 1. */
  lemma {:induction false} CountsAreSums(eta: nat, n: nat, m: nat, t: int, k: nat, o: nat)
    requires (eta == 2 || eta == 3) && k < n && m == eta * n && o == eta * k && o + eta <= m
    ensures FromNat(FieldBase(eta), n, Counts(eta, n, t))[k] == SumBits(FromNat(2, m, t), o, eta)
    decreases n
  {
    hide And, Mask, Counts, SumBits, FromNat;
    FieldStep(eta, n, m, t);
    if k != 0 {
      OneLess(eta, n);
      OneLess(eta, k);
      var t', bits := t / FieldBase(eta), FromNat(2, m, t);
      CountsAreSums(eta, n - 1, m - eta, t', k - 1, o - eta);
      RestOfBits(bits, eta, o);
      SumBitsEqual(FromNat(2, m - eta, t'), o - eta, bits, o, eta);
    }
  }

  lemma FirstField(eta: nat, bits: seq<int>)
    requires (eta == 2 || eta == 3) && |bits| >= eta
    ensures SumBits(bits, 0, eta) == if eta == 2 then bits[0] + bits[1] else bits[0] + bits[1] + bits[2]
  {
  }

  lemma {:induction false} BytesToBits(n: nat)
    ensures Pow(256, n) == Pow(2, 8 * n)
  {
    if n != 0 {
      BytesToBits(n - 1);
      assert Pow(2, 8) == 256;
      PowAdd(2, 8, 8 * n - 8);
    }
  }

  /** The bits of a concatenation. */
  lemma BitStringConcat(b: seq<int>, g: seq<int>)
    requires AreDigits(256, b) && AreDigits(256, g)
    ensures BitString(b + g) == BitString(b) + BitString(g)
  {
    hide ToNat, Pow;
    BitsHaveValue(b);
    BitsHaveValue(g);
    BytesToBits(|b|);
    ToNatConcat(256, b, g);
    ToNatConcat(2, BitString(b), BitString(g));
    ConvertUnique(256, 2, b + g, BitString(b) + BitString(g));
  }

  lemma BitsHaveValue(b: seq<int>)
    requires AreDigits(256, b)
    ensures ToNat(2, BitString(b)) == ToNat(256, b)
  {
    hide ToNat, Pow;
    ToNatRange(256, b);
    BytesToBits(|b|);
    ToNatOfFromNat(2, 8 * |b|, ToNat(256, b));
  }

  /** Bytes in one word, and coefficients made from it. */
  function WordBytes(eta: nat): nat {
    if eta == 2 then 4 else 3
  }

  function WordCoefficients(eta: nat): nat {
    if eta == 2 then 8 else 4
  }

  /** Coefficient j of a word: the difference of two neighbouring fields of the counts. */
  lemma WordCoefficient(eta: nat, w: seq<int>, j: nat, p: int)
    requires (eta == 2 || eta == 3) && |w| == WordBytes(eta) && j < WordCoefficients(eta)
    requires p == Pow(FieldBase(eta), 2 * j)
    ensures p > 0
    ensures var b := FieldBase(eta); var d := Counts(eta, 2 * WordCoefficients(eta), ToNat(256, w));
            d / p % b - d / (p * b) % b == NoiseAt(eta, BitString(w), j)
  {
    hide Counts, ToNat, SumBits, FromNat, Pow;
    var b, n, m, t := FieldBase(eta), 2 * WordCoefficients(eta), 8 * WordBytes(eta), ToNat(256, w);
    var d := Counts(eta, n, t);
    DigitByDivision(b, n, d, 2 * j);
    DigitByDivision(b, n, d, 2 * j + 1);
    PowerNext(b, 2 * j);
    CountsAreSums(eta, n, m, t, 2 * j, 2 * eta * j);
    CountsAreSums(eta, n, m, t, 2 * j + 1, 2 * eta * j + eta);
  }

  lemma PowerNext(b: nat, j: nat)
    ensures Pow(b, j + 1) == Pow(b, j) * b && Pow(b, j + 2) == Pow(b, j) * b * b
  {
    PowAdd(b, j, 1);
    PowAdd(b, j, 2);
    assert Pow(b, 1) == b && Pow(b, 2) == b * b;
    assert Pow(b, j) * (b * b) == Pow(b, j) * b * b;
  }

  lemma {:induction false} SumBitsRange(t: seq<int>, f: nat, n: nat)
    requires f + n <= |t| && AreDigits(2, t)
    ensures 0 <= SumBits(t, f, n) <= n
    decreases n
  {
    if n != 0 {
      SumBitsRange(t, f + 1, n - 1);
    }
  }

  /** Noise coefficients lie in [-eta, eta]. */
  lemma NoiseRange(eta: nat, t: seq<int>, i: nat)
    requires (eta == 2 || eta == 3) && 2 * eta * i + 2 * eta <= |t| && AreDigits(2, t)
    ensures -NoiseAt(eta, t, i) <= eta && NoiseAt(eta, t, i) <= eta
  {
    SumBitsRange(t, 2 * eta * i, eta);
    SumBitsRange(t, 2 * eta * i + eta, eta);
  }

  /** A word inside a longer string contributes its own coefficients. */
  lemma NoiseInWord(eta: nat, s: seq<int>, w: seq<int>, o: nat, i: nat, j: nat)
    requires (eta == 2 || eta == 3) && j <= i && o == 2 * eta * (i - j)
    requires 2 * eta * j + 2 * eta <= |w| && o + |w| <= |s| && s[o..o + |w|] == w
    ensures 2 * eta * i + 2 * eta <= |s|
    ensures NoiseAt(eta, s, i) == NoiseAt(eta, w, j)
  {
    hide SumBits;
    var f := 2 * eta * j;
    assert 2 * eta * i == o + f;
    assert s[o + f..o + f + eta] == w[f..f + eta] by { SubSlice(s, w, o, f, eta); }
    assert s[o + f + eta..o + f + 2 * eta] == w[f + eta..f + 2 * eta] by { SubSlice(s, w, o, f + eta, eta); }
    SumBitsEqual(s, o + f, w, f, eta);
    SumBitsEqual(s, o + f + eta, w, f + eta, eta);
  }

  lemma SubSlice(s: seq<int>, w: seq<int>, o: nat, f: nat, n: nat)
    requires f + n <= |w| && o + |w| <= |s| && s[o..o + |w|] == w
    ensures s[o + f..o + f + n] == w[f..f + n]
  {
    var x, y := s[o + f..o + f + n], w[f..f + n];
    forall i | 0 <= i < n
      ensures x[i] == y[i]
    {
      assert y[i] == s[o..o + |w|][f + i];
    }
  }

  /** The bits of word k of a byte string. */
  lemma BitsOfWord(b: seq<int>, o: nat, n: nat)
    requires AreDigits(256, b) && o + n <= |b|
    ensures BitString(b)[8 * o..8 * o + 8 * n] == BitString(b[o..o + n])
  {
    hide Convert, ToNat, Pow;
    var x, y, z := b[..o], b[o..o + n], b[o + n..];
    assert b == x + y + z;
    BitStringConcat(x + y, z);
    BitStringConcat(x, y);
    hide BitString;
    assert (BitString(x) + BitString(y) + BitString(z))[8 * o..8 * o + 8 * n] == BitString(y);
  }

  /** Bit p of a byte string, lowest bit of the first byte first. */
  function ByteBit(b: seq<int>, p: nat): int
    requires p < 8 * |b|
  {
    TwoPower(p % 8);
    b[p / 8] / Pow(2, p % 8) % 2
  }

  lemma TwoPower(n: nat)
    ensures Pow(2, n) > 0
  {
    PowerPositive(2, n);
  }

  lemma BitStringAt(b: seq<int>, p: nat)
    requires AreDigits(256, b) && p < 8 * |b|
    ensures BitString(b)[p] == ByteBit(b, p)
  {
    hide BitString, Pow, FromNat;
    var o := p / 8;
    BitsOfWord(b, o, 1);
    assert b[o..o + 1] == [b[o]];
    BitOfByte(b[o], p % 8);
    assert BitString(b)[8 * o..8 * o + 8][p % 8] == BitString(b)[p];
  }

  lemma BitOfByte(x: int, j: nat)
    requires j < 8
    ensures Pow(2, j) > 0 && BitString([x])[j] == x / Pow(2, j) % 2
  {
    hide Pow, FromNat;
    assert ToNat(256, [x]) == x;
    DigitByDivision(2, 8, x, j);
  }

  /** Coefficient c from the bits themselves: eta bits minus the next eta. */
  function BinomialAt(eta: nat, b: seq<int>, c: nat): int
    requires (eta == 2 || eta == 3) && |b| == 64 * eta && c < 256
  {
    if eta == 2 then
      ByteBit(b, 4 * c) + ByteBit(b, 4 * c + 1) - ByteBit(b, 4 * c + 2) - ByteBit(b, 4 * c + 3)
    else
      ByteBit(b, 6 * c) + ByteBit(b, 6 * c + 1) + ByteBit(b, 6 * c + 2)
      - ByteBit(b, 6 * c + 3) - ByteBit(b, 6 * c + 4) - ByteBit(b, 6 * c + 5)
  }

  lemma NoiseIsBinomial(eta: nat, b: seq<int>, c: nat)
    requires (eta == 2 || eta == 3) && AreDigits(256, b) && |b| == 64 * eta && c < 256
    ensures NoiseAt(eta, BitString(b), c) == BinomialAt(eta, b, c)
  {
    hide BitString, ByteBit, AreDigits;
    var t, o := BitString(b), 2 * eta * c;
    forall p: nat | p < |t|
      ensures t[p] == ByteBit(b, p)
    {
      BitStringAt(b, p);
    }
    SumOfFew(t, o, eta);
    SumOfFew(t, o + eta, eta);
  }

  lemma SumOfFew(t: seq<int>, o: nat, eta: nat)
    requires (eta == 2 || eta == 3) && o + eta <= |t|
    ensures SumBits(t, o, eta) == t[o] + t[o + 1] + if eta == 2 then 0 else t[o + 2]
  {
    hide SumBits;
    SumStep(t, o, eta);
    SumStep(t, o + 1, eta - 1);
    if eta == 3 {
      SumStep(t, o + 2, 1);
    }
    SumStep(t, o + eta, 0);
  }

  lemma SumStep(t: seq<int>, o: nat, n: nat)
    requires o + n <= |t|
    ensures SumBits(t, o, n) == if n == 0 then 0 else t[o] + SumBits(t, o + 1, n - 1)
  {
  }

  lemma WordNoise(eta: nat, b: seq<int>, i: nat, j: nat, k: nat)
    requires (eta == 2 || eta == 3) && AreDigits(256, b) && |b| == 64 * eta && j < WordCoefficients(eta)
    requires k == WordCoefficients(eta) * i + j < 256
    ensures WordBytes(eta) * i + WordBytes(eta) <= |b|
    ensures 2 * eta * k + 2 * eta <= 8 * |b| && 2 * eta * j + 2 * eta <= 8 * WordBytes(eta)
    ensures NoiseAt(eta, BitString(b), k) == NoiseAt(eta, BitString(b[WordBytes(eta) * i..WordBytes(eta) * i + WordBytes(eta)]), j)
  {
    hide BitString, NoiseAt, AreDigits;
    var o, n := WordBytes(eta) * i, WordBytes(eta);
    BitsOfWord(b, o, n);
    NoiseInWord(eta, BitString(b), BitString(b[o..o + n]), 8 * o, k, j);
  }

  /** cbd.c:58-107: `cbd2` and `cbd3`, chosen by eta as in `poly_cbd_eta1`. */
  method CentredBinomial(r: array<int16>, buf: array<byte>, eta: nat)
    requires r.Length == 256 && (eta == 2 || eta == 3) && buf.Length == 64 * eta
    modifies r
    ensures forall k :: 0 <= k < 256 ==> r[k] == NoiseAt(eta, BitString(buf[..]), k)
    ensures NttCode.Within(r[..], eta)
  {
    hide NoiseAt, BitString, Counts, ToNat, AreDigits, Pow;
    ghost var bytes := buf[..];
    ghost var bits := BitString(bytes);
    var n, c, base := WordBytes(eta), WordCoefficients(eta), FieldBase(eta);
    DigitsOfBytes(bytes);
    var i := 0;
    while i < 256 / c
      invariant 0 <= i <= 256 / c
      invariant forall k :: 0 <= k < c * i ==> r[k] == NoiseAt(eta, bits, k)
    {
      WordNoise(eta, bytes, i, 0, c * i);
      var w := buf[n * i..n * i + n];
      assert w == bytes[n * i..n * i + n];
      var d := Counts(eta, 2 * c, ToNat(256, w));
      var j, p := 0, 1;
      PowerAtZero(base);
      while j < c
        invariant 0 <= j <= c && p == Pow(base, 2 * j) && p > 0
        invariant forall k :: 0 <= k < c * i + j ==> r[k] == NoiseAt(eta, bits, k)
      {
        WordNoise(eta, bytes, i, j, c * i + j);
        WordCoefficient(eta, w, j, p);
        NoiseRange(eta, bits, c * i + j);
        r[c * i + j] := d / p % base - d / (p * base) % base;
        PowerNext(base, 2 * j);
        j, p := j + 1, p * base * base;
      }
      i := i + 1;
    }
    forall k | 0 <= k < 256
      ensures -r[k] <= eta && r[k] <= eta
    {
      NoiseRange(eta, bits, k);
    }
  }

  lemma PowerAtZero(b: nat)
    ensures Pow(b, 0) == 1
  {
  }

  lemma DigitsOfBytes(b: seq<byte>)
    ensures AreDigits(256, b)
  {
  }
}
