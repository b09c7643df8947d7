// The bit packing of poly.c and polyvec.c, group by group: a group of bytes and the group of values
// packed into it are the digits of one integer, in base 256 and in base 2^d. The `|` of shifted fields
// is written as a sum, since the fields do not overlap; every store into a byte is taken modulo 256.
module Packing {
  import opened IntFacts
  import opened Digits

  /** `x >> w` for k = 2^w. */
  function Shr(x: int, k: int): int
    requires k > 0
  {
    x / k
  }

  /** The low bits of x: `x & (k - 1)`, or the conversion to an unsigned type with k values. */
  function Low(x: int, k: int): int
    requires k > 0
  {
    x % k
  }

  lemma Cut(x: int, k: int)
    requires k > 0
    ensures x == k * Shr(x, k) + Low(x, k)
    ensures 0 <= Low(x, k) < k
  {
    DivMod(x, k);
  }

  lemma ShrRange(x: int, k: int, n: int)
    requires k > 0 && 0 <= x < k * n
    ensures 0 <= Shr(x, k) < n
  {
    QuotientRange(x, k, n);
  }

  /** Truncation cuts the upper field: lo + w*t keeps the low bits of t, where m = w*k. */
  lemma LowBits(x: int, lo: int, t: int, w: int, k: int, m: int)
    requires 0 <= lo < w && k > 0 && x == lo + w * t && m == w * k
    ensures Low(x, m) == lo + w * Low(t, k)
  {
    DivMod(t, k);
    var q, r := t / k, t % k;
    assert lo + w * t == w * k * q + (lo + w * r) by {
      assert w * (k * q + r) == w * k * q + w * r;
    }
    assert w * (k - r) == w * k - w * r && w * r >= 0;
    MulAtLeast(w, k - r);
    DivUnique(lo + w * t, w * k, q, lo + w * r);
  }

  /** The middle field of a number cut in three. */
  lemma Middle(x: int, k: int, m: int, n: int)
    requires k > 0 && m > 0 && n == k * m
    ensures x == Low(x, k) + k * Low(Shr(x, k), m) + n * Shr(x, n)
    ensures 0 <= Low(x, k) < k
    ensures 0 <= Low(Shr(x, k), m) < m
  {
    DivMod(x, k);
    DivMod(x / k, m);
    Nested(x, k, m, n, x % k, x / k % m, x / k / m);
  }

  lemma Nested(x: int, k: int, m: int, n: int, r: int, s: int, q: int)
    requires k > 0 && n == k * m && 0 <= r < k && 0 <= s < m && x == k * (m * q + s) + r
    ensures x / n == q && x == r + k * s + n * q
  {
    assert k * (m * q + s) == n * q + k * s;
    assert k * (m - s) == n - k * s && k * s >= 0;
    MulAtLeast(k, m - s);
    DivUnique(x, n, q, r + k * s);
  }

  lemma LowSmall(x: int, m: int)
    requires 0 <= x < m
    ensures Low(x, m) == x
  {
    DivUnique(x, m, 0, x);
  }

  /** Truncation to a byte and then to five bits is truncation to five bits. */
  lemma LowLow(x: int)
    ensures Low(Low(x, 256), 32) == Low(x, 32)
  {
    var q, r := x / 32, x % 32;
    assert x % 256 == 32 * (q % 8) + r;
  }

  lemma DigitBounds(base: int, s: seq<int>)
    requires AreDigits(base, s)
    ensures forall i :: 0 <= i < |s| ==> 0 <= s[i] < base
  {
  }

  // Values of short digit strings.

  lemma Tail(b: nat, s: seq<int>, i: nat)
    requires i < |s|
    ensures ToNat(b, s[i..]) == s[i] + b * ToNat(b, s[i + 1..])
  {
    assert s[i..][1..] == s[i + 1..];
  }

  lemma Value1(b: nat, s: seq<int>)
    requires |s| == 1
    ensures ToNat(b, s) == s[0]
  {
    assert s[0..] == s;
    Tail(b, s, 0);
  }

  lemma Value2(b: nat, s: seq<int>)
    requires |s| == 2
    ensures ToNat(b, s) == s[0] + b * (s[1])
  {
    assert s[0..] == s;
    Tail(b, s, 0);
    Tail(b, s, 1);
  }

  lemma Value3(b: nat, s: seq<int>)
    requires |s| == 3
    ensures ToNat(b, s) == s[0] + b * (s[1] + b * (s[2]))
  {
    assert s[0..] == s;
    Tail(b, s, 0);
    Tail(b, s, 1);
    Tail(b, s, 2);
  }

  lemma Value4(b: nat, s: seq<int>)
    requires |s| == 4
    ensures ToNat(b, s) == s[0] + b * (s[1] + b * (s[2] + b * (s[3])))
  {
    assert s[0..] == s;
    Tail(b, s, 0);
    Tail(b, s, 1);
    Tail(b, s, 2);
    Tail(b, s, 3);
  }

  lemma Value5(b: nat, s: seq<int>)
    requires |s| == 5
    ensures ToNat(b, s) == s[0] + b * (s[1] + b * (s[2] + b * (s[3] + b * (s[4]))))
  {
    assert s[0..] == s;
    Tail(b, s, 0);
    Tail(b, s, 1);
    Tail(b, s, 2);
    Tail(b, s, 3);
    Tail(b, s, 4);
  }

  lemma Value8(b: nat, s: seq<int>)
    requires |s| == 8
    ensures ToNat(b, s) == s[0] + b * (s[1] + b * (s[2] + b * (s[3] + b * (s[4] + b * (s[5] + b * (s[6] + b * (s[7])))))))
  {
    assert s[0..] == s;
    Tail(b, s, 0);
    Tail(b, s, 1);
    Tail(b, s, 2);
    Tail(b, s, 3);
    Tail(b, s, 4);
    Tail(b, s, 5);
    Tail(b, s, 6);
    Tail(b, s, 7);
  }

  lemma Value11(b: nat, s: seq<int>)
    requires |s| == 11
    ensures ToNat(b, s) == s[0] + b * (s[1] + b * (s[2] + b * (s[3] + b * (s[4] + b * (s[5] + b * (s[6] + b * (s[7] + b * (s[8] + b * (s[9] + b * (s[10]))))))))))
  {
    assert s[0..] == s;
    Tail(b, s, 0);
    Tail(b, s, 1);
    Tail(b, s, 2);
    Tail(b, s, 3);
    Tail(b, s, 4);
    Tail(b, s, 5);
    Tail(b, s, 6);
    Tail(b, s, 7);
    Tail(b, s, 8);
    Tail(b, s, 9);
    Tail(b, s, 10);
  }

  // d = 5: poly.c:63-67 and poly.c:99-110.

  /** Five bytes and eight 5-bit values, cut from the same bits: byte boundaries split t[1], t[3], t[4]
      and t[6] into low and high parts. */
  lemma Bits5(b: seq<int>, t: seq<int>, l1: int, h1: int, l3: int, h3: int, l4: int, h4: int, l6: int, h6: int)
    requires |b| == 5 && |t| == 8
    requires t[1] == 8 * h1 + l1 && t[3] == 2 * h3 + l3 && t[4] == 16 * h4 + l4 && t[6] == 4 * h6 + l6
    requires b[0] == t[0] + 32 * l1
    requires b[1] == h1 + 4 * t[2] + 128 * l3
    requires b[2] == h3 + 16 * l4
    requires b[3] == h4 + 2 * t[5] + 64 * l6
    requires b[4] == h6 + 8 * t[7]
    ensures ToNat(256, b) == ToNat(32, t)
  {
    Value8(32, t);
    Value5(256, b);
  }

  function Pack5(t: seq<int>): seq<int>
    requires |t| == 8
  {
    [Low(t[0] + t[1] * 32, 256),
     Low(Shr(t[1], 8) + t[2] * 4 + t[3] * 128, 256),
     Low(Shr(t[3], 2) + t[4] * 16, 256),
     Low(Shr(t[4], 16) + t[5] * 2 + t[6] * 64, 256),
     Low(Shr(t[6], 4) + t[7] * 8, 256)]
  }

  lemma Pack5Value(t: seq<int>)
    requires |t| == 8 && AreDigits(32, t)
    ensures ToNat(256, Pack5(t)) == ToNat(32, t)
  {
    hide ToNat, AreDigits, Shr, Low;
    DigitBounds(32, t);
    Cut(t[1], 8);
    ShrRange(t[1], 8, 4);
    Cut(t[3], 2);
    ShrRange(t[3], 2, 16);
    Cut(t[4], 16);
    ShrRange(t[4], 16, 2);
    Cut(t[6], 4);
    ShrRange(t[6], 4, 8);
    LowBits(t[0] + t[1] * 32, t[0], t[1], 32, 8, 256);
    LowBits(Shr(t[1], 8) + t[2] * 4 + t[3] * 128, Shr(t[1], 8) + t[2] * 4, t[3], 128, 2, 256);
    LowBits(Shr(t[3], 2) + t[4] * 16, Shr(t[3], 2), t[4], 16, 16, 256);
    LowBits(Shr(t[4], 16) + t[5] * 2 + t[6] * 64, Shr(t[4], 16) + t[5] * 2, t[6], 64, 4, 256);
    LowBits(Shr(t[6], 4) + t[7] * 8, Shr(t[6], 4), t[7], 8, 32, 256);
    LowSmall(t[7], 32);
    Bits5(Pack5(t), t, Low(t[1], 8), Shr(t[1], 8), Low(t[3], 2), Shr(t[3], 2), Low(t[4], 16), Shr(t[4], 16), Low(t[6], 4), Shr(t[6], 4));
  }

  function Unpack5(a: seq<int>): (t: seq<int>)
    requires |a| == 5
    ensures |t| == 8 && AreDigits(32, t)
  {
    [Low(a[0], 32),
     Low(Low(Shr(a[0], 32) + a[1] * 8, 256), 32),
     Low(Shr(a[1], 4), 32),
     Low(Low(Shr(a[1], 128) + a[2] * 2, 256), 32),
     Low(Low(Shr(a[2], 16) + a[3] * 16, 256), 32),
     Low(Shr(a[3], 2), 32),
     Low(Low(Shr(a[3], 64) + a[4] * 4, 256), 32),
     Low(Shr(a[4], 8), 32)]
  }

  lemma Unpack5Value(a: seq<int>)
    requires |a| == 5 && AreDigits(256, a)
    ensures ToNat(32, Unpack5(a)) == ToNat(256, a)
  {
    hide ToNat, AreDigits, Shr, Low;
    DigitBounds(256, a);
    Cut(a[0], 32);
    ShrRange(a[0], 32, 8);
    ShrRange(a[1], 128, 2);
    ShrRange(a[2], 16, 16);
    Cut(a[2], 16);
    ShrRange(a[3], 64, 4);
    Middle(a[1], 4, 32, 128);
    Middle(a[3], 2, 32, 64);
    Cut(a[4], 8);
    ShrRange(a[4], 8, 32);
    LowSmall(Shr(a[4], 8), 32);
    LowLow(Shr(a[0], 32) + a[1] * 8);
    LowLow(Shr(a[1], 128) + a[2] * 2);
    LowLow(Shr(a[2], 16) + a[3] * 16);
    LowLow(Shr(a[3], 64) + a[4] * 4);
    LowBits(Shr(a[0], 32) + a[1] * 8, Shr(a[0], 32), a[1], 8, 4, 32);
    LowBits(Shr(a[1], 128) + a[2] * 2, Shr(a[1], 128), a[2], 2, 16, 32);
    LowBits(Shr(a[2], 16) + a[3] * 16, Shr(a[2], 16), a[3], 16, 2, 32);
    LowBits(Shr(a[3], 64) + a[4] * 4, Shr(a[3], 64), a[4], 4, 8, 32);
    Bits5(a, Unpack5(a), Shr(a[0], 32), Low(a[1], 4), Shr(a[1], 128), Low(a[2], 16), Shr(a[2], 16), Low(a[3], 2), Shr(a[3], 64), Low(a[4], 8));
  }

  // d = 10: polyvec.c:66-70 and polyvec.c:115-118.

  lemma Bits10(b: seq<int>, t: seq<int>, l0: int, h0: int, l1: int, h1: int, l2: int, h2: int, l3: int, h3: int)
    requires |b| == 5 && |t| == 4
    requires t[0] == 256 * h0 + l0 && t[1] == 64 * h1 + l1 && t[2] == 16 * h2 + l2 && t[3] == 4 * h3 + l3
    requires b[0] == l0 && b[1] == h0 + 4 * l1 && b[2] == h1 + 16 * l2 && b[3] == h2 + 64 * l3 && b[4] == h3
    ensures ToNat(256, b) == ToNat(1024, t)
  {
    Value4(1024, t);
    Value5(256, b);
  }

  function Pack10(t: seq<int>): seq<int>
    requires |t| == 4
  {
    [Low(t[0], 256),
     Low(Shr(t[0], 256) + t[1] * 4, 256),
     Low(Shr(t[1], 64) + t[2] * 16, 256),
     Low(Shr(t[2], 16) + t[3] * 64, 256),
     Low(Shr(t[3], 4), 256)]
  }

  lemma Pack10Value(t: seq<int>)
    requires |t| == 4 && AreDigits(1024, t)
    ensures ToNat(256, Pack10(t)) == ToNat(1024, t)
  {
    hide ToNat, AreDigits, Shr, Low;
    DigitBounds(1024, t);
    Cut(t[0], 256);
    ShrRange(t[0], 256, 4);
    Cut(t[1], 64);
    ShrRange(t[1], 64, 16);
    Cut(t[2], 16);
    ShrRange(t[2], 16, 64);
    Cut(t[3], 4);
    ShrRange(t[3], 4, 256);
    LowBits(Shr(t[0], 256) + t[1] * 4, Shr(t[0], 256), t[1], 4, 64, 256);
    LowBits(Shr(t[1], 64) + t[2] * 16, Shr(t[1], 64), t[2], 16, 16, 256);
    LowBits(Shr(t[2], 16) + t[3] * 64, Shr(t[2], 16), t[3], 64, 4, 256);
    LowSmall(Shr(t[3], 4), 256);
    Bits10(Pack10(t), t, Low(t[0], 256), Shr(t[0], 256), Low(t[1], 64), Shr(t[1], 64), Low(t[2], 16), Shr(t[2], 16), Low(t[3], 4), Shr(t[3], 4));
  }

  function Unpack10(a: seq<int>): (t: seq<int>)
    requires |a| == 5
    ensures |t| == 4 && AreDigits(1024, t)
  {
    [Low(a[0] + a[1] * 256, 1024),
     Low(Shr(a[1], 4) + a[2] * 64, 1024),
     Low(Shr(a[2], 16) + a[3] * 16, 1024),
     Low(Shr(a[3], 64) + a[4] * 4, 1024)]
  }

  lemma Unpack10Value(a: seq<int>)
    requires |a| == 5 && AreDigits(256, a)
    ensures ToNat(1024, Unpack10(a)) == ToNat(256, a)
  {
    hide ToNat, AreDigits, Shr, Low;
    DigitBounds(256, a);
    Cut(a[1], 4);
    ShrRange(a[1], 4, 64);
    Cut(a[2], 16);
    ShrRange(a[2], 16, 16);
    Cut(a[3], 64);
    ShrRange(a[3], 64, 4);
    LowBits(a[0] + a[1] * 256, a[0], a[1], 256, 4, 1024);
    LowBits(Shr(a[1], 4) + a[2] * 64, Shr(a[1], 4), a[2], 64, 16, 1024);
    LowBits(Shr(a[2], 16) + a[3] * 16, Shr(a[2], 16), a[3], 16, 64, 1024);
    LowBits(Shr(a[3], 64) + a[4] * 4, Shr(a[3], 64), a[4], 4, 256, 1024);
    LowSmall(a[4], 256);
    Bits10(a, Unpack10(a), a[0], Low(a[1], 4), Shr(a[1], 4), Low(a[2], 16), Shr(a[2], 16), Low(a[3], 64), Shr(a[3], 64), a[4]);
  }

  // d = 11: polyvec.c:36-46 and polyvec.c:97-104.

  /** Eleven bytes and eight 11-bit values; l and h are the parts on either side of a byte boundary. */
  lemma Bits11(b: seq<int>, t: seq<int>, l: seq<int>, h: seq<int>)
    requires |b| == 11 && |t| == |l| == |h| == 8
    requires t[0] == 256 * h[0] + l[0] && t[1] == 32 * h[1] + l[1] && t[2] == 1024 * h[2] + 4 * b[3] + l[2]
    requires t[3] == 128 * h[3] + l[3] && t[4] == 16 * h[4] + l[4] && t[5] == 512 * h[5] + 2 * b[7] + l[5]
    requires t[6] == 64 * h[6] + l[6] && t[7] == 8 * h[7] + l[7]
    requires b[0] == l[0] && b[1] == h[0] + 8 * l[1] && b[2] == h[1] + 64 * l[2] && b[4] == h[2] + 2 * l[3]
    requires b[5] == h[3] + 16 * l[4] && b[6] == h[4] + 128 * l[5] && b[8] == h[5] + 4 * l[6]
    requires b[9] == h[6] + 32 * l[7] && b[10] == h[7]
    ensures ToNat(256, b) == ToNat(2048, t)
  {
    Value8(2048, t);
    Value11(256, b);
  }

  function Pack11(t: seq<int>): seq<int>
    requires |t| == 8
  {
    [Low(t[0], 256),
     Low(Shr(t[0], 256) + t[1] * 8, 256),
     Low(Shr(t[1], 32) + t[2] * 64, 256),
     Low(Shr(t[2], 4), 256),
     Low(Shr(t[2], 1024) + t[3] * 2, 256),
     Low(Shr(t[3], 128) + t[4] * 16, 256),
     Low(Shr(t[4], 16) + t[5] * 128, 256),
     Low(Shr(t[5], 2), 256),
     Low(Shr(t[5], 512) + t[6] * 4, 256),
     Low(Shr(t[6], 64) + t[7] * 32, 256),
     Low(Shr(t[7], 8), 256)]
  }

  lemma Pack11Value(t: seq<int>)
    requires |t| == 8 && AreDigits(2048, t)
    ensures ToNat(256, Pack11(t)) == ToNat(2048, t)
  {
    hide ToNat, AreDigits, Shr, Low;
    DigitBounds(2048, t);
    Cut(t[0], 256);
    ShrRange(t[0], 256, 8);
    Cut(t[1], 32);
    ShrRange(t[1], 32, 64);
    Middle(t[2], 4, 256, 1024);
    ShrRange(t[2], 1024, 2);
    Cut(t[3], 128);
    ShrRange(t[3], 128, 16);
    Cut(t[4], 16);
    ShrRange(t[4], 16, 128);
    Middle(t[5], 2, 256, 512);
    ShrRange(t[5], 512, 4);
    Cut(t[6], 64);
    ShrRange(t[6], 64, 32);
    Cut(t[7], 8);
    ShrRange(t[7], 8, 256);
    LowBits(Shr(t[0], 256) + t[1] * 8, Shr(t[0], 256), t[1], 8, 32, 256);
    LowBits(Shr(t[1], 32) + t[2] * 64, Shr(t[1], 32), t[2], 64, 4, 256);
    LowBits(Shr(t[2], 1024) + t[3] * 2, Shr(t[2], 1024), t[3], 2, 128, 256);
    LowBits(Shr(t[3], 128) + t[4] * 16, Shr(t[3], 128), t[4], 16, 16, 256);
    LowBits(Shr(t[4], 16) + t[5] * 128, Shr(t[4], 16), t[5], 128, 2, 256);
    LowBits(Shr(t[5], 512) + t[6] * 4, Shr(t[5], 512), t[6], 4, 64, 256);
    LowBits(Shr(t[6], 64) + t[7] * 32, Shr(t[6], 64), t[7], 32, 8, 256);
    LowSmall(Shr(t[7], 8), 256);
    Bits11(Pack11(t), t, [Low(t[0], 256), Low(t[1], 32), Low(t[2], 4), Low(t[3], 128), Low(t[4], 16), Low(t[5], 2), Low(t[6], 64), Low(t[7], 8)],
           [Shr(t[0], 256), Shr(t[1], 32), Shr(t[2], 1024), Shr(t[3], 128), Shr(t[4], 16), Shr(t[5], 512), Shr(t[6], 64), Shr(t[7], 8)]);
  }

  function Unpack11(a: seq<int>): (t: seq<int>)
    requires |a| == 11
    ensures |t| == 8 && AreDigits(2048, t)
  {
    [Low(a[0] + a[1] * 256, 2048),
     Low(Shr(a[1], 8) + a[2] * 32, 2048),
     Low(Shr(a[2], 64) + a[3] * 4 + a[4] * 1024, 2048),
     Low(Shr(a[4], 2) + a[5] * 128, 2048),
     Low(Shr(a[5], 16) + a[6] * 16, 2048),
     Low(Shr(a[6], 128) + a[7] * 2 + a[8] * 512, 2048),
     Low(Shr(a[8], 4) + a[9] * 64, 2048),
     Low(Shr(a[9], 32) + a[10] * 8, 2048)]
  }

  lemma Unpack11Value(a: seq<int>)
    requires |a| == 11 && AreDigits(256, a)
    ensures ToNat(2048, Unpack11(a)) == ToNat(256, a)
  {
    hide ToNat, AreDigits, Shr, Low;
    DigitBounds(256, a);
    Cut(a[1], 8);
    ShrRange(a[1], 8, 32);
    Cut(a[2], 64);
    ShrRange(a[2], 64, 4);
    Cut(a[4], 2);
    ShrRange(a[4], 2, 128);
    Cut(a[5], 16);
    ShrRange(a[5], 16, 16);
    Cut(a[6], 128);
    ShrRange(a[6], 128, 2);
    Cut(a[8], 4);
    ShrRange(a[8], 4, 64);
    Cut(a[9], 32);
    ShrRange(a[9], 32, 8);
    LowBits(a[0] + a[1] * 256, a[0], a[1], 256, 8, 2048);
    LowBits(Shr(a[1], 8) + a[2] * 32, Shr(a[1], 8), a[2], 32, 64, 2048);
    LowBits(Shr(a[2], 64) + a[3] * 4 + a[4] * 1024, Shr(a[2], 64) + a[3] * 4, a[4], 1024, 2, 2048);
    LowBits(Shr(a[4], 2) + a[5] * 128, Shr(a[4], 2), a[5], 128, 16, 2048);
    LowBits(Shr(a[5], 16) + a[6] * 16, Shr(a[5], 16), a[6], 16, 128, 2048);
    LowBits(Shr(a[6], 128) + a[7] * 2 + a[8] * 512, Shr(a[6], 128) + a[7] * 2, a[8], 512, 4, 2048);
    LowBits(Shr(a[8], 4) + a[9] * 64, Shr(a[8], 4), a[9], 64, 32, 2048);
    LowBits(Shr(a[9], 32) + a[10] * 8, Shr(a[9], 32), a[10], 8, 256, 2048);
    LowSmall(a[10], 256);
    Bits11(a, Unpack11(a), [a[0], Shr(a[1], 8), Shr(a[2], 64), Shr(a[4], 2), Shr(a[5], 16), Shr(a[6], 128), Shr(a[8], 4), Shr(a[9], 32)],
           [Low(a[1], 8), Low(a[2], 64), Low(a[4], 2), Low(a[5], 16), Low(a[6], 128), Low(a[8], 4), Low(a[9], 32), a[10]]);
  }

  // d = 12: poly.c:137-139 and poly.c:157-158.

  lemma Bits12(b: seq<int>, t: seq<int>, l0: int, h0: int, l1: int, h1: int)
    requires |b| == 3 && |t| == 2
    requires t[0] == 256 * h0 + l0 && t[1] == 16 * h1 + l1
    requires b[0] == l0 && b[1] == h0 + 16 * l1 && b[2] == h1
    ensures ToNat(256, b) == ToNat(4096, t)
  {
    Value2(4096, t);
    Value3(256, b);
  }

  function Pack12(t: seq<int>): seq<int>
    requires |t| == 2
  {
    [Low(t[0], 256),
     Low(Shr(t[0], 256) + t[1] * 16, 256),
     Low(Shr(t[1], 16), 256)]
  }

  lemma Pack12Value(t: seq<int>)
    requires |t| == 2 && AreDigits(4096, t)
    ensures ToNat(256, Pack12(t)) == ToNat(4096, t)
  {
    hide ToNat, AreDigits, Shr, Low;
    DigitBounds(4096, t);
    Cut(t[0], 256);
    ShrRange(t[0], 256, 16);
    Cut(t[1], 16);
    ShrRange(t[1], 16, 256);
    LowBits(Shr(t[0], 256) + t[1] * 16, Shr(t[0], 256), t[1], 16, 16, 256);
    LowSmall(Shr(t[1], 16), 256);
    Bits12(Pack12(t), t, Low(t[0], 256), Shr(t[0], 256), Low(t[1], 16), Shr(t[1], 16));
  }

  function Unpack12(a: seq<int>): (t: seq<int>)
    requires |a| == 3
    ensures |t| == 2 && AreDigits(4096, t)
  {
    [Low(a[0] + a[1] * 256, 4096),
     Low(Shr(a[1], 16) + a[2] * 16, 4096)]
  }

  lemma Unpack12Value(a: seq<int>)
    requires |a| == 3 && AreDigits(256, a)
    ensures ToNat(4096, Unpack12(a)) == ToNat(256, a)
  {
    hide ToNat, AreDigits, Shr, Low;
    DigitBounds(256, a);
    Cut(a[1], 16);
    ShrRange(a[1], 16, 16);
    LowBits(a[0] + a[1] * 256, a[0], a[1], 256, 16, 4096);
    LowBits(Shr(a[1], 16) + a[2] * 16, Shr(a[1], 16), a[2], 16, 256, 4096);
    LowSmall(a[2], 256);
    Bits12(a, Unpack12(a), a[0], Low(a[1], 16), Shr(a[1], 16), a[2]);
  }

  // d = 4: poly.c:43-46 and poly.c:91-92.

  lemma Bits4(b: seq<int>, t: seq<int>)
    requires |b| == 4 && |t| == 8
    requires b[0] == t[0] + 16 * t[1] && b[1] == t[2] + 16 * t[3] && b[2] == t[4] + 16 * t[5] && b[3] == t[6] + 16 * t[7]
    ensures ToNat(256, b) == ToNat(16, t)
  {
    Value8(16, t);
    Value4(256, b);
  }

  function Pack4(t: seq<int>): seq<int>
    requires |t| == 8
  {
    [Low(t[0] + t[1] * 16, 256),
     Low(t[2] + t[3] * 16, 256),
     Low(t[4] + t[5] * 16, 256),
     Low(t[6] + t[7] * 16, 256)]
  }

  lemma Pack4Value(t: seq<int>)
    requires |t| == 8 && AreDigits(16, t)
    ensures ToNat(256, Pack4(t)) == ToNat(16, t)
  {
    hide ToNat, AreDigits, Shr, Low;
    DigitBounds(16, t);
    LowSmall(t[0] + t[1] * 16, 256);
    LowSmall(t[2] + t[3] * 16, 256);
    LowSmall(t[4] + t[5] * 16, 256);
    LowSmall(t[6] + t[7] * 16, 256);
    Bits4(Pack4(t), t);
  }

  function Unpack4(a: int): (t: seq<int>)
    requires 0 <= a < 256
    ensures |t| == 2 && AreDigits(16, t)
  {
    [Low(a, 16), Shr(a, 16)]
  }

  lemma Unpack4Value(a: int)
    requires 0 <= a < 256
    ensures ToNat(16, Unpack4(a)) == ToNat(256, [a])
  {
    hide ToNat, AreDigits, Shr, Low;
    Cut(a, 16);
    Value2(16, Unpack4(a));
    Value1(256, [a]);
  }
}
