// Lossy compression of coefficients (FIPS 203, section 4.2.1) and the division-free forms the code uses.
module Compress {
  import opened MachineInts
  import opened ModQ
  import opened IntFacts

  /** 2^d for the widths d = 1, 4, 5, 10, 11 that occur. */
  predicate IsScale(m: int) {
    m == 2 || m == 16 || m == 32 || m == 1024 || m == 2048
  }

  /** The integer nearest to m*x/q, modulo m. */
  function CompressTo(m: int, x: int): (y: int)
    requires m > 0
    ensures 0 <= y < m
  {
    (m * x + Q / 2) / Q % m
  }

  /** The integer nearest to q*y/m. */
  function DecompressFrom(m: int, y: int): int
    requires m > 0
  {
    (Q * y + m / 2) / m
  }

  /** `u += (u >> 15) & q`: the representative in [0, q) of a value in (-q, q). */
  function Lift(u: int): (x: int)
    requires -Q < u < Q
    ensures 0 <= x < Q && x == u % Q
  {
    if u < 0 then u + Q else u
  }

  /** poly.c:36-40: multiplication modulo 2^32 instead of division. */
  function Compress4(x: int): int {
    ToUint32(ToUint32(x * 16 + 1665) * 80635) / 0x1000_0000 % 16
  }

  /** poly.c:56-60 */
  function Compress5(x: int): int {
    ToUint32(ToUint32(x * 32 + 1664) * 40318) / 0x800_0000 % 32
  }

  /** polyvec.c:58-63, in 64-bit arithmetic. */
  function Compress10(x: int): int {
    (x * 1024 + 1665) * 1290167 / 0x1_0000_0000 % 1024
  }

  /** polyvec.c:28-33, in 64-bit arithmetic. */
  function Compress11(x: int): int {
    (x * 2048 + 1664) * 645084 / 0x8000_0000 % 2048
  }

  /** poly.c:202-209: the coefficient is converted to uint32 as it is, negative or not. */
  function Compress1(x: int): int {
    ToUint32(ToUint32(ToUint32(x) * 2 + 1665) * 80635) / 0x1000_0000 % 2
  }

  // A product y = p*t + r with 0 <= r < p has quotient t by p; the constants below are chosen so
  // that r stays in range.

  /** Reducing modulo 2^32 before the shift only changes the quotient modulo 2^32 / p. */
  lemma WrapThenShift28(y: int, t: int)
    requires y / 0x1000_0000 == t
    ensures y % 0x1_0000_0000 / 0x1000_0000 == t % 16
  {
  }

  lemma WrapThenShift27(y: int, t: int)
    requires y / 0x800_0000 == t
    ensures y % 0x1_0000_0000 / 0x800_0000 == t % 32
  {
  }

  lemma Quotient(y: int, p: int, t: int, r: int)
    requires p > 0 && y == p * t + r && 0 <= r < p
    ensures y / p == t
  {
    DivUnique(y, p, t, r);
  }

  lemma Compress4Correct(x: int)
    requires 0 <= x < Q
    ensures Compress4(x) == CompressTo(16, x)
  {
    var n := 16 * x + 1664;
    Divided4(n);
    WrapThenShift28((n + 1) * 80635, n / Q);
  }

  lemma Divided4(n: int)
    requires 0 <= n <= 16 * Q + 1664
    ensures (n + 1) * 80635 / 0x1000_0000 == n / Q
  {
    var t, s := n / Q, n % Q;
    Remainder4(n, t, s);
    Quotient((n + 1) * 80635, 0x1000_0000, t, 80635 * (s + 1) - 1541 * t);
  }

  lemma Remainder4(n: int, t: int, s: int)
    requires n == Q * t + s && 0 <= s < Q && 0 <= t <= 16
    ensures (n + 1) * 80635 == 0x1000_0000 * t + (80635 * (s + 1) - 1541 * t)
    ensures 0 <= 80635 * (s + 1) - 1541 * t < 0x1000_0000
  {
  }

  lemma Divided5(n: int)
    requires 0 <= n <= 32 * Q + 1664
    ensures n * 40318 / 0x800_0000 == n / Q
  {
    var t, s := n / Q, n % Q;
    Quotient(n * 40318, 0x800_0000, t, 40318 * s + 894 * t);
  }

  lemma Compress5Correct(x: int)
    requires 0 <= x < Q
    ensures Compress5(x) == CompressTo(32, x)
  {
    var n := 32 * x + 1664;
    Divided5(n);
    WrapThenShift27(n * 40318, n / Q);
  }

  /** The only input whose remainder is 0 is 2079, with quotient 640. */
  lemma Remainder10(x: int, t: int)
    requires 0 <= x < Q && 1024 * x + 1664 == Q * t
    ensures t == 640
  {
    assert t == 1024 * (769 * x - 2500 * t + 1249) + 640;
  }

  lemma Compress10Correct(x: int)
    requires 0 <= x < Q
    ensures Compress10(x) == CompressTo(1024, x)
  {
    var n := 1024 * x + 1664;
    var t, s := n / Q, n % Q;
    var y := (n + 1) * 1290167;
    if s == 0 {
      Remainder10(x, t);
    }
    Quotient(y, 0x1_0000_0000, t, 1290167 * (s + 1) - 1353 * t);
  }

  /** The remainders near q-1 only occur with small quotients. */
  lemma Remainder11(x: int, t: int, s: int)
    requires 0 <= x < Q && 2048 * x + 1664 == Q * t + s && Q - 3 <= s < Q
    ensures t == 384 + 769 * (Q - 1 - s)
  {
    assert t == 2048 * (769 * x - 1250 * t - 625) + 384 + 769 * (Q - 1 - s);
  }

  lemma Range11(t: int, s: int)
    requires 0 <= t <= 2048 && 0 <= s < Q && (s >= Q - 3 ==> t == 384 + 769 * (Q - 1 - s))
    ensures 0 <= 645084 * s + 988 * t < 0x8000_0000
  {
  }

  lemma Compress11Correct(x: int)
    requires 0 <= x < Q
    ensures Compress11(x) == CompressTo(2048, x)
  {
    var n := 2048 * x + 1664;
    var t, s := n / Q, n % Q;
    if s >= Q - 3 {
      Remainder11(x, t, s);
    }
    Range11(t, s);
    assert n * 645084 == 0x8000_0000 * t + (645084 * s + 988 * t);
    Quotient(n * 645084, 0x8000_0000, t, 645084 * s + 988 * t);
  }

  lemma Remainder1(n: int, t: int, s: int)
    requires n == Q * t + s && 0 <= s < Q
    ensures (n + 1) * 80635 == 0x1000_0000 * t + (80635 * (s + 1) - 1541 * t)
  {
  }

  /** The sign fix that poly_tomsg leaves out is not needed: over the whole range (-q, q) the wrapped
      conversion of a negative coefficient gives the right bit, except for one value. */
  lemma Compress1Exact(x: int)
    requires -Q < x < Q
    ensures Compress1(x) == CompressTo(2, x % Q) <==> x != -2497
  {
    hide Compress1, CompressTo;
    if x == -2497 {
      ExceptionalBit();
    } else {
      MessageBit(x);
    }
  }

  lemma ExceptionalBit()
    ensures Compress1(-2497) == 1 && CompressTo(2, -2497 % Q) == 0
  {
    assert ToUint32(-2497) == 4294964799;
    assert ToUint32(4294964799 * 2 + 1665) == 4294963967;
    assert ToUint32(4294963967 * 80635) == 4026533381;
    assert -2497 % Q == 832;
  }

  lemma MessageBit(x: int)
    requires -Q < x < Q && x != -2497
    ensures Compress1(x) == CompressTo(2, x % Q)
  {
    hide Compress1, CompressTo;
    var n := 2 * x + 1664;
    var t, s := n / Q, n % Q;
    MessageRange(x, t, s);
    Remainder1(n, t, s);
    Quotient((n + 1) * 80635, 0x1000_0000, t, 80635 * (s + 1) - 1541 * t);
    BitOfQuotient(x, t);
    MessageQuotient(x, t);
  }

  lemma BitOfQuotient(x: int, t: int)
    requires -Q < x < Q && (2 * x + 1665) * 80635 / 0x1000_0000 == t
    ensures Compress1(x) == t % 2
  {
    var y := (2 * x + 1665) * 80635;
    MessageWrap(x);
    hide ToUint32;
    WrapThenShift28(y, t);
    SixteenthParity(t);
  }

  lemma SixteenthParity(t: int)
    ensures t % 16 % 2 == t % 2
  {
  }

  lemma MessageRange(x: int, t: int, s: int)
    requires -Q < x < Q && x != -2497 && 2 * x + 1664 == Q * t + s && 0 <= s < Q
    ensures 0 <= 80635 * (s + 1) - 1541 * t < 0x1000_0000
  {
    assert -2 <= t <= 2;
  }

  lemma MessageWrap(x: int)
    requires -Q < x < Q
    ensures ToUint32(ToUint32(ToUint32(x) * 2 + 1665) * 80635) == (2 * x + 1665) * 80635 % 0x1_0000_0000
  {
    var u := ToUint32(ToUint32(x) * 2 + 1665);
    assert u == 2 * x + 1665 || u == 2 * x + 1665 + 0x1_0000_0000;
    assert (u * 80635 - (2 * x + 1665) * 80635) % 0x1_0000_0000 == 0;
  }

  lemma MessageQuotient(x: int, t: int)
    requires -Q < x < Q && t == (2 * x + 1664) / Q
    ensures t % 2 == CompressTo(2, x % Q)
  {
  }

  // What compression keeps.

  /** Before the reduction modulo m, compression rounds m*x/q to the nearest integer; ties cannot occur. */
  lemma CompressIsNearest(m: int, x: int)
    requires m > 0
    ensures var r := (m * x + Q / 2) / Q;
            CompressTo(m, x) == r % m && -Q < 2 * (m * x - Q * r) < Q
  {
    var n := m * x;
    assert Q * ((n + 1664) / Q) <= n + 1664 < Q * ((n + 1664) / Q) + Q;
  }

  /** Decompression rounds q*y/m to a nearest integer. */
  lemma DecompressIsNearest(m: int, y: int)
    requires IsScale(m)
    ensures var x := DecompressFrom(m, y);
            -m <= 2 * (m * x - Q * y) <= m
  {
    DivMod(Q * y + m / 2, m);
  }

  lemma DecompressRange(m: int, y: int)
    requires IsScale(m) && 0 <= y < m
    ensures 0 <= DecompressFrom(m, y) < Q
  {
    var x := DecompressFrom(m, y);
    DecompressIsNearest(m, y);
    assert m * (x - Q + 1) == m * x - Q * m + m && m * -x == -(m * x);
    if x >= Q {
      MulAtLeast(m, x - Q + 1);
    } else if x < 0 {
      MulAtLeast(m, -x);
    }
  }

  /** Compressing a decompressed value gives it back. */
  lemma CompressOfDecompress(m: int, y: int)
    requires IsScale(m) && 0 <= y < m
    ensures CompressTo(m, DecompressFrom(m, y)) == y
  {
    var x := DecompressFrom(m, y);
    DecompressIsNearest(m, y);
    hide DecompressFrom;
    DivUnique(y, m, 0, y);
    NearbyMultiple(m * x, y);
  }

  lemma NearbyMultiple(n: int, y: int)
    requires -2048 <= 2 * (n - Q * y) <= 2048
    ensures (n + Q / 2) / Q == y
  {
  }

  lemma CircleDistance(m: int, z: int, x: int, k: int, y: int, r: int)
    requires r == m * k + y
    ensures 2 * m * (z - x + Q * k) == 2 * (m * z - Q * y) - 2 * (m * x - Q * r)
  {
    assert m * (z - x + Q * k) == m * z - m * x + Q * (m * k);
  }

  /** Compression and decompression move a coefficient by at most round(q / 2m), around the circle. */
  lemma DecompressOfCompress(m: int, x: int)
    requires IsScale(m) && 0 <= x < Q
    ensures -((Q + m) / (2 * m)) <= Centred(DecompressFrom(m, CompressTo(m, x)) - x) <= (Q + m) / (2 * m)
  {
    var r := (m * x + Q / 2) / Q;
    var y, k := r % m, r / m;
    var d := DecompressFrom(m, y) - x;
    CompressIsNearest(m, x);
    DecompressIsNearest(m, y);
    DivMod(r, m);
    var e := d + Q * k;
    CircleDistance(m, DecompressFrom(m, y), x, k, y, r);
    SmallQuotient(m, e);
    CentredUnique(d, e, -k);
  }

  lemma SmallQuotient(m: int, e: int)
    requires IsScale(m) && -(Q + m) <= 2 * m * e <= Q + m
    ensures -((Q + m) / (2 * m)) <= e <= (Q + m) / (2 * m)
    ensures -(Q - 1) / 2 <= e <= (Q - 1) / 2
  {
  }
}
