// poly.c: arithmetic on polynomials stored as int16 arrays.
module Poly {
  import opened MachineInts
  import opened ModQ
  import opened Reduce
  import opened Zetas
  import opened NttSpec
  import opened RingProduct
  import opened NttCode

  /** Montgomery products of factors up to m and n are at most e, and two of them still add up to an int16. */
  predicate ProductRange(m: int, n: int, e: int) {
    && 0 <= m && 0 <= n && Q - 1 <= e < 0x4000
    && m * n < (e + 1) * R - Q * 0x8000
  }

  /** A pair of Montgomery products, the first multiplied by a twiddle, adds up to at most 2e. */
  lemma BoundedProducts(x: int16, y: int16, z: int16, m: int, n: int, e: int)
    requires -m <= x <= m && -n <= y <= n && -(Q - 1) / 2 <= z <= (Q - 1) / 2 && ProductRange(m, n, e)
    ensures -e <= FqMul(x, y) <= e && -e <= FqMul(FqMul(x, y), z) <= e
  {
    hide FqMul;
    FqMulSize(x, y, m, n, e);
    TwiddleSize(FqMul(x, y), z, e);
  }

  lemma TwiddleSize(t: int16, z: int16, e: int)
    requires -e <= t <= e && Q - 1 <= e < 0x4000 && -(Q - 1) / 2 <= z <= (Q - 1) / 2
    ensures -e <= FqMul(t, z) <= e
  {
    hide FqMul;
    FqMulSize(t, z, e, (Q - 1) / 2, e);
  }

  /** The even coefficient of a product of pairs, from its Montgomery products. */
  lemma PairEvenResidue(f0: int, f1: int, g0: int, g1: int, t: int, z: int, gamma: int, u: int, v: int)
    requires t % Q == (f1 * g1 * RINV) % Q && z % Q == (R * gamma) % Q
    requires u % Q == (t * z * RINV) % Q && v % Q == (f0 * g0 * RINV) % Q
    ensures (u + v) % Q == Times(RINV, PairEven(f0 % Q, f1 % Q, g0 % Q, g1 % Q, gamma))
  {
    hide Times, PairEven;
    PairCong(f0, f1, g0, g1, f0 % Q, f1 % Q, g0 % Q, g1 % Q, gamma);
    PairDefinition(f0, f1, g0, g1, gamma);
    EvenResidue(f0 * g0, f1 * g1, t, z, gamma, u, v);
  }

  lemma PairOddResidue(f0: int, f1: int, g0: int, g1: int, u: int, v: int)
    requires u % Q == (f0 * g1 * RINV) % Q && v % Q == (f1 * g0 * RINV) % Q
    ensures (u + v) % Q == Times(RINV, PairOdd(f0 % Q, f1 % Q, g0 % Q, g1 % Q))
  {
    hide Times, PairOdd;
    PairCong(f0, f1, g0, g1, f0 % Q, f1 % Q, g0 % Q, g1 % Q, 0);
    PairDefinition(f0, f1, g0, g1, 0);
    OddResidue(f0 * g1, f1 * g0, u, v);
  }

  lemma PairDefinition(f0: int, f1: int, g0: int, g1: int, gamma: int)
    ensures PairEven(f0, f1, g0, g1, gamma) == (f0 * g0 + gamma * (f1 * g1)) % Q
    ensures PairOdd(f0, f1, g0, g1) == (f0 * g1 + f1 * g0) % Q
  {
  }

  lemma EvenResidue(x: int, y: int, t: int, z: int, gamma: int, u: int, v: int)
    requires t % Q == (y * RINV) % Q && z % Q == (R * gamma) % Q
    requires u % Q == (t * z * RINV) % Q && v % Q == (x * RINV) % Q
    ensures (u + v) % Q == Times(RINV, (x + gamma * y) % Q)
  {
    MontgomeryFactor(z, gamma, t);
    assert z * t == t * z;
    MulCong(gamma, gamma, t, y * RINV);
    AddCong(u, gamma * (y * RINV), v, x * RINV);
    assert gamma * (y * RINV) + x * RINV == RINV * (x + gamma * y) by {
      assert gamma * (y * RINV) == gamma * y * RINV;
    }
    MulCong(RINV, RINV, x + gamma * y, (x + gamma * y) % Q);
  }

  lemma OddResidue(x: int, y: int, u: int, v: int)
    requires u % Q == (x * RINV) % Q && v % Q == (y * RINV) % Q
    ensures (u + v) % Q == Times(RINV, (x + y) % Q)
  {
    AddCong(u, x * RINV, v, y * RINV);
    MulCong(RINV, RINV, x + y, (x + y) % Q);
  }

  /** The coefficients of pair p in a product of transforms. */
  lemma PairMulAtPair(f: seq<int>, g: seq<int>, p: nat, o: nat)
    requires |f| == |g| == 256 && p < 128 && o == 2 * p
    ensures PairMulAt(f, g, o) == PairEven(f[o], f[o + 1], g[o], g[o + 1], Root(128 + p))
    ensures PairMulAt(f, g, o + 1) == PairOdd(f[o], f[o + 1], g[o], g[o + 1])
  {
    hide Root, PairEven, PairOdd;
    assert o / 2 == p && o % 2 == 0;
  }

  /** Two factors small enough for `basemul`, and their residues. */
  predicate Factors(a: seq<int>, b: seq<int>, f: seq<int>, g: seq<int>, m: int, n: int, e: int) {
    f == Canon(a) && g == Canon(b) && Within(a, m) && Within(b, n) && ProductRange(m, n, e)
  }

  /** ntt.c:139-146 on pair p, which starts at o = 2p. The two sums are int16 values as they stand. */
  method BaseMul(r: array<int16>, a: array<int16>, b: array<int16>, o: nat, zeta: int16,
                 ghost p: nat, ghost f: seq<int>, ghost g: seq<int>, ghost m: int, ghost n: int, ghost e: int)
    requires r.Length == a.Length == b.Length == |f| == |g| == 256 && r != a && r != b && p < 128 && o == 2 * p
    requires Factors(a[..], b[..], f, g, m, n, e)
    requires -(Q - 1) / 2 <= zeta <= (Q - 1) / 2 && zeta % Q == (R * Root(128 + p)) % Q
    modifies r
    ensures forall j :: 0 <= j < o || o + 2 <= j < 256 ==> r[j] == old(r[j])
    ensures forall j :: o <= j < o + 2 ==> Stores(r[j], Times(RINV, PairMulAt(f, g, j)), 2 * e)
  {
    var a0, a1, b0, b1 := a[o], a[o + 1], b[o], b[o + 1];
    FactorsAt(a[..], b[..], f, g, m, n, e, o);
    PairStored(a0, a1, b0, b1, zeta, Root(128 + p), m, n, e);
    hide Times, PairEven, PairOdd, PairMulAt, FqMul, ProductRange, Root, Stores, Factors;
    PairMulAtPair(f, g, p, o);
    r[o] := FqMul(a1, b1);
    r[o] := FqMul(r[o], zeta);
    r[o] := r[o] + FqMul(a0, b0);
    r[o + 1] := FqMul(a0, b1);
    r[o + 1] := r[o + 1] + FqMul(a1, b0);
  }

  lemma FactorsAt(a: seq<int16>, b: seq<int16>, f: seq<int>, g: seq<int>, m: int, n: int, e: int, o: nat)
    requires Factors(a, b, f, g, m, n, e) && o + 1 < |a| == |b|
    ensures -m <= a[o] <= m && -m <= a[o + 1] <= m && -n <= b[o] <= n && -n <= b[o + 1] <= n && ProductRange(m, n, e)
    ensures |f| == |a| && |g| == |b| && f[o] == a[o] % Q && f[o + 1] == a[o + 1] % Q && g[o] == b[o] % Q && g[o + 1] == b[o + 1] % Q
  {
    hide ProductRange;
  }

  /** What is stored for a pair: neither sum leaves int16. */
  lemma PairStored(a0: int16, a1: int16, b0: int16, b1: int16, zeta: int16, gamma: int, m: int, n: int, e: int)
    requires -m <= a0 <= m && -m <= a1 <= m && -n <= b0 <= n && -n <= b1 <= n && ProductRange(m, n, e)
    requires -(Q - 1) / 2 <= zeta <= (Q - 1) / 2 && zeta % Q == (R * gamma) % Q
    ensures var x, y := FqMul(FqMul(a1, b1), zeta) + FqMul(a0, b0), FqMul(a0, b1) + FqMul(a1, b0);
            && -0x8000 <= x < 0x8000 && -0x8000 <= y < 0x8000
            && Stores(x, Times(RINV, PairEven(a0 % Q, a1 % Q, b0 % Q, b1 % Q, gamma)), 2 * e)
            && Stores(y, Times(RINV, PairOdd(a0 % Q, a1 % Q, b0 % Q, b1 % Q)), 2 * e)
  {
    BoundedProducts(a1, b1, zeta, m, n, e);
    BoundedProducts(a0, b0, zeta, m, n, e);
    BoundedProducts(a0, b1, zeta, m, n, e);
    BoundedProducts(a1, b0, zeta, m, n, e);
    EvenAtMost(m, n, e);
    hide Times, PairEven, PairOdd, FqMul, ProductRange;
    PairEvenResidue(a0, a1, b0, b1, FqMul(a1, b1), zeta, gamma, FqMul(FqMul(a1, b1), zeta), FqMul(a0, b0));
    PairOddResidue(a0, a1, b0, b1, FqMul(a0, b1), FqMul(a1, b0));
  }

  lemma EvenAtMost(m: int, n: int, e: int)
    requires ProductRange(m, n, e)
    ensures 0 <= e < 0x4000
  {
  }

  /** poly.c:298-299: two neighbouring pairs share a table entry, with opposite signs. */
  method BaseMulTwoPairs(r: array<int16>, a: array<int16>, b: array<int16>, i: nat,
                         ghost f: seq<int>, ghost g: seq<int>, ghost m: int, ghost n: int, ghost e: int)
    requires r.Length == a.Length == b.Length == |f| == |g| == 256 && r != a && r != b && i < 64
    requires Factors(a[..], b[..], f, g, m, n, e)
    modifies r
    ensures forall j :: 0 <= j < 4 * i || 4 * i + 4 <= j < 256 ==> r[j] == old(r[j])
    ensures forall j :: 4 * i <= j < 4 * i + 4 ==> Stores(r[j], Times(RINV, PairMulAt(f, g, j)), 2 * e)
  {
    hide Factors, Table, Root, Times, Stores, PairMulAt;
    TwiddlePair(i);
    BaseMul(r, a, b, 4 * i, Table(64 + i), 2 * i, f, g, m, n, e);
    assert a[..] == old(a[..]) && b[..] == old(b[..]);
    BaseMul(r, a, b, 4 * i + 2, -Table(64 + i), 2 * i + 1, f, g, m, n, e);
  }

  /** poly.c:294-301: multiplication of transforms. The result carries a factor 1/R. The factors may be reduced or
      not: e bounds their Montgomery products. */
  method BaseMulMontgomery(r: array<int16>, a: array<int16>, b: array<int16>, ghost m: int, ghost n: int, ghost e: int)
    requires r.Length == a.Length == b.Length == 256 && r != a && r != b
    requires Within(a[..], m) && Within(b[..], n) && ProductRange(m, n, e)
    modifies r
    ensures Canon(r[..]) == Scale(RINV, PairMul(Canon(a[..]), Canon(b[..])))
    ensures Within(r[..], 2 * e)
  {
    ghost var x, y := a[..], b[..];
    ghost var f, g := Canon(x), Canon(y);
    assert Factors(x, y, f, g, m, n, e);
    hide *;
    var i := 0;
    while i < 64
      invariant 0 <= i <= 64 && a[..] == x && b[..] == y
      invariant forall j :: 0 <= j < 4 * i ==> Stores(r[j], Times(RINV, PairMulAt(f, g, j)), 2 * e)
    {
      BaseMulTwoPairs(r, a, b, i, f, g, m, n, e);
      i := i + 1;
    }
    StoresLayer(r[..], Scale(RINV, PairMul(f, g)), 2 * e);
  }

  lemma TwiddlePair(i: nat)
    requires i < 64
    ensures Table(64 + i) % Q == (R * Root(128 + 2 * i)) % Q
    ensures (-Table(64 + i)) % Q == (R * Root(128 + 2 * i + 1)) % Q
  {
    hide Zeta, Table;
    TableIsPower(64 + i);
    ChildRoot(64 + i);
    AddCong(0, 0, Table(64 + i), R * Zeta(64 + i));
  }

  /** 2^32 modulo q (poly.c:314). */
  const R_SQUARED := 1353

  lemma ToMontResidue(x: int16)
    ensures FitsInt32(x * R_SQUARED - LowFactor(x * R_SQUARED) * Q)
    ensures Stores(MontgomeryReduce(x * R_SQUARED), Times(R, x % Q), Q - 1)
  {
    MayReduce(x * R_SQUARED);
    assert R_SQUARED == 0x1_0000_0000 % Q;
    MulCong(R_SQUARED * RINV, R, x, x % Q);
    assert x * R_SQUARED * RINV == R_SQUARED * RINV * x;
  }

  /** poly.c:311-317 */
  method ToMont(r: array<int16>)
    requires r.Length == 256
    modifies r
    ensures Canon(r[..]) == Scale(R, Canon(old(r[..])))
    ensures Within(r[..], Q - 1)
  {
    ghost var f := Canon(r[..]);
    hide Times, Stores, FitsInt32, LowFactor;
    var i := 0;
    while i < 256
      invariant 0 <= i <= 256
      invariant forall j :: 0 <= j < i ==> Stores(r[j], Times(R, f[j]), Q - 1)
      invariant forall j :: i <= j < 256 ==> r[j] == old(r[j])
    {
      ToMontResidue(r[i]);
      r[i] := MontgomeryReduce(r[i] * R_SQUARED);
      i := i + 1;
    }
    StoresLayer(r[..], Scale(R, f), Q - 1);
  }

  /** poly.c:327-332: the residues stay, the representatives become centred. */
  method ReduceCoefficients(r: array<int16>)
    requires r.Length == 256
    modifies r
    ensures Canon(r[..]) == Canon(old(r[..]))
    ensures Within(r[..], (Q - 1) / 2)
  {
    var i := 0;
    while i < 256
      invariant 0 <= i <= 256
      invariant forall j :: 0 <= j < i ==> r[j] % Q == old(r[j]) % Q && -(Q - 1) / 2 <= r[j] <= (Q - 1) / 2
      invariant forall j :: i <= j < 256 ==> r[j] == old(r[j])
    {
      r[i] := BarrettReduce(r[i]);
      i := i + 1;
    }
  }

  /** poly.c:343-348. `r` may be one of the operands. The sums are int16 values as they stand. */
  method Add(r: array<int16>, a: array<int16>, b: array<int16>, ghost m: int, ghost n: int)
    requires r.Length == a.Length == b.Length == 256
    requires Within(a[..], m) && Within(b[..], n) && m + n < 0x8000
    modifies r
    ensures Canon(r[..]) == AddPoly(Canon(old(a[..])), Canon(old(b[..])))
    ensures Within(r[..], m + n) && forall i :: 0 <= i < 256 ==> r[i] == old(a[i]) + old(b[i])
  {
    ghost var f, g := a[..], b[..];
    var i := 0;
    while i < 256
      invariant 0 <= i <= 256
      invariant forall j :: 0 <= j < i ==> r[j] == f[j] + g[j]
      invariant forall j :: i <= j < 256 ==> a[j] == f[j] && b[j] == g[j]
    {
      r[i] := a[i] + b[i];
      i := i + 1;
    }
    assert r[..] == seq(256, j requires 0 <= j < 256 => f[j] + g[j]);
    CanonOfSum(f, g);
  }

  lemma CanonOfSum(f: seq<int>, g: seq<int>)
    requires |f| == |g| == 256
    ensures Canon(seq(256, j requires 0 <= j < 256 => f[j] + g[j])) == AddPoly(Canon(f), Canon(g))
    ensures Canon(seq(256, j requires 0 <= j < 256 => f[j] - g[j])) == SubPoly(Canon(f), Canon(g))
  {
    forall j | 0 <= j < 256
      ensures (f[j] + g[j]) % Q == (f[j] % Q + g[j] % Q) % Q
      ensures (f[j] - g[j]) % Q == (f[j] % Q - g[j] % Q) % Q
    {
      AddCong(f[j], f[j] % Q, g[j], g[j] % Q);
    }
  }

  /** poly.c:359-364 */
  method Sub(r: array<int16>, a: array<int16>, b: array<int16>, ghost m: int, ghost n: int)
    requires r.Length == a.Length == b.Length == 256
    requires Within(a[..], m) && Within(b[..], n) && m + n < 0x8000
    modifies r
    ensures Canon(r[..]) == SubPoly(Canon(old(a[..])), Canon(old(b[..])))
    ensures Within(r[..], m + n) && forall i :: 0 <= i < 256 ==> r[i] == old(a[i]) - old(b[i])
  {
    ghost var f, g := a[..], b[..];
    var i := 0;
    while i < 256
      invariant 0 <= i <= 256
      invariant forall j :: 0 <= j < i ==> r[j] == f[j] - g[j]
      invariant forall j :: i <= j < 256 ==> a[j] == f[j] && b[j] == g[j]
    {
      r[i] := a[i] - b[i];
      i := i + 1;
    }
    assert r[..] == seq(256, j requires 0 <= j < 256 => f[j] - g[j]);
    CanonOfSum(f, g);
  }
}
