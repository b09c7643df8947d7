// Multiplication in Z_q[X]/(X^256 + 1), and why it may be done on transforms.
module RingProduct {
  import opened IntFacts
  import opened ModQ
  import opened Zetas
  import opened NttSpec

  /** Coefficient t of b, where indices below 0 wrap around with a change of sign: X^256 is -1. */
  function Wrapped(b: seq<int>, t: int): int
    requires |b| == 256 && -256 <= t < 256
  {
    if t >= 0 then b[t] else -b[t + 256]
  }

  /** The part of coefficient k of a*b that comes from a[n..]. */
  function ConvFrom(a: seq<int>, b: seq<int>, k: int, n: int): int
    requires |a| == |b| == 256 && 0 <= k < 256 && 0 <= n <= 256
    decreases 256 - n
  {
    if n == 256 then 0 else a[n] * Wrapped(b, k - n) + ConvFrom(a, b, k, n + 1)
  }

  /** The product of two polynomials modulo X^256 + 1 and modulo q. */
  function RingMul(a: seq<int>, b: seq<int>): (c: seq<int>)
    requires |a| == |b| == 256
    ensures IsPoly(c)
  {
    seq(256, k requires 0 <= k < 256 => ConvFrom(a, b, k, 0) % Q)
  }

  /** Products of pairs modulo X^2 - gamma. */
  function PairEven(f0: int, f1: int, g0: int, g1: int, gamma: int): int {
    (f0 * g0 + gamma * (f1 * g1)) % Q
  }

  function PairOdd(f0: int, f1: int, g0: int, g1: int): int {
    (f0 * g1 + f1 * g0) % Q
  }

  function PairMulAt(f: seq<int>, g: seq<int>, i: int): int
    requires |f| == |g| == 256 && 0 <= i < 256
  {
    if i % 2 == 0 then
      PairEven(f[i], f[i + 1], g[i], g[i + 1], Root(128 + i / 2))
    else
      PairOdd(f[i - 1], f[i], g[i - 1], g[i])
  }

  /** Multiplication of transforms, pair by pair (FIPS 203, section 4.3.1). */
  function PairMul(f: seq<int>, g: seq<int>): (h: seq<int>)
    requires |f| == |g| == 256
    ensures IsPoly(h)
    ensures forall i :: 0 <= i < 256 ==> h[i] == PairMulAt(f, g, i)
  {
    seq(256, i requires 0 <= i < 256 => PairMulAt(f, g, i))
  }

  // Residues of multiples of X^n.

  lemma {:induction false} ResidueShiftEven(g: seq<int>, s: seq<int>, gamma: int, j: nat)
    requires |g| == |s| == 256 && j % 2 == 0
    requires forall k :: 0 <= k < 255 ==> s[k + 1] == g[k]
    ensures Residue(s, 2, gamma, j + 1) == Residue(g, 2, gamma, j)
    decreases 256 - j
  {
    if j < 256 {
      ResidueShiftEven(g, s, gamma, j + 2);
      assert s[j + 1] == g[j];
    }
  }

  lemma {:induction false} ResidueShiftOdd(g: seq<int>, s: seq<int>, gamma: int, m: nat)
    requires |g| == |s| == 256 && m <= 127
    requires forall k :: 0 <= k < 255 ==> s[k + 1] == g[k]
    ensures Residue(g, 2, gamma, 255 - 2 * m) == Residue(s, 2, gamma, 256 - 2 * m) + Pow(gamma, m) * g[255]
  {
    var j := 255 - 2 * m;
    if m != 0 {
      ResidueShiftOdd(g, s, gamma, m - 1);
      assert s[j + 1] == g[j];
      var r, p := Residue(s, 2, gamma, j + 3), Pow(gamma, m - 1);
      assert gamma * (r + p * g[255]) == gamma * r + gamma * p * g[255] by { MulDistribute(gamma, r, p, g[255]); }
    } else {
      assert Residue(g, 2, gamma, 257) == 0;
    }
  }

  lemma MulDistribute(x: int, r: int, p: int, c: int)
    ensures x * (r + p * c) == x * r + x * p * c
  {
    assert x * (r + p * c) == x * r + x * (p * c);
    assert x * (p * c) == x * p * c;
  }

  /** Multiplication by X swaps the two residues and multiplies one by gamma, a 128th root of -1. */
  lemma ResidueTimesX(g: seq<int>, s: seq<int>, gamma: int, h: nat)
    requires |g| == |s| == 256 && h == 128 && Pow(gamma, h) % Q == Q - 1
    requires s[0] == -g[255] && forall k :: 0 <= k < 255 ==> s[k + 1] == g[k]
    ensures Residue(s, 2, gamma, 1) == Residue(g, 2, gamma, 0)
    ensures Residue(s, 2, gamma, 0) % Q == (gamma * Residue(g, 2, gamma, 1)) % Q
  {
    var r, p, c := Residue(s, 2, gamma, 2), Pow(gamma, h - 1), g[255];
    ResidueShiftEven(g, s, gamma, 0);
    ResidueShiftOdd(g, s, gamma, h - 1);
    assert Residue(s, 2, gamma, 0) == -c + gamma * r;
    assert gamma * (r + p * c) == gamma * r + Pow(gamma, h) * c by { MulDistribute(gamma, r, p, c); }
    hide *;
    MulCong(Pow(gamma, h), -1, c, c);
    AddCong(gamma * r, gamma * r, Pow(gamma, h) * c, -c);
  }

  /** X^n * b. */
  function TimesXn(b: seq<int>, n: int): (s: seq<int>)
    requires |b| == 256 && 0 <= n <= 256
    ensures |s| == 256
    ensures forall k :: 0 <= k < 256 ==> s[k] == Wrapped(b, k - n)
  {
    seq(256, k requires 0 <= k < 256 => Wrapped(b, k - n))
  }

  lemma TimesXnStep(b: seq<int>, n: int, gamma: int, h: nat)
    requires |b| == 256 && 0 <= n < 256 && h == 128 && Pow(gamma, h) % Q == Q - 1
    ensures Residue(TimesXn(b, n + 1), 2, gamma, 1) == Residue(TimesXn(b, n), 2, gamma, 0)
    ensures Residue(TimesXn(b, n + 1), 2, gamma, 0) % Q == (gamma * Residue(TimesXn(b, n), 2, gamma, 1)) % Q
  {
    var g, s := TimesXn(b, n), TimesXn(b, n + 1);
    assert s[0] == -g[255];
    assert forall k :: 0 <= k < 255 ==> s[k + 1] == g[k];
    ResidueTimesX(g, s, gamma, h);
  }

  lemma {:induction false} ResidueLinear(f: seq<int>, g: seq<int>, h: seq<int>, c: int, gamma: int, j: nat)
    requires |f| == |g| == |h| == 256
    requires forall k :: 0 <= k < 256 ==> f[k] == c * g[k] + h[k]
    ensures Residue(f, 2, gamma, j) == c * Residue(g, 2, gamma, j) + Residue(h, 2, gamma, j)
    decreases 256 - j
  {
    if j < 256 {
      ResidueLinear(f, g, h, c, gamma, j + 2);
      LinearStep(gamma, c, g[j], h[j], Residue(g, 2, gamma, j + 2), Residue(h, 2, gamma, j + 2));
    }
  }

  lemma LinearStep(gamma: int, c: int, x: int, y: int, r: int, t: int)
    ensures c * x + y + gamma * (c * r + t) == c * (x + gamma * r) + (y + gamma * t)
  {
    assert gamma * (c * r + t) == gamma * (c * r) + gamma * t;
    assert c * (x + gamma * r) == c * x + c * (gamma * r);
    assert gamma * (c * r) == c * (gamma * r);
  }

  function ConvTail(a: seq<int>, b: seq<int>, n: int): (s: seq<int>)
    requires |a| == |b| == 256 && 0 <= n <= 256
    ensures |s| == 256
    ensures forall k :: 0 <= k < 256 ==> s[k] == ConvFrom(a, b, k, n)
  {
    seq(256, k requires 0 <= k < 256 => ConvFrom(a, b, k, n))
  }

  /** The two residues of the tail a[n..]*b, from those of a[n..] and of X^n * b. */
  lemma {:induction false} ConvTailResidues(a: seq<int>, b: seq<int>, n: int, gamma: int, h: nat)
    requires |a| == |b| == 256 && 0 <= n <= 256 && h == 128 && Pow(gamma, h) % Q == Q - 1
    ensures Residue(ConvTail(a, b, n), 2, gamma, 0) % Q
         == PairEven(Residue(a, 2, gamma, n), Residue(a, 2, gamma, n + 1),
                     Residue(TimesXn(b, n), 2, gamma, 0), Residue(TimesXn(b, n), 2, gamma, 1), gamma)
    ensures Residue(ConvTail(a, b, n), 2, gamma, 1) % Q
         == PairOdd(Residue(a, 2, gamma, n), Residue(a, 2, gamma, n + 1),
                    Residue(TimesXn(b, n), 2, gamma, 0), Residue(TimesXn(b, n), 2, gamma, 1))
    decreases 256 - n
  {
    var c, w := ConvTail(a, b, n), TimesXn(b, n);
    if n == 256 {
      ZeroResidue(c, gamma, 0);
      ZeroResidue(c, gamma, 1);
    } else {
      var c', w' := ConvTail(a, b, n + 1), TimesXn(b, n + 1);
      ConvTailResidues(a, b, n + 1, gamma, h);
      TimesXnStep(b, n, gamma, h);
      ResidueLinear(c, w, c', a[n], gamma, 0);
      ResidueLinear(c, w, c', a[n], gamma, 1);
      assert Residue(a, 2, gamma, n) == a[n] + gamma * Residue(a, 2, gamma, n + 2);
      TailStep(a[n], gamma, Residue(a, 2, gamma, n + 1), Residue(a, 2, gamma, n + 2),
               Residue(w, 2, gamma, 0), Residue(w, 2, gamma, 1), Residue(w', 2, gamma, 0),
               Residue(c', 2, gamma, 0), Residue(c', 2, gamma, 1));
    }
  }

  lemma {:induction false} ZeroResidue(c: seq<int>, gamma: int, j: nat)
    requires |c| == 256 && forall k :: 0 <= k < 256 ==> c[k] == 0
    ensures Residue(c, 2, gamma, j) == 0
    decreases 256 - j
  {
    if j < 256 {
      ZeroResidue(c, gamma, j + 2);
    }
  }

  /** One step of the product in Z_q[X]/(X^2 - gamma). */
  lemma TailStep(x: int, gamma: int, f1: int, f2: int, w0: int, w1: int, v0: int, e: int, o: int)
    requires v0 % Q == (gamma * w1) % Q
    requires e % Q == PairEven(f1, f2, v0, w0, gamma) && o % Q == PairOdd(f1, f2, v0, w0)
    ensures (x * w0 + e) % Q == PairEven(x + gamma * f2, f1, w0, w1, gamma)
    ensures (x * w1 + o) % Q == PairOdd(x + gamma * f2, f1, w0, w1)
  {
    var u := gamma * w1;
    MulCong(f1, f1, v0, u);
    MulCong(f2, f2, v0, u);
    var e', o' := f1 * u + gamma * (f2 * w0), f1 * w0 + f2 * u;
    AddCong(f1 * v0, f1 * u, gamma * (f2 * w0), gamma * (f2 * w0));
    AddCong(f1 * w0, f1 * w0, f2 * v0, f2 * u);
    AddCong(x * w0, x * w0, e, e');
    AddCong(x * w1, x * w1, o, o');
    TailAlgebra(x, gamma, f1, f2, w0, w1);
  }

  lemma TailAlgebra(x: int, gamma: int, f1: int, f2: int, w0: int, w1: int)
    ensures x * w0 + (f1 * (gamma * w1) + gamma * (f2 * w0)) == (x + gamma * f2) * w0 + gamma * (f1 * w1)
    ensures x * w1 + (f1 * w0 + f2 * (gamma * w1)) == (x + gamma * f2) * w1 + f1 * w0
  {
    assert f1 * (gamma * w1) == gamma * (f1 * w1);
    assert (x + gamma * f2) * w0 == x * w0 + gamma * (f2 * w0);
    assert f2 * (gamma * w1) == gamma * f2 * w1;
    assert (x + gamma * f2) * w1 == x * w1 + gamma * f2 * w1;
  }

  lemma {:induction false} ResidueOfCanon(f: seq<int>, g: seq<int>, gamma: int, j: nat)
    requires |f| == |g| && forall k :: 0 <= k < |f| ==> f[k] % Q == g[k] % Q
    ensures Residue(f, 2, gamma, j) % Q == Residue(g, 2, gamma, j) % Q
    decreases |f| - j
  {
    if j < |f| {
      var x, y := Residue(f, 2, gamma, j + 2), Residue(g, 2, gamma, j + 2);
      ResidueOfCanon(f, g, gamma, j + 2);
      MulCong(gamma, gamma, x, y);
      AddCong(f[j], g[j], gamma * x, gamma * y);
    }
  }

  lemma PairCong(f0: int, f1: int, g0: int, g1: int, f0': int, f1': int, g0': int, g1': int, gamma: int)
    requires f0 % Q == f0' % Q && f1 % Q == f1' % Q && g0 % Q == g0' % Q && g1 % Q == g1' % Q
    ensures PairEven(f0, f1, g0, g1, gamma) == PairEven(f0', f1', g0', g1', gamma)
    ensures PairOdd(f0, f1, g0, g1) == PairOdd(f0', f1', g0', g1')
  {
    MulCong(f0, f0', g0, g0');
    MulCong(f1, f1', g1, g1');
    MulCong(f0, f0', g1, g1');
    MulCong(f1, f1', g0, g0');
    MulCong(gamma, gamma, f1 * g1, f1' * g1');
    AddCong(f0 * g0, f0' * g0', gamma * (f1 * g1), gamma * (f1' * g1'));
    AddCong(f0 * g1, f0' * g1', f1 * g0, f1' * g0');
  }

  lemma NttIsPoly(f: seq<int>)
    requires |f| == 256
    ensures IsPoly(Ntt(f))
  {
    hide Zeta, NttDown;
    assert Ntt(f) == Layer(2, NttDown(4, f)) by { NttDownStep(2, f); }
  }

  lemma LeafPair(a: seq<int>, p: nat, i: nat, gamma: int)
    requires |a| == 256 && p < 128 && i == 2 * p && gamma == Root(128 + p)
    ensures Ntt(a)[i] % Q == Residue(a, 2, gamma, 0) % Q
    ensures Ntt(a)[i + 1] % Q == Residue(a, 2, gamma, 1) % Q
  {
    hide *;
    NttMeaning(a, i);
    NttMeaning(a, i + 1);
    assert i / 2 == p && (i + 1) / 2 == p && i % 2 == 0 && (i + 1) % 2 == 1;
  }

  lemma ProductResidues(a: seq<int>, b: seq<int>, p: nat, gamma: int)
    requires |a| == |b| == 256 && p < 128 && gamma == Root(128 + p)
    ensures Residue(RingMul(a, b), 2, gamma, 0) % Q
         == PairEven(Residue(a, 2, gamma, 0), Residue(a, 2, gamma, 1),
                     Residue(b, 2, gamma, 0), Residue(b, 2, gamma, 1), gamma)
    ensures Residue(RingMul(a, b), 2, gamma, 1) % Q
         == PairOdd(Residue(a, 2, gamma, 0), Residue(a, 2, gamma, 1),
                    Residue(b, 2, gamma, 0), Residue(b, 2, gamma, 1))
  {
    hide Residue, Root, Pow, PairEven, PairOdd, ConvFrom;
    var h := 128;
    var t := ConvTail(a, b, 0);
    assert TimesXn(b, 0) == b;
    LeafRootPower(p, h);
    ConvTailResidues(a, b, 0, gamma, h);
    ResidueOfCanon(RingMul(a, b), t, gamma, 0);
    ResidueOfCanon(RingMul(a, b), t, gamma, 1);
  }

  lemma NttOfProductPair(a: seq<int>, b: seq<int>, p: nat, i: nat)
    requires |a| == |b| == 256 && p < 128 && i == 2 * p
    ensures Ntt(RingMul(a, b))[i] == PairMulAt(Ntt(a), Ntt(b), i)
    ensures Ntt(RingMul(a, b))[i + 1] == PairMulAt(Ntt(a), Ntt(b), i + 1)
  {
    hide Ntt, Residue, Root, RingMul, PairEven, PairOdd;
    var f, g, c, gamma := Ntt(a), Ntt(b), RingMul(a, b), Root(128 + p);
    assert PairMulAt(f, g, i) == PairEven(f[i], f[i + 1], g[i], g[i + 1], gamma);
    assert PairMulAt(f, g, i + 1) == PairOdd(f[i], f[i + 1], g[i], g[i + 1]);
    NttIsPoly(c);
    assert 0 <= Ntt(c)[i] < Q && 0 <= Ntt(c)[i + 1] < Q;
    LeafPair(a, p, i, gamma);
    LeafPair(b, p, i, gamma);
    LeafPair(c, p, i, gamma);
    ProductResidues(a, b, p, gamma);
    PairCong(f[i], f[i + 1], g[i], g[i + 1], Residue(a, 2, gamma, 0), Residue(a, 2, gamma, 1),
             Residue(b, 2, gamma, 0), Residue(b, 2, gamma, 1), gamma);
  }

  /** The transform is a ring homomorphism: products become products of pairs. */
  lemma NttOfProduct(a: seq<int>, b: seq<int>)
    requires |a| == |b| == 256
    ensures Ntt(RingMul(a, b)) == PairMul(Ntt(a), Ntt(b))
  {
    hide Ntt, RingMul, PairMulAt;
    forall i | 0 <= i < 256
      ensures Ntt(RingMul(a, b))[i] == PairMulAt(Ntt(a), Ntt(b), i)
    {
      NttOfProductPair(a, b, i / 2, i / 2 * 2);
    }
  }

  /** The multiplication theorem: transform, multiply pair by pair, transform back. */
  lemma ProductByTransforms(a: seq<int>, b: seq<int>)
    requires |a| == |b| == 256
    ensures InvNtt(PairMul(Ntt(a), Ntt(b))) == RingMul(a, b)
  {
    NttOfProduct(a, b);
    InvNttOfNtt(RingMul(a, b));
  }
}
