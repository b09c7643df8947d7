// Linearity of the transforms and the ring laws of pairwise products.
module Linear {
  import opened ModQ
  import opened Zetas
  import opened NttSpec
  import opened Reduce
  import opened RingProduct

  // The transforms are linear.

  lemma {:induction false} ResidueAdd(a: seq<int>, b: seq<int>, rho: int, j: nat)
    requires |a| == |b| == 256
    ensures Residue(AddPoly(a, b), 2, rho, j) % Q == (Residue(a, 2, rho, j) + Residue(b, 2, rho, j)) % Q
    decreases 256 - j
  {
    hide *;
    if j < 256 {
      ResidueAdd(a, b, rho, j + 2);
      var x, y, z := Residue(a, 2, rho, j + 2), Residue(b, 2, rho, j + 2), Residue(AddPoly(a, b), 2, rho, j + 2);
      ResidueStep(a, rho, j);
      ResidueStep(b, rho, j);
      ResidueStep(AddPoly(a, b), rho, j);
      SumAt(a, b, j);
      AddStep(a[j], b[j], AddPoly(a, b)[j], rho, x, y, z);
    } else {
      ResidueEnd(a, rho, j);
      ResidueEnd(b, rho, j);
      ResidueEnd(AddPoly(a, b), rho, j);
    }
  }

  lemma ResidueStep(a: seq<int>, rho: int, j: nat)
    requires j < |a|
    ensures Residue(a, 2, rho, j) == a[j] + rho * Residue(a, 2, rho, j + 2)
  {
  }

  lemma ResidueEnd(a: seq<int>, rho: int, j: nat)
    requires j >= |a|
    ensures Residue(a, 2, rho, j) == 0
  {
  }

  lemma AddStep(a: int, b: int, c: int, rho: int, x: int, y: int, z: int)
    requires c % Q == (a + b) % Q && z % Q == (x + y) % Q
    ensures (c + rho * z) % Q == (a + rho * x + (b + rho * y)) % Q
  {
    MulCong(rho, rho, z, x + y);
    AddCong(c, a + b, rho * z, rho * (x + y));
    assert rho * (x + y) == rho * x + rho * y;
  }

  lemma ScaleStep(c: int, a: int, d: int, rho: int, x: int, z: int)
    requires d % Q == Times(c, a) && z % Q == Times(c, x)
    ensures (d + rho * z) % Q == Times(c, a + rho * x)
  {
    MulCong(rho, rho, z, c * x);
    AddCong(d, c * a, rho * z, rho * (c * x));
    assert c * (a + rho * x) == c * a + rho * (c * x) by {
      assert c * (a + rho * x) == c * a + c * (rho * x);
      assert c * (rho * x) == rho * (c * x);
    }
  }

  lemma {:induction false} ResidueScale(c: int, a: seq<int>, rho: int, j: nat)
    requires |a| == 256
    ensures Residue(Scale(c, a), 2, rho, j) % Q == Times(c, Residue(a, 2, rho, j))
    decreases 256 - j
  {
    hide Residue, Times, Scale;
    if j < 256 {
      ResidueScale(c, a, rho, j + 2);
      ResidueStep(a, rho, j);
      ResidueStep(Scale(c, a), rho, j);
      ScaledAt(c, a, j);
      ScaleStep(c, a[j], Scale(c, a)[j], rho, Residue(a, 2, rho, j + 2), Residue(Scale(c, a), 2, rho, j + 2));
    } else {
      ResidueEnd(a, rho, j);
      ResidueEnd(Scale(c, a), rho, j);
      TimesZero(c);
    }
  }

  lemma TimesZero(c: int)
    ensures Times(c, 0) == 0
  {
  }

  lemma SumAt(a: seq<int>, b: seq<int>, j: nat)
    requires |a| == |b| && j < |a|
    ensures AddPoly(a, b)[j] % Q == (a[j] + b[j]) % Q
  {
  }

  lemma ScaledAt(c: int, a: seq<int>, j: nat)
    requires j < |a|
    ensures Scale(c, a)[j] % Q == Scale(c, a)[j] == Times(c, a[j])
  {
  }

  lemma NttAdd(a: seq<int>, b: seq<int>)
    requires |a| == |b| == 256
    ensures Ntt(AddPoly(a, b)) == AddPoly(Ntt(a), Ntt(b))
  {
    hide Ntt, Residue, Root;
    forall i | 0 <= i < 256
      ensures Ntt(AddPoly(a, b))[i] == AddPoly(Ntt(a), Ntt(b))[i]
    {
      hide AddPoly;
      NttMeaning(a, i);
      NttMeaning(b, i);
      NttMeaning(AddPoly(a, b), i);
      ResidueAdd(a, b, Root(128 + i / 2), i % 2);
      AddCong(Ntt(a)[i], Residue(a, 2, Root(128 + i / 2), i % 2), Ntt(b)[i], Residue(b, 2, Root(128 + i / 2), i % 2));
      NttIsPoly(AddPoly(a, b));
    }
  }

  lemma NttScale(c: int, a: seq<int>)
    requires |a| == 256
    ensures Ntt(Scale(c, a)) == Scale(c, Ntt(a))
  {
    hide Ntt, Residue, Root, Times;
    forall i | 0 <= i < 256
      ensures Ntt(Scale(c, a))[i] == Scale(c, Ntt(a))[i]
    {
      NttMeaning(a, i);
      NttMeaning(Scale(c, a), i);
      ResidueScale(c, a, Root(128 + i / 2), i % 2);
      TimesCong(c, Ntt(a)[i], Residue(a, 2, Root(128 + i / 2), i % 2));
      NttIsPoly(Scale(c, a));
      ScaledAt(c, Ntt(a), i);
    }
  }

  /** An inverse transform is a polynomial. */
  lemma InvNttIsPoly(f: seq<int>)
    requires |f| == 256
    ensures IsPoly(InvNtt(f))
  {
    hide InvNttUp;
  }

  lemma InvNttAdd(f: seq<int>, g: seq<int>)
    requires IsPoly(f) && IsPoly(g)
    ensures InvNtt(AddPoly(f, g)) == AddPoly(InvNtt(f), InvNtt(g))
  {
    hide Ntt, InvNtt;
    InvNttIsPoly(f);
    InvNttIsPoly(g);
    NttAdd(InvNtt(f), InvNtt(g));
    NttOfInvNtt(f);
    NttOfInvNtt(g);
    InvNttOfNtt(AddPoly(InvNtt(f), InvNtt(g)));
  }

  lemma InvNttScale(c: int, f: seq<int>)
    requires IsPoly(f)
    ensures InvNtt(Scale(c, f)) == Scale(c, InvNtt(f))
  {
    hide Ntt, InvNtt, Times;
    InvNttIsPoly(f);
    NttScale(c, InvNtt(f));
    NttOfInvNtt(f);
    ScaleIsPoly(c, InvNtt(f));
    InvNttOfNtt(Scale(c, InvNtt(f)));
  }

  lemma ScaleIsPoly(c: int, f: seq<int>)
    requires |f| == 256
    ensures IsPoly(Scale(c, f))
  {
  }

  /** The accumulated factors 2^16 and 2^-16 cancel. */
  lemma MontgomeryCancels(f: seq<int>)
    requires IsPoly(f)
    ensures Scale(R, Scale(RINV, f)) == f
    ensures Scale(R, InvNtt(Scale(RINV, f))) == InvNtt(f)
  {
    hide InvNtt;
    InvNttScale(RINV, f);
    InvNttIsPoly(f);
    ScaleScale(R, RINV, f);
    ScaleOne(R * RINV, f);
    ScaleScale(R, RINV, InvNtt(f));
    ScaleOne(R * RINV, InvNtt(f));
  }

  /** What ntt, pairwise products and invntt compute together: the ring product, with no factor left over. */
  lemma ProductOfCode(a: seq<int>, b: seq<int>)
    requires |a| == |b| == 256
    ensures Scale(R, InvNtt(Scale(RINV, PairMul(Ntt(a), Ntt(b))))) == RingMul(a, b)
  {
    hide Ntt, InvNtt, RingMul, PairMul;
    MontgomeryCancels(PairMul(Ntt(a), Ntt(b)));
    ProductByTransforms(a, b);
  }

  // Ring laws of the pairwise product.

  lemma PairMulComm(f: seq<int>, g: seq<int>)
    requires |f| == |g| == 256
    ensures PairMul(f, g) == PairMul(g, f)
  {
    forall i | 0 <= i < 256
      ensures PairMulAt(f, g, i) == PairMulAt(g, f, i)
    {
      var o := i / 2 * 2;
      PairCommute(f[o], f[o + 1], g[o], g[o + 1], Root(128 + i / 2));
    }
  }

  lemma PairCommute(f0: int, f1: int, g0: int, g1: int, c: int)
    ensures PairEven(f0, f1, g0, g1, c) == PairEven(g0, g1, f0, f1, c)
    ensures PairOdd(f0, f1, g0, g1) == PairOdd(g0, g1, f0, f1)
  {
  }

  lemma PairMulAdd(f: seq<int>, g: seq<int>, h: seq<int>)
    requires |f| == |g| == |h| == 256
    ensures PairMul(f, AddPoly(g, h)) == AddPoly(PairMul(f, g), PairMul(f, h))
  {
    hide PairEven, PairOdd, Root;
    var s := AddPoly(g, h);
    forall i | 0 <= i < 256
      ensures PairMulAt(f, s, i) == (PairMulAt(f, g, i) + PairMulAt(f, h, i)) % Q
    {
      var o := i / 2 * 2;
      PairDistribute(f[o], f[o + 1], g[o], g[o + 1], h[o], h[o + 1], s[o], s[o + 1], Root(128 + i / 2));
    }
  }

  lemma PairDistribute(f0: int, f1: int, g0: int, g1: int, h0: int, h1: int, s0: int, s1: int, c: int)
    requires s0 == (g0 + h0) % Q && s1 == (g1 + h1) % Q
    ensures PairEven(f0, f1, s0, s1, c) == (PairEven(f0, f1, g0, g1, c) + PairEven(f0, f1, h0, h1, c)) % Q
    ensures PairOdd(f0, f1, s0, s1) == (PairOdd(f0, f1, g0, g1) + PairOdd(f0, f1, h0, h1)) % Q
  {
    hide PairEven, PairOdd;
    PairCong(f0, f1, s0, s1, f0, f1, g0 + h0, g1 + h1, c);
    PairDistributeExact(f0, f1, g0, g1, h0, h1, c);
  }

  lemma PairDistributeExact(f0: int, f1: int, g0: int, g1: int, h0: int, h1: int, c: int)
    ensures PairEven(f0, f1, g0 + h0, g1 + h1, c) == (PairEven(f0, f1, g0, g1, c) + PairEven(f0, f1, h0, h1, c)) % Q
    ensures PairOdd(f0, f1, g0 + h0, g1 + h1) == (PairOdd(f0, f1, g0, g1) + PairOdd(f0, f1, h0, h1)) % Q
  {
    Expand(f0, f1, g0, g1, h0, h1, c);
    ResidueOfSum(f0 * (g0 + h0) + c * (f1 * (g1 + h1)), f0 * g0 + c * (f1 * g1), f0 * h0 + c * (f1 * h1));
    ResidueOfSum(f0 * (g1 + h1) + f1 * (g0 + h0), f0 * g1 + f1 * g0, f0 * h1 + f1 * h0);
  }

  lemma ResidueOfSum(s: int, x: int, y: int)
    requires s == x + y
    ensures s % Q == (x % Q + y % Q) % Q
  {
  }

  lemma Expand(f0: int, f1: int, g0: int, g1: int, h0: int, h1: int, c: int)
    ensures f0 * (g0 + h0) + c * (f1 * (g1 + h1)) == f0 * g0 + c * (f1 * g1) + (f0 * h0 + c * (f1 * h1))
    ensures f0 * (g1 + h1) + f1 * (g0 + h0) == f0 * g1 + f1 * g0 + (f0 * h1 + f1 * h0)
  {
    assert c * (f1 * (g1 + h1)) == c * (f1 * g1 + f1 * h1);
  }

  lemma PairMulAssoc(f: seq<int>, g: seq<int>, h: seq<int>)
    requires |f| == |g| == |h| == 256
    ensures PairMul(PairMul(f, g), h) == PairMul(f, PairMul(g, h))
  {
    hide PairEven, PairOdd, Root;
    forall i | 0 <= i < 256
      ensures PairMulAt(PairMul(f, g), h, i) == PairMulAt(f, PairMul(g, h), i)
    {
      var o, c := i / 2 * 2, Root(128 + i / 2);
      PairMulOf(f, g, o);
      PairMulOf(g, h, o);
      PairAssociate(f[o], f[o + 1], g[o], g[o + 1], h[o], h[o + 1], c);
    }
  }

  lemma PairMulOf(f: seq<int>, g: seq<int>, o: nat)
    requires |f| == |g| == 256 && o < 256 && o % 2 == 0
    ensures PairMul(f, g)[o] == PairEven(f[o], f[o + 1], g[o], g[o + 1], Root(128 + o / 2))
    ensures PairMul(f, g)[o + 1] == PairOdd(f[o], f[o + 1], g[o], g[o + 1])
  {
  }

  lemma PairAssociate(f0: int, f1: int, g0: int, g1: int, h0: int, h1: int, c: int)
    ensures PairEven(PairEven(f0, f1, g0, g1, c), PairOdd(f0, f1, g0, g1), h0, h1, c)
         == PairEven(f0, f1, PairEven(g0, g1, h0, h1, c), PairOdd(g0, g1, h0, h1), c)
    ensures PairOdd(PairEven(f0, f1, g0, g1, c), PairOdd(f0, f1, g0, g1), h0, h1)
         == PairOdd(f0, f1, PairEven(g0, g1, h0, h1, c), PairOdd(g0, g1, h0, h1))
  {
    hide PairEven, PairOdd;
    var a0, a1 := f0 * g0 + c * (f1 * g1), f0 * g1 + f1 * g0;
    var b0, b1 := g0 * h0 + c * (g1 * h1), g0 * h1 + g1 * h0;
    PairResidues(f0, f1, g0, g1, c);
    PairResidues(g0, g1, h0, h1, c);
    PairCong(PairEven(f0, f1, g0, g1, c), PairOdd(f0, f1, g0, g1), h0, h1, a0, a1, h0, h1, c);
    PairCong(f0, f1, PairEven(g0, g1, h0, h1, c), PairOdd(g0, g1, h0, h1), f0, f1, b0, b1, c);
    PairResidues(a0, a1, h0, h1, c);
    PairResidues(f0, f1, b0, b1, c);
    TripleEven(f0, f1, g0, g1, h0, h1, c);
    TripleOdd(f0, f1, g0, g1, h0, h1, c);
  }

  lemma PairResidues(f0: int, f1: int, g0: int, g1: int, c: int)
    ensures PairEven(f0, f1, g0, g1, c) == (f0 * g0 + c * (f1 * g1)) % Q
    ensures PairEven(f0, f1, g0, g1, c) % Q == (f0 * g0 + c * (f1 * g1)) % Q
    ensures PairOdd(f0, f1, g0, g1) == (f0 * g1 + f1 * g0) % Q
    ensures PairOdd(f0, f1, g0, g1) % Q == (f0 * g1 + f1 * g0) % Q
  {
  }

  lemma TimesSum(p: int, x: int, y: int)
    ensures p * (x + y) == p * x + p * y
    ensures (x + y) * p == x * p + y * p
  {
  }

  lemma Regroup4(c: int, x: int, y: int, z: int)
    ensures c * (x * y) * z == c * (x * (y * z))
    ensures c * (x * y * z) == c * (x * (y * z))
    ensures x * (c * (y * z)) == c * (x * (y * z))
  {
    assert x * y * z == x * (y * z);
    assert c * (x * y) * z == c * (x * y * z);
  }

  lemma TripleEven(f0: int, f1: int, g0: int, g1: int, h0: int, h1: int, c: int)
    ensures (f0 * g0 + c * (f1 * g1)) * h0 + c * ((f0 * g1 + f1 * g0) * h1)
         == f0 * (g0 * h0 + c * (g1 * h1)) + c * (f1 * (g0 * h1 + g1 * h0))
  {
    TimesSum(h0, f0 * g0, c * (f1 * g1));
    TimesSum(h1, f0 * g1, f1 * g0);
    TimesSum(c, f0 * g1 * h1, f1 * g0 * h1);
    TimesSum(f0, g0 * h0, c * (g1 * h1));
    TimesSum(f1, g0 * h1, g1 * h0);
    TimesSum(c, f1 * (g0 * h1), f1 * (g1 * h0));
    Regroup4(c, f1, g1, h0);
    Regroup4(c, f0, g1, h1);
    Regroup4(c, f1, g0, h1);
    Regroup4(1, f0, g0, h0);
  }

  lemma TripleOdd(f0: int, f1: int, g0: int, g1: int, h0: int, h1: int, c: int)
    ensures (f0 * g0 + c * (f1 * g1)) * h1 + (f0 * g1 + f1 * g0) * h0
         == f0 * (g0 * h1 + g1 * h0) + f1 * (g0 * h0 + c * (g1 * h1))
  {
    assert (f0 * g0 + c * (f1 * g1)) * h1 == f0 * g0 * h1 + c * f1 * g1 * h1;
    assert (f0 * g1 + f1 * g0) * h0 == f0 * g1 * h0 + f1 * g0 * h0;
    assert f0 * (g0 * h1 + g1 * h0) == f0 * g0 * h1 + f0 * g1 * h0;
    assert f1 * (g0 * h0 + c * (g1 * h1)) == f1 * g0 * h0 + c * f1 * g1 * h1;
  }
}
