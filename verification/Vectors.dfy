// Vectors and matrices of polynomials in the transform domain.
module Vectors {
  import opened ModQ
  import opened NttSpec
  import opened RingProduct
  import opened Linear

  predicate IsPolys(f: seq<seq<int>>) {
    forall i :: 0 <= i < |f| ==> IsPoly(f[i])
  }

  function Zero(): (z: seq<int>)
    ensures IsPoly(z)
  {
    seq(256, i => 0)
  }

  function NttVec(f: seq<seq<int>>): (g: seq<seq<int>>)
    requires IsPolys(f)
    ensures |g| == |f| && IsPolys(g) && forall i :: 0 <= i < |f| ==> g[i] == Ntt(f[i])
  {
    NttVecIsPolys(f);
    seq(|f|, i requires 0 <= i < |f| => Ntt(f[i]))
  }

  lemma NttVecIsPolys(f: seq<seq<int>>)
    requires IsPolys(f)
    ensures forall i :: 0 <= i < |f| ==> IsPoly(Ntt(f[i]))
  {
    hide Ntt;
    forall i | 0 <= i < |f|
      ensures IsPoly(Ntt(f[i]))
    {
      NttIsPoly(f[i]);
    }
  }

  function InvNttVec(f: seq<seq<int>>): (g: seq<seq<int>>)
    requires IsPolys(f)
    ensures |g| == |f| && IsPolys(g) && forall i :: 0 <= i < |f| ==> g[i] == InvNtt(f[i])
  {
    seq(|f|, i requires 0 <= i < |f| => InvNtt(f[i]))
  }

  function AddVec(f: seq<seq<int>>, g: seq<seq<int>>): (h: seq<seq<int>>)
    requires |f| == |g| && IsPolys(f) && IsPolys(g)
    ensures |h| == |f| && IsPolys(h) && forall i :: 0 <= i < |f| ==> h[i] == AddPoly(f[i], g[i])
  {
    seq(|f|, i requires 0 <= i < |f| => AddPoly(f[i], g[i]))
  }

  /** The inner product of two vectors of transforms. */
  function Dot(f: seq<seq<int>>, g: seq<seq<int>>): (h: seq<int>)
    requires |f| == |g| && IsPolys(f) && IsPolys(g)
    ensures IsPoly(h)
  {
    if |f| == 0 then Zero()
    else AddPoly(Dot(f[..|f| - 1], g[..|f| - 1]), PairMul(f[|f| - 1], g[|f| - 1]))
  }

  /** A matrix with `rows` rows and `columns` columns. */
  predicate IsMatrix(a: seq<seq<seq<int>>>, rows: nat, columns: nat) {
    |a| == rows && forall i :: 0 <= i < rows ==> |a[i]| == columns && IsPolys(a[i])
  }

  function MatVec(a: seq<seq<seq<int>>>, f: seq<seq<int>>): (h: seq<seq<int>>)
    requires IsMatrix(a, |a|, |f|) && IsPolys(f)
    ensures |h| == |a| && IsPolys(h) && forall i :: 0 <= i < |a| ==> h[i] == Dot(a[i], f)
  {
    seq(|a|, i requires 0 <= i < |a| => Dot(a[i], f))
  }

  function Column(a: seq<seq<seq<int>>>, columns: nat, j: nat): (c: seq<seq<int>>)
    requires IsMatrix(a, |a|, columns) && j < columns
    ensures |c| == |a| && IsPolys(c) && forall i :: 0 <= i < |a| ==> c[i] == a[i][j]
  {
    seq(|a|, i requires 0 <= i < |a| => a[i][j])
  }

  function Transpose(a: seq<seq<seq<int>>>, columns: nat): (t: seq<seq<seq<int>>>)
    requires IsMatrix(a, |a|, columns)
    ensures IsMatrix(t, columns, |a|)
    ensures forall j :: 0 <= j < columns ==> t[j] == Column(a, columns, j)
  {
    seq(columns, j requires 0 <= j < columns => Column(a, columns, j))
  }

  // Laws.

  lemma AddPolyZero(f: seq<int>)
    requires IsPoly(f)
    ensures AddPoly(Zero(), f) == f
    ensures AddPoly(f, Zero()) == f
  {
  }

  lemma AddPolyComm(f: seq<int>, g: seq<int>)
    requires |f| == |g|
    ensures AddPoly(f, g) == AddPoly(g, f)
  {
  }

  lemma AddPolyAssoc(f: seq<int>, g: seq<int>, h: seq<int>)
    requires |f| == |g| == |h|
    ensures AddPoly(AddPoly(f, g), h) == AddPoly(f, AddPoly(g, h))
  {
  }

  lemma AddPolyIsPoly(f: seq<int>, g: seq<int>)
    requires |f| == |g| == 256
    ensures IsPoly(AddPoly(f, g))
  {
  }

  /** (a + b) + (c + d) == (a + c) + (b + d) */
  lemma AddPolySwap(a: seq<int>, b: seq<int>, c: seq<int>, d: seq<int>)
    requires |a| == |b| == |c| == |d|
    ensures AddPoly(AddPoly(a, b), AddPoly(c, d)) == AddPoly(AddPoly(a, c), AddPoly(b, d))
  {
    hide AddPoly;
    AddPolyAssoc(a, b, AddPoly(c, d));
    AddPolyAssoc(b, c, d);
    AddPolyComm(b, c);
    AddPolyAssoc(c, b, d);
    AddPolyAssoc(a, c, AddPoly(b, d));
  }

  lemma PairMulZero(f: seq<int>)
    requires |f| == 256
    ensures PairMul(f, Zero()) == Zero()
  {
    forall i | 0 <= i < 256
      ensures PairMulAt(f, Zero(), i) == 0
    {
      PairOfZero(f[i], f[if i % 2 == 0 then i + 1 else i - 1], Zetas.Root(128 + i / 2));
    }
  }

  lemma PairOfZero(x: int, y: int, c: int)
    ensures PairEven(x, y, 0, 0, c) == 0 && PairOdd(x, y, 0, 0) == 0 && PairOdd(y, x, 0, 0) == 0
  {
    assert c * (y * 0) == 0;
  }

  lemma {:induction false} DotComm(f: seq<seq<int>>, g: seq<seq<int>>)
    requires |f| == |g| && IsPolys(f) && IsPolys(g)
    ensures Dot(f, g) == Dot(g, f)
  {
    hide PairMul, AddPoly;
    if |f| != 0 {
      var n := |f| - 1;
      DotComm(f[..n], g[..n]);
      PairMulComm(f[n], g[n]);
    }
  }

  lemma {:induction false} DotAdd(f: seq<seq<int>>, g: seq<seq<int>>, h: seq<seq<int>>)
    requires |f| == |g| == |h| && IsPolys(f) && IsPolys(g) && IsPolys(h)
    ensures Dot(f, AddVec(g, h)) == AddPoly(Dot(f, g), Dot(f, h))
  {
    hide PairMul, AddPoly;
    if |f| == 0 {
      AddPolyZero(Zero());
    } else {
      var n := |f| - 1;
      DotAdd(f[..n], g[..n], h[..n]);
      assert AddVec(g, h)[..n] == AddVec(g[..n], h[..n]);
      PairMulAdd(f[n], g[n], h[n]);
      AddPolySwap(Dot(f[..n], g[..n]), Dot(f[..n], h[..n]), PairMul(f[n], g[n]), PairMul(f[n], h[n]));
    }
  }

  /** Every entry times the same polynomial. */
  function TimesVec(f: seq<seq<int>>, p: seq<int>): (h: seq<seq<int>>)
    requires IsPolys(f) && IsPoly(p)
    ensures |h| == |f| && IsPolys(h) && forall i :: 0 <= i < |f| ==> h[i] == PairMul(f[i], p)
  {
    seq(|f|, i requires 0 <= i < |f| => PairMul(f[i], p))
  }

  lemma {:induction false} DotTimes(f: seq<seq<int>>, g: seq<seq<int>>, p: seq<int>)
    requires |f| == |g| && IsPolys(f) && IsPolys(g) && IsPoly(p)
    ensures Dot(f, TimesVec(g, p)) == PairMul(p, Dot(f, g))
  {
    hide PairMul, AddPoly;
    if |f| == 0 {
      PairMulZero(p);
    } else {
      var n := |f| - 1;
      DotTimes(f[..n], g[..n], p);
      assert TimesVec(g, p)[..n] == TimesVec(g[..n], p);
      PairMulAssoc(f[n], g[n], p);
      PairMulComm(PairMul(f[n], g[n]), p);
      PairMulAdd(p, Dot(f[..n], g[..n]), PairMul(f[n], g[n]));
    }
  }

  /** A product may be moved to the other side by transposing: (A f) . g == f . (A^T g). */
  lemma {:induction false} DotOfTranspose(a: seq<seq<seq<int>>>, f: seq<seq<int>>, g: seq<seq<int>>)
    requires IsMatrix(a, |g|, |f|) && IsPolys(f) && IsPolys(g)
    ensures Dot(MatVec(a, f), g) == Dot(f, MatVec(Transpose(a, |f|), g))
    decreases |g|
  {
    hide PairMul, AddPoly, Dot;
    if |g| == 0 {
      DotNothing(MatVec(a, f), g);
      ColumnsNothing(a, f, g);
      DotZero(f);
    } else {
      var n, c := |g| - 1, |f|;
      var b, row := a[..n], a[n];
      DotOfTranspose(b, f, g[..n]);
      DotLast(MatVec(a, f), g);
      assert MatVec(a, f)[..n] == MatVec(b, f);
      forall j | 0 <= j < c
        ensures MatVec(Transpose(a, c), g)[j] == AddPoly(MatVec(Transpose(b, c), g[..n])[j], TimesVec(row, g[n])[j])
      {
        DotLast(Column(a, c, j), g);
        assert Column(a, c, j)[..n] == Column(b, c, j);
      }
      assert MatVec(Transpose(a, c), g) == AddVec(MatVec(Transpose(b, c), g[..n]), TimesVec(row, g[n]));
      DotAdd(f, MatVec(Transpose(b, c), g[..n]), TimesVec(row, g[n]));
      DotTimes(f, row, g[n]);
      DotComm(f, row);
      PairMulComm(g[n], Dot(row, f));
    }
  }

  lemma DotNothing(f: seq<seq<int>>, g: seq<seq<int>>)
    requires |f| == |g| == 0
    ensures Dot(f, g) == Zero()
  {
  }

  lemma DotLast(f: seq<seq<int>>, g: seq<seq<int>>)
    requires |f| == |g| > 0 && IsPolys(f) && IsPolys(g)
    ensures var n := |f| - 1; Dot(f, g) == AddPoly(Dot(f[..n], g[..n]), PairMul(f[n], g[n]))
  {
  }

  function ZeroVec(n: nat): (z: seq<seq<int>>)
    ensures |z| == n && IsPolys(z)
  {
    seq(n, i => Zero())
  }

  lemma ColumnsNothing(a: seq<seq<seq<int>>>, f: seq<seq<int>>, g: seq<seq<int>>)
    requires |a| == |g| == 0 && IsPolys(f)
    ensures MatVec(Transpose(a, |f|), g) == ZeroVec(|f|)
  {
  }

  lemma {:induction false} DotZero(f: seq<seq<int>>)
    requires IsPolys(f)
    ensures Dot(f, ZeroVec(|f|)) == Zero()
  {
    hide PairMul, AddPoly;
    if |f| != 0 {
      var n := |f| - 1;
      DotZero(f[..n]);
      assert ZeroVec(|f|)[..n] == ZeroVec(n);
      PairMulZero(f[n]);
      AddPolyZero(Zero());
    }
  }

  /** Transforms of sums, entry by entry. */
  lemma NttVecAdd(f: seq<seq<int>>, g: seq<seq<int>>)
    requires |f| == |g| && IsPolys(f) && IsPolys(g)
    ensures NttVec(AddVec(f, g)) == AddVec(NttVec(f), NttVec(g))
  {
    hide Ntt;
    forall i | 0 <= i < |f|
      ensures NttVec(AddVec(f, g))[i] == AddVec(NttVec(f), NttVec(g))[i]
    {
      NttAdd(f[i], g[i]);
    }
  }

  lemma NttVecOfInvNttVec(f: seq<seq<int>>)
    requires IsPolys(f)
    ensures NttVec(InvNttVec(f)) == f
  {
    hide Ntt, InvNtt;
    forall i | 0 <= i < |f|
      ensures NttVec(InvNttVec(f))[i] == f[i]
    {
      NttOfInvNtt(f[i]);
    }
  }

  /** The sum of the ring products of two vectors of polynomials. */
  function RingDot(f: seq<seq<int>>, g: seq<seq<int>>): (h: seq<int>)
    requires |f| == |g| && IsPolys(f) && IsPolys(g)
    ensures IsPoly(h)
  {
    if |f| == 0 then Zero()
    else AddPoly(RingDot(f[..|f| - 1], g[..|f| - 1]), RingMul(f[|f| - 1], g[|f| - 1]))
  }

  /** An inner product of transforms is the transform of the sum of ring products. */
  lemma {:induction false} NttOfRingDot(f: seq<seq<int>>, g: seq<seq<int>>)
    requires |f| == |g| && IsPolys(f) && IsPolys(g)
    ensures Dot(NttVec(f), NttVec(g)) == Ntt(RingDot(f, g))
    ensures InvNtt(Dot(NttVec(f), NttVec(g))) == RingDot(f, g)
  {
    hide Ntt, InvNtt, RingMul, PairMul, AddPoly;
    if |f| == 0 {
      NttZero();
    } else {
      var n := |f| - 1;
      NttOfRingDot(f[..n], g[..n]);
      assert NttVec(f)[..n] == NttVec(f[..n]) && NttVec(g)[..n] == NttVec(g[..n]);
      NttOfProduct(f[n], g[n]);
      NttAdd(RingDot(f[..n], g[..n]), RingMul(f[n], g[n]));
    }
    InvNttOfNtt(RingDot(f, g));
  }

  lemma NttZero()
    ensures Ntt(Zero()) == Zero()
  {
    hide Ntt, Times;
    assert Scale(0, Zero()) == Zero() by {
      ScaleByZero(Zero());
    }
    NttScale(0, Zero());
    ScaleByZero(Ntt(Zero()));
  }

  lemma ScaleByZero(f: seq<int>)
    requires |f| == 256
    ensures Scale(0, f) == Zero()
  {
  }
}
