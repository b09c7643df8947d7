// ntt.c and poly.c:294-301 run one after the other, with no reduction in between.
module Transforms {
  import opened MachineInts
  import opened ModQ
  import opened Reduce
  import opened NttSpec
  import opened RingProduct
  import opened Linear
  import opened NttCode
  import Poly

  lemma ResiduesArePoly(s: seq<int>)
    requires |s| == 256
    ensures IsPoly(Canon(s))
  {
  }

  /** What ntt leaves may go straight into invntt: the first sums there undo the last butterflies. */
  lemma OutputFitsInverse(s: seq<int>, bound: int)
    requires 0 <= bound && GrownBy(bound, 6) < 0x4000
    requires PairsWithin(2, s, 2 * GrownBy(bound, 6), 2 * Reach(GrownBy(bound, 6)))
    ensures PairsFit(2, s)
  {
    hide PairsWithin, PairsFit;
    GrowthIsMonotone(bound, 0, 6);
    ReachIsSmall(GrownBy(bound, 6));
    PairsWithinFit(2, s, 2 * GrownBy(bound, 6), 2 * Reach(GrownBy(bound, 6)));
  }

  lemma ReachIsSmall(b: int)
    requires 0 <= b < 0x4000
    ensures 0 <= Reach(b) < 0x1000 && Grown(b) < 0x8000
  {
  }

  /** ntt followed by invntt is multiplication by 2^16, for every bound that keeps the last stage in range: all
      inputs below q in absolute value, and all up to 4942. */
  method NttThenInvNtt(r: array<int16>, ghost bound: int)
    requires r.Length == 256 && 0 <= bound && GrownBy(bound, 6) < 0x4000 && Within(r[..], bound)
    modifies r
    ensures Canon(r[..]) == Scale(R, Canon(old(r[..])))
    ensures Within(r[..], Q - 1)
  {
    hide Within, Ntt, InvNtt, PairsWithin, PairsFit, Canon, Reach, Grown;
    ghost var f := Canon(r[..]);
    ResiduesArePoly(r[..]);
    GrowthNext(bound, 6);
    GrowthIsMonotone(bound, 0, 6);
    ReachIsSmall(GrownBy(bound, 6));
    NttInPlace(r, bound);
    OutputFitsInverse(r[..], bound);
    InvNttInPlace(r);
    InvNttOfNtt(f);
  }

  /** The largest input bounds covered. */
  lemma RoundTripBounds()
    ensures GrownBy(Q - 1, 6) < 0x4000 && GrownBy(4942, 6) < 0x4000
  {
    hide Reach;
    GrowthFromQ();
    ReachFrom4942();
    GrowthOf(4942, 6731, 8566, 10447, 12376, 14354, 16382, 18462);
  }

  lemma ReachFrom4942()
    ensures Reach(4942) == 1789 && Reach(6731) == 1835 && Reach(8566) == 1881 && Reach(10447) == 1929
    ensures Reach(12376) == 1978 && Reach(14354) == 2028 && Reach(16382) == 2080
  {
  }

  /** ntt on both factors, the pairwise products and invntt give the product in Z_q[X]/(X^256+1), with no power of
      2^16 left over, for all coefficients below q in absolute value. */
  method Multiply(r: array<int16>, a: array<int16>, b: array<int16>)
    requires r.Length == a.Length == b.Length == 256 && r != a && r != b && a != b
    requires Within(a[..], Q - 1) && Within(b[..], Q - 1)
    modifies r, a, b
    ensures Canon(r[..]) == RingMul(Canon(old(a[..])), Canon(old(b[..])))
    ensures Within(r[..], Q - 1)
  {
    hide Within, Ntt, InvNtt, PairsWithin, PairsFit, Canon, Reach, Grown, PairMul, RingMul, Scale;
    ghost var f, g := Canon(a[..]), Canon(b[..]);
    GrowthFromQ();
    NttInPlace(a, Q - 1);
    assert b[..] == old(b[..]);
    NttInPlace(b, Q - 1);
    UnreducedFactors();
    Poly.BaseMulMontgomery(r, a, b, 16540, 16540, 5838);
    SmallPairsFit(2, r[..], 2 * 5838);
    InvNttInPlace(r);
    ProductOfCode(f, g);
  }

  lemma UnreducedFactors()
    ensures Poly.ProductRange(16540, 16540, 5838)
  {
  }
}
