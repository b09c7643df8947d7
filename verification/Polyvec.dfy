// polyvec.c: vectors of polynomials, entry by entry.
module Polyvec {
  import opened MachineInts
  import opened ModQ
  import opened Reduce
  import opened NttSpec
  import opened RingProduct
  import opened Linear
  import opened Vectors
  import opened VectorBytes
  import opened Serialize
  import opened NttCode
  import opened Accelerator

  /** A vector: k separate arrays of 256 coefficients. */
  predicate IsVec(k: nat, v: seq<array<int16>>) {
    && |v| == k
    && (forall i :: 0 <= i < k ==> v[i].Length == 256)
    && (forall i, j :: 0 <= i < j < k ==> v[i] != v[j])
  }

  ghost function Residues(v: seq<array<int16>>): (f: seq<seq<int>>)
    requires IsVec(|v|, v)
    reads v
    ensures |f| == |v| && IsPolys(f) && forall i :: 0 <= i < |v| ==> f[i] == Canon(v[i][..])
  {
    seq(|v|, i requires 0 <= i < |v| reads v => Canon(v[i][..]))
  }

  ghost predicate AllWithin(v: seq<array<int16>>, bound: int)
    reads v
  {
    forall i :: 0 <= i < |v| ==> Within(v[i][..], bound)
  }

  lemma CentredTransform(r: seq<int>, f: seq<int>)
    requires |f| == 256 && r == CentrePoly(Ntt(f))
    ensures Canon(r) == Ntt(f) && Within(r, (Q - 1) / 2)
  {
    hide Ntt;
    NttIsPoly(f);
  }

  /** polyvec.c:170-175: one call of the unit per entry. */
  method VecNtt(dev: Device, r: seq<array<int16>>, ghost later: nat)
    requires Ready(dev, later + |r|) && IsVec(|r|, r)
    requires forall i, j :: 0 <= i < |r| && 0 <= j < 256 ==> -Q <= r[i][j] < Q
    modifies dev, r
    ensures Ready(dev, later)
    ensures Residues(r) == NttVec(old(Residues(r))) && AllWithin(r, (Q - 1) / 2)
  {
    hide Ntt, Ready;
    ghost var f := Residues(r);
    var i := 0;
    while i < |r|
      invariant 0 <= i <= |r| && Ready(dev, later + |r| - i)
      invariant forall k :: 0 <= k < i ==> Canon(r[k][..]) == Ntt(f[k]) && Within(r[k][..], (Q - 1) / 2)
      invariant forall k :: i <= k < |r| ==> r[k][..] == old(r[k][..])
    {
      PolyNtt(dev, r[i], later + |r| - i - 1);
      CentredTransform(r[i][..], f[i]);
      i := i + 1;
    }
    assert Residues(r) == NttVec(f);
  }

  /** polyvec.c:185-190 */
  method VecInvNtt(r: seq<array<int16>>)
    requires IsVec(|r|, r) && forall i :: 0 <= i < |r| ==> PairsFit(2, r[i][..])
    modifies r
    ensures forall i :: 0 <= i < |r| ==> Canon(r[i][..]) == Scale(R, InvNtt(Canon(old(r[i][..]))))
    ensures AllWithin(r, Q - 1)
  {
    hide InvNtt, PairsFit;
    var i := 0;
    while i < |r|
      invariant 0 <= i <= |r|
      invariant forall k :: 0 <= k < i ==>
                  Canon(r[k][..]) == Scale(R, InvNtt(Canon(old(r[k][..])))) && Within(r[k][..], Q - 1)
      invariant forall k :: i <= k < |r| ==> r[k][..] == old(r[k][..])
    {
      InvNttInPlace(r[i]);
      i := i + 1;
    }
  }

  /** polyvec.c:225-230 */
  method VecReduce(r: seq<array<int16>>)
    requires IsVec(|r|, r)
    modifies r
    ensures Residues(r) == old(Residues(r)) && AllWithin(r, (Q - 1) / 2)
  {
    hide Canon;
    var i := 0;
    while i < |r|
      invariant 0 <= i <= |r|
      invariant forall k :: 0 <= k < i ==> Canon(r[k][..]) == Canon(old(r[k][..])) && Within(r[k][..], (Q - 1) / 2)
      invariant forall k :: i <= k < |r| ==> r[k][..] == old(r[k][..])
    {
      Poly.ReduceCoefficients(r[i]);
      i := i + 1;
    }
    assert Residues(r) == old(Residues(r));
  }

  /** polyvec.c:241-246. Each entry of the result may be the same entry of an operand. */
  method VecAdd(r: seq<array<int16>>, a: seq<array<int16>>, b: seq<array<int16>>, ghost m: int, ghost n: int)
    requires IsVec(|r|, r) && IsVec(|r|, a) && IsVec(|r|, b)
    requires forall i, j :: 0 <= i < |r| && 0 <= j < |r| && i != j ==> r[i] != a[j] && r[i] != b[j]
    requires AllWithin(a, m) && AllWithin(b, n) && m + n < 0x8000
    modifies r
    ensures Residues(r) == AddVec(old(Residues(a)), old(Residues(b))) && AllWithin(r, m + n)
  {
    hide Canon, AddPoly;
    var i := 0;
    while i < |r|
      invariant 0 <= i <= |r|
      invariant forall k :: 0 <= k < i ==>
                  Canon(r[k][..]) == AddPoly(Canon(old(a[k][..])), Canon(old(b[k][..]))) && Within(r[k][..], m + n)
      invariant forall k :: i <= k < |r| ==> a[k][..] == old(a[k][..]) && b[k][..] == old(b[k][..])
    {
      Poly.Add(r[i], a[i], b[i], m, n);
      i := i + 1;
    }
    assert Residues(r) == AddVec(old(Residues(a)), old(Residues(b)));
  }

  /** The bound on a sum of n products. */
  function Accumulated(e: int, n: nat): int {
    2 * e * n
  }

  lemma OneMore(e: int, i: nat, n: nat)
    requires 0 <= e && i < n
    ensures Accumulated(e, i) + 2 * e == Accumulated(e, i + 1) <= Accumulated(e, n)
  {
    assert 2 * e * (n - (i + 1)) >= 0;
  }

  lemma JustOne(e: int)
    ensures Accumulated(e, 1) == 2 * e
  {
  }

  /** polyvec.c:202-214. No sum leaves int16 as long as the bounds on the products add up to less: four entries for
      factors whose products reduce below q, fewer for larger factors. */
  method BaseMulAccumulate(r: array<int16>, a: seq<array<int16>>, b: seq<array<int16>>, ghost m: int, ghost n: int, ghost e: int)
    requires r.Length == 256 && 1 <= |a| && IsVec(|a|, a) && IsVec(|a|, b) && r !in a && r !in b
    requires AllWithin(a, m) && AllWithin(b, n) && Poly.ProductRange(m, n, e) && Accumulated(e, |a|) < 0x8000
    modifies r
    ensures Canon(r[..]) == Scale(RINV, Dot(Residues(a), Residues(b)))
    ensures Within(r[..], (Q - 1) / 2)
  {
    hide PairMul, AddPoly, Scale, Canon, Within, Dot, Residues, AllWithin;
    ghost var f, g := Residues(a), Residues(b);
    StartProduct(r, a, b, m, n, e);
    var t := new int16[256];
    AccumulateRest(r, t, a, b, f, g, m, n, e);
    Poly.ReduceCoefficients(r);
  }

  method StartProduct(r: array<int16>, a: seq<array<int16>>, b: seq<array<int16>>, ghost m: int, ghost n: int, ghost e: int)
    requires r.Length == 256 && 1 <= |a| && IsVec(|a|, a) && IsVec(|a|, b) && r !in a && r !in b
    requires AllWithin(a, m) && AllWithin(b, n) && Poly.ProductRange(m, n, e)
    modifies r
    ensures Canon(r[..]) == Scale(RINV, Dot(old(Residues(a))[..1], old(Residues(b))[..1])) && Within(r[..], 2 * e)
  {
    hide PairMul, AddPoly, Scale, Canon, Within, Dot;
    FirstProduct(Residues(a), Residues(b));
    Poly.BaseMulMontgomery(r, a[0], b[0], m, n, e);
  }

  lemma EntryWithin(v: seq<array<int16>>, bound: int, i: nat)
    requires AllWithin(v, bound) && i < |v|
    ensures Within(v[i][..], bound)
  {
  }

  /** The loop of polyvec_basemul_acc_montgomery. */
  method AccumulateRest(r: array<int16>, t: array<int16>, a: seq<array<int16>>, b: seq<array<int16>>,
                        ghost f: seq<seq<int>>, ghost g: seq<seq<int>>, ghost m: int, ghost n: int, ghost e: int)
    requires r.Length == t.Length == 256 && 1 <= |a| && IsVec(|a|, a) && IsVec(|a|, b)
    requires r != t && r !in a && r !in b && t !in a && t !in b
    requires Residues(a) == f && Residues(b) == g
    requires AllWithin(a, m) && AllWithin(b, n) && Poly.ProductRange(m, n, e) && Accumulated(e, |a|) < 0x8000
    requires Canon(r[..]) == Scale(RINV, Dot(f[..1], g[..1])) && Within(r[..], 2 * e)
    modifies r, t
    ensures Canon(r[..]) == Scale(RINV, Dot(f, g)) && Within(r[..], Accumulated(e, |a|))
  {
    hide PairMul, AddPoly, Scale, Canon, Within, Dot, Residues, AllWithin, Accumulated;
    var i := 1;
    JustOne(e);
    while i < |a|
      invariant 1 <= i <= |a|
      invariant Canon(r[..]) == Scale(RINV, Dot(f[..i], g[..i]))
      invariant Within(r[..], Accumulated(e, i))
      invariant Residues(a) == f && Residues(b) == g && AllWithin(a, m) && AllWithin(b, n)
    {
      EntryWithin(a, m, i);
      EntryWithin(b, n, i);
      OneMore(e, i, |a|);
      AddProduct(r, t, a[i], b[i], Accumulated(e, i), m, n, e);
      NextProduct(f, g, i);
      i := i + 1;
    }
    assert f[..i] == f && g[..i] == g;
  }

  /** The body of the accumulation loop. */
  method AddProduct(r: array<int16>, t: array<int16>, x: array<int16>, y: array<int16>,
                    ghost bound: int, ghost m: int, ghost n: int, ghost e: int)
    requires r.Length == t.Length == x.Length == y.Length == 256 && r != t && t != x && t != y && r != x && r != y
    requires Within(r[..], bound) && bound + 2 * e < 0x8000
    requires Within(x[..], m) && Within(y[..], n) && Poly.ProductRange(m, n, e)
    modifies r, t
    ensures Canon(r[..]) == AddPoly(Canon(old(r[..])), Scale(RINV, PairMul(Canon(x[..]), Canon(y[..]))))
    ensures Within(r[..], bound + 2 * e)
  {
    hide PairMul, AddPoly, Scale, Canon, Within;
    Poly.BaseMulMontgomery(t, x, y, m, n, e);
    Poly.Add(r, r, t, bound, 2 * e);
  }

  lemma FirstProduct(f: seq<seq<int>>, g: seq<seq<int>>)
    requires |f| == |g| >= 1 && IsPolys(f) && IsPolys(g)
    ensures Dot(f[..1], g[..1]) == PairMul(f[0], g[0])
  {
    hide PairMul, AddPoly;
    DotNothing(f[..1][..0], g[..1][..0]);
    AddPolyZero(PairMul(f[0], g[0]));
  }

  lemma NextProduct(f: seq<seq<int>>, g: seq<seq<int>>, i: nat)
    requires |f| == |g| && 0 < i < |f| && IsPolys(f) && IsPolys(g)
    ensures Scale(RINV, Dot(f[..i + 1], g[..i + 1]))
         == AddPoly(Scale(RINV, Dot(f[..i], g[..i])), Scale(RINV, PairMul(f[i], g[i])))
  {
    hide PairMul, AddPoly, Scale;
    assert f[..i + 1][..i] == f[..i] && g[..i + 1][..i] == g[..i];
    ScaleAdd(RINV, Dot(f[..i], g[..i]), PairMul(f[i], g[i]));
  }

  lemma ScaleAdd(c: int, f: seq<int>, g: seq<int>)
    requires |f| == |g|
    ensures Scale(c, AddPoly(f, g)) == AddPoly(Scale(c, f), Scale(c, g))
  {
    hide Times;
    forall i | 0 <= i < |f|
      ensures Times(c, (f[i] + g[i]) % Q) == (Times(c, f[i]) + Times(c, g[i])) % Q
    {
      TimesDistributes(c, f[i], g[i]);
    }
  }

  lemma TimesDistributes(c: int, x: int, y: int)
    ensures Times(c, (x + y) % Q) == (Times(c, x) + Times(c, y)) % Q
  {
    TimesCong(c, (x + y) % Q, x + y);
    assert c * (x + y) == c * x + c * y;
    ResidueOfSum(c * (x + y), c * x, c * y);
  }

  // Byte strings. `off` is where the vector starts in the buffer.

  /** polyvec.c:139-144 */
  method VecToBytes(r: array<byte>, v: seq<array<int16>>)
    requires IsVec(|v|, v) && 384 * |v| <= r.Length && AllWithin(v, Q - 1)
    modifies r
    ensures r[..384 * |v|] == EncodeVec(4096, 384, Residues(v)) && r[384 * |v|..] == old(r[384 * |v|..])
  {
    hide Encode, Canon, Within;
    ghost var f := Residues(v);
    var i := 0;
    assert r[..0] == EncodeVec(4096, 384, f[..0]);
    while i < |v|
      invariant 0 <= i <= |v|
      invariant r[..384 * i] == EncodeVec(4096, 384, f[..i]) && r[384 * i..] == old(r[384 * i..])
    {
      ghost var b := r[..384 * i];
      ToBytes(r, 384 * i, v[i]);
      assert f[..i + 1][..i] == f[..i];
      assert r[..384 * (i + 1)] == b + r[384 * i..384 * i + 384];
      i := i + 1;
    }
    assert f[..i] == f;
  }

  lemma SliceOfSlice<T>(s: seq<T>, off: nat, n: nat, p: nat, q: nat)
    requires off + n <= |s| && p <= q <= n
    ensures s[off..off + n][p..q] == s[off + p..off + q]
  {
    var t := s[off..off + n];
    var x, y := t[p..q], s[off + p..off + q];
    forall i | 0 <= i < |x|
      ensures x[i] == y[i]
    {
      assert t[p + i] == s[off + p + i];
    }
  }

  /** Writing n places at o, after what stands before them. */
  lemma WrittenAt<T>(s0: seq<T>, s: seq<T>, t: seq<T>, o: nat, n: nat)
    requires |s0| == |s| == |t| && o + n <= |s|
    requires t[..o] == s[..o] && t[o + n..] == s[o + n..] && s[o..] == s0[o..]
    ensures t[..o + n] == s[..o] + t[o..o + n] && t[o + n..] == s0[o + n..]
  {
    assert s0[o + n..] == s0[o..][n..];
    assert s[o + n..] == s[o..][n..];
  }

  /** polyvec.c:156-161, read at `off`. */
  method VecFromBytes(v: seq<array<int16>>, a: array<byte>, off: nat)
    requires IsVec(|v|, v) && off + 384 * |v| <= a.Length
    modifies v
    ensures forall i :: 0 <= i < |v| ==> v[i][..] == DecodeVec(4096, 384, |v|, a[off..off + 384 * |v|])[i]
  {
    hide Decode, Chunk, DecodeVec;
    var i := 0;
    ghost var b := a[off..off + 384 * |v|];
    assert b[..384 * |v|] == b;
    while i < |v|
      invariant 0 <= i <= |v|
      invariant forall k :: 0 <= k < i ==> v[k][..] == Decode(4096, Chunk(b, 384, k))
    {
      ChunkOfPrefix(b, 384, i, |v|);
      SliceOfSlice(a[..], off, 384 * |v|, 384 * i, 384 * i + 384);
      FromBytes(v[i], a, off + 384 * i);
      i := i + 1;
    }
    assert a[off..off + 384 * |v|] == b;
    forall k | 0 <= k < |v|
      ensures v[k][..] == DecodeVec(4096, 384, |v|, a[off..off + 384 * |v|])[k]
    {
      DecodeVecAt(4096, 384, |v|, b, k);
    }
  }

  lemma DecodeVecAt(m: nat, n: nat, k: nat, b: seq<int>, i: nat)
    requires m > 0 && |b| == n * k && i < k
    ensures DecodeVec(m, n, k, b)[i] == Decode(m, Chunk(b, n, i))
  {
    hide Decode, Chunk;
  }

  lemma NextChunk(n: nat, i: nat, k: nat)
    requires i < k
    ensures n * (i + 1) == n * i + n <= n * k
  {
    ChunkRange(n, i, k);
  }

  /** polyvec.c:15-77 for either width d. */
  method VecCompress(r: array<byte>, v: seq<array<int16>>, d: nat)
    requires IsWidth(d) && IsVec(|v|, v) && 32 * d * |v| <= r.Length && AllWithin(v, Q - 1)
    modifies r
    ensures r[..32 * d * |v|] == EncodeVec(Scale2(d), 32 * d, CompressVec(Scale2(d), Residues(v)))
    ensures r[32 * d * |v|..] == old(r[32 * d * |v|..])
  {
    hide Encode, Canon, Within, CompressPoly, EncodeVec;
    ghost var f := CompressVec(Scale2(d), Residues(v));
    var n, i, o := 32 * d, 0, 0;
    EncodeVecNothing(Scale2(d), n, f);
    while i < |v|
      invariant 0 <= i <= |v| && o == n * i && 0 <= o <= n * |v|
      invariant r[..o] == EncodeVec(Scale2(d), n, f[..i])
      invariant r[o..] == old(r[o..])
    {
      ghost var s := r[..];
      NextChunk(n, i, |v|);
      CompressToBytes(r, o, v[i], d);
      EncodeVecStep(Scale2(d), n, f, i);
      WrittenAt(old(r[..]), s, r[..], o, n);
      i, o := i + 1, o + n;
    }
    assert f[..i] == f;
  }

  /** polyvec.c:89-128 for either width d. */
  method VecDecompress(v: seq<array<int16>>, a: array<byte>, d: nat)
    requires IsWidth(d) && IsVec(|v|, v) && 32 * d * |v| <= a.Length
    modifies v
    ensures var c := DecodeVec(Scale2(d), 32 * d, |v|, a[..32 * d * |v|]);
            forall i :: 0 <= i < |v| ==> v[i][..] == DecompressPoly(Scale2(d), c[i])
  {
    hide Decode, DecompressPoly, Chunk;
    var n, i := 32 * d, 0;
    ghost var b := a[..n * |v|];
    while i < |v|
      invariant 0 <= i <= |v|
      invariant forall k :: 0 <= k < i ==> v[k][..] == DecompressPoly(Scale2(d), Decode(Scale2(d), Chunk(b, n, k)))
    {
      ChunkOfPrefix(a[..], n, i, |v|);
      assert a[..][n * i..n * i + n] == a[n * i..n * i + n] && a[..][..n * |v|] == b;
      DecompressFromBytes(v[i], a, n * i, d);
      i := i + 1;
    }
  }
}
