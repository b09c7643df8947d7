// indcpa.c: key generation, encryption and decryption on buffers.
module Indcpa {
  import opened MachineInts
  import opened ModQ
  import opened Reduce
  import opened NttSpec
  import opened Linear
  import opened Vectors
  import opened VectorBytes
  import opened Digits
  import opened Serialize
  import opened NttCode
  import opened Accelerator
  import opened Matrix
  import opened Noise
  import opened Polyvec
  import opened KPke
  import M = Message

  // Sampling.

  ghost predicate EventuallyEnough(xof: Xof, seed: seq<byte>, x: byte, y: byte) {
    exists n: nat :: Enough(xof, seed, x, y, n)
  }

  /** Every entry of the k*k matrix is found in some finite part of its stream. */
  ghost predicate Samplable(xof: Xof, seed: seq<byte>, k: nat) {
    forall x: byte, y: byte :: x < k && y < k ==> EventuallyEnough(xof, seed, x, y)
  }

  /** Separate from everything that exists. */
  method NewVec(k: nat) returns (v: seq<array<int16>>)
    ensures IsVec(k, v) && forall i :: 0 <= i < k ==> fresh(v[i])
  {
    v := [];
    while |v| < k
      invariant |v| <= k && IsVec(|v|, v) && forall i :: 0 <= i < |v| ==> fresh(v[i])
    {
      var a := new int16[256];
      v := v + [a];
    }
  }

  /** indcpa.c:173-188, row i of the matrix. */
  method GenRow(xof: Xof, seed: seq<byte>, k: nat, i: byte, transposed: bool) returns (r: seq<array<int16>>)
    requires IsRank(k) && i < k && Samplable(xof, seed, k)
    ensures IsVec(k, r) && forall j :: 0 <= j < k ==> fresh(r[j])
    ensures forall j: byte :: j < k ==> r[j][..] == if transposed then SampleNtt(xof, seed, i, j) else SampleNtt(xof, seed, j, i)
  {
    hide SampleNtt, Enough;
    r := NewVec(k);
    var j := 0;
    while j < k
      invariant 0 <= j <= k
      invariant forall l: byte :: l < j ==>
                  r[l][..] == if transposed then SampleNtt(xof, seed, i, l) else SampleNtt(xof, seed, l, i)
    {
      var x: byte, y: byte := if transposed then i else j, if transposed then j else i;
      assert EventuallyEnough(xof, seed, x, y);
      ghost var limit: nat :| Enough(xof, seed, x, y, limit);
      SampleEntry(r[j], xof, seed, x, y, limit);
      j := j + 1;
    }
  }

  /** The vector holds exactly the residues `f`, in representatives up to `bound`. */
  ghost predicate HoldsVec(r: seq<array<int16>>, f: seq<seq<int>>, bound: int)
    reads r
  {
    IsVec(|f|, r) && Residues(r) == f && AllWithin(r, bound)
  }

  /** The rows hold exactly the residues `m`. */
  ghost predicate HoldsMatrix(a: seq<seq<array<int16>>>, m: seq<seq<seq<int>>>, k: nat)
    reads set i, j | 0 <= i < |a| && 0 <= j < |a[i]| :: a[i][j]
  {
    && |a| == |m| == k
    && forall i :: 0 <= i < k ==> |m[i]| == k && HoldsVec(a[i], m[i], Q - 1)
  }

  /** Row i of the matrix or of its transpose. */
  ghost function RowOf(m: seq<seq<seq<int>>>, k: nat, i: nat, transposed: bool): (r: seq<seq<int>>)
    requires IsMatrix(m, k, k) && i < k
    ensures |r| == k && IsPolys(r)
  {
    if transposed then Column(m, k, i) else m[i]
  }

  method GenMatrixRow(xof: Xof, seed: seq<byte>, k: nat, i: byte, transposed: bool) returns (r: seq<array<int16>>)
    requires IsRank(k) && i < k && Samplable(xof, seed, k)
    ensures |r| == k && (forall j :: 0 <= j < k ==> fresh(r[j]))
    ensures HoldsVec(r, RowOf(PublicMatrix(xof, seed, k), k, i, transposed), Q - 1)
  {
    hide SampleNtt, Samplable;
    r := GenRow(xof, seed, k, i, transposed);
    ghost var row := RowOf(PublicMatrix(xof, seed, k), k, i, transposed);
    forall j: byte | j < k
      ensures Canon(r[j][..]) == row[j] && Within(r[j][..], Q - 1)
    {
      CanonOfPoly(r[j][..]);
    }
    assert Residues(r) == row;
  }

  /** indcpa.c:165-190. The transposed matrix has the same entries with rows and columns exchanged. */
  method GenMatrix(xof: Xof, seed: seq<byte>, k: nat, transposed: bool) returns (a: seq<seq<array<int16>>>)
    requires IsRank(k) && Samplable(xof, seed, k)
    ensures var m := PublicMatrix(xof, seed, k); HoldsMatrix(a, if transposed then Transpose(m, k) else m, k)
    ensures forall i, j :: 0 <= i < k && 0 <= j < k ==> fresh(a[i][j])
  {
    hide Samplable, PublicMatrix, HoldsVec;
    ghost var m := PublicMatrix(xof, seed, k);
    a := [];
    while |a| < k
      invariant |a| <= k
      invariant forall i :: 0 <= i < |a| ==> |a[i]| == k && HoldsVec(a[i], RowOf(m, k, i, transposed), Q - 1)
      invariant forall i, j :: 0 <= i < |a| && 0 <= j < k ==> fresh(a[i][j])
    {
      var r := GenMatrixRow(xof, seed, k, |a|, transposed);
      a := a + [r];
    }
  }

  // Noise.

  /** poly.c:227-232 and 246-251 */
  method GetNoise(r: array<int16>, sym: Symmetric, eta: nat, seed: seq<byte>, nonce: byte)
    requires r.Length == 256 && (eta == 2 || eta == 3)
    modifies r
    ensures Canon(r[..]) == NoisePoly(sym, eta, seed, nonce) && Within(r[..], eta)
  {
    hide NoiseAt, BitString;
    var buf := new byte[64 * eta](i requires 0 <= i < 64 * eta => sym.prf(seed, nonce, i));
    assert buf[..] == NoiseBytes(sym.prf, seed, nonce, 64 * eta);
    CentredBinomial(r, buf, eta);
  }

  /** The noise loops: entry i uses nonce `from` + i. */
  method GetNoiseVec(r: seq<array<int16>>, sym: Symmetric, eta: nat, seed: seq<byte>, from: nat)
    requires IsVec(|r|, r) && (eta == 2 || eta == 3) && from + |r| <= 256
    modifies r
    ensures Residues(r) == NoiseVec(sym, eta, seed, from, |r|) && AllWithin(r, eta)
  {
    hide NoisePoly, Within, Canon;
    var i := 0;
    while i < |r|
      invariant 0 <= i <= |r|
      invariant forall j :: 0 <= j < i ==> Canon(r[j][..]) == NoisePoly(sym, eta, seed, from + j) && Within(r[j][..], eta)
    {
      GetNoise(r[i], sym, eta, seed, from + i);
      i := i + 1;
    }
  }

  // Products with the matrix.

  /** indcpa.c:231-234: the factor 2^-16 of the products is removed again. */
  method KeyProducts(r: seq<array<int16>>, a: seq<seq<array<int16>>>, f: seq<array<int16>>, ghost m: seq<seq<seq<int>>>)
    requires 1 <= |r| <= 4 && IsVec(|r|, r) && IsVec(|r|, f) && HoldsMatrix(a, m, |r|) && AllWithin(f, (Q - 1) / 2)
    requires forall i, j :: 0 <= i < |r| && 0 <= j < |r| ==> r[i] != f[j]
    requires forall i, j, l :: 0 <= i < |r| && 0 <= j < |r| && 0 <= l < |r| ==> r[l] != a[i][j]
    modifies r
    ensures Residues(r) == MatVec(m, Residues(f)) && AllWithin(r, Q - 1)
  {
    hide Dot, Scale, Within, Canon;
    ghost var g := Residues(f);
    var i := 0;
    while i < |r|
      invariant 0 <= i <= |r|
      invariant forall j :: 0 <= j < i ==> Canon(r[j][..]) == Dot(m[j], g) && Within(r[j][..], Q - 1)
      invariant Residues(f) == g && AllWithin(f, (Q - 1) / 2)
      invariant HoldsMatrix(a, m, |r|)
    {
      BaseMulAccumulate(r[i], a[i], f, Q - 1, (Q - 1) / 2, Q - 1);
      Poly.ToMont(r[i]);
      MontgomeryCancels(Dot(m[i], g));
      i := i + 1;
    }
  }

  /** indcpa.c:284-289 with the inverse transforms: the factors 2^-16 and 2^16 cancel. */
  method CipherProducts(r: seq<array<int16>>, a: seq<seq<array<int16>>>, f: seq<array<int16>>, ghost m: seq<seq<seq<int>>>)
    requires 1 <= |r| <= 4 && IsVec(|r|, r) && IsVec(|r|, f) && HoldsMatrix(a, m, |r|) && AllWithin(f, (Q - 1) / 2)
    requires forall i, j :: 0 <= i < |r| && 0 <= j < |r| ==> r[i] != f[j]
    requires forall i, j, l :: 0 <= i < |r| && 0 <= j < |r| && 0 <= l < |r| ==> r[l] != a[i][j]
    modifies r
    ensures Residues(r) == InvNttVec(MatVec(m, Residues(f))) && AllWithin(r, Q - 1)
  {
    hide Dot, Scale, Within, Canon, InvNtt;
    ghost var g := Residues(f);
    var i := 0;
    while i < |r|
      invariant 0 <= i <= |r|
      invariant forall j :: 0 <= j < i ==> Canon(r[j][..]) == Scale(RINV, Dot(m[j], g)) && Within(r[j][..], (Q - 1) / 2)
      invariant Residues(f) == g && AllWithin(f, (Q - 1) / 2)
      invariant HoldsMatrix(a, m, |r|)
    {
      BaseMulAccumulate(r[i], a[i], f, Q - 1, (Q - 1) / 2, Q - 1);
      i := i + 1;
    }
    AllPairsFit(r, (Q - 1) / 2);
    VecInvNtt(r);
    forall j | 0 <= j < |r|
      ensures Canon(r[j][..]) == InvNtt(Dot(m[j], g))
    {
      MontgomeryCancels(Dot(m[j], g));
    }
  }

  lemma AllPairsFit(r: seq<array<int16>>, bound: int)
    requires AllWithin(r, bound) && bound < 0x4000
    ensures forall i :: 0 <= i < |r| ==> PairsFit(2, r[i][..])
  {
    forall i | 0 <= i < |r|
      ensures PairsFit(2, r[i][..])
    {
      SmallPairsFit(2, r[i][..], bound);
    }
  }

  lemma AllWithinWeaken(r: seq<array<int16>>, m: int, n: int)
    requires AllWithin(r, m) && m <= n
    ensures AllWithin(r, n)
  {
    forall i | 0 <= i < |r|
      ensures Within(r[i][..], n)
    {
      WithinWeaken(r[i][..], m, n);
    }
  }

  /** indcpa.c:287 and 290: one product of vectors, transformed back. */
  method InnerProduct(r: array<int16>, a: seq<array<int16>>, f: seq<array<int16>>, ghost bound: int)
    requires r.Length == 256 && 1 <= |a| <= 4 && IsVec(|a|, a) && IsVec(|a|, f) && r !in a && r !in f
    requires AllWithin(a, bound) && 0 <= bound <= 4095 && AllWithin(f, (Q - 1) / 2)
    modifies r
    ensures Canon(r[..]) == InvNtt(Dot(Residues(a), Residues(f))) && Within(r[..], Q - 1)
  {
    hide Dot, Scale, Within, Canon, InvNtt, Residues;
    ghost var p := Dot(Residues(a), Residues(f));
    ProductOfBounds(bound);
    BaseMulAccumulate(r, a, f, bound, (Q - 1) / 2, Q - 1);
    SmallPairsFit(2, r[..], (Q - 1) / 2);
    InvNttInPlace(r);
    MontgomeryCancels(p);
  }

  lemma ProductOfBounds(bound: int)
    requires 0 <= bound <= 4095
    ensures Poly.ProductRange(bound, (Q - 1) / 2, Q - 1)
  {
  }

  // Keys.

  /** indcpa.c:27-28: bytes copied to the end of a buffer. */
  method CopyTail(r: array<byte>, off: nat, s: seq<byte>)
    requires off + |s| == r.Length
    modifies r
    ensures r[..] == old(r[..off]) + s
  {
    var i := 0;
    while i < |s|
      invariant 0 <= i <= |s|
      invariant r[..off] == old(r[..off])
      invariant forall j :: 0 <= j < i ==> r[off + j] == s[j]
    {
      r[off + i] := s[i];
      i := i + 1;
    }
  }

  lemma NoiseInDriverRange(r: seq<array<int16>>, eta: nat)
    requires IsVec(|r|, r) && (eta == 2 || eta == 3) && AllWithin(r, eta)
    ensures forall i, j :: 0 <= i < |r| && 0 <= j < 256 ==> -Q <= r[i][j] < Q
  {
    forall i, j | 0 <= i < |r| && 0 <= j < 256
      ensures -Q <= r[i][j] < Q
    {
      assert Within(r[i][..], eta);
      assert r[i][..][j] == r[i][j];
    }
  }

  /** indcpa.c:222-228 */
  method KeySecrets(sym: Symmetric, k: nat, dev: Device, noiseseed: seq<byte>, ghost later: nat)
    returns (skpv: seq<array<int16>>, e: seq<array<int16>>)
    requires IsRank(k) && Ready(dev, later + 2 * k)
    modifies dev
    ensures Ready(dev, later) && |skpv| == |e| == k
    ensures forall i :: 0 <= i < k ==> fresh(skpv[i]) && fresh(e[i])
    ensures forall i, j :: 0 <= i < k && 0 <= j < k ==> skpv[i] != e[j]
    ensures HoldsVec(skpv, NttVec(NoiseVec(sym, Eta1(k), noiseseed, 0, k)), (Q - 1) / 2)
    ensures HoldsVec(e, NttVec(NoiseVec(sym, Eta1(k), noiseseed, k, k)), (Q - 1) / 2)
  {
    hide Ready, NoiseVec, NttVec, HoldsVec;
    e := SmallTransforms(sym, k, dev, noiseseed, Eta1(k), 0, later + k);
    skpv := e;
    e := SmallTransforms(sym, k, dev, noiseseed, Eta1(k), k, later);
  }

  /** A fresh vector of noise polynomials, transformed. */
  method SmallTransforms(sym: Symmetric, k: nat, dev: Device, seed: seq<byte>, eta: nat, from: nat, ghost later: nat)
    returns (r: seq<array<int16>>)
    requires Ready(dev, later + k) && (eta == 2 || eta == 3) && from + k <= 256
    modifies dev
    ensures Ready(dev, later) && |r| == k && forall i :: 0 <= i < k ==> fresh(r[i])
    ensures HoldsVec(r, NttVec(NoiseVec(sym, eta, seed, from, k)), (Q - 1) / 2)
  {
    hide Ready, NoiseVec, NttVec, Canon, Within, Residues, AllWithin;
    r := NewVec(k);
    GetNoiseVec(r, sym, eta, seed, from);
    NoiseInDriverRange(r, eta);
    VecNtt(dev, r, later);
  }

  /** indcpa.c:220 and 230-234 */
  method MatrixProduct(xof: Xof, k: nat, seed: seq<byte>, skpv: seq<array<int16>>, ghost f: seq<seq<int>>)
    returns (r: seq<array<int16>>)
    requires IsRank(k) && Samplable(xof, seed, k) && |f| == k && IsPolys(f) && HoldsVec(skpv, f, (Q - 1) / 2)
    ensures |r| == k && forall i :: 0 <= i < k ==> fresh(r[i])
    ensures HoldsVec(r, MatVec(PublicMatrix(xof, seed, k), f), Q - 1)
  {
    hide Samplable, PublicMatrix, MatVec, Canon, Within, AllWithin, Residues, HoldsMatrix, IsPoly, IsPolys, Transpose;
    r := NewVec(k);
    var a := GenMatrix(xof, seed, k, false);
    KeyProducts(r, a, skpv, PublicMatrix(xof, seed, k));
  }

  /** indcpa.c:236-237 */
  method AddAndReduce(r: seq<array<int16>>, e: seq<array<int16>>, ghost f: seq<seq<int>>, ghost g: seq<seq<int>>)
    requires |f| == |g| && IsPolys(f) && IsPolys(g) && HoldsVec(r, f, Q - 1) && HoldsVec(e, g, (Q - 1) / 2)
    requires forall i, j :: 0 <= i < |r| && 0 <= j < |e| ==> r[i] != e[j]
    modifies r
    ensures HoldsVec(r, AddVec(f, g), (Q - 1) / 2)
  {
    hide AddVec, Canon, Within, AllWithin, Residues;
    VecAdd(r, r, e, Q - 1, (Q - 1) / 2);
    VecReduce(r);
  }

  lemma HoldsVecWeaken(r: seq<array<int16>>, f: seq<seq<int>>, m: int, n: int)
    requires HoldsVec(r, f, m) && m <= n
    ensures HoldsVec(r, f, n)
  {
    AllWithinWeaken(r, m, n);
  }

  /** indcpa.c:216-237: the secret and the public vector, from the two seeds. */
  method KeyVectors(sym: Symmetric, k: nat, dev: Device, publicseed: seq<byte>, noiseseed: seq<byte>, ghost later: nat)
    returns (skpv: seq<array<int16>>, pkpv: seq<array<int16>>)
    requires IsRank(k) && Ready(dev, later + 2 * k) && Samplable(sym.xof, publicseed, k)
    modifies dev
    ensures Ready(dev, later)
    ensures var s, e := NoiseVec(sym, Eta1(k), noiseseed, 0, k), NoiseVec(sym, Eta1(k), noiseseed, k, k);
            && HoldsVec(skpv, NttVec(s), Q - 1)
            && HoldsVec(pkpv, PublicVec(PublicMatrix(sym.xof, publicseed, k), s, e), Q - 1)
  {
    hide Ready, Samplable, PublicMatrix, NoiseVec, NttVec, MatVec, AddVec, HoldsVec;
    var e: seq<array<int16>>;
    skpv, e := KeySecrets(sym, k, dev, noiseseed, later);
    ghost var f := NttVec(NoiseVec(sym, Eta1(k), noiseseed, 0, k));
    ghost var g := NttVec(NoiseVec(sym, Eta1(k), noiseseed, k, k));
    pkpv := MatrixProduct(sym.xof, k, publicseed, skpv, f);
    AddAndReduce(pkpv, e, MatVec(PublicMatrix(sym.xof, publicseed, k), f), g);
    HoldsVecWeaken(skpv, f, (Q - 1) / 2, Q - 1);
    HoldsVecWeaken(pkpv, AddVec(MatVec(PublicMatrix(sym.xof, publicseed, k), f), g), (Q - 1) / 2, Q - 1);
  }

  /** indcpa.c:23-29 and 57-60 */
  method PackKeys(k: nat, pk: array<byte>, sk: array<byte>, pkpv: seq<array<int16>>, skpv: seq<array<int16>>,
                  seed: seq<byte>, ghost t: seq<seq<int>>, ghost s: seq<seq<int>>)
    requires pk != sk && pk.Length == 384 * k + 32 && 384 * k <= sk.Length && |seed| == 32
    requires |t| == |s| == k && HoldsVec(pkpv, t, Q - 1) && HoldsVec(skpv, s, Q - 1)
    modifies pk, sk
    ensures pk[..] == EncodeVec(4096, 384, t) + seed
    ensures sk[..384 * k] == EncodeVec(4096, 384, s) && sk[384 * k..] == old(sk[384 * k..])
  {
    hide EncodeVec, Canon, Within, Residues, AllWithin;
    VecToBytes(sk, skpv);
    VecToBytes(pk, pkpv);
    CopyTail(pk, 384 * k, seed);
  }

  /** indcpa.c:205-241 */
  method KeypairDerand(sym: Symmetric, k: nat, dev: Device, pk: array<byte>, sk: array<byte>, coins: array<byte>, ghost later: nat)
    requires IsRank(k) && Ready(dev, later + 2 * k) && pk != sk
    requires pk.Length == 384 * k + 32 && 384 * k <= sk.Length && 32 <= coins.Length
    requires Samplable(sym.xof, MatrixSeed(sym, k, coins[..32]), k)
    modifies dev, pk, sk
    ensures pk[..] == PublicKey(sym, k, old(coins[..32]))
    ensures sk[..384 * k] == SecretKey(sym, k, old(coins[..32])) && sk[384 * k..] == old(sk[384 * k..])
    ensures Ready(dev, later)
  {
    hide Ready, Samplable, PublicMatrix, NoiseVec, NttVec, PublicVec, EncodeVec, HoldsVec;
    var buf := sym.g(coins[..32] + [k]);
    var skpv, pkpv := KeyVectors(sym, k, dev, buf[..32], buf[32..], later);
    ghost var s, e := NoiseVec(sym, Eta1(k), buf[32..], 0, k), NoiseVec(sym, Eta1(k), buf[32..], k, k);
    ghost var t := PublicVec(PublicMatrix(sym.xof, buf[..32], k), s, e);
    PackKeys(k, pk, sk, pkpv, skpv, buf[..32], t, NttVec(s));
  }

  // Encryption.

  /** indcpa.c:41-47 and 70-73: values up to 4095 are kept as they are. */
  method UnpackVec(k: nat, b: array<byte>, off: nat) returns (v: seq<array<int16>>)
    requires off + 384 * k <= b.Length
    ensures |v| == k && forall i :: 0 <= i < k ==> fresh(v[i])
    ensures HoldsVec(v, ReadVec(k, b[off..off + 384 * k]), 4095)
  {
    hide Decode, DecodeVec;
    v := NewVec(k);
    VecFromBytes(v, b, off);
    ghost var d := DecodeVec(4096, 384, k, b[off..off + 384 * k]);
    forall i | 0 <= i < k
      ensures Canon(v[i][..]) == Canon(d[i]) && Within(v[i][..], 4095)
    {
      assert AreDigits(4096, d[i]);
    }
    assert Residues(v) == CanonVec(d);
  }

  /** indcpa.c:273, 278, 284-289, 292 and 295. */
  method EncryptVector(sym: Symmetric, k: nat, seed: seq<byte>, coins: seq<byte>, sp: seq<array<int16>>,
                       ghost y: seq<seq<int>>)
    returns (b: seq<array<int16>>)
    requires IsRank(k) && Samplable(sym.xof, seed, k) && |y| == k && IsPolys(y) && HoldsVec(sp, y, (Q - 1) / 2)
    ensures |b| == k && forall i :: 0 <= i < k ==> fresh(b[i])
    ensures HoldsVec(b, AddVec(InvNttVec(MatVec(Transpose(PublicMatrix(sym.xof, seed, k), k), y)),
                               NoiseVec(sym, ETA2, coins, k, k)), Q - 1)
  {
    hide Samplable, PublicMatrix, Transpose, InvNttVec, MatVec, AddVec, NoiseVec, HoldsVec;
    ghost var p := InvNttVec(MatVec(Transpose(PublicMatrix(sym.xof, seed, k), k), y));
    b := TransposedProduct(sym.xof, k, seed, sp, y);
    var ep := SmallVec(sym, k, ETA2, coins, k);
    AddAndReduce(b, ep, p, NoiseVec(sym, ETA2, coins, k, k));
    HoldsVecWeaken(b, AddVec(p, NoiseVec(sym, ETA2, coins, k, k)), (Q - 1) / 2, Q - 1);
  }

  method SmallVec(sym: Symmetric, k: nat, eta: nat, seed: seq<byte>, from: nat) returns (r: seq<array<int16>>)
    requires (eta == 2 || eta == 3) && from + k <= 256
    ensures |r| == k && forall i :: 0 <= i < k ==> fresh(r[i])
    ensures HoldsVec(r, NoiseVec(sym, eta, seed, from, k), (Q - 1) / 2)
  {
    hide NoiseVec, Canon, Within, AllWithin, Residues;
    r := NewVec(k);
    GetNoiseVec(r, sym, eta, seed, from);
    AllWithinWeaken(r, eta, (Q - 1) / 2);
  }

  lemma RowCount(m: seq<seq<seq<int>>>, rows: nat, columns: nat)
    requires IsMatrix(m, rows, columns)
    ensures |m| == rows
  {
  }

  method TransposedProduct(xof: Xof, k: nat, seed: seq<byte>, sp: seq<array<int16>>, ghost y: seq<seq<int>>)
    returns (b: seq<array<int16>>)
    requires IsRank(k) && Samplable(xof, seed, k) && |y| == k && IsPolys(y) && HoldsVec(sp, y, (Q - 1) / 2)
    ensures |b| == k && forall i :: 0 <= i < k ==> fresh(b[i])
    ensures HoldsVec(b, InvNttVec(MatVec(Transpose(PublicMatrix(xof, seed, k), k), y)), Q - 1)
  {
    hide Samplable, PublicMatrix, Transpose, InvNttVec, MatVec, Canon, Within, AllWithin, Residues, HoldsMatrix, IsPoly, IsMatrix;
    RowCount(PublicMatrix(xof, seed, k), k, k);
    b := NewVec(k);
    var at := GenMatrix(xof, seed, k, true);
    CipherProducts(b, at, sp, Transpose(PublicMatrix(xof, seed, k), k));
  }

  /** indcpa.c:272, 279, 287, 290, 293-294 and 296. */
  method EncryptPoly(sym: Symmetric, k: nat, coins: seq<byte>, pkpv: seq<array<int16>>, sp: seq<array<int16>>,
                     m: array<byte>, ghost t: seq<seq<int>>, ghost y: seq<seq<int>>)
    returns (v: array<int16>)
    requires IsRank(k) && |t| == |y| == k && IsPolys(t) && IsPolys(y) && m.Length == 32
    requires HoldsVec(pkpv, t, 4095) && HoldsVec(sp, y, (Q - 1) / 2)
    ensures fresh(v) && v.Length == 256 && Within(v[..], Q - 1)
    ensures Canon(v[..]) == AddPoly(AddPoly(InvNtt(Dot(t, y)), NoisePoly(sym, ETA2, coins, 2 * k)),
                                    DecompressPoly(2, Decode(2, m[..])))
  {
    hide AddPoly, InvNtt, Dot, NoisePoly, DecompressPoly, Decode, Canon, Within, AllWithin, Residues;
    v := new int16[256];
    InnerProduct(v, pkpv, sp, 4095);
    var epp, mp := new int16[256], new int16[256];
    GetNoise(epp, sym, ETA2, coins, 2 * k);
    Poly.Add(v, v, epp, Q - 1, ETA2);
    M.FromMessage(mp, m);
    MessagePolyRange(Decode(2, m[..]));
    CanonOfPoly(mp[..]);
    Poly.Add(v, v, mp, Q + 1, Q - 1);
    Poly.ReduceCoefficients(v);
    WithinWeaken(v[..], (Q - 1) / 2, Q - 1);
  }

  lemma MessagePolyRange(bits: seq<int>)
    requires |bits| == 256 && AreDigits(2, bits)
    ensures IsPoly(DecompressPoly(2, bits)) && Within(DecompressPoly(2, bits), Q - 1)
  {
    DecompressedIsPoly(2, bits);
  }

  /** indcpa.c:86-90 */
  method PackCiphertext(k: nat, c: array<byte>, b: seq<array<int16>>, v: array<int16>, ghost u: seq<seq<int>>)
    requires IsRank(k) && c.Length == CipherBytes(k) && |u| == k && HoldsVec(b, u, Q - 1)
    requires v.Length == 256 && Within(v[..], Q - 1)
    modifies c
    ensures c[..] == EncodeVec(Scale2(Du(k)), 32 * Du(k), CompressVec(Scale2(Du(k)), u))
                     + Encode(Scale2(Dv(k)), 32 * Dv(k), CompressPoly(Scale2(Dv(k)), Canon(old(v[..]))))
  {
    hide Encode, EncodeVec, CompressVec, CompressPoly, Canon, Within, AllWithin, Residues;
    VecCompress(c, b, Du(k));
    CompressToBytes(c, CipherVecBytes(k), v, Dv(k));
    assert c[CipherVecBytes(k)..CipherVecBytes(k) + 32 * Dv(k)] == c[CipherVecBytes(k)..];
    assert c[..] == c[..CipherVecBytes(k)] + c[CipherVecBytes(k)..];
  }

  /** indcpa.c:260-299. The public key starts at `off`: decapsulation points into its secret key. */
  method Enc(sym: Symmetric, k: nat, dev: Device, c: array<byte>, m: array<byte>, pk: array<byte>, off: nat, coins: array<byte>, ghost later: nat)
    requires IsRank(k) && Ready(dev, later + k) && c != m && c != pk && c != coins
    requires c.Length == CipherBytes(k) && m.Length == 32 && off + 384 * k + 32 <= pk.Length && coins.Length == 32
    requires Samplable(sym.xof, pk[off + 384 * k..off + 384 * k + 32], k)
    modifies dev, c
    ensures c[..] == Encrypt(sym, k, old(pk[off..off + 384 * k + 32]), old(m[..]), old(coins[..]))
    ensures Ready(dev, later)
  {
    hide Ready, Samplable, PublicMatrix, NoiseVec, NoisePoly, NttVec, InvNttVec, MatVec, AddVec, AddPoly, Transpose, Dot,
         InvNtt, Canon, Within, HoldsVec, ReadVec, EncodeVec, Encode, CompressVec, CompressPoly, DecompressPoly,
         Decode, CipherBytes;
    ghost var p := pk[off..off + 384 * k + 32];
    var pkpv := UnpackVec(k, pk, off);
    var seed := pk[off + 384 * k..off + 384 * k + 32];
    assert p[..384 * k] == pk[off..off + 384 * k] && p[384 * k..] == seed;
    var sp := SmallTransforms(sym, k, dev, coins[..], Eta1(k), 0, later);
    ghost var y, e1 := NoiseVec(sym, Eta1(k), coins[..], 0, k), NoiseVec(sym, ETA2, coins[..], k, k);
    var b := EncryptVector(sym, k, seed, coins[..], sp, NttVec(y));
    var v := EncryptPoly(sym, k, coins[..], pkpv, sp, m, ReadVec(k, p[..384 * k]), NttVec(y));
    PackCiphertext(k, c, b, v, CipherU(PublicMatrix(sym.xof, seed, k), y, e1));
  }

  // Decryption.

  /** indcpa.c:102-106, the first part. */
  method UnpackCipherVec(k: nat, c: array<byte>) returns (b: seq<array<int16>>)
    requires IsRank(k) && c.Length == CipherBytes(k)
    ensures IsVec(k, b) && forall i :: 0 <= i < k ==> fresh(b[i])
    ensures Residues(b) == CipherVec(k, c[..])
    ensures forall i, j :: 0 <= i < k && 0 <= j < 256 ==> -Q <= b[i][j] < Q
  {
    hide DecodeVec, DecompressPoly, Canon;
    b := NewVec(k);
    ghost var d := DecodeVec(Scale2(Du(k)), 32 * Du(k), k, c[..CipherVecBytes(k)]);
    VecDecompress(b, c, Du(k));
    assert c[..][..CipherVecBytes(k)] == c[..CipherVecBytes(k)];
    DecompressedArePolys(Scale2(Du(k)), d);
    forall i | 0 <= i < k
      ensures Canon(b[i][..]) == DecompressPoly(Scale2(Du(k)), d[i]) && IsPoly(b[i][..])
    {
      assert DecompressVec(Scale2(Du(k)), d)[i] == b[i][..];
      CanonOfPoly(b[i][..]);
    }
    forall i, j | 0 <= i < k && 0 <= j < 256
      ensures -Q <= b[i][j] < Q
    {
      assert b[i][..][j] == b[i][j];
    }
  }

  /** indcpa.c:102-106, the second part. */
  method UnpackCipherPoly(k: nat, c: array<byte>) returns (v: array<int16>)
    requires IsRank(k) && c.Length == CipherBytes(k)
    ensures fresh(v) && v.Length == 256 && Canon(v[..]) == CipherPoly(k, c[..]) && Within(v[..], Q - 1)
  {
    hide Decode, DecompressPoly, CipherVecBytes;
    v := new int16[256];
    DecompressFromBytes(v, c, CipherVecBytes(k), Dv(k));
    assert c[CipherVecBytes(k)..CipherVecBytes(k) + 32 * Dv(k)] == c[..][CipherVecBytes(k)..];
    CanonOfPoly(CipherPoly(k, c[..]));
  }

  /** indcpa.c:324-326 */
  method SecretProduct(dev: Device, skpv: seq<array<int16>>, b: seq<array<int16>>, ghost later: nat) returns (mp: array<int16>)
    requires Ready(dev, later + |b|) && 1 <= |b| <= 4 && IsVec(|b|, skpv) && IsVec(|b|, b) && AllWithin(skpv, 4095)
    requires forall i, j :: 0 <= i < |b| && 0 <= j < |b| ==> skpv[i] != b[j]
    requires forall i, j :: 0 <= i < |b| && 0 <= j < 256 ==> -Q <= b[i][j] < Q
    modifies dev, b
    ensures Ready(dev, later) && fresh(mp) && mp.Length == 256
    ensures Canon(mp[..]) == InvNtt(Dot(old(Residues(skpv)), NttVec(old(Residues(b))))) && Within(mp[..], Q - 1)
  {
    hide Ready, InvNtt, Dot, NttVec, Canon, Within, Residues;
    ghost var s := Residues(skpv);
    VecNtt(dev, b, later);
    assert Residues(skpv) == s && AllWithin(skpv, 4095);
    mp := new int16[256];
    InnerProduct(mp, skpv, b, 4095);
  }

  /** indcpa.c:314-332 */
  method Dec(k: nat, dev: Device, m: array<byte>, c: array<byte>, sk: array<byte>, ghost later: nat)
    requires IsRank(k) && Ready(dev, later + k) && m != c && m != sk
    requires m.Length == 32 && c.Length == CipherBytes(k) && 384 * k <= sk.Length
    modifies dev, m
    ensures m[..] == Decrypt(k, old(sk[..384 * k]), old(c[..]))
    ensures Ready(dev, later)
  {
    hide Ready, InvNtt, Dot, NttVec, SubPoly, Canon, Within, AllWithin, Residues, ReadVec, Encode, CompressPoly,
         CipherVec, CipherPoly, CipherBytes;
    var b := UnpackCipherVec(k, c);
    var v := UnpackCipherPoly(k, c);
    var skpv := UnpackVec(k, sk, 0);
    assert sk[0..0 + 384 * k] == sk[..384 * k];
    assert HoldsVec(skpv, ReadVec(k, sk[..384 * k]), 4095);
    var mp := SecretProduct(dev, skpv, b, later);
    Poly.Sub(mp, v, mp, Q - 1, Q - 1);
    Poly.ReduceCoefficients(mp);
    M.ToMessage(m, mp);
  }
}
