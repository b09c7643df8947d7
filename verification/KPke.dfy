// The public-key encryption scheme of indcpa.c, as functions on byte strings (FIPS 203, section 5).
module KPke {
  import opened IntFacts
  import opened MachineInts
  import opened ModQ
  import opened NttSpec
  import opened Linear
  import opened Vectors
  import opened Digits
  import opened Compress
  import opened Serialize
  import opened Matrix
  import opened Noise
  import opened VectorBytes

  // Polynomials: keys, ciphertexts and what decryption leaves of them.

  function PublicVec(a: seq<seq<seq<int>>>, s: seq<seq<int>>, e: seq<seq<int>>): (t: seq<seq<int>>)
    requires |s| == |e| && IsMatrix(a, |s|, |s|) && IsPolys(s) && IsPolys(e)
    ensures |t| == |s| && IsPolys(t)
  {
    AddVec(MatVec(a, NttVec(s)), NttVec(e))
  }

  function CipherU(a: seq<seq<seq<int>>>, y: seq<seq<int>>, e1: seq<seq<int>>): (u: seq<seq<int>>)
    requires |y| == |e1| && IsMatrix(a, |y|, |y|) && IsPolys(y) && IsPolys(e1)
    ensures |u| == |y| && IsPolys(u)
  {
    AddVec(InvNttVec(MatVec(Transpose(a, |y|), NttVec(y))), e1)
  }

  function CipherV(t: seq<seq<int>>, y: seq<seq<int>>, e2: seq<int>, mu: seq<int>): (v: seq<int>)
    requires |y| == |t| && IsPolys(y) && IsPolys(t) && |e2| == |mu| == 256
    ensures IsPoly(v)
  {
    AddPoly(AddPoly(InvNtt(Dot(t, NttVec(y))), e2), mu)
  }

  function Message(s: seq<seq<int>>, u: seq<seq<int>>, v: seq<int>): (w: seq<int>)
    requires |s| == |u| && IsPolys(s) && IsPolys(u) && IsPoly(v)
    ensures IsPoly(w)
  {
    SubPoly(v, InvNtt(Dot(s, NttVec(u))))
  }

  /** e.y + e2 + cv - s.(e1 + cu), in the ring. */
  function NoiseOf(s: seq<seq<int>>, e: seq<seq<int>>, y: seq<seq<int>>, e1: seq<seq<int>>, e2: seq<int>,
                   cu: seq<seq<int>>, cv: seq<int>): (n: seq<int>)
    requires |s| == |e| == |y| == |e1| == |cu| && IsPolys(s) && IsPolys(e) && IsPolys(y) && IsPolys(e1) && IsPolys(cu)
    requires |e2| == |cv| == 256
    ensures IsPoly(n)
  {
    SubPoly(AddPoly(AddPoly(RingDot(e, y), e2), cv), RingDot(s, AddVec(e1, cu)))
  }

  /** Decrypting the transform-domain ciphertext u + cu: the secret product, plus noise. */
  lemma ProductWithCipher(a: seq<seq<seq<int>>>, s: seq<seq<int>>, y: seq<seq<int>>, e1: seq<seq<int>>, cu: seq<seq<int>>)
    requires |s| == |y| == |e1| == |cu| && IsMatrix(a, |s|, |s|)
    requires IsPolys(s) && IsPolys(y) && IsPolys(e1) && IsPolys(cu)
    ensures InvNtt(Dot(NttVec(s), NttVec(AddVec(CipherU(a, y, e1), cu))))
         == AddPoly(InvNtt(Dot(MatVec(a, NttVec(s)), NttVec(y))), RingDot(s, AddVec(e1, cu)))
  {
    hide Dot, Ntt, InvNtt, AddPoly, RingDot;
    var p, x := MatVec(Transpose(a, |s|), NttVec(y)), AddVec(e1, cu);
    AddVecAssoc(InvNttVec(p), e1, cu);
    NttVecAdd(InvNttVec(p), x);
    NttVecOfInvNttVec(p);
    DotAdd(NttVec(s), p, NttVec(x));
    DotOfTranspose(a, NttVec(s), NttVec(y));
    NttOfRingDot(s, x);
    InvNttAdd(Dot(NttVec(s), p), Dot(NttVec(s), NttVec(x)));
  }

  lemma AddVecAssoc(f: seq<seq<int>>, g: seq<seq<int>>, h: seq<seq<int>>)
    requires |f| == |g| == |h| && IsPolys(f) && IsPolys(g) && IsPolys(h)
    ensures AddVec(AddVec(f, g), h) == AddVec(f, AddVec(g, h))
  {
    hide AddPoly;
    forall i | 0 <= i < |f|
      ensures AddVec(AddVec(f, g), h)[i] == AddVec(f, AddVec(g, h))[i]
    {
      AddPolyAssoc(f[i], g[i], h[i]);
    }
  }

  /** The masking term in the ciphertext: the same product, plus noise. */
  lemma ProductWithKey(a: seq<seq<seq<int>>>, s: seq<seq<int>>, e: seq<seq<int>>, y: seq<seq<int>>)
    requires |s| == |e| == |y| && IsMatrix(a, |s|, |s|) && IsPolys(s) && IsPolys(e) && IsPolys(y)
    ensures InvNtt(Dot(PublicVec(a, s, e), NttVec(y)))
         == AddPoly(InvNtt(Dot(MatVec(a, NttVec(s)), NttVec(y))), RingDot(e, y))
  {
    hide Dot, Ntt, InvNtt, AddPoly, RingDot;
    var m := MatVec(a, NttVec(s));
    DotComm(PublicVec(a, s, e), NttVec(y));
    DotAdd(NttVec(y), m, NttVec(e));
    DotComm(NttVec(y), m);
    DotComm(NttVec(y), NttVec(e));
    NttOfRingDot(e, y);
    InvNttAdd(Dot(m, NttVec(y)), Dot(NttVec(e), NttVec(y)));
  }

  /** Decryption recovers the message polynomial plus the noise; all the products with A cancel. */
  lemma DecryptionIdentity(a: seq<seq<seq<int>>>, s: seq<seq<int>>, e: seq<seq<int>>, y: seq<seq<int>>,
                           e1: seq<seq<int>>, e2: seq<int>, mu: seq<int>, cu: seq<seq<int>>, cv: seq<int>)
    requires |s| == |e| == |y| == |e1| == |cu| && IsMatrix(a, |s|, |s|)
    requires IsPolys(s) && IsPolys(e) && IsPolys(y) && IsPolys(e1) && IsPolys(cu)
    requires |e2| == |mu| == |cv| == 256
    ensures var u, v := CipherU(a, y, e1), CipherV(PublicVec(a, s, e), y, e2, mu);
            IsPoly(AddPoly(v, cv)) && Message(NttVec(s), AddVec(u, cu), AddPoly(v, cv)) == AddPoly(mu, NoiseOf(s, e, y, e1, e2, cu, cv))
  {
    hide Dot, Ntt, InvNtt, AddPoly, SubPoly, RingDot;
    ProductWithCipher(a, s, y, e1, cu);
    ProductWithKey(a, s, e, y);
    AddPolyIsPoly(CipherV(PublicVec(a, s, e), y, e2, mu), cv);
    Cancel(InvNtt(Dot(MatVec(a, NttVec(s)), NttVec(y))), RingDot(e, y), e2, mu, cv, RingDot(s, AddVec(e1, cu)));
  }

  lemma Cancel(p: seq<int>, ey: seq<int>, e2: seq<int>, mu: seq<int>, cv: seq<int>, sx: seq<int>)
    requires |p| == |ey| == |e2| == |mu| == |cv| == |sx|
    ensures SubPoly(AddPoly(AddPoly(AddPoly(AddPoly(p, ey), e2), mu), cv), AddPoly(p, sx))
         == AddPoly(mu, SubPoly(AddPoly(AddPoly(ey, e2), cv), sx))
  {
    hide AddPoly, SubPoly;
    var n := AddPoly(AddPoly(ey, e2), cv);
    AddPolyAssoc(p, ey, e2);
    AddPolyAssoc(p, AddPoly(ey, e2), mu);
    AddPolyAssoc(p, AddPoly(AddPoly(ey, e2), mu), cv);
    AddPolyComm(AddPoly(ey, e2), mu);
    AddPolyAssoc(mu, AddPoly(ey, e2), cv);
    SubSame(p, AddPoly(mu, n), sx);
    SubAssoc(mu, n, sx);
  }

  lemma SubSame(p: seq<int>, f: seq<int>, g: seq<int>)
    requires |p| == |f| == |g|
    ensures SubPoly(AddPoly(p, f), AddPoly(p, g)) == SubPoly(f, g)
  {
  }

  lemma SubAssoc(f: seq<int>, g: seq<int>, h: seq<int>)
    requires |f| == |g| == |h|
    ensures SubPoly(AddPoly(f, g), h) == AddPoly(f, SubPoly(g, h))
  {
  }

  // From noise to message bits.

  /** The noise coefficients that leave a message bit intact. */
  predicate Harmless(n: int, bit: int) {
    -832 <= Centred(n) <= 832 - bit
  }

  /** A noisy bit rounds back to itself exactly when the noise is harmless. */
  lemma BitSurvives(bit: int, n: int)
    requires bit == 0 || bit == 1
    ensures CompressTo(2, (DecompressFrom(2, bit) + n) % Q) == bit <==> Harmless(n, bit)
  {
    var c := Centred(n);
    AddCong(DecompressFrom(2, bit), DecompressFrom(2, bit), n, c);
    CompressNear(bit, c);
  }

  lemma CompressNear(bit: int, c: int)
    requires (bit == 0 || bit == 1) && -(Q - 1) / 2 <= c <= (Q - 1) / 2
    ensures CompressTo(2, (1665 * bit + c) % Q) == bit <==> -832 <= c <= 832 - bit
    ensures DecompressFrom(2, bit) == 1665 * bit
  {
    var x := (1665 * bit + c) % Q;
    var z := 1665 * bit + c;
    assert x == if z < 0 then z + Q else if z == Q then 0 else z;
  }

  // The scheme.

  type Bytes32 = s: seq<byte> | |s| == 32 witness seq(32, i => 0)
  type Bytes64 = s: seq<byte> | |s| == 64 witness seq(64, i => 0)

  /** The hash functions, left open: G, H, the rejection function, and byte streams for noise and matrix. */
  datatype Symmetric = Symmetric(
    g: seq<byte> -> Bytes64,
    h: seq<byte> -> Bytes32,
    rkprf: (seq<byte>, seq<byte>) -> Bytes32,
    prf: (seq<byte>, byte, nat) -> byte,
    xof: Xof)

  // params.h:29-43.

  predicate IsRank(k: nat) {
    2 <= k <= 4
  }

  function Eta1(k: nat): (eta: nat)
    ensures eta == 2 || eta == 3
  {
    if k == 2 then 3 else 2
  }

  const ETA2 := 2

  function Du(k: nat): (d: nat)
    ensures IsWidth(d)
  {
    if k == 4 then 11 else 10
  }

  function Dv(k: nat): (d: nat)
    ensures IsWidth(d)
  {
    if k == 4 then 5 else 4
  }

  /** KYBER_POLYVECCOMPRESSEDBYTES */
  function CipherVecBytes(k: nat): nat {
    32 * Du(k) * k
  }

  /** KYBER_INDCPA_BYTES */
  function CipherBytes(k: nat): (n: nat)
    ensures n == CipherVecBytes(k) + 32 * Dv(k)
  {
    CipherVecBytes(k) + 32 * Dv(k)
  }

  /** Row i, column j of the public matrix is sampled with index bytes j, i. */
  ghost function PublicMatrix(xof: Xof, rho: seq<byte>, k: nat): (a: seq<seq<seq<int>>>)
    requires IsRank(k)
    ensures IsMatrix(a, k, k)
    ensures forall i: byte, j: byte :: i < k && j < k ==> a[i][j] == SampleNtt(xof, rho, j, i)
  {
    seq(k, i requires 0 <= i < k => MatrixRow(xof, rho, k, i))
  }

  ghost function MatrixRow(xof: Xof, rho: seq<byte>, k: nat, i: byte): (r: seq<seq<int>>)
    requires IsRank(k) && i < k
    ensures |r| == k && IsPolys(r) && forall j: byte :: j < k ==> r[j] == SampleNtt(xof, rho, j, i)
  {
    seq(k, j requires 0 <= j < k => SampleNtt(xof, rho, j, i))
  }

  function NoiseBytes(prf: (seq<byte>, byte, nat) -> byte, seed: seq<byte>, nonce: byte, n: nat): (b: seq<byte>)
    ensures |b| == n
  {
    seq(n, i requires 0 <= i < n => prf(seed, nonce, i))
  }

  function NoiseCoefficient(sym: Symmetric, eta: nat, seed: seq<byte>, nonce: byte, i: nat): int
    requires (eta == 2 || eta == 3) && i < 256
  {
    NoiseAt(eta, BitString(NoiseBytes(sym.prf, seed, nonce, 64 * eta)), i)
  }

  function NoisePoly(sym: Symmetric, eta: nat, seed: seq<byte>, nonce: byte): (f: seq<int>)
    requires eta == 2 || eta == 3
    ensures IsPoly(f)
    ensures forall i :: 0 <= i < 256 ==> f[i] == NoiseCoefficient(sym, eta, seed, nonce, i) % Q
  {
    seq(256, i requires 0 <= i < 256 => NoiseCoefficient(sym, eta, seed, nonce, i) % Q)
  }

  function NoiseVec(sym: Symmetric, eta: nat, seed: seq<byte>, from: nat, k: nat): (f: seq<seq<int>>)
    requires (eta == 2 || eta == 3) && from + k <= 256
    ensures |f| == k
    ensures forall i :: 0 <= i < k ==> f[i] == NoisePoly(sym, eta, seed, from + i)
    ensures IsPolys(f)
  {
    hide IsPoly, NoiseCoefficient;
    seq(k, i requires 0 <= i < k => NoisePoly(sym, eta, seed, from + i))
  }

  /** The polynomial that a byte string stands for. */
  function Binomial(eta: nat, b: seq<byte>): (f: seq<int>)
    requires (eta == 2 || eta == 3) && |b| == 64 * eta
    ensures IsPoly(f) && forall c :: 0 <= c < 256 ==> f[c] == BinomialAt(eta, b, c) % Q
  {
    seq(256, c requires 0 <= c < 256 => BinomialAt(eta, b, c) % Q)
  }

  /** b holds the bytes of the stream for this nonce. */
  ghost predicate IsStream(prf: (seq<byte>, byte, nat) -> byte, seed: seq<byte>, nonce: byte, b: seq<byte>) {
    forall j :: 0 <= j < |b| ==> b[j] == prf(seed, nonce, j)
  }

  /** b[0], b[1], ... hold the bytes of the streams for nonces `from`, `from` + 1, ... */
  ghost predicate AreStreams(prf: (seq<byte>, byte, nat) -> byte, seed: seq<byte>, from: nat, b: seq<seq<byte>>, n: nat) {
    from + |b| <= 256 && forall i :: 0 <= i < |b| ==> |b[i]| == n && IsStream(prf, seed, from + i, b[i])
  }

  function Binomials(eta: nat, b: seq<seq<byte>>): (f: seq<seq<int>>)
    requires (eta == 2 || eta == 3) && forall i :: 0 <= i < |b| ==> |b[i]| == 64 * eta
    ensures |f| == |b| && IsPolys(f) && forall i :: 0 <= i < |b| ==> f[i] == Binomial(eta, b[i])
  {
    seq(|b|, i requires 0 <= i < |b| => Binomial(eta, b[i]))
  }

  lemma NoisePolyOfStream(sym: Symmetric, eta: nat, seed: seq<byte>, nonce: byte, b: seq<byte>)
    requires (eta == 2 || eta == 3) && |b| == 64 * eta && IsStream(sym.prf, seed, nonce, b)
    ensures NoisePoly(sym, eta, seed, nonce) == Binomial(eta, b)
  {
    hide NoiseAt, BinomialAt, BitString;
    assert NoiseBytes(sym.prf, seed, nonce, 64 * eta) == b;
    DigitsOfBytes(b);
    forall c | 0 <= c < 256
      ensures NoisePoly(sym, eta, seed, nonce)[c] == Binomial(eta, b)[c]
    {
      NoiseIsBinomial(eta, b, c);
    }
  }

  lemma NoiseVecOfStreams(sym: Symmetric, eta: nat, seed: seq<byte>, from: nat, b: seq<seq<byte>>)
    requires (eta == 2 || eta == 3) && AreStreams(sym.prf, seed, from, b, 64 * eta)
    ensures NoiseVec(sym, eta, seed, from, |b|) == Binomials(eta, b)
  {
    hide NoisePoly, Binomial, IsStream;
    forall i | 0 <= i < |b|
      ensures NoiseVec(sym, eta, seed, from, |b|)[i] == Binomials(eta, b)[i]
    {
      NoisePolyOfStream(sym, eta, seed, from + i, b[i]);
    }
  }

  /** rho, the seed of the matrix. */
  function MatrixSeed(sym: Symmetric, k: nat, d: Bytes32): Bytes32
    requires IsRank(k)
  {
    sym.g(d + [k])[..32]
  }

  ghost function KeyMatrix(sym: Symmetric, k: nat, d: Bytes32): (a: seq<seq<seq<int>>>)
    requires IsRank(k)
    ensures IsMatrix(a, k, k)
  {
    PublicMatrix(sym.xof, MatrixSeed(sym, k, d), k)
  }

  function SecretVec(sym: Symmetric, k: nat, d: Bytes32): (s: seq<seq<int>>)
    requires IsRank(k)
    ensures |s| == k && IsPolys(s)
  {
    NoiseVec(sym, Eta1(k), sym.g(d + [k])[32..], 0, k)
  }

  function ErrorVec(sym: Symmetric, k: nat, d: Bytes32): (e: seq<seq<int>>)
    requires IsRank(k)
    ensures |e| == k && IsPolys(e)
  {
    NoiseVec(sym, Eta1(k), sym.g(d + [k])[32..], k, k)
  }

  /** K-PKE.KeyGen: the public key. */
  ghost function PublicKey(sym: Symmetric, k: nat, d: Bytes32): (pk: seq<byte>)
    requires IsRank(k)
    ensures |pk| == 384 * k + 32
  {
    hide PublicVec, KeyMatrix, SecretVec, ErrorVec, EncodeVec;
    EncodeVec(4096, 384, PublicVec(KeyMatrix(sym, k, d), SecretVec(sym, k, d), ErrorVec(sym, k, d)))
    + MatrixSeed(sym, k, d)
  }

  /** A public key ends with the seed of its matrix. */
  lemma PublicKeyTail(sym: Symmetric, k: nat, d: Bytes32)
    requires IsRank(k)
    ensures PublicKey(sym, k, d)[384 * k..] == MatrixSeed(sym, k, d)
  {
    hide EncodeVec, PublicVec, KeyMatrix, SecretVec, ErrorVec, NttVec, MatVec, AddVec, IsPoly, NoiseVec, PublicMatrix;
    TailOf(EncodeVec(4096, 384, PublicVec(KeyMatrix(sym, k, d), SecretVec(sym, k, d), ErrorVec(sym, k, d))),
           MatrixSeed(sym, k, d), 384 * k);
  }

  lemma TailOf<T>(a: seq<T>, b: seq<T>, n: nat)
    requires |a| == n
    ensures (a + b)[n..] == b
  {
  }

  /** K-PKE.KeyGen: the secret key. */
  function SecretKey(sym: Symmetric, k: nat, d: Bytes32): (sk: seq<byte>)
    requires IsRank(k)
    ensures |sk| == 384 * k
  {
    EncodeVec(4096, 384, NttVec(SecretVec(sym, k, d)))
  }

  /** A key part read back; values from q to 4095 stand for their residues. */
  function ReadVec(k: nat, b: seq<byte>): (f: seq<seq<int>>)
    requires |b| == 384 * k
    ensures |f| == k && IsPolys(f)
  {
    CanonVec(DecodeVec(4096, 384, k, b))
  }

  /** The two parts of a ciphertext before compression. */
  ghost function CipherParts(sym: Symmetric, k: nat, pk: seq<byte>, m: Bytes32, coins: Bytes32): (uv: (seq<seq<int>>, seq<int>))
    requires IsRank(k) && |pk| == 384 * k + 32
    ensures |uv.0| == k && IsPolys(uv.0) && IsPoly(uv.1)
  {
    var a, t := PublicMatrix(sym.xof, pk[384 * k..], k), ReadVec(k, pk[..384 * k]);
    var y, e1 := NoiseVec(sym, Eta1(k), coins, 0, k), NoiseVec(sym, ETA2, coins, k, k);
    var e2, mu := NoisePoly(sym, ETA2, coins, 2 * k), DecompressPoly(2, Decode(2, m));
    (CipherU(a, y, e1), CipherV(t, y, e2, mu))
  }

  /** K-PKE.Encrypt. */
  ghost function Encrypt(sym: Symmetric, k: nat, pk: seq<byte>, m: Bytes32, coins: Bytes32): (c: seq<byte>)
    requires IsRank(k) && |pk| == 384 * k + 32
    ensures |c| == CipherBytes(k)
  {
    hide CipherParts, EncodeVec, Encode, CompressVec, CompressPoly;
    var (u, v) := CipherParts(sym, k, pk, m, coins);
    var mu, mv := Scale2(Du(k)), Scale2(Dv(k));
    EncodeVec(mu, 32 * Du(k), CompressVec(mu, u)) + Encode(mv, 32 * Dv(k), CompressPoly(mv, v))
  }

  /** The first part of a ciphertext, decompressed. */
  function CipherVec(k: nat, c: seq<byte>): (u: seq<seq<int>>)
    requires |c| == CipherBytes(k)
    ensures |u| == k && IsPolys(u)
  {
    var m := Scale2(Du(k));
    DecompressedArePolys(m, DecodeVec(m, 32 * Du(k), k, c[..CipherVecBytes(k)]));
    DecompressVec(m, DecodeVec(m, 32 * Du(k), k, c[..CipherVecBytes(k)]))
  }

  /** The second part. */
  function CipherPoly(k: nat, c: seq<byte>): (v: seq<int>)
    requires |c| == CipherBytes(k)
    ensures IsPoly(v)
  {
    var m := Scale2(Dv(k));
    DecompressedIsPoly(m, Decode(m, c[CipherVecBytes(k)..]));
    DecompressPoly(m, Decode(m, c[CipherVecBytes(k)..]))
  }

  /** K-PKE.Decrypt. */
  function Decrypt(k: nat, sk: seq<byte>, c: seq<byte>): (m: seq<byte>)
    requires IsRank(k) && |sk| == 384 * k && |c| == CipherBytes(k)
    ensures |m| == 32
  {
    Encode(2, 32, CompressPoly(2, Unrounded(k, sk, c)))
  }

  // Where seeds and noise come from, in terms of the streams themselves.

  /** Table 2 of FIPS 203: eta1, du, dv and the size of a ciphertext. */
  lemma ParameterSets()
    ensures Eta1(2) == 3 && Eta1(3) == 2 && Eta1(4) == 2 && ETA2 == 2
    ensures Du(2) == 10 && Du(3) == 10 && Du(4) == 11 && Dv(2) == 4 && Dv(3) == 4 && Dv(4) == 5
    ensures CipherBytes(2) == 768 && CipherBytes(3) == 1088 && CipherBytes(4) == 1568
    ensures Scale2(4) == Pow(2, 4) && Scale2(5) == Pow(2, 5) && Scale2(10) == Pow(2, 10) && Scale2(11) == Pow(2, 11)
  {
  }

  /** Algorithm 13 of FIPS 203: the output of G is the matrix seed and then the noise seed; the streams for nonces
      0, ..., k - 1 give the secret and those for k, ..., 2k - 1 the error. */
  lemma KeyFromStreams(sym: Symmetric, k: nat, d: Bytes32, rho: Bytes32, sigma: Bytes32, b: seq<seq<byte>>)
    requires IsRank(k) && sym.g(d + [k]) == rho + sigma
    requires |b| == 2 * k && AreStreams(sym.prf, sigma, 0, b, 64 * Eta1(k))
    ensures var s, e := Binomials(Eta1(k), b[..k]), Binomials(Eta1(k), b[k..]);
            && MatrixSeed(sym, k, d) == rho && SecretVec(sym, k, d) == s && ErrorVec(sym, k, d) == e
            && PublicKey(sym, k, d) == EncodeVec(4096, 384, PublicVec(PublicMatrix(sym.xof, rho, k), s, e)) + rho
            && SecretKey(sym, k, d) == EncodeVec(4096, 384, NttVec(s))
  {
    hide EncodeVec, PublicVec, PublicMatrix, NttVec, NoiseVec, Binomials, IsStream, IsPoly;
    assert sym.g(d + [k])[..32] == rho && sym.g(d + [k])[32..] == sigma;
    NoiseVecOfStreams(sym, Eta1(k), sigma, 0, b[..k]);
    NoiseVecOfStreams(sym, Eta1(k), sigma, k, b[k..]);
  }

  lemma NoiseOfCoins(sym: Symmetric, k: nat, coins: Bytes32, y: seq<seq<byte>>, e: seq<seq<byte>>)
    requires IsRank(k)
    requires |y| == k && AreStreams(sym.prf, coins, 0, y, 64 * Eta1(k))
    requires |e| == k + 1 && AreStreams(sym.prf, coins, k, e, 128)
    ensures NoiseVec(sym, Eta1(k), coins, 0, k) == Binomials(Eta1(k), y)
    ensures NoiseVec(sym, ETA2, coins, k, k) == Binomials(2, e[..k])
    ensures NoisePoly(sym, ETA2, coins, 2 * k) == Binomial(2, e[k])
  {
    hide NoiseVec, NoisePoly, Binomials, Binomial, IsStream, IsPoly;
    NoiseVecOfStreams(sym, Eta1(k), coins, 0, y);
    NoiseVecOfStreams(sym, ETA2, coins, k, e[..k]);
    NoisePolyOfStream(sym, ETA2, coins, 2 * k, e[k]);
  }

  /** The ciphertext is the encoding of its two parts, compressed. */
  lemma PartsEncoded(sym: Symmetric, k: nat, pk: seq<byte>, m: Bytes32, coins: Bytes32)
    requires IsRank(k) && |pk| == 384 * k + 32
    ensures var (u, v) := CipherParts(sym, k, pk, m, coins); var mu, mv := Scale2(Du(k)), Scale2(Dv(k));
            Encrypt(sym, k, pk, m, coins) ==
              EncodeVec(mu, 32 * Du(k), CompressVec(mu, u)) + Encode(mv, 32 * Dv(k), CompressPoly(mv, v))
  {
    hide CipherParts, EncodeVec, Encode, CompressVec, CompressPoly, IsPoly;
  }

  /** Algorithm 14: nonces 0, ..., k - 1 give y, k, ..., 2k - 1 give e1, and 2k gives e2. */
  lemma CipherFromStreams(sym: Symmetric, k: nat, pk: seq<byte>, m: Bytes32, coins: Bytes32, y: seq<seq<byte>>, e: seq<seq<byte>>)
    requires IsRank(k) && |pk| == 384 * k + 32
    requires |y| == k && AreStreams(sym.prf, coins, 0, y, 64 * Eta1(k))
    requires |e| == k + 1 && AreStreams(sym.prf, coins, k, e, 128)
    ensures var a, t := PublicMatrix(sym.xof, pk[384 * k..], k), ReadVec(k, pk[..384 * k]);
            CipherParts(sym, k, pk, m, coins) ==
              (CipherU(a, Binomials(Eta1(k), y), Binomials(2, e[..k])),
               CipherV(t, Binomials(Eta1(k), y), Binomial(2, e[k]), DecompressPoly(2, Decode(2, m))))
  {
    hide CipherU, CipherV, PublicMatrix, NoiseVec, NoisePoly, Binomials, Binomial, IsPoly, ReadVec, Decode, DecompressPoly;
    NoiseOfCoins(sym, k, coins, y, e);
  }

  // Correctness of decryption.

  /** e.y + e2 + cv - s.(e1 + cu) for the given seed, message and coins, where cu and cv are what compression
      changes in the ciphertext. */
  ghost function DecryptionNoise(sym: Symmetric, k: nat, d: Bytes32, m: Bytes32, coins: Bytes32): (n: seq<int>)
    requires IsRank(k)
    ensures IsPoly(n)
  {
    hide SecretVec, ErrorVec, NoiseVec, NoisePoly, CipherParts, PublicKey, NoiseOf, ErrorsOfVec, ErrorOf;
    var s, e := SecretVec(sym, k, d), ErrorVec(sym, k, d);
    var y, e1 := NoiseVec(sym, Eta1(k), coins, 0, k), NoiseVec(sym, ETA2, coins, k, k);
    var (u, v) := CipherParts(sym, k, PublicKey(sym, k, d), m, coins);
    NoiseOf(s, e, y, e1, NoisePoly(sym, ETA2, coins, 2 * k),
            ErrorsOfVec(Scale2(Du(k)), u), ErrorOf(Scale2(Dv(k)), v))
  }

  /** The change made by compressing to m values and back. */
  function ErrorOf(m: int, f: seq<int>): (c: seq<int>)
    requires IsScale(m) && |f| == 256
    ensures IsPoly(c)
  {
    SubPoly(DecompressPoly(m, CompressPoly(m, f)), f)
  }

  function ErrorsOfVec(m: int, f: seq<seq<int>>): (c: seq<seq<int>>)
    requires IsScale(m) && IsPolys(f)
    ensures |c| == |f| && IsPolys(c) && forall i :: 0 <= i < |f| ==> c[i] == ErrorOf(m, f[i])
  {
    seq(|f|, i requires 0 <= i < |f| => ErrorOf(m, f[i]))
  }

  lemma AddError(m: int, f: seq<int>)
    requires IsScale(m) && IsPoly(f)
    ensures AddPoly(f, ErrorOf(m, f)) == DecompressPoly(m, CompressPoly(m, f))
  {
    hide DecompressFrom, CompressTo;
    DecompressedIsPoly(m, CompressPoly(m, f));
    forall i | 0 <= i < 256
      ensures (f[i] + ErrorOf(m, f)[i]) % Q == DecompressPoly(m, CompressPoly(m, f))[i]
    {
      Restore(f[i], DecompressPoly(m, CompressPoly(m, f))[i]);
    }
  }

  lemma Restore(x: int, y: int)
    requires 0 <= y < Q
    ensures (x + (y - x) % Q) % Q == y
  {
  }

  lemma AddErrors(m: int, f: seq<seq<int>>)
    requires IsScale(m) && IsPolys(f)
    ensures AddVec(f, ErrorsOfVec(m, f)) == DecompressVec(m, CompressVec(m, f))
  {
    hide AddPoly, ErrorOf, DecompressPoly, CompressPoly, IsPoly;
    forall i | 0 <= i < |f|
      ensures AddVec(f, ErrorsOfVec(m, f))[i] == DecompressVec(m, CompressVec(m, f))[i]
    {
      AddError(m, f[i]);
    }
  }

  /** What the decryptor reads from the ciphertext. */
  lemma CipherReadBack(sym: Symmetric, k: nat, pk: seq<byte>, m: Bytes32, coins: Bytes32)
    requires IsRank(k) && |pk| == 384 * k + 32
    ensures var (u, v) := CipherParts(sym, k, pk, m, coins);
            var c := Encrypt(sym, k, pk, m, coins);
            && CipherVec(k, c) == AddVec(u, ErrorsOfVec(Scale2(Du(k)), u))
            && CipherPoly(k, c) == AddPoly(v, ErrorOf(Scale2(Dv(k)), v))
  {
    hide CipherParts, EncodeVec, Encode, DecodeVec, Decode, AddPoly, ErrorOf;
    var (u, v) := CipherParts(sym, k, pk, m, coins);
    var c := Encrypt(sym, k, pk, m, coins);
    var mu, mv, n := Scale2(Du(k)), Scale2(Dv(k)), CipherVecBytes(k);
    AddErrors(mu, u);
    AddError(mv, v);
    ScaleIsPower(Du(k));
    ScaleIsPower(Dv(k));
    DecodeVecOfEncodeVec(mu, Du(k), CompressVec(mu, u));
    DecodeOfEncode(mv, Dv(k), CompressPoly(mv, v));
    assert c[..n] == EncodeVec(mu, 32 * Du(k), CompressVec(mu, u));
    assert c[n..] == Encode(mv, 32 * Dv(k), CompressPoly(mv, v));
  }

  lemma ScaleIsPower(d: nat)
    requires IsWidth(d)
    ensures Scale2(d) == Pow(2, d)
  {
    assert Pow(2, 4) == 16;
    assert Pow(2, 8) == 16 * Pow(2, 4);
  }

  lemma KeyReadBack(f: seq<seq<int>>)
    requires IsPolys(f)
    ensures CanonVec(DecodeVec(4096, 384, |f|, EncodeVec(4096, 384, f))) == f
  {
    hide EncodeVec, DecodeVec, Pow;
    assert Pow(2, 12) == 4096 by {
      PowerTwelve();
    }
    forall i | 0 <= i < |f|
      ensures Canon(f[i]) == f[i] && AreDigits(4096, f[i])
    {
      CanonOfPoly(f[i]);
    }
    DecodeVecOfEncodeVec(4096, 12, f);
  }

  lemma PowerTwelve()
    ensures Pow(2, 12) == 4096
  {
    assert Pow(2, 6) == 64;
  }

  /** The ciphertext under a generated key uses the public vector and the matrix of that key. */
  lemma PartsUnderKey(sym: Symmetric, k: nat, d: Bytes32, m: Bytes32, coins: Bytes32)
    requires IsRank(k)
    ensures var t := PublicVec(KeyMatrix(sym, k, d), SecretVec(sym, k, d), ErrorVec(sym, k, d));
            var y := NoiseVec(sym, Eta1(k), coins, 0, k);
            CipherParts(sym, k, PublicKey(sym, k, d), m, coins)
            == (CipherU(KeyMatrix(sym, k, d), y, NoiseVec(sym, ETA2, coins, k, k)),
                CipherV(t, y, NoisePoly(sym, ETA2, coins, 2 * k), DecompressPoly(2, Decode(2, m))))
  {
    hide PublicVec, CipherU, CipherV, EncodeVec, DecodeVec, Decode, DecompressPoly, NoiseVec, NoisePoly, PublicMatrix,
         SecretVec, ErrorVec, CanonVec;
    var t := PublicVec(KeyMatrix(sym, k, d), SecretVec(sym, k, d), ErrorVec(sym, k, d));
    KeyReadBack(t);
    var pk := PublicKey(sym, k, d);
    assert pk[..384 * k] == EncodeVec(4096, 384, t);
    assert pk[384 * k..] == MatrixSeed(sym, k, d);
  }

  /** The ciphertext of m under the key generated from d. */
  ghost function CipherOf(sym: Symmetric, k: nat, d: Bytes32, m: Bytes32, coins: Bytes32): (c: seq<byte>)
    requires IsRank(k)
    ensures |c| == CipherBytes(k)
  {
    hide PublicKey, Encrypt, CipherBytes;
    Encrypt(sym, k, PublicKey(sym, k, d), m, coins)
  }

  /** The polynomial the decryptor of a ciphertext rounds. */
  function Unrounded(k: nat, sk: seq<byte>, c: seq<byte>): (w: seq<int>)
    requires IsRank(k) && |sk| == 384 * k && |c| == CipherBytes(k)
    ensures IsPoly(w)
  {
    Message(ReadVec(k, sk), CipherVec(k, c), CipherPoly(k, c))
  }

  ghost function UnroundedOf(sym: Symmetric, k: nat, d: Bytes32, m: Bytes32, coins: Bytes32): (w: seq<int>)
    requires IsRank(k)
    ensures IsPoly(w)
  {
    hide SecretKey, CipherOf, Unrounded, CipherBytes, IsPoly;
    Unrounded(k, SecretKey(sym, k, d), CipherOf(sym, k, d, m, coins))
  }

  /** It is the message polynomial plus the noise. */
  lemma DecryptedPoly(sym: Symmetric, k: nat, d: Bytes32, m: Bytes32, coins: Bytes32)
    requires IsRank(k)
    ensures UnroundedOf(sym, k, d, m, coins)
         == AddPoly(DecompressPoly(2, Decode(2, m)), DecryptionNoise(sym, k, d, m, coins))
  {
    hide PublicVec, CipherU, CipherV, Message, NoiseOf, EncodeVec, DecodeVec, Encode, Decode, AddPoly, ErrorOf,
         DecompressPoly, NoiseVec, NoisePoly, KeyMatrix, NttVec, SecretVec, ErrorVec, CipherParts, Encrypt,
         PublicKey, CipherVec, CipherPoly, CanonVec, ErrorsOfVec, AddVec, CipherBytes, CipherVecBytes;
    var s, e, a := SecretVec(sym, k, d), ErrorVec(sym, k, d), KeyMatrix(sym, k, d);
    var y, e1 := NoiseVec(sym, Eta1(k), coins, 0, k), NoiseVec(sym, ETA2, coins, k, k);
    var e2, mu := NoisePoly(sym, ETA2, coins, 2 * k), DecompressPoly(2, Decode(2, m));
    var pk := PublicKey(sym, k, d);
    var (u, v) := CipherParts(sym, k, pk, m, coins);
    PartsUnderKey(sym, k, d, m, coins);
    KeyReadBack(NttVec(s));
    CipherReadBack(sym, k, pk, m, coins);
    DecryptionIdentity(a, s, e, y, e1, e2, mu, ErrorsOfVec(Scale2(Du(k)), u), ErrorOf(Scale2(Dv(k)), v));
  }

  ghost predicate AllHarmless(n: seq<int>, m: Bytes32)
    requires IsPoly(n)
  {
    forall i :: 0 <= i < 256 ==> Harmless(n[i], Decode(2, m)[i])
  }

  /** Decryption returns the message if and only if every noise coefficient is harmless. */
  lemma DecryptOfEncrypt(sym: Symmetric, k: nat, d: Bytes32, m: Bytes32, coins: Bytes32)
    requires IsRank(k)
    ensures Decrypt(k, SecretKey(sym, k, d), CipherOf(sym, k, d, m, coins)) == m
            <==> AllHarmless(DecryptionNoise(sym, k, d, m, coins), m)
  {
    hide Message, Encode, Decode, AddPoly, AllHarmless, CompressPoly, DecompressPoly, SecretKey, CipherOf, Unrounded,
         DecryptionNoise, CipherBytes;
    DecryptedPoly(sym, k, d, m, coins);
    MessageSurvives(m, DecryptionNoise(sym, k, d, m, coins));
  }

  /** In particular, every message survives noise whose centred coefficients lie in [-832, 831], and only
      such noise is harmless to every message. */
  lemma NoiseForEveryMessage(n: seq<int>)
    requires IsPoly(n)
    ensures (forall m: Bytes32 :: AllHarmless(n, m)) <==> forall i :: 0 <= i < 256 ==> -832 <= Centred(n[i]) <= 831
  {
    hide Decode, Centred;
    if forall m: Bytes32 :: AllHarmless(n, m) {
      var ones, zeros: Bytes32 := Encode(2, 32, seq(256, _ => 1)), Encode(2, 32, seq(256, _ => 0));
      MessageBitsUnique(ones, seq(256, _ => 1));
      assert AllHarmless(n, ones);
    }
  }

  lemma MessageSurvives(m: Bytes32, n: seq<int>)
    requires IsPoly(n)
    ensures Encode(2, 32, CompressPoly(2, AddPoly(DecompressPoly(2, Decode(2, m)), n))) == m
            <==> AllHarmless(n, m)
  {
    hide Encode, Decode, Harmless, CompressTo, DecompressFrom;
    var bits := Decode(2, m);
    var out := CompressPoly(2, AddPoly(DecompressPoly(2, bits), n));
    MessageBitsUnique(m, out);
    forall i | 0 <= i < 256
      ensures out[i] == bits[i] <==> Harmless(n[i], bits[i])
    {
      BitSurvives(bits[i], n[i]);
    }
    assert out == bits <==> forall i :: 0 <= i < 256 ==> out[i] == bits[i];
    assert out == bits <==> forall i :: 0 <= i < 256 ==> Harmless(n[i], bits[i]);
  }

  /** Messages and their 256 bits determine each other. */
  lemma MessageBitsUnique(m: Bytes32, bits: seq<int>)
    requires |bits| == 256 && AreDigits(2, bits)
    ensures Encode(2, 32, bits) == m <==> bits == Decode(2, m)
  {
    hide Pow, Convert;
    assert Pow(2, 1) == 2 by {
      PowerOnce(2, 1);
      PowerNothing(2);
    }
    DigitsOfBytes(m);
    FullCapacity(1, 2);
    ConvertBack(2, 256, bits, 32);
    ConvertBack(256, 2, m, 256);
  }

  lemma PowerNothing(b: nat)
    ensures Pow(b, 0) == 1
  {
  }
}
