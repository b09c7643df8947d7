// symmetric.h and symmetric-shake.c: what the key-encapsulation mechanism takes from SHAKE and SHA-3.
module SymmetricShake {
  import opened MachineInts
  import opened Keccak
  import opened Sponge
  import opened Matrix
  import opened KPke
  import opened Kem

  function Words(b: seq<byte>): (w: seq<bv8>)
    ensures |w| == |b| && forall i :: 0 <= i < |b| ==> w[i] == b[i] as bv8
  {
    seq(|b|, i requires 0 <= i < |b| => b[i] as bv8)
  }

  function Bytes(w: seq<bv8>): (b: seq<byte>)
    ensures |b| == |w| && forall i :: 0 <= i < |w| ==> b[i] == w[i] as int
  {
    seq(|w|, i requires 0 <= i < |w| => w[i] as int)
  }

  lemma WordsConcat(a: seq<byte>, b: seq<byte>)
    ensures Words(a + b) == Words(a) + Words(b)
  {
  }

  /** Byte k of the output stream of a sponge for an input. */
  function Output(r: nat, domain: bv8, input: seq<byte>, k: nat): byte
    requires IsRate(r)
  {
    StreamByte(AbsorbedState(r, Words(input), domain), r, k) as int
  }

  /** The first n bytes. */
  function Digest(r: nat, domain: bv8, input: seq<byte>, n: nat): (b: seq<byte>)
    requires IsRate(r)
    ensures |b| == n && forall k :: 0 <= k < n ==> b[k] == Output(r, domain, input, k)
  {
    seq(n, k requires 0 <= k < n => Output(r, domain, input, k))
  }

  // The functions of section 4.1 of FIPS 203.

  function G(b: seq<byte>): Bytes64 {
    Digest(SHA3_512_RATE, 0x06, b, 64)
  }

  function H(b: seq<byte>): Bytes32 {
    Digest(SHA3_256_RATE, 0x06, b, 32)
  }

  function J(key: seq<byte>, input: seq<byte>): Bytes32 {
    Digest(SHAKE256_RATE, 0x1f, key + input, 32)
  }

  function PrfByte(key: seq<byte>, nonce: byte, k: nat): byte {
    Output(SHAKE256_RATE, 0x1f, key + [nonce], k)
  }

  function XofByte(seed: seq<byte>, x: byte, y: byte, k: nat): byte {
    Output(SHAKE128_RATE, 0x1f, seed + [x, y], k)
  }

  const KYBER := Symmetric(G, H, J, PrfByte, XofByte)

  // The code computes them.

  /** symmetric.h:27 */
  method HashG(b: seq<byte>) returns (r: Bytes64)
    ensures r == KYBER.g(b)
  {
    hide StreamByte, AbsorbedState;
    var out := new bv8[64];
    Sha3512(out, Words(b));
    r := Bytes(out[..]);
  }

  /** symmetric.h:26 */
  method HashH(b: seq<byte>) returns (r: Bytes32)
    ensures r == KYBER.h(b)
  {
    hide StreamByte, AbsorbedState;
    var out := new bv8[32];
    Sha3256(out, Words(b));
    r := Bytes(out[..]);
  }

  /** symmetric-shake.c:64-73 */
  method KyberRkprf(key: seq<byte>, input: seq<byte>) returns (r: Bytes32)
    ensures r == KYBER.rkprf(key, input)
  {
    hide StreamByte, AbsorbedState;
    var out := new bv8[32];
    Rkprf(out, Words(key), Words(input));
    WordsConcat(key, input);
    r := Bytes(out[..]);
  }

  /** symmetric-shake.c:43-51 */
  method KyberPrf(n: nat, key: seq<byte>, nonce: byte) returns (r: seq<byte>)
    ensures r == NoiseBytes(KYBER.prf, key, nonce, n)
  {
    hide StreamByte, AbsorbedState;
    var out := new bv8[n];
    Shake256(out, Words(key + [nonce]));
    r := Bytes(out[..]);
    forall i | 0 <= i < n
      ensures r[i] == KYBER.prf(key, nonce, i)
    {
      assert KYBER.prf(key, nonce, i) == PrfByte(key, nonce, i);
    }
  }

  /** The state from which n bytes of the matrix stream have been read, in whole blocks. */
  ghost predicate HasRead(s: State, seed: seq<byte>, x: byte, y: byte, n: nat) {
    var p := Position(AbsorbedState(SHAKE128_RATE, Words(seed + [x, y]), 0x1f), SHAKE128_RATE);
    Position(s, SHAKE128_RATE) == SqueezeBytes(p, SHAKE128_RATE, n).1
  }

  /** symmetric-shake.c:18-30 */
  method XofAbsorb(s: array<Lane>, seed: seq<byte>, x: byte, y: byte)
    requires s.Length == 25
    modifies s
    ensures HasRead(s[..], seed, x, y, 0)
  {
    hide Finalized, AbsorbBytes;
    KeccakAbsorbOnce(s, SHAKE128_RATE, Words(seed + [x, y]), 0x1f);
  }

  /** symmetric.h:29: the blocks read are the next ones of the stream, however the reads were split before. */
  method XofSqueezeBlocks(s: array<Lane>, nblocks: nat, ghost seed: seq<byte>, ghost x: byte, ghost y: byte, ghost n: nat)
    returns (buf: seq<byte>)
    requires s.Length == 25 && HasRead(s[..], seed, x, y, n)
    modifies s
    ensures buf == Stream(KYBER.xof, seed, x, y, n, SHAKE128_RATE * nblocks)
    ensures HasRead(s[..], seed, x, y, n + SHAKE128_RATE * nblocks)
  {
    hide StreamByte, AbsorbedState, SqueezeBytes;
    ghost var t := AbsorbedState(SHAKE128_RATE, Words(seed + [x, y]), 0x1f);
    var m := SHAKE128_RATE * nblocks;
    SqueezeContinues(t, s[..], SHAKE128_RATE, n, m);
    var out := new bv8[m];
    KeccakSqueezeBlocks(out, nblocks, s, SHAKE128_RATE);
    buf := Bytes(out[..]);
    forall i | 0 <= i < m
      ensures buf[i] == KYBER.xof(seed, x, y, n + i)
    {
      assert KYBER.xof(seed, x, y, n + i) == XofByte(seed, x, y, n + i);
      assert out[i] == out[..][i];
    }
  }

  /** Decapsulation with these functions (FIPS 203, section 6.3), for any key: a genuine ciphertext gives the first
      half of SHA3-512(m || h), any other the first 32 bytes of SHAKE256(z || c). */
  lemma SecretFromSponge(k: nat, sk: seq<byte>, c: seq<byte>, p: KeyParts)
    requires IsRank(k) && |sk| == SkBytes(k) && |c| == CipherBytes(k) && p == Parts(k, sk)
    ensures Decapsulated(KYBER, k, sk, c) ==
            if c == Reencrypted(KYBER, k, p, c) then Front(G(Decrypt(k, p.sk, c) + p.h)) else J(p.z, c)
  {
    hide G, J, Reencrypted, CipherBytes, Parts, SkBytes, Decrypt;
    assert KYBER.rkprf(p.z, c) == J(p.z, c);
    assert KYBER.g(Decrypt(k, p.sk, c) + p.h) == G(Decrypt(k, p.sk, c) + p.h);
  }
}
