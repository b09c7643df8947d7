// kem.c: the key-encapsulation mechanism built on the encryption scheme (FIPS 203, section 6).
module Kem {
  import opened MachineInts
  import opened Accelerator
  import opened KPke
  import opened Indcpa
  import opened Verify

  // As functions on byte strings. A secret key is the inner secret key, the public key, its hash, and z.

  /** KYBER_PUBLICKEYBYTES */
  function PkBytes(k: nat): nat {
    384 * k + 32
  }

  /** KYBER_SECRETKEYBYTES */
  function SkBytes(k: nat): (n: nat)
    ensures n == 384 * k + PkBytes(k) + 64
  {
    384 * k + PkBytes(k) + 64
  }

  function Front(b: Bytes64): (f: Bytes32)
    ensures f == b[..32]
  {
    b[..32]
  }

  function Back(b: Bytes64): (f: Bytes32)
    ensures f == b[32..]
  {
    b[32..]
  }

  ghost function KemSecretKey(sym: Symmetric, k: nat, coins: Bytes64): (sk: seq<byte>)
    requires IsRank(k)
    ensures |sk| == SkBytes(k)
  {
    hide PublicKey, Front, Back, SecretKey;
    var pk := PublicKey(sym, k, Front(coins));
    SecretKey(sym, k, Front(coins)) + pk + sym.h(pk) + Back(coins)
  }

  /** The shared secret and the inner coins that go with message m under the key with hash h. */
  function Derived(sym: Symmetric, m: Bytes32, h: Bytes32): (kr: Bytes64) {
    sym.g(m + h)
  }

  ghost function Encapsulated(sym: Symmetric, k: nat, pk: seq<byte>, m: Bytes32): (c: seq<byte>)
    requires IsRank(k) && |pk| == PkBytes(k)
    ensures |c| == CipherBytes(k)
  {
    hide Front, Back, Encrypt, CipherBytes;
    Encrypt(sym, k, pk, m, Back(Derived(sym, m, sym.h(pk))))
  }

  function SharedSecret(sym: Symmetric, pk: seq<byte>, m: Bytes32): Bytes32 {
    Front(Derived(sym, m, sym.h(pk)))
  }

  datatype KeyParts = KeyParts(sk: seq<byte>, pk: seq<byte>, h: Bytes32, z: Bytes32)

  function Parts(k: nat, sk: seq<byte>): (p: KeyParts)
    requires |sk| == SkBytes(k)
    ensures |p.sk| == 384 * k && |p.pk| == PkBytes(k)
  {
    var n := 384 * k + PkBytes(k);
    KeyParts(sk[..384 * k], sk[384 * k..n], sk[n..n + 32], sk[n + 32..])
  }

  /** The ciphertext that decapsulation computes again. */
  ghost function Reencrypted(sym: Symmetric, k: nat, p: KeyParts, c: seq<byte>): (c': seq<byte>)
    requires IsRank(k) && |p.sk| == 384 * k && |p.pk| == PkBytes(k) && |c| == CipherBytes(k)
    ensures |c'| == CipherBytes(k)
  {
    hide Front, Back, Encrypt, Decrypt, CipherBytes;
    var m := Decrypt(k, p.sk, c);
    Encrypt(sym, k, p.pk, m, Back(Derived(sym, m, p.h)))
  }

  ghost function Decapsulated(sym: Symmetric, k: nat, sk: seq<byte>, c: seq<byte>): Bytes32
    requires IsRank(k) && |sk| == SkBytes(k) && |c| == CipherBytes(k)
  {
    hide Front, Back, Encrypt, Decrypt, CipherBytes, SkBytes;
    var p := Parts(k, sk);
    if c == Reencrypted(sym, k, p, c) then Front(Derived(sym, Decrypt(k, p.sk, c), p.h)) else sym.rkprf(p.z, c)
  }

  lemma PartsOfKey(sym: Symmetric, k: nat, coins: Bytes64)
    requires IsRank(k)
    ensures var pk := PublicKey(sym, k, Front(coins));
            Parts(k, KemSecretKey(sym, k, coins)) == KeyParts(SecretKey(sym, k, Front(coins)), pk, sym.h(pk), Back(coins))
  {
    hide PublicKey, Front, Back, SecretKey;
    var pk, s := PublicKey(sym, k, Front(coins)), SecretKey(sym, k, Front(coins));
    var sk := KemSecretKey(sym, k, coins);
    assert sk == s + pk + sym.h(pk) + Back(coins);
  }

  /** Decapsulation of the encapsulation of m under the key from `coins`. */
  ghost function RoundTrip(sym: Symmetric, k: nat, coins: Bytes64, m: Bytes32): Bytes32
    requires IsRank(k)
  {
    hide PublicKey, Front, Back, KemSecretKey, Decapsulated, Encapsulated, CipherBytes, SkBytes, PkBytes;
    PkLength(k, PublicKey(sym, k, Front(coins)));
    Decapsulated(sym, k, KemSecretKey(sym, k, coins), Encapsulated(sym, k, PublicKey(sym, k, Front(coins)), m))
  }

  /** The secret that encapsulation of m under that key gives to the sender. */
  ghost function Sent(sym: Symmetric, k: nat, coins: Bytes64, m: Bytes32): Bytes32
    requires IsRank(k)
  {
    hide PublicKey, Front, SharedSecret;
    SharedSecret(sym, PublicKey(sym, k, Front(coins)), m)
  }

  lemma PkLength(k: nat, pk: seq<byte>)
    ensures |pk| == 384 * k + 32 <==> |pk| == PkBytes(k)
  {
  }

  /** The coins that encapsulation derives from m. */
  ghost function InnerCoins(sym: Symmetric, k: nat, coins: Bytes64, m: Bytes32): Bytes32
    requires IsRank(k)
  {
    hide Front, Back, PublicKey, Derived;
    Back(Derived(sym, m, sym.h(PublicKey(sym, k, Front(coins)))))
  }

  ghost predicate InnerNoiseHarmless(sym: Symmetric, k: nat, coins: Bytes64, m: Bytes32)
    requires IsRank(k)
  {
    hide Front, DecryptionNoise, AllHarmless, InnerCoins;
    AllHarmless(DecryptionNoise(sym, k, Front(coins), m, InnerCoins(sym, k, coins, m)), m)
  }

  /** Both sides get the same secret whenever the noise in the inner ciphertext is harmless. */
  lemma Agreement(sym: Symmetric, k: nat, coins: Bytes64, m: Bytes32)
    requires IsRank(k) && InnerNoiseHarmless(sym, k, coins, m)
    ensures RoundTrip(sym, k, coins, m) == Sent(sym, k, coins, m)
  {
    hide PublicKey, Front, Back, SecretKey, Encrypt, Decrypt, CipherBytes, KemSecretKey, Parts, AllHarmless, DecryptionNoise;
    PartsOfKey(sym, k, coins);
    DecryptOfEncrypt(sym, k, Front(coins), m, InnerCoins(sym, k, coins, m));
  }

  /** Two keys whose coins differ in z only take the same ciphertexts for genuine. On a genuine one they give the
      same secret, so z has no influence; on every other one each gives the rejection value of its own z. */
  lemma ImplicitRejection(sym: Symmetric, k: nat, coins: Bytes64, coins': Bytes64, c: seq<byte>)
    requires IsRank(k) && |c| == CipherBytes(k) && Front(coins) == Front(coins')
    ensures var sk, sk' := KemSecretKey(sym, k, coins), KemSecretKey(sym, k, coins');
            && Reencrypted(sym, k, Parts(k, sk), c) == Reencrypted(sym, k, Parts(k, sk'), c)
            && if c == Reencrypted(sym, k, Parts(k, sk), c) then
                 Decapsulated(sym, k, sk, c) == Decapsulated(sym, k, sk', c)
               else
                 && Decapsulated(sym, k, sk, c) == sym.rkprf(Back(coins), c)
                 && Decapsulated(sym, k, sk', c) == sym.rkprf(Back(coins'), c)
  {
    hide PublicKey, Front, Back, SecretKey, Encrypt, Decrypt, CipherBytes, KemSecretKey, Parts, Derived;
    PartsOfKey(sym, k, coins);
    PartsOfKey(sym, k, coins');
  }

  /** What decapsulation gives for any ciphertext under the key from `coins`. */
  ghost function Outcome(sym: Symmetric, k: nat, coins: Bytes64, c: seq<byte>): Bytes32
    requires IsRank(k) && |c| == CipherBytes(k)
  {
    hide PublicKey, Front, Back, SecretKey, Encrypt, Decrypt, CipherBytes, Derived;
    var d := Front(coins);
    var m := Decrypt(k, SecretKey(sym, k, d), c);
    PkLength(k, PublicKey(sym, k, d));
    if Encapsulated(sym, k, PublicKey(sym, k, d), m) == c then SharedSecret(sym, PublicKey(sym, k, d), m)
    else sym.rkprf(Back(coins), c)
  }

  /** A ciphertext is genuine exactly when encapsulating the message it decrypts to gives it again. */
  lemma DecapsulatedIsOutcome(sym: Symmetric, k: nat, coins: Bytes64, c: seq<byte>)
    requires IsRank(k) && |c| == CipherBytes(k)
    ensures Decapsulated(sym, k, KemSecretKey(sym, k, coins), c) == Outcome(sym, k, coins, c)
  {
    hide PublicKey, Front, Back, SecretKey, Encrypt, Decrypt, CipherBytes, KemSecretKey, Parts, Derived;
    PartsOfKey(sym, k, coins);
  }

  // The same in terms of what the hash functions put out.

  /** Algorithm 16 of FIPS 203: the coins are the inner seed and then z. */
  lemma KeyFromCoins(sym: Symmetric, k: nat, d: Bytes32, z: Bytes32, coins: Bytes64)
    requires IsRank(k) && coins == d + z
    ensures var pk := PublicKey(sym, k, d);
            KemSecretKey(sym, k, coins) == SecretKey(sym, k, d) + pk + sym.h(pk) + z
  {
    hide PublicKey, SecretKey;
    assert coins[..32] == d && coins[32..] == z;
  }

  /** Algorithm 17: the first half of G(m || H(pk)) is the secret, the second half the coins. */
  lemma EncapsulationFromHash(sym: Symmetric, k: nat, pk: seq<byte>, m: Bytes32, key: Bytes32, r: Bytes32)
    requires IsRank(k) && |pk| == PkBytes(k) && sym.g(m + sym.h(pk)) == key + r
    ensures Encapsulated(sym, k, pk, m) == Encrypt(sym, k, pk, m, r) && SharedSecret(sym, pk, m) == key
  {
    hide Encrypt, CipherBytes;
    assert (key + r)[..32] == key && (key + r)[32..] == r;
  }

  /** Algorithm 18, for any key s || pk || h || z. */
  lemma DecapsulationFromHash(sym: Symmetric, k: nat, s: seq<byte>, pk: seq<byte>, h: Bytes32, z: Bytes32, c: seq<byte>,
                              m: Bytes32, key: Bytes32, r: Bytes32)
    requires IsRank(k) && |s| == 384 * k && |pk| == PkBytes(k) && |c| == CipherBytes(k)
    requires m == Decrypt(k, s, c) && sym.g(m + h) == key + r
    ensures Decapsulated(sym, k, s + pk + h + z, c) ==
              if c == Encrypt(sym, k, pk, m, r) then key else sym.rkprf(z, c)
  {
    hide Encrypt, Decrypt, CipherBytes;
    PartsOf(k, s, pk, h, z);
    hide Parts;
    assert (key + r)[..32] == key && (key + r)[32..] == r;
  }

  lemma PartsOf(k: nat, s: seq<byte>, pk: seq<byte>, h: Bytes32, z: Bytes32)
    requires |s| == 384 * k && |pk| == PkBytes(k)
    ensures Parts(k, s + pk + h + z) == KeyParts(s, pk, h, z)
  {
    hide PkBytes;
    var sk := s + pk + h + z;
    assert sk[..|s|] == s && sk[|s|..|s| + |pk|] == pk;
    assert sk[|s| + |pk|..|s| + |pk| + 32] == h && sk[|s| + |pk| + 32..] == z;
  }

  // On buffers.

  /** Bytes copied into a buffer, as memcpy and the hash functions do. */
  method Put(r: array<byte>, off: nat, s: seq<byte>)
    requires off + |s| <= r.Length
    modifies r
    ensures r[..off] == old(r[..off]) && r[off..off + |s|] == s && r[off + |s|..] == old(r[off + |s|..])
  {
    var i := 0;
    while i < |s|
      invariant 0 <= i <= |s|
      invariant forall j :: 0 <= j < off || off + i <= j < r.Length ==> r[j] == old(r[j])
      invariant forall j :: 0 <= j < i ==> r[off + j] == s[j]
    {
      r[off + i] := s[i];
      i := i + 1;
    }
  }

  lemma SecretKeyBytes(sym: Symmetric, k: nat, coins: Bytes64, sk: seq<byte>)
    requires IsRank(k) && |sk| == SkBytes(k)
    requires var n, pk := 384 * k + PkBytes(k), PublicKey(sym, k, Front(coins));
             && sk[..n] == SecretKey(sym, k, Front(coins)) + pk
             && sk[n..n + 32] == sym.h(pk) && sk[n + 32..] == Back(coins)
    ensures sk == KemSecretKey(sym, k, coins)
  {
    hide PublicKey, SecretKey, Front, Back;
    var n := 384 * k + PkBytes(k);
    assert sk == sk[..n] + sk[n..n + 32] + sk[n + 32..];
  }

  /** kem.c:25-35 */
  method KeypairDerand(sym: Symmetric, k: nat, dev: Device, pk: array<byte>, sk: array<byte>, coins: array<byte>, ghost later: nat)
    requires IsRank(k) && Ready(dev, later + 2 * k) && pk != sk && pk != coins && sk != coins
    requires pk.Length == PkBytes(k) && sk.Length == SkBytes(k) && coins.Length == 64
    requires Samplable(sym.xof, MatrixSeed(sym, k, coins[..32]), k)
    modifies dev, pk, sk
    ensures pk[..] == PublicKey(sym, k, old(coins[..32])) && sk[..] == KemSecretKey(sym, k, old(coins[..]))
    ensures Ready(dev, later)
  {
    hide Ready, Samplable, PublicKey, SecretKey, KemSecretKey;
    ghost var d, s := coins[..32], coins[..];
    Indcpa.KeypairDerand(sym, k, dev, pk, sk, coins, later);
    var n := 384 * k + PkBytes(k);
    Put(sk, 384 * k, pk[..]);
    Put(sk, n, sym.h(pk[..]));
    ghost var front := sk[..n];
    assert front == SecretKey(sym, k, d) + PublicKey(sym, k, d);
    Put(sk, n + 32, coins[32..]);
    assert s[..32] == d && s[32..] == coins[32..];
    SecretKeyBytes(sym, k, s, sk[..]);
  }

  /** kem.c:76-97 */
  method EncDerand(sym: Symmetric, k: nat, dev: Device, ct: array<byte>, ss: array<byte>, pk: array<byte>, coins: array<byte>, ghost later: nat)
    requires IsRank(k) && Ready(dev, later + k) && ct != ss && ct != pk && ct != coins
    requires ct.Length == CipherBytes(k) && ss.Length == 32 && pk.Length == PkBytes(k) && coins.Length == 32
    requires Samplable(sym.xof, pk[384 * k..], k)
    modifies dev, ct, ss
    ensures ct[..] == Encapsulated(sym, k, old(pk[..]), old(coins[..]))
    ensures ss[..] == SharedSecret(sym, old(pk[..]), old(coins[..]))
    ensures Ready(dev, later)
  {
    hide Ready, Samplable, Encrypt, CipherBytes;
    var buf := new byte[32](i requires 0 <= i < 32 reads coins => coins[i]);
    assert buf[..] == coins[..];
    var kr := sym.g(buf[..] + sym.h(pk[..]));
    var r := new byte[32](i requires 0 <= i < 32 => kr[32 + i]);
    assert r[..] == kr[32..];
    assert pk[384 * k..] == pk[0 + 384 * k..0 + 384 * k + 32] && pk[0..0 + 384 * k + 32] == pk[..];
    Enc(sym, k, dev, ct, buf, pk, 0, r, later);
    Put(ss, 0, kr[..32]);
    assert ss[0..0 + 32] == ss[..];
  }

  /** kem.c:151-159: decryption, and the encryption that is compared with the ciphertext. */
  method Reencrypt(sym: Symmetric, k: nat, dev: Device, ct: array<byte>, sk: array<byte>, ghost later: nat)
    returns (key: array<byte>, cmp: array<byte>)
    requires IsRank(k) && Ready(dev, later + 2 * k) && ct.Length == CipherBytes(k) && sk.Length == SkBytes(k)
    requires Samplable(sym.xof, sk[2 * 384 * k..2 * 384 * k + 32], k)
    modifies dev
    ensures Ready(dev, later) && fresh(key) && fresh(cmp) && key.Length == 32 && cmp.Length == ct.Length
    ensures var p, c := Parts(k, sk[..]), ct[..];
            cmp[..] == Reencrypted(sym, k, p, c) && key[..] == Front(Derived(sym, Decrypt(k, p.sk, c), p.h))
  {
    hide Ready, Samplable, Encrypt, Decrypt, CipherBytes;
    ghost var p := Parts(k, sk[..]);
    var n := 384 * k + PkBytes(k);
    var buf := new byte[32];
    assert p.sk == sk[..384 * k];
    Indcpa.Dec(k, dev, buf, ct, sk, later + k);
    assert p.h == sk[n..n + 32];
    var kr := sym.g(buf[..] + sk[n..n + 32]);
    var r := new byte[32](i requires 0 <= i < 32 => kr[32 + i]);
    key := new byte[32](i requires 0 <= i < 32 => kr[i]);
    assert r[..] == kr[32..] && key[..] == kr[..32];
    cmp := new byte[ct.Length];
    assert p.pk == sk[384 * k..384 * k + 384 * k + 32];
    Enc(sym, k, dev, cmp, buf, sk, 384 * k, r, later);
  }

  /** kem.c:140-170 */
  method Dec(sym: Symmetric, k: nat, dev: Device, ss: array<byte>, ct: array<byte>, sk: array<byte>, ghost later: nat)
    requires IsRank(k) && Ready(dev, later + 2 * k) && ss != ct && ss != sk
    requires ss.Length == 32 && ct.Length == CipherBytes(k) && sk.Length == SkBytes(k)
    requires Samplable(sym.xof, sk[2 * 384 * k..2 * 384 * k + 32], k)
    modifies dev, ss
    ensures ss[..] == Decapsulated(sym, k, old(sk[..]), old(ct[..]))
    ensures Ready(dev, later)
  {
    hide Ready, Samplable, Encrypt, Decrypt, CipherBytes, Reencrypted, Derived, Front;
    ghost var p := Parts(k, sk[..]);
    var n := 384 * k + PkBytes(k);
    var key, cmp := Reencrypt(sym, k, dev, ct, sk, later);
    assert ct[..ct.Length] == ct[..] && cmp[..ct.Length] == cmp[..] && key[..32] == key[..];
    var fail := VerifyBytes(ct, cmp, ct.Length);
    assert p.z == sk[n + 32..];
    Put(ss, 0, sym.rkprf(sk[n + 32..], ct[..]));
    assert ss[0..0 + 32] == ss[..];
    Cmov(ss, key, 32, 1 - fail);
  }

  // Whole exchanges.

  /** The matrix seed in a generated key pair. */
  lemma SeedInKeys(sym: Symmetric, k: nat, coins: Bytes64)
    requires IsRank(k)
    ensures PublicKey(sym, k, Front(coins))[384 * k..] == MatrixSeed(sym, k, Front(coins))
    ensures KemSecretKey(sym, k, coins)[2 * 384 * k..2 * 384 * k + 32] == MatrixSeed(sym, k, Front(coins))
  {
    hide PublicKey, SecretKey, Front, Back;
    PublicKeyTail(sym, k, Front(coins));
    var pk, s := PublicKey(sym, k, Front(coins)), SecretKey(sym, k, Front(coins));
    assert KemSecretKey(sym, k, coins) == s + pk + sym.h(pk) + Back(coins);
  }

  /** Key generation, then decapsulation of whatever arrives. */
  method KeypairThenDec(sym: Symmetric, k: nat, dev: Device, pk: array<byte>, sk: array<byte>, coins: array<byte>,
                        ct: array<byte>, ss: array<byte>, ghost later: nat)
    requires IsRank(k) && Ready(dev, later + 4 * k) && pk != sk && pk != coins && sk != coins && ct !in {pk, sk, ss} && ss != sk
    requires pk.Length == PkBytes(k) && sk.Length == SkBytes(k) && coins.Length == 64
    requires ct.Length == CipherBytes(k) && ss.Length == 32
    requires Samplable(sym.xof, MatrixSeed(sym, k, coins[..32]), k)
    modifies dev, pk, sk, ss
    ensures ss[..] == Outcome(sym, k, old(coins[..]), old(ct[..]))
    ensures Ready(dev, later)
  {
    hide Ready, Samplable, PublicKey, KemSecretKey, Decapsulated, Outcome, CipherBytes;
    ghost var all := coins[..];
    assert Front(all) == coins[..32];
    KeypairDerand(sym, k, dev, pk, sk, coins, later + 2 * k);
    SeedInKeys(sym, k, all);
    assert sk[..][2 * 384 * k..2 * 384 * k + 32] == sk[2 * 384 * k..2 * 384 * k + 32];
    DecapsulatedIsOutcome(sym, k, all, ct[..]);
    Dec(sym, k, dev, ss, ct, sk, later);
  }

  /** Key generation, encapsulation and decapsulation: both sides hold the same secret if the noise of the inner
      ciphertext is harmless. */
  method Exchange(sym: Symmetric, k: nat, dev: Device, pk: array<byte>, sk: array<byte>, coins: array<byte>,
                  m: array<byte>, ct: array<byte>, ssA: array<byte>, ssB: array<byte>, ghost later: nat)
    requires IsRank(k) && Ready(dev, later + 5 * k)
    requires pk != sk && pk != coins && sk != coins && m !in {pk, sk, ct} && ct !in {pk, sk, ssA, ssB}
    requires ssA !in {sk, pk, ssB} && ssB !in {sk, pk}
    requires pk.Length == PkBytes(k) && sk.Length == SkBytes(k) && coins.Length == 64 && m.Length == 32
    requires ct.Length == CipherBytes(k) && ssA.Length == 32 && ssB.Length == 32
    requires Samplable(sym.xof, MatrixSeed(sym, k, coins[..32]), k)
    modifies dev, pk, sk, ct, ssA, ssB
    ensures Ready(dev, later)
    ensures ssB[..] == Sent(sym, k, old(coins[..]), old(m[..]))
    ensures ssA[..] == ssB[..] || !InnerNoiseHarmless(sym, k, old(coins[..]), old(m[..]))
  {
    hide Ready, Samplable, PublicKey, KemSecretKey, Decapsulated, CipherBytes, Encapsulated, SharedSecret, InnerNoiseHarmless;
    ghost var all, msg := coins[..], m[..];
    assert Front(all) == coins[..32];
    KeypairDerand(sym, k, dev, pk, sk, coins, later + 3 * k);
    SeedInKeys(sym, k, all);
    assert sk[..][2 * 384 * k..2 * 384 * k + 32] == sk[2 * 384 * k..2 * 384 * k + 32];
    assert pk[..][384 * k..] == pk[384 * k..];
    EncDerand(sym, k, dev, ct, ssB, pk, m, later + 2 * k);
    Dec(sym, k, dev, ssA, ct, sk, later);
    if InnerNoiseHarmless(sym, k, all, msg) {
      Agreement(sym, k, all, msg);
      assert ssA[..] == RoundTrip(sym, k, all, msg);
    }
  }
}
