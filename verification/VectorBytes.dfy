// Vectors of polynomials as byte strings.
module VectorBytes {
  import opened IntFacts
  import opened ModQ
  import opened Vectors
  import opened Digits
  import opened Compress
  import opened Serialize
  import opened Noise

  /** The encodings of the entries, one after the other. */
  function EncodeVec(m: nat, n: nat, f: seq<seq<int>>): (b: seq<int>)
    ensures |b| == n * |f| && AreDigits(256, b)
  {
    if |f| == 0 then [] else EncodeVec(m, n, f[..|f| - 1]) + Encode(m, n, f[|f| - 1])
  }

  function DecodeVec(m: nat, n: nat, k: nat, b: seq<int>): (f: seq<seq<int>>)
    requires m > 0 && |b| == n * k
    ensures |f| == k && forall i :: 0 <= i < k ==> |f[i]| == 256 && AreDigits(m, f[i])
  {
    seq(k, i requires 0 <= i < k => Decode(m, Chunk(b, n, i)))
  }

  /** Part i of a string cut into parts of n bytes. */
  function Chunk(b: seq<int>, n: nat, i: nat): seq<int> {
    if n * i + n <= |b| then b[n * i..n * i + n] else []
  }

  lemma ChunkOfPrefix(b: seq<int>, n: nat, i: nat, k: nat)
    requires i < k && n * k <= |b|
    ensures n * i + n <= |b| && Chunk(b[..n * k], n, i) == b[n * i..n * i + n]
  {
    ChunkRange(n, i, k);
  }

  lemma ChunkRange(n: nat, i: nat, k: nat)
    requires i < k
    ensures n * i + n <= n * k
  {
    SumTimes(n, i + 1, k - i - 1);
    SumTimes(n, i, 1);
  }

  lemma SumTimes(n: nat, i: nat, x: nat)
    ensures n * (i + x) == n * i + n * x && n * x >= 0
  {
  }

  /** 256 values of d bits fill 32*d bytes. */
  lemma FullCapacity(d: nat, m: nat)
    requires m == Pow(2, d)
    ensures Pow(m, 256) == Pow(256, 32 * d)
  {
    hide Pow;
    PowerOfPower(d, m, 256);
    BytesToBits(32 * d);
  }

  lemma {:induction false} PowerOfPower(d: nat, m: nat, n: nat)
    requires m == Pow(2, d)
    ensures Pow(m, n) == Pow(2, d * n)
  {
    if n != 0 {
      PowerOfPower(d, m, n - 1);
      assert d * n == d * (n - 1) + d;
      PowAdd(2, d, d * (n - 1));
      PowerOnce(m, n);
    }
  }

  lemma PowerOnce(m: nat, n: nat)
    requires n > 0
    ensures Pow(m, n) == m * Pow(m, n - 1)
  {
  }

  lemma EncodeVecNothing(m: nat, n: nat, f: seq<seq<int>>)
    ensures EncodeVec(m, n, f[..0]) == []
  {
  }

  lemma EncodeVecStep(m: nat, n: nat, f: seq<seq<int>>, i: nat)
    requires i < |f|
    ensures EncodeVec(m, n, f[..i + 1]) == EncodeVec(m, n, f[..i]) + Encode(m, n, f[i])
  {
    hide Encode;
    assert f[..i + 1][..i] == f[..i];
  }

  /** Entry i occupies bytes n*i to n*i + n. */
  lemma {:induction false} EncodedEntry(m: nat, n: nat, f: seq<seq<int>>, i: nat)
    requires i < |f|
    ensures n * i + n <= n * |f|
    ensures EncodeVec(m, n, f)[n * i..n * i + n] == Encode(m, n, f[i])
  {
    hide Encode;
    var l := |f| - 1;
    ChunkRange(n, i, |f|);
    assert n * |f| == n * l + n;
    if i < l {
      ChunkRange(n, i, l);
      EncodedEntry(m, n, f[..l], i);
    }
  }

  lemma DecodeOfEncode(m: nat, d: nat, v: seq<int>)
    requires m > 0 && m == Pow(2, d) && |v| == 256 && AreDigits(m, v)
    ensures Decode(m, Encode(m, 32 * d, v)) == v
  {
    hide Pow, Convert;
    FullCapacity(d, m);
    ConvertBack(m, 256, v, 32 * d);
  }

  /** Compressing and packing a decompressed string gives the string back, whatever its bytes. */
  lemma BytesRestored(m: nat, d: nat, b: seq<int>)
    requires IsScale(m) && m == Pow(2, d) && |b| == 32 * d && AreDigits(256, b)
    ensures Encode(m, 32 * d, CompressPoly(m, DecompressPoly(m, Decode(m, b)))) == b
  {
    hide Pow, Convert, CompressTo, DecompressFrom;
    var v := Decode(m, b);
    forall i | 0 <= i < 256
      ensures CompressTo(m, DecompressFrom(m, v[i])) == v[i]
    {
      CompressOfDecompress(m, v[i]);
    }
    assert CompressPoly(m, DecompressPoly(m, v)) == v;
    FullCapacity(d, m);
    ConvertBack(256, m, b, 256);
  }

  lemma DecodeVecOfEncodeVec(m: nat, d: nat, f: seq<seq<int>>)
    requires m > 0 && m == Pow(2, d) && forall i :: 0 <= i < |f| ==> |f[i]| == 256 && AreDigits(m, f[i])
    ensures DecodeVec(m, 32 * d, |f|, EncodeVec(m, 32 * d, f)) == f
  {
    hide Pow, Encode, Decode, EncodeVec;
    forall i | 0 <= i < |f|
      ensures DecodeVec(m, 32 * d, |f|, EncodeVec(m, 32 * d, f))[i] == f[i]
    {
      EncodedEntry(m, 32 * d, f, i);
      DecodeOfEncode(m, d, f[i]);
    }
  }

  // Compression, entry by entry.

  function CompressVec(m: int, f: seq<seq<int>>): (v: seq<seq<int>>)
    requires m > 0
    ensures |v| == |f| && forall i :: 0 <= i < |f| ==> v[i] == CompressPoly(m, f[i])
  {
    seq(|f|, i requires 0 <= i < |f| => CompressPoly(m, f[i]))
  }

  function DecompressVec(m: int, v: seq<seq<int>>): (f: seq<seq<int>>)
    requires m > 0
    ensures |f| == |v| && forall i :: 0 <= i < |v| ==> f[i] == DecompressPoly(m, v[i])
  {
    seq(|v|, i requires 0 <= i < |v| => DecompressPoly(m, v[i]))
  }

  function CanonVec(f: seq<seq<int>>): (g: seq<seq<int>>)
    ensures |g| == |f| && forall i :: 0 <= i < |f| ==> g[i] == Canon(f[i])
  {
    seq(|f|, i requires 0 <= i < |f| => Canon(f[i]))
  }

  lemma DecompressedIsPoly(m: int, v: seq<int>)
    requires IsScale(m) && |v| == 256 && AreDigits(m, v)
    ensures IsPoly(DecompressPoly(m, v))
  {
    hide DecompressFrom;
    forall i | 0 <= i < 256
      ensures 0 <= DecompressFrom(m, v[i]) < Q
    {
      DecompressRange(m, v[i]);
    }
  }

  lemma DecompressedArePolys(m: int, f: seq<seq<int>>)
    requires IsScale(m) && forall i :: 0 <= i < |f| ==> |f[i]| == 256 && AreDigits(m, f[i])
    ensures IsPolys(DecompressVec(m, f))
  {
    forall i | 0 <= i < |f|
      ensures IsPoly(DecompressVec(m, f)[i])
    {
      DecompressedIsPoly(m, f[i]);
    }
  }

  /** Residues need no reduction. */
  lemma CanonOfPoly(f: seq<int>)
    requires IsPoly(f)
    ensures Canon(f) == f && AreDigits(4096, f)
  {
  }
}
