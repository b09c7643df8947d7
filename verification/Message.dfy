// poly.c:170-213: messages as polynomials with one bit per coefficient.
module Message {
  import opened IntFacts
  import opened MachineInts
  import opened ModQ
  import opened Digits
  import opened Packing
  import opened Compress
  import opened Serialize
  import opened Verify

  /** The bits of a byte, least significant first. */
  function Bits(x: int): (t: seq<int>)
    ensures |t| == 8 && AreDigits(2, t)
  {
    FromNat(2, 8, x)
  }

  lemma BitAt(x: int, j: nat, p: nat)
    requires j < 8 && p == Pow(2, j)
    ensures p > 0 && Bits(x)[j] == Low(Shr(x, p), 2)
  {
    hide FromNat, Pow;
    DigitByDivision(2, 8, x, j);
  }

  lemma BitsOfByte(x: int)
    requires 0 <= x < 256
    ensures Encoded(2, [x], Bits(x))
  {
    assert Pow(2, 8) == 256 && Pow(256, 1) == 256;
    ToNatOfFromNat(2, 8, x);
    Value1(256, [x]);
  }

  /** The coefficient that stands for a bit is (q+1)/2 or 0. */
  lemma BitCoefficient(b: int)
    requires b == 0 || b == 1
    ensures DecompressFrom(2, b) == CmovInt16(0, (Q + 1) / 2, b)
  {
  }

  /** poly.c:170-184 */
  method FromMessage(r: array<int16>, msg: array<byte>)
    requires r.Length == 256 && msg.Length == 32
    modifies r
    ensures r[..] == DecompressPoly(2, Decode(2, msg[..]))
  {
    hide AreDigits, Encoded, Bits, ToNat, Pow, DecompressFrom, CmovInt16, Low, Shr;
    ghost var v: seq<int> := [];
    var i := 0;
    EncodedNothing(2);
    assert msg[..0] == [];
    while i < 32
      invariant 0 <= i <= 32
      invariant |v| == 8 * i && AreDigits(2, v) && Encoded(2, msg[..i], v)
      invariant forall k :: 0 <= k < 8 * i ==> r[k] == DecompressFrom(2, v[k])
    {
      ghost var t := Bits(msg[i]);
      BitsOfByte(msg[i]);
      DigitBounds(2, t);
      var j, p := 0, 1;
      PowerStart();
      while j < 8
        invariant 0 <= j <= 8 && p == Pow(2, j) && p > 0
        invariant forall k :: 0 <= k < 8 * i ==> r[k] == DecompressFrom(2, v[k])
        invariant forall k :: 0 <= k < j ==> r[8 * i + k] == DecompressFrom(2, t[k])
      {
        BitAt(msg[i], j, p);
        BitCoefficient(t[j]);
        r[8 * i + j] := 0;
        r[8 * i + j] := CmovInt16(r[8 * i + j], (Q + 1) / 2, Low(Shr(msg[i], p), 2));
        PowerStep(j);
        j, p := j + 1, 2 * p;
      }
      EncodedAppend(2, msg[..i], v, [msg[i]], t);
      AppendValues(2, v, t);
      assert msg[..i + 1] == msg[..i] + [msg[i]];
      v := v + t;
      i := i + 1;
    }
    assert msg[..32] == msg[..];
    DecodedAll(2, msg[..], v);
  }

  lemma PowerStart()
    ensures Pow(2, 0) == 1
  {
  }

  lemma PowerStep(j: nat)
    ensures Pow(2, j + 1) == 2 * Pow(2, j)
  {
  }

  /** The bits that are read off the coefficients as they are stored. */
  function RawBits(a: seq<int>): (v: seq<int>)
    ensures |v| == |a| && forall i :: 0 <= i < |a| ==> v[i] == Compress1(a[i]) && 0 <= v[i] < 2
  {
    seq(|a|, i requires 0 <= i < |a| => Compress1(a[i]))
  }

  /** Between -q and q these are the compressed residues, whatever the signs, exactly if -2497 does not occur. */
  lemma RawBitsExact(a: seq<int>)
    requires |a| == 256 && forall i :: 0 <= i < 256 ==> -Q < a[i] < Q
    ensures RawBits(a) == CompressPoly(2, Canon(a)) <==> -2497 !in a
  {
    hide CompressTo, Compress1;
    forall i | 0 <= i < 256
      ensures RawBits(a)[i] == CompressPoly(2, Canon(a))[i] <==> a[i] != -2497
    {
      Compress1Exact(a[i]);
    }
  }

  lemma BitsAreDigits(v: seq<int>)
    requires forall i :: 0 <= i < |v| ==> 0 <= v[i] < 2
    ensures AreDigits(2, v)
  {
  }

  /** poly.c:194-213, for any coefficients. Centred ones, as they are after a reduction, give the compressed
      residues. */
  method ToMessage(msg: array<byte>, a: array<int16>)
    requires a.Length == 256 && msg.Length == 32
    modifies msg
    ensures msg[..] == Encode(2, 32, RawBits(a[..]))
    ensures NttCode.Within(a[..], (Q - 1) / 2) ==> msg[..] == Encode(2, 32, CompressPoly(2, Canon(a[..])))
  {
    ghost var v := RawBits(a[..]);
    BitsAreDigits(v);
    if NttCode.Within(a[..], (Q - 1) / 2) {
      RawBitsExact(a[..]);
    }
    StoreBits(msg, a);
  }

  /** The loops. */
  method StoreBits(msg: array<byte>, a: array<int16>)
    requires a.Length == 256 && msg.Length == 32 && AreDigits(2, RawBits(a[..]))
    modifies msg
    ensures msg[..] == Encode(2, 32, RawBits(a[..]))
  {
    hide AreDigits, Encoded, ToNat, Pow, CompressTo, Compress1;
    ghost var v := RawBits(a[..]);
    var i := 0;
    EncodedNothing(2);
    assert msg[..0] == [] && v[..0] == [];
    while i < 32
      invariant 0 <= i <= 32
      invariant Encoded(2, msg[..i], v[..8 * i])
    {
      ghost var b := msg[..i];
      ghost var t := v[8 * i..8 * i + 8];
      msg[i] := 0;
      var j, p := 0, 1;
      PartialStart(t);
      while j < 8
        invariant 0 <= j <= 8 && Partial(t, j, p, msg[i])
        invariant msg[..i] == b
      {
        PartialStep(t, j, p, msg[i]);
        msg[i] := ToByte(msg[i] + p * Compress1(a[8 * i + j]));
        j, p := j + 1, 2 * p;
      }
      PartialDone(t, p, msg[i]);
      EncodedAppend(2, b, v[..8 * i], [msg[i]], t);
      assert msg[..i + 1] == b + [msg[i]];
      assert v[..8 * (i + 1)] == v[..8 * i] + t;
      i := i + 1;
    }
    assert v[..256] == v && msg[..32] == msg[..];
    ByteDigits(msg[..]);
    EncodedAll(2, msg[..], v);
  }

  /** The byte assembled from the first j bits. */
  predicate Partial(t: seq<int>, j: nat, p: int, x: int) {
    && |t| == 8 && j <= 8 && AreDigits(2, t)
    && p == Pow(2, j) && x == ToNat(2, t[..j]) && 0 <= x < p
  }

  lemma PartialStart(t: seq<int>)
    requires |t| == 8 && AreDigits(2, t)
    ensures Partial(t, 0, 1, 0)
  {
    assert t[..0] == [];
  }

  lemma PartialStep(t: seq<int>, j: nat, p: int, x: int)
    requires j < 8 && Partial(t, j, p, x)
    ensures 0 <= x + p * t[j] < 2 * p <= 256
    ensures Partial(t, j + 1, 2 * p, x + p * t[j])
  {
    hide ToNat, Pow;
    assert t[..j + 1] == t[..j] + [t[j]];
    ToNatConcat(2, t[..j], [t[j]]);
    Value1(2, [t[j]]);
    PowerStep(j);
    PowerAtMost(j + 1);
    BitTimes(p, t[j]);
  }

  lemma BitTimes(p: int, b: int)
    requires 0 <= b < 2 && p > 0
    ensures 0 <= p * b <= p
  {
  }

  lemma PowerAtMost(j: nat)
    requires j <= 8
    ensures Pow(2, j) <= 256
    decreases 8 - j
  {
    if j < 8 {
      PowerAtMost(j + 1);
      PowerStep(j);
    }
  }

  lemma PartialDone(t: seq<int>, p: int, x: int)
    requires Partial(t, 8, p, x)
    ensures Encoded(2, [x], t)
  {
    assert t[..8] == t;
    assert Pow(256, 1) == 256 && Pow(2, 8) == 256;
    Value1(256, [x]);
  }
}
