// Serialisation of polynomials: poly.c:21-213 and, one polynomial at a time, polyvec.c:15-128.
module Serialize {
  import opened IntFacts
  import opened MachineInts
  import opened ModQ
  import opened Digits
  import opened Packing
  import opened Compress
  import NttCode

  // What the byte strings mean (FIPS 203, section 4.2.1): the n bytes of a string and the 256 values
  // it stands for are the digits of the same integer.

  /** ByteEncode: 256 values below m as n bytes. */
  function Encode(m: nat, n: nat, v: seq<int>): (b: seq<int>)
    ensures |b| == n && AreDigits(256, b)
  {
    Convert(m, n, 256, v)
  }

  /** ByteDecode: bytes as 256 values below m. */
  function Decode(m: nat, b: seq<int>): (v: seq<int>)
    requires m > 0
    ensures |v| == 256 && AreDigits(m, v)
  {
    Convert(256, 256, m, b)
  }

  function CompressPoly(m: int, f: seq<int>): (v: seq<int>)
    requires m > 0
    ensures |v| == |f| && AreDigits(m, v)
    ensures forall i :: 0 <= i < |f| ==> v[i] == CompressTo(m, f[i])
  {
    seq(|f|, i requires 0 <= i < |f| => CompressTo(m, f[i]))
  }

  function DecompressPoly(m: int, v: seq<int>): (f: seq<int>)
    requires m > 0
    ensures |f| == |v|
    ensures forall i :: 0 <= i < |v| ==> f[i] == DecompressFrom(m, v[i])
  {
    seq(|v|, i requires 0 <= i < |v| => DecompressFrom(m, v[i]))
  }

  // The four widths of compressed polynomials. Groups of values fill groups of whole bytes.

  predicate IsWidth(d: int) {
    d == 4 || d == 5 || d == 10 || d == 11
  }

  function Scale2(d: int): (m: int)
    requires IsWidth(d)
    ensures IsScale(m)
  {
    if d == 4 then 16 else if d == 5 then 32 else if d == 10 then 1024 else 2048
  }

  function GroupValues(d: int): (n: nat)
    requires IsWidth(d)
    ensures n == 4 || n == 8
  {
    if d == 10 then 4 else 8
  }

  function GroupBytes(d: int): nat
    requires IsWidth(d)
  {
    if d == 4 then 4 else if d == 11 then 11 else 5
  }

  /** The compression each branch of the source uses. */
  function CompressCode(d: int, x: int): (y: int)
    requires IsWidth(d)
  {
    if d == 4 then Compress4(x) else if d == 5 then Compress5(x) else if d == 10 then Compress10(x) else Compress11(x)
  }

  lemma CompressCodeCorrect(d: int, x: int)
    requires IsWidth(d) && 0 <= x < Q
    ensures CompressCode(d, x) == CompressTo(Scale2(d), x)
  {
    hide Compress4, Compress5, Compress10, Compress11, CompressTo;
    Compress4Correct(x);
    Compress5Correct(x);
    Compress10Correct(x);
    Compress11Correct(x);
  }

  function Pack(d: int, t: seq<int>): (g: seq<int>)
    requires IsWidth(d) && |t| == GroupValues(d)
    ensures |g| == GroupBytes(d) && AreDigits(256, g)
  {
    if d == 4 then Pack4(t) else if d == 5 then Pack5(t) else if d == 10 then Pack10(t) else Pack11(t)
  }

  /** A packed group is the same integer as its values, and both have the same capacity. */
  lemma PackGroup(d: int, t: seq<int>)
    requires IsWidth(d) && |t| == GroupValues(d) && AreDigits(Scale2(d), t)
    ensures ToNat(256, Pack(d, t)) == ToNat(Scale2(d), t)
    ensures Pow(256, |Pack(d, t)|) == Pow(Scale2(d), |t|)
  {
    hide Pack4, Pack5, Pack10, Pack11, ToNat, AreDigits, Pow;
    if d == 4 {
      Pack4Value(t);
      Capacity4();
    } else if d == 5 {
      Pack5Value(t);
      Capacity5();
    } else if d == 10 {
      Pack10Value(t);
      Capacity10();
    } else {
      Pack11Value(t);
      Capacity11();
    }
  }

  lemma Capacity4()
    ensures Pow(256, 4) == Pow(16, 8) && Pow(256, 1) == Pow(16, 2)
  {
  }

  lemma Capacity5()
    ensures Pow(256, 5) == Pow(32, 8)
  {
  }

  lemma Capacity10()
    ensures Pow(256, 5) == Pow(1024, 4)
  {
  }

  lemma Capacity11()
    ensures Pow(256, 11) == Pow(2048, 8)
  {
  }

  /** p values and o bytes are whole numbers of groups. */
  predicate Aligned(d: int, p: int, o: int) {
    && IsWidth(d) && 0 <= p <= 256 && 0 <= o
    && (d == 4 ==> p % 8 == 0 && o == p / 2)
    && (d == 5 ==> p % 8 == 0 && o == p / 8 * 5)
    && (d == 10 ==> p % 4 == 0 && o == p / 4 * 5)
    && (d == 11 ==> p % 8 == 0 && o == p / 8 * 11)
  }

  lemma AlignedStep(d: int, p: int, o: int)
    requires Aligned(d, p, o) && p < 256
    ensures p + GroupValues(d) <= 256 && Aligned(d, p + GroupValues(d), o + GroupBytes(d))
    ensures o + GroupBytes(d) <= 32 * d
  {
  }

  lemma AlignedEnds(d: int)
    requires IsWidth(d)
    ensures Aligned(d, 0, 0)
    ensures forall o :: Aligned(d, 256, o) ==> o == 32 * d
  {
  }

  /** The bytes written so far stand for the values read so far. */
  predicate Encoded(m: int, b: seq<int>, v: seq<int>)
    requires m > 0
  {
    ToNat(m, v) == ToNat(256, b) && Pow(m, |v|) == Pow(256, |b|)
  }

  lemma EncodedAppend(m: int, b: seq<int>, v: seq<int>, g: seq<int>, t: seq<int>)
    requires m > 0 && Encoded(m, b, v) && Encoded(m, g, t)
    ensures Encoded(m, b + g, v + t)
  {
    AppendGroup(m, 256, v, b, t, g);
  }

  lemma EncodedAll(m: int, b: seq<int>, v: seq<int>)
    requires m > 0 && Encoded(m, b, v) && AreDigits(256, b)
    ensures b == Encode(m, |b|, v)
  {
    ConvertUnique(m, 256, v, b);
  }

  lemma EncodedNothing(m: int)
    requires m > 0
    ensures Encoded(m, [], []) && AreDigits(256, []) && AreDigits(m, [])
  {
  }

  /** The group of values at position p (the inner loops `for (k...)` of the source). */
  method CompressGroup(a: array<int16>, d: int, p: nat) returns (t: seq<int>)
    requires a.Length == 256 && IsWidth(d) && p + GroupValues(d) <= 256 && NttCode.Within(a[..], Q - 1)
    ensures t == CompressPoly(Scale2(d), Canon(a[..]))[p..p + GroupValues(d)]
  {
    hide CompressCode, CompressTo;
    t := [];
    var j := 0;
    ghost var v := CompressPoly(Scale2(d), Canon(a[..]));
    while j < GroupValues(d)
      invariant 0 <= j <= GroupValues(d)
      invariant t == v[p..p + j]
    {
      var x := Lift(a[p + j]);
      CompressCodeCorrect(d, x);
      t := t + [CompressCode(d, x)];
      j := j + 1;
    }
  }

  /** Copies a group of bytes into the output. */
  method StoreBytes(r: array<byte>, o: nat, g: seq<int>)
    requires o + |g| <= r.Length && AreDigits(256, g)
    modifies r
    ensures r[..] == old(r[..o]) + g + old(r[o + |g|..])
  {
    var j := 0;
    while j < |g|
      invariant 0 <= j <= |g|
      invariant forall i :: 0 <= i < o || o + j <= i < r.Length ==> r[i] == old(r[i])
      invariant forall i :: 0 <= i < j ==> r[o + i] == g[i]
    {
      r[o + j] := g[j];
      j := j + 1;
    }
  }

  /** Writing the next piece after the pieces already written. */
  lemma Splice<T>(s: seq<T>, off: nat, b: seq<T>, g: seq<T>)
    requires off + |b| + |g| <= |s|
    ensures var r := s[..off] + b + s[off + |b|..];
            r[..off + |b|] + g + r[off + |b| + |g|..] == s[..off] + (b + g) + s[off + |b + g|..]
  {
  }

  /** The next piece, at o, behind the pieces b that have been written from `off` on. */
  method AppendBytes(r: array<byte>, o: nat, g: seq<int>, ghost s: seq<byte>, ghost off: nat, ghost b: seq<int>)
    requires o == off + |b| && o + |g| <= |s| && AreDigits(256, g) && r[..] == s[..off] + b + s[o..]
    modifies r
    ensures r[..] == s[..off] + (b + g) + s[off + |b + g|..]
  {
    hide AreDigits;
    StoreBytes(r, o, g);
    Splice(s, off, b, g);
  }

  lemma SplicedPart<T>(r: seq<T>, s: seq<T>, off: nat, b: seq<T>)
    requires off + |b| <= |s| && r == s[..off] + b + s[off + |b|..]
    ensures r[off..off + |b|] == b && r[..off] == s[..off] && r[off + |b|..] == s[off + |b|..]
  {
  }

  /** poly.c:21-73 (d = 4, 5) and one polynomial of polyvec.c:15-77 (d = 10, 11), written at `off`. */
  method CompressToBytes(r: array<byte>, off: nat, a: array<int16>, d: int)
    requires a.Length == 256 && IsWidth(d) && off + 32 * d <= r.Length && NttCode.Within(a[..], Q - 1)
    modifies r
    ensures r[off..off + 32 * d] == Encode(Scale2(d), 32 * d, CompressPoly(Scale2(d), Canon(a[..])))
    ensures r[..off] == old(r[..off]) && r[off + 32 * d..] == old(r[off + 32 * d..])
  {
    hide AreDigits, Encoded, Aligned, Pack, ToNat, Pow, GroupValues, GroupBytes, CompressTo;
    ghost var m := Scale2(d);
    ghost var v := CompressPoly(m, Canon(a[..]));
    ghost var s, b: seq<int> := r[..], [];
    var p, o := 0, 0;
    AlignedEnds(d);
    EncodedNothing(m);
    while p < 256
      invariant 0 <= p <= 256 && 0 <= o <= 32 * d && Aligned(d, p, o)
      invariant |b| == o && AreDigits(256, b) && Encoded(m, b, v[..p])
      invariant r[..] == s[..off] + b + s[off + |b|..]
    {
      AlignedStep(d, p, o);
      var t := CompressGroup(a, d, p);
      var g := Pack(d, t);
      WriteGroup(d, v, p, t, g, b);
      AppendBytes(r, off + o, g, s, off, b);
      b := b + g;
      p := p + GroupValues(d);
      o := o + GroupBytes(d);
    }
    assert v[..p] == v;
    SplicedPart(r[..], s, off, b);
    EncodedAll(m, b, v);
  }

  lemma AppendDigits(b: seq<int>, g: seq<int>)
    requires AreDigits(256, b) && AreDigits(256, g)
    ensures AreDigits(256, b + g)
  {
  }

  /** One more group written. */
  lemma WriteGroup(d: int, v: seq<int>, p: int, t: seq<int>, g: seq<int>, b: seq<int>)
    requires IsWidth(d) && 0 <= p && p + GroupValues(d) <= |v| && AreDigits(Scale2(d), v)
    requires t == v[p..p + GroupValues(d)] && g == Pack(d, t)
    requires AreDigits(256, b) && Encoded(Scale2(d), b, v[..p])
    ensures AreDigits(256, b + g) && Encoded(Scale2(d), b + g, v[..p + GroupValues(d)])
  {
    hide Encoded, Pack, ToNat, Pow, AreDigits;
    PackedGroup(d, v, p, t, g);
    EncodedAppend(Scale2(d), b, v[..p], g, t);
    AppendDigits(b, g);
    assert v[..p + GroupValues(d)] == v[..p] + t;
  }

  lemma PackedGroup(d: int, v: seq<int>, p: int, t: seq<int>, g: seq<int>)
    requires IsWidth(d) && 0 <= p && p + GroupValues(d) <= |v| && AreDigits(Scale2(d), v)
    requires t == v[p..p + GroupValues(d)] && g == Pack(d, t)
    ensures Encoded(Scale2(d), g, t)
  {
    hide Pack, ToNat, Pow;
    PackGroup(d, t);
  }

  // Reading back.

  function ReadBytes(d: int): (n: nat)
    requires IsWidth(d)
    ensures 1 <= n <= 11
  {
    if d == 4 then 1 else if d == 11 then 11 else 5
  }

  function ReadValues(d: int): (n: nat)
    requires IsWidth(d)
    ensures n == 2 || n == 4 || n == 8
  {
    if d == 4 then 2 else if d == 10 then 4 else 8
  }

  function Unpack(d: int, g: seq<int>): (t: seq<int>)
    requires IsWidth(d) && |g| == ReadBytes(d) && AreDigits(256, g)
    ensures |t| == ReadValues(d) && AreDigits(Scale2(d), t)
  {
    if d == 4 then Unpack4(g[0]) else if d == 5 then Unpack5(g) else if d == 10 then Unpack10(g) else Unpack11(g)
  }

  lemma UnpackGroup(d: int, g: seq<int>)
    requires IsWidth(d) && |g| == ReadBytes(d) && AreDigits(256, g)
    ensures Encoded(Scale2(d), g, Unpack(d, g))
  {
    hide Unpack4, Unpack5, Unpack10, Unpack11, ToNat, AreDigits, Pow;
    if d == 4 {
      DigitBounds(256, g);
      Unpack4Value(g[0]);
      assert g == [g[0]];
      Capacity4();
    } else if d == 5 {
      Unpack5Value(g);
      Capacity5();
    } else if d == 10 {
      Unpack10Value(g);
      Capacity10();
    } else {
      Unpack11Value(g);
      Capacity11();
    }
  }

  predicate ReadAligned(d: int, p: int, o: int) {
    && IsWidth(d) && 0 <= p <= 256 && 0 <= o
    && (d == 4 ==> p % 2 == 0 && o == p / 2)
    && (d == 5 ==> p % 8 == 0 && o == p / 8 * 5)
    && (d == 10 ==> p % 4 == 0 && o == p / 4 * 5)
    && (d == 11 ==> p % 8 == 0 && o == p / 8 * 11)
  }

  lemma ReadAlignedStep(d: int, p: int, o: int)
    requires ReadAligned(d, p, o) && p < 256
    ensures p + ReadValues(d) <= 256 && ReadAligned(d, p + ReadValues(d), o + ReadBytes(d))
    ensures o + ReadBytes(d) <= 32 * d
  {
    if d == 4 {
      NextGroup(p, 2);
    } else if d == 10 {
      NextGroup(p, 4);
    } else {
      NextGroup(p, 8);
    }
  }

  lemma NextGroup(p: int, g: int)
    requires 0 <= p < 256 && (g == 2 || g == 4 || g == 8) && p % g == 0
    ensures p + g <= 256 && (p + g) % g == 0 && (p + g) / g == p / g + 1
  {
  }

  lemma ReadAlignedEnds(d: int)
    requires IsWidth(d)
    ensures ReadAligned(d, 0, 0)
    ensures forall o :: ReadAligned(d, 256, o) ==> o == 32 * d
  {
  }

  lemma DecodedAll(m: int, b: seq<int>, v: seq<int>)
    requires m > 0 && Encoded(m, b, v) && AreDigits(m, v) && |v| == 256
    ensures v == Decode(m, b)
  {
    ConvertUnique(256, m, b, v);
  }

  /** One more group read. */
  lemma ReadGroup(d: int, b: seq<int>, v: seq<int>, g: seq<int>)
    requires IsWidth(d) && |g| == ReadBytes(d) && AreDigits(256, g)
    requires AreDigits(Scale2(d), v) && Encoded(Scale2(d), b, v)
    ensures AreDigits(Scale2(d), v + Unpack(d, g)) && Encoded(Scale2(d), b + g, v + Unpack(d, g))
  {
    hide Encoded, Unpack, ToNat, Pow;
    UnpackGroup(d, g);
    EncodedAppend(Scale2(d), b, v, g, Unpack(d, g));
    AppendValues(Scale2(d), v, Unpack(d, g));
  }

  lemma AppendValues(m: int, v: seq<int>, t: seq<int>)
    requires AreDigits(m, v) && AreDigits(m, t)
    ensures AreDigits(m, v + t)
  {
  }

  lemma ByteDigits(b: seq<byte>)
    ensures AreDigits(256, b)
  {
  }

  /** poly.c:85-115 (d = 4, 5) and one polynomial of polyvec.c:89-128 (d = 10, 11), read at `off`. */
  method DecompressFromBytes(r: array<int16>, a: array<byte>, off: nat, d: int)
    requires r.Length == 256 && IsWidth(d) && off + 32 * d <= a.Length
    modifies r
    ensures r[..] == DecompressPoly(Scale2(d), Decode(Scale2(d), a[off..off + 32 * d]))
  {
    hide AreDigits, Encoded, ReadAligned, Unpack, ToNat, Pow, ReadBytes, ReadValues, DecompressFrom;
    var m := Scale2(d);
    ghost var v: seq<int> := [];
    var p, o := 0, 0;
    ReadAlignedEnds(d);
    EncodedNothing(m);
    assert a[off..off + 0] == [];
    while p < 256
      invariant 0 <= p <= 256 && 0 <= o <= 32 * d && ReadAligned(d, p, o)
      invariant |v| == p && AreDigits(m, v) && Encoded(m, a[off..off + o], v)
      invariant forall j :: 0 <= j < p ==> r[j] == DecompressFrom(m, v[j])
    {
      ReadAlignedStep(d, p, o);
      var g := a[off + o..off + o + ReadBytes(d)];
      ByteDigits(g);
      var t := Unpack(d, g);
      ReadGroup(d, a[off..off + o], v, g);
      assert a[off..off + o + |g|] == a[off..off + o] + g;
      DecompressGroup(r, p, t, m);
      v := v + t;
      p := p + ReadValues(d);
      o := o + ReadBytes(d);
    }
    DecodedAll(m, a[off..off + o], v);
  }

  /** The inner loops that expand one group of values. */
  method DecompressGroup(r: array<int16>, p: nat, t: seq<int>, m: int)
    requires r.Length == 256 && p + |t| <= 256 && IsScale(m) && AreDigits(m, t)
    modifies r
    ensures forall j :: 0 <= j < |t| ==> r[p + j] == DecompressFrom(m, t[j])
    ensures forall j :: 0 <= j < p || p + |t| <= j < 256 ==> r[j] == old(r[j])
  {
    hide DecompressFrom;
    var j := 0;
    while j < |t|
      invariant 0 <= j <= |t|
      invariant forall i :: 0 <= i < j ==> r[p + i] == DecompressFrom(m, t[i])
      invariant forall i :: 0 <= i < p || p + j <= i < 256 ==> r[i] == old(r[i])
    {
      DecompressRange(m, t[j]);
      r[p + j] := DecompressFrom(m, t[j]);
      j := j + 1;
    }
  }

  // Uncompressed polynomials: twelve bits per coefficient.

  /** poly.c:126-141, written at `off`. */
  method ToBytes(r: array<byte>, off: nat, a: array<int16>)
    requires a.Length == 256 && off + 384 <= r.Length && NttCode.Within(a[..], Q - 1)
    modifies r
    ensures r[off..off + 384] == Encode(4096, 384, Canon(a[..]))
    ensures r[..off] == old(r[..off]) && r[off + 384..] == old(r[off + 384..])
  {
    hide AreDigits, Encoded, Pack12, ToNat, Pow, Lift, Canon;
    ghost var v := Canon(a[..]);
    ghost var s, b: seq<int> := r[..], [];
    var i := 0;
    EncodedNothing(4096);
    while i < 128
      invariant 0 <= i <= 128
      invariant |b| == 3 * i && AreDigits(256, b) && Encoded(4096, b, v[..2 * i])
      invariant r[..] == s[..off] + b + s[off + |b|..]
    {
      LiftedPair(a[..], i);
      var t := [Lift(a[2 * i]), Lift(a[2 * i + 1])];
      var g := Pack12(t);
      WriteTwelve(v, i, t, g, b);
      AppendBytes(r, off + 3 * i, g, s, off, b);
      b := b + g;
      i := i + 1;
    }
    assert v[..2 * i] == v;
    SplicedPart(r[..], s, off, b);
    EncodedAll(4096, b, v);
  }

  lemma LiftedPair(a: seq<int16>, i: nat)
    requires |a| == 256 && i < 128 && NttCode.Within(a, Q - 1)
    ensures [Lift(a[2 * i]), Lift(a[2 * i + 1])] == Canon(a)[2 * i..2 * i + 2]
  {
  }

  lemma WriteTwelve(v: seq<int>, i: nat, t: seq<int>, g: seq<int>, b: seq<int>)
    requires 2 * i + 2 <= |v| && t == v[2 * i..2 * i + 2] && 0 <= t[0] < Q && 0 <= t[1] < Q && g == Pack12(t)
    requires AreDigits(256, b) && Encoded(4096, b, v[..2 * i])
    ensures |g| == 3 && AreDigits(256, g) && AreDigits(256, b + g) && Encoded(4096, b + g, v[..2 * (i + 1)])
  {
    hide Encoded, Pack12, ToNat, Pow, AreDigits;
    PackedTwelve(t);
    EncodedAppend(4096, b, v[..2 * i], g, t);
    AppendDigits(b, g);
    assert v[..2 * (i + 1)] == v[..2 * i] + t;
  }

  lemma PackedTwelve(t: seq<int>)
    requires |t| == 2 && 0 <= t[0] < Q && 0 <= t[1] < Q
    ensures Encoded(4096, Pack12(t), t) && AreDigits(256, Pack12(t)) && |Pack12(t)| == 3
  {
    hide ToNat, Pow;
    Pack12Value(t);
    Capacity12();
  }

  lemma Capacity12()
    ensures Pow(256, 3) == Pow(4096, 2)
  {
  }

  /** poly.c:153-160, read at `off`. The values are the 12-bit fields themselves, up to 4095. */
  method FromBytes(r: array<int16>, a: array<byte>, off: nat)
    requires r.Length == 256 && off + 384 <= a.Length
    modifies r
    ensures r[..] == Decode(4096, a[off..off + 384])
  {
    hide AreDigits, Encoded, Unpack12, ToNat, Pow;
    ghost var v: seq<int> := [];
    var i := 0;
    EncodedNothing(4096);
    assert a[off..off + 3 * 0] == [];
    while i < 128
      invariant 0 <= i <= 128
      invariant |v| == 2 * i && AreDigits(4096, v) && Encoded(4096, a[off..off + 3 * i], v)
      invariant forall j :: 0 <= j < 2 * i ==> r[j] == v[j]
    {
      var g := a[off + 3 * i..off + 3 * i + 3];
      ByteDigits(g);
      UnpackedTwelve(g);
      var t := Unpack12(g);
      EncodedAppend(4096, a[off..off + 3 * i], v, g, t);
      AppendValues(4096, v, t);
      assert a[off..off + 3 * (i + 1)] == a[off..off + 3 * i] + g;
      r[2 * i], r[2 * i + 1] := t[0], t[1];
      v := v + t;
      i := i + 1;
    }
    DecodedAll(4096, a[off..off + 384], v);
  }

  lemma UnpackedTwelve(g: seq<int>)
    requires |g| == 3 && AreDigits(256, g)
    ensures var t := Unpack12(g);
            Encoded(4096, g, t) && 0 <= t[0] < 4096 && 0 <= t[1] < 4096
  {
    hide ToNat, Pow;
    Unpack12Value(g);
    Capacity12();
  }
}
