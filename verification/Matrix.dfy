// indcpa.c:121-190: rejection sampling of the public matrix from an output stream.
module Matrix {
  import opened MachineInts
  import opened IntFacts
  import opened ModQ
  import opened Digits

  /** The low twelve bits of the two bytes a, b; the source masks and ors the bytes. */
  function LowCandidate(a: int, b: int): (v: int)
    ensures 0 <= v < 0x1000
  {
    (a + 0x100 * b) % 0x1000
  }

  /** The high twelve bits of the two bytes b, c. */
  function HighCandidate(b: int, c: int): (v: int)
    ensures 0 <= v < 0x1000
  {
    (b / 0x10 + 0x10 * c) % 0x1000
  }

  /** Keeps the candidates below q. */
  function Keep(v: int): seq<int> {
    if v < Q then [v] else []
  }

  /** The values kept from three bytes. */
  function AcceptTriple(a: int, b: int, c: int): (v: seq<int>)
    ensures |v| <= 2 && forall i :: 0 <= i < |v| ==> 0 <= v[i] < Q
  {
    Keep(LowCandidate(a, b)) + Keep(HighCandidate(b, c))
  }

  /** The values accepted from a byte string, read as 12-bit numbers, two from every three bytes. */
  function Accept(b: seq<byte>): (v: seq<int>)
    ensures forall i :: 0 <= i < |v| ==> 0 <= v[i] < Q
  {
    if |b| < 3 then [] else AcceptTriple(b[0], b[1], b[2]) + Accept(b[3..])
  }

  /** Whole triples can be read separately. */
  lemma {:induction false} AcceptConcat(a: seq<byte>, b: seq<byte>)
    requires |a| % 3 == 0
    ensures Accept(a + b) == Accept(a) + Accept(b)
  {
    hide AcceptTriple;
    if a == [] {
      assert a + b == b;
    } else {
      AcceptConcat(a[3..], b);
      assert (a + b)[3..] == a[3..] + b;
    }
  }

  /** One step of the reading loop. */
  lemma TripleStep(buf: seq<byte>, pos: nat)
    requires pos + 3 <= |buf| && pos % 3 == 0
    ensures Accept(buf[..pos + 3]) == Accept(buf[..pos]) + AcceptTriple(buf[pos], buf[pos + 1], buf[pos + 2])
  {
    hide AcceptTriple;
    var t := buf[pos..pos + 3];
    assert buf[..pos + 3] == buf[..pos] + t;
    AcceptConcat(buf[..pos], t);
    assert Accept(t) == AcceptTriple(buf[pos], buf[pos + 1], buf[pos + 2]);
  }

  // What is accepted, as a reading of the byte string in base 2^12.

  /** Three bytes and their two candidates are digits of the same integer. */
  lemma CandidatesOfBytes(a: byte, b: byte, c: byte)
    ensures ToNat(256, [a, b, c]) == LowCandidate(a, b) + 0x1000 * HighCandidate(b, c)
  {
    hide LowCandidate, HighCandidate;
    BytesInBase12(a, b, c);
    assert ToNat(256, [c]) == c;
    assert [a, b, c][1..] == [b, c] && [b, c][1..] == [c];
  }

  lemma BytesInBase12(a: byte, b: byte, c: byte)
    ensures LowCandidate(a, b) + 0x1000 * HighCandidate(b, c) == a + 0x100 * b + 0x1_0000 * c
  {
    DivMod(b, 0x10);
    DivUnique(a + 0x100 * b, 0x1000, b / 0x10, a + 0x100 * (b % 0x10));
    DivUnique(b / 0x10 + 0x10 * c, 0x1000, 0, b / 0x10 + 0x10 * c);
  }

  /** The values below q, in order. */
  function Below(q: int, v: seq<int>): seq<int> {
    if v == [] then [] else (if v[0] < q then [v[0]] else []) + Below(q, v[1..])
  }

  lemma TwoDigits(x: int, y: int, n: nat, r: int)
    requires 0 <= x < 0x1000 && 0 <= y < 0x1000
    ensures FromNat(0x1000, n + 2, x + 0x1000 * y + 0x100_0000 * r) == [x, y] + FromNat(0x1000, n, r)
  {
    var v := x + 0x1000 * y + 0x100_0000 * r;
    DivUnique(v, 0x1000, y + 0x1000 * r, x);
    DivUnique(y + 0x1000 * r, 0x1000, r, y);
  }

  lemma BytesSplit(b: seq<byte>)
    requires |b| >= 3
    ensures ToNat(256, b) == ToNat(256, [b[0], b[1], b[2]]) + 0x100_0000 * ToNat(256, b[3..])
  {
    hide ToNat, Pow;
    assert b == [b[0], b[1], b[2]] + b[3..];
    ToNatConcat(256, [b[0], b[1], b[2]], b[3..]);
    ThreeBytes();
  }

  lemma ThreeBytes()
    ensures Pow(256, 3) == 0x100_0000
  {
  }

  lemma BelowPair(x: int, y: int, v: seq<int>)
    ensures Below(Q, [x, y] + v) == Keep(x) + Keep(y) + Below(Q, v)
  {
    var w := [x, y] + v;
    assert w[1..] == [y] + v && w[1..][1..] == v;
  }

  /** From whole triples exactly the values below q are accepted, in order, of the 12-bit reading of the string. */
  lemma {:induction false} AcceptIsBelow(b: seq<byte>)
    requires |b| % 3 == 0
    ensures Accept(b) == Below(Q, Convert(256, 2 * |b| / 3, 0x1000, b))
  {
    hide ToNat, FromNat, LowCandidate, HighCandidate, Keep, Below;
    if b == [] {
      NothingBelow();
    } else {
      var x, y, n := LowCandidate(b[0], b[1]), HighCandidate(b[1], b[2]), 2 * |b| / 3 - 2;
      AcceptIsBelow(b[3..]);
      CandidatesOfBytes(b[0], b[1], b[2]);
      BytesSplit(b);
      TwoDigits(x, y, n, ToNat(256, b[3..]));
      BelowPair(x, y, FromNat(0x1000, n, ToNat(256, b[3..])));
    }
  }

  lemma NothingBelow()
    ensures Below(Q, FromNat(0x1000, 0, ToNat(256, []))) == []
  {
  }

  function Min(x: int, y: int): int {
    if x < y then x else y
  }

  /** The accepted values, as far as there is room. */
  function Prefix(len: nat, v: seq<int>): (w: seq<int>)
    ensures |w| <= len && |w| <= |v| && (|v| <= len ==> w == v)
  {
    v[..Min(len, |v|)]
  }

  lemma CutConcat(len: nat, v: seq<int>, w: seq<int>)
    ensures |v| >= len ==> Prefix(len, v + w) == Prefix(len, v)
    ensures |v| < len ==> Prefix(len, v + w) == v + Prefix(len - |v|, w)
  {
  }

  /** s with v written over it from `from` on. */
  function Overwritten(s: seq<int>, from: nat, v: seq<int>): (t: seq<int>)
    requires from + |v| <= |s|
    ensures |t| == |s|
  {
    s[..from] + v + s[from + |v|..]
  }

  lemma OverwrittenBy(s: seq<int>, from: nat, v: seq<int>)
    requires from + |v| <= |s|
    ensures Overwritten(s, from, v) == s[..from] + v + s[from + |v|..]
    ensures Overwritten(s, from, []) == s
  {
  }

  lemma OneMore(s: seq<int>, from: nat, v: seq<int>, x: int)
    requires from + |v| < |s|
    ensures Overwritten(s, from, v)[from + |v| := x] == Overwritten(s, from, v + [x])
  {
  }

  lemma OverwrittenTwice(s: seq<int>, from: nat, v: seq<int>, w: seq<int>)
    requires from + |v| + |w| <= |s|
    ensures Overwritten(Overwritten(s, from, v), from + |v|, w) == Overwritten(s, from, v + w)
  {
  }

  /** One iteration of the loop of rej_uniform: at most two values stored at position ctr. */
  method StoreTriple(r: array<int16>, at: nat, room: nat, a: byte, b: byte, c: byte) returns (n: nat)
    requires 0 < room && at + room <= r.Length
    modifies r
    ensures n == |Prefix(room, AcceptTriple(a, b, c))| <= 2
    ensures r[..] == Overwritten(old(r[..]), at, Prefix(room, AcceptTriple(a, b, c)))
  {
    hide LowCandidate, HighCandidate, Prefix, AcceptTriple, Overwritten;
    ghost var s, w: seq<int> := r[..], [];
    var val0, val1 := LowCandidate(a, b), HighCandidate(b, c);
    OverwrittenBy(s, at, []);
    n := 0;
    if val0 < Q {
      OneMore(s, at, w, val0);
      r[at + n] := val0;
      n := n + 1;
      w := w + [val0];
    }
    if n < room && val1 < Q {
      OneMore(s, at, w, val1);
      r[at + n] := val1;
      n := n + 1;
      w := w + [val1];
    }
    PrefixOfTriple(room, a, b, c);
    assert w == Prefix(room, AcceptTriple(a, b, c));
  }

  lemma PrefixOfTriple(room: nat, a: byte, b: byte, c: byte)
    requires 0 < room
    ensures var x, y := LowCandidate(a, b), HighCandidate(b, c);
            Prefix(room, AcceptTriple(a, b, c)) ==
              if x < Q then (if y < Q && room > 1 then [x, y] else [x]) else if y < Q then [y] else []
  {
    hide LowCandidate, HighCandidate;
  }

  /** indcpa.c:121-142: stores at most `len` accepted values from `from` on and returns their number. */
  method RejectionSample(r: array<int16>, from: nat, len: nat, buf: seq<byte>) returns (ctr: nat)
    requires from + len <= r.Length
    modifies r
    ensures ctr == |Prefix(len, Accept(buf))|
    ensures r[..] == Overwritten(old(r[..]), from, Prefix(len, Accept(buf)))
  {
    hide Accept, AcceptTriple, Prefix, Overwritten;
    ghost var s := r[..];
    var pos := 0;
    ctr := 0;
    AcceptNothing();
    OverwrittenBy(s, from, []);
    ghost var kept: seq<int> := Accept(buf[..0]);
    while ctr < len && pos + 3 <= |buf|
      invariant 0 <= pos <= |buf| && pos % 3 == 0
      invariant kept == Prefix(len, Accept(buf[..pos])) && ctr == |kept| <= len
      invariant r[..] == Overwritten(s, from, kept)
    {
      KeepTriple(len, buf, pos, kept);
      ghost var t := AcceptTriple(buf[pos], buf[pos + 1], buf[pos + 2]);
      var n := StoreTriple(r, from + ctr, len - ctr, buf[pos], buf[pos + 1], buf[pos + 2]);
      ghost var more := Prefix(len - ctr, t);
      OverwrittenTwice(s, from, kept, more);
      kept := kept + more;
      pos := pos + 3;
      ctr := ctr + n;
    }
    RestIgnored(len, buf, pos);
  }

  lemma AcceptNothing()
    ensures Accept([]) == []
  {
  }

  lemma CutShort(len: nat, v: seq<int>)
    requires |Prefix(len, v)| < len
    ensures Prefix(len, v) == v
  {
  }

  lemma KeepTriple(len: nat, buf: seq<byte>, pos: nat, kept: seq<int>)
    requires pos + 3 <= |buf| && pos % 3 == 0 && kept == Prefix(len, Accept(buf[..pos])) && |kept| < len
    ensures Prefix(len, Accept(buf[..pos + 3])) ==
              kept + Prefix(len - |kept|, AcceptTriple(buf[pos], buf[pos + 1], buf[pos + 2]))
  {
    hide Accept, AcceptTriple, Prefix;
    TripleStep(buf, pos);
    CutShort(len, Accept(buf[..pos]));
    CutConcat(len, Accept(buf[..pos]), AcceptTriple(buf[pos], buf[pos + 1], buf[pos + 2]));
  }

  /** What the loop leaves unread adds nothing. */
  lemma RestIgnored(len: nat, buf: seq<byte>, pos: nat)
    requires pos <= |buf| && pos % 3 == 0
    requires |Prefix(len, Accept(buf[..pos]))| == len || pos + 3 > |buf|
    ensures Prefix(len, Accept(buf)) == Prefix(len, Accept(buf[..pos]))
  {
    hide AcceptTriple;
    assert buf == buf[..pos] + buf[pos..];
    AcceptConcat(buf[..pos], buf[pos..]);
    CutConcat(len, Accept(buf[..pos]), Accept(buf[pos..]));
  }

  // The output stream.

  /** An extendable-output function: byte number n of the output for a seed and two index bytes. */
  type Xof = (seq<byte>, byte, byte, nat) -> byte

  const XOF_BLOCK := 168

  /** indcpa.c:163: blocks read at first. */
  const MATRIX_BLOCKS := (12 * 256 / 8 * 0x1000 / Q + XOF_BLOCK) / XOF_BLOCK

  function Stream(xof: Xof, seed: seq<byte>, x: byte, y: byte, from: nat, n: nat): (b: seq<byte>)
    ensures |b| == n
  {
    seq(n, i requires 0 <= i < n => xof(seed, x, y, from + i))
  }

  lemma StreamConcat(xof: Xof, seed: seq<byte>, x: byte, y: byte, m: nat, n: nat)
    ensures Stream(xof, seed, x, y, 0, m + n) == Stream(xof, seed, x, y, 0, m) + Stream(xof, seed, x, y, m, n)
  {
  }

  /** n bytes of the stream are enough for a polynomial. */
  ghost predicate Enough(xof: Xof, seed: seq<byte>, x: byte, y: byte, n: nat) {
    n % 3 == 0 && |Accept(Stream(xof, seed, x, y, 0, n))| >= 256
  }

  /** The first 256 values below q in the 12-bit reading of the stream (FIPS 203, section 4.2.2). */
  ghost function SampleNtt(xof: Xof, seed: seq<byte>, x: byte, y: byte): (f: seq<int>)
    ensures IsPoly(f)
  {
    if n: nat :| Enough(xof, seed, x, y, n) then
      Accept(Stream(xof, seed, x, y, 0, n))[..256]
    else
      seq(256, _ => 0)
  }

  /** Any sufficient prefix of the stream gives the same 256 values. */
  lemma EnoughIsEnough(xof: Xof, seed: seq<byte>, x: byte, y: byte, n: nat)
    requires Enough(xof, seed, x, y, n)
    ensures SampleNtt(xof, seed, x, y) == Accept(Stream(xof, seed, x, y, 0, n))[..256]
  {
    forall m: nat | Enough(xof, seed, x, y, m)
      ensures Accept(Stream(xof, seed, x, y, 0, m))[..256] == Accept(Stream(xof, seed, x, y, 0, n))[..256]
    {
      if m <= n {
        PrefixIsEnough(xof, seed, x, y, m, n);
      } else {
        PrefixIsEnough(xof, seed, x, y, n, m);
      }
    }
  }

  lemma PrefixIsEnough(xof: Xof, seed: seq<byte>, x: byte, y: byte, m: nat, n: nat)
    requires m <= n && m % 3 == 0 && |Accept(Stream(xof, seed, x, y, 0, m))| >= 256
    ensures |Accept(Stream(xof, seed, x, y, 0, n))| >= |Accept(Stream(xof, seed, x, y, 0, m))|
    ensures Accept(Stream(xof, seed, x, y, 0, m))[..256] == Accept(Stream(xof, seed, x, y, 0, n))[..256]
  {
    StreamConcat(xof, seed, x, y, m, n - m);
    AcceptConcat(Stream(xof, seed, x, y, 0, m), Stream(xof, seed, x, y, m, n - m));
  }

  /** indcpa.c:173-188, one entry of the matrix: three blocks, then one more at a time. `limit` is some
      length of the stream that suffices; without one the source loops forever. */
  method SampleEntry(r: array<int16>, xof: Xof, seed: seq<byte>, x: byte, y: byte, ghost limit: nat)
    requires r.Length == 256 && Enough(xof, seed, x, y, limit)
    modifies r
    ensures r[..] == SampleNtt(xof, seed, x, y)
  {
    hide Accept, SampleNtt, Prefix, Stream, Overwritten;
    ghost var s := r[..];
    var pos := MATRIX_BLOCKS * XOF_BLOCK;
    var buf := Stream(xof, seed, x, y, 0, pos);
    var ctr := RejectionSample(r, 0, 256, buf);
    ghost var kept := Prefix(256, Accept(Stream(xof, seed, x, y, 0, pos)));
    while ctr < 256
      invariant pos % 3 == 0 && ctr == |kept| <= 256
      invariant kept == Prefix(256, Accept(Stream(xof, seed, x, y, 0, pos)))
      invariant r[..] == Overwritten(s, 0, kept)
      decreases limit - pos
    {
      StillShort(xof, seed, x, y, limit, pos);
      MoreBlocks(xof, seed, x, y, pos, XOF_BLOCK);
      buf := Stream(xof, seed, x, y, pos, XOF_BLOCK);
      var more := RejectionSample(r, ctr, 256 - ctr, buf);
      OverwrittenTwice(s, 0, kept, Prefix(256 - ctr, Accept(buf)));
      kept := kept + Prefix(256 - ctr, Accept(buf));
      pos := pos + XOF_BLOCK;
      ctr := ctr + more;
    }
    Finished(xof, seed, x, y, pos);
    OverwrittenBy(s, 0, kept);
  }

  /** Fewer than 256 values have come, so the sufficient length is not reached. */
  lemma StillShort(xof: Xof, seed: seq<byte>, x: byte, y: byte, limit: nat, pos: nat)
    requires Enough(xof, seed, x, y, limit) && |Prefix(256, Accept(Stream(xof, seed, x, y, 0, pos)))| < 256
    ensures pos < limit
  {
    hide Accept, Stream;
    if pos >= limit {
      PrefixIsEnough(xof, seed, x, y, limit, pos);
    }
  }

  lemma MoreBlocks(xof: Xof, seed: seq<byte>, x: byte, y: byte, pos: nat, n: nat)
    requires pos % 3 == 0
    ensures var kept := Prefix(256, Accept(Stream(xof, seed, x, y, 0, pos)));
            |kept| < 256 ==>
              Prefix(256, Accept(Stream(xof, seed, x, y, 0, pos + n)))
              == kept + Prefix(256 - |kept|, Accept(Stream(xof, seed, x, y, pos, n)))
  {
    hide Accept, Stream;
    StreamConcat(xof, seed, x, y, pos, n);
    AcceptConcat(Stream(xof, seed, x, y, 0, pos), Stream(xof, seed, x, y, pos, n));
    CutConcat(256, Accept(Stream(xof, seed, x, y, 0, pos)), Accept(Stream(xof, seed, x, y, pos, n)));
  }

  lemma Finished(xof: Xof, seed: seq<byte>, x: byte, y: byte, pos: nat)
    requires pos % 3 == 0 && |Prefix(256, Accept(Stream(xof, seed, x, y, 0, pos)))| == 256
    ensures Prefix(256, Accept(Stream(xof, seed, x, y, 0, pos))) == SampleNtt(xof, seed, x, y)
  {
    hide Accept, Stream, SampleNtt;
    EnoughIsEnough(xof, seed, x, y, pos);
  }
}
