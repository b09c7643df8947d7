// fips202.c:22-45 and 353-734: the sponge on top of the permutation, byte by byte.
module Sponge {
  import opened IntFacts
  import opened Keccak
  import opened KeccakBits

  // Bytes in lanes, least significant first.

  function LaneOf(b: bv8): Lane {
    Lane(b as bv64)
  }

  /** (uint64_t)b << 8*k */
  function UpLane(b: bv8, k: nat): Lane
    requires k < 8
  {
    ShiftUp(LaneOf(b), 8 * k)
  }

  /** The low byte of l >> 8*k. */
  function Down(l: Lane, k: nat): bv8
    requires k < 8
  {
    LowByte(ShiftDown(l, 8 * k))
  }

  function LowByte(l: Lane): bv8 {
    (l.w & 0xff) as bv8
  }

  function Put(l: Lane, b: bv8, k: nat): Lane
    requires k < 8
  {
    Xor(l, UpLane(b, k))
  }

  function XorByte(s: State, i: nat, b: bv8): (t: State)
    requires i < 200
  {
    s[i / 8 := Put(s[i / 8], b, i % 8)]
  }

  function ByteAt(s: State, i: nat): bv8
    requires i < 200
  {
    Down(s[i / 8], i % 8)
  }

  function XorBytes(s: State, i: nat, b: seq<bv8>): (t: State)
    requires i + |b| <= 200
    decreases |b|
  {
    if b == [] then s else XorBytes(XorByte(s, i, b[0]), i + 1, b[1..])
  }

  function ZeroState(): State {
    seq(25, _ => Lane(0))
  }

  /** SHAKE and SHA-3 rates: whole lanes. */
  predicate IsRate(r: nat) {
    0 < r <= 200 && r % 8 == 0
  }

  datatype Position = Position(s: State, pos: nat)

  /** Absorbing, one byte at a time: a full block is permuted at once. */
  function AbsorbBytes(p: Position, r: nat, b: seq<bv8>): (q: Position)
    requires IsRate(r) && p.pos < r
    ensures q.pos < r
    decreases |b|
  {
    if b == [] then p
    else
      var t := XorByte(p.s, p.pos, b[0]);
      AbsorbBytes(if p.pos + 1 == r then Position(KeccakF(t), 0) else Position(t, p.pos + 1), r, b[1..])
  }

  /** The domain byte after the input, and the final bit at the end of the block. */
  function Finalized(p: Position, r: nat, domain: bv8): (s: State)
    requires IsRate(r) && p.pos < r
  {
    XorByte(XorByte(p.s, p.pos, domain), r - 1, 0x80)
  }

  /** Squeezing, one byte at a time: a used-up block is permuted before the next byte. */
  function SqueezeBytes(p: Position, r: nat, n: nat): (out: (seq<bv8>, Position))
    requires IsRate(r) && p.pos <= r
    ensures |out.0| == n && out.1.pos <= r
    decreases n
  {
    if n == 0 then ([], p)
    else
      var t := if p.pos == r then Position(KeccakF(p.s), 0) else p;
      var (rest, q) := SqueezeBytes(Position(t.s, t.pos + 1), r, n - 1);
      ([ByteAt(t.s, t.pos)] + rest, q)
  }

  // Chunking does not matter.

  /** Absorbing in pieces is absorbing the whole. */
  lemma {:induction false} AbsorbConcat(p: Position, r: nat, a: seq<bv8>, b: seq<bv8>)
    requires IsRate(r) && p.pos < r
    ensures AbsorbBytes(p, r, a + b) == AbsorbBytes(AbsorbBytes(p, r, a), r, b)
    decreases |a|
  {
    hide XorByte, KeccakF;
    if a == [] {
      assert a + b == b;
    } else {
      var t := XorByte(p.s, p.pos, a[0]);
      AbsorbConcat(if p.pos + 1 == r then Position(KeccakF(t), 0) else Position(t, p.pos + 1), r, a[1..], b);
      assert (a + b)[1..] == a[1..] + b;
    }
  }

  function AbsorbAll(p: Position, r: nat, pieces: seq<seq<bv8>>): (q: Position)
    requires IsRate(r) && p.pos < r
    ensures q.pos < r
    decreases |pieces|
  {
    if pieces == [] then p else AbsorbAll(AbsorbBytes(p, r, pieces[0]), r, pieces[1..])
  }

  function Joined(pieces: seq<seq<bv8>>): seq<bv8> {
    if pieces == [] then [] else pieces[0] + Joined(pieces[1..])
  }

  /** Any split of the input gives the same state. */
  lemma {:induction false} AnySplitAbsorbs(p: Position, r: nat, pieces: seq<seq<bv8>>)
    requires IsRate(r) && p.pos < r
    ensures AbsorbAll(p, r, pieces) == AbsorbBytes(p, r, Joined(pieces))
    decreases |pieces|
  {
    hide AbsorbBytes;
    if pieces == [] {
      AbsorbNothing(p, r);
    } else {
      AnySplitAbsorbs(AbsorbBytes(p, r, pieces[0]), r, pieces[1..]);
      AbsorbConcat(p, r, pieces[0], Joined(pieces[1..]));
    }
  }

  lemma AbsorbNothing(p: Position, r: nat)
    requires IsRate(r) && p.pos < r
    ensures AbsorbBytes(p, r, []) == p
  {
  }

  /** Any split of the output gives the same bytes and the same state. */
  lemma {:induction false} SqueezeConcat(p: Position, r: nat, m: nat, n: nat)
    requires IsRate(r) && p.pos <= r
    ensures SqueezeBytes(p, r, m + n).0 == SqueezeBytes(p, r, m).0 + SqueezeBytes(SqueezeBytes(p, r, m).1, r, n).0
    ensures SqueezeBytes(p, r, m + n).1 == SqueezeBytes(SqueezeBytes(p, r, m).1, r, n).1
    decreases m
  {
    hide SqueezeBytes, ByteAt, KeccakF;
    if m == 0 {
      NothingSqueezed(p, r);
    } else {
      var t := if p.pos == r then Position(KeccakF(p.s), 0) else p;
      SqueezeFirst(p, r, m, t);
      SqueezeFirst(p, r, m + n, t);
      SqueezeConcat(Position(t.s, t.pos + 1), r, m - 1, n);
    }
  }

  lemma SqueezeFirst(p: Position, r: nat, n: nat, t: Position)
    requires IsRate(r) && p.pos <= r && n > 0 && t == if p.pos == r then Position(KeccakF(p.s), 0) else p
    ensures SqueezeBytes(p, r, n).0 == [ByteAt(t.s, t.pos)] + SqueezeBytes(Position(t.s, t.pos + 1), r, n - 1).0
    ensures SqueezeBytes(p, r, n).1 == SqueezeBytes(Position(t.s, t.pos + 1), r, n - 1).1
  {
    hide ByteAt, KeccakF;
  }

  function Iterate(s: State, n: nat): State {
    if n == 0 then s else KeccakF(Iterate(s, n - 1))
  }

  /** Byte k of the output: block k / r comes from k / r + 1 permutations (FIPS 202, section 4). */
  function StreamByte(s: State, r: nat, k: nat): bv8
    requires IsRate(r)
  {
    ByteAt(Iterate(s, k / r + 1), k % r)
  }

  /** Squeezing from a state with i permutations done and pos bytes of its block used continues the stream. */
  lemma {:induction false} StreamFrom(s: State, r: nat, i: nat, pos: nat, n: nat, k: nat, at: nat)
    requires IsRate(r) && pos <= r && k < n && at + r == r * i + pos + k
    ensures SqueezeBytes(Position(Iterate(s, i), pos), r, n).0[k] == StreamByte(s, r, at)
    decreases n
  {
    hide ByteAt, KeccakF;
    if pos == r {
      assert r * (i + 1) == r * i + r;
      StreamStep(s, r, i + 1, 0, n, k, at);
      assert Iterate(s, i + 1) == KeccakF(Iterate(s, i));
    } else {
      StreamStep(s, r, i, pos, n, k, at);
    }
  }

  lemma StreamStep(s: State, r: nat, i: nat, pos: nat, n: nat, k: nat, at: nat)
    requires IsRate(r) && pos < r && k < n && at + r == r * i + pos + k
    ensures SqueezeBytes(Position(Iterate(s, i), pos), r, n).0[k] == StreamByte(s, r, at)
    decreases n, 0
  {
    hide ByteAt, KeccakF, Iterate;
    if k == 0 {
      BlockOf(r, i, pos, at);
    } else {
      StreamFrom(s, r, i, pos + 1, n - 1, k - 1, at);
    }
  }

  lemma BlockOf(r: nat, i: nat, pos: nat, at: nat)
    requires r > 0 && pos < r && at + r == r * i + pos
    ensures at / r + 1 == i && at % r == pos
  {
    assert r * (i - 1) == r * i - r;
    DivUnique(at, r, i - 1, pos);
  }

  /** The whole output after finalizing is the stream of FIPS 202. */
  lemma SqueezeIsStream(s: State, r: nat, n: nat)
    requires IsRate(r)
    ensures SqueezeBytes(Position(s, r), r, n).0 == seq(n, k requires 0 <= k < n => StreamByte(s, r, k))
  {
    hide SqueezeBytes, StreamByte;
    forall k | 0 <= k < n
      ensures SqueezeBytes(Position(s, r), r, n).0[k] == StreamByte(s, r, k)
    {
      assert Iterate(s, 0) == s;
      StreamFrom(s, r, 0, r, n, k, k);
    }
  }

  /** What is squeezed after n bytes are the next bytes of the stream. */
  lemma SqueezeContinues(s: State, t: State, r: nat, n: nat, m: nat)
    requires IsRate(r) && Position(t, r) == SqueezeBytes(Position(s, r), r, n).1
    ensures SqueezeBytes(Position(t, r), r, m).0 == seq(m, k requires 0 <= k < m => StreamByte(s, r, n + k))
    ensures SqueezeBytes(Position(t, r), r, m).1 == SqueezeBytes(Position(s, r), r, n + m).1
  {
    hide SqueezeBytes, StreamByte;
    var p := Position(s, r);
    SqueezeConcat(p, r, n, m);
    SqueezeIsStream(s, r, n + m);
    forall k | 0 <= k < m
      ensures SqueezeBytes(Position(t, r), r, m).0[k] == StreamByte(s, r, n + k)
    {
      assert SqueezeBytes(p, r, n + m).0[n + k] == SqueezeBytes(Position(t, r), r, m).0[k];
    }
  }

  // Padding.

  lemma PutPut(l: Lane, a: bv8, b: bv8, k: nat)
    requires k < 8
    ensures Put(Put(l, a, k), b, k) == Put(l, a ^ b, k)
  {
    hide UpLane, Xor;
    UpXor(a, b, k);
    XorAssoc(l, UpLane(a, k), UpLane(b, k));
  }

  lemma XorByteTwice(s: State, i: nat, a: bv8, b: bv8)
    requires i < 200
    ensures XorByte(XorByte(s, i, a), i, b) == XorByte(s, i, a ^ b)
  {
    hide Put;
    PutPut(s[i / 8], a, b, i % 8);
  }

  lemma XorAssoc(x: Lane, y: Lane, z: Lane)
    ensures Xor(Xor(x, y), z) == Xor(x, Xor(y, z))
  {
  }

  lemma UpXor(a: bv8, b: bv8, k: nat)
    requires k < 8
    ensures Xor(UpLane(a, k), UpLane(b, k)) == UpLane(a ^ b, k)
  {
    hide Xor, LaneOf;
    ShiftUpXor(LaneOf(a), LaneOf(b), 8 * k);
    LaneOfXor(a, b);
  }

  lemma LaneOfXor(a: bv8, b: bv8)
    ensures Xor(LaneOf(a), LaneOf(b)) == LaneOf(a ^ b)
  {
  }

  lemma {:induction false} ShiftUpXor(a: Lane, b: Lane, n: nat)
    ensures Xor(ShiftUp(a, n), ShiftUp(b, n)) == ShiftUp(Xor(a, b), n)
  {
    hide Xor, Twice;
    if n != 0 {
      ShiftUpXor(a, b, n - 1);
      TwiceXor(ShiftUp(a, n - 1), ShiftUp(b, n - 1));
    }
  }

  lemma TwiceXor(a: Lane, b: Lane)
    ensures Xor(Twice(a), Twice(b)) == Twice(Xor(a, b))
  {
  }

  lemma {:induction false} ShiftUpZero(n: nat)
    ensures ShiftUp(ZERO, n) == ZERO
  {
    hide Twice;
    if n != 0 {
      ShiftUpZero(n - 1);
      TwiceZero();
    }
  }

  lemma PutZero(l: Lane, k: nat)
    requires k < 8
    ensures Put(l, 0, k) == l
  {
    hide Xor, ShiftUp;
    assert LaneOf(0) == ZERO;
    ShiftUpZero(8 * k);
    XorWithZero(l);
  }

  // Bytes in lanes, bit by bit.

  /** A byte has no bits from 8 on. */
  lemma HighBits(b: bv8, z: nat)
    requires 8 <= z < 64
    ensures Bit(LaneOf(b), z) == 0
  {
    hide Bit, ShiftDown, LaneOf;
    ShiftedOut(b);
    BitOfShiftDown(LaneOf(b), 8, z - 8);
    BitOfZero(z - 8);
  }

  lemma BitOfZero(z: nat)
    ensures Bit(ZERO, z) == 0
  {
  }

  predicate AtMost(a: Lane, b: Lane) {
    a.w <= b.w
  }

  lemma {:induction false} ShiftedAtMost(a: Lane, b: Lane, n: nat)
    requires AtMost(a, b)
    ensures AtMost(ShiftDown(a, n), ShiftDown(b, n))
  {
    hide AtMost, Half;
    if n != 0 {
      ShiftedAtMost(a, b, n - 1);
      HalfAtMost(ShiftDown(a, n - 1), ShiftDown(b, n - 1));
    }
  }

  lemma HalfAtMost(a: Lane, b: Lane)
    requires AtMost(a, b)
    ensures AtMost(Half(a), Half(b))
  {
  }

  lemma ShiftedOut(b: bv8)
    ensures ShiftDown(LaneOf(b), 8) == ZERO
  {
    hide AtMost, LaneOf;
    ByteAtMost(b);
    ShiftedAtMost(LaneOf(b), Lane(0xff), 8);
    assert ShiftDown(Lane(0xff), 8) == ZERO;
    OnlyZero(ShiftDown(LaneOf(b), 8));
  }

  lemma ByteAtMost(b: bv8)
    ensures AtMost(LaneOf(b), Lane(0xff))
  {
  }

  lemma OnlyZero(a: Lane)
    requires AtMost(a, ZERO)
    ensures a == ZERO
  {
  }

  /** Byte b in place k has its bits from 8k on. */
  lemma BitOfUpLane(b: bv8, k: nat, z: nat)
    requires k < 8 && z < 64
    ensures Bit(UpLane(b, k), z) == if 8 * k <= z < 8 * k + 8 then Bit(LaneOf(b), z - 8 * k) else 0
  {
    hide Bit, ShiftUp, LaneOf;
    BitOfShiftUp(LaneOf(b), 8 * k, z);
    if z >= 8 * k + 8 {
      HighBits(b, z - 8 * k);
    }
  }

  /** Reading place m of a lane that holds b in place k only. */
  lemma DownOfUp(b: bv8, k: nat, m: nat)
    requires k < 8 && m < 8
    ensures Down(UpLane(b, k), m) == if m == k then b else 0
  {
    hide Bit, ShiftUp, ShiftDown, LowByte, LaneOf, UpLane;
    var x, l := LaneOf(b), ShiftDown(UpLane(b, k), 8 * m);
    if m == k {
      forall z: nat | z < 64
        ensures Bit(l, z) == Bit(x, z)
      {
        BitOfShiftDown(UpLane(b, k), 8 * m, z);
        if z + 8 * m < 64 {
          BitOfUpLane(b, k, z + 8 * m);
        }
        if z >= 8 {
          HighBits(b, z);
        }
      }
      BitsDetermine(l, x);
      LowByteOfLane(b);
    } else {
      forall z: nat | z < 64
        ensures Bit(And(l, Lane(0xff)), z) == Bit(ZERO, z)
      {
        BitOfShiftDown(UpLane(b, k), 8 * m, z);
        if z + 8 * m < 64 {
          BitOfUpLane(b, k, z + 8 * m);
        }
        BitAnd(l, Lane(0xff), z);
        BitOfZero(z);
        if z >= 8 {
          assert LaneOf(0xff) == Lane(0xff) by { ByteLane(); }
          HighBits(0xff, z);
        }
      }
      BitsDetermine(And(l, Lane(0xff)), ZERO);
      LowByteNothing(l);
    }
  }

  lemma ByteLane()
    ensures LaneOf(0xff) == Lane(0xff)
  {
  }

  lemma LowByteOfLane(b: bv8)
    ensures LowByte(LaneOf(b)) == b
  {
  }

  lemma LowByteNothing(l: Lane)
    requires And(l, Lane(0xff)) == ZERO
    ensures LowByte(l) == 0
  {
  }

  lemma {:induction false} ShiftDownXor(a: Lane, b: Lane, n: nat)
    ensures Xor(ShiftDown(a, n), ShiftDown(b, n)) == ShiftDown(Xor(a, b), n)
  {
    hide Xor, Half;
    if n != 0 {
      ShiftDownXor(a, b, n - 1);
      HalfXor(ShiftDown(a, n - 1), ShiftDown(b, n - 1));
    }
  }

  lemma HalfXor(a: Lane, b: Lane)
    ensures Xor(Half(a), Half(b)) == Half(Xor(a, b))
  {
  }

  lemma LowByteXor(a: Lane, b: Lane)
    ensures LowByte(Xor(a, b)) == LowByte(a) ^ LowByte(b)
  {
  }

  lemma DownOfPut(l: Lane, b: bv8, k: nat, m: nat)
    requires k < 8 && m < 8
    ensures Down(Put(l, b, k), m) == if m == k then Down(l, m) ^ b else Down(l, m)
  {
    hide Xor, UpLane, ShiftDown, LowByte;
    ShiftDownXor(l, UpLane(b, k), 8 * m);
    LowByteXor(ShiftDown(l, 8 * m), ShiftDown(UpLane(b, k), 8 * m));
    DownOfUp(b, k, m);
  }

  /** Seen as 200 bytes, the state changes in the byte that is xored and in no other. */
  lemma ByteAfterXor(s: State, i: nat, b: bv8, j: nat)
    requires i < 200 && j < 200
    ensures ByteAt(XorByte(s, i, b), j) == if i == j then ByteAt(s, j) ^ b else ByteAt(s, j)
  {
    hide Put, Down;
    if i / 8 == j / 8 {
      DownOfPut(s[i / 8], b, i % 8, j % 8);
    }
  }

  function Zeros(n: nat): (z: seq<bv8>)
    ensures |z| == n
  {
    seq(n, _ => 0)
  }

  /** pad10*1 behind a domain suffix, for an input that ends at position pos of its block. */
  function Padding(pos: nat, r: nat, domain: bv8): (b: seq<bv8>)
    requires pos < r
    ensures pos + |b| == r
  {
    if pos == r - 1 then [domain ^ 0x80] else [domain] + Zeros(r - pos - 2) + [0x80]
  }

  /** Finalizing and then permuting is absorbing the padding of FIPS 202, section 5.1. */
  lemma FinalizeIsPadding(p: Position, r: nat, domain: bv8)
    requires IsRate(r) && p.pos < r
    ensures AbsorbBytes(p, r, Padding(p.pos, r, domain)) == Position(KeccakF(Finalized(p, r, domain)), 0)
  {
    hide KeccakF, XorByte, Zeros;
    if p.pos == r - 1 {
      XorByteTwice(p.s, p.pos, domain, 0x80);
      LastByte(p, r, domain ^ 0x80);
    } else {
      var q := AbsorbBytes(p, r, [domain]);
      OneByte(p, r, domain);
      AbsorbConcat(p, r, [domain], Zeros(r - p.pos - 2) + [0x80]);
      assert [domain] + (Zeros(r - p.pos - 2) + [0x80]) == Padding(p.pos, r, domain);
      AbsorbConcat(q, r, Zeros(r - p.pos - 2), [0x80]);
      AbsorbZeros(q, r, r - p.pos - 2);
      LastByte(Position(q.s, r - 1), r, 0x80);
    }
  }

  lemma OneByte(p: Position, r: nat, b: bv8)
    requires IsRate(r) && p.pos + 1 < r
    ensures AbsorbBytes(p, r, [b]) == Position(XorByte(p.s, p.pos, b), p.pos + 1)
  {
    hide KeccakF, XorByte;
    AbsorbNothing(Position(XorByte(p.s, p.pos, b), p.pos + 1), r);
  }

  lemma LastByte(p: Position, r: nat, b: bv8)
    requires IsRate(r) && p.pos + 1 == r
    ensures AbsorbBytes(p, r, [b]) == Position(KeccakF(XorByte(p.s, p.pos, b)), 0)
  {
    hide KeccakF, XorByte;
    AbsorbNothing(Position(KeccakF(XorByte(p.s, p.pos, b)), 0), r);
  }

  lemma {:induction false} AbsorbZeros(p: Position, r: nat, n: nat)
    requires IsRate(r) && p.pos + n < r
    ensures AbsorbBytes(p, r, Zeros(n)) == Position(p.s, p.pos + n)
    decreases n
  {
    hide KeccakF, Put;
    if n == 0 {
      AbsorbNothing(p, r);
    } else {
      PutZero(p.s[p.pos / 8], p.pos % 8);
      assert XorByte(p.s, p.pos, 0) == p.s;
      OneByte(p, r, 0);
      AbsorbZeros(Position(p.s, p.pos + 1), r, n - 1);
      AbsorbConcat(p, r, [0], Zeros(n - 1));
      assert [0] + Zeros(n - 1) == Zeros(n);
    }
  }

  // The code. `s` is the state array, bytes are consumed from or produced as sequences.

  lemma {:induction false} XorBytesConcat(s: State, i: nat, a: seq<bv8>, b: seq<bv8>)
    requires i + |a| + |b| <= 200
    ensures XorBytes(s, i, a + b) == XorBytes(XorBytes(s, i, a), i + |a|, b)
    decreases |a|
  {
    hide XorByte;
    if a == [] {
      assert a + b == b;
    } else {
      XorBytesConcat(XorByte(s, i, a[0]), i + 1, a[1..], b);
      assert (a + b)[1..] == a[1..] + b;
    }
  }

  /** Part of a block is only xored in. */
  lemma {:induction false} AbsorbPart(p: Position, r: nat, b: seq<bv8>)
    requires IsRate(r) && p.pos + |b| < r
    ensures AbsorbBytes(p, r, b) == Position(XorBytes(p.s, p.pos, b), p.pos + |b|)
    decreases |b|
  {
    hide XorByte, KeccakF;
    if b != [] {
      AbsorbPart(Position(XorByte(p.s, p.pos, b[0]), p.pos + 1), r, b[1..]);
    }
  }

  /** The rest of a block is xored in and the state permuted. */
  lemma {:induction false} AbsorbFill(p: Position, r: nat, b: seq<bv8>)
    requires IsRate(r) && p.pos < r && p.pos + |b| == r
    ensures AbsorbBytes(p, r, b) == Position(KeccakF(XorBytes(p.s, p.pos, b)), 0)
    decreases |b|
  {
    hide XorByte, KeccakF;
    var t := XorByte(p.s, p.pos, b[0]);
    if |b| == 1 {
      assert b == [b[0]];
      LastByte(p, r, b[0]);
    } else {
      AbsorbFill(Position(t, p.pos + 1), r, b[1..]);
    }
  }

  /** fips202.c:382-383 and 389-390: bytes xored in one by one from position pos. */
  method XorIn(s: array<Lane>, pos: nat, b: seq<bv8>)
    requires s.Length == 25 && pos + |b| <= 200
    modifies s
    ensures s[..] == XorBytes(old(s[..]), pos, b)
  {
    hide Put, XorBytes;
    ghost var s0: State := s[..];
    var i := pos;
    XorNothing(s0, pos);
    while i < pos + |b|
      invariant pos <= i <= pos + |b|
      invariant s[..] == XorBytes(s0, pos, b[..i - pos])
    {
      s[i / 8] := Put(s[i / 8], b[i - pos], i % 8);
      NextByte(s0, pos, b, i - pos);
      i := i + 1;
    }
    assert b[..i - pos] == b;
  }

  lemma XorNothing(s: State, pos: nat)
    requires pos <= 200
    ensures XorBytes(s, pos, []) == s
  {
  }

  lemma NextByte(s: State, pos: nat, b: seq<bv8>, k: nat)
    requires k < |b| && pos + |b| <= 200
    ensures XorBytes(s, pos, b[..k + 1]) == XorByte(XorBytes(s, pos, b[..k]), pos + k, b[k])
  {
    hide XorByte;
    assert b[..k + 1] == b[..k] + [b[k]];
    XorBytesConcat(s, pos, b[..k], [b[k]]);
    XorNothing(XorByte(XorBytes(s, pos, b[..k]), pos + k, b[k]), pos + k + 1);
  }

  /** fips202.c:373-393 */
  method KeccakAbsorb(s: array<Lane>, pos0: nat, r: nat, input: seq<bv8>) returns (pos: nat)
    requires s.Length == 25 && IsRate(r) && pos0 < r
    modifies s
    ensures Position(s[..], pos) == AbsorbBytes(Position(old(s[..]), pos0), r, input)
  {
    hide AbsorbBytes, XorBytes, KeccakF;
    pos := pos0;
    var at, inlen := 0, |input|;
    AbsorbNothing(Position(s[..], pos), r);
    while pos + inlen >= r
      invariant pos < r && 0 <= at && 0 <= inlen && at + inlen == |input|
      invariant Position(s[..], pos) == AbsorbBytes(Position(old(s[..]), pos0), r, input[..at])
      decreases inlen
    {
      var b := input[at..at + (r - pos)];
      AbsorbFill(Position(s[..], pos), r, b);
      AbsorbConcat(Position(old(s[..]), pos0), r, input[..at], b);
      assert input[..at + (r - pos)] == input[..at] + b;
      XorIn(s, pos, b);
      at, inlen := at + (r - pos), inlen - (r - pos);
      StatePermute(s);
      pos := 0;
    }
    AbsorbPart(Position(s[..], pos), r, input[at..]);
    AbsorbConcat(Position(old(s[..]), pos0), r, input[..at], input[at..]);
    assert input == input[..at] + input[at..];
    XorIn(s, pos, input[at..]);
    pos := pos + inlen;
  }

  /** fips202.c:405-409 */
  method KeccakFinalize(s: array<Lane>, pos: nat, r: nat, p: bv8)
    requires s.Length == 25 && IsRate(r) && pos < r
    modifies s
    ensures s[..] == Finalized(Position(old(s[..]), pos), r, p)
  {
    hide Put;
    s[pos / 8] := Put(s[pos / 8], p, pos % 8);
    TopBit();
    s[r / 8 - 1] := Xor(s[r / 8 - 1], Lane(1 << 63));
  }

  /** 1ULL << 63 is the byte 0x80 in the last place of a lane. */
  lemma TopBit()
    ensures forall l :: Put(l, 0x80, 7) == Xor(l, Lane(1 << 63))
  {
    hide Xor, ShiftUp;
    TopByte();
  }

  lemma TopByte()
    ensures UpLane(0x80, 7) == Lane(1 << 63)
  {
    hide ShiftUp;
    assert OnlyBit(7) == Lane(0x80);
    Bit63();
    OnlyBitShifted(7, 56);
  }

  function Or(a: Lane, b: Lane): Lane {
    Lane(a.w | b.w)
  }

  /** No common one bits. */
  predicate Disjoint(a: Lane, b: Lane) {
    And(a, b) == ZERO
  }

  /** fips202.c:26-27, the first n bytes or-ed together. */
  function LoadBytes(x: seq<bv8>, n: nat): Lane
    requires n <= |x| == 8
  {
    if n == 0 then ZERO else Or(LoadBytes(x, n - 1), UpLane(x[n - 1], n - 1))
  }

  /** fips202.c:22-30 */
  function Load64(x: seq<bv8>): Lane
    requires |x| == 8
  {
    LoadBytes(x, 8)
  }

  lemma {:induction false} LoadedBelow(x: seq<bv8>, n: nat, b: bv8, m: nat)
    requires n <= m < 8 && |x| == 8
    ensures Disjoint(LoadBytes(x, n), UpLane(b, m))
  {
    hide UpLane, Or, Disjoint;
    if n == 0 {
      ZeroDisjoint(UpLane(b, m));
    } else {
      LoadedBelow(x, n - 1, b, m);
      OtherPlace(x[n - 1], n - 1, b, m);
      OrDisjoint(LoadBytes(x, n - 1), UpLane(x[n - 1], n - 1), UpLane(b, m));
    }
  }

  lemma ZeroDisjoint(l: Lane)
    ensures Disjoint(ZERO, l)
  {
  }

  lemma OrDisjoint(a: Lane, b: Lane, c: Lane)
    requires Disjoint(a, c) && Disjoint(b, c)
    ensures Disjoint(Or(a, b), c)
  {
    hide And, Or;
    OrAnd(a, b, c);
    OrZero();
  }

  lemma OrAnd(a: Lane, b: Lane, c: Lane)
    ensures And(Or(a, b), c) == Or(And(a, c), And(b, c))
  {
  }

  lemma OrZero()
    ensures Or(ZERO, ZERO) == ZERO
  {
  }

  lemma OtherPlace(a: bv8, k: nat, b: bv8, m: nat)
    requires k < m < 8
    ensures Disjoint(UpLane(a, k), UpLane(b, m))
  {
    hide And, UpLane, Bit;
    forall z: nat | z < 64
      ensures Bit(And(UpLane(a, k), UpLane(b, m)), z) == Bit(ZERO, z)
    {
      BitAnd(UpLane(a, k), UpLane(b, m), z);
      BitOfUpLane(a, k, z);
      BitOfUpLane(b, m, z);
      BitOfZero(z);
    }
    BitsDetermine(And(UpLane(a, k), UpLane(b, m)), ZERO);
  }

  lemma OrIsXor(a: Lane, b: Lane)
    requires Disjoint(a, b)
    ensures Or(a, b) == Xor(a, b)
  {
    OrIsXorBits(a.w, b.w);
    SameResult(a, b, a.w | b.w);
  }

  lemma SameResult(a: Lane, b: Lane, v: bv64)
    requires v == a.w | b.w && v == a.w ^ b.w
    ensures Or(a, b) == Xor(a, b)
  {
    assert Or(a, b) == Lane(v);
    assert Xor(a, b) == Lane(v);
  }

  lemma OrIsXorBits(a: bv64, b: bv64)
    requires a & b == 0
    ensures a | b == a ^ b
  {
  }

  /** Since the bytes do not overlap, or-ing them is xoring them. */
  lemma LoadStep(l: Lane, x: seq<bv8>, n: nat)
    requires n < 8 && |x| == 8
    ensures Xor(l, LoadBytes(x, n + 1)) == Put(Xor(l, LoadBytes(x, n)), x[n], n)
  {
    hide UpLane, Xor, Or, Disjoint;
    LoadedBelow(x, n, x[n], n);
    OrIsXor(LoadBytes(x, n), UpLane(x[n], n));
    XorAssoc(l, LoadBytes(x, n), UpLane(x[n], n));
  }

  lemma XorZero(l: Lane)
    ensures Xor(l, Lane(0)) == l
  {
  }

  /** A lane loaded whole is its bytes xored in one by one. */
  lemma {:induction false} XorLane(s: State, i: nat, x: seq<bv8>, n: nat)
    requires i < 25 && n <= |x| == 8
    ensures XorBytes(s, 8 * i, x[..n]) == s[i := Xor(s[i], LoadBytes(x, n))]
  {
    hide Put, Xor, XorBytes;
    if n == 0 {
      XorNothing(s, 8 * i);
      XorZero(s[i]);
    } else {
      XorLane(s, i, x, n - 1);
      NextByte(s, 8 * i, x, n - 1);
      LoadStep(s[i], x, n - 1);
    }
  }

  /** fips202.c:473-474: a whole block, lane by lane. */
  method XorBlock(s: array<Lane>, r: nat, b: seq<bv8>)
    requires s.Length == 25 && IsRate(r) && |b| == r
    modifies s
    ensures s[..] == XorBytes(old(s[..]), 0, b)
  {
    hide LoadBytes, XorBytes, Xor;
    ghost var s0: State := s[..];
    XorNothing(s0, 0);
    var i := 0;
    while i < r / 8
      invariant 0 <= i <= r / 8 && s[..] == XorBytes(s0, 0, b[..8 * i])
    {
      ghost var t: State := s[..];
      assert b[8 * i..8 * i + 8][..8] == b[8 * i..8 * i + 8];
      XorLane(t, i, b[8 * i..8 * i + 8], 8);
      s[i] := Xor(s[i], Load64(b[8 * i..8 * i + 8]));
      XorBytesConcat(s0, 0, b[..8 * i], b[8 * i..8 * i + 8]);
      assert b[..8 * (i + 1)] == b[..8 * i] + b[8 * i..8 * i + 8];
      i := i + 1;
    }
    assert b[..8 * i] == b;
  }

  /** fips202.c:461-485: the same state as absorbing byte by byte from zero and finalizing. */
  method KeccakAbsorbOnce(s: array<Lane>, r: nat, input: seq<bv8>, p: bv8)
    requires s.Length == 25 && IsRate(r)
    modifies s
    ensures s[..] == Finalized(AbsorbBytes(Position(ZeroState(), 0), r, input), r, p)
  {
    hide AbsorbBytes, XorBytes, KeccakF, Finalized;
    KeccakInit(s);
    var at, inlen := 0, |input|;
    AbsorbNothing(Position(ZeroState(), 0), r);
    while inlen >= r
      invariant 0 <= at && 0 <= inlen && at + inlen == |input|
      invariant Position(s[..], 0) == AbsorbBytes(Position(ZeroState(), 0), r, input[..at])
      decreases inlen
    {
      var b := input[at..at + r];
      AbsorbFill(Position(s[..], 0), r, b);
      AbsorbConcat(Position(ZeroState(), 0), r, input[..at], b);
      assert input[..at + r] == input[..at] + b;
      XorBlock(s, r, b);
      at, inlen := at + r, inlen - r;
      StatePermute(s);
    }
    AbsorbPart(Position(s[..], 0), r, input[at..]);
    AbsorbConcat(Position(ZeroState(), 0), r, input[..at], input[at..]);
    assert input == input[..at] + input[at..];
    XorIn(s, 0, input[at..]);
    KeccakFinalize(s, inlen, r, p);
  }

  /** fips202.c:353-358 */
  method KeccakInit(s: array<Lane>)
    requires s.Length == 25
    modifies s
    ensures s[..] == ZeroState()
  {
    var i := 0;
    while i < 25
      invariant 0 <= i <= 25 && forall j :: 0 <= j < i ==> s[j] == Lane(0)
    {
      s[i] := Lane(0);
      i := i + 1;
    }
  }

  /** The bytes pos, ..., pos + n - 1 of the state. */
  function BytesOf(s: State, pos: nat, n: nat): (b: seq<bv8>)
    requires pos + n <= 200
    ensures |b| == n && forall k :: 0 <= k < n ==> b[k] == ByteAt(s, pos + k)
  {
    seq(n, k requires 0 <= k < n => ByteAt(s, pos + k))
  }

  lemma BytesOfConcat(s: State, pos: nat, m: nat, n: nat)
    requires pos + m + n <= 200
    ensures BytesOf(s, pos, m + n) == BytesOf(s, pos, m) + BytesOf(s, pos + m, n)
  {
    hide ByteAt;
  }

  lemma OneByteOf(s: State, pos: nat)
    requires pos < 200
    ensures BytesOf(s, pos, 1) == [ByteAt(s, pos)]
  {
    hide ByteAt;
  }

  /** Within a block squeezing reads the bytes of the state. */
  lemma {:induction false} SqueezePart(p: Position, r: nat, n: nat)
    requires IsRate(r) && p.pos + n <= r
    ensures SqueezeBytes(p, r, n) == (BytesOf(p.s, p.pos, n), Position(p.s, p.pos + n))
    decreases n
  {
    hide ByteAt, KeccakF;
    if n != 0 {
      SqueezePart(Position(p.s, p.pos + 1), r, n - 1);
      BytesOfConcat(p.s, p.pos, 1, n - 1);
      OneByteOf(p.s, p.pos);
    }
  }

  /** A used-up block is permuted before the next byte. */
  lemma SqueezeNext(s: State, r: nat, n: nat)
    requires IsRate(r) && n > 0
    ensures SqueezeBytes(Position(s, r), r, n) == SqueezeBytes(Position(KeccakF(s), 0), r, n)
  {
    hide ByteAt, KeccakF;
  }

  function Min(x: nat, y: nat): nat {
    if x < y then x else y
  }

  /** fips202.c:426-446, written to `out` from `off` on. */
  method KeccakSqueeze(out: array<bv8>, off: nat, outlen0: nat, s: array<Lane>, pos0: nat, r: nat) returns (pos: nat)
    requires (s as object) != out
    requires s.Length == 25 && IsRate(r) && pos0 <= r && off + outlen0 <= out.Length
    modifies s, out
    ensures Position(s[..], pos) == SqueezeBytes(Position(old(s[..]), pos0), r, outlen0).1
    ensures Written(out[..], old(out[..]), off, SqueezeBytes(Position(old(s[..]), pos0), r, outlen0).0)
  {
    hide SqueezeBytes, ByteAt, KeccakF, BytesOf, Written;
    ghost var p0, o, w: seq<bv8> := Position(s[..], pos0), out[..], [];
    WriteNothing(o, off);
    pos := pos0;
    var done, outlen := 0, outlen0;
    NothingSqueezed(p0, r);
    while outlen != 0
      invariant 0 <= done && 0 <= outlen && done + outlen == outlen0 && pos <= r
      invariant (w, Position(s[..], pos)) == SqueezeBytes(p0, r, done)
      invariant Written(out[..], o, off, w)
    {
      var n := if pos == r then Min(r, outlen) else Min(r - pos, outlen);
      SqueezeConcat(p0, r, done, n);
      if pos == r {
        SqueezeNext(s[..], r, n);
        StatePermute(s);
        pos := 0;
      }
      SqueezePart(Position(s[..], pos), r, n);
      ghost var before := out[..];
      CopyBytes(out, off + done, s, pos, n);
      WriteMore(o, off, w, before, BytesOf(s[..], pos, n), out[..]);
      w := w + BytesOf(s[..], pos, n);
      outlen := outlen - n;
      done := done + n;
      pos := pos + n;
    }
  }

  /** r is o with w written at `off`. */
  predicate Written(r: seq<bv8>, o: seq<bv8>, off: nat, w: seq<bv8>) {
    off + |w| <= |o| && r == o[..off] + w + o[off + |w|..]
  }

  lemma WriteMore(o: seq<bv8>, off: nat, w: seq<bv8>, r: seq<bv8>, g: seq<bv8>, r': seq<bv8>)
    requires Written(r, o, off, w) && off + |w| + |g| <= |o| && Written(r', r, off + |w|, g)
    ensures Written(r', o, off, w + g)
  {
  }

  lemma WriteNothing(o: seq<bv8>, off: nat)
    requires off <= |o|
    ensures Written(o, o, off, [])
  {
  }

  lemma WholeWritten(r: seq<bv8>, o: seq<bv8>, off: nat, w: seq<bv8>)
    requires Written(r, o, off, w)
    ensures |r| == |o| && r == o[..off] + w + o[off + |w|..]
  {
  }

  lemma WriteOne(o: seq<bv8>, off: nat, x: bv8)
    requires off < |o|
    ensures Written(o[off := x], o, off, [x])
  {
  }

  lemma NothingSqueezed(p: Position, r: nat)
    requires IsRate(r) && p.pos <= r
    ensures SqueezeBytes(p, r, 0) == ([], p)
  {
  }

  /** fips202.c:439-440 */
  method CopyBytes(out: array<bv8>, at: nat, s: array<Lane>, pos: nat, n: nat)
    requires (s as object) != out
    requires s.Length == 25 && pos + n <= 200 && at + n <= out.Length
    modifies out
    ensures Written(out[..], old(out[..]), at, BytesOf(s[..], pos, n))
  {
    hide Down, BytesOf, Written;
    ghost var o, t := out[..], s[..];
    var i := pos;
    WriteNothing(o, at);
    BytesOfNothing(t, pos);
    while i < pos + n
      invariant pos <= i <= pos + n && s[..] == t
      invariant Written(out[..], o, at, BytesOf(t, pos, i - pos))
    {
      ghost var before := out[..];
      out[at + (i - pos)] := Down(s[i / 8], i % 8);
      WriteOne(before, at + (i - pos), ByteAt(t, i));
      BytesOfConcat(t, pos, i - pos, 1);
      OneByteOf(t, i);
      WriteMore(o, at, BytesOf(t, pos, i - pos), before, [ByteAt(t, i)], out[..]);
      i := i + 1;
    }
  }

  lemma BytesOfNothing(s: State, pos: nat)
    requires pos <= 200
    ensures BytesOf(s, pos, 0) == []
  {
  }

  /** fips202.c:500-514: whole blocks. Called where a block has been used up, it continues the same stream. */
  method KeccakSqueezeBlocks(out: array<bv8>, nblocks: nat, s: array<Lane>, r: nat)
    requires (s as object) != out
    requires s.Length == 25 && IsRate(r) && r * nblocks <= out.Length
    modifies s, out
    ensures Position(s[..], r) == SqueezeBytes(Position(old(s[..]), r), r, r * nblocks).1
    ensures Written(out[..], old(out[..]), 0, SqueezeBytes(Position(old(s[..]), r), r, r * nblocks).0)
  {
    hide SqueezeBytes, ByteAt, KeccakF, Written;
    ghost var p0, o, w: seq<bv8> := Position(s[..], r), out[..], [];
    WriteNothing(o, 0);
    var i, at := 0, 0;
    NothingSqueezed(p0, r);
    while i < nblocks
      invariant 0 <= i <= nblocks && at == r * i
      invariant (w, Position(s[..], r)) == SqueezeBytes(p0, r, at)
      invariant Written(out[..], o, 0, w)
    {
      NextBlock(r, i, nblocks);
      SqueezeConcat(p0, r, at, r);
      ghost var b := SqueezeBytes(Position(s[..], r), r, r).0;
      ghost var before := out[..];
      OneBlock(out, at, s, r);
      WriteMore(o, 0, w, before, b, out[..]);
      w := w + b;
      at := at + r;
      i := i + 1;
    }
  }

  /** fips202.c:508-510 */
  method OneBlock(out: array<bv8>, at: nat, s: array<Lane>, r: nat)
    requires (s as object) != out
    requires s.Length == 25 && IsRate(r) && at + r <= out.Length
    modifies s, out
    ensures Position(s[..], r) == SqueezeBytes(Position(old(s[..]), r), r, r).1
    ensures Written(out[..], old(out[..]), at, SqueezeBytes(Position(old(s[..]), r), r, r).0)
  {
    hide SqueezeBytes, ByteAt, KeccakF, BytesOf, Written;
    SqueezeNext(s[..], r, r);
    StatePermute(s);
    SqueezePart(Position(s[..], 0), r, r);
    StoreBlock(out, at, s, r);
  }

  lemma NextBlock(r: nat, i: nat, n: nat)
    requires i < n
    ensures r * (i + 1) == r * i + r <= r * n
  {
    assert r * n == r * (i + 1) + r * (n - i - 1);
  }

  /** fips202.c:509-510: the lanes of a block, stored whole. */
  method StoreBlock(out: array<bv8>, at: nat, s: array<Lane>, r: nat)
    requires (s as object) != out
    requires s.Length == 25 && IsRate(r) && at + r <= out.Length
    modifies out
    ensures Written(out[..], old(out[..]), at, BytesOf(s[..], 0, r))
  {
    hide ByteAt, BytesOf, Written;
    ghost var o, t := out[..], s[..];
    var i := 0;
    WriteNothing(o, at);
    BytesOfNothing(t, 0);
    while i < r / 8
      invariant 0 <= i <= r / 8 && s[..] == t
      invariant Written(out[..], o, at, BytesOf(t, 0, 8 * i))
    {
      ghost var before := out[..];
      Store64(out, at + 8 * i, s, i);
      BytesOfConcat(t, 0, 8 * i, 8);
      WriteMore(o, at, BytesOf(t, 0, 8 * i), before, BytesOf(t, 8 * i, 8), out[..]);
      i := i + 1;
    }
  }

  /** fips202.c:40-45 */
  method Store64(out: array<bv8>, at: nat, s: array<Lane>, i: nat)
    requires (s as object) != out
    requires s.Length == 25 && i < 25 && at + 8 <= out.Length
    modifies out
    ensures Written(out[..], old(out[..]), at, BytesOf(s[..], 8 * i, 8))
  {
    hide Down, BytesOf, Written;
    ghost var o, t := out[..], s[..];
    var k := 0;
    WriteNothing(o, at);
    BytesOfNothing(t, 8 * i);
    while k < 8
      invariant 0 <= k <= 8 && s[..] == t
      invariant Written(out[..], o, at, BytesOf(t, 8 * i, k))
    {
      ghost var before := out[..];
      out[at + k] := Down(s[i], k);
      WriteOne(before, at + k, ByteAt(t, 8 * i + k));
      BytesOfConcat(t, 8 * i, k, 1);
      OneByteOf(t, 8 * i + k);
      WriteMore(o, at, BytesOf(t, 8 * i, k), before, [ByteAt(t, 8 * i + k)], out[..]);
      k := k + 1;
    }
  }

  const SHAKE128_RATE := 168
  const SHAKE256_RATE := 136
  const SHA3_256_RATE := 136
  const SHA3_512_RATE := 72

  /** The rate is what the capacity, twice the strength or the length of the digest, leaves of the 200 bytes. */
  lemma Rates()
    ensures SHAKE128_RATE + 2 * 16 == 200 && SHAKE256_RATE + 2 * 32 == 200
    ensures SHA3_256_RATE + 2 * 32 == 200 && SHA3_512_RATE + 2 * 64 == 200
  {
  }

  /** The state after absorbing an input and its padding. */
  function AbsorbedState(r: nat, input: seq<bv8>, domain: bv8): State
    requires IsRate(r)
  {
    Finalized(AbsorbBytes(Position(ZeroState(), 0), r, input), r, domain)
  }

  /** fips202.c:723-734: blocks first, then the rest; the output is one prefix of the stream. */
  method Shake256(out: array<bv8>, input: seq<bv8>)
    modifies out
    ensures forall k :: 0 <= k < out.Length ==> out[k] == StreamByte(AbsorbedState(SHAKE256_RATE, input, 0x1f), SHAKE256_RATE, k)
  {
    hide SqueezeBytes, ByteAt, KeccakF, StreamByte, Finalized, AbsorbBytes;
    var s := new Lane[25](_ => Lane(0));
    KeccakAbsorbOnce(s, SHAKE256_RATE, input, 0x1f);
    ghost var p := Position(s[..], SHAKE256_RATE);
    var nblocks := out.Length / SHAKE256_RATE;
    KeccakSqueezeBlocks(out, nblocks, s, SHAKE256_RATE);
    var n := SHAKE256_RATE * nblocks;
    var pos := KeccakSqueeze(out, n, out.Length - n, s, SHAKE256_RATE, SHAKE256_RATE);
    SqueezeConcat(p, SHAKE256_RATE, n, out.Length - n);
    assert out[..] == SqueezeBytes(p, SHAKE256_RATE, out.Length).0;
    SqueezeIsStream(p.s, SHAKE256_RATE, out.Length);
    assert forall k :: 0 <= k < out.Length ==> out[k] == out[..][k];
  }

  /** symmetric-shake.c:64-73: the key and the ciphertext absorbed in two steps give the output of SHAKE256 on both. */
  method Rkprf(out: array<bv8>, key: seq<bv8>, input: seq<bv8>)
    modifies out
    ensures forall k :: 0 <= k < out.Length ==>
              out[k] == StreamByte(AbsorbedState(SHAKE256_RATE, key + input, 0x1f), SHAKE256_RATE, k)
  {
    hide SqueezeBytes, ByteAt, KeccakF, StreamByte, Finalized, AbsorbBytes;
    var s := new Lane[25](_ => Lane(0));
    KeccakInit(s);
    var pos := KeccakAbsorb(s, 0, SHAKE256_RATE, key);
    AbsorbedBelow(Position(ZeroState(), 0), SHAKE256_RATE, key);
    pos := KeccakAbsorb(s, pos, SHAKE256_RATE, input);
    AbsorbConcat(Position(ZeroState(), 0), SHAKE256_RATE, key, input);
    AbsorbedBelow(Position(ZeroState(), 0), SHAKE256_RATE, key + input);
    KeccakFinalize(s, pos, SHAKE256_RATE, 0x1f);
    ghost var p := Position(s[..], SHAKE256_RATE);
    pos := KeccakSqueeze(out, 0, out.Length, s, SHAKE256_RATE, SHAKE256_RATE);
    assert out[..] == SqueezeBytes(p, SHAKE256_RATE, out.Length).0;
    SqueezeIsStream(p.s, SHAKE256_RATE, out.Length);
    assert forall k :: 0 <= k < out.Length ==> out[k] == out[..][k];
  }

  lemma AbsorbedBelow(p: Position, r: nat, b: seq<bv8>)
    requires IsRate(r) && p.pos < r
    ensures AbsorbBytes(p, r, b).pos < r
  {
  }

  /** fips202.c:745-754: the first 32 bytes of the stream, with the SHA-3 domain. */
  method Sha3256(h: array<bv8>, input: seq<bv8>)
    requires h.Length == 32
    modifies h
    ensures forall k :: 0 <= k < 32 ==> h[k] == StreamByte(AbsorbedState(SHA3_256_RATE, input, 0x06), SHA3_256_RATE, k)
  {
    hide StreamByte, AbsorbedState;
    Sha3(h, SHA3_256_RATE, input);
  }

  /** fips202.c:765-774: the first 64 bytes. */
  method Sha3512(h: array<bv8>, input: seq<bv8>)
    requires h.Length == 64
    modifies h
    ensures forall k :: 0 <= k < 64 ==> h[k] == StreamByte(AbsorbedState(SHA3_512_RATE, input, 0x06), SHA3_512_RATE, k)
  {
    hide StreamByte, AbsorbedState;
    Sha3(h, SHA3_512_RATE, input);
  }

  /** What sha3_256 and sha3_512 have in common: the first lanes of the first block. */
  method Sha3(h: array<bv8>, r: nat, input: seq<bv8>)
    requires IsRate(r) && IsRate(h.Length) && h.Length <= r
    modifies h
    ensures forall k :: 0 <= k < h.Length ==> h[k] == StreamByte(AbsorbedState(r, input, 0x06), r, k)
  {
    hide ByteAt, KeccakF, Finalized, AbsorbBytes, Written, StreamByte;
    var s := new Lane[25](_ => Lane(0));
    KeccakAbsorbOnce(s, r, input, 0x06);
    FirstBlock(s[..], r);
    StatePermute(s);
    ghost var o := h[..];
    StoreBlock(h, 0, s, h.Length);
    WholeWritten(h[..], o, 0, BytesOf(s[..], 0, h.Length));
    assert forall k :: 0 <= k < h.Length ==> h[k] == h[..][k];
  }

  lemma FirstBlock(s: State, r: nat)
    requires IsRate(r)
    ensures forall k :: 0 <= k < r ==> StreamByte(s, r, k) == ByteAt(KeccakF(s), k)
  {
    hide ByteAt, KeccakF, StreamByte;
    forall k | 0 <= k < r
      ensures StreamByte(s, r, k) == ByteAt(KeccakF(s), k)
    {
      FirstByte(s, r, k);
    }
  }

  lemma FirstByte(s: State, r: nat, k: nat)
    requires IsRate(r) && k < r
    ensures StreamByte(s, r, k) == ByteAt(KeccakF(s), k)
  {
    hide ByteAt, KeccakF;
    DivUnique(k, r, 0, k);
    assert Iterate(s, 1) == KeccakF(Iterate(s, 0));
  }
}
