// fips202.c:47-344: the Keccak permutation, two rounds per iteration, and the round of FIPS 202.
module Keccak {
  /** A uint64_t. */
  datatype Lane = Lane(w: bv64)

  /** 25 lanes; lane (x, y) is number x + 5y. */
  type State = s: seq<Lane> | |s| == 25 witness seq(25, _ => Lane(0))

  function Xor(a: Lane, b: Lane): Lane {
    Lane(a.w ^ b.w)
  }

  function AndNot(a: Lane, b: Lane): Lane {
    Lane(!a.w & b.w)
  }

  /** A rotation offset. */
  type Turn = n: int | 0 <= n < 64

  function Twice(a: Lane): Lane {
    Lane(a.w << 1)
  }

  function Half(a: Lane): Lane {
    Lane(a.w >> 1)
  }

  /** a << n, a place at a time. */
  function ShiftUp(a: Lane, n: nat): Lane {
    if n == 0 then a else Twice(ShiftUp(a, n - 1))
  }

  /** a >> n */
  function ShiftDown(a: Lane, n: nat): Lane {
    if n == 0 then a else Half(ShiftDown(a, n - 1))
  }

  /** fips202.c:11. Offset 0 is not used by the code. */
  function Rol(a: Lane, n: Turn): Lane {
    Xor(ShiftUp(a, n), ShiftDown(a, 64 - n))
  }

  // The step mappings of FIPS 202, section 3.2.

  function ColumnParity(a: State, x: nat): Lane
    requires x < 5
  {
    Xor(Xor(Xor(Xor(a[x], a[x + 5]), a[x + 10]), a[x + 15]), a[x + 20])
  }

  /** What theta adds to the lanes of sheet x. */
  function Delta(a: State, x: nat): Lane
    requires x < 5
  {
    Xor(ColumnParity(a, (x + 4) % 5), Rol(ColumnParity(a, (x + 1) % 5), 1))
  }

  function Theta(a: State): (r: State) {
    seq(25, i requires 0 <= i < 25 => Xor(a[i], Delta(a, i % 5)))
  }

  /** The rotation offset of each lane. */
  function Offset(i: nat): Turn
    requires i < 25
  {
    match i
    case 0 => 0 case 1 => 1 case 2 => 62 case 3 => 28 case 4 => 27
    case 5 => 36 case 6 => 44 case 7 => 6 case 8 => 55 case 9 => 20
    case 10 => 3 case 11 => 10 case 12 => 43 case 13 => 25 case 14 => 39
    case 15 => 41 case 16 => 45 case 17 => 15 case 18 => 21 case 19 => 8
    case 20 => 18 case 21 => 2 case 22 => 61 case 23 => 56 case _ => 14
  }

  /** Rotation; by 0 it leaves the lane alone. */
  function Rotated(a: Lane, n: Turn): Lane {
    if n == 0 then a else Rol(a, n)
  }

  function Rho(a: State): (r: State) {
    seq(25, i requires 0 <= i < 25 => Rotated(a[i], Offset(i)))
  }

  /** Lane (x, y) comes from lane (x + 3y, x). */
  function PiSource(i: nat): (j: nat)
    requires i < 25
    ensures j < 25
  {
    (i % 5 + 3 * (i / 5)) % 5 + 5 * (i % 5)
  }

  function Pi(a: State): (r: State) {
    seq(25, i requires 0 <= i < 25 => a[PiSource(i)])
  }

  /** The lane k places further in the same plane, cyclically. */
  function Along(i: nat, k: nat): (j: nat)
    requires i < 25 && k < 5
    ensures j < 25 && j / 5 == i / 5
  {
    if i % 5 + k < 5 then i + k else i + k - 5
  }

  function Chi(a: State): (r: State) {
    seq(25, i requires 0 <= i < 25 => Xor(a[i], AndNot(a[Along(i, 1)], a[Along(i, 2)])))
  }

  function Iota(a: State, rc: Lane): (r: State) {
    a[0 := Xor(a[0], rc)]
  }

  function Round(a: State, rc: Lane): (r: State) {
    Iota(Chi(Pi(Rho(Theta(a)))), rc)
  }

  /** The walk of section 3.2.2 that defines the offsets: step t sits at lane (x, y) and sets (t + 1)(t + 2)/2. */
  function WalkLane(t: nat): (p: (nat, nat))
    ensures p.0 < 5 && p.1 < 5
  {
    if t == 0 then (1, 0)
    else
      var p := WalkLane(t - 1);
      (p.1, (2 * p.0 + 3 * p.1) % 5)
  }

  predicate OffsetFits(t: nat)
    requires t < 24
  {
    var p := WalkLane(t);
    Offset(p.0 + 5 * p.1) == (t + 1) * (t + 2) / 2 % 64
  }

  /** The next lane of the walk, and its offset. */
  lemma WalkStep(t: nat, x: nat, y: nat)
    requires 0 < t < 24 && WalkLane(t - 1) == (x, y) && x < 5 && y < 5
    requires Offset(y + 5 * ((2 * x + 3 * y) % 5)) == (t + 1) * (t + 2) / 2 % 64
    ensures WalkLane(t) == (y, (2 * x + 3 * y) % 5) && OffsetFits(t)
  {
    hide Offset;
    NextLane(t, x, y);
    hide WalkLane;
  }

  lemma NextLane(t: nat, x: nat, y: nat)
    requires 0 < t && WalkLane(t - 1) == (x, y)
    ensures WalkLane(t) == (y, (2 * x + 3 * y) % 5)
  {
  }

  lemma Walk0()
    ensures WalkLane(3) == (1, 2)
    ensures forall t: nat :: 0 <= t < 4 ==> OffsetFits(t)
  {
    hide WalkLane, OffsetFits;
    WalkStart();
    WalkStep(1, 1, 0);
    WalkStep(2, 0, 2);
    WalkStep(3, 2, 1);
  }

  lemma Walk4()
    ensures WalkLane(7) == (0, 1)
    ensures forall t: nat :: 4 <= t < 8 ==> OffsetFits(t)
  {
    hide WalkLane, OffsetFits;
    Walk0();
    WalkStep(4, 1, 2);
    WalkStep(5, 2, 3);
    WalkStep(6, 3, 3);
    WalkStep(7, 3, 0);
  }

  lemma Walk8()
    ensures WalkLane(11) == (4, 4)
    ensures forall t: nat :: 8 <= t < 12 ==> OffsetFits(t)
  {
    hide WalkLane, OffsetFits;
    Walk4();
    WalkStep(8, 0, 1);
    WalkStep(9, 1, 3);
    WalkStep(10, 3, 1);
    WalkStep(11, 1, 4);
  }

  lemma Walk12()
    ensures WalkLane(15) == (4, 3)
    ensures forall t: nat :: 12 <= t < 16 ==> OffsetFits(t)
  {
    hide WalkLane, OffsetFits;
    Walk8();
    WalkStep(12, 4, 4);
    WalkStep(13, 4, 0);
    WalkStep(14, 0, 3);
    WalkStep(15, 3, 4);
  }

  lemma Walk16()
    ensures WalkLane(19) == (0, 4)
    ensures forall t: nat :: 16 <= t < 20 ==> OffsetFits(t)
  {
    hide WalkLane, OffsetFits;
    Walk12();
    WalkStep(16, 4, 3);
    WalkStep(17, 3, 2);
    WalkStep(18, 2, 2);
    WalkStep(19, 2, 0);
  }

  lemma Walk20()
    ensures WalkLane(23) == (1, 1)
    ensures forall t: nat :: 20 <= t < 24 ==> OffsetFits(t)
  {
    hide WalkLane, OffsetFits;
    Walk16();
    WalkStep(20, 0, 4);
    WalkStep(21, 4, 2);
    WalkStep(22, 2, 4);
    WalkStep(23, 4, 1);
  }

  lemma WalkStart()
    ensures WalkLane(0) == (1, 0) && OffsetFits(0)
  {
  }

  /** All 24 steps of the walk give the offset in the table. */
  lemma OffsetsFromWalk()
    ensures forall t: nat :: t < 24 ==> OffsetFits(t)
  {
    hide OffsetFits;
    Walk0();
    Walk4();
    Walk8();
    Walk12();
    Walk16();
    Walk20();
  }

  // The round constants.

  /** fips202.c:48-73 */
  function RoundConstant(i: nat): Lane
    requires i < 24
  {
    match i
    case 0 => Lane(0x0000_0000_0000_0001) case 1 => Lane(0x0000_0000_0000_8082)
    case 2 => Lane(0x8000_0000_0000_808a) case 3 => Lane(0x8000_0000_8000_8000)
    case 4 => Lane(0x0000_0000_0000_808b) case 5 => Lane(0x0000_0000_8000_0001)
    case 6 => Lane(0x8000_0000_8000_8081) case 7 => Lane(0x8000_0000_0000_8009)
    case 8 => Lane(0x0000_0000_0000_008a) case 9 => Lane(0x0000_0000_0000_0088)
    case 10 => Lane(0x0000_0000_8000_8009) case 11 => Lane(0x0000_0000_8000_000a)
    case 12 => Lane(0x0000_0000_8000_808b) case 13 => Lane(0x8000_0000_0000_008b)
    case 14 => Lane(0x8000_0000_0000_8089) case 15 => Lane(0x8000_0000_0000_8003)
    case 16 => Lane(0x8000_0000_0000_8002) case 17 => Lane(0x8000_0000_0000_0080)
    case 18 => Lane(0x0000_0000_0000_800a) case 19 => Lane(0x8000_0000_8000_000a)
    case 20 => Lane(0x8000_0000_8000_8081) case 21 => Lane(0x8000_0000_0000_8080)
    case 22 => Lane(0x0000_0000_8000_0001) case _ => Lane(0x8000_0000_8000_8008)
  }

  /** One step of the shift register of section 3.2.5. */
  function Shift(r: bv8): bv8 {
    (r << 1) ^ (if r & 0x80 != 0 then 0x71 else 0)
  }

  /** The constant with the given bit set if the register puts out a one. */
  function OneIf(r: bv8, bit: bv64): bv64 {
    if r & 1 != 0 then bit else 0
  }

  /** Bits 0, 1, 3, 7, 15, 31 and 63 are seven successive outputs of the register. */
  function ConstantFrom(r: bv8): Lane {
    var r1 := Shift(r);
    var r2 := Shift(r1);
    var r3 := Shift(r2);
    var r4 := Shift(r3);
    var r5 := Shift(r4);
    var r6 := Shift(r5);
    Lane(OneIf(r, 0x1) | OneIf(r1, 0x2) | OneIf(r2, 0x8) | OneIf(r3, 0x80) | OneIf(r4, 0x8000) | OneIf(r5, 0x8000_0000)
         | OneIf(r6, 0x8000_0000_0000_0000))
  }

  function SevenShifts(r: bv8): bv8 {
    Shift(Shift(Shift(Shift(Shift(Shift(Shift(r)))))))
  }

  /** The register before round i. */
  function RegisterAt(i: nat): bv8 {
    if i == 0 then 1 else SevenShifts(RegisterAt(i - 1))
  }

  predicate ConstantFits(i: nat)
    requires i < 24
  {
    RoundConstant(i) == ConstantFrom(RegisterAt(i))
  }

  lemma RegisterStep(i: nat, r: bv8)
    requires 0 < i < 24 && RegisterAt(i - 1) == r
    ensures RegisterAt(i) == SevenShifts(r)
  {
  }

  lemma ConstantHolds(i: nat, r: bv8)
    requires i < 24 && RegisterAt(i) == r && RoundConstant(i) == ConstantFrom(r)
    ensures ConstantFits(i)
  {
  }

  lemma Constants0()
    ensures RegisterAt(3) == 0x1a
    ensures forall i: nat :: 0 <= i < 4 ==> ConstantFits(i)
  {
    hide RegisterAt, ConstantFits;
    RegisterStart();
    ConstantHolds(0, 0x01);
    RegisterStep(1, 0x01);
    ConstantHolds(1, 0x80);
    RegisterStep(2, 0x80);
    ConstantHolds(2, 0xd8);
    RegisterStep(3, 0xd8);
    ConstantHolds(3, 0x1a);
  }

  lemma Constants4()
    ensures RegisterAt(7) == 0x4f
    ensures forall i: nat :: 4 <= i < 8 ==> ConstantFits(i)
  {
    hide RegisterAt, ConstantFits;
    Constants0();
    RegisterStep(4, 0x1a);
    ConstantHolds(4, 0xdf);
    RegisterStep(5, 0xdf);
    ConstantHolds(5, 0x09);
    RegisterStep(6, 0x09);
    ConstantHolds(6, 0x35);
    RegisterStep(7, 0x35);
    ConstantHolds(7, 0x4f);
  }

  lemma Constants8()
    ensures RegisterAt(11) == 0xec
    ensures forall i: nat :: 8 <= i < 12 ==> ConstantFits(i)
  {
    hide RegisterAt, ConstantFits;
    Constants4();
    RegisterStep(8, 0x4f);
    ConstantHolds(8, 0xca);
    RegisterStep(9, 0xca);
    ConstantHolds(9, 0x70);
    RegisterStep(10, 0x70);
    ConstantHolds(10, 0x41);
    RegisterStep(11, 0x41);
    ConstantHolds(11, 0xec);
  }

  lemma Constants12()
    ensures RegisterAt(15) == 0xab
    ensures forall i: nat :: 12 <= i < 16 ==> ConstantFits(i)
  {
    hide RegisterAt, ConstantFits;
    Constants8();
    RegisterStep(12, 0xec);
    ConstantHolds(12, 0xd5);
    RegisterStep(13, 0xd5);
    ConstantHolds(13, 0xcd);
    RegisterStep(14, 0xcd);
    ConstantHolds(14, 0x63);
    RegisterStep(15, 0x63);
    ConstantHolds(15, 0xab);
  }

  lemma Constants16()
    ensures RegisterAt(19) == 0xe8
    ensures forall i: nat :: 16 <= i < 20 ==> ConstantFits(i)
  {
    hide RegisterAt, ConstantFits;
    Constants12();
    RegisterStep(16, 0xab);
    ConstantHolds(16, 0xaa);
    RegisterStep(17, 0xaa);
    ConstantHolds(17, 0x2a);
    RegisterStep(18, 0x2a);
    ConstantHolds(18, 0xf2);
    RegisterStep(19, 0xf2);
    ConstantHolds(19, 0xe8);
  }

  lemma Constants20()
    ensures RegisterAt(23) == 0x44
    ensures forall i: nat :: 20 <= i < 24 ==> ConstantFits(i)
  {
    hide RegisterAt, ConstantFits;
    Constants16();
    RegisterStep(20, 0xe8);
    ConstantHolds(20, 0x37);
    RegisterStep(21, 0x37);
    ConstantHolds(21, 0x3e);
    RegisterStep(22, 0x3e);
    ConstantHolds(22, 0x0b);
    RegisterStep(23, 0x0b);
    ConstantHolds(23, 0x44);
  }

  lemma RegisterStart()
    ensures RegisterAt(0) == 1
  {
  }

  /** The table holds the constants that the register generates. */
  lemma ConstantsFromRegister()
    ensures forall i: nat :: i < 24 ==> ConstantFits(i)
  {
    hide ConstantFits;
    Constants0();
    Constants4();
    Constants8();
    Constants12();
    Constants16();
    Constants20();
  }

  // The permutation.

  /** The first n rounds. */
  function Rounds(a: State, n: nat): (r: State)
    requires n <= 24
  {
    if n == 0 then a else Round(Rounds(a, n - 1), RoundConstant(n - 1))
  }

  /** FIPS 202, section 3.3. */
  function KeccakF(a: State): (r: State) {
    Rounds(a, 24)
  }

  /** A lane after theta, rho and pi. */
  function Moved(a: State, i: nat): Lane
    requires i < 25
  {
    var j := PiSource(i);
    Rotated(Xor(a[j], Delta(a, j % 5)), Offset(j))
  }

  lemma MovedLane(a: State, i: nat)
    requires i < 25
    ensures Pi(Rho(Theta(a)))[i] == Moved(a, i)
  {
    hide Xor, Delta, Offset, Rotated, PiSource;
  }

  lemma RoundLane(a: State, rc: Lane, i: nat)
    requires i < 25
    ensures var e := Xor(Moved(a, i), AndNot(Moved(a, Along(i, 1)), Moved(a, Along(i, 2))));
            Round(a, rc)[i] == if i == 0 then Xor(e, rc) else e
  {
    hide Xor, AndNot, Moved, Along, Pi, Rho, Theta;
    MovedLane(a, i);
    MovedLane(a, Along(i, 1));
    MovedLane(a, Along(i, 2));
  }

  lemma MovedAt(a: State, i: nat, j: nat, x: nat, n: Turn)
    requires i < 25 && j < 25 && j == PiSource(i) && x == j % 5 && n == Offset(j)
    ensures Moved(a, i) == Rotated(Xor(a[j], Delta(a, x)), n)
  {
  }

  /** The lanes to the right of those in the row that begins at n. */
  lemma Beside(n: nat)
    requires n == 0 || n == 5 || n == 10 || n == 15 || n == 20
    ensures Along(n, 1) == n + 1 && Along(n, 2) == n + 2
    ensures Along(n + 1, 1) == n + 2 && Along(n + 1, 2) == n + 3
    ensures Along(n + 2, 1) == n + 3 && Along(n + 2, 2) == n + 4
    ensures Along(n + 3, 1) == n + 4 && Along(n + 3, 2) == n
    ensures Along(n + 4, 1) == n && Along(n + 4, 2) == n + 1
  {
  }

  /** Where the lanes of row 0 come from, and how far they rotate. */
  lemma Sources0()
    ensures PiSource(0) == 0 && Offset(0) == 0
    ensures PiSource(1) == 6 && Offset(6) == 44
    ensures PiSource(2) == 12 && Offset(12) == 43
    ensures PiSource(3) == 18 && Offset(18) == 21
    ensures PiSource(4) == 24 && Offset(24) == 14
  {
  }

  /** Row 0 of the next state, as the code computes it. */
  lemma Row0(a: State, rc: Lane)
    ensures var b0, b1 := Xor(a[0], Delta(a, 0)), Rol(Xor(a[6], Delta(a, 1)), 44);
            var b2, b3, b4 := Rol(Xor(a[12], Delta(a, 2)), 43), Rol(Xor(a[18], Delta(a, 3)), 21), Rol(Xor(a[24], Delta(a, 4)), 14);
            && Round(a, rc)[0] == Xor(Xor(b0, AndNot(b1, b2)), rc)
            && Round(a, rc)[1] == Xor(b1, AndNot(b2, b3))
            && Round(a, rc)[2] == Xor(b2, AndNot(b3, b4))
            && Round(a, rc)[3] == Xor(b3, AndNot(b4, b0))
            && Round(a, rc)[4] == Xor(b4, AndNot(b0, b1))
  {
    hide Xor, AndNot, Rol, Delta, Round, Moved, PiSource, Offset, Along;
    Sources0();
    Beside(0);
    MovedAt(a, 0, 0, 0, 0);
    MovedAt(a, 1, 6, 1, 44);
    MovedAt(a, 2, 12, 2, 43);
    MovedAt(a, 3, 18, 3, 21);
    MovedAt(a, 4, 24, 4, 14);
    RoundLane(a, rc, 0);
    RoundLane(a, rc, 1);
    RoundLane(a, rc, 2);
    RoundLane(a, rc, 3);
    RoundLane(a, rc, 4);
  }

  /** Where the lanes of row 1 come from, and how far they rotate. */
  lemma Sources1()
    ensures PiSource(5) == 3 && Offset(3) == 28
    ensures PiSource(6) == 9 && Offset(9) == 20
    ensures PiSource(7) == 10 && Offset(10) == 3
    ensures PiSource(8) == 16 && Offset(16) == 45
    ensures PiSource(9) == 22 && Offset(22) == 61
  {
  }

  /** Row 1 of the next state, as the code computes it. */
  lemma Row1(a: State, rc: Lane)
    ensures var b0, b1 := Rol(Xor(a[3], Delta(a, 3)), 28), Rol(Xor(a[9], Delta(a, 4)), 20);
            var b2, b3, b4 := Rol(Xor(a[10], Delta(a, 0)), 3), Rol(Xor(a[16], Delta(a, 1)), 45), Rol(Xor(a[22], Delta(a, 2)), 61);
            && Round(a, rc)[5] == Xor(b0, AndNot(b1, b2))
            && Round(a, rc)[6] == Xor(b1, AndNot(b2, b3))
            && Round(a, rc)[7] == Xor(b2, AndNot(b3, b4))
            && Round(a, rc)[8] == Xor(b3, AndNot(b4, b0))
            && Round(a, rc)[9] == Xor(b4, AndNot(b0, b1))
  {
    hide Xor, AndNot, Rol, Delta, Round, Moved, PiSource, Offset, Along;
    Sources1();
    Beside(5);
    MovedAt(a, 5, 3, 3, 28);
    MovedAt(a, 6, 9, 4, 20);
    MovedAt(a, 7, 10, 0, 3);
    MovedAt(a, 8, 16, 1, 45);
    MovedAt(a, 9, 22, 2, 61);
    RoundLane(a, rc, 5);
    RoundLane(a, rc, 6);
    RoundLane(a, rc, 7);
    RoundLane(a, rc, 8);
    RoundLane(a, rc, 9);
  }

  /** Where the lanes of row 2 come from, and how far they rotate. */
  lemma Sources2()
    ensures PiSource(10) == 1 && Offset(1) == 1
    ensures PiSource(11) == 7 && Offset(7) == 6
    ensures PiSource(12) == 13 && Offset(13) == 25
    ensures PiSource(13) == 19 && Offset(19) == 8
    ensures PiSource(14) == 20 && Offset(20) == 18
  {
  }

  /** Row 2 of the next state, as the code computes it. */
  lemma Row2(a: State, rc: Lane)
    ensures var b0, b1 := Rol(Xor(a[1], Delta(a, 1)), 1), Rol(Xor(a[7], Delta(a, 2)), 6);
            var b2, b3, b4 := Rol(Xor(a[13], Delta(a, 3)), 25), Rol(Xor(a[19], Delta(a, 4)), 8), Rol(Xor(a[20], Delta(a, 0)), 18);
            && Round(a, rc)[10] == Xor(b0, AndNot(b1, b2))
            && Round(a, rc)[11] == Xor(b1, AndNot(b2, b3))
            && Round(a, rc)[12] == Xor(b2, AndNot(b3, b4))
            && Round(a, rc)[13] == Xor(b3, AndNot(b4, b0))
            && Round(a, rc)[14] == Xor(b4, AndNot(b0, b1))
  {
    hide Xor, AndNot, Rol, Delta, Round, Moved, PiSource, Offset, Along;
    Sources2();
    Beside(10);
    MovedAt(a, 10, 1, 1, 1);
    MovedAt(a, 11, 7, 2, 6);
    MovedAt(a, 12, 13, 3, 25);
    MovedAt(a, 13, 19, 4, 8);
    MovedAt(a, 14, 20, 0, 18);
    RoundLane(a, rc, 10);
    RoundLane(a, rc, 11);
    RoundLane(a, rc, 12);
    RoundLane(a, rc, 13);
    RoundLane(a, rc, 14);
  }

  /** Where the lanes of row 3 come from, and how far they rotate. */
  lemma Sources3()
    ensures PiSource(15) == 4 && Offset(4) == 27
    ensures PiSource(16) == 5 && Offset(5) == 36
    ensures PiSource(17) == 11 && Offset(11) == 10
    ensures PiSource(18) == 17 && Offset(17) == 15
    ensures PiSource(19) == 23 && Offset(23) == 56
  {
  }

  /** Row 3 of the next state, as the code computes it. */
  lemma Row3(a: State, rc: Lane)
    ensures var b0, b1 := Rol(Xor(a[4], Delta(a, 4)), 27), Rol(Xor(a[5], Delta(a, 0)), 36);
            var b2, b3, b4 := Rol(Xor(a[11], Delta(a, 1)), 10), Rol(Xor(a[17], Delta(a, 2)), 15), Rol(Xor(a[23], Delta(a, 3)), 56);
            && Round(a, rc)[15] == Xor(b0, AndNot(b1, b2))
            && Round(a, rc)[16] == Xor(b1, AndNot(b2, b3))
            && Round(a, rc)[17] == Xor(b2, AndNot(b3, b4))
            && Round(a, rc)[18] == Xor(b3, AndNot(b4, b0))
            && Round(a, rc)[19] == Xor(b4, AndNot(b0, b1))
  {
    hide Xor, AndNot, Rol, Delta, Round, Moved, PiSource, Offset, Along;
    Sources3();
    Beside(15);
    MovedAt(a, 15, 4, 4, 27);
    MovedAt(a, 16, 5, 0, 36);
    MovedAt(a, 17, 11, 1, 10);
    MovedAt(a, 18, 17, 2, 15);
    MovedAt(a, 19, 23, 3, 56);
    RoundLane(a, rc, 15);
    RoundLane(a, rc, 16);
    RoundLane(a, rc, 17);
    RoundLane(a, rc, 18);
    RoundLane(a, rc, 19);
  }

  /** Where the lanes of row 4 come from, and how far they rotate. */
  lemma Sources4()
    ensures PiSource(20) == 2 && Offset(2) == 62
    ensures PiSource(21) == 8 && Offset(8) == 55
    ensures PiSource(22) == 14 && Offset(14) == 39
    ensures PiSource(23) == 15 && Offset(15) == 41
    ensures PiSource(24) == 21 && Offset(21) == 2
  {
  }

  /** Row 4 of the next state, as the code computes it. */
  lemma Row4(a: State, rc: Lane)
    ensures var b0, b1 := Rol(Xor(a[2], Delta(a, 2)), 62), Rol(Xor(a[8], Delta(a, 3)), 55);
            var b2, b3, b4 := Rol(Xor(a[14], Delta(a, 4)), 39), Rol(Xor(a[15], Delta(a, 0)), 41), Rol(Xor(a[21], Delta(a, 1)), 2);
            && Round(a, rc)[20] == Xor(b0, AndNot(b1, b2))
            && Round(a, rc)[21] == Xor(b1, AndNot(b2, b3))
            && Round(a, rc)[22] == Xor(b2, AndNot(b3, b4))
            && Round(a, rc)[23] == Xor(b3, AndNot(b4, b0))
            && Round(a, rc)[24] == Xor(b4, AndNot(b0, b1))
  {
    hide Xor, AndNot, Rol, Delta, Round, Moved, PiSource, Offset, Along;
    Sources4();
    Beside(20);
    MovedAt(a, 20, 2, 2, 62);
    MovedAt(a, 21, 8, 3, 55);
    MovedAt(a, 22, 14, 4, 39);
    MovedAt(a, 23, 15, 0, 41);
    MovedAt(a, 24, 21, 1, 2);
    RoundLane(a, rc, 20);
    RoundLane(a, rc, 21);
    RoundLane(a, rc, 22);
    RoundLane(a, rc, 23);
    RoundLane(a, rc, 24);
  }

  /** The deltas from the column parities. */
  lemma DeltaFrom(a: State, bca: Lane, bce: Lane, bci: Lane, bco: Lane, bcu: Lane)
    requires bca == Xor(Xor(Xor(Xor(a[0], a[5]), a[10]), a[15]), a[20])
    requires bce == Xor(Xor(Xor(Xor(a[1], a[6]), a[11]), a[16]), a[21])
    requires bci == Xor(Xor(Xor(Xor(a[2], a[7]), a[12]), a[17]), a[22])
    requires bco == Xor(Xor(Xor(Xor(a[3], a[8]), a[13]), a[18]), a[23])
    requires bcu == Xor(Xor(Xor(Xor(a[4], a[9]), a[14]), a[19]), a[24])
    ensures Delta(a, 0) == Xor(bcu, Rol(bce, 1)) && Delta(a, 1) == Xor(bca, Rol(bci, 1))
    ensures Delta(a, 2) == Xor(bce, Rol(bco, 1)) && Delta(a, 3) == Xor(bci, Rol(bcu, 1))
    ensures Delta(a, 4) == Xor(bco, Rol(bca, 1))
  {
    hide Xor, Rol;
  }

  /** The 25 variables hold the lanes of r. */
  predicate AreLanes(r: State,
                     aba: Lane, abe: Lane, abi: Lane, abo: Lane, abu: Lane,
                     aga: Lane, age: Lane, agi: Lane, ago: Lane, agu: Lane,
                     aka: Lane, ake: Lane, aki: Lane, ako: Lane, aku: Lane,
                     ama: Lane, ame: Lane, ami: Lane, amo: Lane, amu: Lane,
                     asa: Lane, ase: Lane, asi: Lane, aso: Lane, asu: Lane)
  {
    && aba == r[0] && abe == r[1] && abi == r[2] && abo == r[3] && abu == r[4]
    && aga == r[5] && age == r[6] && agi == r[7] && ago == r[8] && agu == r[9]
    && aka == r[10] && ake == r[11] && aki == r[12] && ako == r[13] && aku == r[14]
    && ama == r[15] && ame == r[16] && ami == r[17] && amo == r[18] && amu == r[19]
    && asa == r[20] && ase == r[21] && asi == r[22] && aso == r[23] && asu == r[24]
  }

  /** fips202.c:127-220, the first of the two rounds: from the lanes A to the lanes E. */
  method RoundToE(aba0: Lane, abe0: Lane, abi0: Lane, abo0: Lane, abu0: Lane,
                     aga0: Lane, age0: Lane, agi0: Lane, ago0: Lane, agu0: Lane,
                     aka0: Lane, ake0: Lane, aki0: Lane, ako0: Lane, aku0: Lane,
                     ama0: Lane, ame0: Lane, ami0: Lane, amo0: Lane, amu0: Lane,
                     asa0: Lane, ase0: Lane, asi0: Lane, aso0: Lane, asu0: Lane,
                     rc: Lane, ghost a: State)
    returns (eba: Lane, ebe: Lane, ebi: Lane, ebo: Lane, ebu: Lane,
                     ega: Lane, ege: Lane, egi: Lane, ego: Lane, egu: Lane,
                     eka: Lane, eke: Lane, eki: Lane, eko: Lane, eku: Lane,
                     ema: Lane, eme: Lane, emi: Lane, emo: Lane, emu: Lane,
                     esa: Lane, ese: Lane, esi: Lane, eso: Lane, esu: Lane)
    requires AreLanes(a, aba0, abe0, abi0, abo0, abu0,
                      aga0, age0, agi0, ago0, agu0,
                      aka0, ake0, aki0, ako0, aku0,
                      ama0, ame0, ami0, amo0, amu0,
                      asa0, ase0, asi0, aso0, asu0)
    ensures AreLanes(Round(a, rc), eba, ebe, ebi, ebo, ebu,
                                ega, ege, egi, ego, egu,
                                eka, eke, eki, eko, eku,
                                ema, eme, emi, emo, emu,
                                esa, ese, esi, eso, esu)
  {
    hide Xor, AndNot, Rol, Delta, Round;
    var aba, abe, abi, abo, abu := aba0, abe0, abi0, abo0, abu0;
    var aga, age, agi, ago, agu := aga0, age0, agi0, ago0, agu0;
    var aka, ake, aki, ako, aku := aka0, ake0, aki0, ako0, aku0;
    var ama, ame, ami, amo, amu := ama0, ame0, ami0, amo0, amu0;
    var asa, ase, asi, aso, asu := asa0, ase0, asi0, aso0, asu0;
    var bca, bce, bci, bco, bcu: Lane;
    var da, de, di, do, du: Lane;
    // prepareTheta
    bca := Xor(Xor(Xor(Xor(aba, aga), aka), ama), asa);
    bce := Xor(Xor(Xor(Xor(abe, age), ake), ame), ase);
    bci := Xor(Xor(Xor(Xor(abi, agi), aki), ami), asi);
    bco := Xor(Xor(Xor(Xor(abo, ago), ako), amo), aso);
    bcu := Xor(Xor(Xor(Xor(abu, agu), aku), amu), asu);

    // thetaRhoPiChiIotaPrepareTheta(round, A, E)
    da := Xor(bcu, Rol(bce, 1));
    de := Xor(bca, Rol(bci, 1));
    di := Xor(bce, Rol(bco, 1));
    do := Xor(bci, Rol(bcu, 1));
    du := Xor(bco, Rol(bca, 1));
    DeltaFrom(a, bca, bce, bci, bco, bcu);

    aba := Xor(aba, da); bca := aba;
    age := Xor(age, de); bce := Rol(age, 44);
    aki := Xor(aki, di); bci := Rol(aki, 43);
    amo := Xor(amo, do); bco := Rol(amo, 21);
    asu := Xor(asu, du); bcu := Rol(asu, 14);
    Row0(a, rc);
    eba := Xor(bca, AndNot(bce, bci));
    eba := Xor(eba, rc);
    ebe := Xor(bce, AndNot(bci, bco));
    ebi := Xor(bci, AndNot(bco, bcu));
    ebo := Xor(bco, AndNot(bcu, bca));
    ebu := Xor(bcu, AndNot(bca, bce));

    abo := Xor(abo, do); bca := Rol(abo, 28);
    agu := Xor(agu, du); bce := Rol(agu, 20);
    aka := Xor(aka, da); bci := Rol(aka, 3);
    ame := Xor(ame, de); bco := Rol(ame, 45);
    asi := Xor(asi, di); bcu := Rol(asi, 61);
    Row1(a, rc);
    ega := Xor(bca, AndNot(bce, bci));
    ege := Xor(bce, AndNot(bci, bco));
    egi := Xor(bci, AndNot(bco, bcu));
    ego := Xor(bco, AndNot(bcu, bca));
    egu := Xor(bcu, AndNot(bca, bce));

    abe := Xor(abe, de); bca := Rol(abe, 1);
    agi := Xor(agi, di); bce := Rol(agi, 6);
    ako := Xor(ako, do); bci := Rol(ako, 25);
    amu := Xor(amu, du); bco := Rol(amu, 8);
    asa := Xor(asa, da); bcu := Rol(asa, 18);
    Row2(a, rc);
    eka := Xor(bca, AndNot(bce, bci));
    eke := Xor(bce, AndNot(bci, bco));
    eki := Xor(bci, AndNot(bco, bcu));
    eko := Xor(bco, AndNot(bcu, bca));
    eku := Xor(bcu, AndNot(bca, bce));

    abu := Xor(abu, du); bca := Rol(abu, 27);
    aga := Xor(aga, da); bce := Rol(aga, 36);
    ake := Xor(ake, de); bci := Rol(ake, 10);
    ami := Xor(ami, di); bco := Rol(ami, 15);
    aso := Xor(aso, do); bcu := Rol(aso, 56);
    Row3(a, rc);
    ema := Xor(bca, AndNot(bce, bci));
    eme := Xor(bce, AndNot(bci, bco));
    emi := Xor(bci, AndNot(bco, bcu));
    emo := Xor(bco, AndNot(bcu, bca));
    emu := Xor(bcu, AndNot(bca, bce));

    abi := Xor(abi, di); bca := Rol(abi, 62);
    ago := Xor(ago, do); bce := Rol(ago, 55);
    aku := Xor(aku, du); bci := Rol(aku, 39);
    ama := Xor(ama, da); bco := Rol(ama, 41);
    ase := Xor(ase, de); bcu := Rol(ase, 2);
    Row4(a, rc);
    esa := Xor(bca, AndNot(bce, bci));
    ese := Xor(bce, AndNot(bci, bco));
    esi := Xor(bci, AndNot(bco, bcu));
    eso := Xor(bco, AndNot(bcu, bca));
    esu := Xor(bcu, AndNot(bca, bce));
  }

  /** fips202.c:222-315, the second: from the lanes E back to the lanes A. */
  method RoundToA(eba0: Lane, ebe0: Lane, ebi0: Lane, ebo0: Lane, ebu0: Lane,
                     ega0: Lane, ege0: Lane, egi0: Lane, ego0: Lane, egu0: Lane,
                     eka0: Lane, eke0: Lane, eki0: Lane, eko0: Lane, eku0: Lane,
                     ema0: Lane, eme0: Lane, emi0: Lane, emo0: Lane, emu0: Lane,
                     esa0: Lane, ese0: Lane, esi0: Lane, eso0: Lane, esu0: Lane,
                     rc: Lane, ghost e: State)
    returns (aba: Lane, abe: Lane, abi: Lane, abo: Lane, abu: Lane,
                     aga: Lane, age: Lane, agi: Lane, ago: Lane, agu: Lane,
                     aka: Lane, ake: Lane, aki: Lane, ako: Lane, aku: Lane,
                     ama: Lane, ame: Lane, ami: Lane, amo: Lane, amu: Lane,
                     asa: Lane, ase: Lane, asi: Lane, aso: Lane, asu: Lane)
    requires AreLanes(e, eba0, ebe0, ebi0, ebo0, ebu0,
                      ega0, ege0, egi0, ego0, egu0,
                      eka0, eke0, eki0, eko0, eku0,
                      ema0, eme0, emi0, emo0, emu0,
                      esa0, ese0, esi0, eso0, esu0)
    ensures AreLanes(Round(e, rc), aba, abe, abi, abo, abu,
                                aga, age, agi, ago, agu,
                                aka, ake, aki, ako, aku,
                                ama, ame, ami, amo, amu,
                                asa, ase, asi, aso, asu)
  {
    hide Xor, AndNot, Rol, Delta, Round;
    var eba, ebe, ebi, ebo, ebu := eba0, ebe0, ebi0, ebo0, ebu0;
    var ega, ege, egi, ego, egu := ega0, ege0, egi0, ego0, egu0;
    var eka, eke, eki, eko, eku := eka0, eke0, eki0, eko0, eku0;
    var ema, eme, emi, emo, emu := ema0, eme0, emi0, emo0, emu0;
    var esa, ese, esi, eso, esu := esa0, ese0, esi0, eso0, esu0;
    var bca, bce, bci, bco, bcu: Lane;
    var da, de, di, do, du: Lane;
    // prepareTheta
    bca := Xor(Xor(Xor(Xor(eba, ega), eka), ema), esa);
    bce := Xor(Xor(Xor(Xor(ebe, ege), eke), eme), ese);
    bci := Xor(Xor(Xor(Xor(ebi, egi), eki), emi), esi);
    bco := Xor(Xor(Xor(Xor(ebo, ego), eko), emo), eso);
    bcu := Xor(Xor(Xor(Xor(ebu, egu), eku), emu), esu);

    // thetaRhoPiChiIotaPrepareTheta(round+1, E, A)
    da := Xor(bcu, Rol(bce, 1));
    de := Xor(bca, Rol(bci, 1));
    di := Xor(bce, Rol(bco, 1));
    do := Xor(bci, Rol(bcu, 1));
    du := Xor(bco, Rol(bca, 1));
    DeltaFrom(e, bca, bce, bci, bco, bcu);

    eba := Xor(eba, da); bca := eba;
    ege := Xor(ege, de); bce := Rol(ege, 44);
    eki := Xor(eki, di); bci := Rol(eki, 43);
    emo := Xor(emo, do); bco := Rol(emo, 21);
    esu := Xor(esu, du); bcu := Rol(esu, 14);
    Row0(e, rc);
    aba := Xor(bca, AndNot(bce, bci));
    aba := Xor(aba, rc);
    abe := Xor(bce, AndNot(bci, bco));
    abi := Xor(bci, AndNot(bco, bcu));
    abo := Xor(bco, AndNot(bcu, bca));
    abu := Xor(bcu, AndNot(bca, bce));

    ebo := Xor(ebo, do); bca := Rol(ebo, 28);
    egu := Xor(egu, du); bce := Rol(egu, 20);
    eka := Xor(eka, da); bci := Rol(eka, 3);
    eme := Xor(eme, de); bco := Rol(eme, 45);
    esi := Xor(esi, di); bcu := Rol(esi, 61);
    Row1(e, rc);
    aga := Xor(bca, AndNot(bce, bci));
    age := Xor(bce, AndNot(bci, bco));
    agi := Xor(bci, AndNot(bco, bcu));
    ago := Xor(bco, AndNot(bcu, bca));
    agu := Xor(bcu, AndNot(bca, bce));

    ebe := Xor(ebe, de); bca := Rol(ebe, 1);
    egi := Xor(egi, di); bce := Rol(egi, 6);
    eko := Xor(eko, do); bci := Rol(eko, 25);
    emu := Xor(emu, du); bco := Rol(emu, 8);
    esa := Xor(esa, da); bcu := Rol(esa, 18);
    Row2(e, rc);
    aka := Xor(bca, AndNot(bce, bci));
    ake := Xor(bce, AndNot(bci, bco));
    aki := Xor(bci, AndNot(bco, bcu));
    ako := Xor(bco, AndNot(bcu, bca));
    aku := Xor(bcu, AndNot(bca, bce));

    ebu := Xor(ebu, du); bca := Rol(ebu, 27);
    ega := Xor(ega, da); bce := Rol(ega, 36);
    eke := Xor(eke, de); bci := Rol(eke, 10);
    emi := Xor(emi, di); bco := Rol(emi, 15);
    eso := Xor(eso, do); bcu := Rol(eso, 56);
    Row3(e, rc);
    ama := Xor(bca, AndNot(bce, bci));
    ame := Xor(bce, AndNot(bci, bco));
    ami := Xor(bci, AndNot(bco, bcu));
    amo := Xor(bco, AndNot(bcu, bca));
    amu := Xor(bcu, AndNot(bca, bce));

    ebi := Xor(ebi, di); bca := Rol(ebi, 62);
    ego := Xor(ego, do); bce := Rol(ego, 55);
    eku := Xor(eku, du); bci := Rol(eku, 39);
    ema := Xor(ema, da); bco := Rol(ema, 41);
    ese := Xor(ese, de); bcu := Rol(ese, 2);
    Row4(e, rc);
    asa := Xor(bca, AndNot(bce, bci));
    ase := Xor(bce, AndNot(bci, bco));
    asi := Xor(bci, AndNot(bco, bcu));
    aso := Xor(bco, AndNot(bcu, bca));
    asu := Xor(bcu, AndNot(bca, bce));
  }

  /** fips202.c:82-344 */
  method StatePermute(state: array<Lane>)
    requires state.Length == 25
    modifies state
    ensures state[..] == KeccakF(old(state[..]))
  {
    hide Round, Rounds, RoundConstant, AreLanes;
    ghost var s: State := state[..];
    var aba, abe, abi, abo, abu := state[0], state[1], state[2], state[3], state[4];
    var aga, age, agi, ago, agu := state[5], state[6], state[7], state[8], state[9];
    var aka, ake, aki, ako, aku := state[10], state[11], state[12], state[13], state[14];
    var ama, ame, ami, amo, amu := state[15], state[16], state[17], state[18], state[19];
    var asa, ase, asi, aso, asu := state[20], state[21], state[22], state[23], state[24];
    var eba, ebe, ebi, ebo, ebu: Lane;
    var ega, ege, egi, ego, egu: Lane;
    var eka, eke, eki, eko, eku: Lane;
    var ema, eme, emi, emo, emu: Lane;
    var esa, ese, esi, eso, esu: Lane;
    NoRounds(s);
    LanesRead(s, aba, abe, abi, abo, abu,
              aga, age, agi, ago, agu,
              aka, ake, aki, ako, aku,
              ama, ame, ami, amo, amu,
              asa, ase, asi, aso, asu);
    ghost var r: State := s;
    var round := 0;
    while round < 24
      invariant 0 <= round <= 24 && round % 2 == 0 && r == Rounds(s, round)
      invariant AreLanes(r, aba, abe, abi, abo, abu,
                            aga, age, agi, ago, agu,
                            aka, ake, aki, ako, aku,
                            ama, ame, ami, amo, amu,
                            asa, ase, asi, aso, asu)
    {
      eba, ebe, ebi, ebo, ebu,
      ega, ege, egi, ego, egu,
      eka, eke, eki, eko, eku,
      ema, eme, emi, emo, emu,
      esa, ese, esi, eso, esu :=
        RoundToE(aba, abe, abi, abo, abu,
                 aga, age, agi, ago, agu,
                 aka, ake, aki, ako, aku,
                 ama, ame, ami, amo, amu,
                 asa, ase, asi, aso, asu, RoundConstant(round), r);
      aba, abe, abi, abo, abu,
      aga, age, agi, ago, agu,
      aka, ake, aki, ako, aku,
      ama, ame, ami, amo, amu,
      asa, ase, asi, aso, asu :=
        RoundToA(eba, ebe, ebi, ebo, ebu,
                 ega, ege, egi, ego, egu,
                 eka, eke, eki, eko, eku,
                 ema, eme, emi, emo, emu,
                 esa, ese, esi, eso, esu, RoundConstant(round + 1), Round(r, RoundConstant(round)));
      TwoRounds(s, round);
      r := Round(Round(r, RoundConstant(round)), RoundConstant(round + 1));
      round := round + 2;
    }
    CopyToState(state, aba, abe, abi, abo, abu,
                aga, age, agi, ago, agu,
                aka, ake, aki, ako, aku,
                ama, ame, ami, amo, amu,
                asa, ase, asi, aso, asu, r);
  }

  lemma LanesRead(r: State, aba: Lane, abe: Lane, abi: Lane, abo: Lane, abu: Lane,
                  aga: Lane, age: Lane, agi: Lane, ago: Lane, agu: Lane,
                  aka: Lane, ake: Lane, aki: Lane, ako: Lane, aku: Lane,
                  ama: Lane, ame: Lane, ami: Lane, amo: Lane, amu: Lane,
                  asa: Lane, ase: Lane, asi: Lane, aso: Lane, asu: Lane)
    requires aba == r[0] && abe == r[1] && abi == r[2] && abo == r[3] && abu == r[4]
    requires aga == r[5] && age == r[6] && agi == r[7] && ago == r[8] && agu == r[9]
    requires aka == r[10] && ake == r[11] && aki == r[12] && ako == r[13] && aku == r[14]
    requires ama == r[15] && ame == r[16] && ami == r[17] && amo == r[18] && amu == r[19]
    requires asa == r[20] && ase == r[21] && asi == r[22] && aso == r[23] && asu == r[24]
    ensures AreLanes(r, aba, abe, abi, abo, abu,
                        aga, age, agi, ago, agu,
                        aka, ake, aki, ako, aku,
                        ama, ame, ami, amo, amu,
                        asa, ase, asi, aso, asu)
  {
  }

  /** fips202.c:318-343 */
  method CopyToState(state: array<Lane>,
                     aba: Lane, abe: Lane, abi: Lane, abo: Lane, abu: Lane,
                     aga: Lane, age: Lane, agi: Lane, ago: Lane, agu: Lane,
                     aka: Lane, ake: Lane, aki: Lane, ako: Lane, aku: Lane,
                     ama: Lane, ame: Lane, ami: Lane, amo: Lane, amu: Lane,
                     asa: Lane, ase: Lane, asi: Lane, aso: Lane, asu: Lane, ghost r: State)
    requires state.Length == 25 && AreLanes(r, aba, abe, abi, abo, abu,
                                                aga, age, agi, ago, agu,
                                                aka, ake, aki, ako, aku,
                                                ama, ame, ami, amo, amu,
                                                asa, ase, asi, aso, asu)
    modifies state
    ensures state[..] == r
  {
    StoreRow(state, 0, aba, abe, abi, abo, abu, r);
    StoreRow(state, 1, aga, age, agi, ago, agu, r);
    StoreRow(state, 2, aka, ake, aki, ako, aku, r);
    StoreRow(state, 3, ama, ame, ami, amo, amu, r);
    StoreRow(state, 4, asa, ase, asi, aso, asu, r);
    AllLanes(state[..], r);
  }

  /** fips202.c:319-343, five lanes at a time. */
  method StoreRow(state: array<Lane>, y: nat, a: Lane, e: Lane, i: Lane, o: Lane, u: Lane, ghost r: State)
    requires state.Length == 25 && y < 5
    requires a == r[5 * y] && e == r[5 * y + 1] && i == r[5 * y + 2] && o == r[5 * y + 3] && u == r[5 * y + 4]
    requires state[..5 * y] == r[..5 * y]
    modifies state
    ensures state[..5 * (y + 1)] == r[..5 * (y + 1)]
  {
    state[5 * y], state[5 * y + 1], state[5 * y + 2] := a, e, i;
    state[5 * y + 3], state[5 * y + 4] := o, u;
    forall k | 0 <= k < 5 * y + 5
      ensures state[k] == r[k]
    {
      assert k < 5 * y ==> state[..5 * y][k] == r[..5 * y][k];
      assert k == 5 * y || k == 5 * y + 1 || k == 5 * y + 2 || k == 5 * y + 3 || k == 5 * y + 4 || k < 5 * y;
    }
  }

  lemma AllLanes(s: seq<Lane>, r: State)
    requires |s| == 25 && s[..25] == r[..25]
    ensures s == r
  {
    assert s[..25] == s && r[..25] == r;
  }

  lemma NoRounds(a: State)
    ensures Rounds(a, 0) == a
  {
  }

  lemma TwoRounds(a: State, n: nat)
    requires n <= 22
    ensures Rounds(a, n + 2) == Round(Round(Rounds(a, n), RoundConstant(n)), RoundConstant(n + 1))
  {
    hide Round, RoundConstant;
    assert Rounds(a, n + 2) == Round(Rounds(a, n + 1), RoundConstant(n + 1));
  }
}
