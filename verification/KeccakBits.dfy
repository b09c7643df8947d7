// What the permutation does to each bit, without the operations on lanes that specification and code share.
module KeccakBits {
  import opened Keccak

  function And(a: Lane, b: Lane): Lane {
    Lane(a.w & b.w)
  }

  const ZERO := Lane(0)

  /** The lane with only bit z set. */
  function OnlyBit(z: nat): Lane {
    if z == 0 then Lane(1) else Twice(OnlyBit(z - 1))
  }

  /** Bit z of a lane. */
  function Bit(a: Lane, z: nat): int {
    if And(a, OnlyBit(z)) == ZERO then 0 else 1
  }

  lemma {:induction false} BitOrNothing(x: Lane, z: nat)
    ensures And(x, OnlyBit(z)) == ZERO || And(x, OnlyBit(z)) == OnlyBit(z)
    decreases z
  {
    hide And, Twice, Half;
    if z == 0 {
      LowestBit(x);
    } else {
      BitOrNothing(Half(x), z - 1);
      HigherBit(x, OnlyBit(z - 1));
      TwiceZero();
    }
  }

  lemma LowestBit(x: Lane)
    ensures And(x, Lane(1)) == ZERO || And(x, Lane(1)) == Lane(1)
  {
  }

  lemma HigherBit(x: Lane, m: Lane)
    ensures And(x, Twice(m)) == Twice(And(Half(x), m))
  {
  }

  lemma TwiceZero()
    ensures Twice(ZERO) == ZERO
  {
  }

  lemma Bit63()
    ensures OnlyBit(63) == Lane(0x8000_0000_0000_0000)
  {
    assert OnlyBit(8) == Lane(0x100);
    assert OnlyBit(16) == Lane(0x1_0000);
    assert OnlyBit(24) == Lane(0x100_0000);
    assert OnlyBit(32) == Lane(0x1_0000_0000);
    assert OnlyBit(40) == Lane(0x100_0000_0000);
    assert OnlyBit(48) == Lane(0x1_0000_0000_0000);
    assert OnlyBit(56) == Lane(0x100_0000_0000_0000);
  }

  lemma {:induction false} ZeroStays(z: nat, k: nat)
    requires OnlyBit(z) == ZERO
    ensures OnlyBit(z + k) == ZERO
  {
    hide Twice;
    if k != 0 {
      ZeroStays(z, k - 1);
      TwiceZero();
    }
  }

  lemma NotZero(z: nat)
    requires z < 64
    ensures OnlyBit(z) != ZERO
  {
    hide OnlyBit;
    Bit63();
    if OnlyBit(z) == ZERO {
      ZeroStays(z, 63 - z);
    }
  }

  lemma BitXor(a: Lane, b: Lane, z: nat)
    requires z < 64
    ensures Bit(Xor(a, b), z) == (Bit(a, z) + Bit(b, z)) % 2
  {
    hide And, OnlyBit, Xor;
    var m := OnlyBit(z);
    NotZero(z);
    BitOrNothing(a, z);
    BitOrNothing(b, z);
    MaskXor(a, b, m);
    XorCases(m);
  }

  // A lane is determined by its bits.

  function LowOnes(n: nat): Lane {
    if n == 0 then ZERO else Xor(LowOnes(n - 1), OnlyBit(n - 1))
  }

  lemma AllOnes()
    ensures LowOnes(64) == Lane(0xffff_ffff_ffff_ffff)
  {
    assert LowOnes(8) == Lane(0xff);
    assert LowOnes(16) == Lane(0xffff);
    assert LowOnes(24) == Lane(0xff_ffff);
    assert LowOnes(32) == Lane(0xffff_ffff);
    assert LowOnes(40) == Lane(0xff_ffff_ffff);
    assert LowOnes(48) == Lane(0xffff_ffff_ffff);
    assert LowOnes(56) == Lane(0xff_ffff_ffff_ffff);
  }

  lemma {:induction false} NoLowBits(a: Lane, n: nat)
    requires forall z: nat :: z < n ==> Bit(a, z) == 0
    ensures And(a, LowOnes(n)) == ZERO
  {
    hide And, OnlyBit, Xor;
    if n == 0 {
      AndZero(a);
    } else {
      NoLowBits(a, n - 1);
      assert Bit(a, n - 1) == 0;
      AndXor(a, LowOnes(n - 1), OnlyBit(n - 1));
      XorWithZero(ZERO);
    }
  }

  lemma AndZero(a: Lane)
    ensures And(a, ZERO) == ZERO
  {
  }

  lemma AndXor(a: Lane, x: Lane, y: Lane)
    ensures And(a, Xor(x, y)) == Xor(And(a, x), And(a, y))
  {
  }

  lemma BitsDetermine(a: Lane, b: Lane)
    requires forall z: nat :: z < 64 ==> Bit(a, z) == Bit(b, z)
    ensures a == b
  {
    hide Bit, Xor, And, LowOnes;
    forall z: nat | z < 64
      ensures Bit(Xor(a, b), z) == 0
    {
      BitXor(a, b, z);
      BitRange(b, z);
    }
    NoLowBits(Xor(a, b), 64);
    AllOnes();
    NoDifference(a, b);
  }

  lemma NoDifference(a: Lane, b: Lane)
    requires And(Xor(a, b), Lane(0xffff_ffff_ffff_ffff)) == ZERO
    ensures a == b
  {
  }

  lemma MaskXor(x: Lane, y: Lane, m: Lane)
    ensures And(Xor(x, y), m) == Xor(And(x, m), And(y, m))
  {
  }

  lemma XorCases(m: Lane)
    ensures Xor(ZERO, ZERO) == ZERO && Xor(ZERO, m) == m && Xor(m, ZERO) == m && Xor(m, m) == ZERO
  {
    hide Xor;
    XorWithZero(ZERO);
    XorWithZero(m);
    XorSelf(m);
  }

  lemma XorWithZero(m: Lane)
    ensures Xor(ZERO, m) == m && Xor(m, ZERO) == m
  {
  }

  lemma XorSelf(m: Lane)
    ensures Xor(m, m) == ZERO
  {
  }

  lemma BitAndNot(a: Lane, b: Lane, z: nat)
    requires z < 64
    ensures Bit(AndNot(a, b), z) == (1 - Bit(a, z)) * Bit(b, z)
  {
    hide And, OnlyBit, AndNot;
    var m := OnlyBit(z);
    NotZero(z);
    BitOrNothing(a, z);
    BitOrNothing(b, z);
    MaskAndNot(a, b, m);
    AndNotOnce(ZERO);
    AndNotOnce(m);
  }

  lemma MaskAndNot(x: Lane, y: Lane, m: Lane)
    ensures And(AndNot(x, y), m) == AndNot(And(x, m), And(y, m))
  {
  }

  lemma AndNotOnce(m: Lane)
    ensures AndNot(ZERO, m) == m && AndNot(m, ZERO) == ZERO && AndNot(m, m) == ZERO
  {
    hide AndNot;
    AndNotZero(m);
    AndNotSelf(m);
  }

  lemma AndNotZero(m: Lane)
    ensures AndNot(ZERO, m) == m && AndNot(m, ZERO) == ZERO
  {
  }

  lemma AndNotSelf(m: Lane)
    ensures AndNot(m, m) == ZERO
  {
  }

  lemma BitOfTwice(a: Lane, z: nat)
    requires z < 64
    ensures Bit(Twice(a), z) == if z == 0 then 0 else Bit(a, z - 1)
  {
    hide And, Twice, Half;
    if z == 0 {
      LowestOfTwice(a);
    } else {
      var m := OnlyBit(z - 1);
      TwiceAnd(a, m);
      TwiceZero();
      NotZero(z);
      BitOrNothing(a, z - 1);
    }
  }

  lemma LowestOfTwice(a: Lane)
    ensures And(Twice(a), Lane(1)) == ZERO
  {
  }

  lemma TwiceAnd(a: Lane, m: Lane)
    ensures And(Twice(a), Twice(m)) == Twice(And(a, m))
  {
  }

  lemma BitOfHalf(a: Lane, z: nat)
    requires z < 64
    ensures Bit(Half(a), z) == if z == 63 then 0 else Bit(a, z + 1)
  {
    hide And, Twice, Half;
    if z == 63 {
      Bit63();
      hide OnlyBit;
      HighestOfHalf(a);
    } else {
      var m := OnlyBit(z);
      HigherBit(a, m);
      TwiceZero();
      NotZero(z + 1);
      BitOrNothing(Half(a), z);
    }
  }

  lemma HighestOfHalf(a: Lane)
    ensures And(Half(a), Lane(0x8000_0000_0000_0000)) == ZERO
  {
  }

  lemma {:induction false} BitOfShiftUp(a: Lane, n: nat, z: nat)
    requires z < 64
    ensures Bit(ShiftUp(a, n), z) == if z >= n then Bit(a, z - n) else 0
    decreases n
  {
    hide Bit, Twice;
    if n != 0 {
      BitOfTwice(ShiftUp(a, n - 1), z);
      if z > 0 {
        BitOfShiftUp(a, n - 1, z - 1);
      }
    }
  }

  lemma {:induction false} BitOfShiftDown(a: Lane, n: nat, z: nat)
    requires z < 64
    ensures Bit(ShiftDown(a, n), z) == if z + n < 64 then Bit(a, z + n) else 0
    decreases n
  {
    hide Bit, Half;
    if n != 0 {
      BitOfHalf(ShiftDown(a, n - 1), z);
      if z < 63 {
        BitOfShiftDown(a, n - 1, z + 1);
      }
    }
  }

  lemma BitRange(a: Lane, z: nat)
    ensures Bit(a, z) == 0 || Bit(a, z) == 1
  {
  }

  /** A rotation by n moves bit z to bit z + n, cyclically. */
  lemma BitRol(a: Lane, n: Turn, z: nat)
    requires z < 64
    ensures Bit(Rol(a, n), (z + n) % 64) == Bit(a, z)
  {
    hide Bit, ShiftUp, ShiftDown, Xor;
    var p := (z + n) % 64;
    BitXor(ShiftUp(a, n), ShiftDown(a, 64 - n), p);
    BitOfShiftUp(a, n, p);
    BitOfShiftDown(a, 64 - n, p);
    BitRange(a, z);
  }

  lemma {:induction false} OnlyBitShifted(z: nat, n: nat)
    ensures ShiftUp(OnlyBit(z), n) == OnlyBit(z + n)
  {
    hide Twice;
    if n != 0 {
      OnlyBitShifted(z, n - 1);
    }
  }

  lemma BitAnd(a: Lane, b: Lane, z: nat)
    requires z < 64
    ensures Bit(And(a, b), z) == Bit(a, z) * Bit(b, z)
  {
    hide And, OnlyBit;
    var m := OnlyBit(z);
    NotZero(z);
    BitOrNothing(a, z);
    BitOrNothing(b, z);
    MaskAnd(a, b, m);
    AndSelf(m);
    AndZero(ZERO);
    AndZero(m);
  }

  lemma MaskAnd(a: Lane, b: Lane, m: Lane)
    ensures And(And(a, b), m) == And(And(a, m), And(b, m)) && And(ZERO, m) == And(m, ZERO)
  {
  }

  lemma AndSelf(m: Lane)
    ensures And(m, m) == m
  {
  }

  // The step mappings of section 3.2 of FIPS 202, bit by bit. Lane (x, y) is number x + 5y.

  /** The bits of column (x, z), added up. */
  function ColumnSum(a: State, x: nat, z: nat): int
    requires x < 5
  {
    Bit(a[x], z) + Bit(a[x + 5], z) + Bit(a[x + 10], z) + Bit(a[x + 15], z) + Bit(a[x + 20], z)
  }

  lemma ParityBit(a: State, x: nat, z: nat)
    requires x < 5 && z < 64
    ensures Bit(ColumnParity(a, x), z) == ColumnSum(a, x, z) % 2
  {
    hide Bit, Xor;
    BitXor(a[x], a[x + 5], z);
    BitXor(Xor(a[x], a[x + 5]), a[x + 10], z);
    BitXor(Xor(Xor(a[x], a[x + 5]), a[x + 10]), a[x + 15], z);
    BitXor(Xor(Xor(Xor(a[x], a[x + 5]), a[x + 10]), a[x + 15]), a[x + 20], z);
  }

  lemma DeltaBit(a: State, x: nat, z: nat)
    requires x < 5 && z < 64
    ensures Bit(Delta(a, x), z) == (ColumnSum(a, (x + 4) % 5, z) % 2 + ColumnSum(a, (x + 1) % 5, (z + 63) % 64) % 2) % 2
  {
    hide Bit, Xor, Rol, ColumnParity, ColumnSum;
    var l, r, s := (x + 4) % 5, (x + 1) % 5, (z + 63) % 64;
    ParityBit(a, l, z);
    ParityBit(a, r, s);
    BitRol(ColumnParity(a, r), 1, s);
    BitXor(ColumnParity(a, l), Rol(ColumnParity(a, r), 1), z);
  }

  lemma SumModTwo(p: int, s: int, t: int)
    ensures (p + (s % 2 + t % 2) % 2) % 2 == (p + s + t) % 2
  {
  }

  lemma LaneNumber(x: nat, y: nat)
    requires x < 5
    ensures (x + 5 * y) % 5 == x && (x + 5 * y) / 5 == y
  {
  }

  /** Theta adds the column to the left, and the column to the right and one bit below. */
  lemma ThetaBit(a: State, x: nat, y: nat, z: nat)
    requires x < 5 && y < 5 && z < 64
    ensures Bit(Theta(a)[x + 5 * y], z) ==
              (Bit(a[x + 5 * y], z) + ColumnSum(a, (x + 4) % 5, z) + ColumnSum(a, (x + 1) % 5, (z + 63) % 64)) % 2
  {
    hide Bit, Xor, ColumnSum, Delta;
    LaneNumber(x, y);
    DeltaBit(a, x, z);
    BitXor(a[x + 5 * y], Delta(a, x), z);
    SumModTwo(Bit(a[x + 5 * y], z), ColumnSum(a, (x + 4) % 5, z), ColumnSum(a, (x + 1) % 5, (z + 63) % 64));
  }

  /** Rho and pi move the bits of lane (x + 3y, x) to lane (x, y), turned by the offset of the lane they come from. */
  lemma RhoPiBit(a: State, x: nat, y: nat, z: nat)
    requires x < 5 && y < 5 && z < 64
    ensures var j := (x + 3 * y) % 5 + 5 * x;
            Bit(Pi(Rho(a))[x + 5 * y], (z + Offset(j)) % 64) == Bit(a[j], z)
  {
    hide Bit, Rol, Offset;
    LaneNumber(x, y);
    var j := (x + 3 * y) % 5 + 5 * x;
    BitRol(a[j], Offset(j), z);
  }

  /** Chi adds to a bit the product of the complement of the next bit in the row and the one after it. */
  lemma ChiBit(a: State, x: nat, y: nat, z: nat)
    requires x < 5 && y < 5 && z < 64
    ensures Bit(Chi(a)[x + 5 * y], z) ==
              (Bit(a[x + 5 * y], z) + (1 - Bit(a[(x + 1) % 5 + 5 * y], z)) * Bit(a[(x + 2) % 5 + 5 * y], z)) % 2
  {
    hide Bit, Xor, AndNot;
    var p, q := (x + 1) % 5 + 5 * y, (x + 2) % 5 + 5 * y;
    LaneNumber(x, y);
    assert Along(x + 5 * y, 1) == p && Along(x + 5 * y, 2) == q;
    BitAndNot(a[p], a[q], z);
    BitXor(a[x + 5 * y], AndNot(a[p], a[q]), z);
  }

  /** Iota changes lane (0, 0) where the constant has a one. */
  lemma IotaBit(a: State, rc: Lane, i: nat, z: nat)
    requires i < 25 && z < 64
    ensures Bit(Iota(a, rc)[i], z) == if i == 0 then (Bit(a[0], z) + Bit(rc, z)) % 2 else Bit(a[i], z)
  {
    hide Bit, Xor;
    BitXor(a[0], rc, z);
  }

  /** One round, as the four mappings one after the other; `RoundToE` and `RoundToA` are the code. */
  lemma RoundBit(a: State, rc: Lane, x: nat, y: nat, z: nat)
    requires x < 5 && y < 5 && z < 64
    ensures var b := Pi(Rho(Theta(a)));
            Bit(Round(a, rc)[x + 5 * y], z) ==
              (Bit(b[x + 5 * y], z) + (1 - Bit(b[(x + 1) % 5 + 5 * y], z)) * Bit(b[(x + 2) % 5 + 5 * y], z)
               + if x + 5 * y == 0 then Bit(rc, z) else 0) % 2
  {
    hide Bit, Xor, Theta, Rho, Pi, Chi;
    var b := Pi(Rho(Theta(a)));
    ChiBit(b, x, y, z);
    IotaBit(Chi(b), rc, x + 5 * y, z);
  }
}
