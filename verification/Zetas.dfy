// The twiddle factors of ntt.c, and the tree of roots they describe.
module Zetas {
  import opened IntFacts
  import opened ModQ
  import Reduce

  /** ntt.c:39-56, eight entries a row as in the source. */
  const ROWS: seq<seq<int>> := [
    [-1044, -758, -359, -1517, 1493, 1422, 287, 202],
    [-171, 622, 1577, 182, 962, -1202, -1474, 1468],
    [573, -1325, 264, 383, -829, 1458, -1602, -130],
    [-681, 1017, 732, 608, -1542, 411, -205, -1571],
    [1223, 652, -552, 1015, -1293, 1491, -282, -1544],
    [516, -8, -320, -666, -1618, -1162, 126, 1469],
    [-853, -90, -271, 830, 107, -1421, -247, -951],
    [-398, 961, -1508, -725, 448, -1065, 677, -1275],
    [-1103, 430, 555, 843, -1251, 871, 1550, 105],
    [422, 587, 177, -235, -291, -460, 1574, 1653],
    [-246, 778, 1159, -147, -777, 1483, -602, 1119],
    [-1590, 644, -872, 349, 418, 329, -156, -75],
    [817, 1097, 603, 610, 1322, -1285, -1465, 384],
    [-1215, -136, 1218, -1335, -874, 220, -1187, -1659],
    [-1185, -1530, -1278, 794, -1510, -854, -870, 478],
    [-108, -308, 996, 991, 958, -1460, 1522, 1628]
  ]

  function Table(k: int): (z: int)
    requires 0 <= k < 128
    ensures -(Q - 1) / 2 <= z <= (Q - 1) / 2
  {
    assert forall j :: 0 <= j < 8 ==> -1664 <= ROWS[k / 8][j] <= 1664;
    ROWS[k / 8][k % 8]
  }

  /** Bit reversal of an n-bit number. */
  function BitRev(n: nat, k: nat): nat {
    if n == 0 then 0 else k % 2 * Pow2(n - 1) + BitRev(n - 1, k / 2)
  }

  /** The plain twiddle factor of node k: 17 to the bit reversal of k (FIPS 203, section 4.3). */
  function Zeta(k: nat): int {
    Pow(17, BitRev(7, k)) % Q
  }

  // The table against the formula. Taken in bit-reversed order, the entries of the first column and
  // the entries of each row are geometric sequences with ratios 17 and 17^16 = 2642.

  /** Entry (g, j) is 17^e in Montgomery form. */
  predicate EntryIs(g: nat, j: nat, e: nat)
    requires g < 16 && j < 8
  {
    ROWS[g][j] % Q == (Reduce.R * Pow(17, e)) % Q
  }

  lemma EntryStep(g: nat, j: nat, e: nat, g': nat, j': nat, step: nat)
    requires g < 16 && g' < 16 && j < 8 && j' < 8 && EntryIs(g, j, e)
    requires ROWS[g'][j'] % Q == (Pow(17, step) % Q * ROWS[g][j]) % Q
    ensures EntryIs(g', j', e + step)
  {
    hide Pow;
    var x, y := Pow(17, e), Pow(17, step);
    MulCong(y % Q, y, ROWS[g][j], Reduce.R * x);
    PowAdd(17, e, step);
    MulSwap(y, Reduce.R, x);
  }

  lemma MulSwap(y: int, c: int, x: int)
    ensures y * (c * x) == c * (x * y)
  {
  }

  lemma Power16()
    ensures Pow(17, 16) % Q == 2642
  {
    assert Pow(17, 8) == 6975757441;
    PowAdd(17, 8, 8);
  }

  predicate RowOk(row: seq<int>)
    requires |row| == 8
  {
    && row[4] % Q == (2642 * row[0]) % Q
    && row[2] % Q == (2642 * row[4]) % Q
    && row[6] % Q == (2642 * row[2]) % Q
    && row[1] % Q == (2642 * row[6]) % Q
    && row[5] % Q == (2642 * row[1]) % Q
    && row[3] % Q == (2642 * row[5]) % Q
    && row[7] % Q == (2642 * row[3]) % Q
  }

  lemma Rows0To3(g: nat)
    requires 0 <= g < 4
    ensures RowOk(ROWS[g])
  {
    if g == 0 {
      assert RowOk(ROWS[0]);
    } else if g == 1 {
      assert RowOk(ROWS[1]);
    } else if g == 2 {
      assert RowOk(ROWS[2]);
    } else if g == 3 {
      assert RowOk(ROWS[3]);
    }
  }

  lemma Rows4To7(g: nat)
    requires 4 <= g < 8
    ensures RowOk(ROWS[g])
  {
    if g == 4 {
      assert RowOk(ROWS[4]);
    } else if g == 5 {
      assert RowOk(ROWS[5]);
    } else if g == 6 {
      assert RowOk(ROWS[6]);
    } else if g == 7 {
      assert RowOk(ROWS[7]);
    }
  }

  lemma Rows8To11(g: nat)
    requires 8 <= g < 12
    ensures RowOk(ROWS[g])
  {
    if g == 8 {
      assert RowOk(ROWS[8]);
    } else if g == 9 {
      assert RowOk(ROWS[9]);
    } else if g == 10 {
      assert RowOk(ROWS[10]);
    } else if g == 11 {
      assert RowOk(ROWS[11]);
    }
  }

  lemma Rows12To15(g: nat)
    requires 12 <= g < 16
    ensures RowOk(ROWS[g])
  {
    if g == 12 {
      assert RowOk(ROWS[12]);
    } else if g == 13 {
      assert RowOk(ROWS[13]);
    } else if g == 14 {
      assert RowOk(ROWS[14]);
    } else if g == 15 {
      assert RowOk(ROWS[15]);
    }
  }

  lemma Row(g: nat)
    requires g < 16
    ensures RowOk(ROWS[g])
  {
    hide RowOk;
    if g < 4 {
      Rows0To3(g);
    } else if g < 8 {
      Rows4To7(g);
    } else if g < 12 {
      Rows8To11(g);
    } else {
      Rows12To15(g);
    }
  }

  lemma RowEntries(g: nat, e: nat)
    requires g < 16 && EntryIs(g, 0, e)
    ensures EntryIs(g, 4, e + 16)
    ensures EntryIs(g, 2, e + 32)
    ensures EntryIs(g, 6, e + 48)
    ensures EntryIs(g, 1, e + 64)
    ensures EntryIs(g, 5, e + 80)
    ensures EntryIs(g, 3, e + 96)
    ensures EntryIs(g, 7, e + 112)
  {
    Row(g);
    Power16();
    EntryStep(g, 0, e + 0, g, 4, 16);
    EntryStep(g, 4, e + 16, g, 2, 16);
    EntryStep(g, 2, e + 32, g, 6, 16);
    EntryStep(g, 6, e + 48, g, 1, 16);
    EntryStep(g, 1, e + 64, g, 5, 16);
    EntryStep(g, 5, e + 80, g, 3, 16);
    EntryStep(g, 3, e + 96, g, 7, 16);
  }

  predicate ColumnStep(g: nat, g': nat)
    requires g < 16 && g' < 16
  {
    ROWS[g'][0] % Q == (17 * ROWS[g][0]) % Q
  }

  lemma ColumnSteps()
    ensures ROWS[0][0] == Reduce.MONT
    ensures ColumnStep(0, 8)
    ensures ColumnStep(8, 4)
    ensures ColumnStep(4, 12)
    ensures ColumnStep(12, 2)
    ensures ColumnStep(2, 10)
    ensures ColumnStep(10, 6)
    ensures ColumnStep(6, 14)
    ensures ColumnStep(14, 1)
    ensures ColumnStep(1, 9)
    ensures ColumnStep(9, 5)
    ensures ColumnStep(5, 13)
    ensures ColumnStep(13, 3)
    ensures ColumnStep(3, 11)
    ensures ColumnStep(11, 7)
    ensures ColumnStep(7, 15)
  {
  }

  lemma Columns()
    ensures EntryIs(8, 0, 1)
    ensures EntryIs(4, 0, 2)
    ensures EntryIs(12, 0, 3)
    ensures EntryIs(2, 0, 4)
    ensures EntryIs(10, 0, 5)
    ensures EntryIs(6, 0, 6)
    ensures EntryIs(14, 0, 7)
    ensures EntryIs(1, 0, 8)
    ensures EntryIs(9, 0, 9)
    ensures EntryIs(5, 0, 10)
    ensures EntryIs(13, 0, 11)
    ensures EntryIs(3, 0, 12)
    ensures EntryIs(11, 0, 13)
    ensures EntryIs(7, 0, 14)
    ensures EntryIs(15, 0, 15)
  {
    ColumnSteps();
    assert EntryIs(0, 0, 0);
    assert Pow(17, 1) % Q == 17;
    EntryStep(0, 0, 0, 8, 0, 1);
    EntryStep(8, 0, 1, 4, 0, 1);
    EntryStep(4, 0, 2, 12, 0, 1);
    EntryStep(12, 0, 3, 2, 0, 1);
    EntryStep(2, 0, 4, 10, 0, 1);
    EntryStep(10, 0, 5, 6, 0, 1);
    EntryStep(6, 0, 6, 14, 0, 1);
    EntryStep(14, 0, 7, 1, 0, 1);
    EntryStep(1, 0, 8, 9, 0, 1);
    EntryStep(9, 0, 9, 5, 0, 1);
    EntryStep(5, 0, 10, 13, 0, 1);
    EntryStep(13, 0, 11, 3, 0, 1);
    EntryStep(3, 0, 12, 11, 0, 1);
    EntryStep(11, 0, 13, 7, 0, 1);
    EntryStep(7, 0, 14, 15, 0, 1);
  }

  lemma BitAbove(n: nat, a: nat, r: nat, p: nat)
    requires a < 2 && p == Pow2(n)
    ensures BitRev(n + 1, a + 2 * r) == a * p + BitRev(n, r)
  {
    hide BitRev, Pow2;
    BitRevStep(n, a + 2 * r, p);
    DivUnique(a + 2 * r, 2, r, a);
  }

  /** Four bits, lowest first. */
  lemma BitsReversed(a: nat, b: nat, c: nat, d: nat)
    requires a < 2 && b < 2 && c < 2 && d < 2
    ensures BitRev(4, a + 2 * (b + 2 * (c + 2 * d))) == 8 * a + 4 * b + 2 * c + d
  {
    hide BitRev;
    BitAbove(3, a, b + 2 * (c + 2 * d), 8);
    BitAbove(2, b, c + 2 * d, 4);
    BitAbove(1, c, d, 2);
    BitAbove(0, d, 0, 1);
    BitRevZero(0);
  }

  lemma Column(g: nat)
    requires g < 16
    ensures EntryIs(g, 0, BitRev(4, g))
  {
    hide EntryIs, BitRev;
    Columns();
    EntryZero();
    if g == 0 {
      BitsReversed(0, 0, 0, 0);
    } else if g == 1 {
      BitsReversed(1, 0, 0, 0);
    } else if g == 2 {
      BitsReversed(0, 1, 0, 0);
    } else if g == 3 {
      BitsReversed(1, 1, 0, 0);
    } else if g == 4 {
      BitsReversed(0, 0, 1, 0);
    } else if g == 5 {
      BitsReversed(1, 0, 1, 0);
    } else if g == 6 {
      BitsReversed(0, 1, 1, 0);
    } else if g == 7 {
      BitsReversed(1, 1, 1, 0);
    } else if g == 8 {
      BitsReversed(0, 0, 0, 1);
    } else if g == 9 {
      BitsReversed(1, 0, 0, 1);
    } else if g == 10 {
      BitsReversed(0, 1, 0, 1);
    } else if g == 11 {
      BitsReversed(1, 1, 0, 1);
    } else if g == 12 {
      BitsReversed(0, 0, 1, 1);
    } else if g == 13 {
      BitsReversed(1, 0, 1, 1);
    } else if g == 14 {
      BitsReversed(0, 1, 1, 1);
    } else if g == 15 {
      BitsReversed(1, 1, 1, 1);
    }
  }

  lemma EntryZero()
    ensures EntryIs(0, 0, 0)
  {
  }

  lemma BitRevStep(n: nat, k: nat, p: nat)
    requires p == Pow2(n)
    ensures BitRev(n + 1, k) == k % 2 * p + BitRev(n, k / 2)
  {
  }

  lemma BitRevThree(j: nat)
    requires j < 8
    ensures BitRev(3, j) == 4 * (j % 2) + 2 * (j / 2 % 2) + j / 4
  {
    hide BitRev;
    BitRevStep(2, j, 4);
    BitRevStep(1, j / 2, 2);
    BitRevStep(0, j / 4, 1);
    BitRevZero(j / 8);
  }

  lemma BitRevUpper(k: nat)
    ensures BitRev(7, k) == 64 * (k % 2) + 32 * (k / 2 % 2) + 16 * (k / 4 % 2) + BitRev(4, k / 8)
  {
    hide BitRev;
    BitRevStep(6, k, 64);
    BitRevStep(5, k / 2, 32);
    BitRevStep(4, k / 4, 16);
  }

  lemma BitRevSplit(k: nat)
    ensures BitRev(7, k) == 16 * BitRev(3, k % 8) + BitRev(4, k / 8)
  {
    hide BitRev;
    BitRevUpper(k);
    BitRevThree(k % 8);
    LowBits(k / 8, k % 8);
  }

  lemma LowBits(q: nat, j: nat)
    requires j < 8
    ensures (8 * q + j) % 2 == j % 2 && (8 * q + j) / 2 % 2 == j / 2 % 2 && (8 * q + j) / 4 % 2 == j / 4
  {
    DivUnique(8 * q + j, 2, 4 * q + j / 2, j % 2);
    DivUnique(4 * q + j / 2, 2, 2 * q + j / 4, j / 2 % 2);
    DivUnique(8 * q + j, 4, 2 * q + j / 4, j % 4);
    DivUnique(2 * q + j / 4, 2, q, j / 4);
  }

  lemma BitRevZero(k: nat)
    ensures BitRev(0, k) == 0
  {
  }

  lemma RowEntry(g: nat, j: nat, e: nat)
    requires g < 16 && j < 8 && EntryIs(g, 0, e)
    ensures EntryIs(g, j, e + 16 * BitRev(3, j))
  {
    RowEntries(g, e);
    if j == 0 {
      assert BitRev(3, 0) == 0;
    } else if j == 1 {
      assert BitRev(3, 1) == 4;
    } else if j == 2 {
      assert BitRev(3, 2) == 2;
    } else if j == 3 {
      assert BitRev(3, 3) == 6;
    } else if j == 4 {
      assert BitRev(3, 4) == 1;
    } else if j == 5 {
      assert BitRev(3, 5) == 5;
    } else if j == 6 {
      assert BitRev(3, 6) == 3;
    } else if j == 7 {
      assert BitRev(3, 7) == 7;
    }
  }

  lemma MontgomeryPower(v: int, e: nat)
    requires v % Q == (Reduce.R * Pow(17, e)) % Q
    ensures v % Q == (Reduce.R * (Pow(17, e) % Q)) % Q
  {
    MulCong(Reduce.R, Reduce.R, Pow(17, e), Pow(17, e) % Q);
  }

  /** ntt.c:39-56: entry k of the table is 17^BitRev7(k) times 2^16, modulo q. */
  lemma TableIsPower(k: nat)
    requires k < 128
    ensures Table(k) % Q == (Reduce.R * Zeta(k)) % Q
  {
    hide BitRev, EntryIs, Pow, Table;
    Column(k / 8);
    RowEntry(k / 8, k % 8, BitRev(4, k / 8));
    BitRevSplit(k);
    EntryOfTable(k, BitRev(7, k));
    MontgomeryPower(Table(k), BitRev(7, k));
  }

  lemma EntryOfTable(k: nat, e: nat)
    requires k < 128 && EntryIs(k / 8, k % 8, e)
    ensures Table(k) % Q == (Reduce.R * Pow(17, e)) % Q
  {
    hide Pow;
  }

  // The roots. Node k of the binary tree splits the modulus X^2h - Root(k) into X^h - Zeta(k) and
  // X^h + Zeta(k), the moduli of nodes 2k and 2k + 1.

  function Root(k: nat): int {
    if k <= 1 then -1 else if k % 2 == 0 then Zeta(k / 2) else -Zeta(k / 2)
  }

  lemma {:induction false} BitRevDouble(n: nat, k: nat)
    requires k < Pow2(n)
    ensures BitRev(n + 1, k) == 2 * BitRev(n, k)
  {
    if n != 0 {
      BitRevDouble(n - 1, k / 2);
      BitAbove(n, k % 2, k / 2, Pow2(n));
      BitAbove(n - 1, k % 2, k / 2, Pow2(n - 1));
    }
  }

  lemma BitRevOne()
    ensures BitRev(7, 1) == 64
  {
  }

  /** Descending in the tree halves the exponent; a right child adds a half turn. */
  lemma BitRevChildren(k: nat)
    requires k < 64
    ensures 2 * BitRev(7, 2 * k) == BitRev(7, k)
    ensures 2 * BitRev(7, 2 * k + 1) == BitRev(7, k) + 128
  {
    assert Pow2(6) == 64;
    BitRevDouble(6, k);
    assert 2 * k / 2 == k && (2 * k + 1) / 2 == k;
  }

  lemma PowerDouble(e: nat, v: int)
    requires Pow(17, e) % Q == v % Q
    ensures Pow(17, 2 * e) % Q == (v * v) % Q
  {
    PowAdd(17, e, e);
    MulCong(Pow(17, e), v, Pow(17, e), v);
  }

  lemma PowerEightfold(a: nat)
    requires a == 16
    ensures Pow(17, 8 * a) % Q == Q - 1
  {
    hide Pow;
    Power16();
    PowerDouble(a, 2642);
    PowerDouble(2 * a, 2580);
    PowerDouble(4 * a, 1729);
  }

  /** 17^128 is -1. */
  lemma Power128(e: nat)
    requires e == 128
    ensures Pow(17, e) % Q == Q - 1
  {
    hide Pow;
    PowerEightfold(e / 8);
  }

  /** Adding 128 to the exponent changes the sign. */
  lemma HalfTurn(e: nat, h: nat)
    requires h == 128
    ensures Pow(17, e + h) % Q == (-(Pow(17, e) % Q)) % Q
  {
    hide Pow;
    Power128(h);
    PowAdd(17, e, h);
    MulCong(Pow(17, e), Pow(17, e) % Q, Pow(17, h), -1);
  }

  /** Zeta(k) is a square root of the modulus that node k splits. */
  lemma ZetaSquare(k: nat)
    requires 1 <= k < 128
    ensures (Zeta(k) * Zeta(k)) % Q == Root(k) % Q
  {
    hide Pow, BitRev, Root;
    var e := BitRev(7, k);
    MulMod(Pow(17, e), Pow(17, e));
    PowAdd(17, e, e);
    RootIsPower(k, e + e);
  }

  lemma RootIsPower(k: nat, d: nat)
    requires 1 <= k < 128 && d == 2 * BitRev(7, k)
    ensures Root(k) % Q == Pow(17, d) % Q
  {
    hide Pow, BitRev;
    if k == 1 {
      BitRevOne();
      Power128(d);
    } else if k % 2 == 0 {
      BitRevChildren(k / 2);
    } else {
      BitRevChildren(k / 2);
      HalfTurn(BitRev(7, k / 2), d - BitRev(7, k / 2));
    }
  }

  predicate IsWidth(n: int) {
    n == 1 || n == 2 || n == 4 || n == 8 || n == 16 || n == 32 || n == 64
  }

  lemma {:induction false} BitRevMirror(n: nat, b: nat)
    requires IsWidth(n) && b < n
    ensures BitRev(7, n + b) + BitRev(7, 2 * n - 1 - b) == 128
  {
    hide BitRev;
    if n == 1 {
      BitRevOne();
    } else {
      BitRevMirror(n / 2, b / 2);
      BitRevChildren(n / 2 + b / 2);
      BitRevChildren(n - 1 - b / 2);
    }
  }

  /** In a layer of n blocks the inverse transform meets the mirrored twiddles, which are the negated
      inverses of the ones the forward transform used. */
  lemma ZetaMirror(n: nat, b: nat)
    requires IsWidth(n) && b < n
    ensures (Zeta(n + b) * Zeta(2 * n - 1 - b)) % Q == Q - 1
  {
    var e, e' := BitRev(7, n + b), BitRev(7, 2 * n - 1 - b);
    BitRevMirror(n, b);
    MulMod(Pow(17, e), Pow(17, e'));
    PowAdd(17, e, e');
    Power128(e + e');
  }

  /** The roots of the leaf moduli in section 4.3 of FIPS 203. */
  function LeafPower(p: nat): int {
    Pow(17, 2 * BitRev(7, p) + 1)
  }

  lemma LeafRoot(p: nat)
    requires p < 128
    ensures Root(128 + p) % Q == LeafPower(p) % Q
  {
    hide Pow, BitRev, Root;
    var e := BitRev(7, 64 + p / 2);
    LeafExponent(p);
    RootOfLeaf(p);
    if p % 2 == 1 {
      LeafTurn(e, 128);
    }
  }

  lemma LeafTurn(e: nat, h: nat)
    requires h == 128
    ensures (-(Pow(17, e) % Q)) % Q == Pow(17, h + e) % Q
  {
    hide Pow;
    HalfTurn(e, h);
    assert e + h == h + e;
  }

  lemma RootOfLeaf(p: nat)
    ensures Root(128 + p) == if p % 2 == 0 then Zeta(64 + p / 2) else -Zeta(64 + p / 2)
  {
    hide Zeta;
    assert (128 + p) / 2 == 64 + p / 2;
  }

  lemma LeafExponent(p: nat)
    requires p < 128
    ensures 2 * BitRev(7, p) + 1 == p % 2 * 128 + BitRev(7, 64 + p / 2)
  {
    assert Pow2(6) == 64;
    assert BitRev(7, p) == p % 2 * 64 + BitRev(6, p / 2);
    BitRevHighBit(p / 2);
  }

  lemma {:induction false} BitRevTop(n: nat, k: nat)
    requires k < Pow2(n)
    ensures BitRev(n + 1, Pow2(n) + k) == 2 * BitRev(n, k) + 1
  {
    if n != 0 {
      BitRevTop(n - 1, k / 2);
      TopStep(n, k, Pow2(n - 1));
    }
  }

  lemma TopStep(n: nat, k: nat, p: nat)
    requires n > 0 && p == Pow2(n - 1) && BitRev(n, p + k / 2) == 2 * BitRev(n - 1, k / 2) + 1
    ensures BitRev(n + 1, 2 * p + k) == 2 * BitRev(n, k) + 1
  {
    hide BitRev;
    assert 2 * p == Pow2(n);
    BitAbove(n, k % 2, p + k / 2, 2 * p);
    BitAbove(n - 1, k % 2, k / 2, p);
    if k % 2 == 0 {
      assert k == 2 * (k / 2);
    } else {
      assert k == 2 * (k / 2) + 1;
    }
  }

  lemma BitRevHighBit(k: nat)
    requires k < 64
    ensures BitRev(7, 64 + k) == 2 * BitRev(6, k) + 1
  {
    assert Pow2(6) == 64;
    BitRevTop(6, k);
  }

  /** Every leaf root is a 128th root of -1. */
  lemma LeafRootPower(p: nat, h: nat)
    requires p < 128 && h == 128
    ensures Pow(Root(128 + p), h) % Q == Q - 1
  {
    var e := 2 * BitRev(7, p) + 1;
    LeafRoot(p);
    PowCong(Root(128 + p), Pow(17, e), h);
    PowMul(17, e, h);
    PowMul(17, h, e);
    Power128(h);
    PowCong(Pow(17, h), -1, e);
    PowMinusOne(BitRev(7, p));
    assert e * h == h * e;
  }

  lemma {:induction false} PowMul(b: int, m: nat, n: nat)
    ensures Pow(Pow(b, m), n) == Pow(b, m * n)
  {
    if n != 0 {
      PowMul(b, m, n - 1);
      PowAdd(b, m, m * (n - 1));
      assert m + m * (n - 1) == m * n;
    } else {
      assert m * n == 0;
    }
  }

  lemma PowMinusOne(n: nat)
    ensures Pow(-1, 2 * n + 1) == -1
  {
    PowSquare(-1, n);
    PowOne(n);
  }

  lemma PowOne(n: nat)
    ensures Pow(1, n) == 1
  {
  }
}
