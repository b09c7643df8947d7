// ntt.c: the in-place transforms over int16 arrays, in Montgomery arithmetic.
module NttCode {
  import opened IntFacts
  import opened MachineInts
  import opened ModQ
  import opened Reduce
  import opened Zetas
  import opened NttSpec

  /** All entries lie in [-bound, bound]. */
  predicate Within(s: seq<int>, bound: int) {
    forall i :: 0 <= i < |s| ==> -bound <= s[i] <= bound
  }

  /** A table entry times any int16 is reduced into (-q, q), and the factor R of the table cancels. */
  lemma TwiddleProduct(k: nat, y: int16)
    requires k < 128
    ensures -Q < FqMul(Table(k), y) < Q
    ensures FqMul(Table(k), y) % Q == (Zeta(k) * y) % Q
  {
    MulRange(Table(k), y, 1664, 0x8000);
    TableIsPower(k);
    MontgomeryFactor(Table(k), Zeta(k), y);
  }

  /** If a is R times z, then a*y/R is z*y. */
  lemma MontgomeryFactor(a: int, z: int, y: int)
    requires a % Q == (R * z) % Q
    ensures (a * y * RINV) % Q == (z * y) % Q
  {
    MulCong(a, R * z, y, y);
    MulCong(a * y, R * z * y, RINV, RINV);
    assert R * z * y * RINV == R * RINV * (z * y);
    MulCong(R * RINV, 1, z * y, z * y);
  }

  lemma PlusMinusCong(x: int, t: int, z: int, y: int)
    requires t % Q == (z * y) % Q
    ensures (x + t) % Q == Plus(x % Q, z, y % Q)
    ensures (x - t) % Q == Minus(x % Q, z, y % Q)
  {
    MulCong(z, z, y, y % Q);
    AddCong(x, x % Q, t, z * (y % Q));
  }

  /** The array entry x holds the residue v and is bounded. */
  predicate Stores(x: int, v: int, bound: int) {
    x % Q == v && -bound <= x <= bound
  }

  /** The size of a twiddle times a value up to b. */
  function Reach(b: int): int {
    ((Q - 1) / 2 * b + Q * 0x8000) / R
  }

  /** One stage turns values up to b into values up to this. */
  function Grown(b: int): int {
    b + Reach(b)
  }

  /** The sum and the difference of a pair are bounded. */
  predicate PairWithin(x: int, y: int, sum: int, difference: int) {
    -sum <= x + y <= sum && -difference <= y - x <= difference
  }

  /** Position i and the position it is combined with form such a pair. */
  predicate PairAt(len: int, s: seq<int>, i: int, sum: int, difference: int) {
    0 <= i && i + len < |s| && 0 <= len ==> PairWithin(s[i], s[i + len], sum, difference)
  }

  lemma ReachOfTwiddle(k: nat, y: int16, bound: int)
    requires k < 128 && -bound <= y <= bound
    ensures -Reach(bound) <= FqMul(Table(k), y) <= Reach(bound)
  {
    hide FqMul;
    FqMulSize(Table(k), y, (Q - 1) / 2, bound, Reach(bound));
  }

  /** One Cooley-Tukey butterfly on int16 values: no sum leaves the type, and the residues are those of the plain
      butterfly. */
  lemma ForwardButterfly(k: nat, x: int16, y: int16, bound: int)
    requires k < 128 && -bound <= x <= bound && -bound <= y <= bound && Grown(bound) < 0x8000
    ensures var t := FqMul(Table(k), y);
            && -0x8000 <= x + t < 0x8000 && -0x8000 <= x - t < 0x8000
            && Stores(x + t, Plus(x % Q, Zeta(k), y % Q), Grown(bound))
            && Stores(x - t, Minus(x % Q, Zeta(k), y % Q), Grown(bound))
            && PairWithin(x + t, x - t, 2 * bound, 2 * Reach(bound))
  {
    hide Zeta, Table, FqMul, Reach;
    TwiddleProduct(k, y);
    ReachOfTwiddle(k, y, bound);
    PlusMinusCong(x, FqMul(Table(k), y), Zeta(k), y);
  }

  /** Block b of a stage starts at 2*len*b and lies inside the array. */
  lemma BlockStart(len: int, b: int)
    requires IsLen(len) && 0 <= b && 2 * len * b < 256
    ensures b < 128 / len && 2 * len * b + 2 * len <= 256 && 2 * len * (b + 1) == 2 * len * b + 2 * len
  {
    var d, n := 2 * len, 128 / len;
    assert d * n == 256;
    assert d * (b - n + 1) == d * b - d * n + d && d * (n - b - 1) == d * n - d * b - d;
    if b >= n {
      MulAtLeast(d, b - n + 1);
    } else {
      assert d * (n - b - 1) >= 0;
    }
  }

  /** The block at `start` is the one that uses twiddle k. */
  predicate BlockAt(len: int, k: int, start: int) {
    && IsLen(len)
    && 128 / len <= k < 256 / len
    && start == 2 * len * (k - 128 / len)
    && 0 <= start <= 256 - 2 * len
  }

  lemma BlockButterfly(len: int, f: seq<int>, k: nat, start: int, j: int)
    requires |f| == 256 && BlockAt(len, k, start) && start <= j < start + len
    ensures j + len < 256 && k < 128
    ensures ButterflyAt(len, f, j) == Plus(f[j], Zeta(k), f[j + len])
    ensures ButterflyAt(len, f, j + len) == Minus(f[j], Zeta(k), f[j + len])
  {
    hide Zeta, IsLen;
    var d, b := 2 * len, k - 128 / len;
    DivUnique(j, d, b, j - start);
    DivUnique(j + len, d, b, j + len - start);
    BlockIndex(len, j);
  }

  /** What one step of the inner loop stores. */
  lemma StoredPair(len: int, f: seq<int>, k: nat, start: int, j: int, x: int16, y: int16, bound: int)
    requires |f| == 256 && BlockAt(len, k, start) && start <= j < start + len
    requires j + len < 256 && f[j] == x % Q && f[j + len] == y % Q
    requires -bound <= x <= bound && -bound <= y <= bound && Grown(bound) < 0x8000
    ensures k < 128
    ensures var t := FqMul(Table(k), y);
            && -0x8000 <= x + t < 0x8000 && -0x8000 <= x - t < 0x8000
            && Stores(x - t, ButterflyAt(len, f, j + len), Grown(bound))
            && Stores(x + t, ButterflyAt(len, f, j), Grown(bound))
            && PairWithin(x + t, x - t, 2 * bound, 2 * Reach(bound))
  {
    hide *;
    BlockButterfly(len, f, k, start, j);
    ForwardButterfly(k, x, y, bound);
  }

  /** What position i of a block holds after its butterfly. */
  function Crossed(s: seq<int16>, k: nat, len: int, start: int, i: int): int
    requires |s| == 256 && k < 128 && 0 <= start <= 256 - 2 * len && start <= i < start + 2 * len
  {
    if i < start + len then s[i] + FqMul(Table(k), s[i + len]) else s[i - len] - FqMul(Table(k), s[i])
  }

  lemma CrossedPair(s: seq<int16>, k: nat, len: int, start: int, j: int)
    requires |s| == 256 && k < 128 && 0 <= start <= 256 - 2 * len && start <= j < start + len
    ensures Crossed(s, k, len, start, j) == s[j] + FqMul(Table(k), s[j + len])
    ensures Crossed(s, k, len, start, j + len) == s[j] - FqMul(Table(k), s[j + len])
  {
  }

  lemma SumsFit(k: nat, x: int16, y: int16, bound: int)
    requires k < 128 && -bound <= x <= bound && -bound <= y <= bound && Grown(bound) < 0x8000
    ensures -0x8000 <= x + FqMul(Table(k), y) < 0x8000 && -0x8000 <= x - FqMul(Table(k), y) < 0x8000
  {
    hide *;
    ForwardButterfly(k, x, y, bound);
  }

  /** ntt.c:88-92: the butterflies of one block. The sums and differences are int16 values as they stand. */
  method NttBlock(r: array<int16>, len: int, k: nat, start: int, ghost bound: int)
    requires r.Length == 256 && k < 128 && IsLen(len) && 0 <= start <= 256 - 2 * len && BlockAt(len, k, start)
    requires Grown(bound) < 0x8000
    requires forall i :: start <= i < start + 2 * len ==> -bound <= r[i] <= bound
    modifies r
    ensures forall i :: 0 <= i < start || start + 2 * len <= i < 256 ==> r[i] == old(r[i])
    ensures forall i :: start <= i < start + 2 * len ==> r[i] == Crossed(old(r[..]), k, len, start, i)
  {
    ghost var s := r[..];
    hide *;
    var zeta := Table(k);
    var j := start;
    while j < start + len
      invariant start <= j <= start + len
      invariant forall i :: start <= i < j || start + len <= i < j + len ==> r[i] == Crossed(s, k, len, start, i)
      invariant forall i :: 0 <= i < start || j <= i < start + len || j + len <= i < 256 ==> r[i] == s[i]
    {
      SumsFit(k, r[j], r[j + len], bound);
      CrossedPair(s, k, len, start, j);
      var t := FqMul(zeta, r[j + len]);
      r[j + len] := r[j] - t;
      r[j] := r[j] + t;
      j := j + 1;
    }
  }

  /** What that means: the plain butterflies on the residues, and bounds on the values and on the pairs. */
  lemma CrossedBlock(s: seq<int16>, t: seq<int16>, k: nat, len: int, start: int, bound: int)
    requires |s| == |t| == 256 && k < 128 && IsLen(len) && 0 <= start <= 256 - 2 * len && BlockAt(len, k, start)
    requires Grown(bound) < 0x8000 && forall i :: start <= i < start + 2 * len ==> -bound <= s[i] <= bound
    requires forall i :: start <= i < start + 2 * len ==> t[i] == Crossed(s, k, len, start, i)
    ensures forall i :: start <= i < start + 2 * len ==> Stores(t[i], ButterflyAt(len, Canon(s), i), Grown(bound))
    ensures forall i :: start <= i < start + len ==> PairAt(len, t, i, 2 * bound, 2 * Reach(bound))
  {
    hide Crossed, Stores, ButterflyAt, Grown, Reach, PairAt, Canon, BlockAt, IsLen;
    forall i | start <= i < start + 2 * len
      ensures Stores(t[i], ButterflyAt(len, Canon(s), i), Grown(bound))
      ensures i < start + len ==> PairAt(len, t, i, 2 * bound, 2 * Reach(bound))
    {
      var j := if i < start + len then i else i - len;
      CrossedAt(s, t, k, len, start, bound, j);
    }
  }

  lemma CrossedAt(s: seq<int16>, t: seq<int16>, k: nat, len: int, start: int, bound: int, j: int)
    requires |s| == |t| == 256 && k < 128 && IsLen(len) && 0 <= start <= 256 - 2 * len && BlockAt(len, k, start)
    requires start <= j < start + len && -bound <= s[j] <= bound && -bound <= s[j + len] <= bound
    requires Grown(bound) < 0x8000 && t[j] == Crossed(s, k, len, start, j)
    requires t[j + len] == Crossed(s, k, len, start, j + len)
    ensures Stores(t[j], ButterflyAt(len, Canon(s), j), Grown(bound))
    ensures Stores(t[j + len], ButterflyAt(len, Canon(s), j + len), Grown(bound))
    ensures PairAt(len, t, j, 2 * bound, 2 * Reach(bound))
  {
    hide FqMul, Table, Stores, ButterflyAt, BlockAt, PairWithin, Reach, Grown, Canon, Crossed;
    StoredPair(len, Canon(s), k, start, j, s[j], s[j + len], bound);
    CrossedPair(s, k, len, start, j);
  }

  lemma FirstBlock(len: int)
    requires IsLen(len)
    ensures BlockAt(len, 128 / len, 0) && 0 <= 128 / len < 128
  {
  }

  /** The block after block k, if there is one. */
  lemma NextBlock(len: int, k: int, start: int)
    requires BlockAt(len, k, start)
    ensures k < 128
    ensures start + 2 * len < 256 ==> BlockAt(len, k + 1, start + 2 * len)
    ensures start + 2 * len >= 256 ==> start + 2 * len == 256 && k + 1 == 256 / len
  {
    var d, n, b := 2 * len, 128 / len, k - 128 / len;
    assert d * n == 256 && 256 / len == 2 * n;
    assert d * (b + 1) == start + d;
    BlockStart(len, b);
    if start + d < 256 {
      BlockStart(len, b + 1);
    } else {
      SameDigits(d, b + 1, n, 0, 0);
    }
  }

  /** Position j comes first in its butterfly. */
  predicate First(len: int, j: int)
    requires len > 0
  {
    j % (2 * len) < len
  }

  /** The sums and differences over the butterflies of a stage are bounded. */
  predicate PairsWithin(len: int, s: seq<int>, sum: int, difference: int)
    requires len > 0
  {
    forall j :: 0 <= j < |s| && First(len, j) ==> PairAt(len, s, j, sum, difference)
  }

  /** The positions that come first lie in the first half of their block. */
  lemma FirstInBlock(len: int, k: int, start: int, j: int)
    requires BlockAt(len, k, start) && start <= j < start + 2 * len
    ensures First(len, j) <==> j < start + len
  {
    DivUnique(j, 2 * len, k - 128 / len, j - start);
  }

  /** ntt.c:86-94: one stage, block after block, each with the next twiddle of the table. */
  method NttStage(r: array<int16>, len: int, k0: nat, ghost bound: int) returns (k: nat)
    requires r.Length == 256 && IsLen(len) && k0 == 128 / len
    requires Grown(bound) < 0x8000 && Within(r[..], bound)
    modifies r
    ensures k == 256 / len
    ensures Canon(r[..]) == Layer(len, Canon(old(r[..])))
    ensures Within(r[..], Grown(bound)) && PairsWithin(len, r[..], 2 * bound, 2 * Reach(bound))
  {
    ghost var s := r[..];
    ghost var f := Canon(s);
    assert 256 / len == 2 * (128 / len);
    k := k0;
    var start := 0;
    FirstBlock(len);
    hide Stores, ButterflyAt, BlockAt, IsLen, Grown, Reach, PairAt, First, Crossed;
    while start < 256
      invariant 0 <= start <= 256
      invariant if start < 256 then BlockAt(len, k, start) && start + 2 * len <= 256 && k < 128 else k == 256 / len
      invariant forall i :: 0 <= i < start ==> Stores(r[i], ButterflyAt(len, f, i), Grown(bound))
      invariant forall i :: 0 <= i < start && First(len, i) ==> PairAt(len, r[..], i, 2 * bound, 2 * Reach(bound))
      invariant forall i :: start <= i < 256 ==> r[i] == s[i]
    {
      ghost var before := r[..];
      NextBlock(len, k, start);
      NttBlock(r, len, k, start, bound);
      CrossedBlock(before, r[..], k, len, start, bound);
      BlockIsLocal(len, f, Canon(before), k, start);
      PairsKept(len, before, r[..], k, start, 2 * bound, 2 * Reach(bound));
      k := k + 1;
      start := start + 2 * len;
      assert start < 256 ==> start + 2 * len <= 256 && k < 128;
    }
    StoresLayer(r[..], Layer(len, f), Grown(bound));
  }

  /** Changing one block leaves the pairs of the earlier blocks. */
  lemma PairsKept(len: int, s: seq<int>, t: seq<int>, k: nat, start: int, sum: int, difference: int)
    requires |s| == |t| == 256 && BlockAt(len, k, start) && forall i :: 0 <= i < start ==> s[i] == t[i]
    requires forall i :: 0 <= i < start && First(len, i) ==> PairAt(len, s, i, sum, difference)
    requires forall i :: start <= i < start + len ==> PairAt(len, t, i, sum, difference)
    ensures forall i :: 0 <= i < start + 2 * len && First(len, i) ==> PairAt(len, t, i, sum, difference)
  {
    forall i | 0 <= i < start + 2 * len && First(len, i)
      ensures PairAt(len, t, i, sum, difference)
    {
      if i < start {
        FirstBefore(len, k, start, i);
      } else {
        FirstInBlock(len, k, start, i);
      }
    }
  }

  /** A position that comes first in an earlier block has its partner there too. */
  lemma FirstBefore(len: int, k: nat, start: int, i: int)
    requires BlockAt(len, k, start) && 0 <= i < start && First(len, i)
    ensures i + len < start
  {
    var d, b := 2 * len, k - 128 / len;
    DivMod(i, d);
    QuotientRange(i, d, b);
    MulAtLeast(d, b - i / d);
    assert d * (b - i / d) == d * b - d * (i / d);
  }

  lemma StoresLayer(r: seq<int>, f: seq<int>, bound: int)
    requires |r| == |f| && forall i :: 0 <= i < |r| ==> Stores(r[i], f[i], bound)
    ensures Canon(r) == f && Within(r, bound)
  {
  }

  /** A block's butterflies only read the block. */
  lemma BlockIsLocal(len: int, f: seq<int>, g: seq<int>, k: nat, start: int)
    requires |f| == |g| == 256 && BlockAt(len, k, start)
    requires forall i :: start <= i < 256 ==> f[i] == g[i]
    ensures forall i :: start <= i < start + 2 * len ==> ButterflyAt(len, f, i) == ButterflyAt(len, g, i)
  {
    forall i | start <= i < start + 2 * len
      ensures ButterflyAt(len, f, i) == ButterflyAt(len, g, i)
    {
      hide ButterflyAt;
      var j := if i < start + len then i else i - len;
      BlockButterfly(len, f, k, start, j);
      BlockButterfly(len, g, k, start, j);
    }
  }

  /** Stages already done when the stage with this half-block size starts. */
  function StagesBefore(len: int): nat
    requires IsLen(len) || len == 1
  {
    if len == 128 then 0 else if len == 64 then 1 else if len == 32 then 2 else if len == 16 then 3
    else if len == 8 then 4 else if len == 4 then 5 else if len == 2 then 6 else 7
  }

  lemma StageStep(len: int)
    requires IsLen(len)
    ensures IsLen(len / 2) || len / 2 == 1
    ensures 2 * (len / 2) == len && 128 / (len / 2) == 256 / len
    ensures StagesBefore(len / 2) == StagesBefore(len) + 1 <= 7
  {
  }

  /** The bound after n stages. */
  function GrownBy(b: int, n: nat): int {
    if n == 0 then b else Grown(GrownBy(b, n - 1))
  }

  lemma GrownIsMore(b: int)
    requires 0 <= b
    ensures b <= Grown(b)
  {
  }

  lemma {:induction false} GrowthIsMonotone(b: int, m: nat, n: nat)
    requires 0 <= b && m <= n
    ensures 0 <= GrownBy(b, m) <= GrownBy(b, n)
    decreases n
  {
    if n > 0 {
      GrowthIsMonotone(b, if m < n then m else n - 1, n - 1);
      GrownIsMore(GrownBy(b, n - 1));
    }
  }

  /** ntt.c:80-95, for every input bound whose growth over the seven stages stays below 2^15. Besides the values
      the sums and differences over the butterflies of the last stage are bounded, more tightly than their sizes. */
  method NttInPlace(r: array<int16>, ghost bound: int)
    requires r.Length == 256 && 0 <= bound && GrownBy(bound, 7) < 0x8000 && Within(r[..], bound)
    modifies r
    ensures Canon(r[..]) == Ntt(Canon(old(r[..])))
    ensures Within(r[..], GrownBy(bound, 7))
    ensures PairsWithin(2, r[..], 2 * GrownBy(bound, 6), 2 * Reach(GrownBy(bound, 6)))
  {
    ghost var f := Canon(r[..]);
    var k := 1;
    var len := 128;
    hide Layer, Within, NttDown, Grown, Reach, PairsWithin;
    assert NttDown(256, f) == f by { NttDownTop(f); }
    while len >= 2
      invariant IsLen(len) || len == 1
      invariant k == 128 / len
      invariant Canon(r[..]) == NttDown(2 * len, f)
      invariant Within(r[..], GrownBy(bound, StagesBefore(len)))
      invariant len == 1 ==> PairsWithin(2, r[..], 2 * GrownBy(bound, 6), 2 * Reach(GrownBy(bound, 6)))
    {
      StageStep(len);
      NttDownStep(len, f);
      GrowthIsMonotone(bound, StagesBefore(len) + 1, 7);
      k := NttStage(r, len, k, GrownBy(bound, StagesBefore(len)));
      len := len / 2;
    }
  }

  /** Inputs below q in absolute value, and those of the accelerator's range. */
  lemma GrowthFromQ()
    ensures GrownBy(Q - 1, 6) == 14508 && GrownBy(Q - 1, 7) == 16540 && Reach(14508) == 2032
    ensures GrownBy(Q, 7) == 16541
  {
    hide Reach;
    ReachValues();
    GrowthOf(Q - 1, 5077, 6870, 8708, 10593, 12526, 14508, 16540);
    GrowthOf(Q, 5078, 6871, 8709, 10594, 12527, 14509, 16541);
  }

  lemma ReachValues()
    ensures Reach(3328) == 1749 && Reach(5077) == 1793 && Reach(6870) == 1838 && Reach(8708) == 1885
    ensures Reach(10593) == 1933 && Reach(12526) == 1982 && Reach(14508) == 2032
    ensures Reach(3329) == 1749 && Reach(5078) == 1793 && Reach(6871) == 1838 && Reach(8709) == 1885
    ensures Reach(10594) == 1933 && Reach(12527) == 1982 && Reach(14509) == 2032
  {
  }

  lemma GrowthOf(a: int, b: int, c: int, d: int, e: int, f: int, g: int, h: int)
    requires Grown(a) == b && Grown(b) == c && Grown(c) == d && Grown(d) == e && Grown(e) == f && Grown(f) == g
    requires Grown(g) == h
    ensures GrownBy(a, 6) == g && GrownBy(a, 7) == h
  {
    hide Grown;
    GrowthNext(a, 1);
    GrowthNext(a, 2);
    GrowthNext(a, 3);
    GrowthNext(a, 4);
    GrowthNext(a, 5);
    GrowthNext(a, 6);
  }

  lemma GrowthNext(b: int, n: nat)
    ensures GrownBy(b, 1) == Grown(b) && GrownBy(b, n + 1) == Grown(GrownBy(b, n))
  {
  }

  lemma NttDownTop(f: seq<int>)
    requires |f| == 256
    ensures NttDown(256, f) == f
  {
  }

  // The inverse transform.

  /** The sum and the difference of a pair are int16 values. */
  predicate PairFits(x: int, y: int) {
    -0x8000 <= x + y < 0x8000 && -0x8000 <= y - x < 0x8000
  }

  /** No sum or difference over the butterflies of a stage leaves int16. */
  predicate PairsFit(len: int, s: seq<int>)
    requires len > 0
  {
    forall j :: 0 <= j < |s| && First(len, j) && j + len < |s| ==> PairFits(s[j], s[j + len])
  }

  lemma PairsWithinFit(len: int, s: seq<int>, sum: int, difference: int)
    requires len > 0 && PairsWithin(len, s, sum, difference) && sum < 0x8000 && difference < 0x8000
    ensures PairsFit(len, s)
  {
  }

  lemma SmallPairsFit(len: int, s: seq<int>, bound: int)
    requires len > 0 && Within(s, bound) && bound < 0x4000
    ensures PairsFit(len, s)
  {
  }

  /** One Gentleman-Sande butterfly on int16 values (ntt.c:116-119). */
  lemma InverseButterfly(k: nat, x: int16, y: int16)
    requires k < 128 && PairFits(x, y)
    ensures -0x8000 <= x + y < 0x8000 && -0x8000 <= y - x < 0x8000
    ensures Stores(BarrettReduce(x + y), (x % Q + y % Q) % Q, Q - 1)
    ensures Stores(FqMul(Table(k), y - x), Times(Zeta(k), y % Q - x % Q), Q - 1)
  {
    hide Zeta, Table, Times, FqMul, BarrettReduce;
    TwiddleProduct(k, y - x);
    SumResidue(x, y);
    DifferenceProduct(Zeta(k), x, y);
  }

  lemma SumResidue(x: int, y: int)
    ensures (x + y) % Q == (x % Q + y % Q) % Q
  {
    AddCong(x, x % Q, y, y % Q);
  }

  lemma DifferenceProduct(z: int, x: int, y: int)
    ensures (z * (y - x)) % Q == Times(z, y % Q - x % Q)
  {
    AddCong(y, y % Q, x, x % Q);
    MulCong(z, z, y - x, y % Q - x % Q);
  }

  /** The block at `start` is the one that uses twiddle k when the table is read backwards. */
  predicate MirrorBlockAt(len: int, k: int, start: int) {
    && IsLen(len)
    && 128 / len <= k < 256 / len
    && start == 2 * len * (256 / len - 1 - k)
    && 0 <= start <= 256 - 2 * len
  }

  lemma MirrorBlockButterfly(len: int, f: seq<int>, k: nat, start: int, j: int)
    requires |f| == 256 && MirrorBlockAt(len, k, start) && start <= j < start + len
    ensures j + len < 256 && k < 128
    ensures InvButterflyAt(len, f, j) == (f[j] + f[j + len]) % Q
    ensures InvButterflyAt(len, f, j + len) == Times(Zeta(k), f[j + len] - f[j])
  {
    hide Zeta, IsLen;
    var d, b := 2 * len, 256 / len - 1 - k;
    assert 256 / len == 2 * (128 / len) by { HalfCount(len); }
    DivUnique(j, d, b, j - start);
    DivUnique(j + len, d, b, j + len - start);
    BlockIndex(len, j);
  }

  lemma HalfCount(len: int)
    requires IsLen(len)
    ensures 256 / len == 2 * (128 / len)
  {
  }

  lemma InverseStored(len: int, f: seq<int>, k: nat, start: int, j: int, x: int16, y: int16)
    requires |f| == 256 && MirrorBlockAt(len, k, start) && start <= j < start + len
    requires j + len < 256 && f[j] == x % Q && f[j + len] == y % Q && PairFits(x, y)
    ensures k < 128 && -0x8000 <= x + y < 0x8000 && -0x8000 <= y - x < 0x8000
    ensures Stores(BarrettReduce(x + y), InvButterflyAt(len, f, j), Q - 1)
    ensures Stores(FqMul(Table(k), y - x), InvButterflyAt(len, f, j + len), Q - 1)
  {
    hide *;
    MirrorBlockButterfly(len, f, k, start, j);
    InverseButterfly(k, x, y);
  }

  lemma TableFits(k: nat)
    requires k < 128
    ensures -0x8000 <= Table(k) < 0x8000
  {
    hide Table;
  }

  /** ntt.c:116-119: one butterfly. */
  method InverseButterflyAt(r: array<int16>, zeta: int16, j: int, len: int)
    requires 0 <= j < j + len < r.Length && PairFits(r[j], r[j + len])
    modifies r
    ensures var x, y := old(r[j]), old(r[j + len]);
            r[..] == old(r[..])[j := BarrettReduce(x + y)][j + len := FqMul(zeta, y - x)]
  {
    var t := r[j];
    r[j] := BarrettReduce(t + r[j + len]);
    r[j + len] := r[j + len] - t;
    r[j + len] := FqMul(zeta, r[j + len]);
  }

  /** From s to t, the first j - start butterflies of the block at `start` are done. */
  ghost predicate InverseDone(len: int, f: seq<int>, s: seq<int16>, t: seq<int16>, start: int, j: int)
    requires IsLen(len) && |f| == 256
  {
    && |s| == |t| == 256 && 0 <= start <= j <= start + len <= 256 - len
    && (forall i :: start <= i < j ==> Stores(t[i], InvButterflyAt(len, f, i), Q - 1))
    && (forall i :: start + len <= i < j + len ==> Stores(t[i], InvButterflyAt(len, f, i), Q - 1))
    && (forall i :: 0 <= i < start || j <= i < start + len || j + len <= i < 256 ==> t[i] == s[i])
  }

  lemma InverseStep(len: int, f: seq<int>, s: seq<int16>, t: seq<int16>, start: int, j: int, x: int16, y: int16)
    requires IsLen(len) && |f| == 256 && InverseDone(len, f, s, t, start, j) && j < start + len
    requires Stores(x, InvButterflyAt(len, f, j), Q - 1) && Stores(y, InvButterflyAt(len, f, j + len), Q - 1)
    ensures InverseDone(len, f, s, t[j := x][j + len := y], start, j + 1)
  {
    hide Stores, InvButterflyAt, IsLen;
  }

  /** ntt.c:115-120: the butterflies of one block. */
  method InvNttBlock(r: array<int16>, len: int, k: nat, start: int)
    requires r.Length == 256 && k < 128 && IsLen(len) && 0 <= start <= 256 - 2 * len && MirrorBlockAt(len, k, start)
    requires forall i :: start <= i < start + len ==> PairFits(r[i], r[i + len])
    modifies r
    ensures forall i :: 0 <= i < start || start + 2 * len <= i < 256 ==> r[i] == old(r[i])
    ensures forall i :: start <= i < start + 2 * len ==> Stores(r[i], InvButterflyAt(len, Canon(old(r[..])), i), Q - 1)
  {
    hide MirrorBlockAt, PairFits, Stores, InvButterflyAt, Canon, Table, BarrettReduce, FqMul;
    ghost var s := r[..];
    ghost var f := Canon(s);
    TableFits(k);
    var zeta: int16 := Table(k);
    var j := start;
    while j < start + len
      invariant start <= j <= start + len && InverseDone(len, f, s, r[..], start, j)
    {
      InverseStored(len, f, k, start, j, r[j], r[j + len]);
      InverseStep(len, f, s, r[..], start, j, BarrettReduce(r[j] + r[j + len]), FqMul(zeta, r[j + len] - r[j]));
      InverseButterflyAt(r, zeta, j, len);
      j := j + 1;
    }
  }

  lemma FirstMirrorBlock(len: int)
    requires IsLen(len)
    ensures MirrorBlockAt(len, 256 / len - 1, 0) && 0 <= 256 / len - 1 < 128
  {
  }

  lemma NextMirrorBlock(len: int, k: int, start: int)
    requires MirrorBlockAt(len, k, start)
    ensures 0 < k
    ensures start + 2 * len < 256 ==> MirrorBlockAt(len, k - 1, start + 2 * len)
    ensures start + 2 * len >= 256 ==> start + 2 * len == 256 && k == 128 / len
  {
    var d, n, b := 2 * len, 128 / len, 256 / len - 1 - k;
    assert d * n == 256 && 256 / len == 2 * n;
    assert d * (b + 1) == start + d;
    BlockStart(len, b);
    if start + d < 256 {
      BlockStart(len, b + 1);
    } else {
      SameDigits(d, b + 1, n, 0, 0);
    }
  }

  lemma FirstInMirrorBlock(len: int, k: int, start: int, j: int)
    requires MirrorBlockAt(len, k, start) && start <= j < start + 2 * len
    ensures First(len, j) <==> j < start + len
  {
    DivUnique(j, 2 * len, 256 / len - 1 - k, j - start);
  }

  lemma MirrorBlockIsLocal(len: int, f: seq<int>, g: seq<int>, k: nat, start: int)
    requires |f| == |g| == 256 && MirrorBlockAt(len, k, start)
    requires forall i :: start <= i < 256 ==> f[i] == g[i]
    ensures forall i :: start <= i < start + 2 * len ==> InvButterflyAt(len, f, i) == InvButterflyAt(len, g, i)
  {
    forall i | start <= i < start + 2 * len
      ensures InvButterflyAt(len, f, i) == InvButterflyAt(len, g, i)
    {
      hide InvButterflyAt;
      var j := if i < start + len then i else i - len;
      MirrorBlockButterfly(len, f, k, start, j);
      MirrorBlockButterfly(len, g, k, start, j);
    }
  }

  /** ntt.c:113-121: one stage; the table is read backwards. */
  method InvNttStage(r: array<int16>, len: int, k0: nat) returns (k: nat)
    requires r.Length == 256 && IsLen(len) && k0 == 256 / len - 1 && PairsFit(len, r[..])
    modifies r
    ensures k == 128 / len - 1
    ensures Canon(r[..]) == InvLayer(len, Canon(old(r[..])))
    ensures Within(r[..], Q - 1)
  {
    ghost var s := r[..];
    ghost var f := Canon(s);
    k := k0;
    var start := 0;
    FirstMirrorBlock(len);
    hide Stores, InvButterflyAt, MirrorBlockAt, IsLen, First, PairFits;
    while start < 256
      invariant 0 <= start <= 256
      invariant if start < 256 then MirrorBlockAt(len, k, start) && start + 2 * len <= 256 && k < 128 else k == 128 / len - 1
      invariant forall i :: 0 <= i < start ==> Stores(r[i], InvButterflyAt(len, f, i), Q - 1)
      invariant forall i :: start <= i < 256 ==> r[i] == s[i]
    {
      ghost var f' := Canon(r[..]);
      NextMirrorBlock(len, k, start);
      forall i | start <= i < start + len
        ensures PairFits(r[i], r[i + len])
      {
        FirstInMirrorBlock(len, k, start, i);
        assert s[i] == r[i] && s[i + len] == r[i + len];
      }
      InvNttBlock(r, len, k, start);
      MirrorBlockIsLocal(len, f, f', k, start);
      k := k - 1;
      start := start + 2 * len;
      assert start < 256 ==> start + 2 * len <= 256 && k < 128;
    }
    StoresLayer(r[..], InvLayer(len, f), Q - 1);
  }

  /** ntt.c:109: 2^32 / 128 modulo q. */
  const MONT2_OVER_128 := 1441

  /** The final scaling by 2^16 / 128 in Montgomery form. */
  lemma FinalScale(x: int16)
    requires -Q < x < Q
    ensures Stores(FqMul(x, MONT2_OVER_128), Times(R, Times(INV128, x % Q)), Q - 1)
  {
    MulRange(x, MONT2_OVER_128, Q - 1, MONT2_OVER_128);
    TimesTimes(R, INV128, x % Q);
    MulCong(R * INV128, MONT2_OVER_128 * RINV, x % Q, x);
    assert x * MONT2_OVER_128 * RINV == MONT2_OVER_128 * RINV * x;
  }

  /** ntt.c:106-126: the inverse transform times the Montgomery factor 2^16, for every array on which no sum or
      difference of the first stage leaves int16. */
  method InvNttInPlace(r: array<int16>)
    requires r.Length == 256 && PairsFit(2, r[..])
    modifies r
    ensures Canon(r[..]) == Scale(R, InvNtt(Canon(old(r[..]))))
    ensures Within(r[..], Q - 1)
  {
    ghost var f := Canon(r[..]);
    InvNttStages(r);
    ghost var g := r[..];
    hide InvNttUp, Times, FqMul, Stores;
    var j := 0;
    while j < 256
      invariant 0 <= j <= 256
      invariant forall i :: 0 <= i < j ==> Stores(r[i], Times(R, Times(INV128, g[i] % Q)), Q - 1)
      invariant forall i :: j <= i < 256 ==> r[i] == g[i]
    {
      FinalScale(r[j]);
      r[j] := FqMul(r[j], MONT2_OVER_128);
      j := j + 1;
    }
    assert Canon(g) == InvNttUp(128, f);
    assert forall i :: 0 <= i < 256 ==> Scale(R, InvNtt(f))[i] == Times(R, Times(INV128, g[i] % Q));
    StoresLayer(r[..], Scale(R, InvNtt(f)), Q - 1);
  }

  /** ntt.c:111-122: the seven stages. */
  method InvNttStages(r: array<int16>)
    requires r.Length == 256 && PairsFit(2, r[..])
    modifies r
    ensures Canon(r[..]) == InvNttUp(128, Canon(old(r[..])))
    ensures Within(r[..], Q - 1)
  {
    ghost var f := Canon(r[..]);
    var k := 127;
    var len := 2;
    hide InvLayer, Within, InvNttUp, PairsFit;
    InvNttUpOne(f);
    while len <= 128
      invariant IsLen(len) || len == 256
      invariant k == 256 / len - 1
      invariant Canon(r[..]) == InvNttUp(len / 2, f)
      invariant len < 256 ==> PairsFit(len, r[..])
      invariant len > 2 ==> Within(r[..], Q - 1)
      decreases 256 - len
    {
      InvStageStep(len, f);
      k := InvNttStage(r, len, k);
      len := 2 * len;
      SmallPairsFit(len, r[..], Q - 1);
    }
  }

  lemma WithinWeaken(s: seq<int>, a: int, b: int)
    requires Within(s, a) && a <= b
    ensures Within(s, b)
  {
  }

  lemma InvNttUpOne(f: seq<int>)
    requires |f| == 256
    ensures InvNttUp(1, f) == f
  {
  }

  lemma InvStageStep(len: int, f: seq<int>)
    requires IsLen(len) && |f| == 256
    ensures InvNttUp(2 * len / 2, f) == InvLayer(len, InvNttUp(len / 2, f))
    ensures IsLen(2 * len) || 2 * len == 256
    ensures 256 / (2 * len) == 128 / len
  {
    hide InvLayer;
  }
}
