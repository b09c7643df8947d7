// The number-theoretic transform in plain arithmetic modulo q (FIPS 203, section 4.3), what it
// computes, and its inverse. This is also what the accelerator's seven butterfly stages compute.
module NttSpec {
  import opened ModQ
  import opened Zetas
  import opened IntFacts

  /** The half-block sizes of the seven stages. */
  predicate IsLen(len: int) {
    len == 2 || len == 4 || len == 8 || len == 16 || len == 32 || len == 64 || len == 128
  }

  predicate IsBlock(size: int) {
    IsLen(size) || size == 256
  }

  /** Position i lies in block i / (2 len), at offset i % (2 len). */
  lemma BlockIndex(len: int, i: int)
    requires IsLen(len) && 0 <= i < 256
    ensures 0 <= i / (2 * len) < 128 / len <= 64
    ensures i % (2 * len) < len ==> i + len < 256
    ensures i % (2 * len) >= len ==> i - len >= 0
  {
    var d, n := 2 * len, 128 / len;
    assert d * n == 256 && n <= 64;
    DivMod(i, d);
    QuotientRange(i, d, n);
    BlockFits(d, n, i / d);
  }

  lemma BlockFits(d: int, n: int, b: int)
    requires 0 < d && 0 <= b < n
    ensures 0 <= d * b && d * b + d <= d * n
  {
    assert d * (n - 1 - b) >= 0;
    assert d * (n - 1 - b) == d * n - d - d * b;
  }

  /** The two halves of a block are blocks of the next stage. */
  lemma HalfBlockIndex(len: int, i: int)
    requires IsLen(len)
    ensures i % (2 * len) < len ==> i / len == 2 * (i / (2 * len)) && i % len == i % (2 * len)
    ensures i % (2 * len) >= len ==> i / len == 2 * (i / (2 * len)) + 1 && i % len == i % (2 * len) - len
  {
    var b, o := i / (2 * len), i % (2 * len);
    DivMod(i, 2 * len);
    assert 2 * len * b == len * (2 * b) && len * (2 * b + 1) == len * (2 * b) + len;
    if o < len {
      DivUnique(i, len, 2 * b, o);
    } else {
      DivUnique(i, len, 2 * b + 1, o - len);
    }
  }

  /** A butterfly stays inside its block. */
  lemma PartnerIndex(len: int, i: int)
    requires IsLen(len)
    ensures i % (2 * len) < len ==>
              (i + len) / (2 * len) == i / (2 * len) && (i + len) % (2 * len) == i % (2 * len) + len
    ensures i % (2 * len) >= len ==>
              (i - len) / (2 * len) == i / (2 * len) && (i - len) % (2 * len) == i % (2 * len) - len
  {
    var b, o := i / (2 * len), i % (2 * len);
    DivMod(i, 2 * len);
    if o < len {
      DivUnique(i + len, 2 * len, b, o + len);
    } else {
      DivUnique(i - len, 2 * len, b, o - len);
    }
  }

  /** The tree node whose twiddle the butterfly at position i uses. */
  function Node(len: int, i: int): (k: nat)
    requires IsLen(len) && 0 <= i < 256
    ensures 1 <= k < 128
  {
    BlockIndex(len, i);
    128 / len + i / (2 * len)
  }

  function ButterflyAt(len: int, f: seq<int>, i: int): int
    requires IsLen(len) && |f| == 256 && 0 <= i < 256
  {
    BlockIndex(len, i);
    if i % (2 * len) < len then
      Plus(f[i], Zeta(Node(len, i)), f[i + len])
    else
      Minus(f[i - len], Zeta(Node(len, i)), f[i])
  }

  /** One Cooley-Tukey stage. */
  function Layer(len: int, f: seq<int>): (g: seq<int>)
    requires IsLen(len) && |f| == 256
    ensures |g| == 256
    ensures forall i :: 0 <= i < 256 ==> g[i] == ButterflyAt(len, f, i)
  {
    seq(256, i requires 0 <= i < 256 => ButterflyAt(len, f, i))
  }

  /** The stages from 128 down to the given block size. */
  function NttDown(size: int, f: seq<int>): (g: seq<int>)
    requires IsBlock(size) && |f| == 256
    ensures |g| == 256
    decreases 256 - size
  {
    if size == 256 then f else Layer(size, NttDown(2 * size, f))
  }

  function Ntt(f: seq<int>): (g: seq<int>)
    requires |f| == 256
    ensures |g| == 256
  {
    NttDown(2, f)
  }

  // What the transform computes.

  /** Coefficient j of a(X) modulo X^size - rho: the sum of rho^m * a[j + m*size]. */
  function Residue(a: seq<int>, size: int, rho: int, j: int): int
    requires size > 0 && 0 <= j
    decreases |a| - j
  {
    if j >= |a| then 0 else a[j] + rho * Residue(a, size, rho, j + size)
  }

  /** Every block of the given size holds the input modulo X^size minus the root of its tree node. */
  predicate HoldsResidues(size: int, f: seq<int>, a: seq<int>)
    requires IsBlock(size) && |f| == |a| == 256
  {
    forall i :: 0 <= i < 256 ==>
      f[i] % Q == Residue(a, size, Root(BlockNode(size, i)), i % size) % Q
  }

  function BlockNode(size: int, i: int): nat
    requires IsBlock(size) && 0 <= i < 256
  {
    256 / size + i / size
  }

  /** Splitting off even and odd multiples of h, for either square root of the modulus. */
  lemma {:induction false} ResidueSplit(a: seq<int>, h: int, z: int, j: int)
    requires h > 0 && 0 <= j
    ensures Residue(a, h, z, j) == Residue(a, 2 * h, z * z, j) + z * Residue(a, 2 * h, z * z, j + h)
    decreases |a| - j
  {
    if j < |a| {
      ResidueSplit(a, h, z, j + 2 * h);
      var e, o := Residue(a, 2 * h, z * z, j + 2 * h), Residue(a, 2 * h, z * z, j + h + 2 * h);
      Horner(z, if j + h < |a| then a[j + h] else 0, e, o);
    }
  }

  lemma Horner(z: int, x: int, e: int, o: int)
    ensures z * (x + z * (e + z * o)) == z * z * e + z * (x + z * z * o)
  {
    assert z * (x + z * (e + z * o)) == z * x + z * (z * (e + z * o));
    assert z * (e + z * o) == z * e + z * (z * o);
    assert z * (z * e + z * (z * o)) == z * (z * e) + z * (z * (z * o));
    assert z * (x + z * z * o) == z * x + z * (z * z * o);
    assert z * (z * e) == z * z * e && z * (z * o) == z * z * o;
  }

  lemma {:induction false} ResidueCong(a: seq<int>, size: int, rho: int, rho': int, j: int)
    requires size > 0 && 0 <= j && rho % Q == rho' % Q
    ensures Residue(a, size, rho, j) % Q == Residue(a, size, rho', j) % Q
    decreases |a| - j
  {
    if j < |a| {
      var x, y := Residue(a, size, rho, j + size), Residue(a, size, rho', j + size);
      ResidueCong(a, size, rho, rho', j + size);
      MulCong(rho, rho', x, y);
      AddCong(a[j], a[j], rho * x, rho' * y);
    }
  }

  /** One butterfly turns two residues modulo X^2h - z^2 into one modulo X^h - w, for w = z or -z. */
  lemma ButterflyResidue(a: seq<int>, h: int, root: int, w: int, j: int, x: int, y: int)
    requires h > 0 && 0 <= j && (w * w) % Q == root % Q
    requires x % Q == Residue(a, 2 * h, root, j) % Q
    requires y % Q == Residue(a, 2 * h, root, j + h) % Q
    ensures (x + w * y) % Q == Residue(a, h, w, j) % Q
  {
    var x', y' := Residue(a, 2 * h, w * w, j), Residue(a, 2 * h, w * w, j + h);
    ResidueSplit(a, h, w, j);
    ResidueCong(a, 2 * h, w * w, root, j);
    ResidueCong(a, 2 * h, w * w, root, j + h);
    MulCong(w, w, y, y');
    AddCong(x, x', w * y, w * y');
  }

  lemma ParentNode(len: int, i: int)
    requires IsLen(len) && 0 <= i < 256
    ensures BlockNode(2 * len, i) == Node(len, i)
  {
    assert 256 / (2 * len) == 128 / len;
  }

  lemma ChildNode(len: int, i: int)
    requires IsLen(len) && 0 <= i < 256
    ensures i % (2 * len) < len ==> BlockNode(len, i) == 2 * Node(len, i)
    ensures i % (2 * len) >= len ==> BlockNode(len, i) == 2 * Node(len, i) + 1
  {
    HalfBlockIndex(len, i);
    assert 256 / len == 2 * (128 / len);
  }

  lemma ChildRoot(k: nat)
    requires k >= 1
    ensures Root(2 * k) == Zeta(k) && Root(2 * k + 1) == -Zeta(k)
  {
    hide Zeta;
  }

  /** Where the butterfly at i reads, and which root its result belongs to. */
  lemma ButterflyNodes(len: int, i: int)
    requires IsLen(len) && 0 <= i < 256
    ensures BlockNode(2 * len, i) == Node(len, i)
    ensures i % (2 * len) < len ==>
              && i + len < 256 && i % len == i % (2 * len)
              && BlockNode(2 * len, i + len) == Node(len, i) && (i + len) % (2 * len) == i % len + len
              && Root(BlockNode(len, i)) == Zeta(Node(len, i))
    ensures i % (2 * len) >= len ==>
              && 0 <= i - len && i % len == i % (2 * len) - len
              && BlockNode(2 * len, i - len) == Node(len, i) && (i - len) % (2 * len) == i % len
              && Root(BlockNode(len, i)) == -Zeta(Node(len, i))
  {
    BlockIndex(len, i);
    HalfBlockIndex(len, i);
    PartnerIndex(len, i);
    ParentNode(len, i);
    ChildNode(len, i);
    ChildRoot(Node(len, i));
    hide *;
  }

  lemma LeftResidue(a: seq<int>, h: int, root: int, z: int, j: int, x: int, y: int)
    requires h > 0 && 0 <= j && (z * z) % Q == root % Q
    requires x % Q == Residue(a, 2 * h, root, j) % Q
    requires y % Q == Residue(a, 2 * h, root, j + h) % Q
    ensures Plus(x, z, y) % Q == Residue(a, h, z, j) % Q
  {
    ButterflyResidue(a, h, root, z, j, x, y);
  }

  lemma RightResidue(a: seq<int>, h: int, root: int, z: int, j: int, x: int, y: int)
    requires h > 0 && 0 <= j && (z * z) % Q == root % Q
    requires x % Q == Residue(a, 2 * h, root, j) % Q
    requires y % Q == Residue(a, 2 * h, root, j + h) % Q
    ensures Minus(x, z, y) % Q == Residue(a, h, -z, j) % Q
  {
    assert -z * -z == z * z && x + -z * y == x - z * y;
    ButterflyResidue(a, h, root, -z, j, x, y);
  }

  lemma LayerMeaningAt(len: int, f: seq<int>, a: seq<int>, i: int)
    requires IsLen(len) && |f| == |a| == 256 && 0 <= i < 256
    requires HoldsResidues(2 * len, f, a)
    ensures ButterflyAt(len, f, i) % Q == Residue(a, len, Root(BlockNode(len, i)), i % len) % Q
  {
    hide Zeta, Residue, Root, BlockNode, Node, HoldsResidues, Plus, Minus;
    var k, j := Node(len, i), i % len;
    var z, root := Zeta(k), Root(k);
    ZetaSquare(k);
    ButterflyNodes(len, i);
    HeldAt(2 * len, f, a, i);
    if i % (2 * len) < len {
      HeldAt(2 * len, f, a, i + len);
      LeftResidue(a, len, root, z, j, f[i], f[i + len]);
    } else {
      HeldAt(2 * len, f, a, i - len);
      RightResidue(a, len, root, z, j, f[i - len], f[i]);
    }
  }

  lemma HeldAt(size: int, f: seq<int>, a: seq<int>, i: int)
    requires IsBlock(size) && |f| == |a| == 256 && HoldsResidues(size, f, a) && 0 <= i < 256
    ensures f[i] % Q == Residue(a, size, Root(BlockNode(size, i)), i % size) % Q
  {
    hide Residue, Root, BlockNode, IsBlock;
  }

  /** One stage halves the blocks and keeps the meaning. */
  lemma LayerMeaning(len: int, f: seq<int>, a: seq<int>)
    requires IsLen(len) && |f| == |a| == 256
    requires HoldsResidues(2 * len, f, a)
    ensures HoldsResidues(len, Layer(len, f), a)
  {
    forall i | 0 <= i < 256
      ensures Layer(len, f)[i] % Q == Residue(a, len, Root(BlockNode(len, i)), i % len) % Q
    {
      LayerMeaningAt(len, f, a, i);
    }
  }

  /** After the stage with blocks of `size`, each block holds the input modulo its own X^size - root. */
  lemma {:induction false} NttDownMeaning(size: int, a: seq<int>)
    requires IsBlock(size) && |a| == 256
    ensures HoldsResidues(size, NttDown(size, a), a)
    decreases 256 - size
  {
    if size == 256 {
    } else {
      NttDownMeaning(2 * size, a);
      LayerMeaning(size, NttDown(2 * size, a), a);
    }
  }

  lemma ResidueAt(size: int, f: seq<int>, a: seq<int>, i: int)
    requires IsBlock(size) && |f| == |a| == 256 && HoldsResidues(size, f, a) && 0 <= i < 256
    ensures f[i] % Q == Residue(a, size, Root(BlockNode(size, i)), i % size) % Q
  {
    hide Residue, Root, BlockNode;
  }

  /** Section 4.3 of FIPS 203: output i is coefficient i % 2 of the input modulo
      X^2 - 17^(2 BitRev7(i / 2) + 1). */
  lemma NttMeaning(a: seq<int>, i: nat)
    requires |a| == 256 && i < 256
    ensures Ntt(a)[i] % Q == Residue(a, 2, LeafPower(i / 2), i % 2) % Q
    ensures Ntt(a)[i] % Q == Residue(a, 2, Root(128 + i / 2), i % 2) % Q
  {
    NttDownMeaning(2, a);
    ResidueAt(2, Ntt(a), a, i);
    LeafRoot(i / 2);
    assert BlockNode(2, i) == 128 + i / 2;
    hide *;
    ResidueCong(a, 2, Root(128 + i / 2), LeafPower(i / 2), i % 2);
  }

  // The inverse.

  function InvButterflyAt(len: int, f: seq<int>, i: int): int
    requires IsLen(len) && |f| == 256 && 0 <= i < 256
  {
    BlockIndex(len, i);
    if i % (2 * len) < len then
      (f[i] + f[i + len]) % Q
    else
      Times(Zeta(MirrorNode(len, i)), f[i] - f[i - len])
  }

  /** The inverse transform walks the twiddle table backwards. */
  function MirrorNode(len: int, i: int): (k: nat)
    requires IsLen(len) && 0 <= i < 256
    ensures 1 <= k < 128
  {
    BlockIndex(len, i);
    2 * (128 / len) - 1 - i / (2 * len)
  }

  /** One Gentleman-Sande stage. */
  function InvLayer(len: int, f: seq<int>): (g: seq<int>)
    requires IsLen(len) && |f| == 256
    ensures |g| == 256
    ensures forall i :: 0 <= i < 256 ==> g[i] == InvButterflyAt(len, f, i)
  {
    seq(256, i requires 0 <= i < 256 => InvButterflyAt(len, f, i))
  }

  /** The inverse stages from 2 up to `len`; none for 1. */
  function InvNttUp(len: int, f: seq<int>): (g: seq<int>)
    requires (IsLen(len) || len == 1) && |f| == 256
    ensures |g| == 256
  {
    if len == 1 then f else InvLayer(len, InvNttUp(len / 2, f))
  }

  /** The inverse of 128 modulo q. */
  const INV128 := 3303

  function InvNtt(f: seq<int>): (g: seq<int>)
    requires |f| == 256
    ensures |g| == 256
  {
    Scale(INV128, InvNttUp(128, f))
  }

  lemma MirroredTwiddles(len: int, i: int)
    requires IsLen(len) && 0 <= i < 256
    ensures Times(Zeta(Node(len, i)), Zeta(MirrorNode(len, i))) == Q - 1
  {
    hide Zeta;
    BlockIndex(len, i);
    ZetaMirror(128 / len, i / (2 * len));
  }

  /** A butterfly followed by its inverse doubles both inputs; `c` is a scale factor carried along. */
  lemma InverseOfButterfly(c: int, a: int, b: int, z: int, w: int, x: int, y: int)
    requires Times(z, w) == Q - 1
    requires x == Times(c, Plus(a, z, b))
    requires y == Times(c, Minus(a, z, b))
    ensures (x + y) % Q == Times(2 * c, a)
    ensures Times(w, y - x) == Times(2 * c, b)
  {
    hide Plus, Minus, Times;
    var u, v := c * (a + z * b), c * (a - z * b);
    ScaledButterfly(c, a, z, b);
    Distribute(c, a, z * b);
    SumOfButterfly(x, y, u, v, 2 * c, a);
    DifferenceOfButterfly(x, y, u, v, 2 * c, z, b, w);
  }

  lemma ScaledButterfly(c: int, a: int, z: int, b: int)
    ensures Times(c, Plus(a, z, b)) % Q == (c * (a + z * b)) % Q
    ensures Times(c, Minus(a, z, b)) % Q == (c * (a - z * b)) % Q
  {
    TimesCong(c, (a + z * b) % Q, a + z * b);
    TimesCong(c, (a - z * b) % Q, a - z * b);
  }

  lemma SumOfButterfly(x: int, y: int, u: int, v: int, d: int, a: int)
    requires x % Q == u % Q && y % Q == v % Q && u + v == d * a
    ensures (x + y) % Q == Times(d, a)
  {
    AddCong(x, u, y, v);
  }

  lemma DifferenceOfButterfly(x: int, y: int, u: int, v: int, d: int, z: int, b: int, w: int)
    requires x % Q == u % Q && y % Q == v % Q && v - u == -d * (z * b) && Times(z, w) == Q - 1
    ensures Times(w, y - x) == Times(d, b)
  {
    AddCong(y, v, x, u);
    MulCong(w, w, y - x, v - u);
    Regroup(w, z, b, d);
    MinusOneCancels(z * w, d * b);
  }

  lemma MinusOneCancels(p: int, t: int)
    requires p % Q == Q - 1
    ensures (-(p * t)) % Q == t % Q
  {
    MulCong(p, -1, t, t);
    AddCong(0, 0, p * t, -t);
  }

  lemma Distribute(c: int, a: int, t: int)
    ensures c * (a + t) + c * (a - t) == 2 * c * a
    ensures c * (a - t) - c * (a + t) == -(2 * c) * t
    ensures c * (a + t) - c * (a - t) == 2 * c * t
  {
    assert c * (a + t) == c * a + c * t;
    assert c * (a - t) == c * a - c * t;
  }

  lemma Regroup(w: int, z: int, b: int, d: int)
    ensures w * (-d * (z * b)) == -(z * w * (d * b))
  {
    assert w * (d * (z * b)) == w * z * b * d;
    assert z * w * (d * b) == w * z * b * d;
  }

  /** The lower of the two positions of the butterfly that i takes part in. */
  function Low(len: int, i: int): (l: int)
    requires IsLen(len) && 0 <= i < 256
    ensures 0 <= l && l + len < 256 && (i == l || i == l + len)
    ensures l / (2 * len) == i / (2 * len) && l % (2 * len) < len
    ensures (l + len) / (2 * len) == i / (2 * len) && (l + len) % (2 * len) >= len
  {
    BlockIndex(len, i);
    PartnerIndex(len, i);
    DivMod(i, 2 * len);
    if i % (2 * len) < len then i else i - len
  }

  lemma ButterflyPair(len: int, f: seq<int>, i: int, l: int, z: int)
    requires IsLen(len) && |f| == 256 && 0 <= i < 256 && l == Low(len, i) && z == Zeta(Node(len, i))
    ensures ButterflyAt(len, f, l) == Plus(f[l], z, f[l + len])
    ensures ButterflyAt(len, f, l + len) == Minus(f[l], z, f[l + len])
  {
    hide Zeta, IsLen, Low;
  }

  lemma InvButterflyPair(len: int, f: seq<int>, i: int, l: int, w: int)
    requires IsLen(len) && |f| == 256 && 0 <= i < 256 && l == Low(len, i) && w == Zeta(MirrorNode(len, i))
    ensures InvButterflyAt(len, f, l) == (f[l] + f[l + len]) % Q
    ensures InvButterflyAt(len, f, l + len) == Times(w, f[l + len] - f[l])
  {
    hide Zeta, IsLen, Low;
  }

  lemma InvLayerOfLayerAt(len: int, c: int, f: seq<int>, i: int)
    requires IsLen(len) && |f| == 256 && 0 <= i < 256
    ensures InvButterflyAt(len, Scale(c, Layer(len, f)), i) == Times(2 * c, f[i])
  {
    hide Zeta, Node, MirrorNode, Plus, Minus, Times, ButterflyAt, InvButterflyAt, Layer, InvLayer, Scale, Low;
    var h, l := Layer(len, f), Low(len, i);
    var g := Scale(c, h);
    var z, w := Zeta(Node(len, i)), Zeta(MirrorNode(len, i));
    ButterflyPair(len, f, i, l, z);
    InvButterflyPair(len, g, i, l, w);
    MirroredTwiddles(len, i);
    assert h[l] == Plus(f[l], z, f[l + len]) && h[l + len] == Minus(f[l], z, f[l + len]);
    InverseOfButterfly(c, f[l], f[l + len], z, w, g[l], g[l + len]);
  }

  /** A stage followed by the inverse stage is multiplication by 2. */
  lemma InvLayerOfLayer(len: int, c: int, f: seq<int>)
    requires IsLen(len) && |f| == 256
    ensures InvLayer(len, Scale(c, Layer(len, f))) == Scale(2 * c, f)
  {
    forall i | 0 <= i < 256
      ensures InvButterflyAt(len, Scale(c, Layer(len, f)), i) == Times(2 * c, f[i])
    {
      InvLayerOfLayerAt(len, c, f, i);
    }
  }

  lemma HalfLen(len: int)
    requires IsLen(len)
    ensures IsLen(len / 2) || len / 2 == 1
    ensures 2 * (len / 2) == len
  {
  }

  lemma NttDownStep(len: int, f: seq<int>)
    requires IsLen(len) && |f| == 256
    ensures NttDown(len, f) == Layer(len, NttDown(2 * len, f))
  {
  }

  lemma {:induction false} InvNttUpOfNtt(len: int, f: seq<int>)
    requires (IsLen(len) || len == 1) && IsPoly(f)
    ensures InvNttUp(len, Ntt(f)) == Scale(len, NttDown(2 * len, f))
  {
    if len == 1 {
      NttDownIsPoly(2, f);
      ScaleOne(1, NttDown(2, f));
    } else {
      var h := len / 2;
      HalfLen(len);
      InvNttUpOfNtt(h, f);
      NttDownStep(len, f);
      hide Layer, InvLayer, NttDown, Scale, IsLen;
      InvLayerOfLayer(len, h, NttDown(2 * len, f));
    }
  }

  lemma NttDownIsPoly(size: int, f: seq<int>)
    requires IsBlock(size) && IsPoly(f)
    ensures IsPoly(NttDown(size, f))
  {
    hide Zeta;
  }

  lemma ScaleScale(c: int, d: int, f: seq<int>)
    ensures Scale(c, Scale(d, f)) == Scale(c * d, f)
  {
    forall i | 0 <= i < |f|
      ensures Times(c, Times(d, f[i])) == Times(c * d, f[i])
    {
      TimesTimes(c, d, f[i]);
    }
  }

  lemma TimesTimes(c: int, d: int, x: int)
    ensures Times(c, Times(d, x)) == Times(c * d, x)
  {
    MulCong(c, c, (d * x) % Q, d * x);
    assert c * (d * x) == c * d * x;
  }

  lemma ScaleOne(c: int, f: seq<int>)
    requires c % Q == 1 && IsPoly(f)
    ensures Scale(c, f) == f
  {
    forall i | 0 <= i < |f|
      ensures Times(c, f[i]) == f[i]
    {
      MulCong(c, 1, f[i], f[i]);
    }
  }

  /** The inverse transform undoes the transform. */
  lemma InvNttOfNtt(f: seq<int>)
    requires IsPoly(f)
    ensures InvNtt(Ntt(f)) == f
  {
    InvNttUpOfNtt(128, f);
    ScaleScale(INV128, 128, f);
    ScaleOne(INV128 * 128, f);
  }

  /** An inverse butterfly followed by the butterfly doubles both inputs. */
  lemma ButterflyOfInverse(c: int, a: int, b: int, z: int, w: int, x: int, y: int)
    requires Times(z, w) == Q - 1
    requires x == Times(c, (a + b) % Q)
    requires y == Times(c, Times(w, b - a))
    ensures Plus(x, z, y) == Times(2 * c, a)
    ensures Minus(x, z, y) == Times(2 * c, b)
  {
    hide Plus, Minus, Times;
    var u, v := c * (a + b), c * (a - b);
    ScaledSum(c, a, b);
    TwiddlesCancel(c, a, b, z, w, y);
    Distribute(c, a, b);
    ButterflyResult(x, y, z, u, v, 2 * c, a, b);
  }

  lemma ScaledSum(c: int, a: int, b: int)
    ensures Times(c, (a + b) % Q) % Q == (c * (a + b)) % Q
  {
    TimesCong(c, (a + b) % Q, a + b);
  }

  lemma ButterflyResult(x: int, y: int, z: int, u: int, v: int, d: int, a: int, b: int)
    requires x % Q == u % Q && (z * y) % Q == v % Q && u + v == d * a && u - v == d * b
    ensures Plus(x, z, y) == Times(d, a) && Minus(x, z, y) == Times(d, b)
  {
    AddCong(x, u, z * y, v);
  }

  lemma TwiddlesCancel(c: int, a: int, b: int, z: int, w: int, y: int)
    requires Times(z, w) == Q - 1
    requires y == Times(c, Times(w, b - a))
    ensures (z * y) % Q == (c * (a - b)) % Q
  {
    TimesTimes(c, w, b - a);
    MulCong(z, z, y, c * w * (b - a));
    MulShuffle(z, c, w, a, b);
    MinusOneCancels(z * w, c * (a - b));
  }

  lemma MulShuffle(z: int, c: int, w: int, a: int, b: int)
    ensures z * (c * w * (b - a)) == -(z * w * (c * (a - b)))
  {
    var d := a - b;
    assert c * w * -d == -(w * (c * d));
    assert z * -(w * (c * d)) == -(z * (w * (c * d)));
  }

  lemma LayerOfInvLayerAt(len: int, c: int, f: seq<int>, i: int)
    requires IsLen(len) && |f| == 256 && 0 <= i < 256
    ensures ButterflyAt(len, Scale(c, InvLayer(len, f)), i) == Times(2 * c, f[i])
  {
    hide Zeta, Node, MirrorNode, Plus, Minus, Times, ButterflyAt, InvButterflyAt, Layer, InvLayer, Scale, Low;
    var h, l := InvLayer(len, f), Low(len, i);
    var g := Scale(c, h);
    var z, w := Zeta(Node(len, i)), Zeta(MirrorNode(len, i));
    InvButterflyPair(len, f, i, l, w);
    ButterflyPair(len, g, i, l, z);
    MirroredTwiddles(len, i);
    assert h[l] == (f[l] + f[l + len]) % Q && h[l + len] == Times(w, f[l + len] - f[l]);
    ButterflyOfInverse(c, f[l], f[l + len], z, w, g[l], g[l + len]);
  }

  lemma LayerOfInvLayer(len: int, c: int, f: seq<int>)
    requires IsLen(len) && |f| == 256
    ensures Layer(len, Scale(c, InvLayer(len, f))) == Scale(2 * c, f)
  {
    forall i | 0 <= i < 256
      ensures ButterflyAt(len, Scale(c, InvLayer(len, f)), i) == Times(2 * c, f[i])
    {
      LayerOfInvLayerAt(len, c, f, i);
    }
  }

  lemma {:induction false} NttDownOfInvNtt(size: int, f: seq<int>)
    requires IsBlock(size) && |f| == 256
    ensures NttDown(size, InvNtt(f)) == Scale(INV128 * 256 / size, InvNttUp(size / 2, f))
    decreases 256 - size
  {
    hide Layer, InvLayer;
    if size != 256 {
      var c := INV128 * 256 / (2 * size);
      NttDownOfInvNtt(2 * size, f);
      assert INV128 * 256 / size == 2 * c;
      LayerOfInvLayer(size, c, InvNttUp(size / 2, f));
    }
  }

  /** The transform undoes the inverse transform: together they are a bijection. */
  lemma NttOfInvNtt(f: seq<int>)
    requires IsPoly(f)
    ensures Ntt(InvNtt(f)) == f
  {
    hide NttDown, InvNtt;
    NttDownOfInvNtt(2, f);
    assert InvNttUp(1, f) == f;
    ScaleOne(INV128 * 256 / 2, f);
  }
}
