// Arithmetic modulo the Kyber prime. Congruence is equality of canonical residues.
module ModQ {
  import opened IntFacts

  const Q := 3329

  /** A polynomial with 256 coefficients, all canonical residues. */
  predicate IsPoly(f: seq<int>) {
    |f| == 256 && forall i :: 0 <= i < 256 ==> 0 <= f[i] < Q
  }

  /** The canonical residues of a sequence of integers. */
  function Canon(s: seq<int>): (r: seq<int>)
    ensures |r| == |s|
    ensures forall i :: 0 <= i < |s| ==> r[i] == s[i] % Q
  {
    seq(|s|, i requires 0 <= i < |s| => s[i] % Q)
  }

  function Scale(c: int, f: seq<int>): (r: seq<int>)
    ensures |r| == |f|
    ensures forall i :: 0 <= i < |f| ==> r[i] == Times(c, f[i])
  {
    seq(|f|, i requires 0 <= i < |f| => Times(c, f[i]))
  }

  function AddPoly(f: seq<int>, g: seq<int>): (r: seq<int>)
    requires |f| == |g|
    ensures |r| == |f|
    ensures forall i :: 0 <= i < |f| ==> r[i] == (f[i] + g[i]) % Q
  {
    seq(|f|, i requires 0 <= i < |f| => (f[i] + g[i]) % Q)
  }

  function SubPoly(f: seq<int>, g: seq<int>): (r: seq<int>)
    requires |f| == |g|
    ensures |r| == |f|
    ensures forall i :: 0 <= i < |f| ==> r[i] == (f[i] - g[i]) % Q
  {
    seq(|f|, i requires 0 <= i < |f| => (f[i] - g[i]) % Q)
  }

  // The operations of a butterfly, named so that proofs can treat them as atoms.

  function Plus(a: int, z: int, b: int): int {
    (a + z * b) % Q
  }

  function Minus(a: int, z: int, b: int): int {
    (a - z * b) % Q
  }

  function Times(a: int, b: int): int {
    (a * b) % Q
  }

  /** Two integers that differ by a multiple of q have the same residue. */
  lemma ModEq(x: int, y: int, k: int)
    requires x == y + Q * k
    ensures x % Q == y % Q
  {
  }

  lemma AddCong(a: int, a': int, b: int, b': int)
    requires a % Q == a' % Q && b % Q == b' % Q
    ensures (a + b) % Q == (a' + b') % Q
    ensures (a - b) % Q == (a' - b') % Q
  {
    ModEq(a + b, a' + b', a / Q - a' / Q + b / Q - b' / Q);
    ModEq(a - b, a' - b', a / Q - a' / Q - b / Q + b' / Q);
  }

  lemma MulModLeft(a: int, b: int)
    ensures (a % Q * b) % Q == (a * b) % Q
  {
    var k := a / Q;
    assert a == a % Q + Q * k;
    assert a * b == a % Q * b + Q * (k * b);
    ModEq(a * b, a % Q * b, k * b);
  }

  lemma MulMod(a: int, b: int)
    ensures (a % Q * (b % Q)) % Q == (a * b) % Q
  {
    MulModLeft(a, b % Q);
    MulModLeft(b, a);
    assert a * (b % Q) == b % Q * a;
  }

  /** Congruent factors give congruent products. */
  lemma MulCong(a: int, a': int, b: int, b': int)
    requires a % Q == a' % Q && b % Q == b' % Q
    ensures (a * b) % Q == (a' * b') % Q
  {
    MulMod(a, b);
    MulMod(a', b');
  }

  lemma TimesCong(c: int, x: int, y: int)
    requires x % Q == y % Q
    ensures Times(c, x) == Times(c, y)
  {
    MulCong(c, c, x, y);
  }

  /** The representative in [-(q-1)/2, (q-1)/2]. */
  function Centred(x: int): (c: int)
    ensures -(Q - 1) / 2 <= c <= (Q - 1) / 2 && c % Q == x % Q
  {
    ModEq((x + Q / 2) % Q - Q / 2, x, -((x + Q / 2) / Q));
    (x + Q / 2) % Q - Q / 2
  }

  lemma CentredUnique(x: int, c: int, k: int)
    requires -(Q - 1) / 2 <= c <= (Q - 1) / 2 && x == c + Q * k
    ensures Centred(x) == c
  {
    DivUnique(x + Q / 2, Q, k, c + Q / 2);
  }

  /** Two representatives in the centred range with the same residue are equal. */
  lemma CentredBy(x: int, c: int)
    requires -(Q - 1) / 2 <= c <= (Q - 1) / 2 && c % Q == x % Q
    ensures Centred(x) == c
  {
    CentredUnique(x, c, x / Q - c / Q);
  }

  function CentrePoly(f: seq<int>): (r: seq<int>)
    ensures |r| == |f| && forall i :: 0 <= i < |f| ==> r[i] == Centred(f[i])
  {
    seq(|f|, i requires 0 <= i < |f| => Centred(f[i]))
  }

  lemma {:induction false} PowCong(a: int, b: int, n: nat)
    requires a % Q == b % Q
    ensures Pow(a, n) % Q == Pow(b, n) % Q
  {
    if n != 0 {
      PowCong(a, b, n - 1);
      MulCong(a, b, Pow(a, n - 1), Pow(b, n - 1));
    }
  }

  /** Exponents may be halved by squaring the base. */
  lemma {:induction false} PowSquare(b: int, n: nat)
    ensures Pow(b, 2 * n) == Pow(b * b, n)
  {
    if n != 0 {
      PowSquare(b, n - 1);
      assert Pow(b, 2 * n) == b * (b * Pow(b, 2 * n - 2));
      assert b * (b * Pow(b * b, n - 1)) == b * b * Pow(b * b, n - 1);
    }
  }
}
