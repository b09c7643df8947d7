// Division with a variable divisor, in small steps the solver can follow.
module IntFacts {
  lemma DivMod(i: int, d: int)
    requires d > 0
    ensures i == d * (i / d) + i % d
    ensures 0 <= i % d < d
  {
  }

  lemma MulAtLeast(d: int, x: int)
    requires d > 0 && x >= 1
    ensures d * x >= d
  {
    assert d * x == d * (x - 1) + d;
  }

  lemma SameDigits(d: int, b: int, b': int, o: int, o': int)
    requires 0 <= o < d && 0 <= o' < d && d * b + o == d * b' + o'
    ensures b == b' && o == o'
  {
    assert d * (b - b') == d * b - d * b' && d * (b' - b) == d * b' - d * b;
    if b > b' {
      MulAtLeast(d, b - b');
    } else if b < b' {
      MulAtLeast(d, b' - b);
    }
  }

  /** Quotient and remainder are unique. */
  lemma DivUnique(i: int, d: int, b: int, o: int)
    requires d > 0 && i == d * b + o && 0 <= o < d
    ensures i / d == b && i % d == o
  {
    DivMod(i, d);
    SameDigits(d, b, i / d, o, i % d);
  }

  lemma QuotientRange(i: int, d: int, n: int)
    requires d > 0 && 0 <= i < d * n
    ensures 0 <= i / d < n
  {
    var b := i / d;
    DivMod(i, d);
    assert d * (b - n + 1) == d * b - d * n + d && d * -b == -(d * b);
    if b >= n {
      MulAtLeast(d, b - n + 1);
    } else if b < 0 {
      MulAtLeast(d, -b);
    }
  }

  lemma MulRange(a: int, b: int, m: int, n: int)
    requires -m <= a <= m && -n <= b <= n
    ensures -(m * n) <= a * b <= m * n
  {
    assert m * n - a * b == m * (n - b) + (m - a) * b;
    assert m * n - a * b == m * (n + b) - (m + a) * b;
    assert m * n + a * b == m * (n + b) - (m - a) * b;
    assert m * n + a * b == m * (n - b) + (m + a) * b;
    assert m * (n - b) >= 0 && m * (n + b) >= 0;
    if b >= 0 {
      assert (m - a) * b >= 0 && (m + a) * b >= 0;
    } else {
      assert (m - a) * b <= 0 && (m + a) * b <= 0;
    }
  }

  /** Powers. */
  function Pow(b: int, n: nat): (p: int)
    ensures 0 <= b ==> 0 <= p
  {
    if n == 0 then 1 else b * Pow(b, n - 1)
  }

  /** Powers of two. */
  function Pow2(n: nat): nat {
    if n == 0 then 1 else 2 * Pow2(n - 1)
  }

  lemma {:induction false} PowAdd(b: int, m: nat, n: nat)
    ensures Pow(b, m + n) == Pow(b, m) * Pow(b, n)
  {
    hide Pow;
    if m == 0 {
      PowZero(b);
    } else {
      PowAdd(b, m - 1, n);
      PowStep(b, m);
      PowStep(b, m + n);
      MulAssoc(b, Pow(b, m - 1), Pow(b, n));
    }
  }

  lemma PowZero(b: int)
    ensures Pow(b, 0) == 1
  {
  }

  lemma PowStep(b: int, n: nat)
    requires n > 0
    ensures Pow(b, n) == b * Pow(b, n - 1)
  {
  }

  lemma MulAssoc(x: int, y: int, z: int)
    ensures x * (y * z) == x * y * z
  {
  }
}
