// reduce.c: the two division-free reductions, with their int16 conversions.
module Reduce {
  import opened MachineInts
  import opened IntFacts
  import opened ModQ

  const QINV := -3327
  const MONT := -1044

  /** 2^16 and its inverse modulo q. */
  const R := 0x1_0000
  const RINV := 169

  /** The argument range the source documents for `montgomery_reduce`. */
  predicate MontgomeryRange(a: int) {
    -Q * 0x8000 <= a < Q * 0x8000
  }

  predicate FitsInt32(x: int) {
    -0x8000_0000 <= x < 0x8000_0000
  }

  /** reduce.c:20: the multiple of q that is taken away. */
  function LowFactor(a: int): int16 {
    ToInt16(ToInt16(a) * QINV)
  }

  /** The low half cancels: `a - t*q` is a multiple of 2^16, because QINV * q is 1 modulo 2^16. */
  lemma MontgomeryExact(a: int, t: int, r: int)
    requires t == LowFactor(a)
    requires r == (a - t * Q) / R
    ensures r * R == a - t * Q
  {
    var a0 := ToInt16(a);
    var ka := (a + 0x8000) / R;
    var kt := (a0 * QINV + 0x8000) / R;
    assert a == a0 + R * ka;
    assert t == a0 * QINV - R * kt;
    ExactQuotient(a - t * Q, ka + 169 * a0 + kt * Q);
  }

  lemma ExactQuotient(x: int, k: int)
    requires x == R * k
    ensures x / R == k
  {
  }

  lemma MontgomeryResidue(a: int, t: int, r: int)
    requires r * R == a - t * Q
    ensures (r * R) % Q == a % Q
    ensures r % Q == (a * RINV) % Q
  {
    ModEq(a, r * R, t);
    assert a * RINV == r * (R * RINV) + Q * (t * RINV);
    assert R * RINV == 1 + Q * 3327;
    ModEq(a * RINV, r, 3327 * r + t * RINV);
  }

  lemma MontgomerySize(a: int, t: int16, r: int)
    requires r * R == a - t * Q
    ensures -Q * 0x8000 <= r * R - a <= Q * 0x8000
    ensures MontgomeryRange(a) ==> -Q < r < Q
    ensures FitsInt32(a - t * Q) ==> -0x8000 <= r < 0x8000
  {
  }

  /** reduce.c:16-23. Wherever the difference is an int32 the quotient `(a - t*q) >> 16` is exact and an int16, and
      R times it is congruent to the argument; in the documented range it lies in (-q, q). */
  function MontgomeryReduce(a: int): (r: int16)
    requires FitsInt32(a - LowFactor(a) * Q)
    ensures -Q * 0x8000 <= r * R - a <= Q * 0x8000
    ensures MontgomeryRange(a) ==> -Q < r < Q
    ensures (r * R) % Q == a % Q
    ensures r % Q == (a * RINV) % Q
  {
    var t := LowFactor(a);
    var r := (a - t * Q) / R;
    MontgomeryExact(a, t, r);
    MontgomeryResidue(a, t, r);
    MontgomerySize(a, t, r);
    r
  }

  /** Every product of two int16 values may be reduced, and so may everything in the documented range. */
  lemma MayReduce(a: int)
    requires -0x4000_0000 <= a <= 0x4000_0000
    ensures FitsInt32(a - LowFactor(a) * Q)
  {
  }

  /** ntt.c:68-70, for all int16 factors. */
  function FqMul(a: int16, b: int16): (r: int16)
    ensures -Q * 0x8000 <= r * R - a * b <= Q * 0x8000
    ensures MontgomeryRange(a * b) ==> -Q < r < Q
    ensures (r * R) % Q == (a * b) % Q
    ensures r % Q == (a * b * RINV) % Q
  {
    MulRange(a, b, 0x8000, 0x8000);
    MayReduce(a * b);
    MontgomeryReduce(a * b)
  }

  /** The size of a Montgomery product of bounded factors. */
  lemma FqMulSize(a: int16, b: int16, m: int, n: int, e: int)
    requires -m <= a <= m && -n <= b <= n && m * n < (e + 1) * R - Q * 0x8000
    ensures -e <= FqMul(a, b) <= e
  {
    hide FqMul;
    MulRange(a, b, m, n);
  }

  const BARRETT_V := (0x400_0000 + Q / 2) / Q

  lemma BarrettQuotient(a: int16, t: int)
    requires t == (BARRETT_V * a + 0x200_0000) / 0x400_0000
    ensures -10 <= t <= 10
    ensures -(Q - 1) / 2 <= a - t * Q <= (Q - 1) / 2
  {
    assert BARRETT_V == 20159;
    assert 0x400_0000 * t <= BARRETT_V * a + 0x200_0000 < 0x400_0000 * t + 0x400_0000;
  }

  /** Two wraps cancel: the product is stored modulo 2^16 and so is the difference. */
  lemma WrapCancels(a: int, p: int)
    requires -0x8000 <= a - p < 0x8000
    ensures ToInt16(a - ToInt16(p)) == a - p
  {
    var k := (p + 0x8000) / 0x1_0000;
    assert ToInt16(p) == p - 0x1_0000 * k;
    assert a - ToInt16(p) == a - p + 0x1_0000 * k;
  }

  lemma BarrettResult(a: int16, t: int)
    requires t == (BARRETT_V * a + 0x200_0000) / 0x400_0000
    ensures ToInt16(t) == t
    ensures ToInt16(a - ToInt16(t * Q)) == a - t * Q
    ensures -(Q - 1) / 2 <= a - t * Q <= (Q - 1) / 2
    ensures (a - t * Q) % Q == a % Q
  {
    hide ToInt16;
    BarrettQuotient(a, t);
    SmallWord(t);
    WrapCancels(a, t * Q);
    ModEq(a, a - t * Q, t);
  }

  lemma SmallWord(t: int)
    requires -10 <= t <= 10
    ensures ToInt16(t) == t
  {
  }

  /** reduce.c:35-42. For every int16 argument, including those for which `t *= q` wraps, the result is
      the centred representative. */
  function BarrettReduce(a: int16): (r: int16)
    ensures -(Q - 1) / 2 <= r <= (Q - 1) / 2
    ensures r % Q == a % Q
  {
    var t := ToInt16((BARRETT_V * a + 0x200_0000) / 0x400_0000);
    BarrettResult(a, (BARRETT_V * a + 0x200_0000) / 0x400_0000);
    hide ToInt16;
    ToInt16(a - ToInt16(t * Q))
  }
}
