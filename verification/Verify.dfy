// verify.c: comparison and conditional moves without branches.
module Verify {
  import opened IntFacts
  import opened MachineInts

  // Bitwise operations on n-bit numbers, bit by bit.

  function Xor(n: nat, x: int, y: int): int {
    if n == 0 then 0 else (x + y) % 2 + 2 * Xor(n - 1, x / 2, y / 2)
  }

  function And(n: nat, x: int, y: int): int {
    if n == 0 then 0 else x % 2 * (y % 2) + 2 * And(n - 1, x / 2, y / 2)
  }

  function Or(n: nat, x: int, y: int): int {
    if n == 0 then 0 else (if x % 2 == 0 then y % 2 else 1) + 2 * Or(n - 1, x / 2, y / 2)
  }

  lemma Parity(x: int, y: int, k: int)
    ensures (x + ((x + y) % 2 + 2 * k)) % 2 == y % 2
    ensures ((x + y) % 2 + 2 * k) / 2 == k
    ensures (x + y) % 2 == 0 <==> x % 2 == y % 2
    ensures y == 2 * (y / 2) + y % 2
  {
  }

  lemma {:induction false} XorCancels(n: nat, x: int, y: int)
    requires 0 <= y < Pow2(n)
    ensures Xor(n, x, Xor(n, x, y)) == y
  {
    if n != 0 {
      XorCancels(n - 1, x / 2, y / 2);
      Parity(x, y, Xor(n - 1, x / 2, y / 2));
    }
  }

  lemma {:induction false} XorZero(n: nat, x: int)
    requires 0 <= x < Pow2(n)
    ensures Xor(n, x, 0) == x
  {
    if n != 0 {
      XorZero(n - 1, x / 2);
    }
  }

  lemma {:induction false} AndZero(n: nat, x: int)
    ensures And(n, 0, x) == 0
  {
    if n != 0 {
      AndZero(n - 1, x / 2);
    }
  }

  lemma {:induction false} AndOnes(n: nat, m: int, x: int)
    requires m == Pow2(n) - 1 && 0 <= x < Pow2(n)
    ensures And(n, m, x) == x
  {
    if n != 0 {
      assert m % 2 == 1 && m / 2 == Pow2(n - 1) - 1;
      AndOnes(n - 1, m / 2, x / 2);
    }
  }

  lemma {:induction false} XorRange(n: nat, x: int, y: int)
    ensures 0 <= Xor(n, x, y) < Pow2(n)
  {
    if n != 0 {
      XorRange(n - 1, x / 2, y / 2);
    }
  }

  lemma {:induction false} XorIsZero(n: nat, x: int, y: int)
    requires 0 <= x < Pow2(n) && 0 <= y < Pow2(n)
    ensures Xor(n, x, y) == 0 <==> x == y
  {
    if n != 0 {
      XorIsZero(n - 1, x / 2, y / 2);
      Parity(x, y, 0);
      XorRange(n - 1, x / 2, y / 2);
    }
  }

  lemma {:induction false} OrRange(n: nat, x: int, y: int)
    ensures 0 <= Or(n, x, y) < Pow2(n)
  {
    if n != 0 {
      OrRange(n - 1, x / 2, y / 2);
    }
  }

  lemma {:induction false} OrIsZero(n: nat, x: int, y: int)
    requires 0 <= x < Pow2(n) && 0 <= y < Pow2(n)
    ensures Or(n, x, y) == 0 <==> x == 0 && y == 0
  {
    if n != 0 {
      OrIsZero(n - 1, x / 2, y / 2);
      OrRange(n - 1, x / 2, y / 2);
    }
  }

  lemma ByteWidth()
    ensures Pow2(8) == 256 && Pow2(16) == 0x1_0000
  {
  }

  /** The mask -b: all ones for b = 1, zero for b = 0. Selecting with it moves x to r or leaves r. */
  lemma MaskedMove(n: nat, p: int, r: int, x: int, b: int)
    requires p == Pow2(n) && 0 <= r < p && 0 <= x < p && (b == 0 || b == 1)
    ensures Xor(n, r, And(n, -b % p, Xor(n, r, x))) == if b == 1 then x else r
  {
    hide Xor, And, Pow2;
    XorRange(n, r, x);
    if b == 1 {
      MaskOnes(p);
      AndOnes(n, p - 1, Xor(n, r, x));
      XorCancels(n, r, x);
    } else {
      AndZero(n, Xor(n, r, x));
      XorZero(n, r);
    }
  }

  lemma MaskOnes(p: int)
    requires p > 0
    ensures -1 % p == p - 1
  {
    if p == 1 {
    } else {
      assert (p - 1) % p == p - 1;
      assert -1 == p * -1 + (p - 1);
    }
  }

  /** verify.c:16-25: 0 if the first `len` bytes agree, 1 otherwise. */
  method VerifyBytes(a: array<byte>, b: array<byte>, len: nat) returns (fail: int)
    requires len <= a.Length && len <= b.Length
    ensures fail == if a[..len] == b[..len] then 0 else 1
  {
    hide Xor, Or, Pow2;
    ByteWidth();
    var r: byte := 0;
    var i := 0;
    while i < len
      invariant 0 <= i <= len
      invariant r == 0 <==> a[..i] == b[..i]
    {
      XorRange(8, a[i], b[i]);
      XorIsZero(8, a[i], b[i]);
      OrRange(8, r, Xor(8, a[i], b[i]));
      OrIsZero(8, r, Xor(8, a[i], b[i]));
      assert a[..i + 1] == a[..i] + [a[i]] && b[..i + 1] == b[..i] + [b[i]];
      r := Or(8, r, Xor(8, a[i], b[i]));
      i := i + 1;
    }
    SignOfNegation(r);
    fail := -(r as int) % 0x1_0000_0000_0000_0000 / 0x8000_0000_0000_0000;
  }

  /** `(-(uint64_t)r) >> 63` is 0 for r = 0 and 1 for any other byte. */
  lemma SignOfNegation(r: int)
    requires 0 <= r < 256
    ensures -r % 0x1_0000_0000_0000_0000 / 0x8000_0000_0000_0000 == if r == 0 then 0 else 1
  {
    if r != 0 {
      assert -r % 0x1_0000_0000_0000_0000 == 0x1_0000_0000_0000_0000 - r;
    }
  }

  /** verify.c:40-57: copies `len` bytes if b is 1, leaves r alone if b is 0. */
  method Cmov(r: array<byte>, x: array<byte>, len: nat, b: int)
    requires len <= r.Length && len <= x.Length && r != x && (b == 0 || b == 1)
    modifies r
    ensures r[..] == old(if b == 1 then x[..len] + r[len..] else r[..])
  {
    hide Xor, And, Pow2;
    ByteWidth();
    ghost var s := r[..];
    var mask := -b % 256;
    var i := 0;
    while i < len
      invariant 0 <= i <= len
      invariant forall j :: 0 <= j < i ==> r[j] == if b == 1 then x[j] else s[j]
      invariant forall j :: i <= j < r.Length ==> r[j] == s[j]
    {
      MaskedMove(8, 256, r[i], x[i], b);
      r[i] := Xor(8, r[i], And(8, mask, Xor(8, r[i], x[i])));
      i := i + 1;
    }
  }

  /** verify.c:71-75 on the 16-bit patterns of r and v. */
  function CmovInt16(r: int16, v: int16, b: int): (x: int16)
    requires b == 0 || b == 1
    ensures x == if b == 1 then v else r
  {
    var p, q := r % 0x1_0000, v % 0x1_0000;
    CmovPatterns(r, v, b);
    ToInt16(Xor(16, p, And(16, -b % 0x1_0000, Xor(16, p, q))))
  }

  lemma CmovPatterns(r: int16, v: int16, b: int)
    requires b == 0 || b == 1
    ensures var p, q := r % 0x1_0000, v % 0x1_0000;
            ToInt16(Xor(16, p, And(16, -b % 0x1_0000, Xor(16, p, q)))) == if b == 1 then v else r
  {
    hide Xor, And, Pow2;
    ByteWidth();
    MaskedMove(16, 0x1_0000, r % 0x1_0000, v % 0x1_0000, b);
    PatternBack(r);
    PatternBack(v);
  }

  lemma PatternBack(x: int16)
    ensures ToInt16(x % 0x1_0000) == x
  {
  }
}
