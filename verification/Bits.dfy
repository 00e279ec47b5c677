/** Unsigned C integers as naturals: powers of two and the bitwise operators, bit by bit. */
module Bits {

  type byte = x: int | 0 <= x < 256

  type bit = x: int | 0 <= x < 2

  function Pow2(n: nat): (p: nat)
    ensures p >= 1
  {
    if n == 0 then 1 else 2 * Pow2(n - 1)
  }

  function And(a: nat, b: nat): (r: nat)
    ensures r <= a && r <= b
  {
    if a == 0 || b == 0 then 0
    else (if a % 2 == 1 && b % 2 == 1 then 1 else 0) + 2 * And(a / 2, b / 2)
  }

  function Or(a: nat, b: nat): nat
    decreases a + b
  {
    if a == 0 then b else if b == 0 then a
    else (if a % 2 == 1 || b % 2 == 1 then 1 else 0) + 2 * Or(a / 2, b / 2)
  }

  function Xor(a: nat, b: nat): nat
    decreases a + b
  {
    if a == 0 then b else if b == 0 then a
    else (if a % 2 != b % 2 then 1 else 0) + 2 * Xor(a / 2, b / 2)
  }

  /** The exclusive or of all bits of n. */
  function Parity(n: nat): bit {
    if n == 0 then 0 else (n % 2 + Parity(n / 2)) % 2
  }

  /** One step of each operator, on numbers split into their lowest bit and the rest. */
  lemma AndCons(x: nat, a: bit, y: nat, b: bit)
    ensures And(2 * x + a, 2 * y + b) == (if a == 1 && b == 1 then 1 else 0) + 2 * And(x, y)
  {
    var r, p := 2 * x + a, 2 * y + b;
    assert r / 2 == x && r % 2 == a && p / 2 == y && p % 2 == b;
  }

  lemma ParityCons(x: nat, a: bit)
    ensures Parity(2 * x + a) == (a + Parity(x)) % 2
  {
    var r := 2 * x + a;
    assert r / 2 == x && r % 2 == a;
  }

  /** Masking with n ones keeps the low n bits. */
  lemma {:induction false} AndOnes(n: nat, x: nat)
    requires x < Pow2(n)
    ensures And(Pow2(n) - 1, x) == x
  {
    if n != 0 {
      AndOnes(n - 1, x / 2);
    }
  }

  lemma ByteMask(x: byte)
    ensures And(0xff, x) == x
  {
    ShlByte(0);
    AndOnes(8, x);
  }

  /** Left and right shifts by a constant number of places. */
  function Shl(x: nat, n: nat): nat {
    if n == 0 then x else 2 * Shl(x, n - 1)
  }

  function Shr(x: nat, n: nat): nat {
    if n == 0 then x else Shr(x / 2, n - 1)
  }

  /** Bits that do not overlap: or is addition. */
  lemma {:induction false} OrDisjoint(n: nat, lo: nat, hi: nat)
    requires lo < Pow2(n)
    ensures Or(lo, Shl(hi, n)) == lo + Shl(hi, n)
  {
    if n != 0 && lo != 0 && Shl(hi, n) != 0 {
      OrDisjoint(n - 1, lo / 2, hi);
      var h := Shl(hi, n - 1);
      assert Shl(hi, n) == 2 * h;
      assert (2 * h) / 2 == h && (2 * h) % 2 == 0;
    }
  }

  lemma ShlByte(x: nat)
    ensures Shl(x, 8) == 256 * x
    ensures Pow2(8) == 256
  {
    assert Shl(x, 1) == 2 * x && Pow2(1) == 2;
    assert Shl(x, 2) == 4 * x && Pow2(2) == 4;
    assert Shl(x, 3) == 8 * x && Pow2(3) == 8;
    assert Shl(x, 4) == 16 * x && Pow2(4) == 16;
    assert Shl(x, 5) == 32 * x && Pow2(5) == 32;
    assert Shl(x, 6) == 64 * x && Pow2(6) == 64;
    assert Shl(x, 7) == 128 * x && Pow2(7) == 128;
  }

  lemma OrBytes(lo: byte, hi: byte)
    ensures Or(lo, hi * 256) == lo + hi * 256
  {
    ShlByte(hi);
    OrDisjoint(8, lo, hi);
  }

  const WORD := 0x1_0000_0000

  lemma Pow2Eight(n: nat)
    ensures Pow2(n + 8) == 256 * Pow2(n)
  {
    assert Pow2(n + 2) == 4 * Pow2(n);
    assert Pow2(n + 4) == 4 * Pow2(n + 2);
    assert Pow2(n + 6) == 4 * Pow2(n + 4);
  }

  lemma WordSize()
    ensures Pow2(32) == WORD && Pow2(31) == WORD / 2
  {
    Pow2Eight(0);
    Pow2Eight(8);
    Pow2Eight(16);
    Pow2Eight(24);
  }

  lemma {:induction false} Pow2Grows(m: nat, n: nat)
    requires m <= n
    ensures Pow2(m) <= Pow2(n)
  {
    if m < n { Pow2Grows(m, n - 1); }
  }
}
