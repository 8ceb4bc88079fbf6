/**
 Powers of two and bitwise operators on natural numbers.
 */
module Bits {

  function Pow2(n: nat): (r: nat)
    ensures r > 0
  {
    if n == 0 then 1 else 2 * Pow2(n - 1)
  }

  lemma {:induction false} Pow2Add(a: nat, b: nat)
    ensures Pow2(a + b) == Pow2(a) * Pow2(b)
  {
    if a > 0 {
      Pow2Add(a - 1, b);
      TwiceProduct(Pow2(a - 1), Pow2(b));
    }
  }

  lemma TwiceProduct(x: nat, y: nat)
    ensures 2 * (x * y) == 2 * x * y
  {
  }

  lemma {:induction false} Pow2Mono(a: nat, b: nat)
    requires a <= b
    ensures Pow2(a) <= Pow2(b)
    ensures a < b ==> Pow2(a) < Pow2(b)
  {
    if a < b { Pow2Mono(a, b - 1); }
  }

  lemma Pow2Values()
    ensures Pow2(7) == 0x80 && Pow2(8) == 0x100 && Pow2(15) == 0x8000 && Pow2(16) == 0x1_0000
    ensures Pow2(23) == 0x80_0000 && Pow2(24) == 0x100_0000 && Pow2(32) == 0x1_0000_0000
  {
    assert Pow2(4) == 16;
    Pow2Add(4, 4);
    Pow2Add(8, 8);
    Pow2Add(8, 16);
    Pow2Add(16, 16);
  }

  /** Bitwise and. */
  function BitAnd(x: nat, y: nat): (r: nat)
    ensures r <= x && r <= y
  {
    if x == 0 then 0 else (if x % 2 == 1 && y % 2 == 1 then 1 else 0) + 2 * BitAnd(x / 2, y / 2)
  }

  /** Bitwise or. */
  function BitOr(x: nat, y: nat): (r: nat)
    ensures x <= r <= x + y && y <= r
  {
    if x == 0 then y else (if x % 2 == 1 || y % 2 == 1 then 1 else 0) + 2 * BitOr(x / 2, y / 2)
  }

  lemma {:induction false} BitAndSelf(n: nat)
    ensures BitAnd(n, n) == n
  {
    if n != 0 { BitAndSelf(n / 2); }
  }

  /** Or of numbers with no bit in common is their sum. */
  lemma {:induction false} OrDisjoint(q: nat, s: nat, y: nat)
    requires y < Pow2(s)
    ensures BitOr(q * Pow2(s), y) == q * Pow2(s) + y
  {
    var x := q * Pow2(s);
    if s == 0 {
      assert BitOr(x, 0) == x by { OrZero(x); }
    } else {
      var half := q * Pow2(s - 1);
      assert x == 2 * half;
      OrDisjoint(q, s - 1, y / 2);
      assert x / 2 == half && x % 2 == 0;
    }
  }

  lemma {:induction false} OrZero(x: nat)
    ensures BitOr(x, 0) == x
  {
    if x != 0 { OrZero(x / 2); }
  }

  lemma {:induction false} OrCommutes(x: nat, y: nat)
    ensures BitOr(x, y) == BitOr(y, x)
  {
    if x == 0 || y == 0 {
      OrZero(x);
      OrZero(y);
    } else {
      OrCommutes(x / 2, y / 2);
    }
  }

  /** Or-ing in a bit that is clear adds it. */
  lemma {:induction false} OrMiddle(q: nat, s: nat, c: nat)
    requires c < Pow2(s)
    ensures BitOr(q * Pow2(s + 1) + c, Pow2(s)) == q * Pow2(s + 1) + c + Pow2(s)
  {
    var x := q * Pow2(s + 1) + c;
    assert Pow2(s + 1) == 2 * Pow2(s);
    var half := q * Pow2(s);
    assert q * Pow2(s + 1) == 2 * half;
    if x == 0 {
    } else if s == 0 {
      assert BitOr(x / 2, 0) == x / 2 by { OrZero(x / 2); }
    } else {
      OrMiddle(q, s - 1, c / 2);
      assert x / 2 == half + c / 2;
    }
  }

  /** The number of bits a number needs. */
  function BitLen(x: nat): (r: nat)
    ensures x < Pow2(r) && (r == 0 <==> x == 0) && (r > 0 ==> Pow2(r - 1) <= x)
  {
    if x == 0 then 0 else 1 + BitLen(x / 2)
  }

  lemma BitLenUnique(x: nat, r: nat)
    requires x < Pow2(r) && (r == 0 <==> x == 0) && (r > 0 ==> Pow2(r - 1) <= x)
    ensures r == BitLen(x)
  {
    var n := BitLen(x);
    if r < n { Pow2Mono(r, n - 1); }
    if n < r { Pow2Mono(n, r - 1); }
  }

  /** A bit of a number. */
  predicate Bit(x: nat, n: nat) {
    x / Pow2(n) % 2 == 1
  }
}
