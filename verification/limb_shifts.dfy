/**
 Shifting a number of limbs by any number of bits, limb by limb.
 */
module LimbShifts {
  import opened Bits
  import opened Limbs

  function Zeros(n: nat): (z: seq<Limb>)
    ensures |z| == n && forall i :: 0 <= i < n ==> z[i] == 0
  {
    seq(n, i => 0)
  }

  /** x << s, cut to 32 bits. */
  function Lo(x: Limb, s: nat): Limb {
    x * Pow2(s) % BASE
  }

  /** x >> s */
  function Down(x: Limb, s: nat): (r: Limb) {
    Shrinks(x, Pow2(s));
    x / Pow2(s)
  }

  /** What x << s pushes out at the top. */
  function Hi(x: Limb, s: nat): (r: Limb)
    requires s < 32
  {
    if s == 0 then 0 else Down(x, 32 - s)
  }

  lemma Shrinks(x: nat, p: nat)
    requires p > 0
    ensures 0 <= x / p <= x
  {
    var q := x / p;
    Mono(1, p, q);
  }

  lemma SplitBase(s: nat)
    requires s <= 32
    ensures Pow2(s) * Pow2(32 - s) == BASE
  {
    Pow2Values();
    Pow2Add(s, 32 - s);
  }

  /** A shifted limb is its low part and its carry, and the low part leaves room for a carry. */
  lemma ShiftSplit(x: Limb, s: nat)
    requires s < 32
    ensures x * Pow2(s) == Lo(x, s) + BASE * Hi(x, s)
    ensures Hi(x, s) < Pow2(s) && Lo(x, s) == x % Pow2(32 - s) * Pow2(s)
  {
    SplitBase(s);
    var p, q := Pow2(s), Pow2(32 - s);
    var h, r := x / q, x % q;
    assert x == h * q + r;
    Distribute(h * q, r, p);
    Reorder(h, q, p);
    Mono(r + 1, q, p);
    Distribute(r, 1, p);
    DivModUnique(x * p, h, r * p, BASE);
    if s == 0 { assert h == 0 by { DivModUnique(x, 0, x, q); } }
    if h >= p { Mono(p, h, q); }
  }

  lemma LoRoom(x: Limb, s: nat)
    requires s < 32
    ensures Lo(x, s) <= BASE - Pow2(s)
  {
    ShiftSplit(x, s);
    SplitBase(s);
    var p, q := Pow2(s), Pow2(32 - s);
    Mono(x % q + 1, q, p);
    Distribute(x % q, 1, p);
  }

  /** Or-ing a low part onto a carry adds it. */
  lemma OrShift(h: nat, x: Limb, s: nat)
    requires s < 32 && h < Pow2(s)
    ensures BitOr(h, Lo(x, s)) == h + Lo(x, s) < BASE
  {
    hide BitOr;
    ShiftSplit(x, s);
    LoRoom(x, s);
    OrDisjoint(x % Pow2(32 - s), s, h);
    OrCommutes(h, Lo(x, s));
  }

  // ----- left

  /** Limb j of a left shift by k limbs and s bits. */
  function ShlLimb(a: seq<Limb>, k: nat, s: nat, j: nat): (r: Limb)
    requires s < 32 && j < |a|
  {
    if j < k then 0
    else if j == k then Lo(a[0], s)
    else
      ShiftSplit(a[j - k], s);
      ShiftSplit(a[j - k - 1], s);
      LoRoom(a[j - k], s);
      Lo(a[j - k], s) + Hi(a[j - k - 1], s)
  }

  function Shl(a: seq<Limb>, k: nat, s: nat): (r: seq<Limb>)
    requires s < 32
    ensures |r| == |a|
  {
    seq(|a|, j requires 0 <= j < |a| => ShlLimb(a, k, s, j))
  }

  lemma {:induction false} ShlBits(a: seq<Limb>, s: nat, n: nat)
    requires s < 32 && 0 < n <= |a|
    ensures V(Shl(a, 0, s)[..n]) + Hi(a[n - 1], s) * B(n) == V(a[..n]) * Pow2(s)
  {
    hide B, V, Lo, Hi;
    var r := Shl(a, 0, s);
    VNext(a, n - 1);
    VNext(r, n - 1);
    BNext(n - 1);
    ShiftSplit(a[n - 1], s);
    var x: int, y: int, b, p := Lo(a[n - 1], s), Hi(a[n - 1], s), B(n - 1), Pow2(s);
    Distribute(V(a[..n - 1]), a[n - 1] * b, p);
    Reorder(a[n - 1], b, p);
    Distribute(x, BASE * y, b);
    Reorder(BASE, y, b);
    if n == 1 {
      assert a[..0] == [] && r[..0] == [];
      VNil();
    } else {
      ShlBits(a, s, n - 1);
      var z: int := Hi(a[n - 2], s);
      Distribute(x, z, b);
    }
  }

  lemma VNil()
    ensures V([]) == 0
  {
  }

  lemma ShlLimbs(a: seq<Limb>, k: nat, s: nat)
    requires s < 32 && k <= |a|
    ensures Shl(a, k, s) == Zeros(k) + Shl(a, 0, s)[..|a| - k]
  {
  }

  /** A left shift multiplies, modulo the width. */
  lemma ShlValue(a: seq<Limb>, k: nat, s: nat)
    requires s < 32 && a != []
    ensures V(Shl(a, k, s)) == V(a) * Pow2(32 * k + s) % B(|a|)
  {
    hide V, Lo, Hi;
    var w, v, r := |a|, V(a), Shl(a, k, s);
    Pow2Add(32 * k, s);
    if k >= w {
      VZero(r);
      BAdd(w, k - w);
      Reorder(v * Pow2(s), B(k - w), B(w));
      Reorder(v, Pow2(s), B(k));
      DivModUnique(v * Pow2(32 * k + s), v * Pow2(s) * B(k - w), 0, B(w));
    } else {
      var bits := Shl(a, 0, s);
      ShlBits(a, s, w);
      assert bits[..w] == bits && a[..w] == a;
      ShlLimbs(a, k, s);
      VZero(Zeros(k));
      VConcat(Zeros(k), bits[..w - k]);
      assert bits == bits[..w - k] + bits[w - k..];
      VConcat(bits[..w - k], bits[w - k..]);
      VBound(r);
      BAdd(w - k, k);
      ShlSum(v, Pow2(s), V(bits[..w - k]), V(bits[w - k..]), Hi(a[w - 1], s), B(w - k), B(k), B(w));
      Reorder(v, Pow2(s), B(k));
      DivModUnique(v * Pow2(32 * k + s), V(bits[w - k..]) + Hi(a[w - 1], s) * B(k), V(r), B(w));
    }
  }

  lemma ShlSum(v: int, p: int, low: int, high: int, top: int, bl: int, bk: int, bw: int)
    requires low + high * bl + top * bw == v * p && bw == bl * bk
    ensures v * p * bk == (high + top * bk) * bw + low * bk
  {
    Distribute(low + high * bl, top * bw, bk);
    Distribute(low, high * bl, bk);
    Distribute(high, top * bk, bw);
    Reorder(high, bl, bk);
    Reorder(top, bw, bk);
  }

  // ----- right

  /** Limb j of a right shift by k limbs and s bits. */
  function ShrLimb(a: seq<Limb>, k: nat, s: nat, j: nat): (r: Limb)
    requires s < 32 && j < |a|
  {
    if j + k >= |a| then 0
    else if j + k + 1 >= |a| || s == 0 then Down(a[j + k], s)
    else
      ShrRoom(a[j + k], a[j + k + 1], s);
      Down(a[j + k], s) + Lo(a[j + k + 1], 32 - s)
  }

  lemma ShrRoom(x: Limb, y: Limb, s: nat)
    requires 0 < s < 32
    ensures Down(x, s) < Pow2(32 - s) && Lo(y, 32 - s) == y % Pow2(s) * Pow2(32 - s) <= BASE - Pow2(32 - s)
  {
    ShiftSplit(x, 32 - s);
    ShiftSplit(y, 32 - s);
    LoRoom(y, 32 - s);
  }

  function Shr(a: seq<Limb>, k: nat, s: nat): (r: seq<Limb>)
    requires s < 32
    ensures |r| == |a|
  {
    seq(|a|, j requires 0 <= j < |a| => ShrLimb(a, k, s, j))
  }

  /** The low bits of limb n, or nothing above the top. */
  function Tail(a: seq<Limb>, s: nat, n: nat): nat {
    if n < |a| then a[n] % Pow2(s) else 0
  }

  lemma {:induction false} ShrBits(a: seq<Limb>, s: nat, n: nat)
    requires s < 32 && n <= |a| && a != []
    ensures V(Shr(a, 0, s)[..n]) * Pow2(s) + a[0] % Pow2(s) == V(a[..n]) + Tail(a, s, n) * B(n)
  {
    hide B, V, Lo, Hi;
    var r, p := Shr(a, 0, s), Pow2(s);
    if n == 0 {
      VNil();
      BNext(0);
      assert a[..0] == [] && r[..0] == [];
    } else {
      ShrBits(a, s, n - 1);
      VNext(a, n - 1);
      VNext(r, n - 1);
      BNext(n - 1);
      var b, x: int := B(n - 1), a[n - 1];
      ShrLimbValue(a, s, n - 1);
      Distribute(V(r[..n - 1]), r[n - 1] * b, p);
      Reorder(r[n - 1], b, p);
      Distribute(x - x % p, BASE * Tail(a, s, n), b);
      Distribute(x, x % p, b);
      Reorder(BASE, Tail(a, s, n), b);
    }
  }

  lemma ShrLimbValue(a: seq<Limb>, s: nat, n: nat)
    requires s < 32 && n < |a|
    ensures Shr(a, 0, s)[n] * Pow2(s) == a[n] - a[n] % Pow2(s) + BASE * Tail(a, s, n + 1)
  {
    var p, x: int := Pow2(s), a[n];
    assert x == x / p * p + x % p;
    SplitBase(s);
    if n + 1 < |a| && s != 0 {
      ShrRoom(a[n], a[n + 1], s);
      var t := a[n + 1] % p;
      Distribute(x / p, t * Pow2(32 - s), p);
      Reorder(t, Pow2(32 - s), p);
    }
  }

  lemma ShrLimbs(a: seq<Limb>, k: nat, s: nat)
    requires s < 32 && k <= |a|
    ensures Shr(a, k, s) == Shr(a[k..], 0, s) + Zeros(k)
  {
  }

  /** A right shift divides and rounds down. */
  lemma ShrValue(a: seq<Limb>, k: nat, s: nat)
    requires s < 32
    ensures V(Shr(a, k, s)) == V(a) / Pow2(32 * k + s)
  {
    hide V, Lo;
    var w, v, r, p := |a|, V(a), Shr(a, k, s), Pow2(s);
    Pow2Add(32 * k, s);
    if k >= w {
      VZero(r);
      VBound(a);
      Pow2Mono(32 * w, 32 * k + s);
      DivModUnique(v, 0, v, Pow2(32 * k + s));
    } else {
      var h := a[k..];
      ShrBits(h, s, w - k);
      assert h[..w - k] == h && Shr(h, 0, s)[..w - k] == Shr(h, 0, s);
      DivModUnique(V(h), V(Shr(h, 0, s)), h[0] % p, p);
      VTake(a, k);
      ShrLimbs(a, k, s);
      VZero(Zeros(k));
      VConcat(Shr(h, 0, s), Zeros(k));
      DivDiv(v, B(k), p);
    }
  }

  lemma DivDiv(x: nat, m: nat, n: nat)
    requires m > 0 && n > 0
    ensures m * n > 0 && x / m / n == x / (m * n)
  {
    var q, r := x / m, x % m;
    var q2, r2 := q / n, q % n;
    assert x == q * m + r && q == q2 * n + r2;
    Distribute(q2 * n, r2, m);
    Reorder(q2, n, m);
    Mono(r2 + 1, n, m);
    Distribute(r2, 1, m);
    Mono(1, n, m);
    DivModUnique(x, q2, r2 * m + r, m * n);
  }
}
