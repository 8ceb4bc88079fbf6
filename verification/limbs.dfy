/**
 The number that a little-endian sequence of 32-bit limbs stands for.
 */
module Limbs {
  import opened Bits

  const BASE := 0x1_0000_0000

  type Limb = x: int | 0 <= x < BASE

  /** BASE to the n. */
  function B(n: nat): (r: nat)
    ensures r > 0
  {
    Pow2(32 * n)
  }

  lemma NoSign(a: nat, b: nat)
    ensures a * b >= 0
  {
  }

  function V(s: seq<Limb>): nat {
    hide B;
    if s == [] then 0 else
    var n := |s| - 1;
    NoSign(s[n], B(n));
    V(s[..n]) + s[n] * B(n)
  }

  lemma BNext(n: nat)
    ensures B(0) == 1 && B(n + 1) == BASE * B(n)
  {
    Pow2Values();
    Pow2Add(32, 32 * n);
  }

  lemma BAdd(m: nat, n: nat)
    ensures B(m + n) == B(m) * B(n)
  {
    Pow2Add(32 * m, 32 * n);
  }

  lemma Mono(a: int, b: int, c: nat)
    requires a <= b
    ensures a * c <= b * c
  {
  }

  lemma Distribute(a: int, b: int, c: int)
    ensures (a + b) * c == a * c + b * c && (a - b) * c == a * c - b * c
  {
  }

  lemma Reorder(a: int, b: int, c: int)
    ensures a * b * c == a * (c * b) == a * (b * c) == b * (a * c) == a * c * b
  {
  }

  lemma {:induction false} VBound(s: seq<Limb>)
    ensures V(s) < B(|s|)
  {
    hide B;
    BNext(0);
    if s != [] {
      var n := |s| - 1;
      VBound(s[..n]);
      BNext(n);
      Mono(s[n], BASE - 1, B(n));
    }
  }

  lemma {:induction false} VConcat(s: seq<Limb>, t: seq<Limb>)
    ensures V(s + t) == V(s) + V(t) * B(|s|)
  {
    hide B;
    if t == [] {
      assert s + t == s;
    } else {
      var n := |t| - 1;
      VConcat(s, t[..n]);
      assert (s + t)[..|s| + n] == s + t[..n];
      BAdd(|s|, n);
      Distribute(V(t[..n]), t[n] * B(n), B(|s|));
      Reorder(t[n], B(n), B(|s|));
    }
  }

  /** One more limb. */
  lemma VNext(s: seq<Limb>, n: nat)
    requires n < |s|
    ensures V(s[..n + 1]) == V(s[..n]) + s[n] * B(n)
  {
    assert s[..n + 1][..n] == s[..n];
  }

  lemma {:induction false} VPut(s: seq<Limb>, i: nat, x: Limb)
    requires i < |s|
    ensures V(s[i := x]) == V(s) + (x - s[i]) * B(i)
  {
    hide B;
    var n := |s| - 1;
    if i < n {
      VPut(s[..n], i, x);
      assert s[i := x][..n] == s[..n][i := x];
    } else {
      assert s[i := x][..n] == s[..n];
      Distribute(x, s[i], B(i));
    }
  }

  lemma {:induction false} VZero(s: seq<Limb>)
    ensures V(s) == 0 <==> forall i :: 0 <= i < |s| ==> s[i] == 0
  {
    hide B;
    if s != [] {
      var n := |s| - 1;
      VZero(s[..n]);
      if s[n] > 0 { assert s[n] * B(n) > 0; }
      assert forall i :: 0 <= i < n ==> s[..n][i] == s[i];
    }
  }

  /** The limb where two numbers first differ from the top decides. */
  lemma VLess(s: seq<Limb>, t: seq<Limb>, i: nat)
    requires |s| == |t| && i < |s| && s[i + 1..] == t[i + 1..] && s[i] < t[i]
    ensures V(s) < V(t)
  {
    hide B, V;
    assert s == s[..i + 1] + s[i + 1..] && t == t[..i + 1] + t[i + 1..];
    VConcat(s[..i + 1], s[i + 1..]);
    VConcat(t[..i + 1], t[i + 1..]);
    VNext(s, i);
    VNext(t, i);
    VBound(s[..i]);
    Mono(s[i] + 1, t[i], B(i));
    Distribute(s[i], 1, B(i));
  }

  lemma SmallMultiple(d: int, m: int)
    requires m > 0 && -m < d * m < m
    ensures d == 0
  {
    if d >= 1 { Mono(1, d, m); }
    if d <= -1 { Mono(d, -1, m); }
  }

  lemma DivModUnique(x: int, q: int, r: nat, m: nat)
    requires x == q * m + r && r < m
    ensures x / m == q && x % m == r
  {
    var d, p := x / m, x % m;
    assert x == d * m + p && 0 <= p < m;
    Distribute(d, q, m);
    SmallMultiple(d - q, m);
  }

  /** Low limbs are the remainder, high limbs the quotient. */
  lemma VTake(s: seq<Limb>, n: nat)
    requires n <= |s|
    ensures V(s[..n]) == V(s) % B(n) && V(s[n..]) == V(s) / B(n)
  {
    assert s == s[..n] + s[n..];
    VConcat(s[..n], s[n..]);
    VBound(s[..n]);
    DivModUnique(V(s), V(s[n..]), V(s[..n]), B(n));
  }
}
