/**
 Numbers as big-endian digit sequences in any base.
 */
module Radix {
  import opened Limbs

  function Pow(b: nat, n: nat): nat {
    if n == 0 then 1 else b * Pow(b, n - 1)
  }

  lemma {:induction false} PowPositive(b: nat, n: nat)
    requires b > 0
    ensures Pow(b, n) > 0
  {
    if n > 0 { PowPositive(b, n - 1); }
  }

  lemma {:induction false} PowAdd(b: nat, m: nat, n: nat)
    ensures Pow(b, m + n) == Pow(b, m) * Pow(b, n)
  {
    hide Pow;
    PowUnfold(b, m);
    PowUnfold(b, m + n);
    if m > 0 {
      PowAdd(b, m - 1, n);
      Reorder(b, Pow(b, m - 1), Pow(b, n));
    }
  }

  lemma PowUnfold(b: nat, n: nat)
    ensures Pow(b, n) == if n == 0 then 1 else b * Pow(b, n - 1)
  {
  }

  lemma {:induction false} PowPow(b: nat, m: nat, n: nat)
    ensures Pow(Pow(b, m), n) == Pow(b, m * n)
  {
    hide Pow;
    PowUnfold(Pow(b, m), n);
    if n == 0 {
      PowUnfold(b, 0);
    } else {
      PowPow(b, m, n - 1);
      PowAdd(b, m, m * (n - 1));
      Distribute(n - 1, 1, m);
      assert m * n == m + m * (n - 1);
    }
  }

  lemma {:induction false} PowMonoBase(a: nat, b: nat, n: nat)
    requires a <= b
    ensures Pow(a, n) <= Pow(b, n)
  {
    hide Pow;
    PowUnfold(a, n);
    PowUnfold(b, n);
    if n > 0 {
      PowMonoBase(a, b, n - 1);
      Mono(a, b, Pow(a, n - 1));
      Mono(Pow(a, n - 1), Pow(b, n - 1), b);
    }
  }

  lemma {:induction false} PowStrictBase(a: nat, b: nat, n: nat)
    requires a < b && n > 0
    ensures Pow(a, n) < Pow(b, n)
  {
    hide Pow;
    PowUnfold(a, n);
    PowUnfold(b, n);
    PowUnfold(a, 0);
    PowUnfold(b, 0);
    if n > 1 {
      PowStrictBase(a, b, n - 1);
      StrictProduct(a, b, Pow(a, n - 1), Pow(b, n - 1));
    }
  }

  lemma StrictProduct(a: nat, b: nat, x: nat, y: nat)
    requires a < b && x < y
    ensures a * x < b * y
  {
    Mono(a, b, x);
    Mono(x + 1, y, b);
    Distribute(x, 1, b);
  }

  lemma {:induction false} PowMono(b: nat, m: nat, n: nat)
    requires b > 0 && m <= n
    ensures Pow(b, m) <= Pow(b, n)
  {
    hide Pow;
    if m < n {
      PowMono(b, m, n - 1);
      PowUnfold(b, n);
      Mono(1, b, Pow(b, n - 1));
    }
  }

  /** A rational bound on logarithms: from a^p <= b^q follows a^n <= b^m whenever p m >= q n. */
  lemma PowCompare(a: nat, b: nat, p: nat, q: nat, n: nat, m: nat, pn: nat, pm: nat, qn: nat)
    requires pn == p * n && pm == p * m && qn == q * n
    requires b > 0 && p > 0 && Pow(a, p) <= Pow(b, q) && qn <= pm
    ensures Pow(a, n) <= Pow(b, m)
  {
    hide Pow;
    PowSwap(a, p, n, pn);
    PowSwap(b, p, m, pm);
    PowSwap(b, q, n, qn);
    PowMonoBase(Pow(a, p), Pow(b, q), n);
    Compare(Pow(Pow(a, n), p), Pow(Pow(b, q), n), b, qn, pm, Pow(Pow(b, m), p));
    Root(Pow(a, n), Pow(b, m), p);
  }

  lemma Compare(x: nat, y: nat, b: nat, e: nat, f: nat, z: nat)
    requires b > 0 && x <= y == Pow(b, e) && e <= f && z == Pow(b, f)
    ensures x <= z
  {
    hide Pow;
    PowMono(b, e, f);
  }

  lemma PowSwap(b: nat, m: nat, n: nat, k: nat)
    requires k == m * n
    ensures Pow(Pow(b, m), n) == Pow(Pow(b, n), m) == Pow(b, k)
  {
    hide Pow;
    PowPow(b, m, n);
    PowPow(b, n, m);
    assert m * n == n * m;
  }

  lemma Root(x: nat, y: nat, p: nat)
    requires p > 0 && Pow(x, p) <= Pow(y, p)
    ensures x <= y
  {
    hide Pow;
    if x > y { PowStrictBase(y, x, p); }
  }

  /** 138/100 digits of base 58 per byte are enough. */
  lemma BytesFit58(n: nat)
    ensures Pow(256, n) <= Pow(58, n * 138 / 100 + 1)
  {
    hide Pow;
    Log256();
    var m := n * 138 / 100 + 1;
    PowCompare(256, 58, 8, 11, n, m, 8 * n, 8 * m, 11 * n);
  }

  lemma Log256()
    ensures Pow(256, 8) <= Pow(58, 11)
  {
  }

  /** 733/1000 bytes per base 58 digit are enough. */
  lemma DigitsFit256(n: nat)
    ensures Pow(58, n) <= Pow(256, n * 733 / 1000 + 1)
  {
    hide Pow;
    Log58();
    var m := n * 733 / 1000 + 1;
    PowCompare(58, 256, 71, 52, n, m, 71 * n, 71 * m, 52 * n);
  }

  lemma Log58()
    ensures Pow(58, 71) <= Pow(256, 52)
  {
    Powers58();
    Powers256();
    PowAdd(58, 64, 4);
    PowAdd(58, 68, 3);
    PowAdd(256, 32, 16);
    PowAdd(256, 48, 4);
  }

  lemma Powers58()
    ensures Pow(58, 3) == 0x2fa28 && Pow(58, 4) == 0xacad10
    ensures Pow(58, 64) == 0x7853026ae25f4ce0c69893e6f1f86f67aef4db69563516064adeb967a9d66f4fe64b09ec94e5010000000000000000
  {
    PowAdd(58, 4, 4);
    PowAdd(58, 8, 8);
    PowAdd(58, 16, 16);
    PowAdd(58, 32, 32);
  }

  lemma Powers256()
    ensures Pow(256, 4) == 0x100000000
    ensures Pow(256, 16) == 0x100000000000000000000000000000000
    ensures Pow(256, 32) == 0x10000000000000000000000000000000000000000000000000000000000000000
  {
    PowAdd(256, 4, 4);
    PowAdd(256, 8, 8);
    PowAdd(256, 16, 16);
  }

  // ----- digits

  function Value(b: nat, s: seq<nat>): nat {
    if s == [] then 0 else Value(b, s[..|s| - 1]) * b + s[|s| - 1]
  }

  predicate Below(b: nat, s: seq<nat>) { forall i :: 0 <= i < |s| ==> s[i] < b }

  predicate AllZero(s: seq<nat>) { forall i :: 0 <= i < |s| ==> s[i] == 0 }

  lemma {:induction false} ValueConcat(b: nat, s: seq<nat>, t: seq<nat>)
    ensures Value(b, s + t) == Value(b, s) * Pow(b, |t|) + Value(b, t)
  {
    hide Pow;
    PowUnfold(b, |t|);
    if t == [] {
      assert s + t == s;
    } else {
      var n := |t| - 1;
      ValueConcat(b, s, t[..n]);
      assert (s + t)[..|s| + n] == s + t[..n];
      Distribute(Value(b, s) * Pow(b, n), Value(b, t[..n]), b);
      Reorder(Value(b, s), Pow(b, n), b);
    }
  }

  lemma {:induction false} ValueBound(b: nat, s: seq<nat>)
    requires Below(b, s)
    ensures Value(b, s) < Pow(b, |s|)
  {
    hide Pow;
    PowUnfold(b, |s|);
    if s != [] {
      var n := |s| - 1;
      ValueBound(b, s[..n]);
      NextBelow(Value(b, s[..n]), Pow(b, n), b, s[n]);
    }
  }

  lemma NextBelow(v: nat, p: nat, b: nat, d: nat)
    requires v < p && d < b
    ensures v * b + d < b * p
  {
    Mono(v + 1, p, b);
    Distribute(v, 1, b);
  }

  lemma {:induction false} ValueZero(b: nat, s: seq<nat>)
    requires AllZero(s)
    ensures Value(b, s) == 0
  {
    if s != [] { ValueZero(b, s[..|s| - 1]); }
  }

  /** The digits of a number without leading zeros. */
  function Digits(b: nat, v: nat): seq<nat>
    requires b >= 2
  {
    if v == 0 then [] else
    Quotient(b, v);
    Digits(b, v / b) + [v % b]
  }

  lemma Quotient(b: nat, v: nat)
    requires b >= 2 && v > 0
    ensures 0 <= v / b < v && v == v / b * b + v % b && 0 <= v % b < b
  {
    var q := v / b;
    if q >= v { Mono(2, b, q); }
  }

  lemma {:induction false} DigitsMean(b: nat, v: nat)
    requires b >= 2
    ensures Value(b, Digits(b, v)) == v && Below(b, Digits(b, v)) && (v > 0 ==> Digits(b, v) != [] && Digits(b, v)[0] > 0)
    ensures Digits(b, v) == [] <==> v == 0
  {
    if v > 0 {
      Quotient(b, v);
      DigitsMean(b, v / b);
      var d := Digits(b, v);
      assert d[..|d| - 1] == Digits(b, v / b);
      if v / b == 0 { assert v % b == v; }
    }
  }

  /** Digits without a leading zero are the digits of their value. */
  lemma {:induction false} DigitsUnique(b: nat, s: seq<nat>)
    requires b >= 2 && Below(b, s) && (s != [] ==> s[0] > 0)
    ensures Digits(b, Value(b, s)) == s
  {
    if s != [] {
      var n := |s| - 1;
      DigitsUnique(b, s[..n]);
      var q := Value(b, s[..n]);
      DivModUnique(Value(b, s), q, s[n], b);
      if n > 0 { LeadingCounts(b, s[..n]); }
      Mono(0, q, b);
      assert s == s[..n] + [s[n]];
    }
  }

  lemma LeadingCounts(b: nat, s: seq<nat>)
    requires b >= 2 && s != []
    ensures Value(b, s) >= s[0] * Pow(b, |s| - 1)
  {
    assert s == [s[0]] + s[1..];
    ValueConcat(b, [s[0]], s[1..]);
    assert [s[0]][..0] == [];
    assert Value(b, [s[0]]) == s[0];
    PowPositive(b, |s| - 1);
    Mono(1, Pow(b, |s| - 1), s[0]);
  }

  /** A digit sequence that fills its length has no leading zero. */
  lemma FullLength(b: nat, s: seq<nat>)
    requires b >= 2 && Below(b, s) && s != [] && Value(b, s) >= Pow(b, |s| - 1)
    ensures s[0] > 0
  {
    if s[0] == 0 {
      assert s == [0] + s[1..];
      ValueConcat(b, [0], s[1..]);
      ValueZero(b, [0]);
      ValueBound(b, s[1..]);
    }
  }
}
