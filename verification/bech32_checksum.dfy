/**
 The Bech32 checksum: remainders of polynomials over GF(32), and the packed form the source computes with.
 */
module Bech32Checksum {

  type Symbol = bv5

  // ----- arithmetic in GF(32), with a^5 = a^3 + 1

  function Plus(a: Symbol, b: Symbol): Symbol { a ^ b }

  lemma PlusPairs(a: Symbol, b: Symbol, c: Symbol, d: Symbol)
    ensures Plus(Plus(a, b), Plus(c, d)) == Plus(Plus(a, c), Plus(b, d))
  {
  }

  lemma PlusAssociates(a: Symbol, b: Symbol, c: Symbol)
    ensures Plus(Plus(a, b), c) == Plus(a, Plus(b, c))
  {
  }

  lemma PlusCancels(a: Symbol, b: Symbol)
    ensures Plus(a, a) == 0 && Plus(a, 0) == a && Plus(0, a) == a && Plus(a, Plus(a, b)) == b
  {
  }

  function Times2(a: Symbol): Symbol {
    Plus(a << 1, if a & 16 != 0 then 9 else 0)
  }

  function If(on: bool, a: Symbol): Symbol { if on then a else 0 }

  function Sum5(a: Symbol, b: Symbol, c: Symbol, d: Symbol, e: Symbol): Symbol {
    Plus(Plus(Plus(Plus(a, b), c), d), e)
  }

  /** The product, from the bits of the first factor. */
  function Times(k: Symbol, a: Symbol): Symbol {
    var a2 := Times2(a);
    var a4 := Times2(a2);
    var a8 := Times2(a4);
    var a16 := Times2(a8);
    Sum5(If(k & 1 != 0, a), If(k & 2 != 0, a2), If(k & 4 != 0, a4), If(k & 8 != 0, a8), If(k & 16 != 0, a16))
  }

  lemma Times2Linear(a: Symbol, b: Symbol)
    ensures Times2(Plus(a, b)) == Plus(Times2(a), Times2(b))
  {
  }

  lemma IfLinear(on: bool, a: Symbol, b: Symbol)
    ensures If(on, Plus(a, b)) == Plus(If(on, a), If(on, b))
  {
  }

  lemma Sum5Linear(a: Symbol, b: Symbol, c: Symbol, d: Symbol, e: Symbol, f: Symbol, g: Symbol, h: Symbol, i: Symbol, j: Symbol)
    ensures Sum5(Plus(a, f), Plus(b, g), Plus(c, h), Plus(d, i), Plus(e, j)) == Plus(Sum5(a, b, c, d, e), Sum5(f, g, h, i, j))
  {
    hide Plus;
    PlusPairs(a, f, b, g);
    PlusPairs(Plus(a, b), Plus(f, g), c, h);
    PlusPairs(Plus(Plus(a, b), c), Plus(Plus(f, g), h), d, i);
    PlusPairs(Plus(Plus(Plus(a, b), c), d), Plus(Plus(Plus(f, g), h), i), e, j);
  }

  lemma TimesLinear(k: Symbol, a: Symbol, b: Symbol)
    ensures Times(k, Plus(a, b)) == Plus(Times(k, a), Times(k, b))
  {
    hide Plus, Times2, If, Sum5;
    var a2, b2 := Times2(a), Times2(b);
    var a4, b4 := Times2(a2), Times2(b2);
    var a8, b8 := Times2(a4), Times2(b4);
    var a16, b16 := Times2(a8), Times2(b8);
    Times2Linear(a, b);
    Times2Linear(a2, b2);
    Times2Linear(a4, b4);
    Times2Linear(a8, b8);
    IfLinear(k & 1 != 0, a, b);
    IfLinear(k & 2 != 0, a2, b2);
    IfLinear(k & 4 != 0, a4, b4);
    IfLinear(k & 8 != 0, a8, b8);
    IfLinear(k & 16 != 0, a16, b16);
    Sum5Linear(If(k & 1 != 0, a), If(k & 2 != 0, a2), If(k & 4 != 0, a4), If(k & 8 != 0, a8), If(k & 16 != 0, a16),
               If(k & 1 != 0, b), If(k & 2 != 0, b2), If(k & 4 != 0, b4), If(k & 8 != 0, b8), If(k & 16 != 0, b16));
  }

  /** Multiplying the constant term of the generator by anything but zero gives something but zero. */
  lemma TimesZero(a: Symbol)
    ensures Times(18, a) == 0 <==> a == 0
  {
  }

  lemma TimesNothing(a: Symbol)
    requires a == 0
    ensures Times(29, a) == 0 && Times(22, a) == 0 && Times(20, a) == 0 && Times(21, a) == 0 && Times(18, a) == 0
  {
  }

  // ----- remainders

  /** A polynomial of degree below six, the highest coefficient first. */
  datatype Poly = Poly(c0: Symbol, c1: Symbol, c2: Symbol, c3: Symbol, c4: Symbol, c5: Symbol)

  const ZERO := Poly(0, 0, 0, 0, 0, 0)

  const ONE := Poly(0, 0, 0, 0, 0, 1)

  function Add(p: Poly, q: Poly): Poly {
    Poly(Plus(p.c0, q.c0), Plus(p.c1, q.c1), Plus(p.c2, q.c2), Plus(p.c3, q.c3), Plus(p.c4, q.c4), Plus(p.c5, q.c5))
  }

  /** x^6 modulo the generator x^6 + 29 x^5 + 22 x^4 + 20 x^3 + 21 x^2 + 29 x + 18, times a coefficient. */
  function TimesX6(a: Symbol): Poly {
    Poly(Times(29, a), Times(22, a), Times(20, a), Times(21, a), Times(29, a), Times(18, a))
  }

  function ShiftUp(p: Poly, v: Symbol): Poly { Poly(p.c1, p.c2, p.c3, p.c4, p.c5, v) }

  /** p(x) x + v modulo the generator. */
  function Advance(p: Poly, v: Symbol): Poly {
    Add(ShiftUp(p, v), TimesX6(p.c0))
  }

  function Remainder(p: Poly, v: seq<Symbol>): Poly {
    if v == [] then p else Advance(Remainder(p, v[..|v| - 1]), v[|v| - 1])
  }

  // ----- the packed form

  function Pack(p: Poly): bv32 {
    ((p.c0 as bv32) << 25) | ((p.c1 as bv32) << 20) | ((p.c2 as bv32) << 15)
    | ((p.c3 as bv32) << 10) | ((p.c4 as bv32) << 5) | (p.c5 as bv32)
  }

  function AddIf(on: bool, c: bv32, k: bv32): bv32 { if on then c ^ k else c }

  function ShiftIn(c: bv32, v: Symbol): bv32 { ((c & 0x1ffffff) << 5) ^ (v as bv32) }

  /** For each bit of the coefficient that falls off the top, a constant is added. */
  function AddMultiples(c0: bv32, c: bv32): bv32 {
    var d1 := AddIf(c0 & 1 != 0, c, 0x3b6a57b2);
    var d2 := AddIf(c0 & 2 != 0, d1, 0x26508e6d);
    var d3 := AddIf(c0 & 4 != 0, d2, 0x1ea119fa);
    var d4 := AddIf(c0 & 8 != 0, d3, 0x3d4233dd);
    AddIf(c0 & 16 != 0, d4, 0x2a1462b3)
  }

  function PolyIf(on: bool, p: Poly, k: Poly): Poly { if on then Add(p, k) else p }

  lemma AddIfIs(on: bool, p: Poly, k: Poly)
    ensures AddIf(on, Pack(p), Pack(k)) == Pack(PolyIf(on, p, k))
  {
    hide Pack, Add;
    PackAdd(p, k);
  }

  /** The five constants of the source are x^6 modulo the generator times 1, 2, 4, 8 and 16. */
  lemma ConstantsAre()
    ensures Pack(Poly(29, 22, 20, 21, 29, 18)) == 0x3b6a57b2
    ensures Pack(Poly(19, 5, 1, 3, 19, 13)) == 0x26508e6d
    ensures Pack(Poly(15, 10, 2, 6, 15, 26)) == 0x1ea119fa
    ensures Pack(Poly(30, 20, 4, 12, 30, 29)) == 0x3d4233dd
    ensures Pack(Poly(21, 1, 8, 24, 21, 19)) == 0x2a1462b3
  {
  }

  function SymbolIf(on: bool, c: Symbol, m: Symbol): Symbol { if on then Plus(c, m) else c }

  /** Adding the multiples for each bit of a in turn. */
  function Chain(a: Symbol, c: Symbol, m1: Symbol, m2: Symbol, m4: Symbol, m8: Symbol, m16: Symbol): Symbol {
    SymbolIf(a & 16 != 0, SymbolIf(a & 8 != 0, SymbolIf(a & 4 != 0, SymbolIf(a & 2 != 0, SymbolIf(a & 1 != 0, c, m1), m2), m4), m8), m16)
  }

  lemma SymbolIfIs(on: bool, c: Symbol, m: Symbol)
    ensures SymbolIf(on, c, m) == Plus(c, If(on, m))
  {
  }

  lemma ChainIs(a: Symbol, c: Symbol, m1: Symbol, m2: Symbol, m4: Symbol, m8: Symbol, m16: Symbol)
    ensures Chain(a, c, m1, m2, m4, m8, m16)
         == Plus(c, Sum5(If(a & 1 != 0, m1), If(a & 2 != 0, m2), If(a & 4 != 0, m4), If(a & 8 != 0, m8), If(a & 16 != 0, m16)))
  {
    hide Plus, If, SymbolIf;
    var t1, t2, t4, t8 := If(a & 1 != 0, m1), If(a & 2 != 0, m2), If(a & 4 != 0, m4), If(a & 8 != 0, m8);
    var t16 := If(a & 16 != 0, m16);
    var s1 := Plus(c, t1);
    var s2 := Plus(s1, t2);
    var s4 := Plus(s2, t4);
    var s8 := Plus(s4, t8);
    SymbolIfIs(a & 1 != 0, c, m1);
    SymbolIfIs(a & 2 != 0, s1, m2);
    SymbolIfIs(a & 4 != 0, s2, m4);
    SymbolIfIs(a & 8 != 0, s4, m8);
    SymbolIfIs(a & 16 != 0, s8, m16);
    PlusAssociates(c, t1, t2);
    PlusAssociates(c, Plus(t1, t2), t4);
    PlusAssociates(c, Plus(Plus(t1, t2), t4), t8);
    PlusAssociates(c, Plus(Plus(Plus(t1, t2), t4), t8), t16);
  }

  /** Products by the generator's coefficients, from the bits of the second factor. */
  lemma TimesByBits(a: Symbol)
    ensures Times(29, a) == Sum5(If(a & 1 != 0, 29), If(a & 2 != 0, 19), If(a & 4 != 0, 15), If(a & 8 != 0, 30), If(a & 16 != 0, 21))
    ensures Times(22, a) == Sum5(If(a & 1 != 0, 22), If(a & 2 != 0, 5), If(a & 4 != 0, 10), If(a & 8 != 0, 20), If(a & 16 != 0, 1))
    ensures Times(20, a) == Sum5(If(a & 1 != 0, 20), If(a & 2 != 0, 1), If(a & 4 != 0, 2), If(a & 8 != 0, 4), If(a & 16 != 0, 8))
  {
  }

  lemma TimesByBitsToo(a: Symbol)
    ensures Times(21, a) == Sum5(If(a & 1 != 0, 21), If(a & 2 != 0, 3), If(a & 4 != 0, 6), If(a & 8 != 0, 12), If(a & 16 != 0, 24))
    ensures Times(18, a) == Sum5(If(a & 1 != 0, 18), If(a & 2 != 0, 13), If(a & 4 != 0, 26), If(a & 8 != 0, 29), If(a & 16 != 0, 19))
  {
  }

  lemma MaskBits(a: Symbol)
    ensures ((a as bv32) & 1 != 0) == (a & 1 != 0) && ((a as bv32) & 2 != 0) == (a & 2 != 0) && ((a as bv32) & 4 != 0) == (a & 4 != 0)
    ensures ((a as bv32) & 8 != 0) == (a & 8 != 0) && ((a as bv32) & 16 != 0) == (a & 16 != 0)
  {
  }

  lemma MultiplesAre(a: Symbol, p: Poly)
    ensures AddMultiples(a as bv32, Pack(p)) == Pack(Add(p, TimesX6(a)))
  {
    hide Pack, AddIf, If, Plus, Times, Sum5, SymbolIf;
    MaskBits(a);
    ConstantsAre();
    var p1 := PolyIf(a & 1 != 0, p, Poly(29, 22, 20, 21, 29, 18));
    var p2 := PolyIf(a & 2 != 0, p1, Poly(19, 5, 1, 3, 19, 13));
    var p4 := PolyIf(a & 4 != 0, p2, Poly(15, 10, 2, 6, 15, 26));
    var p8 := PolyIf(a & 8 != 0, p4, Poly(30, 20, 4, 12, 30, 29));
    var p16 := PolyIf(a & 16 != 0, p8, Poly(21, 1, 8, 24, 21, 19));
    AddIfIs(a & 1 != 0, p, Poly(29, 22, 20, 21, 29, 18));
    AddIfIs(a & 2 != 0, p1, Poly(19, 5, 1, 3, 19, 13));
    AddIfIs(a & 4 != 0, p2, Poly(15, 10, 2, 6, 15, 26));
    AddIfIs(a & 8 != 0, p4, Poly(30, 20, 4, 12, 30, 29));
    AddIfIs(a & 16 != 0, p8, Poly(21, 1, 8, 24, 21, 19));
    ChainPoly(a, p, p1, p2, p4, p8, p16);
  }

  lemma ChainPoly(a: Symbol, p: Poly, p1: Poly, p2: Poly, p4: Poly, p8: Poly, p16: Poly)
    requires p1 == PolyIf(a & 1 != 0, p, Poly(29, 22, 20, 21, 29, 18))
    requires p2 == PolyIf(a & 2 != 0, p1, Poly(19, 5, 1, 3, 19, 13))
    requires p4 == PolyIf(a & 4 != 0, p2, Poly(15, 10, 2, 6, 15, 26))
    requires p8 == PolyIf(a & 8 != 0, p4, Poly(30, 20, 4, 12, 30, 29))
    requires p16 == PolyIf(a & 16 != 0, p8, Poly(21, 1, 8, 24, 21, 19))
    ensures p16 == Add(p, TimesX6(a))
  {
    hide If, Plus, Times, Sum5;
    TimesByBits(a);
    TimesByBitsToo(a);
    ChainIs(a, p.c0, 29, 19, 15, 30, 21);
    ChainIs(a, p.c1, 22, 5, 10, 20, 1);
    ChainIs(a, p.c2, 20, 1, 2, 4, 8);
    ChainIs(a, p.c3, 21, 3, 6, 12, 24);
    ChainIs(a, p.c4, 29, 19, 15, 30, 21);
    ChainIs(a, p.c5, 18, 13, 26, 29, 19);
  }

  lemma TopGroup(p: Poly, v: Symbol)
    ensures Pack(p) >> 25 == p.c0 as bv32
    ensures ShiftIn(Pack(p), v) == Pack(ShiftUp(p, v))
  {
  }

  lemma PackAdd(p: Poly, q: Poly)
    ensures Pack(Add(p, q)) == Pack(p) ^ Pack(q)
  {
  }

  /** One round of the source's loop. */
  function Step(c: bv32, v: Symbol): bv32 {
    AddMultiples(c >> 25, ShiftIn(c, v))
  }

  /** The packed computation is polynomial division. */
  lemma StepIs(p: Poly, v: Symbol)
    ensures Step(Pack(p), v) == Pack(Advance(p, v))
  {
    hide Pack, TimesX6, ShiftIn, AddMultiples, Add;
    TopGroup(p, v);
    MultiplesAre(p.c0, ShiftUp(p, v));
  }

  lemma PackStart()
    ensures Pack(ONE) == 1
  {
  }

  method PolyMod(v: seq<Symbol>) returns (c: bv32)
    ensures c == Pack(Remainder(ONE, v))
  {
    hide Pack, Advance, ShiftIn, AddIf;
    c := 1;
    PackStart();
    for i := 0 to |v|
      invariant c == Pack(Remainder(ONE, v[..i]))
    {
      assert v[..i + 1][..i] == v[..i];
      StepIs(Remainder(ONE, v[..i]), v[i]);
      var c0 := c >> 25;
      c := ShiftIn(c, v[i]);
      c := AddIf(c0 & 1 != 0, c, 0x3b6a57b2);
      c := AddIf(c0 & 2 != 0, c, 0x26508e6d);
      c := AddIf(c0 & 4 != 0, c, 0x1ea119fa);
      c := AddIf(c0 & 8 != 0, c, 0x3d4233dd);
      c := AddIf(c0 & 16 != 0, c, 0x2a1462b3);
    }
    assert v[..|v|] == v;
  }

  // ----- linearity

  lemma AddPairs(p: Poly, q: Poly, r: Poly, s: Poly)
    ensures Add(Add(p, q), Add(r, s)) == Add(Add(p, r), Add(q, s))
  {
    hide Plus;
    PlusPairs(p.c0, q.c0, r.c0, s.c0);
    PlusPairs(p.c1, q.c1, r.c1, s.c1);
    PlusPairs(p.c2, q.c2, r.c2, s.c2);
    PlusPairs(p.c3, q.c3, r.c3, s.c3);
    PlusPairs(p.c4, q.c4, r.c4, s.c4);
    PlusPairs(p.c5, q.c5, r.c5, s.c5);
  }

  lemma AddTwice(p: Poly, q: Poly)
    ensures Add(p, p) == ZERO && Add(p, ZERO) == p && Add(ZERO, p) == p && Add(p, Add(p, q)) == q
    ensures Add(p, q) == ZERO ==> p == q
  {
    hide Plus;
    PlusCancels(p.c0, q.c0);
    PlusCancels(p.c1, q.c1);
    PlusCancels(p.c2, q.c2);
    PlusCancels(p.c3, q.c3);
    PlusCancels(p.c4, q.c4);
    PlusCancels(p.c5, q.c5);
  }

  lemma TimesX6Linear(a: Symbol, b: Symbol)
    ensures TimesX6(Plus(a, b)) == Add(TimesX6(a), TimesX6(b))
  {
    hide Times, Plus;
    TimesLinear(29, a, b);
    TimesLinear(22, a, b);
    TimesLinear(20, a, b);
    TimesLinear(21, a, b);
    TimesLinear(18, a, b);
  }

  lemma ShiftUpLinear(p: Poly, q: Poly, v: Symbol, w: Symbol)
    ensures ShiftUp(Add(p, q), Plus(v, w)) == Add(ShiftUp(p, v), ShiftUp(q, w)) && Add(p, q).c0 == Plus(p.c0, q.c0)
  {
    hide Plus;
  }

  lemma AdvanceLinear(p: Poly, q: Poly, v: Symbol, w: Symbol)
    ensures Advance(Add(p, q), Plus(v, w)) == Add(Advance(p, v), Advance(q, w))
  {
    hide TimesX6, Add, ShiftUp, Plus;
    TimesX6Linear(p.c0, q.c0);
    ShiftUpLinear(p, q, v, w);
    AddPairs(ShiftUp(p, v), ShiftUp(q, w), TimesX6(p.c0), TimesX6(q.c0));
  }

  /** Symbol by symbol. */
  function XorAll(v: seq<Symbol>, w: seq<Symbol>): (r: seq<Symbol>)
    requires |v| == |w|
    ensures |r| == |v| && forall i :: 0 <= i < |v| ==> r[i] == Plus(v[i], w[i])
  {
    seq(|v|, i requires 0 <= i < |v| => Plus(v[i], w[i]))
  }

  /** The checksum is linear: the remainder of a sum is the sum of the remainders. */
  lemma {:induction false} RemainderLinear(p: Poly, q: Poly, v: seq<Symbol>, w: seq<Symbol>)
    requires |v| == |w|
    ensures Remainder(Add(p, q), XorAll(v, w)) == Add(Remainder(p, v), Remainder(q, w))
  {
    hide Advance, Add, Plus;
    if v != [] {
      var n := |v| - 1;
      RemainderLinear(p, q, v[..n], w[..n]);
      assert XorAll(v, w)[..n] == XorAll(v[..n], w[..n]);
      AdvanceLinear(Remainder(p, v[..n]), Remainder(q, w[..n]), v[n], w[n]);
    }
  }

  lemma {:induction false} RemainderConcat(p: Poly, v: seq<Symbol>, w: seq<Symbol>)
    ensures Remainder(p, v + w) == Remainder(Remainder(p, v), w)
  {
    hide Advance;
    if w == [] {
      assert v + w == v;
    } else {
      var n := |w| - 1;
      RemainderConcat(p, v, w[..n]);
      assert (v + w)[..|v| + n] == v + w[..n];
    }
  }

  lemma TimesX6Zero(a: Symbol)
    requires a == 0
    ensures TimesX6(a) == ZERO
  {
    hide Times;
    TimesNothing(a);
  }

  lemma AdvanceLow(p: Poly, v: Symbol)
    requires p.c0 == 0
    ensures Advance(p, v) == ShiftUp(p, v)
  {
    hide TimesX6, Add;
    TimesX6Zero(p.c0);
    AddTwice(ShiftUp(p, v), ZERO);
  }

  lemma LastCoefficient(p: Poly)
    ensures Advance(p, 0).c5 == Times(18, p.c0)
  {
    hide Times, Plus;
    PlusCancels(Times(18, p.c0), 0);
  }

  /** Multiplying by x loses nothing, because the generator has a nonzero constant term. */
  lemma AdvanceInjective(p: Poly)
    ensures Advance(p, 0) == ZERO <==> p == ZERO
  {
    hide Times, Advance;
    LastCoefficient(p);
    TimesZero(p.c0);
    if p.c0 == 0 { AdvanceLow(p, 0); }
  }

  ghost predicate AllZero(v: seq<Symbol>) { forall i :: 0 <= i < |v| ==> v[i] == 0 }

  lemma {:induction false} ZerosInjective(p: Poly, v: seq<Symbol>)
    requires AllZero(v)
    ensures Remainder(p, v) == ZERO <==> p == ZERO
  {
    hide Advance;
    if v != [] {
      var n := |v| - 1;
      ZerosInjective(p, v[..n]);
      AdvanceInjective(Remainder(p, v[..n]));
    }
  }

  // ----- six symbols

  function FromSymbols(v: seq<Symbol>): Poly
    requires |v| == 6
  {
    Poly(v[0], v[1], v[2], v[3], v[4], v[5])
  }

  function ToSymbols(p: Poly): (v: seq<Symbol>)
    ensures |v| == 6 && FromSymbols(v) == p
  {
    [p.c0, p.c1, p.c2, p.c3, p.c4, p.c5]
  }

  /** Up to six symbols are their own remainder. */
  lemma RemainderOfSix(v: seq<Symbol>)
    requires |v| == 6
    ensures Remainder(ZERO, v) == FromSymbols(v)
  {
    hide Advance;
    assert v[..0] == [] && v[..6] == v;
    assert v[..1][..0] == v[..0] && v[..2][..1] == v[..1] && v[..3][..2] == v[..2];
    assert v[..4][..3] == v[..3] && v[..5][..4] == v[..4];
    AdvanceLow(ZERO, v[0]);
    assert Remainder(ZERO, v[..1]) == Poly(0, 0, 0, 0, 0, v[0]);
    AdvanceLow(Poly(0, 0, 0, 0, 0, v[0]), v[1]);
    assert Remainder(ZERO, v[..2]) == Poly(0, 0, 0, 0, v[0], v[1]);
    AdvanceLow(Poly(0, 0, 0, 0, v[0], v[1]), v[2]);
    assert Remainder(ZERO, v[..3]) == Poly(0, 0, 0, v[0], v[1], v[2]);
    AdvanceLow(Poly(0, 0, 0, v[0], v[1], v[2]), v[3]);
    assert Remainder(ZERO, v[..4]) == Poly(0, 0, v[0], v[1], v[2], v[3]);
    AdvanceLow(Poly(0, 0, v[0], v[1], v[2], v[3]), v[4]);
    assert Remainder(ZERO, v[..5]) == Poly(0, v[0], v[1], v[2], v[3], v[4]);
    AdvanceLow(Poly(0, v[0], v[1], v[2], v[3], v[4]), v[5]);
  }

  function Zeros(n: nat): (z: seq<Symbol>)
    ensures |z| == n && AllZero(z)
  {
    seq(n, i => 0)
  }

  /** Six final symbols are added to the remainder that six zeros would give. */
  lemma FinalSix(pre: seq<Symbol>, cs: seq<Symbol>)
    requires |cs| == 6
    ensures Remainder(ONE, pre + cs) == Add(Remainder(ONE, pre + Zeros(6)), FromSymbols(cs))
  {
    hide Advance, Add, Plus;
    var z := Zeros(|pre|);
    RemainderLinear(ONE, ZERO, pre + Zeros(6), z + cs);
    AddTwice(ONE, ZERO);
    assert XorAll(pre + Zeros(6), z + cs) == pre + cs by {
      forall i | 0 <= i < |pre| + 6 ensures XorAll(pre + Zeros(6), z + cs)[i] == (pre + cs)[i] { PlusCancels((pre + cs)[i], 0); }
    }
    RemainderConcat(ZERO, z, cs);
    ZerosInjective(ZERO, z);
    RemainderOfSix(cs);
  }

  /** The six symbols that make a remainder a given constant are unique. */
  lemma ChecksumUnique(pre: seq<Symbol>, cs: seq<Symbol>, target: Poly)
    requires |cs| == 6
    ensures Remainder(ONE, pre + cs) == target <==> FromSymbols(cs) == Add(Remainder(ONE, pre + Zeros(6)), target)
  {
    hide Advance, Add, Remainder;
    FinalSix(pre, cs);
    var r, c := Remainder(ONE, pre + Zeros(6)), FromSymbols(cs);
    AddTwice(r, c);
    AddTwice(r, target);
  }

  // ----- burst errors

  /**
   A nonzero change confined to six consecutive symbols always changes the remainder, however
   long the input.
   */
  lemma BurstDetected(pre: seq<Symbol>, a: seq<Symbol>, b: seq<Symbol>, post: seq<Symbol>)
    requires |a| == |b| == 6 && a != b
    ensures Remainder(ONE, pre + a + post) != Remainder(ONE, pre + b + post)
  {
    hide Advance, Add, Plus;
    RemainderConcat(ONE, pre + a, post);
    RemainderConcat(ONE, pre + b, post);
    SixDiffer(pre, a, b);
    DifferenceLasts(Remainder(ONE, pre + a), Remainder(ONE, pre + b), post);
  }

  lemma SixDiffer(pre: seq<Symbol>, a: seq<Symbol>, b: seq<Symbol>)
    requires |a| == |b| == 6 && a != b
    ensures Remainder(ONE, pre + a) != Remainder(ONE, pre + b)
  {
    hide Advance, Add, Remainder;
    FinalSix(pre, a);
    FinalSix(pre, b);
    var r := Remainder(ONE, pre + Zeros(6));
    AddTwice(r, FromSymbols(a));
    AddTwice(r, FromSymbols(b));
    assert ToSymbols(FromSymbols(a)) == a && ToSymbols(FromSymbols(b)) == b;
  }

  /** Different remainders stay different over the same symbols. */
  lemma DifferenceLasts(p: Poly, q: Poly, post: seq<Symbol>)
    requires p != q
    ensures Remainder(p, post) != Remainder(q, post)
  {
    hide Advance, Add, Remainder, Plus;
    RemainderLinear(p, q, post, post);
    forall i | 0 <= i < |post| ensures XorAll(post, post)[i] == 0 { PlusCancels(post[i], 0); }
    ZerosInjective(Add(p, q), XorAll(post, post));
    AddTwice(p, q);
    AddTwice(Remainder(p, post), Remainder(q, post));
  }
}
