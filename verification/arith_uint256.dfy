/**
 Unsigned integers of a fixed number of 32-bit limbs, updated in place.
 */
module ArithUint {
  import opened Bits
  import opened Limbs
  import opened LimbShifts

  lemma CarryStep(n: nat)
    requires n < BASE * BASE
    ensures 0 <= n % BASE < BASE && 0 <= n / BASE < BASE && n == n % BASE + BASE * (n / BASE)
  {
  }

  /** One limb of a carry loop: lo and hi are the halves of the limb's new value. */
  lemma CarryNext(low: nat, carry: nat, lo: nat, hi: nat, add: int, at: nat)
    requires carry + add == lo + BASE * hi
    ensures low + carry * B(at) + add * B(at) == low + lo * B(at) + hi * B(at + 1)
  {
    hide B;
    BNext(at);
    Distribute(carry, add, B(at));
    Distribute(lo, BASE * hi, B(at));
    Reorder(BASE, hi, B(at));
  }

  lemma Wrapped(v: nat, carry: nat, w: nat, total: nat)
    requires v + carry * B(w) == total && v < B(w)
    ensures v == total % B(w)
  {
    DivModUnique(total, carry, v, B(w));
  }

  class BaseUint {
    const width: nat
    const pn: array<Limb>

    ghost predicate Ok() {
      width > 0 && pn.Length == width
    }

    ghost function Val(): (v: nat)
      requires Ok()
      reads pn
      ensures v < B(width)
    {
      VBound(pn[..]);
      V(pn[..])
    }

    constructor Zero(w: nat)
      requires w > 0
      ensures Ok() && width == w && fresh(pn) && Val() == 0
    {
      width := w;
      pn := new Limb[w](i => 0);
      new;
      VZero(pn[..]);
    }

    constructor Copy(b: BaseUint)
      requires b.Ok()
      ensures Ok() && width == b.width && fresh(pn) && pn[..] == b.pn[..]
    {
      width := b.width;
      pn := new Limb[b.width](i requires 0 <= i < b.width && b.Ok() reads b.pn => b.pn[i]);
    }

    /** The number given by a 64-bit integer. */
    constructor FromUint64(b: nat, w: nat)
      requires b < BASE * BASE && w >= 2
      ensures Ok() && width == w && fresh(pn) && Val() == b
    {
      width := w;
      pn := new Limb[w](i => 0);
      new;
      Assign(b);
    }

    method Assign(b: nat)
      requires Ok() && b < BASE * BASE && width >= 2
      modifies pn
      ensures Val() == b
    {
      CarryStep(b);
      pn[0] := b % BASE;
      pn[1] := b / BASE;
      for i := 2 to width
        invariant pn[0] == b % BASE && pn[1] == b / BASE && forall j :: 2 <= j < i ==> pn[j] == 0
      {
        pn[i] := 0;
      }
      LowLimbs(pn[..], b);
    }

    // ----- addition

    method AddAssign(b: BaseUint)
      requires Ok() && b.Ok() && b.width == width
      modifies pn
      ensures Val() == (old(Val()) + old(b.Val())) % B(width)
    {
      hide B, V;
      ghost var x, y := pn[..], b.pn[..];
      var carry: nat := 0;
      VEmpty();
      for i := 0 to width
        invariant carry < BASE
        invariant pn[i..] == x[i..] && b.pn[i..] == y[i..]
        invariant V(pn[..i]) + carry * B(i) == V(x[..i]) + V(y[..i])
      {
        assert pn[i] == pn[i..][0] == x[i] && b.pn[i] == b.pn[i..][0] == y[i];
        ghost var s := pn[..];
        var n := carry + pn[i] + b.pn[i];
        CarryStep(n);
        pn[i] := n % BASE;
        AddNext(x, y, s, i, carry, n);
        carry := n / BASE;
        assert pn[..] == s[i := n % BASE];
        assert pn[i + 1..] == x[i + 1..] by { assert s[i + 1..] == s[i..][1..] == x[i..][1..]; }
        assert b.pn[i + 1..] == y[i + 1..] by { assert y[i + 1..] == y[i..][1..]; }
        assert pn[..i + 1] == s[i := n % BASE][..i + 1];
      }
      VWholes(pn[..], x, y);
      VBound(pn[..]);
      Wrapped(V(pn[..]), carry, width, V(x) + V(y));
    }

    method Increment()
      requires Ok()
      modifies pn
      ensures Val() == (old(Val()) + 1) % B(width)
    {
      hide B, V;
      ghost var x := pn[..];
      var i := 0;
      VEmpty();
      while i < width
        invariant i <= width && forall j :: 0 <= j < i ==> pn[j] == 0
        invariant V(pn[..]) + B(i) == V(x) + 1
      {
        ghost var s := pn[..];
        var next := (pn[i] + 1) % BASE;
        VPut(s, i, next);
        BNext(i);
        pn[i] := next;
        assert pn[..] == s[i := next];
        if next != 0 { break; }
        Distribute(0 - s[i], 1, B(i));
        i := i + 1;
      }
      VBound(pn[..]);
      VBound(x);
      VZero(pn[..]);
      if i == width {
        assert V(x) + 1 == B(width);
        DivModUnique(V(x) + 1, 1, 0, B(width));
      } else {
        DivModUnique(V(x) + 1, 0, V(pn[..]), B(width));
      }
    }

    method Decrement()
      requires Ok()
      modifies pn
      ensures Val() == (old(Val()) + B(width) - 1) % B(width)
    {
      hide B, V;
      ghost var x := pn[..];
      var i := 0;
      VEmpty();
      while i < width
        invariant i <= width && forall j :: 0 <= j < i ==> pn[j] == BASE - 1
        invariant V(pn[..]) + 1 == V(x) + B(i)
      {
        ghost var s := pn[..];
        var next := if pn[i] == 0 then BASE - 1 else pn[i] - 1;
        VPut(s, i, next);
        BNext(i);
        pn[i] := next;
        assert pn[..] == s[i := next];
        if next != BASE - 1 { break; }
        i := i + 1;
      }
      VBound(pn[..]);
      VBound(x);
      if i == width {
        DivModUnique(V(x) + B(width) - 1, 0, V(pn[..]), B(width));
      } else {
        DivModUnique(V(x) + B(width) - 1, 1, V(pn[..]), B(width));
      }
    }

    method Complement() returns (r: BaseUint)
      requires Ok()
      ensures fresh(r) && r.Ok() && r.width == width && fresh(r.pn) && r.Val() == B(width) - 1 - Val()
    {
      r := new BaseUint.Zero(width);
      for i := 0 to width
        invariant forall j :: 0 <= j < i ==> r.pn[j] == BASE - 1 - pn[j]
      {
        r.pn[i] := BASE - 1 - pn[i];
      }
      VComplement(pn[..], r.pn[..]);
    }

    method Negate() returns (r: BaseUint)
      requires Ok()
      ensures fresh(r) && r.Ok() && r.width == width && fresh(r.pn) && r.Val() == (B(width) - Val()) % B(width)
    {
      r := Complement();
      r.Increment();
    }

    method SubAssign(b: BaseUint)
      requires Ok() && b.Ok() && b.width == width
      modifies pn
      ensures Val() == (old(Val()) - old(b.Val())) % B(width)
    {
      hide B, V;
      ghost var x, y := Val(), b.Val();
      var minus := b.Negate();
      SubMod(x, y, B(width));
      AddAssign(minus);
    }

    // ----- multiplication

    method MulSmall(b: Limb)
      requires Ok()
      modifies pn
      ensures Val() == old(Val()) * b % B(width)
    {
      hide B, V;
      ghost var x := pn[..];
      var carry: nat := 0;
      VEmpty();
      for i := 0 to width
        invariant carry < BASE && pn[i..] == x[i..]
        invariant V(pn[..i]) + carry * B(i) == V(x[..i]) * b
      {
        assert pn[i] == pn[i..][0] == x[i];
        ghost var s := pn[..];
        Product(carry, 0, b, pn[i]);
        var n: nat := carry + b * pn[i];
        CarryStep(n);
        pn[i] := n % BASE;
        MulSmallNext(x, s, i, b, carry, n);
        carry := n / BASE;
        assert pn[..] == s[i := n % BASE];
        assert pn[i + 1..] == x[i + 1..] by { assert s[i + 1..] == s[i..][1..] == x[i..][1..]; }
        assert pn[..i + 1] == s[i := n % BASE][..i + 1];
      }
      VWholes(pn[..], x, x);
      VBound(pn[..]);
      Wrapped(V(pn[..]), carry, width, V(x) * b);
    }

    method MulAssign(b: BaseUint)
      requires Ok() && b.Ok() && b.width == width
      modifies pn
      ensures Val() == old(Val()) * old(b.Val()) % B(width)
    {
      hide B, V;
      ghost var x, y := pn[..], b.pn[..];
      var a := new BaseUint.Zero(width);
      ghost var lost: nat := 0;
      VEmpty();
      for j := 0 to width
        invariant pn[..] == x && b.pn[..] == y
        invariant V(a.pn[..]) + lost * B(width) == V(x[..j]) * V(y)
      {
        ghost var a0 := a.pn[..];
        var carry := a.AddRow(j, pn[j], b);
        RowDone(x, y, j, V(a0), V(a.pn[..]), carry, lost);
        lost := lost + carry + x[j] * V(y[width - j..]);
      }
      VWholes(x, x, x);
      VBound(a.pn[..]);
      Wrapped(V(a.pn[..]), lost, width, V(x) * V(y));
      CopyFrom(a);
    }

    /** One row of the product: p times b, shifted by j limbs, is added; what runs over the top is returned. */
    method AddRow(j: nat, p: Limb, b: BaseUint) returns (carry: nat)
      requires Ok() && b.Ok() && b.width == width && j < width && b.pn != pn
      modifies pn
      ensures Val() + carry * B(width) == old(Val()) + p * V(b.pn[..width - j]) * B(j)
    {
      hide B, V;
      ghost var a0, y := pn[..], b.pn[..];
      carry := 0;
      VEmpty();
      var i := 0;
      while i + j < width
        invariant i + j <= width && carry < BASE && pn[i + j..] == a0[i + j..] && b.pn[..] == y
        invariant V(pn[..i + j]) + carry * B(i + j) == V(a0[..i + j]) + p * V(y[..i]) * B(j)
      {
        assert pn[i + j] == pn[i + j..][0] == a0[i + j];
        ghost var s := pn[..];
        Product(carry, pn[i + j], p, b.pn[i]);
        var n: nat := carry + pn[i + j] + p * b.pn[i];
        CarryStep(n);
        pn[i + j] := n % BASE;
        MulNext(a0, y, s, i, j, p, carry, n);
        carry := n / BASE;
        assert pn[..] == s[i + j := n % BASE];
        assert pn[i + j + 1..] == a0[i + j + 1..] by { assert s[i + j + 1..] == s[i + j..][1..] == a0[i + j..][1..]; }
        assert pn[..i + 1 + j] == s[i + j := n % BASE][..i + j + 1];
        i := i + 1;
      }
      VWholes(pn[..], a0, y);
      assert b.pn[..width - j] == y[..i];
    }

    method CopyFrom(b: BaseUint)
      requires Ok() && b.Ok() && b.width == width
      modifies pn
      ensures pn[..] == old(b.pn[..])
    {
      ghost var y := b.pn[..];
      for i := 0 to width
        invariant b.pn[..] == y && pn[..i] == y[..i]
      {
        pn[i] := b.pn[i];
        assert b.pn[..] == y;
      }
    }

    // ----- shifts

    method ShiftLeft(shift: nat)
      requires Ok()
      modifies pn
      ensures Val() == old(Val()) * Pow2(shift) % B(width)
    {
      hide V, B, Pow2, Lo, Hi, Down, BitOr, ShlLimb;
      var a := pn[..];
      forall i | 0 <= i < width { pn[i] := 0; }
      var k, s := shift / 32, shift % 32;
      ShlBelow(a, k, s);
      for i := 0 to width
        invariant forall j :: 0 <= j < width && j < i + k ==> pn[j] == ShlLimb(a, k, s, j)
        invariant i + k < width ==> pn[i + k] == if i == 0 then 0 else Hi(a[i - 1], s)
        invariant forall j :: i + k < j < width ==> pn[j] == 0
      {
        ShlPlaces(a, k, s, i);
        if i + k + 1 < width && s != 0 {
          pn[i + k + 1] := BitOr(pn[i + k + 1], Down(a[i], 32 - s));
        }
        if i + k < width {
          pn[i + k] := BitOr(pn[i + k], Lo(a[i], s));
        }
      }
      assert pn[..] == Shl(a, k, s);
      ShlValue(a, k, s);
    }

    method ShiftRight(shift: nat)
      requires Ok()
      modifies pn
      ensures Val() == old(Val()) / Pow2(shift)
    {
      hide V, B, Pow2, Lo, Hi, Down, BitOr, ShrLimb;
      var a := pn[..];
      forall i | 0 <= i < width { pn[i] := 0; }
      var k, s := shift / 32, shift % 32;
      for i := 0 to width
        invariant forall j :: 0 <= j < i - k - 1 ==> pn[j] == ShrLimb(a, k, s, j)
        invariant i - k - 1 >= 0 ==> pn[i - k - 1] == Down(a[i - 1], s)
        invariant forall j :: 0 <= j < width && i - k - 1 < j ==> pn[j] == 0
      {
        ShrPlaces(a, k, s, i);
        if i - k - 1 >= 0 && s != 0 {
          pn[i - k - 1] := BitOr(pn[i - k - 1], Lo(a[i], 32 - s));
        }
        if i - k >= 0 {
          pn[i - k] := BitOr(pn[i - k], Down(a[i], s));
        }
      }
      ShrAbove(a, k, s);
      assert pn[..] == Shr(a, k, s);
      ShrValue(a, k, s);
    }

    // ----- division

    /** Long division bit by bit; dividing by zero fails and leaves zero behind. */
    method DivAssign(b: BaseUint) returns (ok: bool)
      requires Ok() && b.Ok() && b.width == width && width >= 2
      modifies pn
      ensures ok <==> old(b.Val()) != 0
      ensures Val() == if ok then old(Val()) / old(b.Val()) else 0
    {
      hide V, B, Pow2;
      ghost var n, d := Val(), b.Val();
      var div := new BaseUint.Copy(b);
      var num := new BaseUint.Copy(this);
      Assign(0);
      var numBits := num.Bits();
      var divBits := div.Bits();
      if divBits == 0 { return false; }
      if divBits > numBits {
        Pow2Mono(numBits, divBits - 1);
        DivModUnique(n, 0, n, d);
        return true;
      }
      var shift := numBits - divBits;
      AlignedFits(d, shift, divBits, width);
      AlignedCovers(n, d, shift, divBits);
      DivModUnique(0, 0, 0, Pow2(shift + 1));
      div.ShiftLeft(shift);
      while shift >= 0
        invariant -1 <= shift < 32 * width
        invariant shift >= 0 ==> div.Val() == d * Pow2(shift)
        invariant num.Val() < d * Pow2(shift + 1) && Val() % Pow2(shift + 1) == 0
        invariant num.Val() + Val() * d == n
      {
        DivStep(num, div, shift, d);
        HalveDivisor(d, shift);
        div.ShiftRight(1);
        shift := shift - 1;
      }
      Pow2Zero();
      DivModUnique(n, Val(), num.Val(), d);
      return true;
    }

    /** One bit of the quotient. */
    method DivStep(num: BaseUint, div: BaseUint, shift: nat, ghost d: nat)
      requires Ok() && num.Ok() && div.Ok() && num.width == div.width == width
      requires num.pn != pn && div.pn != pn && num.pn != div.pn && shift < 32 * width
      requires div.Val() == d * Pow2(shift) && num.Val() < d * Pow2(shift + 1) && Val() % Pow2(shift + 1) == 0
      modifies pn, num.pn
      ensures num.Val() < d * Pow2(shift) && Val() % Pow2(shift) == 0
      ensures num.Val() + Val() * d == old(num.Val() + Val() * d)
    {
      hide V, B, Pow2;
      HalveDivisor(d, shift);
      LowBitsClear(Val(), shift);
      var c := num.CompareTo(div);
      if c >= 0 {
        DivModUnique(num.Val() - div.Val(), 0, num.Val() - div.Val(), B(width));
        StepBalance(num.Val(), Val(), Pow2(shift), d);
        num.SubAssign(div);
        SetBit(shift);
      }
    }

    method SetBit(shift: nat)
      requires Ok() && shift < 32 * width && Val() % Pow2(shift + 1) == 0
      modifies pn
      ensures Val() == old(Val()) + Pow2(shift) && Val() % Pow2(shift) == 0
    {
      hide V, BitOr, Pow2;
      ghost var s := pn[..];
      BitFree(s, shift);
      pn[shift / 32] := BitOr(pn[shift / 32], Pow2(shift % 32));
      assert pn[..] == s[shift / 32 := BitOr(s[shift / 32], Pow2(shift % 32))];
    }

    // ----- comparison

    method CompareTo(b: BaseUint) returns (r: int)
      requires Ok() && b.Ok() && b.width == width
      ensures r == if Val() < b.Val() then -1 else if Val() > b.Val() then 1 else 0
    {
      var i := width;
      while i > 0
        invariant 0 <= i <= width && pn[i..] == b.pn[i..]
      {
        i := i - 1;
        if pn[i] < b.pn[i] {
          VLess(pn[..], b.pn[..], i);
          return -1;
        }
        if pn[i] > b.pn[i] {
          VLess(b.pn[..], pn[..], i);
          return 1;
        }
      }
      assert pn[..] == b.pn[..];
      return 0;
    }

    method EqualTo(b: nat) returns (r: bool)
      requires Ok() && width >= 2 && b < BASE * BASE
      ensures r <==> Val() == b
    {
      CarryStep(b);
      var i := width - 1;
      while i >= 2
        invariant 1 <= i < width && forall j :: i < j < width ==> pn[j] == 0
      {
        if pn[i] != 0 {
          Differs(pn[..], b, i);
          return false;
        }
        i := i - 1;
      }
      LowLimbsOnly(pn[..]);
      if pn[1] != b / BASE || pn[0] != b % BASE { return false; }
      return true;
    }

    /** The position of the highest one bit plus one, or zero. */
    method Bits() returns (r: nat)
      requires Ok()
      ensures r <= 32 * width && Val() < Pow2(r) && (r == 0 <==> Val() == 0) && (r > 0 ==> Pow2(r - 1) <= Val())
    {
      var pos := width;
      while pos > 0
        invariant 0 <= pos <= width && forall j :: pos <= j < width ==> pn[j] == 0
      {
        pos := pos - 1;
        if pn[pos] != 0 {
          Pow2Values();
          var nbits := 31;
          while nbits > 0
            invariant 0 <= nbits <= 31 && pn[pos] < Pow2(nbits + 1)
          {
            TopBit(pn[pos], nbits);
            if Bit(pn[pos], nbits) {
              HighestBit(pn[..], pos, nbits);
              return 32 * pos + nbits + 1;
            }
            nbits := nbits - 1;
          }
          HighestBit(pn[..], pos, 0);
          return 32 * pos + 1;
        }
      }
      VZero(pn[..]);
      return 0;
    }

    method GetLow64() returns (r: nat)
      requires Ok() && width >= 2
      ensures r == Val() % (BASE * BASE)
    {
      LowTwo(pn[..]);
      r := BitOr(pn[1] * BASE, pn[0]);
    }
  }

  lemma Pow2Zero()
    ensures Pow2(0) == 1
  {
  }

  /** The aligned divisor still fits. */
  lemma AlignedFits(d: nat, shift: nat, divBits: nat, w: nat)
    requires d < Pow2(divBits) && shift + divBits <= 32 * w
    ensures d * Pow2(shift) % B(w) == d * Pow2(shift)
  {
    hide Pow2;
    Pow2Add(shift, divBits);
    Pow2Mono(shift + divBits, 32 * w);
    FitsBelow(d, Pow2(shift), Pow2(divBits), B(w));
  }

  lemma FitsBelow(d: nat, p: nat, q: nat, m: nat)
    requires d < q && p * q <= m && p > 0
    ensures m > 0 && d * p % m == d * p
  {
    Mono(d + 1, q, p);
    Distribute(d, 1, p);
    NoSign(d, p);
    DivModUnique(d * p, 0, d * p, m);
  }

  /** The numerator is below twice the aligned divisor. */
  lemma AlignedCovers(n: nat, d: nat, shift: nat, divBits: nat)
    requires 0 < divBits && Pow2(divBits - 1) <= d && n < Pow2(shift + divBits)
    ensures n < d * Pow2(shift + 1)
  {
    hide Pow2;
    Pow2Add(shift + 1, divBits - 1);
    Mono(Pow2(divBits - 1), d, Pow2(shift + 1));
  }

  /** Taking the divisor off and putting its bit into the quotient changes nothing in the sum. */
  lemma StepBalance(num: int, q: int, p: int, d: int)
    ensures (num - d * p) + (q + p) * d == num + q * d
  {
    Distribute(q, p, d);
    Reorder(p, d, 1);
  }

  lemma HalveDivisor(d: nat, shift: nat)
    ensures d * Pow2(shift + 1) == 2 * (d * Pow2(shift)) && Pow2(1) == 2
    ensures shift > 0 ==> d * Pow2(shift) / 2 == d * Pow2(shift - 1)
  {
    var p := Pow2(shift);
    assert Pow2(shift + 1) == 2 * p;
    Reorder(d, 2, p);
    if shift > 0 {
      assert p == 2 * Pow2(shift - 1);
      Reorder(d, 2, Pow2(shift - 1));
      DivModUnique(d * p, d * Pow2(shift - 1), 0, 2);
    }
  }

  lemma LowBitsClear(v: nat, shift: nat)
    requires v % Pow2(shift + 1) == 0
    ensures v % Pow2(shift) == 0
  {
    var p, q := Pow2(shift), v / Pow2(shift + 1);
    assert v == q * (2 * p);
    Reorder(q, 2, p);
    DivModUnique(v, 2 * q, 0, p);
  }

  /** A bit below which a number has only zeros is set by adding it. */
  lemma BitFree(s: seq<Limb>, shift: nat)
    requires shift < 32 * |s| && V(s) % Pow2(shift + 1) == 0
    ensures BitOr(s[shift / 32], Pow2(shift % 32)) == s[shift / 32] + Pow2(shift % 32) < BASE
    ensures V(s[shift / 32 := s[shift / 32] + Pow2(shift % 32)]) == V(s) + Pow2(shift)
    ensures (V(s) + Pow2(shift)) % Pow2(shift) == 0
  {
    hide V, BitOr, Pow2;
    var m, t := shift / 32, shift % 32;
    LimbMultiple(s, m, t);
    OrBit(s[m], t);
    VPut(s, m, s[m] + Pow2(t));
    Pow2Add(32 * m, t);
    Reorder(Pow2(t), B(m), 1);
    LowBitsClear(V(s), shift);
    NextMultiple(V(s), Pow2(shift));
  }

  lemma NextMultiple(v: nat, p: nat)
    requires p > 0 && v % p == 0
    ensures (v + p) % p == 0
  {
    Distribute(v / p, 1, p);
    DivModUnique(v + p, v / p + 1, 0, p);
  }

  lemma OrBit(x: Limb, t: nat)
    requires t < 32 && x % Pow2(t + 1) == 0
    ensures BitOr(x, Pow2(t)) == x + Pow2(t) < BASE
  {
    hide BitOr, Pow2;
    var p, c := Pow2(t + 1), x / Pow2(t + 1);
    assert x == c * p;
    Pow2Mono(t, t + 1);
    OrDisjoint(c, t + 1, Pow2(t));
    SplitBase(t + 1);
    MultipleRoom(c, p, Pow2(31 - t));
  }

  /** A multiple of p below p * r stays below it with p - 1 added. */
  lemma MultipleRoom(c: nat, p: nat, r: nat)
    requires c * p < p * r && p > 0
    ensures c * p + p <= p * r
  {
    if c >= r { Mono(r, c, p); }
    Mono(c + 1, r, p);
    Distribute(c, 1, p);
  }

  lemma LimbMultiple(s: seq<Limb>, m: nat, t: nat)
    requires m < |s| && t < 32 && V(s) % Pow2(32 * m + t + 1) == 0
    ensures s[m] % Pow2(t + 1) == 0
  {
    hide V, Pow2;
    var p := Pow2(t + 1);
    Pow2Add(32 * m, t + 1);
    MultipleParts(V(s), B(m), p);
    VTake(s, m);
    VTake(s[m..], 1);
    assert s[m..][..1] == [s[m]];
    VOne(s[m]);
    SplitBase(t + 1);
    LowMultiple(V(s[m..]), p, Pow2(31 - t));
  }

  lemma MultipleParts(v: nat, b: nat, p: nat)
    requires b > 0 && p > 0 && b * p > 0 && v % (b * p) == 0
    ensures (v / b) % p == 0
  {
    var q := v / (b * p);
    assert v == q * (b * p);
    Reorder(q, b, p);
    DivModUnique(v, q * p, 0, b);
    DivModUnique(q * p, q, 0, p);
  }

  lemma LowMultiple(w: nat, p: nat, r: nat)
    requires p > 0 && r > 0 && p * r > 0 && w % p == 0
    ensures w % (p * r) % p == 0
  {
    var q := w / p;
    assert w == q * p;
    MultipleMod(q, p, r);
    DivModUnique((q % r) * p, q % r, 0, p);
  }

  lemma VOne(x: Limb)
    ensures V([x]) == x && B(1) == BASE
  {
    Pow2Values();
    assert [x][..0] == [];
    assert B(0) == 1;
  }

  lemma MultipleMod(q: nat, p: nat, r: nat)
    requires p > 0 && r > 0
    ensures p * r > 0 && (q * p) % (p * r) == (q % r) * p
  {
    var c, d := q / r, q % r;
    assert q == c * r + d;
    Distribute(c * r, d, p);
    Reorder(c, r, p);
    Mono(d + 1, r, p);
    Distribute(d, 1, p);
    Mono(1, r, p);
    DivModUnique(q * p, c, d * p, p * r);
  }

  /** What one round of the left shift writes. */
  lemma ShlPlaces(a: seq<Limb>, k: nat, s: nat, i: nat)
    requires s < 32 && i < |a|
    ensures BitOr(0, Hi(a[i], s)) == Hi(a[i], s) == if s == 0 then 0 else Down(a[i], 32 - s)
    ensures i + k < |a| ==> BitOr(if i == 0 then 0 else Hi(a[i - 1], s), Lo(a[i], s)) == ShlLimb(a, k, s, i + k)
  {
    if i > 0 {
      ShiftSplit(a[i - 1], s);
      OrShift(Hi(a[i - 1], s), a[i], s);
    }
  }

  lemma ShlBelow(a: seq<Limb>, k: nat, s: nat)
    requires s < 32
    ensures forall j :: 0 <= j < |a| && j < k ==> ShlLimb(a, k, s, j) == 0
  {
  }

  /** What one round of the right shift writes. */
  lemma ShrPlaces(a: seq<Limb>, k: nat, s: nat, i: nat)
    requires s < 32 && i < |a|
    ensures BitOr(0, Down(a[i], s)) == Down(a[i], s)
    ensures i - k - 1 >= 0 ==>
      ShrLimb(a, k, s, i - k - 1) == if s == 0 then Down(a[i - 1], s) else BitOr(Down(a[i - 1], s), Lo(a[i], 32 - s))
  {
    hide Lo, Hi, Down;
    if i - k - 1 >= 0 && s != 0 {
      ShrRoom(a[i - 1], a[i], s);
      OrShift(Down(a[i - 1], s), a[i], 32 - s);
    }
  }

  lemma ShrAbove(a: seq<Limb>, k: nat, s: nat)
    requires s < 32 && a != []
    ensures forall j :: 0 <= j < |a| && j > |a| - k - 1 ==> ShrLimb(a, k, s, j) == 0
    ensures |a| - k - 1 >= 0 ==> ShrLimb(a, k, s, |a| - k - 1) == Down(a[|a| - 1], s)
  {
  }

  /** The products of the carry loops fit 64 bits. */
  lemma Product(carry: nat, a: nat, p: nat, b: nat)
    requires carry < BASE && a < BASE && p < BASE && b < BASE
    ensures 0 <= carry + a + p * b < BASE * BASE
  {
    Mono(p, BASE - 1, b);
    NoSign(p, b);
  }

  lemma MulSmallNext(x: seq<Limb>, s: seq<Limb>, i: nat, b: nat, carry: nat, n: nat)
    requires |x| == |s| && i < |s| && n == carry + b * x[i] && n < BASE * BASE
    requires V(s[..i]) + carry * B(i) == V(x[..i]) * b
    ensures 0 <= n % BASE < BASE
    ensures V(s[i := n % BASE][..i + 1]) + (n / BASE) * B(i + 1) == V(x[..i + 1]) * b
  {
    hide B, V;
    CarryStep(n);
    var t := s[i := n % BASE];
    VNext(x, i);
    VNext(t, i);
    assert t[..i] == s[..i];
    CarryNext(V(s[..i]), carry, n % BASE, n / BASE, b * x[i], i);
    Distribute(V(x[..i]), x[i] * B(i), b);
    Reorder(b, x[i], B(i));
  }

  lemma MulNext(a0: seq<Limb>, y: seq<Limb>, s: seq<Limb>, i: nat, j: nat, p: nat, carry: nat, n: nat)
    requires |a0| == |y| == |s| && i + j < |s| && n == carry + a0[i + j] + p * y[i] && n < BASE * BASE
    requires V(s[..i + j]) + carry * B(i + j) == V(a0[..i + j]) + p * V(y[..i]) * B(j)
    ensures 0 <= n % BASE < BASE
    ensures V(s[i + j := n % BASE][..i + j + 1]) + (n / BASE) * B(i + j + 1) == V(a0[..i + j + 1]) + p * V(y[..i + 1]) * B(j)
  {
    hide B, V;
    CarryStep(n);
    var t := s[i + j := n % BASE];
    VNext(a0, i + j);
    VNext(t, i + j);
    VNext(y, i);
    assert t[..i + j] == s[..i + j];
    var ai: int, yi: int := a0[i + j], y[i];
    CarryNext(V(s[..i + j]), carry, n % BASE, n / BASE, ai + p * yi, i + j);
    Distribute(ai, p * yi, B(i + j));
    BAdd(i, j);
    RowProduct(p, V(y[..i]), yi, B(i), B(j));
  }

  lemma RowProduct(p: int, low: int, y: int, bi: int, bj: int)
    ensures p * (low + y * bi) * bj == p * low * bj + p * y * (bi * bj)
  {
    Distribute(low, y * bi, p);
    Reorder(p * y, bi, bj);
  }

  lemma RowDone(x: seq<Limb>, y: seq<Limb>, j: nat, before: nat, after: nat, carry: nat, lost: nat)
    requires |x| == |y| && j < |x|
    requires before + lost * B(|x|) == V(x[..j]) * V(y)
    requires after + carry * B(|x|) == before + x[j] * V(y[..|x| - j]) * B(j)
    ensures after + (lost + carry + x[j] * V(y[|x| - j..])) * B(|x|) == V(x[..j + 1]) * V(y)
  {
    hide B, V;
    var w := |x|;
    var low, high := V(y[..w - j]), V(y[w - j..]);
    VNext(x, j);
    assert y == y[..w - j] + y[w - j..];
    VConcat(y[..w - j], y[w - j..]);
    BAdd(w - j, j);
    Distribute(V(x[..j]), x[j] * B(j), V(y));
    RowSplit(x[j], B(j), low, high, B(w - j));
    Distribute(lost + carry, x[j] * high, B(w));
    Distribute(lost, carry, B(w));
  }

  lemma RowSplit(x: int, bj: int, low: int, high: int, b: int)
    ensures x * bj * (low + high * b) == x * low * bj + x * high * (b * bj)
  {
    Distribute(low, high * b, x * bj);
    Reorder(x, bj, low);
    Reorder(x * high, b, bj);
    Reorder(x * bj, high, b);
    Reorder(x, bj, high);
  }

  lemma {:induction false} VComplement(s: seq<Limb>, t: seq<Limb>)
    requires |s| == |t| && forall i :: 0 <= i < |s| ==> t[i] == BASE - 1 - s[i]
    ensures V(t) == B(|s|) - 1 - V(s)
  {
    hide B;
    BNext(0);
    if s != [] {
      var n := |s| - 1;
      VComplement(s[..n], t[..n]);
      BNext(n);
      var x: int := s[n];
      Distribute(BASE - 1, x, B(n));
    }
  }

  /** Adding the negation modulo m is subtracting modulo m. */
  lemma SubMod(x: nat, y: nat, m: nat)
    requires x < m && y < m
    ensures (x + (m - y) % m) % m == (x - y) % m
  {
    if y == 0 {
      DivModUnique(m, 1, 0, m);
    } else {
      DivModUnique(m - y, 0, m - y, m);
      var borrow := if x >= y then 0 else 1;
      DivModUnique(x - y, -borrow, x - y + borrow * m, m);
      DivModUnique(x + (m - y), 1 - borrow, x - y + borrow * m, m);
    }
  }

  lemma TopBit(x: nat, n: nat)
    requires x < Pow2(n + 1)
    ensures Bit(x, n) <==> x >= Pow2(n)
  {
    var p := Pow2(n);
    if x >= p { DivModUnique(x, 1, x - p, p); } else { DivModUnique(x, 0, x, p); }
  }

  lemma HighestBit(s: seq<Limb>, pos: nat, n: nat)
    requires pos < |s| && Pow2(n) <= s[pos] < Pow2(n + 1) && forall j :: pos < j < |s| ==> s[j] == 0
    ensures Pow2(32 * pos + n) <= V(s) < Pow2(32 * pos + n + 1)
  {
    assert s == s[..pos + 1] + s[pos + 1..];
    VConcat(s[..pos + 1], s[pos + 1..]);
    VZero(s[pos + 1..]);
    VNext(s, pos);
    VBound(s[..pos]);
    Pow2Add(32 * pos, n);
    Pow2Add(32 * pos, n + 1);
    HighestBitBounds(V(s[..pos]), s[pos], Pow2(n), B(pos));
  }

  lemma HighestBitBounds(low: nat, x: nat, p: nat, b: nat)
    requires low < b && p <= x < 2 * p
    ensures b * p <= low + x * b < b * (2 * p)
  {
    Mono(p, x, b);
    Mono(x + 1, 2 * p, b);
    Distribute(x, 1, b);
  }

  lemma LowTwo(s: seq<Limb>)
    requires |s| >= 2
    ensures BitOr(s[1] * BASE, s[0]) == V(s) % (BASE * BASE)
  {
    hide V, B, BitOr, Pow2;
    Pow2Values();
    OrDisjoint(s[1], 32, s[0]);
    VTake(s, 2);
    VNext(s, 1);
    VNext(s, 0);
    VEmpty();
    BNext(0);
    BNext(1);
    assert s[..0] == [];
  }

  lemma VEmpty()
    ensures V([]) == 0 && B(0) == 1
  {
  }

  lemma VWholes(s: seq<Limb>, x: seq<Limb>, y: seq<Limb>)
    requires |s| == |x| == |y|
    ensures V(s[..|s|]) == V(s) && V(x[..|s|]) == V(x) && V(y[..|s|]) == V(y)
  {
    assert s[..|s|] == s && x[..|s|] == x && y[..|s|] == y;
  }

  lemma AddNext(x: seq<Limb>, y: seq<Limb>, s: seq<Limb>, i: nat, carry: nat, n: nat)
    requires |x| == |y| == |s| && i < |s| && n == carry + x[i] + y[i] && n < BASE * BASE
    requires V(s[..i]) + carry * B(i) == V(x[..i]) + V(y[..i])
    ensures 0 <= n % BASE < BASE
    ensures V(s[i := n % BASE][..i + 1]) + (n / BASE) * B(i + 1) == V(x[..i + 1]) + V(y[..i + 1])
  {
    hide B, V;
    CarryStep(n);
    var t := s[i := n % BASE];
    VNext(x, i);
    VNext(y, i);
    VNext(t, i);
    assert t[..i] == s[..i];
    var xi: int, yi: int := x[i], y[i];
    CarryNext(V(s[..i]), carry, n % BASE, n / BASE, xi + yi, i);
    Distribute(xi, yi, B(i));
  }

  /** A nonzero limb above the first two makes a number too large for 64 bits. */
  lemma Differs(s: seq<Limb>, b: nat, i: nat)
    requires 2 <= i < |s| && s[i] != 0 && b < BASE * BASE
    ensures V(s) != b
  {
    hide B, V;
    VTake(s, 2);
    VZero(s[2..]);
    assert s[2..][i - 2] == s[i];
    BNext(0);
    BNext(1);
    if V(s) == b { DivModUnique(b, 0, b, BASE * BASE); }
  }

  lemma LowLimbsOnly(s: seq<Limb>)
    requires |s| >= 2 && forall i :: 2 <= i < |s| ==> s[i] == 0
    ensures V(s) == s[0] + BASE * s[1] && s[0] == V(s) % BASE && s[1] == V(s) / BASE
  {
    var v: int := s[0] + BASE * s[1];
    DivModUnique(v, s[1], s[0], BASE);
    LowLimbs(s, v);
  }

  lemma LowLimbs(s: seq<Limb>, b: nat)
    requires |s| >= 2 && b < BASE * BASE && s[0] == b % BASE && s[1] == b / BASE && forall i :: 2 <= i < |s| ==> s[i] == 0
    ensures V(s) == b
  {
    hide B;
    assert s == s[..2] + s[2..];
    VConcat(s[..2], s[2..]);
    VZero(s[2..]);
    BNext(0);
    VNext(s, 1);
    VNext(s, 0);
    assert s[..0] == [];
    CarryStep(b);
  }
}
