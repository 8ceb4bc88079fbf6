/**
 Compact targets, a floating-point format of one exponent byte and a 23-bit mantissa with a
 sign bit, and the amount of work a target stands for.
 */
module CompactTargets {
  import opened Bits
  import opened Limbs
  import opened ArithUint

  const WIDTH := 8
  const TWO_23 := 0x80_0000
  const TWO_24 := 0x100_0000
  const TWO_32 := 0x1_0000_0000

  /** 256 to the k. */
  function Bytes(k: nat): (r: nat)
    ensures r > 0
  {
    Pow2(8 * k)
  }

  lemma BytesAdd(a: nat, b: nat)
    ensures Bytes(a + b) == Bytes(a) * Bytes(b)
  {
    Pow2Add(8 * a, 8 * b);
  }

  lemma BytesValues()
    ensures Bytes(0) == 1 && Bytes(1) == 0x100 && Bytes(2) == 0x1_0000 && Bytes(3) == TWO_24 && Bytes(32) == B(WIDTH)
  {
    Pow2Values();
  }

  // ----- decoding

  datatype Decoded = Decoded(value: nat, negative: bool, overflow: bool)

  function Exponent(n: nat): nat { n / TWO_24 }

  function Mantissa(n: nat): nat {
    hide Bytes;
    if Exponent(n) <= 3 then
      LimbShifts.Shrinks(n % TWO_23, Bytes(3 - Exponent(n)));
      n % TWO_23 / Bytes(3 - Exponent(n))
    else
      n % TWO_23
  }

  /** The whole number that a compact form means, before it is cut to 256 bits. */
  function Meant(n: nat): nat {
    if Exponent(n) <= 3 then Mantissa(n) else Mantissa(n) * Bytes(Exponent(n) - 3)
  }

  function Decode(n: nat): Decoded {
    var size, word := Exponent(n), Mantissa(n);
    Decoded(Meant(n) % B(WIDTH),
            word != 0 && n / TWO_23 % 2 == 1,
            word != 0 && (size > 34 || (word > 0xff && size > 33) || (word > 0xffff && size > 32)))
  }

  lemma MantissaBound(n: nat)
    ensures Mantissa(n) < TWO_23
  {
    if Exponent(n) <= 3 { LimbShifts.Shrinks(n % TWO_23, Bytes(3 - Exponent(n))); }
  }

  /** The overflow flag says exactly that the meant number does not fit 256 bits. */
  lemma OverflowMeans(n: nat)
    ensures Decode(n).overflow <==> Meant(n) >= B(WIDTH)
  {
    hide Bytes, B;
    var size, word := Exponent(n), Mantissa(n);
    BytesValues();
    MantissaBound(n);
    if size <= 3 {
      BytesAdd(3, 29);
      Mono(1, Bytes(29), Bytes(3));
    } else if size > 34 {
      BytesAdd(32, size - 35);
      Mono(1, Bytes(size - 35), Bytes(32));
      if word > 0 { Mono(1, word, Bytes(size - 3)); }
    } else if size >= 32 {
      BytesAdd(35 - size, size - 3);
      Threshold(word, Bytes(35 - size), Bytes(size - 3));
    } else {
      BytesAdd(size - 3, 35 - size);
      BytesAdd(3, 32 - size);
      Mono(1, Bytes(32 - size), Bytes(3));
      Threshold(word, Bytes(35 - size), Bytes(size - 3));
    }
  }

  lemma Threshold(word: nat, t: nat, unit: nat)
    requires unit > 0
    ensures word * unit >= t * unit <==> word >= t
  {
    if word >= t { Mono(t, word, unit); } else { Mono(word + 1, t, unit); Distribute(word, 1, unit); }
  }

  // ----- encoding

  function ByteLen(x: nat): nat { (BitLen(x) + 7) / 8 }

  /** The leading three bytes, left-aligned. */
  function Leading(x: nat): nat {
    hide Bytes, ByteLen;
    if ByteLen(x) <= 3 then
      x * Bytes(3 - ByteLen(x))
    else
      LimbShifts.Shrinks(x, Bytes(ByteLen(x) - 3));
      x / Bytes(ByteLen(x) - 3)
  }

  /** The mantissa and the exponent that GetCompact settles on: a mantissa that would look negative gives up a byte. */
  function Kept(x: nat): nat { if Leading(x) >= TWO_23 then Leading(x) / 0x100 else Leading(x) }

  function KeptExponent(x: nat): nat { if Leading(x) >= TWO_23 then ByteLen(x) + 1 else ByteLen(x) }

  function Encode(x: nat, negative: bool): nat {
    Kept(x) + KeptExponent(x) * TWO_24 + if negative && Kept(x) != 0 then TWO_23 else 0
  }

  lemma ByteLenMeans(x: nat)
    ensures x < Bytes(ByteLen(x)) && (ByteLen(x) > 0 ==> Bytes(ByteLen(x) - 1) <= x)
  {
    hide Pow2;
    Pow2Mono(BitLen(x), 8 * ByteLen(x));
    if x > 0 { Pow2Mono(8 * (ByteLen(x) - 1), BitLen(x) - 1); }
  }

  lemma LeadingBound(x: nat)
    ensures Leading(x) < TWO_24 && (x > 0 ==> Leading(x) >= 0x1_0000)
  {
    hide Bytes, ByteLen;
    var size := ByteLen(x);
    ByteLenMeans(x);
    BytesValues();
    if size <= 3 {
      BytesAdd(size, 3 - size);
      Mono(x + 1, Bytes(size), Bytes(3 - size));
      Distribute(x, 1, Bytes(3 - size));
      if size > 0 {
        BytesAdd(size - 1, 3 - size);
        Mono(Bytes(size - 1), x, Bytes(3 - size));
      }
    } else {
      BytesAdd(3, size - 3);
      BytesAdd(2, size - 3);
      DivBounds(x, Bytes(size - 3), Bytes(2), Bytes(3));
    }
  }

  lemma DivBounds(x: nat, unit: nat, low: nat, high: nat)
    requires unit > 0 && low * unit <= x < high * unit
    ensures low <= x / unit < high
  {
    var q := x / unit;
    assert q * unit <= x < q * unit + unit;
    if q >= high { Mono(high, q, unit); }
    if q < low { Mono(q + 1, low, unit); Distribute(q, 1, unit); }
  }

  /** The kept mantissa is the number cut or stretched to the kept exponent. */
  lemma KeptMeans(x: nat)
    ensures Kept(x) < TWO_23 && (x > 0 ==> Kept(x) > 0)
    ensures KeptExponent(x) <= 3 ==> Kept(x) == x * Bytes(3 - KeptExponent(x))
    ensures KeptExponent(x) > 3 ==> Kept(x) == x / Bytes(KeptExponent(x) - 3)
  {
    hide Bytes, ByteLen;
    LeadingBound(x);
    BytesValues();
    var size := ByteLen(x);
    if Leading(x) >= TWO_23 {
      if size < 3 {
        BytesAdd(2 - size, 1);
        Reorder(x, Bytes(2 - size), 0x100);
        DivModUnique(Leading(x), x * Bytes(2 - size), 0, 0x100);
      } else if size > 3 {
        BytesAdd(size - 3, 1);
        LimbShifts.DivDiv(x, Bytes(size - 3), 0x100);
      }
    }
  }

  lemma ExponentBound(x: nat)
    requires x < B(WIDTH)
    ensures KeptExponent(x) <= 33
  {
    hide Pow2, B;
    ByteLenMeans(x);
    BytesValues();
    if ByteLen(x) > 32 { Pow2Mono(8 * 32, 8 * (ByteLen(x) - 1)); }
  }

  /** The fields of an encoding come apart again. */
  lemma FieldsApart(kept: nat, exponent: nat, sign: bool)
    requires kept < TWO_23
    ensures var n := kept + exponent * TWO_24 + if sign then TWO_23 else 0;
      n / TWO_24 == exponent && n % TWO_23 == kept && (n / TWO_23 % 2 == 1 <==> sign)
  {
    var s := if sign then 1 else 0;
    var n := kept + exponent * TWO_24 + s * TWO_23;
    DivModUnique(n, exponent, kept + s * TWO_23, TWO_24);
    DivModUnique(n, exponent * 2 + s, kept, TWO_23);
  }

  /** x with the bytes below the kept mantissa zeroed. */
  function Rounded(x: nat): nat {
    hide Bytes, KeptExponent;
    if KeptExponent(x) <= 3 then x
    else
      LimbShifts.Shrinks(x, Bytes(KeptExponent(x) - 3));
      x / Bytes(KeptExponent(x) - 3) * Bytes(KeptExponent(x) - 3)
  }

  /** Encoding and decoding again never overflows, keeps the sign of nonzero numbers and zeroes the low bytes. */
  lemma RoundTrip(x: nat, negative: bool)
    requires x < B(WIDTH)
    ensures Decode(Encode(x, negative)) == Decoded(Rounded(x), negative && x != 0, false)
    ensures Rounded(x) <= x
  {
    hide Bytes, B, Kept, KeptExponent;
    var n, e := Encode(x, negative), KeptExponent(x);
    KeptMeans(x);
    FieldsApart(Kept(x), e, negative && Kept(x) != 0);
    if x == 0 { KeptZero(); }
    if e <= 3 {
      DivModUnique(Kept(x), x, 0, Bytes(3 - e));
    } else {
      RoundDown(x, Bytes(e - 3));
    }
    assert Meant(n) == Rounded(x);
    DivModUnique(Rounded(x), 0, Rounded(x), B(WIDTH));
    OverflowMeans(n);
  }

  lemma KeptZero()
    ensures Kept(0) == 0 && KeptExponent(0) == 0
  {
  }

  lemma RoundDown(x: nat, unit: nat)
    requires unit > 0
    ensures x / unit * unit <= x && x / unit * unit / unit == x / unit
  {
    DivModUnique(x / unit * unit, x / unit, 0, unit);
  }

  /** A rounded number encodes as the number itself, so one more round trip changes nothing. */
  lemma Stable(x: nat, negative: bool)
    ensures Encode(Rounded(x), negative) == Encode(x, negative)
  {
    hide Bytes, Leading, ByteLen, Kept, KeptExponent;
    if KeptExponent(x) > 3 {
      RoundedLength(x);
      RoundedLeading(x);
      SameKept(x, Rounded(x));
    }
  }

  lemma SameKept(x: nat, y: nat)
    requires ByteLen(x) == ByteLen(y)
    requires Leading(y) == if Leading(x) >= TWO_23 then Leading(x) / 0x100 * 0x100 else Leading(x)
    ensures Kept(y) == Kept(x) && KeptExponent(y) == KeptExponent(x)
  {
    hide Leading, ByteLen;
    LeadingAgain(Leading(x));
  }

  lemma LeadingAgain(c: nat)
    ensures c / 0x100 * 0x100 / 0x100 == c / 0x100 && (c >= TWO_23 ==> c / 0x100 * 0x100 >= TWO_23)
  {
  }

  lemma CutAbove(x: nat, p: nat, q: nat)
    requires p > 0 && q * p <= x
    ensures q * p <= x / p * p <= x
  {
    var c := x / p;
    assert c * p <= x < c * p + p;
    Distribute(c, 1, p);
    if c < q { Mono(c + 1, q, p); }
    Mono(q, c, p);
  }

  lemma RoundedLength(x: nat)
    requires KeptExponent(x) > 3
    ensures BitLen(Rounded(x)) == BitLen(x) && ByteLen(Rounded(x)) == ByteLen(x)
  {
    hide Pow2, Leading, BitLen;
    var k, l := KeptExponent(x) - 3, BitLen(x);
    KeptRoom(x);
    Pow2Add(l - 1 - 8 * k, 8 * k);
    CutAbove(x, Bytes(k), Pow2(l - 1 - 8 * k));
    BitLenUnique(Rounded(x), l);
  }

  /** What is cut off is below the highest bit. */
  lemma KeptRoom(x: nat)
    requires KeptExponent(x) > 3
    ensures x > 0 && 8 * (KeptExponent(x) - 3) <= BitLen(x) - 1
  {
    hide Pow2, Bytes, Leading;
    if x == 0 { KeptZero(); }
  }

  lemma RoundedLeading(x: nat)
    requires KeptExponent(x) > 3 && BitLen(Rounded(x)) == BitLen(x)
    ensures Leading(Rounded(x)) == if Leading(x) >= TWO_23 then Leading(x) / 0x100 * 0x100 else Leading(x)
  {
    hide Bytes;
    BytesValues();
    var size := ByteLen(x);
    if Leading(x) < TWO_23 {
      RoundDown(x, Bytes(size - 3));
    } else if size > 3 {
      BytesAdd(size - 3, 1);
      LimbShifts.DivDiv(x, Bytes(size - 3), 0x100);
      var q := x / Bytes(size - 2);
      Reorder(q, 0x100, Bytes(size - 3));
      DivModUnique(Rounded(x), q * 0x100, 0, Bytes(size - 3));
    }
  }

  // ----- the operations on limbs

  method SetCompact(t: BaseUint, n: nat) returns (negative: bool, overflow: bool)
    requires t.Ok() && t.width == WIDTH && n < TWO_32
    modifies t.pn
    ensures Decoded(t.Val(), negative, overflow) == Decode(n)
  {
    hide Bytes, Pow2, B, V;
    var size := n / TWO_24;
    var word := n % TWO_23;
    BytesValues();
    MantissaBound(n);
    if size <= 3 {
      word := word / Bytes(3 - size);
      t.Assign(word);
      BytesAdd(3, 29);
      Mono(1, Bytes(29), Bytes(3));
      DivModUnique(word, 0, word, B(WIDTH));
    } else {
      t.Assign(word);
      t.ShiftLeft(8 * (size - 3));
      assert Pow2(8 * (size - 3)) == Bytes(size - 3) by { BytesIs(size - 3); }
    }
    negative := word != 0 && n / TWO_23 % 2 == 1;
    overflow := word != 0 && (size > 34 || (word > 0xff && size > 33) || (word > 0xffff && size > 32));
  }

  lemma BytesIs(k: nat)
    ensures Bytes(k) == Pow2(8 * k)
  {
  }

  method GetCompact(t: BaseUint, negative: bool) returns (n: nat)
    requires t.Ok() && t.width == WIDTH
    ensures n == Encode(t.Val(), negative) < TWO_32
  {
    hide Bytes, Pow2, B, V, BitOr, Leading, ByteLen;
    ghost var x := t.Val();
    var size;
    n, size := LeadingBytes(t);
    LeadingBound(x);
    KeptMeans(x);
    ExponentBound(x);
    BitTwentyThree(n);
    if Bit(n, 23) {
      n := n / 0x100;
      size := size + 1;
    }
    assert n == Kept(x) < TWO_23 && size == KeptExponent(x) < 256;
    OrSize(n, size);
    n := BitOr(n, size * TWO_24);
    OrSign(Kept(x), size);
    n := BitOr(n, if negative && n % TWO_23 != 0 then TWO_23 else 0);
  }

  /** The leading three bytes and the number of bytes. */
  method LeadingBytes(t: BaseUint) returns (n: nat, size: nat)
    requires t.Ok() && t.width == WIDTH
    ensures n == Leading(t.Val()) && size == ByteLen(t.Val())
  {
    hide Bytes, Pow2, B, V, Leading;
    ghost var x := t.Val();
    var bits := t.Bits();
    BitLenUnique(x, bits);
    size := (bits + 7) / 8;
    LeadingBound(x);
    LeadingIs(x);
    if size <= 3 {
      n := t.GetLow64();
      SmallLow(x);
      n := n * Bytes(3 - size);
    } else {
      n := HighPart(t, 8 * (size - 3));
      BytesIs(size - 3);
      DivModUnique(Leading(x), 0, Leading(x), BASE * BASE);
    }
  }

  method HighPart(t: BaseUint, shift: nat) returns (n: nat)
    requires t.Ok() && t.width == WIDTH
    ensures n == t.Val() / Pow2(shift) % (BASE * BASE)
  {
    hide Pow2, B, V;
    var bn := new BaseUint.Copy(t);
    bn.ShiftRight(shift);
    n := bn.GetLow64();
  }

  lemma LeadingIs(x: nat)
    ensures Leading(x) == if ByteLen(x) <= 3 then x * Bytes(3 - ByteLen(x)) else x / Bytes(ByteLen(x) - 3)
  {
    hide Bytes, ByteLen;
  }

  lemma SmallLow(x: nat)
    requires ByteLen(x) <= 3
    ensures x % (BASE * BASE) == x < TWO_24
  {
    hide Bytes;
    ByteLenMeans(x);
    BytesValues();
    BytesAdd(ByteLen(x), 3 - ByteLen(x));
    Mono(1, Bytes(3 - ByteLen(x)), Bytes(ByteLen(x)));
    DivModUnique(x, 0, x, BASE * BASE);
  }

  lemma BitTwentyThree(c: nat)
    requires c < TWO_24
    ensures Bit(c, 23) <==> c >= TWO_23
  {
    Pow2Values();
    TopBit(c, 23);
  }

  lemma OrSize(c: nat, size: nat)
    requires c < TWO_23
    ensures BitOr(c, size * TWO_24) == c + size * TWO_24
  {
    hide BitOr;
    Pow2Values();
    OrDisjoint(size, 24, c);
    OrCommutes(c, size * TWO_24);
  }

  lemma OrSign(c: nat, size: nat)
    requires c < TWO_23
    ensures (c + size * TWO_24) % TWO_23 == c
    ensures BitOr(c + size * TWO_24, TWO_23) == c + size * TWO_24 + TWO_23 && BitOr(c + size * TWO_24, 0) == c + size * TWO_24
  {
    hide BitOr;
    Pow2Values();
    FieldsApart(c, size, false);
    OrMiddle(size, 23, c);
    OrZero(c + size * TWO_24);
  }

  // ----- work

  /** A target that decodes cleanly is not the largest number, so adding one to it does not wrap to zero. */
  lemma TargetRoom(n: nat)
    requires !Decode(n).overflow
    ensures Decode(n).value == Meant(n) && Decode(n).value + 1 < B(WIDTH)
  {
    hide Bytes, B;
    OverflowMeans(n);
    DivModUnique(Meant(n), 0, Meant(n), B(WIDTH));
    BytesValues();
    BytesAdd(3, 29);
    MantissaBound(n);
    Mono(1, Bytes(29), Bytes(3));
    if Exponent(n) > 3 {
      BytesAdd(Exponent(n) - 4, 1);
      BytesAdd(31, 1);
      EvenRoom(Mantissa(n), Bytes(Exponent(n) - 4), Bytes(31));
    }
  }

  /** Below a multiple of 256 another multiple of 256 leaves room. */
  lemma EvenRoom(a: nat, b: nat, c: nat)
    requires a * (b * 0x100) < c * 0x100
    ensures a * (b * 0x100) + 1 < c * 0x100
  {
    Reorder(a, b, 0x100);
    var k := a * b;
    assert a * (b * 0x100) == k * 0x100;
  }

  /** ~t / (t + 1) + 1 is 2^256 / (t + 1). */
  lemma WorkFormula(t: nat, m: nat)
    requires 0 < t && t + 1 < m
    ensures (t + 1) % m == t + 1 && ((m - 1 - t) / (t + 1) + 1) % m == m / (t + 1)
  {
    var q, r := (m - 1 - t) / (t + 1), (m - 1 - t) % (t + 1);
    assert m - 1 - t == q * (t + 1) + r;
    Distribute(q, 1, t + 1);
    DivModUnique(m, q + 1, r, t + 1);
    Mono(2, t + 1, q + 1);
    DivModUnique(t + 1, 0, t + 1, m);
    DivModUnique(q + 1, 0, q + 1, m);
  }

  method WorkOf(target: BaseUint) returns (r: BaseUint)
    requires target.Ok() && target.width == WIDTH && 0 < target.Val() && target.Val() + 1 < B(WIDTH)
    modifies target.pn
    ensures fresh(r) && r.Ok() && r.width == WIDTH && fresh(r.pn) && r.Val() == B(WIDTH) / (old(target.Val()) + 1)
  {
    hide B, V, Pow2;
    WorkFormula(target.Val(), B(WIDTH));
    r := target.Complement();
    var one := new BaseUint.FromUint64(1, WIDTH);
    target.AddAssign(one);
    var ok := r.DivAssign(target);
    assert ok;
    r.AddAssign(one);
  }

  /** Zero for a target that is negative, overflowing or zero, and otherwise exactly 2^256 / (target + 1), rounded down. */
  method GetBlockProof(nBits: nat) returns (r: BaseUint)
    requires nBits < TWO_32
    ensures fresh(r) && r.Ok() && r.width == WIDTH
    ensures var d := Decode(nBits);
      r.Val() == if d.negative || d.overflow || d.value == 0 then 0 else B(WIDTH) / (d.value + 1)
  {
    hide B, V, Decode, Pow2;
    r := new BaseUint.Zero(WIDTH);
    var target := new BaseUint.Zero(WIDTH);
    var negative, overflow := SetCompact(target, nBits);
    var zero := target.EqualTo(0);
    if negative || overflow || zero { return; }
    TargetRoom(nBits);
    r := WorkOf(target);
  }
}
