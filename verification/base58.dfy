/**
 Base58: byte strings as base 58 numbers in text, with leading zero bytes kept as leading ones.
 */
module Base58 {
  import opened Limbs
  import LimbShifts
  import opened Radix
  import opened Wrappers

  // ----- multiply and add in a digit buffer

  /** A number that needs exactly n digits. */
  predicate Sized(b: nat, v: nat, n: nat) {
    v < Pow(b, n) && (n > 0 ==> v >= Pow(b, n - 1))
  }

  /** All the buffer's digits are in range and the ones above the length are zero. */
  predicate Tidy(b: nat, s: seq<nat>, length: nat) {
    Below(b, s) && length <= |s| && AllZero(s[..|s| - length]) && Sized(b, Value(b, s), length)
  }

  lemma MulAddNext(b: nat, x: seq<nat>, s: seq<nat>, at: nat, mult: nat, add: nat, carry: nat, n: nat)
    requires b >= 2 && |x| == |s| && at < |s| && n == carry + mult * x[at]
    requires Value(b, s[at + 1..]) + carry * Pow(b, |s| - at - 1) == mult * Value(b, x[at + 1..]) + add
    ensures 0 <= n % b < b
    ensures Value(b, s[at := n % b][at..]) + (n / b) * Pow(b, |s| - at) == mult * Value(b, x[at..]) + add
  {
    hide Pow, Value;
    var i, t := |s| - at - 1, s[at := n % b];
    var p := Pow(b, i);
    FrontDigit(b, t, at);
    FrontDigit(b, x, at);
    assert t[at + 1..] == s[at + 1..];
    PowUnfold(b, i + 1);
    var q: int, r: int := n / b, n % b;
    assert n == q * b + r;
    Distribute(q * b, r, p);
    Reorder(q, b, p);
    Distribute(carry, mult * x[at], p);
    Distribute(x[at] * p, Value(b, x[at + 1..]), mult);
    Reorder(mult, x[at], p);
  }

  lemma FrontDigit(b: nat, s: seq<nat>, at: nat)
    requires at < |s|
    ensures Value(b, s[at..]) == s[at] * Pow(b, |s| - at - 1) + Value(b, s[at + 1..])
  {
    hide Pow;
    assert s[at..] == [s[at]] + s[at + 1..];
    ValueConcat(b, [s[at]], s[at + 1..]);
    assert [s[at]][..0] == [];
    assert Value(b, [s[at]]) == s[at];
  }

  /** A buffer whose high digits are zero has the value of its low digits. */
  lemma LowPart(b: nat, s: seq<nat>, at: nat)
    requires at <= |s| && AllZero(s[..at])
    ensures Value(b, s) == Value(b, s[at..])
  {
    hide Pow;
    assert s == s[..at] + s[at..];
    ValueConcat(b, s[..at], s[at..]);
    ValueZero(b, s[..at]);
  }

  /** In place: the number in the buffer times mult plus add. The buffer never runs out of room. */
  method MulAdd(buf: array<nat>, length: nat, b: nat, mult: nat, add: nat) returns (newLength: nat)
    requires b >= 2 && mult >= 1 && Tidy(b, buf[..], length)
    requires mult * Value(b, buf[..]) + add < Pow(b, buf.Length)
    modifies buf
    ensures Value(b, buf[..]) == mult * old(Value(b, buf[..])) + add
    ensures Tidy(b, buf[..], newLength)
  {
    hide Pow, Value, Tidy;
    ghost var x, size := buf[..], buf.Length;
    TidyBelow(b, x, length);
    var carry: nat, i: nat := add, 0;
    Nothing(b, x);
    while (carry != 0 || i < length) && i < buf.Length
      invariant i <= size && buf[..size - i] == x[..size - i] && Below(b, buf[..])
      invariant Value(b, buf[size - i..]) + carry * Pow(b, i) == mult * Value(b, x[size - i..]) + add
      invariant i > length && carry == 0 ==> buf[size - i] > 0
    {
      var at := buf.Length - 1 - i;
      ghost var s := buf[..];
      assert s[at + 1..] == buf[size - i..] && s[at] == buf[..size - i][at] == x[at];
      var n := carry + mult * buf[at];
      LimbShifts.Shrinks(n, b);
      MulAddNext(b, x, s, at, mult, add, carry, n);
      TopDigit(b, x, length, at, carry, n, mult);
      buf[at] := n % b;
      carry := n / b;
      assert buf[..] == s[at := n % b] && buf[at..] == s[at := n % b][at..];
      assert buf[..at] == x[..at] by { assert s[..at] == s[..size - i][..at]; }
      i := i + 1;
    }
    newLength := i;
    NoCarry(b, x, buf[..], i, mult, add, carry);
    assert carry == 0;
    MulAddDone(b, x, buf[..], length, i, mult, add);
  }

  lemma TidyBelow(b: nat, s: seq<nat>, length: nat)
    requires Tidy(b, s, length)
    ensures Below(b, s) && length <= |s|
  {
  }

  lemma Nothing(b: nat, x: seq<nat>)
    ensures Value(b, x[|x|..]) == 0 && Pow(b, 0) == 1
  {
  }

  /** A limb written past the old length holds the last of the carry. */
  lemma TopDigit(b: nat, x: seq<nat>, length: nat, at: nat, carry: nat, n: nat, mult: nat)
    requires b >= 2 && Tidy(b, x, length) && at < |x| && n == carry + mult * x[at]
    requires carry != 0 || |x| - 1 - at < length
    ensures |x| - at > length && n / b == 0 ==> n % b > 0
  {
    if |x| - at > length && n / b == 0 {
      assert x[at] == x[..|x| - length][at] == 0;
      assert n == n / b * b + n % b;
    }
  }

  lemma MulAddDone(b: nat, x: seq<nat>, s: seq<nat>, length: nat, i: nat, mult: nat, add: nat)
    requires b >= 2 && mult >= 1 && |x| == |s| && length <= i <= |s| && Tidy(b, x, length) && Below(b, s)
    requires s[..|s| - i] == x[..|s| - i]
    requires Value(b, s[|s| - i..]) == mult * Value(b, x[|s| - i..]) + add
    requires i > length ==> s[|s| - i] > 0
    ensures Value(b, s) == mult * Value(b, x) + add && Tidy(b, s, i)
  {
    hide Pow, Value, Sized, AllZero, Below;
    var at := |s| - i;
    HighZeros(x, |x| - length, at);
    LowPart(b, s, at);
    LowPart(b, x, at);
    NewLength(b, x, s, length, i, mult, add);
  }

  lemma HighZeros(x: seq<nat>, from: nat, at: nat)
    requires at <= from <= |x| && AllZero(x[..from])
    ensures AllZero(x[..at])
  {
    assert forall j :: 0 <= j < at ==> x[..at][j] == x[..from][j];
  }

  lemma NoCarry(b: nat, x: seq<nat>, s: seq<nat>, i: nat, mult: nat, add: nat, carry: nat)
    requires b >= 2 && |x| == |s| && i <= |s| && mult * Value(b, x) + add < Pow(b, |x|)
    requires Value(b, s[|s| - i..]) + carry * Pow(b, i) == mult * Value(b, x[|s| - i..]) + add
    requires i == |s| || carry == 0
    ensures carry == 0
  {
    hide Pow, Value;
    if carry != 0 {
      assert s[0..] == s && x[0..] == x;
      Mono(1, carry, Pow(b, i));
    }
  }

  lemma NewLength(b: nat, x: seq<nat>, s: seq<nat>, length: nat, i: nat, mult: nat, add: nat)
    requires b >= 2 && mult >= 1 && i <= |s| && i >= length && Sized(b, Value(b, x), length) && Below(b, s)
    requires Value(b, s) == Value(b, s[|s| - i..]) == mult * Value(b, x) + add
    requires i > length ==> s[|s| - i] > 0
    ensures Sized(b, Value(b, s), i)
  {
    hide Pow, Value;
    var t := s[|s| - i..];
    ValueBound(b, t);
    if i > length {
      LeadingCounts(b, t);
      Mono(1, t[0], Pow(b, i - 1));
    } else {
      Mono(1, mult, Value(b, x));
    }
  }

  // ----- the alphabet

  /** Digits and letters without 0, I, O and l. */
  function CharOf(d: nat): char
    requires d < 58
  {
    if d < 9 then (49 + d) as char
    else if d < 17 then (65 + d - 9) as char
    else if d < 22 then (74 + d - 17) as char
    else if d < 33 then (80 + d - 22) as char
    else if d < 44 then (97 + d - 33) as char
    else (109 + d - 44) as char
  }

  /** The digit of a character, or -1. */
  function DigitOf(c: char): (r: int)
    ensures -1 <= r < 58
  {
    if '1' <= c <= '9' then c as int - 49
    else if 'A' <= c <= 'H' then c as int - 65 + 9
    else if 'J' <= c <= 'N' then c as int - 74 + 17
    else if 'P' <= c <= 'Z' then c as int - 80 + 22
    else if 'a' <= c <= 'k' then c as int - 97 + 33
    else if 'm' <= c <= 'z' then c as int - 109 + 44
    else -1
  }

  predicate IsSpace(c: char) {
    c == ' ' || c as int == 12 || c == '\n' || c == '\r' || c == '\t' || c as int == 11
  }

  /** The characters of the digits ascend, and are all digits and letters but 0, I, O and l. */
  lemma Alphabet(d: nat, e: nat, c: char)
    requires d < e < 58
    ensures CharOf(d) < CharOf(e)
    ensures DigitOf(c) >= 0 <==> ('0' <= c <= '9' || 'A' <= c <= 'Z' || 'a' <= c <= 'z') && c != '0' && c != 'I' && c != 'O' && c != 'l'
  {
  }

  lemma DigitOfChar(d: nat)
    requires d < 58
    ensures DigitOf(CharOf(d)) == d && !IsSpace(CharOf(d)) && CharOf(d) as int != 0
  {
  }

  lemma CharOfDigit(c: char)
    ensures DigitOf(c) >= 0 ==> CharOf(DigitOf(c)) == c
  {
  }

  // ----- what the two functions compute

  function Zeros(n: nat): (z: seq<nat>)
    ensures |z| == n && AllZero(z)
  {
    seq(n, i => 0)
  }

  function LeadingZeros(s: seq<nat>): (n: nat)
    ensures n <= |s| && AllZero(s[..n]) && (n < |s| ==> s[n] > 0)
  {
    if s == [] || s[0] != 0 then 0 else
    assert s[..1 + LeadingZeros(s[1..])] == [0] + s[1..][..LeadingZeros(s[1..])];
    1 + LeadingZeros(s[1..])
  }

  /** Leading zeros kept, the rest read in one base and written in another. */
  function Convert(from: nat, to: nat, s: seq<nat>): seq<nat>
    requires to >= 2
  {
    var z := LeadingZeros(s);
    Zeros(z) + Digits(to, Value(from, s[z..]))
  }

  function TextOf(d: seq<nat>): (t: string)
    requires Below(58, d)
    ensures |t| == |d| && forall i :: 0 <= i < |d| ==> t[i] == CharOf(d[i])
  {
    seq(|d|, i requires 0 <= i < |d| => CharOf(d[i]))
  }

  lemma ConvertBelow(from: nat, to: nat, s: seq<nat>)
    requires to >= 2
    ensures Below(to, Convert(from, to, s))
  {
    DigitsMean(to, Value(from, s[LeadingZeros(s)..]));
  }

  function EncodeText(s: seq<nat>): string {
    ConvertBelow(256, 58, s);
    TextOf(Convert(256, 58, s))
  }

  function SkipSpaces(s: string): (t: string)
    ensures |t| <= |s|
  {
    if s == [] || !IsSpace(s[0]) then s else SkipSpaces(s[1..])
  }

  /** The characters before the first space. */
  function Token(s: string): (t: string)
    ensures t <= s && forall i :: 0 <= i < |t| ==> !IsSpace(t[i])
    ensures |t| < |s| ==> IsSpace(s[|t|])
  {
    if s == [] || IsSpace(s[0]) then [] else [s[0]] + Token(s[1..])
  }

  predicate AllSpace(s: string) { forall i :: 0 <= i < |s| ==> IsSpace(s[i]) }

  predicate AllDigits(s: string) { forall i :: 0 <= i < |s| ==> DigitOf(s[i]) >= 0 }

  function DigitsOf(s: string): (d: seq<nat>)
    requires AllDigits(s)
    ensures |d| == |s| && Below(58, d) && forall i :: 0 <= i < |s| ==> d[i] == DigitOf(s[i])
  {
    seq(|s|, i requires 0 <= i < |s| => DigitOf(s[i]))
  }

  predicate HasNul(s: string) { exists i :: 0 <= i < |s| && s[i] as int == 0 }

  /** One token of base 58 digits between spaces, of at most maxLength bytes. */
  function DecodeText(s: string, maxLength: int): Option<seq<nat>> {
    var body := SkipSpaces(s);
    var token := Token(body);
    if HasNul(s) || !AllSpace(body[|token|..]) || !AllDigits(token) then None else
    var bytes := Convert(58, 256, DigitsOf(token));
    if bytes != [] && |bytes| > maxLength then None else Some(bytes)
  }

  // ----- round trips

  lemma {:induction false} LeadingZerosOf(z: nat, d: seq<nat>)
    requires d != [] ==> d[0] > 0
    ensures LeadingZeros(Zeros(z) + d) == z
  {
    if z > 0 {
      assert (Zeros(z) + d)[1..] == Zeros(z - 1) + d;
      LeadingZerosOf(z - 1, d);
    }
  }

  /** Converting back gives the digits back. */
  lemma ConvertBack(from: nat, to: nat, s: seq<nat>)
    requires from >= 2 && to >= 2 && Below(from, s)
    ensures Convert(to, from, Convert(from, to, s)) == s
  {
    hide Digits, Value;
    var z := LeadingZeros(s);
    var rest := s[z..];
    var v := Value(from, rest);
    var d := Digits(to, v);
    DigitsMean(to, v);
    DigitsUnique(from, rest);
    LeadingZerosOf(z, d);
    assert (Zeros(z) + d)[z..] == d;
    assert s == s[..z] + rest && s[..z] == Zeros(z);
  }

  lemma {:induction false} PlainToken(t: string)
    requires forall i :: 0 <= i < |t| ==> !IsSpace(t[i])
    ensures SkipSpaces(t) == t && Token(t) == t
  {
    assert |Token(t)| == |t|;
  }

  /** Every byte string of at most the allowed length decodes back from its encoding, and no longer one does. */
  lemma DecodeEncode(s: seq<nat>, maxLength: int)
    requires Below(256, s)
    ensures DecodeText(EncodeText(s), maxLength) == if s != [] && |s| > maxLength then None else Some(s)
  {
    hide CharOf, DigitOf, IsSpace, Convert;
    var d, t := Convert(256, 58, s), EncodeText(s);
    ConvertBelow(256, 58, s);
    forall i | 0 <= i < |t| ensures DigitOf(t[i]) == d[i] && !IsSpace(t[i]) && t[i] as int != 0 { DigitOfChar(d[i]); }
    PlainToken(t);
    assert DigitsOf(t) == d;
    ConvertBack(256, 58, s);
  }

  /** A text that decodes is the encoding of its bytes between surrounding spaces. */
  lemma EncodeDecode(t: string, maxLength: int)
    requires DecodeText(t, maxLength).Some?
    ensures Below(256, DecodeText(t, maxLength).value)
    ensures EncodeText(DecodeText(t, maxLength).value) == Token(SkipSpaces(t))
  {
    hide CharOf, DigitOf, IsSpace, Convert;
    var token := Token(SkipSpaces(t));
    var d := DigitsOf(token);
    ConvertBelow(58, 256, d);
    ConvertBack(58, 256, d);
    ConvertBelow(256, 58, Convert(58, 256, d));
    forall i | 0 <= i < |token| ensures CharOf(d[i]) == token[i] { CharOfDigit(token[i]); }
    assert TextOf(d) == token;
  }

  // ----- the two functions

  method EncodeBase58(input: seq<nat>) returns (str: string)
    requires Below(256, input)
    ensures str == EncodeText(input)
  {
    hide CharOf, Digits, Value, Pow;
    var zeroes := CountZeros(input);
    var rest := input[zeroes..];
    var b58, length := ToBase58(rest);
    var it := b58.Length - length;
    ghost var from, d := it, Digits(58, Value(256, rest));
    while it < b58.Length && b58[it] == 0
      invariant from <= it <= b58.Length && (it > from ==> b58[from] == 0)
    {
      it := it + 1;
    }
    assert length > 0 ==> d[0] == b58[from];
    DigitsMean(58, Value(256, rest));
    str := seq(zeroes, i => '1');
    while it < b58.Length
      invariant from <= it <= b58.Length
      invariant str == seq(zeroes, i => '1') + TextOf(d[..it - from])
    {
      assert d[it - from] == b58[from..][it - from] == b58[it];
      str := str + [CharOf(b58[it])];
      assert TextOf(d[..it + 1 - from]) == TextOf(d[..it - from]) + [CharOf(d[it - from])];
      it := it + 1;
    }
    assert d[..it - from] == d;
    ConvertBelow(256, 58, input);
    ZeroChar();
    assert str == TextOf(Zeros(zeroes) + d);
  }

  lemma ZeroChar()
    ensures CharOf(0) == '1' && DigitOf('1') == 0 && forall c :: DigitOf(c) == 0 <==> c == '1'
  {
  }

  method CountZeros(input: seq<nat>) returns (zeroes: nat)
    ensures zeroes == LeadingZeros(input)
  {
    zeroes := 0;
    while zeroes < |input| && input[zeroes] == 0
      invariant zeroes <= |input| && LeadingZeros(input) == zeroes + LeadingZeros(input[zeroes..])
    {
      assert input[zeroes..][1..] == input[zeroes + 1..];
      zeroes := zeroes + 1;
    }
  }

  /** The digits of a byte string with no leading zero, in the tail of a buffer that is always large enough. */
  method ToBase58(rest: seq<nat>) returns (b58: array<nat>, length: nat)
    requires Below(256, rest) && (rest != [] ==> rest[0] > 0)
    ensures fresh(b58) && length <= b58.Length && b58[b58.Length - length..] == Digits(58, Value(256, rest))
  {
    hide Pow, Value, Digits;
    var size := |rest| * 138 / 100 + 1;
    b58 := new nat[size](i => 0);
    length := 0;
    EmptyBuffer(58, b58[..]);
    EmptyBuffer(256, rest[..0]);
    for k := 0 to |rest|
      invariant Tidy(58, b58[..], length) && Value(58, b58[..]) == Value(256, rest[..k])
    {
      NextDigit(256, rest, k);
      BytesFit58(|rest|);
      length := MulAdd(b58, length, 58, 256, rest[k]);
    }
    assert rest[..|rest|] == rest;
    TidyDigits(58, b58[..], length);
  }

  lemma EmptyBuffer(b: nat, s: seq<nat>)
    requires AllZero(s) && b >= 2
    ensures Value(b, s) == 0 && Tidy(b, s, 0)
  {
    ValueZero(b, s);
    assert Pow(b, 0) == 1;
  }

  lemma NextDigit(b: nat, s: seq<nat>, k: nat)
    requires b >= 2 && Below(b, s) && k < |s|
    ensures Value(b, s[..k + 1]) == b * Value(b, s[..k]) + s[k] < Pow(b, |s|)
  {
    hide Pow;
    assert s[..k + 1][..k] == s[..k];
    ValueBound(b, s[..k + 1]);
    PowMono(b, k + 1, |s|);
  }

  /** The digits in use are exactly the digits of the number. */
  lemma TidyDigits(b: nat, s: seq<nat>, length: nat)
    requires b >= 2 && Tidy(b, s, length)
    ensures s[|s| - length..] == Digits(b, Value(b, s))
  {
    hide Pow, Value, Digits;
    var t := s[|s| - length..];
    LowPart(b, s, |s| - length);
    if length > 0 { FullLength(b, t); }
    DigitsUnique(b, t);
  }

  // The leading ones and the digits after them are read while the checks on the length are made.
  method DecodeBase58(str: string, maxLength: int) returns (r: Option<seq<nat>>)
    ensures r == DecodeText(str, maxLength)
  {
    hide DigitOf, IsSpace, Digits, Value, Pow, Convert, SkipSpaces, Token;
    if HasNul(str) { return None; }
    var psz := SkipLeading(str);
    ghost var body, token := str[psz..], Token(str[psz..]);
    var p0 := psz;
    ZeroChar();
    OneIsNoSpace();
    var zeroes := 0;
    while psz < |str| && str[psz] == '1'
      invariant psz == p0 + zeroes <= |str| && (zeroes > 0 ==> zeroes <= maxLength)
      invariant forall i :: 0 <= i < zeroes ==> body[i] == '1'
    {
      zeroes := zeroes + 1;
      if zeroes > maxLength {
        ManyOnes(body, zeroes);
        return None;
      }
      psz := psz + 1;
    }
    assert psz < |str| ==> body[zeroes] == str[psz];
    ReadNothing(body, zeroes);
    var ok, end, b256, length := ReadDigits(str, p0, zeroes, maxLength);
    if !ok { return None; }
    psz := SkipTrailing(str, end);
    if psz < |str| { return None; }
    r := Some(Zeros(zeroes) + b256[b256.Length - length..]);
  }

  lemma OneIsNoSpace()
    ensures !IsSpace('1')
  {
  }

  /** A token starts with exactly so many ones, and these digits follow. */
  predicate Read(token: string, zeroes: nat, d: seq<nat>) {
    && zeroes + |d| <= |token| && Below(58, d)
    && (forall i :: 0 <= i < zeroes ==> token[i] == '1')
    && (zeroes < |token| ==> token[zeroes] != '1')
    && (forall i :: 0 <= i < |d| ==> DigitOf(token[zeroes + i]) == d[i])
  }

  lemma ReadNothing(body: string, zeroes: nat)
    requires zeroes <= |body| && (forall i :: 0 <= i < zeroes ==> body[i] == '1') && (zeroes < |body| ==> body[zeroes] != '1')
    ensures Read(Token(body), zeroes, [])
  {
    hide IsSpace, DigitOf;
    OneIsNoSpace();
    TokenCovers(body, zeroes);
  }

  /** A token reaches past everything that is not a space. */
  lemma TokenCovers(body: string, n: nat)
    requires n <= |body| && forall i :: 0 <= i < n ==> !IsSpace(body[i])
    ensures n <= |Token(body)|
  {
    hide IsSpace;
  }

  lemma ReadNext(body: string, zeroes: nat, d: seq<nat>)
    requires Read(Token(body), zeroes, d) && zeroes + |d| < |body| && !IsSpace(body[zeroes + |d|])
    ensures zeroes + |d| < |Token(body)| && Token(body)[zeroes + |d|] == body[zeroes + |d|]
    ensures DigitOf(body[zeroes + |d|]) >= 0 ==> Read(Token(body), zeroes, d + [DigitOf(body[zeroes + |d|])])
    ensures DigitOf(body[zeroes + |d|]) < 0 ==> !AllDigits(Token(body))
  {
    hide DigitOf, IsSpace;
    ReadMore(Token(body), zeroes, d);
  }

  lemma ReadMore(token: string, zeroes: nat, d: seq<nat>)
    requires Read(token, zeroes, d)
    ensures zeroes + |d| < |token| && DigitOf(token[zeroes + |d|]) >= 0 ==> Read(token, zeroes, d + [DigitOf(token[zeroes + |d|])])
  {
    hide DigitOf;
  }

  lemma ReadAll(body: string, zeroes: nat, d: seq<nat>)
    requires Read(Token(body), zeroes, d) && (zeroes + |d| < |body| ==> IsSpace(body[zeroes + |d|]))
    ensures zeroes + |d| == |Token(body)|
  {
    hide DigitOf;
  }

  /** The digits after the leading ones, up to a space or the end; fails on another character or when the result grows too long. */
  method ReadDigits(str: string, p0: nat, zeroes: nat, maxLength: int)
    returns (ok: bool, psz: nat, b256: array<nat>, length: nat)
    requires p0 + zeroes <= |str| && Read(Token(str[p0..]), zeroes, [])
    ensures p0 + zeroes <= psz <= |str| && length <= b256.Length
    ensures !ok ==>
      !AllDigits(Token(str[p0..])) || |Convert(58, 256, DigitsOf(Token(str[p0..])))| > if maxLength > 0 then maxLength else 0
    ensures ok ==> psz == p0 + |Token(str[p0..])| && AllDigits(Token(str[p0..]))
    ensures ok ==> Zeros(zeroes) + b256[b256.Length - length..] == Convert(58, 256, DigitsOf(Token(str[p0..])))
    ensures ok ==> length == 0 || zeroes + length <= maxLength
  {
    hide DigitOf, IsSpace, Digits, Value, Pow, Convert, Read, Token, AllDigits;
    var start := p0 + zeroes;
    ghost var body, token := str[p0..], Token(str[p0..]);
    ghost var d: seq<nat> := [];
    psz := start;
    length := 0;
    var n := |str| - start;
    b256 := new nat[n * 733 / 1000 + 1](i => 0);
    EmptyBuffer(256, b256[..]);
    EmptyBuffer(58, d);
    while psz < |str| && !IsSpace(str[psz])
      invariant start <= psz <= |str| && |d| == psz - start && Read(token, zeroes, d)
      invariant Tidy(256, b256[..], length) && Value(256, b256[..]) == Value(58, d)
      invariant length == 0 || zeroes + length <= maxLength
    {
      assert body[zeroes + |d|] == str[psz];
      ReadNext(body, zeroes, d);
      var carry := DigitOf(str[psz]);
      if carry == -1 {
        ok := false;
        return;
      }
      Fits(token, zeroes, d, carry, n);
      length := MulAdd(b256, length, 256, 58, carry);
      d := d + [carry];
      psz := psz + 1;
      if length + zeroes > maxLength {
        ok := false;
        TooLong(token, zeroes, d, length);
        return;
      }
    }
    ok := true;
    assert psz < |str| ==> body[zeroes + |d|] == str[psz];
    ReadAll(body, zeroes, d);
    TidyDigits(256, b256[..], length);
    WholeToken(token, zeroes, d);
  }

  method SkipLeading(str: string) returns (psz: nat)
    ensures psz <= |str| && str[psz..] == SkipSpaces(str)
  {
    psz := 0;
    while psz < |str| && IsSpace(str[psz])
      invariant psz <= |str| && SkipSpaces(str) == SkipSpaces(str[psz..])
    {
      assert str[psz..][1..] == str[psz + 1..];
      psz := psz + 1;
    }
  }

  method SkipTrailing(str: string, from: nat) returns (psz: nat)
    requires from <= |str|
    ensures from <= psz <= |str| && (psz == |str| <==> AllSpace(str[from..]))
  {
    psz := from;
    while psz < |str| && IsSpace(str[psz])
      invariant from <= psz <= |str| && forall i :: from <= i < psz ==> IsSpace(str[i])
    {
      psz := psz + 1;
    }
    assert psz < |str| ==> str[from..][psz - from] == str[psz];
  }

  /** One more digit still fits the buffer. */
  lemma Fits(token: string, zeroes: nat, d: seq<nat>, carry: nat, n: nat)
    requires Read(token, zeroes, d) && carry < 58 && |d| < n
    ensures Value(58, d + [carry]) == 58 * Value(58, d) + carry < Pow(256, n * 733 / 1000 + 1)
  {
    hide Pow;
    var e := d + [carry];
    assert e[..|d|] == d;
    ValueBound(58, e);
    PowMono(58, |e|, n);
    DigitsFit256(n);
  }

  /** The digits of a token that starts with ones. */
  lemma LeadingOnes(token: string, zeroes: nat, d: seq<nat>)
    requires AllDigits(token) && Read(token, zeroes, d)
    ensures LeadingZeros(DigitsOf(token)) == zeroes && DigitsOf(token)[zeroes..][..|d|] == d
  {
    hide DigitOf;
    ZeroChar();
    var t := DigitsOf(token);
    assert t == Zeros(zeroes) + t[zeroes..];
    LeadingZerosOf(zeroes, t[zeroes..]);
  }

  lemma ManyOnes(body: string, zeroes: nat)
    requires zeroes <= |body| && forall i :: 0 <= i < zeroes ==> body[i] == '1'
    ensures AllDigits(Token(body)) ==> |Convert(58, 256, DigitsOf(Token(body)))| >= zeroes
  {
    hide DigitOf, Digits, Value, IsSpace;
    var token := Token(body);
    OneIsNoSpace();
    if AllDigits(token) {
      ZeroChar();
      LeadingAtLeast(DigitsOf(token), zeroes);
    }
  }

  lemma {:induction false} LeadingAtLeast(s: seq<nat>, n: nat)
    requires n <= |s| && forall i :: 0 <= i < n ==> s[i] == 0
    ensures LeadingZeros(s) >= n
  {
    if n > 0 { LeadingAtLeast(s[1..], n - 1); }
  }

  /** The number of digits grows with the number. */
  lemma MoreDigits(b: nat, v: nat, length: nat, w: nat)
    requires b >= 2 && v <= w && Sized(b, v, length)
    ensures length <= |Digits(b, w)|
  {
    hide Pow, Value;
    DigitsMean(b, w);
    ValueBound(b, Digits(b, w));
    if length > |Digits(b, w)| { PowMono(b, |Digits(b, w)|, length - 1); }
  }

  lemma PrefixValue(b: nat, d: seq<nat>, s: seq<nat>)
    requires b > 0 && |d| <= |s| && s[..|d|] == d
    ensures Value(b, d) <= Value(b, s)
  {
    hide Pow, Value;
    assert s == d + s[|d|..];
    ValueConcat(b, d, s[|d|..]);
    PowPositive(b, |s| - |d|);
    OnlyGrows(Value(b, d), Pow(b, |s| - |d|));
  }

  lemma OnlyGrows(v: nat, p: nat)
    requires p > 0
    ensures v <= v * p && v <= p * v
  {
    Mono(1, p, v);
  }

  lemma TooLong(token: string, zeroes: nat, d: seq<nat>, length: nat)
    requires Read(token, zeroes, d) && Sized(256, Value(58, d), length) && d != []
    ensures length > 0
    ensures AllDigits(token) ==> |Convert(58, 256, DigitsOf(token))| >= zeroes + length
  {
    hide DigitOf, Value, Digits, Pow;
    ZeroChar();
    assert DigitOf(token[zeroes + 0]) == d[0];
    LeadingCounts(58, d);
    PowPositive(58, |d| - 1);
    Mono(1, d[0], Pow(58, |d| - 1));
    PowUnfold(256, 0);
    if AllDigits(token) {
      LeadingOnes(token, zeroes, d);
      var rest := DigitsOf(token)[zeroes..];
      PrefixValue(58, d, rest);
      MoreDigits(256, Value(58, d), length, Value(58, rest));
    }
  }

  lemma WholeToken(token: string, zeroes: nat, d: seq<nat>)
    requires Read(token, zeroes, d) && zeroes + |d| == |token|
    ensures AllDigits(token) && Convert(58, 256, DigitsOf(token)) == Zeros(zeroes) + Digits(256, Value(58, d))
  {
    hide DigitOf, Value, Digits;
    ZeroChar();
    forall i | 0 <= i < |token| ensures DigitOf(token[i]) >= 0 {
      if i >= zeroes { assert DigitOf(token[zeroes + (i - zeroes)]) == d[i - zeroes]; }
    }
    LeadingOnes(token, zeroes, d);
    assert DigitsOf(token)[zeroes..] == d;
  }
}
