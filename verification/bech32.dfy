/**
 Bech32 and Bech32m strings: a human-readable part, a separator and checksummed 5-bit symbols.
 */
module Bech32 {
  import opened Bech32Checksum
  import opened Wrappers

  type Char8 = c: char | c as int < 256 witness 'a'

  type Text = seq<Char8>

  // ----- characters

  predicate IsLower(c: Char8) { 'a' <= c <= 'z' }

  predicate IsUpper(c: Char8) { 'A' <= c <= 'Z' }

  predicate IsPrintable(c: Char8) { 33 <= c as int <= 126 }

  function LowerCase(c: Char8): Char8 {
    if IsUpper(c) then (c as int + 32) as char else c
  }

  function FirstChars(v: Symbol): Char8 {
    if v == 0 then 'q' else if v == 1 then 'p' else if v == 2 then 'z' else if v == 3 then 'r'
    else if v == 4 then 'y' else if v == 5 then '9' else if v == 6 then 'x' else if v == 7 then '8'
    else if v == 8 then 'g' else if v == 9 then 'f' else if v == 10 then '2' else if v == 11 then 't'
    else if v == 12 then 'v' else if v == 13 then 'd' else if v == 14 then 'w' else '0'
  }

  function LastChars(v: Symbol): Char8 {
    if v == 16 then 's' else if v == 17 then '3' else if v == 18 then 'j' else if v == 19 then 'n'
    else if v == 20 then '5' else if v == 21 then '4' else if v == 22 then 'k' else if v == 23 then 'h'
    else if v == 24 then 'c' else if v == 25 then 'e' else if v == 26 then '6' else if v == 27 then 'm'
    else if v == 28 then 'u' else if v == 29 then 'a' else if v == 30 then '7' else 'l'
  }

  /** The character of a symbol. */
  function CharOf(v: Symbol): Char8 {
    if v < 16 then FirstChars(v) else LastChars(v)
  }

  function FirstSymbols(c: Char8): Option<Symbol> {
    if c == 'q' then Some(0) else if c == 'p' then Some(1) else if c == 'z' then Some(2) else if c == 'r' then Some(3)
    else if c == 'y' then Some(4) else if c == '9' then Some(5) else if c == 'x' then Some(6) else if c == '8' then Some(7)
    else if c == 'g' then Some(8) else if c == 'f' then Some(9) else if c == '2' then Some(10) else if c == 't' then Some(11)
    else if c == 'v' then Some(12) else if c == 'd' then Some(13) else if c == 'w' then Some(14) else if c == '0' then Some(15)
    else None
  }

  function LastSymbols(c: Char8): Option<Symbol> {
    if c == 's' then Some(16) else if c == '3' then Some(17) else if c == 'j' then Some(18) else if c == 'n' then Some(19)
    else if c == '5' then Some(20) else if c == '4' then Some(21) else if c == 'k' then Some(22) else if c == 'h' then Some(23)
    else if c == 'c' then Some(24) else if c == 'e' then Some(25) else if c == '6' then Some(26) else if c == 'm' then Some(27)
    else if c == 'u' then Some(28) else if c == 'a' then Some(29) else if c == '7' then Some(30) else if c == 'l' then Some(31)
    else None
  }

  /** The symbol of a lower-case character. */
  function LowerSymbol(c: Char8): Option<Symbol> {
    if FirstSymbols(c).Some? then FirstSymbols(c) else LastSymbols(c)
  }

  /** The symbol of a character of either case. */
  function SymbolOf(c: Char8): Option<Symbol> {
    LowerSymbol(LowerCase(c))
  }

  lemma CharKinds(v: Symbol)
    ensures CharOf(v) != '1' && !IsUpper(CharOf(v)) && IsPrintable(CharOf(v))
  {
  }

  lemma FirstSymbolsOf(v: Symbol)
    requires v < 16
    ensures FirstSymbols(FirstChars(v)) == Some(v)
  {
  }

  lemma LastSymbolsOf(v: Symbol)
    requires v >= 16
    ensures LastSymbols(LastChars(v)) == Some(v) && FirstSymbols(LastChars(v)) == None
  {
  }

  lemma LowerSymbolOfChar(v: Symbol)
    ensures LowerSymbol(CharOf(v)) == Some(v)
  {
    hide FirstSymbols, LastSymbols, FirstChars, LastChars;
    if v < 16 { FirstSymbolsOf(v); } else { LastSymbolsOf(v); }
  }

  lemma SymbolOfChar(v: Symbol)
    ensures SymbolOf(CharOf(v)) == Some(v)
  {
    hide CharOf, LowerSymbol;
    CharKinds(v);
    LowerSymbolOfChar(v);
  }

  lemma FirstCharsOf(c: Char8)
    ensures FirstSymbols(c).Some? ==> FirstSymbols(c).value < 16 && FirstChars(FirstSymbols(c).value) == c
  {
  }

  lemma LastCharsOf(c: Char8)
    ensures LastSymbols(c).Some? ==> LastSymbols(c).value >= 16 && LastChars(LastSymbols(c).value) == c
  {
  }

  lemma CharOfLowerSymbol(c: Char8)
    ensures LowerSymbol(c).Some? ==> CharOf(LowerSymbol(c).value) == c
  {
    hide FirstSymbols, LastSymbols, FirstChars, LastChars;
    FirstCharsOf(c);
    LastCharsOf(c);
  }

  lemma CharOfSymbol(c: Char8)
    ensures SymbolOf(c).Some? ==> CharOf(SymbolOf(c).value) == LowerCase(c)
  {
    hide CharOf, LowerSymbol;
    CharOfLowerSymbol(LowerCase(c));
  }

  datatype Case = NoLetter | LowerFirst | UpperFirst

  /** The case of the first letter of a text. */
  function FirstCase(s: Text): Case {
    if s == [] then NoLetter
    else if IsLower(s[0]) then LowerFirst
    else if IsUpper(s[0]) then UpperFirst
    else FirstCase(s[1..])
  }

  /** A letter of the other case than the first letter, or a character that is not printable. */
  predicate IsError(s: Text, i: nat)
    requires i < |s|
  {
    if IsLower(s[i]) then FirstCase(s[..i]) == UpperFirst
    else if IsUpper(s[i]) then FirstCase(s[..i]) == LowerFirst
    else !IsPrintable(s[i])
  }

  function ErrorsBefore(s: Text, n: nat): seq<nat>
    requires n <= |s|
  {
    if n == 0 then [] else ErrorsBefore(s, n - 1) + if IsError(s, n - 1) then [n - 1] else []
  }

  method CheckCharacters(s: Text) returns (ok: bool, errors: seq<nat>)
    ensures errors == ErrorsBefore(s, |s|) && (ok <==> errors == [])
  {
    var lower, upper := false, false;
    errors := [];
    for i := 0 to |s|
      invariant errors == ErrorsBefore(s, i)
      invariant FirstCase(s[..i]) == if lower then LowerFirst else if upper then UpperFirst else NoLetter
      invariant !(lower && upper)
    {
      FirstCaseNext(s[..i], s[i]);
      assert s[..i + 1] == s[..i] + [s[i]];
      var c := s[i];
      if 'a' <= c <= 'z' {
        if upper { errors := errors + [i]; } else { lower := true; }
      } else if 'A' <= c <= 'Z' {
        if lower { errors := errors + [i]; } else { upper := true; }
      } else if c as int < 33 || c as int > 126 {
        errors := errors + [i];
      }
    }
    assert s[..|s|] == s;
    ok := errors == [];
  }

  lemma {:induction false} FirstCaseNext(s: Text, c: Char8)
    ensures FirstCase(s + [c]) ==
      if FirstCase(s) != NoLetter then FirstCase(s) else if IsLower(c) then LowerFirst else if IsUpper(c) then UpperFirst else NoLetter
  {
    if s == [] {
      assert s + [c] == [c] && [c][1..] == [];
    } else {
      assert (s + [c])[1..] == s[1..] + [c];
      FirstCaseNext(s[1..], c);
    }
  }

  predicate Mixed(s: Text) {
    (exists i :: 0 <= i < |s| && IsLower(s[i])) && (exists i :: 0 <= i < |s| && IsUpper(s[i]))
  }

  predicate Printable(s: Text) { forall i :: 0 <= i < |s| ==> IsPrintable(s[i]) }

  /** A text has no errors exactly when it is printable and in one case. */
  lemma NoErrors(s: Text)
    ensures ErrorsBefore(s, |s|) == [] <==> Printable(s) && !Mixed(s)
  {
    hide IsError, IsPrintable;
    ErrorsList(s, |s|);
    if Printable(s) && !Mixed(s) {
      forall i: nat | i < |s| ensures !IsError(s, i) { NoErrorAt(s, i); }
    }
    if forall i: nat :: i < |s| ==> !IsError(s, i) {
      forall i | 0 <= i < |s| ensures IsPrintable(s[i]) { PrintableAt(s, i); }
      forall i, j | 0 <= i < |s| && 0 <= j < |s| && IsLower(s[i]) ensures !IsUpper(s[j]) { OneCase(s, i, j); }
    }
  }

  lemma PrintableAt(s: Text, i: nat)
    requires i < |s| && !IsError(s, i)
    ensures IsPrintable(s[i])
  {
  }

  lemma NoErrorAt(s: Text, i: nat)
    requires i < |s| && Printable(s) && !Mixed(s)
    ensures !IsError(s, i)
  {
    hide IsLower, IsUpper;
    FirstCaseMeans(s[..i]);
    assert forall j :: 0 <= j < i ==> s[..i][j] == s[j];
  }

  lemma {:induction false} ErrorsList(s: Text, n: nat)
    requires n <= |s|
    ensures ErrorsBefore(s, n) == [] <==> forall i: nat :: i < n ==> !IsError(s, i)
  {
    if n > 0 { ErrorsList(s, n - 1); }
  }

  lemma {:induction false} FirstCaseMeans(s: Text)
    ensures FirstCase(s) == LowerFirst ==> exists i :: 0 <= i < |s| && IsLower(s[i])
    ensures FirstCase(s) == UpperFirst ==> exists i :: 0 <= i < |s| && IsUpper(s[i])
    ensures FirstCase(s) == NoLetter ==> forall i :: 0 <= i < |s| ==> !IsLower(s[i]) && !IsUpper(s[i])
  {
    if s != [] {
      FirstCaseMeans(s[1..]);
      assert forall i :: 0 <= i < |s| - 1 ==> s[1..][i] == s[i + 1];
      if FirstCase(s[1..]) == LowerFirst { var i :| 0 <= i < |s| - 1 && IsLower(s[1..][i]); assert IsLower(s[i + 1]); }
      if FirstCase(s[1..]) == UpperFirst { var i :| 0 <= i < |s| - 1 && IsUpper(s[1..][i]); assert IsUpper(s[i + 1]); }
      forall i | FirstCase(s) == NoLetter && 0 <= i < |s| ensures !IsLower(s[i]) && !IsUpper(s[i]) {
        if i > 0 { assert s[i] == s[1..][i - 1]; }
      }
    }
  }

  lemma {:induction false} FirstCasePrefix(s: Text, t: Text)
    ensures FirstCase(s) != NoLetter ==> FirstCase(s + t) == FirstCase(s)
  {
    if s != [] {
      assert (s + t)[1..] == s[1..] + t;
      FirstCasePrefix(s[1..], t);
    }
  }

  lemma OneCase(s: Text, i: nat, j: nat)
    requires i < |s| && j < |s| && IsLower(s[i]) && forall k: nat :: k < |s| ==> !IsError(s, k)
    ensures !IsUpper(s[j])
  {
    assert !IsError(s, i) && !IsError(s, j);
    if i < j {
      FirstCaseNext(s[..i], s[i]);
      assert FirstCase(s[..i] + [s[i]]) == LowerFirst;
      FirstCasePrefix(s[..i] + [s[i]], s[i + 1..j]);
      assert s[..i] + [s[i]] + s[i + 1..j] == s[..j];
    } else if j < i {
      FirstCaseNext(s[..j], s[j]);
      FirstCasePrefix(s[..j] + [s[j]], s[j + 1..i]);
      assert s[..j] + [s[j]] + s[j + 1..i] == s[..i];
    }
  }

  // ----- checksums

  datatype Encoding = Bech32 | Bech32m

  function EncodingConstant(e: Encoding): bv32 {
    if e == Bech32 then 1 else 0x2bc830a3
  }

  function Target(e: Encoding): Poly {
    if e == Bech32 then ONE else Poly(21, 28, 16, 12, 5, 3)
  }

  lemma TargetPacked(e: Encoding)
    ensures Pack(Target(e)) == EncodingConstant(e)
  {
  }

  lemma PackInjective(p: Poly, q: Poly)
    ensures Pack(p) == Pack(q) <==> p == q
  {
  }

  function High(c: Char8): Symbol { ((c as int) / 32) as bv5 }

  function Low(c: Char8): Symbol { ((c as int) % 32) as bv5 }

  function Expand(hrp: Text): (r: seq<Symbol>)
    ensures |r| == 2 * |hrp| + 1
  {
    seq(|hrp|, i requires 0 <= i < |hrp| => High(hrp[i])) + [0] + seq(|hrp|, i requires 0 <= i < |hrp| => Low(hrp[i]))
  }

  method ExpandHRP(hrp: Text) returns (ret: seq<Symbol>)
    ensures ret == Expand(hrp)
  {
    var n := |hrp|;
    ret := seq(n * 2 + 1, i => 0);
    for i := 0 to n
      invariant |ret| == 2 * n + 1
      invariant forall j :: 0 <= j < i ==> ret[j] == High(hrp[j]) && ret[j + n + 1] == Low(hrp[j])
    {
      ret := ret[i := High(hrp[i])];
      ret := ret[i + n + 1 := Low(hrp[i])];
    }
    ret := ret[n := 0];
  }

  function Verify(hrp: Text, values: seq<Symbol>): Option<Encoding> {
    var r := Remainder(ONE, Expand(hrp) + values);
    if r == Target(Bech32) then Some(Bech32) else if r == Target(Bech32m) then Some(Bech32m) else None
  }

  method VerifyChecksum(hrp: Text, values: seq<Symbol>) returns (r: Option<Encoding>)
    ensures r == Verify(hrp, values)
  {
    hide Pack, EncodingConstant, Target, Remainder;
    var expanded := ExpandHRP(hrp);
    var check := PolyMod(expanded + values);
    ghost var rest := Remainder(ONE, expanded + values);
    TargetPacked(Bech32);
    TargetPacked(Bech32m);
    PackInjective(rest, Target(Bech32));
    PackInjective(rest, Target(Bech32m));
    if check == EncodingConstant(Bech32) { return Some(Bech32); }
    if check == EncodingConstant(Bech32m) { return Some(Bech32m); }
    return None;
  }

  function Checksum(e: Encoding, hrp: Text, values: seq<Symbol>): (r: seq<Symbol>)
    ensures |r| == 6
  {
    ToSymbols(Add(Remainder(ONE, Expand(hrp) + values + Zeros(6)), Target(e)))
  }

  /** The 5-bit group i, counted from the top. */
  function Group(x: bv32, i: nat): Symbol
    requires i < 6
  {
    if i == 0 then ((x >> 25) & 31) as bv5
    else if i == 1 then ((x >> 20) & 31) as bv5
    else if i == 2 then ((x >> 15) & 31) as bv5
    else if i == 3 then ((x >> 10) & 31) as bv5
    else if i == 4 then ((x >> 5) & 31) as bv5
    else (x & 31) as bv5
  }

  lemma GroupOfPack(p: Poly, i: nat)
    requires i < 6
    ensures Group(Pack(p), i) == ToSymbols(p)[i]
  {
    hide Pack, Group;
    GroupsOfPack(p);
  }

  lemma GroupsOfPack(p: Poly)
    ensures Group(Pack(p), 0) == p.c0 && Group(Pack(p), 1) == p.c1 && Group(Pack(p), 2) == p.c2
    ensures Group(Pack(p), 3) == p.c3 && Group(Pack(p), 4) == p.c4 && Group(Pack(p), 5) == p.c5
  {
  }

  method CreateChecksum(e: Encoding, hrp: Text, values: seq<Symbol>) returns (ret: seq<Symbol>)
    ensures ret == Checksum(e, hrp, values)
  {
    hide Pack, EncodingConstant, Target, Remainder, Add, Group, ToSymbols;
    var enc := ExpandHRP(hrp);
    enc := enc + values + Zeros(6);
    var mod := PolyMod(enc);
    TargetPacked(e);
    PackAdd(Remainder(ONE, enc), Target(e));
    mod := mod ^ EncodingConstant(e);
    ghost var p := Add(Remainder(ONE, enc), Target(e));
    ret := Zeros(6);
    for i := 0 to 6
      invariant |ret| == 6 && forall j :: 0 <= j < i ==> ret[j] == ToSymbols(p)[j]
    {
      GroupOfPack(p, i);
      ret := ret[i := Group(mod, i)];
    }
  }

  /** A checksum makes its text verify, and no other six symbols do. */
  lemma ChecksumExact(e: Encoding, hrp: Text, values: seq<Symbol>, cs: seq<Symbol>)
    requires |cs| == 6
    ensures Verify(hrp, values + cs) == Some(e) <==> cs == Checksum(e, hrp, values)
  {
    hide Remainder, Add;
    var pre := Expand(hrp) + values;
    assert Expand(hrp) + (values + cs) == pre + cs;
    ChecksumUnique(pre, cs, Target(e));
    assert ToSymbols(FromSymbols(cs)) == cs;
    TargetsDiffer();
  }

  lemma TargetsDiffer()
    ensures Target(Bech32) != Target(Bech32m)
  {
  }

  /** A change confined to six consecutive symbols never verifies under the same encoding. */
  lemma BurstRejected(hrp: Text, pre: seq<Symbol>, a: seq<Symbol>, b: seq<Symbol>, post: seq<Symbol>)
    requires |a| == |b| == 6 && a != b && Verify(hrp, pre + a + post).Some?
    ensures Verify(hrp, pre + b + post) != Verify(hrp, pre + a + post)
  {
    hide Remainder;
    assert Expand(hrp) + (pre + a + post) == (Expand(hrp) + pre) + a + post;
    assert Expand(hrp) + (pre + b + post) == (Expand(hrp) + pre) + b + post;
    BurstDetected(Expand(hrp) + pre, a, b, post);
  }

  // ----- strings

  function Chars(v: seq<Symbol>): (t: Text)
    ensures |t| == |v| && forall i :: 0 <= i < |v| ==> t[i] == CharOf(v[i])
  {
    seq(|v|, i requires 0 <= i < |v| => CharOf(v[i]))
  }

  predicate NoUpper(s: Text) { forall i :: 0 <= i < |s| ==> !IsUpper(s[i]) }

  function EncodeText(e: Encoding, hrp: Text, values: seq<Symbol>): Text {
    hrp + ['1'] + Chars(values + Checksum(e, hrp, values))
  }

  method Encode(e: Encoding, hrp: Text, values: seq<Symbol>) returns (ret: Text)
    requires NoUpper(hrp)
    ensures ret == EncodeText(e, hrp, values)
  {
    hide CharOf, Checksum;
    var checksum := CreateChecksum(e, hrp, values);
    var combined := values + checksum;
    ret := hrp + ['1'];
    for i := 0 to |combined|
      invariant ret == hrp + ['1'] + Chars(combined[..i])
    {
      ret := ret + [CharOf(combined[i])];
      assert Chars(combined[..i + 1]) == Chars(combined[..i]) + [CharOf(combined[i])];
    }
    assert combined[..|combined|] == combined;
  }

  /** The last position of the separator, or -1. */
  function LastSeparator(s: Text): (r: int)
    ensures -1 <= r < |s| && (r >= 0 ==> s[r] == '1') && forall i :: r < i < |s| ==> s[i] != '1'
  {
    if s == [] then -1 else if s[|s| - 1] == '1' then |s| - 1 else LastSeparator(s[..|s| - 1])
  }

  predicate AllSymbols(s: Text) { forall i :: 0 <= i < |s| ==> SymbolOf(s[i]).Some? }

  function SymbolsOf(s: Text): (v: seq<Symbol>)
    requires AllSymbols(s)
    ensures |v| == |s|
  {
    seq(|s|, i requires 0 <= i < |s| => SymbolOf(s[i]).value)
  }

  function Lower(s: Text): (t: Text)
    ensures |t| == |s| && forall i :: 0 <= i < |s| ==> t[i] == LowerCase(s[i])
  {
    seq(|s|, i requires 0 <= i < |s| => LowerCase(s[i]))
  }

  datatype DecodeResult = Invalid | Decoded(encoding: Encoding, hrp: Text, data: seq<Symbol>)

  const MAX_LENGTH := 90

  /** The separator leaves a human-readable part and at least a checksum. */
  predicate WellShaped(s: Text) {
    ErrorsBefore(s, |s|) == [] && |s| <= MAX_LENGTH && 0 < LastSeparator(s) <= |s| - 7
  }

  function DecodeText(s: Text): DecodeResult {
    var pos := LastSeparator(s);
    if !WellShaped(s) || !AllSymbols(s[pos + 1..]) then Invalid else
    var hrp, values := Lower(s[..pos]), SymbolsOf(s[pos + 1..]);
    match Verify(hrp, values)
    case None => Invalid
    case Some(e) => Decoded(e, hrp, values[..|values| - 6])
  }

  method Decode(s: Text) returns (r: DecodeResult)
    ensures r == DecodeText(s)
  {
    hide ErrorsBefore, Verify, LowerCase, SymbolOf;
    var ok, errors := CheckCharacters(s);
    if !ok { return Invalid; }
    var pos := RFind(s);
    if |s| > MAX_LENGTH || pos == -1 || pos == 0 || pos + 7 > |s| { return Invalid; }
    ghost var tail := s[pos + 1..];
    var values: seq<Symbol> := [];
    for i := 0 to |s| - 1 - pos
      invariant AllSymbols(tail[..i]) && values == SymbolsOf(tail[..i])
    {
      var rev := SymbolOf(s[i + pos + 1]);
      assert tail[i] == s[i + pos + 1];
      if rev == None { return Invalid; }
      assert tail[..i + 1][..i] == tail[..i];
      values := values + [rev.value];
    }
    assert tail[..|s| - 1 - pos] == tail;
    var hrp: Text := [];
    for i := 0 to pos
      invariant hrp == Lower(s[..i])
    {
      hrp := hrp + [LowerCase(s[i])];
      assert Lower(s[..i + 1]) == Lower(s[..i]) + [LowerCase(s[i])];
    }
    var result := VerifyChecksum(hrp, values);
    if result == None { return Invalid; }
    return Decoded(result.value, hrp, values[..|values| - 6]);
  }

  method RFind(s: Text) returns (pos: int)
    ensures pos == LastSeparator(s)
  {
    pos := |s| - 1;
    while pos >= 0 && s[pos] != '1'
      invariant -1 <= pos < |s| && LastSeparator(s) == LastSeparator(s[..pos + 1])
    {
      assert s[..pos + 1][..pos] == s[..pos];
      pos := pos - 1;
    }
  }

  // ----- round trips

  lemma EncodedShape(e: Encoding, hrp: Text, values: seq<Symbol>)
    requires NoUpper(hrp)
    ensures var t := EncodeText(e, hrp, values);
      && |t| == |hrp| + 7 + |values|
      && LastSeparator(t) == |hrp|
      && NoUpper(t)
      && (Printable(t) <==> Printable(hrp))
  {
    hide CharOf, Checksum, IsPrintable, IsUpper;
    var t, data := EncodeText(e, hrp, values), values + Checksum(e, hrp, values);
    SeparatorKind();
    forall i | 0 <= i < |data| ensures CharOf(data[i]) != '1' && !IsUpper(CharOf(data[i])) && IsPrintable(CharOf(data[i])) {
      CharKinds(data[i]);
    }
    assert t[|hrp|] == '1';
    forall i | |hrp| < i < |t| ensures t[i] == CharOf(data[i - |hrp| - 1]) { }
    forall i | 0 <= i < |hrp| ensures t[i] == hrp[i] { }
  }

  lemma SeparatorKind()
    ensures !IsUpper('1') && IsPrintable('1')
  {
  }

  lemma EncodedSymbols(data: seq<Symbol>)
    ensures AllSymbols(Chars(data)) && SymbolsOf(Chars(data)) == data
  {
    hide CharOf, SymbolOf;
    forall i | 0 <= i < |data| ensures SymbolOf(Chars(data)[i]) == Some(data[i]) { SymbolOfChar(data[i]); }
  }

  /** Decoding an encoding gives it back exactly when it is short enough and has a printable human-readable part; otherwise it fails. */
  lemma RoundTrip(e: Encoding, hrp: Text, values: seq<Symbol>)
    requires NoUpper(hrp)
    ensures DecodeText(EncodeText(e, hrp, values)) ==
      if hrp != [] && Printable(hrp) && |hrp| + 7 + |values| <= MAX_LENGTH then Decoded(e, hrp, values) else Invalid
  {
    hide CharOf, Checksum, Verify, ErrorsBefore, IsPrintable, IsUpper, SymbolOf, LowerCase;
    var t, cs := EncodeText(e, hrp, values), Checksum(e, hrp, values);
    EncodedShape(e, hrp, values);
    NoErrors(t);
    var n := |hrp|;
    assert t[..n] == hrp && t[n + 1..] == Chars(values + cs);
    EncodedSymbols(values + cs);
    ChecksumExact(e, hrp, values, cs);
    LowerSame(hrp);
    assert (values + cs)[..|values|] == values;
  }

  lemma LowerSame(s: Text)
    ensures NoUpper(Lower(s)) && (NoUpper(s) ==> Lower(s) == s)
  {
  }

  /** Every text that decodes is, up to case, the one encoding of what it decodes to. */
  lemma Canonical(s: Text)
    requires DecodeText(s).Decoded?
    ensures var r := DecodeText(s); NoUpper(r.hrp) && EncodeText(r.encoding, r.hrp, r.data) == Lower(s)
  {
    hide CharOf, Checksum, Verify, ErrorsBefore, IsPrintable, IsUpper, SymbolOf, LowerCase, Lower, Chars;
    var pos := LastSeparator(s);
    var hrp, values := Lower(s[..pos]), SymbolsOf(s[pos + 1..]);
    var n := |values| - 6;
    var e := Verify(hrp, values).value;
    assert values == values[..n] + values[n..];
    ChecksumExact(e, hrp, values[..n], values[n..]);
    LowerSame(s[..pos]);
    CharsBack(s[pos + 1..]);
    LowerSplit(s, pos);
  }

  lemma LowerSplit(s: Text, pos: nat)
    requires pos < |s| && s[pos] == '1'
    ensures Lower(s) == Lower(s[..pos]) + ['1'] + Lower(s[pos + 1..])
  {
  }

  lemma CharsBack(s: Text)
    requires AllSymbols(s)
    ensures Chars(SymbolsOf(s)) == Lower(s)
  {
    hide CharOf, SymbolOf, LowerCase;
    forall i | 0 <= i < |s| ensures CharOf(SymbolOf(s[i]).value) == LowerCase(s[i]) { CharOfSymbol(s[i]); }
  }

  // ----- known texts

  lemma NoRemainder(d: seq<Symbol>)
    ensures Remainder(ONE, d[..0]) == ONE
  {
  }

  lemma NextRemainder(d: seq<Symbol>, i: nat, p: Poly)
    requires i < |d| && Remainder(ONE, d[..i]) == p
    ensures Remainder(ONE, d[..i + 1]) == Advance(p, d[i])
  {
    assert d[..i + 1][..i] == d[..i];
  }

  lemma Advance0()
    ensures Advance(Poly(0, 0, 0, 0, 0, 1), 3) == Poly(0, 0, 0, 0, 1, 3)
  {
  }

  lemma Advance1()
    ensures Advance(Poly(0, 0, 0, 0, 1, 3), 0) == Poly(0, 0, 0, 1, 3, 0)
  {
  }

  lemma Advance2()
    ensures Advance(Poly(0, 0, 0, 1, 3, 0), 1) == Poly(0, 0, 1, 3, 0, 1)
  {
  }

  lemma Advance3()
    ensures Advance(Poly(0, 0, 1, 3, 0, 1), 0) == Poly(0, 1, 3, 0, 1, 0)
  {
  }

  lemma Advance4()
    ensures Advance(Poly(0, 1, 3, 0, 1, 0), 0) == Poly(1, 3, 0, 1, 0, 0)
  {
  }

  lemma Advance5()
    ensures Advance(Poly(1, 3, 0, 1, 0, 0), 0) == Poly(30, 22, 21, 21, 29, 18)
  {
  }

  lemma Advance6()
    ensures Advance(Poly(30, 22, 21, 21, 29, 18), 0) == Poly(1, 15, 26, 12, 5, 25)
  {
  }

  lemma Advance7()
    ensures Advance(Poly(1, 15, 26, 12, 5, 25), 0) == Poly(18, 12, 24, 16, 4, 18)
  {
  }

  lemma Advance8()
    ensures Advance(Poly(18, 12, 24, 16, 4, 18), 0) == Poly(10, 28, 25, 31, 20, 30)
  {
  }

  lemma KnownRemainder()
    ensures Remainder(ONE, [3, 0, 1, 0, 0, 0, 0, 0, 0]) == Poly(10, 28, 25, 31, 20, 30)
  {
    hide Remainder, Advance;
    var d: seq<Symbol> := [3, 0, 1, 0, 0, 0, 0, 0, 0];
    Advance0();
    Advance1();
    Advance2();
    Advance3();
    Advance4();
    Advance5();
    Advance6();
    Advance7();
    Advance8();
    NoRemainder(d);
    NextRemainder(d, 0, Poly(0, 0, 0, 0, 0, 1));
    NextRemainder(d, 1, Poly(0, 0, 0, 0, 1, 3));
    NextRemainder(d, 2, Poly(0, 0, 0, 1, 3, 0));
    NextRemainder(d, 3, Poly(0, 0, 1, 3, 0, 1));
    NextRemainder(d, 4, Poly(0, 1, 3, 0, 1, 0));
    NextRemainder(d, 5, Poly(1, 3, 0, 1, 0, 0));
    NextRemainder(d, 6, Poly(30, 22, 21, 21, 29, 18));
    NextRemainder(d, 7, Poly(1, 15, 26, 12, 5, 25));
    NextRemainder(d, 8, Poly(18, 12, 24, 16, 4, 18));
    assert d[..9] == d;
  }

  lemma KnownChecksums()
    ensures Checksum(Bech32, "a", []) == [10, 28, 25, 31, 20, 31] && Checksum(Bech32m, "a", []) == [31, 0, 9, 19, 17, 29]
  {
    hide Remainder;
    var a: Text := "a";
    var none: seq<Symbol> := [];
    assert Expand(a) == [3, 0, 1];
    assert Expand(a) + none + Zeros(6) == [3, 0, 1, 0, 0, 0, 0, 0, 0];
    KnownRemainder();
  }

  lemma KnownChars()
    ensures Chars([10, 28, 25, 31, 20, 31]) == "2uel5l" && Chars([31, 0, 9, 19, 17, 29]) == "lqfn3a"
  {
  }

  /** The shortest texts of BIP 173 and BIP 350: an empty payload for the human-readable part "a". */
  lemma KnownTexts()
    ensures EncodeText(Bech32, "a", []) == "a12uel5l" && EncodeText(Bech32m, "a", []) == "a1lqfn3a"
  {
    hide Checksum, EncodeText;
    KnownChecksums();
    KnownChars();
    EmptyPayload(Bech32);
    EmptyPayload(Bech32m);
    assert ['a', '1'] + "2uel5l" == "a12uel5l";
    assert ['a', '1'] + "lqfn3a" == "a1lqfn3a";
  }

  lemma EmptyPayload(e: Encoding)
    ensures EncodeText(e, "a", []) == ['a', '1'] + Chars(Checksum(e, "a", []))
  {
    hide Checksum, CharOf;
    var none: seq<Symbol> := [];
    assert none + Checksum(e, "a", none) == Checksum(e, "a", none);
    assert "a" + ['1'] == ['a', '1'];
  }

  /** The characters of the symbols, in order. */
  lemma Alphabet(v: Symbol)
    ensures CharOf(v) == "qpzry9x8gf2tvdw0s3jn54khce6mua7l"[v as int]
  {
  }

  // ----- damaged texts

  /** Two texts that agree, up to case, outside six consecutive characters behind their common last separator. */
  predicate SixApart(s: Text, t: Text, at: nat) {
    && |s| == |t| && LastSeparator(s) == LastSeparator(t) < at <= |s| - 6
    && forall i :: 0 <= i < |s| && !(at <= i < at + 6) ==> LowerCase(s[i]) == LowerCase(t[i])
  }

  lemma SymbolsApart(s: Text, t: Text, at: nat)
    requires |s| == |t| && at <= |s| - 6 && AllSymbols(s) && AllSymbols(t)
    requires forall i :: 0 <= i < |s| && !(at <= i < at + 6) ==> LowerCase(s[i]) == LowerCase(t[i])
    ensures SymbolsOf(t) == SymbolsOf(s)[..at] + SymbolsOf(t)[at..at + 6] + SymbolsOf(s)[at + 6..]
  {
    hide LowerCase, LowerSymbol;
  }

  lemma LowerAgrees(s: Text, t: Text)
    requires |s| == |t| && forall i :: 0 <= i < |s| ==> LowerCase(s[i]) == LowerCase(t[i])
    ensures Lower(s) == Lower(t)
  {
  }

  /** Six characters behind the separator cannot be changed, except in case, without the text being refused or told to be of the other encoding. */
  lemma BurstInText(s: Text, t: Text, at: nat)
    requires SixApart(s, t, at) && DecodeText(s).Decoded? && DecodeText(t).Decoded?
    requires DecodeText(s).encoding == DecodeText(t).encoding
    ensures Lower(s) == Lower(t)
  {
    hide Verify, ErrorsBefore, SymbolOf, LowerCase, Lower, SymbolsOf;
    var pos := LastSeparator(s);
    LowerAgrees(s[..pos], t[..pos]);
    var hrp, k := Lower(s[..pos]), at - pos - 1;
    var x, y := SymbolsOf(s[pos + 1..]), SymbolsOf(t[pos + 1..]);
    SymbolsApart(s[pos + 1..], t[pos + 1..], k);
    assert x == x[..k] + x[k..k + 6] + x[k + 6..];
    if x[k..k + 6] != y[k..k + 6] {
      BurstRejected(hrp, x[..k], x[k..k + 6], y[k..k + 6], x[k + 6..]);
    }
    CharsBack(s[pos + 1..]);
    CharsBack(t[pos + 1..]);
    LowerSplit(s, pos);
    LowerSplit(t, pos);
  }
}
