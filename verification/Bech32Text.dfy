/** Bech32 and Bech32m strings: human-readable part, separator, symbols and checksum. */
module Bech32Text {
  import opened Bech32
  import opened Wrappers

  const MAX_LENGTH := 90
  const CHECKSUM_LENGTH := 6

  /** CHARSET: qpzry9x8gf2tvdw0s3jn54khce6mua7l, in two halves. */
  function Char(v: Symbol): (c: char) { if v < 16 then CharFirst(v) else CharSecond(v) }

  function CharFirst(v: Symbol): (c: char) {
    if v == 0 then 'q' else if v == 1 then 'p' else if v == 2 then 'z' else if v == 3 then 'r'
    else if v == 4 then 'y' else if v == 5 then '9' else if v == 6 then 'x' else if v == 7 then '8'
    else if v == 8 then 'g' else if v == 9 then 'f' else if v == 10 then '2' else if v == 11 then 't'
    else if v == 12 then 'v' else if v == 13 then 'd' else if v == 14 then 'w' else '0'
  }

  function CharSecond(v: Symbol): (c: char) {
    if v == 16 then 's' else if v == 17 then '3' else if v == 18 then 'j' else if v == 19 then 'n'
    else if v == 20 then '5' else if v == 21 then '4' else if v == 22 then 'k' else if v == 23 then 'h'
    else if v == 24 then 'c' else if v == 25 then 'e' else if v == 26 then '6' else if v == 27 then 'm'
    else if v == 28 then 'u' else if v == 29 then 'a' else if v == 30 then '7' else 'l'
  }

  function LowerCase(c: char): (r: char) {
    if 'A' <= c <= 'Z' then (c as int - 'A' as int + 'a' as int) as char else c
  }

  function RevLower(c: char): (v: Option<Symbol>) { if RevFirst(c).Some? then RevFirst(c) else RevSecond(c) }

  function RevFirst(c: char): (v: Option<Symbol>) {
    if c == 'q' then Some(0) else if c == 'p' then Some(1) else if c == 'z' then Some(2)
    else if c == 'r' then Some(3) else if c == 'y' then Some(4) else if c == '9' then Some(5)
    else if c == 'x' then Some(6) else if c == '8' then Some(7) else if c == 'g' then Some(8)
    else if c == 'f' then Some(9) else if c == '2' then Some(10) else if c == 't' then Some(11)
    else if c == 'v' then Some(12) else if c == 'd' then Some(13) else if c == 'w' then Some(14)
    else if c == '0' then Some(15) else None
  }

  function RevSecond(c: char): (v: Option<Symbol>) {
    if c == 's' then Some(16) else if c == '3' then Some(17) else if c == 'j' then Some(18)
    else if c == 'n' then Some(19) else if c == '5' then Some(20) else if c == '4' then Some(21)
    else if c == 'k' then Some(22) else if c == 'h' then Some(23) else if c == 'c' then Some(24)
    else if c == 'e' then Some(25) else if c == '6' then Some(26) else if c == 'm' then Some(27)
    else if c == 'u' then Some(28) else if c == 'a' then Some(29) else if c == '7' then Some(30)
    else if c == 'l' then Some(31) else None
  }

  /** CHARSET_REV: both cases of a letter stand for the same symbol. */
  function Rev(c: char): (v: Option<Symbol>) { RevLower(LowerCase(c)) }

  predicate IsLower(c: char) { 'a' <= c <= 'z' }
  predicate IsUpper(c: char) { 'A' <= c <= 'Z' }
  predicate IsPrintable(c: char) { 33 <= c as int <= 126 }

  lemma CharIsPlain(v: Symbol)
    ensures Char(v) != '1' && !IsUpper(Char(v)) && IsPrintable(Char(v))
  {
  }

  lemma RevOfFirst(v: Symbol)
    requires v < 16
    ensures RevFirst(CharFirst(v)) == Some(v)
  {
  }

  lemma RevOfSecond(v: Symbol)
    requires v >= 16
    ensures RevSecond(CharSecond(v)) == Some(v)
  {
  }

  lemma HalvesDiffer(v: Symbol)
    requires v >= 16
    ensures RevFirst(CharSecond(v)) == None
  {
  }

  lemma RevOfChar(v: Symbol)
    ensures RevLower(Char(v)) == Some(v)
  {
    hide CharFirst, CharSecond, RevFirst, RevSecond;
    if v < 16 {
      RevOfFirst(v);
    } else {
      RevOfSecond(v);
      HalvesDiffer(v);
    }
  }

  lemma CharRev(v: Symbol)
    ensures Rev(Char(v)) == Some(v)
  {
    hide Char, RevLower;
    CharIsPlain(v);
    RevOfChar(v);
  }

  lemma FirstOfRev(c: char)
    ensures RevFirst(c).Some? ==> RevFirst(c).value < 16 && CharFirst(RevFirst(c).value) == c
  {
  }

  lemma SecondOfRev(c: char)
    ensures RevSecond(c).Some? ==> RevSecond(c).value >= 16 && CharSecond(RevSecond(c).value) == c
  {
  }

  lemma CharOfRev(c: char)
    requires RevLower(c).Some?
    ensures Char(RevLower(c).value) == c
  {
    hide CharFirst, CharSecond, RevFirst, RevSecond;
    FirstOfRev(c);
    SecondOfRev(c);
  }

  lemma OneIsNoSymbol()
    ensures RevLower('1') == None
  {
  }

  lemma RevChar(c: char)
    requires Rev(c).Some?
    ensures Char(Rev(c).value) == LowerCase(c) && c != '1'
  {
    hide Char, RevLower;
    CharOfRev(LowerCase(c));
    OneIsNoSymbol();
  }

  // ---------------------------------------------------------------------------
  // Encoding and decoding
  // ---------------------------------------------------------------------------

  function Chars(v: seq<Symbol>): (s: string)
    ensures |s| == |v|
  {
    seq(|v|, i requires 0 <= i < |v| => Char(v[i]))
  }

  function Lower(s: string): (r: string)
    ensures |r| == |s|
  {
    seq(|s|, i requires 0 <= i < |s| => LowerCase(s[i]))
  }

  /** The three high bits of every character, a zero, then the five low bits. */
  function ExpandHRP(hrp: string): (r: seq<Symbol>) {
    seq(|hrp|, i requires 0 <= i < |hrp| => (hrp[i] as int / 32 % 32) as bv5) + [0] +
    seq(|hrp|, i requires 0 <= i < |hrp| => (hrp[i] as int % 32) as bv5)
  }

  function Encode(encoding: Encoding, hrp: string, values: seq<Symbol>): (s: string) {
    hrp + "1" + Chars(values + Checksum(encoding, ExpandHRP(hrp) + values))
  }

  /** All characters printable, and not both cases. */
  predicate CharactersOk(s: string) {
    && (forall i :: 0 <= i < |s| ==> IsPrintable(s[i]))
    && ((forall i :: 0 <= i < |s| ==> !IsLower(s[i])) || (forall i :: 0 <= i < |s| ==> !IsUpper(s[i])))
  }

  /** rfind('1'), with -1 for npos. */
  function LastSeparator(s: string): (p: int)
    ensures -1 <= p < |s| && (p >= 0 ==> s[p] == '1') && (forall i :: p < i < |s| ==> s[i] != '1')
  {
    if s == [] then -1 else if s[|s| - 1] == '1' then |s| - 1 else LastSeparator(s[..|s| - 1])
  }

  predicate AllSymbols(s: string) { forall i :: 0 <= i < |s| ==> Rev(s[i]).Some? }

  function Symbols(s: string): (v: seq<Symbol>)
    requires AllSymbols(s)
    ensures |v| == |s|
  {
    seq(|s|, i requires 0 <= i < |s| => Rev(s[i]).value)
  }

  function VerifyChecksum(hrp: string, values: seq<Symbol>): (e: Option<Encoding>) {
    var check := PolyMod(ExpandHRP(hrp) + values);
    if check == EncodingConstant(BECH32) then Some(BECH32)
    else if check == EncodingConstant(BECH32M) then Some(BECH32M)
    else None
  }

  datatype Decoded = Invalid | Decoded(encoding: Encoding, hrp: string, values: seq<Symbol>)

  function Decode(s: string): (r: Decoded) {
    var pos := LastSeparator(s);
    if !CharactersOk(s) || |s| > MAX_LENGTH || pos <= 0 || pos + 7 > |s| then Invalid
    else
      var data := s[pos + 1..];
      if !AllSymbols(data) then Invalid
      else
        var hrp, values := Lower(s[..pos]), Symbols(data);
        match VerifyChecksum(hrp, values)
        case None => Invalid
        case Some(e) => Decoded(e, hrp, values[..|values| - CHECKSUM_LENGTH])
  }

  // ---------------------------------------------------------------------------
  // Encoding and decoding undo each other
  // ---------------------------------------------------------------------------

  predicate LegalHrp(hrp: string) { forall i :: 0 <= i < |hrp| ==> IsPrintable(hrp[i]) && !IsUpper(hrp[i]) }

  lemma SymbolsOfChars(v: seq<Symbol>)
    ensures AllSymbols(Chars(v)) && Symbols(Chars(v)) == v
  {
    hide Char, Rev;
    forall i | 0 <= i < |v| ensures Rev(Chars(v)[i]) == Some(v[i]) { CharRev(v[i]); }
  }

  lemma CharsOfSymbols(s: string)
    requires AllSymbols(s)
    ensures Chars(Symbols(s)) == Lower(s)
  {
    hide Char, Rev, LowerCase;
    forall i | 0 <= i < |s| ensures Chars(Symbols(s))[i] == Lower(s)[i] { RevChar(s[i]); }
  }

  lemma {:induction false} SeparatorAt(s: string, p: nat)
    requires p < |s| && s[p] == '1' && forall i :: p < i < |s| ==> s[i] != '1'
    ensures LastSeparator(s) == p
    decreases |s|
  {
    if p < |s| - 1 { SeparatorAt(s[..|s| - 1], p); }
  }

  lemma EncodeIsClean(encoding: Encoding, hrp: string, values: seq<Symbol>)
    requires LegalHrp(hrp)
    ensures var s := Encode(encoding, hrp, values);
            && |s| == |hrp| + 7 + |values| && CharactersOk(s) && LastSeparator(s) == |hrp|
            && s[..|hrp|] == hrp && s[|hrp| + 1..] == Chars(values + Checksum(encoding, ExpandHRP(hrp) + values))
  {
    hide Char, Checksum;
    var v := values + Checksum(encoding, ExpandHRP(hrp) + values);
    var s := Encode(encoding, hrp, values);
    forall i | |hrp| < i < |s| ensures s[i] != '1' && !IsUpper(s[i]) && IsPrintable(s[i]) {
      assert s[i] == Char(v[i - |hrp| - 1]);
      CharIsPlain(v[i - |hrp| - 1]);
    }
    SeparatorAt(s, |hrp|);
  }

  lemma LowerOfLegal(hrp: string)
    requires LegalHrp(hrp)
    ensures Lower(hrp) == hrp
  {
  }

  /** Decoding gives back exactly what was encoded, for every legal prefix and every length that is allowed. */
  lemma DecodeEncode(encoding: Encoding, hrp: string, values: seq<Symbol>)
    requires LegalHrp(hrp)
    ensures Decode(Encode(encoding, hrp, values)) ==
            if hrp != [] && |hrp| + 7 + |values| <= MAX_LENGTH then Decoded(encoding, hrp, values) else Invalid
  {
    hide Char, Rev, Checksum, Encode, LastSeparator, PolyMod, ExpandHRP, CharactersOk;
    EncodeIsClean(encoding, hrp, values);
    LowerOfLegal(hrp);
    var c := Checksum(encoding, ExpandHRP(hrp) + values);
    SymbolsOfChars(values + c);
    ChecksumIsUnique(encoding, ExpandHRP(hrp) + values, c);
    assert ExpandHRP(hrp) + values + c == ExpandHRP(hrp) + (values + c);
    assert (values + c)[..|values|] == values;
  }

  /** Encoding what was decoded gives back the string, in lower case. */
  lemma EncodeDecode(s: string)
    requires Decode(s).Decoded?
    ensures var d := Decode(s); Encode(d.encoding, d.hrp, d.values) == Lower(s)
  {
    hide Char, Rev, Checksum, LastSeparator, PolyMod, ExpandHRP, CharactersOk;
    var Decoded(encoding, hrp, values) := Decode(s);
    var pos := LastSeparator(s);
    var data := s[pos + 1..];
    var all := Symbols(data);
    var c := all[|values|..];
    assert all == values + c;
    assert ExpandHRP(hrp) + values + c == ExpandHRP(hrp) + all;
    ChecksumIsUnique(encoding, ExpandHRP(hrp) + values, c);
    CharsOfSymbols(data);
    assert s == s[..pos] + "1" + data;
    LowerConcat(s[..pos], data);
  }

  lemma LowerConcat(a: string, b: string)
    ensures Lower(a + "1" + b) == Lower(a) + "1" + Lower(b)
  {
  }

  /** A valid string damaged in up to six consecutive data characters no longer verifies as that encoding. */
  lemma BurstIsDetected(encoding: Encoding, hrp: string, values: seq<Symbol>, damaged: seq<Symbol>, p: nat)
    requires |damaged| == |values| && damaged != values && p <= |values|
    requires forall i :: 0 <= i < |values| && !(p <= i < p + 6) ==> damaged[i] == values[i]
    requires VerifyChecksum(hrp, values) == Some(encoding)
    ensures VerifyChecksum(hrp, damaged) != Some(encoding)
  {
    hide PolyMod, ExpandHRP;
    var h := ExpandHRP(hrp);
    var x, y := h + values, h + damaged;
    assert x[|h|..] == values && y[|h|..] == damaged;
    forall i | 0 <= i < |x| && !(|h| + p <= i < |h| + p + 6) ensures x[i] == y[i] {
      if i >= |h| { assert x[i] == values[i - |h|] && y[i] == damaged[i - |h|]; }
    }
    BurstChangesChecksum(x, y, |h| + p);
  }

  // ---------------------------------------------------------------------------
  // The loops
  // ---------------------------------------------------------------------------

  method ComputePolyMod(v: seq<Symbol>) returns (c: bv32)
    ensures c == PolyMod(v)
  {
    hide Step;
    c := 1;
    var i := 0;
    assert v[0..] == v;
    while i < |v|
      invariant 0 <= i <= |v| && Fold(c, v[i..]) == PolyMod(v)
    {
      assert v[i..][1..] == v[i + 1..];
      c := PolyModRound(c, v[i]);
      i := i + 1;
    }
  }

  /** The loop body, with its conditional additions. */
  method PolyModRound(before: bv32, v: Symbol) returns (c: bv32)
    ensures c == Step(before, v)
  {
    hide Xor, Pick, Shifted, Wide, Top;
    var c0 := Top(before);
    c := Xor(Shifted(before), Wide(v));
    ghost var b := c;
    c := AddIf(c, c0, 1, 0x3b6a57b2);
    c := AddIf(c, c0, 2, 0x26508e6d);
    c := AddIf(c, c0, 4, 0x1ea119fa);
    c := AddIf(c, c0, 8, 0x3d4233dd);
    c := AddIf(c, c0, 16, 0x2a1462b3);
    XorChain(b, Pick(c0, 1, 0x3b6a57b2), Pick(c0, 2, 0x26508e6d), Pick(c0, 4, 0x1ea119fa),
             Pick(c0, 8, 0x3d4233dd), Pick(c0, 16, 0x2a1462b3));
  }

  method AddIf(c: bv32, c0: bv32, mask: bv32, k: bv32) returns (r: bv32)
    ensures r == Xor(c, Pick(c0, mask, k))
  {
    hide Xor, TestBit;
    XorZeroRight(c);
    r := c;
    if TestBit(c0, mask) { r := Xor(c, k); }
  }

  lemma XorZeroRight(c: bv32)
    ensures Xor(c, 0) == c
  {
    XorUnits(c);
  }

  lemma XorChain(b: bv32, p: bv32, q: bv32, r: bv32, s: bv32, t: bv32)
    ensures Xor(Xor(Xor(Xor(Xor(b, p), q), r), s), t) == Xor(b, Xor(Xor(Xor(Xor(p, q), r), s), t))
  {
    hide Xor;
    XorAssociative(b, p, q);
    XorAssociative(b, Xor(p, q), r);
    XorAssociative(b, Xor(Xor(p, q), r), s);
    XorAssociative(b, Xor(Xor(Xor(p, q), r), s), t);
  }

  predicate IsLetter(c: char) { IsLower(c) || IsUpper(c) }

  /** The first letter decides the case of the string. */
  function FirstLetter(s: string): (n: nat)
    ensures n <= |s| && (forall i :: 0 <= i < n ==> !IsLetter(s[i])) && (n < |s| ==> IsLetter(s[n]))
  {
    if s == [] || IsLetter(s[0]) then 0
    else
      var n := FirstLetter(s[1..]);
      assert forall i :: 1 <= i < 1 + n ==> s[i] == s[1..][i - 1];
      1 + n
  }

  /** A position breaks the rules: not printable, or a letter of the other case than the first. */
  predicate BreaksRules(s: string, i: nat)
    requires i < |s|
  {
    var f := FirstLetter(s);
    !IsPrintable(s[i]) || (IsLetter(s[i]) && IsLower(s[i]) != IsLower(s[f]))
  }

  lemma RulesKept(s: string)
    ensures CharactersOk(s) <==> forall i :: 0 <= i < |s| ==> !BreaksRules(s, i)
  {
    hide FirstLetter;
    var f := FirstLetter(s);
    if forall i :: 0 <= i < |s| ==> !BreaksRules(s, i) {
      forall i | 0 <= i < |s| ensures IsPrintable(s[i]) && (IsLetter(s[i]) ==> IsLower(s[i]) == IsLower(s[f])) {
        assert !BreaksRules(s, i);
      }
      if f < |s| && IsLower(s[f]) {
        assert forall i :: 0 <= i < |s| ==> !IsUpper(s[i]);
      } else {
        assert forall i :: 0 <= i < |s| ==> !IsLower(s[i]);
      }
    }
  }

  /** CheckCharacters: the positions that break the rules, in order; none exactly when the string is fine. */
  method CheckCharacters(s: string) returns (ok: bool, errors: seq<nat>)
    ensures forall k, l :: 0 <= k < l < |errors| ==> errors[k] < errors[l]
    ensures forall i :: i in errors <==> 0 <= i < |s| && BreaksRules(s, i)
    ensures ok <==> CharactersOk(s)
  {
    hide FirstLetter;
    errors := [];
    var lower, upper := false, false;
    ghost var f := FirstLetter(s);
    for i := 0 to |s|
      invariant lower == (f < i && IsLower(s[f])) && upper == (f < i && IsUpper(s[f]))
      invariant forall k :: 0 <= k < |errors| ==> errors[k] < i
      invariant forall k, l :: 0 <= k < l < |errors| ==> errors[k] < errors[l]
      invariant forall k :: k in errors <==> 0 <= k < i && BreaksRules(s, k)
    {
      var c := s[i];
      assert IsLetter(c) ==> f <= i;
      if 'a' <= c <= 'z' {
        if upper { errors := errors + [i]; } else { lower := true; }
      } else if 'A' <= c <= 'Z' {
        if lower { errors := errors + [i]; } else { upper := true; }
      } else if c as int < 33 || c as int > 126 {
        errors := errors + [i];
      }
    }
    RulesKept(s);
    ok := errors == [];
    if !ok { assert errors[0] in errors; }
  }

  method CreateChecksum(encoding: Encoding, hrp: string, values: seq<Symbol>) returns (checksum: seq<Symbol>)
    ensures checksum == Checksum(encoding, ExpandHRP(hrp) + values)
  {
    hide PolyMod, ExpandHRP, Xor, Group;
    var enc := ExpandHRP(hrp) + values;
    enc := enc + SIX_ZEROES;
    var polymod := ComputePolyMod(enc);
    var mod := Xor(polymod, EncodingConstant(encoding));
    checksum := [];
    for i := 0 to 6
      invariant checksum == Unpack(mod)[..i]
    {
      checksum := checksum + [Group(mod, i)];
    }
  }

  method EncodeString(encoding: Encoding, hrp: string, values: seq<Symbol>) returns (s: string)
    requires forall i :: 0 <= i < |hrp| ==> !IsUpper(hrp[i])
    ensures s == Encode(encoding, hrp, values)
  {
    hide Char, ExpandHRP, Checksum;
    var checksum := CreateChecksum(encoding, hrp, values);
    var combined := values + checksum;
    s := hrp + "1";
    for i := 0 to |combined|
      invariant s == hrp + "1" + Chars(combined[..i])
    {
      assert combined[..i + 1] == combined[..i] + [combined[i]];
      s := s + [Char(combined[i])];
    }
    assert combined[..|combined|] == combined;
  }

  method DecodeString(s: string) returns (d: Decoded)
    ensures d == Decode(s)
  {
    hide Rev, ExpandHRP, PolyMod, CharactersOk, LastSeparator, LowerCase;
    var ok, errors := CheckCharacters(s);
    if !ok { return Invalid; }
    var pos := LastSeparator(s);
    if |s| > MAX_LENGTH || pos == -1 || pos == 0 || pos + 7 > |s| { return Invalid; }
    var data := s[pos + 1..];
    var values: seq<Symbol> := [];
    for i := 0 to |data|
      invariant AllSymbols(data[..i]) && values == Symbols(data[..i])
    {
      var rev := Rev(data[i]);
      if rev == None { return Invalid; }
      assert data[..i + 1] == data[..i] + [data[i]];
      values := values + [rev.value];
    }
    assert data[..|data|] == data;
    var hrp := "";
    for i := 0 to pos
      invariant hrp == Lower(s[..i])
    {
      hrp := hrp + [LowerCase(s[i])];
    }
    var check := ComputePolyMod(ExpandHRP(hrp) + values);
    if check == EncodingConstant(BECH32) { return Decoded(BECH32, hrp, values[..|values| - CHECKSUM_LENGTH]); }
    if check == EncodingConstant(BECH32M) { return Decoded(BECH32M, hrp, values[..|values| - CHECKSUM_LENGTH]); }
    d := Invalid;
  }
}
