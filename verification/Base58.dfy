/** Base58 text encoding, with the fixed buffers that the encoder and decoder work in. */
module Base58 {
  import opened Radix
  import opened Wrappers

  type Byte = x: nat | x < 256

  /** The alphabet, in order: 1-9, A-H, J-N, P-Z, a-k, m-z. */
  function Letter(d: nat): (c: char)
    requires d < 58
  {
    var code :=
      if d < 9 then '1' as int + d
      else if d < 17 then 'A' as int + (d - 9)
      else if d < 22 then 'J' as int + (d - 17)
      else if d < 33 then 'P' as int + (d - 22)
      else if d < 44 then 'a' as int + (d - 33)
      else 'm' as int + (d - 44);
    code as char
  }

  /** The decoding table: the place of a letter, -1 for any other character. */
  function Index(c: char): (d: int)
    ensures -1 <= d < 58
  {
    if '1' <= c <= '9' then c as int - '1' as int
    else if 'A' <= c <= 'H' then c as int - 'A' as int + 9
    else if 'J' <= c <= 'N' then c as int - 'J' as int + 17
    else if 'P' <= c <= 'Z' then c as int - 'P' as int + 22
    else if 'a' <= c <= 'k' then c as int - 'a' as int + 33
    else if 'm' <= c <= 'z' then c as int - 'm' as int + 44
    else -1
  }

  lemma LetterIndex(d: nat)
    requires d < 58
    ensures Index(Letter(d)) == d && (Letter(d) == '1' <==> d == 0) && !IsSpace(Letter(d)) && Letter(d) != '\0'
  {
  }

  lemma IndexLetter(c: char)
    requires Index(c) >= 0
    ensures Letter(Index(c)) == c && !IsSpace(c) && c != '\0'
  {
  }

  predicate IsSpace(c: char) {
    c == ' ' || c == '\n' || c == '\r' || c == '\t' || c as int == 11 || c as int == 12
  }

  // ---------------------------------------------------------------------------
  // What encoding and decoding mean
  // ---------------------------------------------------------------------------

  /** How many leading elements satisfy `p`. */
  function Lead<T>(s: seq<T>, p: T -> bool): (n: nat)
    ensures n <= |s| && (forall i :: 0 <= i < n ==> p(s[i])) && (n < |s| ==> !p(s[n]))
  {
    if s == [] || !p(s[0]) then 0 else 1 + Lead(s[1..], p)
  }

  lemma {:induction false} LeadUnique<T>(s: seq<T>, p: T -> bool, n: nat)
    requires n <= |s| && (forall i :: 0 <= i < n ==> p(s[i])) && (n < |s| ==> !p(s[n]))
    ensures Lead(s, p) == n
    decreases n
  {
    if n > 0 { LeadUnique(s[1..], p, n - 1); }
  }

  const IsZero: Byte -> bool := (b: Byte) => b == 0
  const IsOne: char -> bool := (c: char) => c == '1'
  const Space: char -> bool := (c: char) => IsSpace(c)
  const NotSpace: char -> bool := (c: char) => !IsSpace(c)

  function Repeat<T>(x: T, n: nat): (s: seq<T>)
    ensures |s| == n && forall i :: 0 <= i < n ==> s[i] == x
  {
    seq(n, i => x)
  }

  function Letters(ds: seq<nat>): (s: string)
    requires forall i :: 0 <= i < |ds| ==> ds[i] < 58
    ensures |s| == |ds|
  {
    seq(|ds|, i requires 0 <= i < |ds| => Letter(ds[i]))
  }

  predicate IsText(s: string) { forall i :: 0 <= i < |s| ==> Index(s[i]) >= 0 }

  function Indexes(s: string): (ds: seq<nat>)
    requires IsText(s)
    ensures |ds| == |s|
  {
    seq(|s|, i requires 0 <= i < |s| => Index(s[i]) as nat)
  }

  /** Leading zero bytes become '1's; the rest is the same number written in base 58. */
  function Encode(input: seq<Byte>): (s: string) {
    var z := Lead(input, IsZero);
    var n := Value(input[z..], 256);
    DigitsValue(n, 58);
    Repeat('1', z) + Letters(Digits(n, 58))
  }

  /** The bytes of a text of letters, before any limit on their number. */
  function Bytes(core: string): (r: seq<Byte>)
    requires IsText(core)
  {
    var z := Lead(core, IsOne);
    var n := Value(Indexes(core[z..]), 58);
    DigitsValue(n, 256);
    Repeat(0, z) + Digits(n, 256)
  }

  /** Surrounding white space is ignored; a NUL, any other character or too many bytes fail. */
  function Decode(str: string, maxRetLen: int): (r: Option<seq<Byte>>) {
    if '\0' in str then None
    else
      var t := str[Lead(str, Space)..];
      var n := Lead(t, NotSpace);
      var core, tail := t[..n], t[n..];
      if Lead(tail, Space) < |tail| || !IsText(core) then None
      else if core != [] && |Bytes(core)| > maxRetLen then None
      else Some(Bytes(core))
  }

  // ---------------------------------------------------------------------------
  // Encoding and decoding undo each other
  // ---------------------------------------------------------------------------

  lemma LettersIndexes(ds: seq<nat>)
    requires forall i :: 0 <= i < |ds| ==> ds[i] < 58
    ensures IsText(Letters(ds)) && Indexes(Letters(ds)) == ds
  {
    forall i | 0 <= i < |ds| ensures Index(Letters(ds)[i]) == ds[i] { LetterIndex(ds[i]); }
  }

  lemma IndexesLetters(s: string)
    requires IsText(s)
    ensures (forall i :: 0 <= i < |s| ==> Indexes(s)[i] < 58) && Letters(Indexes(s)) == s
  {
    forall i | 0 <= i < |s| ensures Indexes(s)[i] < 58 && Letter(Indexes(s)[i]) == s[i] { IndexLetter(s[i]); }
  }

  /** What Encode produces is a plain Base58 text: no spaces, no NUL, only letters. */
  lemma EncodeIsText(input: seq<Byte>)
    ensures IsText(Encode(input))
  {
    var z := Lead(input, IsZero);
    var n := Value(input[z..], 256);
    DigitsValue(n, 58);
    LettersIndexes(Digits(n, 58));
  }

  lemma BytesOfEncode(input: seq<Byte>)
    ensures IsText(Encode(input)) && Bytes(Encode(input)) == input
  {
    hide Value, Digits, Lead, Index, Letter;
    EncodeIsText(input);
    var z := Lead(input, IsZero);
    var rest: seq<nat> := input[z..];
    var n := Value(rest, 256);
    DigitsValue(n, 58);
    var ds := Digits(n, 58);
    LettersIndexes(ds);
    var core := Encode(input);
    LeadOfEncode(input);
    assert core[z..] == Letters(ds);
    ValueDigits(rest, 256);
    assert input == Repeat(0, z) + input[z..];
  }

  lemma LeadOfEncode(input: seq<Byte>)
    ensures Lead(Encode(input), IsOne) == Lead(input, IsZero)
  {
    var z := Lead(input, IsZero);
    var n := Value(input[z..], 256);
    DigitsValue(n, 58);
    var ds := Digits(n, 58);
    var core := Encode(input);
    if ds != [] {
      LetterIndex(ds[0]);
      assert core[z] == Letter(ds[0]);
    }
    LeadUnique(core, IsOne, z);
  }

  /** A plain Base58 text is its own core. */
  lemma DecodeText(s: string, maxRetLen: int)
    requires IsText(s)
    ensures Decode(s, maxRetLen) == if s != [] && |Bytes(s)| > maxRetLen then None else Some(Bytes(s))
  {
    forall i | 0 <= i < |s| ensures !IsSpace(s[i]) && s[i] != '\0' { IndexLetter(s[i]); }
    LeadUnique(s, Space, 0);
    assert s[0..] == s;
    LeadUnique(s, NotSpace, |s|);
    assert s[..|s|] == s;
  }

  /** Decoding undoes encoding, exactly as far as the limit allows. */
  lemma DecodeEncode(input: seq<Byte>, maxRetLen: int)
    ensures Decode(Encode(input), maxRetLen) ==
            if input != [] && |input| > maxRetLen then None else Some(input)
  {
    BytesOfEncode(input);
    DecodeText(Encode(input), maxRetLen);
    if input == [] {
      assert Encode([]) == [] by { assert Digits(0, 58) == []; }
    }
  }

  /** Encoding undoes decoding on every plain Base58 text that decodes. */
  lemma EncodeDecode(s: string, maxRetLen: int)
    requires IsText(s) && Decode(s, maxRetLen).Some?
    ensures Encode(Decode(s, maxRetLen).value) == s
  {
    DecodeText(s, maxRetLen);
    EncodeOfBytes(s);
  }

  lemma EncodeOfBytes(s: string)
    requires IsText(s)
    ensures Encode(Bytes(s)) == s
  {
    hide Value, Digits, Lead, Index, Letter, Letters;
    var z := Lead(s, IsOne);
    var rest := Indexes(s[z..]);
    var n := Value(rest, 58);
    DigitsValue(n, 256);
    DigitsOfZero(256);
    var ds: seq<Byte> := Digits(n, 256);
    var b := Bytes(s);
    BytesLead(b, z, ds);
    IndexesLetters(s[z..]);
    if rest != [] { IndexLetter(s[z]); LetterIndex(rest[0]); }
    DigitsValue(n, 58);
    ValueDigits(rest, 58);
    assert s == Repeat('1', z) + s[z..];
  }

  lemma BytesLead(b: seq<Byte>, z: nat, ds: seq<Byte>)
    requires b == Repeat(0, z) + ds && (ds != [] ==> ds[0] != 0)
    ensures Lead(b, IsZero) == z && b[z..] == ds
  {
    if ds != [] { assert b[z] == ds[0]; }
    LeadUnique(b, IsZero, z);
  }

  /** A plain Base58 text fails to decode exactly when its bytes are more than the limit. */
  lemma DecodeFailsExactly(s: string, maxRetLen: nat)
    requires IsText(s)
    ensures Decode(s, maxRetLen).None? <==> |Bytes(s)| > maxRetLen
  {
    DecodeText(s, maxRetLen);
    if s == [] { assert Bytes([]) == [] by { assert Digits(0, 256) == []; } }
  }

  // ---------------------------------------------------------------------------
  // The buffers
  // ---------------------------------------------------------------------------

  /** `length` digits are in use, at the end of the buffer, and the first of them is not zero. */
  ghost predicate InUse(s: seq<nat>, length: nat) {
    && length <= |s|
    && (forall i :: 0 <= i < |s| - length ==> s[i] == 0)
    && (length > 0 ==> s[|s| - length] != 0)
  }

  lemma {:induction false} ValueCons(x: nat, t: seq<nat>, base: nat)
    ensures Value([x] + t, base) == x * Pow(base, |t|) + Value(t, base)
    decreases |t|
  {
    if t == [] {
      assert [x] + t == [] + [x];
      ValueSnoc([], x, base);
    } else {
      hide Value;
      var init, d := t[..|t| - 1], t[|t| - 1];
      ValueCons(x, init, base);
      assert [x] + t == ([x] + init) + [d] && t == init + [d];
      ValueSnoc([x] + init, d, base);
      ValueSnoc(init, d, base);
      ConsAlgebra(x, Pow(base, |t| - 1), Value(init, base), base);
    }
  }

  lemma ConsAlgebra(x: nat, p: nat, v: nat, base: nat)
    ensures (x * p + v) * base == x * (base * p) + v * base
  {
    assert (x * p) * base == x * (base * p);
  }

  /** One round of the inner loop, on the number held by the digits already visited. */
  lemma RoundAlgebra(v: nat, w: nat, carry: nat, digit: nat, x: nat, p: nat, base: nat, mult: nat, q: nat, r: nat)
    requires v + carry * p == mult * w + digit && carry + mult * x == base * q + r
    ensures (r * p + v) + q * (base * p) == mult * (x * p + w) + digit
  {
    assert r * p + q * (base * p) == (base * q + r) * p;
    assert (carry + mult * x) * p == carry * p + mult * (x * p);
    assert mult * (x * p + w) == mult * (x * p) + mult * w;
  }

  /** The state of the inner loop after `i` digits. */
  ghost predicate Rounds(was: seq<nat>, now: seq<nat>, base: nat, mult: nat, digit: nat, length: nat, i: nat, carry: nat) {
    && |now| == |was| && i <= |was| && length <= |was|
    && (forall j :: 0 <= j < |was| - i ==> now[j] == was[j])
    && AreDigits(now, base)
    && Value(now[|now| - i..], base) + carry * Pow(base, i) == mult * Value(was[|was| - i..], base) + digit
    && (i > 0 && i >= length ==> carry != 0 || now[|now| - i] != 0)
  }

  lemma RoundsStart(was: seq<nat>, base: nat, mult: nat, digit: nat, length: nat)
    requires AreDigits(was, base) && length <= |was|
    ensures Rounds(was, was, base, mult, digit, length, 0, digit)
  {
    assert was[|was|..] == [];
  }

  /** One digit more: carry + mult * digit is split into quotient `q` and remainder `r`. */
  lemma RoundsStep(was: seq<nat>, now: seq<nat>, base: nat, mult: nat, digit: nat, length: nat, i: nat, carry: nat, q: nat, r: nat)
    requires base >= 2 && mult >= 1 && Rounds(was, now, base, mult, digit, length, i, carry) && InUse(was, length)
    requires i < |was| && (carry != 0 || i < length)
    requires carry + mult * now[|was| - 1 - i] == base * q + r && r < base
    ensures Rounds(was, now[|was| - 1 - i := r], base, mult, digit, length, i + 1, q)
  {
    hide Value, Pow;
    var k := |was| - 1 - i;
    var x := was[k];
    var next := now[k := r];
    var v, w, p := Value(now[k + 1..], base), Value(was[k + 1..], base), Pow(base, i);
    RoundAlgebra(v, w, carry, digit, x, p, base, mult, q, r);
    assert next[k..] == [r] + now[k + 1..];
    assert was[k..] == [x] + was[k + 1..];
    ValueCons(r, now[k + 1..], base);
    ValueCons(x, was[k + 1..], base);
    PowNext(base, i);
    if i + 1 >= length { NonZeroSplit(carry, mult, x, base, q, r, i < length); }
  }

  lemma PowNext(base: nat, i: nat)
    ensures Pow(base, i + 1) == base * Pow(base, i)
  {
  }

  /** A sum that is not zero leaves a quotient or a remainder. */
  lemma NonZeroSplit(carry: nat, mult: nat, x: nat, base: nat, q: nat, r: nat, used: bool)
    requires carry + mult * x == base * q + r && mult >= 1 && (carry != 0 || (used && x != 0))
    ensures q != 0 || r != 0
  {
    NonNegative(mult, x);
  }

  /** The buffer is large enough, so nothing is left over when the loop ends. */
  lemma RoundsEnd(was: seq<nat>, now: seq<nat>, base: nat, mult: nat, digit: nat, length: nat, i: nat, carry: nat)
    requires base >= 2 && Rounds(was, now, base, mult, digit, length, i, carry) && InUse(was, length)
    requires (carry == 0 && i >= length) || i == |was|
    requires mult * Value(was, base) + digit < Pow(base, |was|)
    ensures carry == 0 && Value(now, base) == mult * Value(was, base) + digit
    ensures InUse(now, i) && i >= length
  {
    hide Value, Pow, AreDigits;
    if i == |was| {
      assert now[0..] == now && was[0..] == was;
      NothingCarried(Value(now, base), carry, Pow(base, i), mult * Value(was, base) + digit);
    } else {
      ValueTail(now, base, |now| - i);
      ValueTail(was, base, |was| - i);
    }
  }

  lemma NothingCarried(v: nat, carry: nat, p: nat, total: int)
    requires v + carry * p == total < p
    ensures carry == 0
  {
    if carry > 0 { Scale(1, carry, p); }
  }

  /** The inner loop of both directions: a := a * mult + digit in place, from the last digit up. */
  method MulAdd(a: array<nat>, base: nat, mult: nat, digit: nat, length: nat) returns (used: nat)
    requires base >= 2 && mult >= 1 && AreDigits(a[..], base) && InUse(a[..], length)
    requires mult * Value(a[..], base) + digit < Pow(base, a.Length)
    modifies a
    ensures AreDigits(a[..], base) && InUse(a[..], used) && used >= length
    ensures Value(a[..], base) == mult * old(Value(a[..], base)) + digit
  {
    hide Value, Pow, Rounds;
    ghost var was := a[..];
    var carry := digit;
    var i := 0;
    RoundsStart(was, base, mult, digit, length);
    while (carry != 0 || i < length) && i < a.Length
      invariant 0 <= i <= a.Length && carry >= 0
      invariant Rounds(was, a[..], base, mult, digit, length, i, carry)
      decreases a.Length - i
    {
      var k := a.Length - 1 - i;
      NonNegative(mult, a[k]);
      ghost var before := carry;
      ghost var had: seq<nat> := a[..];
      carry := carry + mult * a[k];
      NonZeroQuotient(carry, base);
      RoundsStep(was, had, base, mult, digit, length, i, before, carry / base, carry % base);
      var rem: nat := carry % base;
      a[k] := rem;
      assert a[..] == had[k := rem];
      carry := carry / base;
      i := i + 1;
    }
    RoundsEnd(was, a[..], base, mult, digit, length, i, carry);
    assert carry == 0;
    used := i;
    RoundsDigits(was, a[..], base, mult, digit, length, i, carry);
  }

  lemma NonZeroQuotient(c: nat, base: nat)
    requires base >= 2
    ensures c / base >= 0 && 0 <= c % base < base && c == base * (c / base) + c % base
  {
    if c > 0 { Quotient(c, base); }
  }

  lemma RoundsDigits(was: seq<nat>, now: seq<nat>, base: nat, mult: nat, digit: nat, length: nat, i: nat, carry: nat)
    requires Rounds(was, now, base, mult, digit, length, i, carry)
    ensures AreDigits(now, base)
  {
  }

  /** Enough room: n bytes fit in n*138/100+1 digits of base 58, and n letters in n*733/1000+1 bytes. */
  lemma RoomEncode(n: nat)
    ensures Pow(256, n) <= Pow(58, n * 138 / 100 + 1)
  {
    hide Pow;
    PowerTables();
    EnoughDigits(256, 58, 8, 11, n, n * 138 / 100 + 1);
  }

  lemma RoomDecode(n: nat)
    ensures Pow(58, n) <= Pow(256, n * 733 / 1000 + 1)
  {
    hide Pow;
    PowerTables();
    EnoughDigits(58, 256, 71, 52, n, n * 733 / 1000 + 1);
  }

  /** The digits in use are the shortest digits of the value. */
  lemma InUseDigits(s: seq<nat>, base: nat, length: nat)
    requires base >= 2 && AreDigits(s, base) && InUse(s, length)
    ensures s[|s| - length..] == Digits(Value(s, base), base)
  {
    hide Value, Digits;
    ValueTail(s, base, |s| - length);
    ValueDigits(s[|s| - length..], base);
  }

  /** Appending one digit of the input to the number in the buffer still fits. */
  lemma StillFits(prefix: seq<nat>, d: nat, from: nat, total: nat, to: nat, size: nat)
    requires from >= 1 && AreDigits(prefix, from) && d < from && |prefix| < total
    requires Pow(from, total) <= Pow(to, size)
    ensures from * Value(prefix, from) + d == Value(prefix + [d], from) < Pow(to, size)
  {
    ValueSnoc(prefix, d, from);
    ValueBound(prefix + [d], from);
    hide Value, Pow;
    PowMonotone(from, |prefix| + 1, total);
    assert from * Value(prefix, from) == Value(prefix, from) * from;
  }

  /** The main loop of the encoder: `rest` as a number, in a buffer of base 58 digits. */
  method ToBase58(rest: seq<Byte>) returns (b58: array<nat>, length: nat)
    ensures fresh(b58) && AreDigits(b58[..], 58) && InUse(b58[..], length)
    ensures b58[b58.Length - length..] == Digits(Value(rest, 256), 58)
  {
    hide Value, Pow, Digits;
    var size := |rest| * 138 / 100 + 1;
    b58 := new nat[size](i => 0);
    length := 0;
    RoomEncode(|rest|);
    BufferStarts(b58[..], 58);
    assert rest[..0] == [];
    for n := 0 to |rest|
      invariant b58.Length == size && fresh(b58) && AreDigits(b58[..], 58) && InUse(b58[..], length)
      invariant Value(b58[..], 58) == Value(rest[..n], 256)
    {
      StillFits(rest[..n], rest[n], 256, |rest|, 58, size);
      assert rest[..n + 1] == rest[..n] + [rest[n]];
      length := MulAdd(b58, 58, 256, rest[n], length);
    }
    assert rest[..|rest|] == rest;
    InUseDigits(b58[..], 58, length);
    assert b58[..][size - length..] == b58[size - length..];
  }

  method SkipZeroes(a: array<nat>, from: nat) returns (it: nat)
    requires from <= a.Length
    ensures from <= it <= a.Length && (forall j :: from <= j < it ==> a[j] == 0) && (it < a.Length ==> a[it] != 0)
  {
    it := from;
    while it != a.Length && a[it] == 0
      invariant from <= it <= a.Length && forall j :: from <= j < it ==> a[j] == 0
    {
      it := it + 1;
    }
  }

  method EncodeBase58(input: seq<Byte>) returns (str: string)
    ensures str == Encode(input)
  {
    hide Value, Pow, Digits, Lead, Encode;
    var zeroes := 0;
    while zeroes < |input| && input[zeroes] == 0
      invariant zeroes <= |input| && forall i :: 0 <= i < zeroes ==> input[i] == 0
    {
      zeroes := zeroes + 1;
    }
    LeadUnique(input, IsZero, zeroes);
    var b58, length := ToBase58(input[zeroes..]);
    var start := b58.Length - length;
    ghost var ds := b58[start..];
    EncodeParts(input, zeroes, ds);
    var first := SkipZeroes(b58, start);
    assert first == start;
    str := Repeat('1', zeroes);
    for it := first to b58.Length
      invariant str == Repeat('1', zeroes) + Letters(ds[..it - start])
    {
      assert ds[..it + 1 - start] == ds[..it - start] + [b58[it]];
      str := str + [Letter(b58[it])];
    }
    assert ds[..length] == ds;
  }

  lemma BufferStarts(s: seq<nat>, base: nat)
    requires base >= 1 && forall i :: 0 <= i < |s| ==> s[i] == 0
    ensures AreDigits(s, base) && InUse(s, 0) && Value(s, base) == 0 && forall from: nat :: Value([], from) == 0
  {
    ValueZeros(s, base);
  }

  lemma EncodeParts(input: seq<Byte>, z: nat, ds: seq<nat>)
    requires z == Lead(input, IsZero) && ds == Digits(Value(input[z..], 256), 58)
    ensures AreDigits(ds, 58) && Encode(input) == Repeat('1', z) + Letters(ds)
  {
    DigitsValue(Value(input[z..], 256), 58);
  }

  lemma {:induction false} DigitsLonger(m: nat, n: nat, base: nat)
    requires base >= 2 && m <= n
    ensures |Digits(m, base)| <= |Digits(n, base)|
    decreases m
  {
    if m > 0 {
      Quotient(m, base);
      Quotient(n, base);
      if m / base > n / base { Scale(n / base + 1, m / base, base); }
      DigitsLonger(m / base, n / base, base);
    }
  }

  lemma {:induction false} ValueGrows(s: seq<nat>, base: nat, k: nat)
    requires base >= 1 && k <= |s|
    ensures Value(s[..k], base) <= Value(s, base)
    decreases |s|
  {
    if k < |s| {
      assert s[..|s| - 1][..k] == s[..k];
      ValueGrows(s[..|s| - 1], base, k);
      Scale(1, base, Value(s[..|s| - 1], base));
    } else {
      assert s[..k] == s;
    }
  }

  /** Reading more letters never needs fewer bytes. */
  function Number(s: string): (n: nat)
    requires IsText(s)
  {
    Value(Indexes(s), 58)
  }

  lemma LongerText(s: string, k: nat)
    requires IsText(s) && k <= |s|
    ensures IsText(s[..k]) && |Digits(Number(s[..k]), 256)| <= |Digits(Number(s), 256)|
  {
    hide Value, Digits, Index;
    assert Indexes(s[..k]) == Indexes(s)[..k];
    ValueGrows(Indexes(s), 58, k);
    DigitsLonger(Number(s[..k]), Number(s), 256);
  }

  lemma NumberSnoc(s: string, c: char)
    requires IsText(s) && Index(c) >= 0
    ensures IsText(s + [c]) && Indexes(s + [c]) == Indexes(s) + [Index(c)]
  {
    assert Indexes(s + [c]) == Indexes(s) + [Index(c)];
  }

  /** The main loop of the decoder, from the first letter that is not a '1' to the next space. */
  method FromBase58(text: string, zeroes: nat, maxRetLen: int) returns (ok: bool, b256: array<nat>, length: nat, consumed: nat)
    ensures var core := text[..Lead(text, NotSpace)];
            if ok then
              && IsText(core) && consumed == |core| && length <= b256.Length && AreDigits(b256[..], 256)
              && (core == [] ==> length == 0)
              && b256[b256.Length - length..] == Digits(Number(core), 256)
              && (core != [] ==> length + zeroes <= maxRetLen)
            else
              IsText(core) ==> core != [] && |Digits(Number(core), 256)| + zeroes > maxRetLen
  {
    hide Value, Pow, Digits, Lead, Indexes, Index, IsText, Number, InUse, AreDigits;
    var size := |text| * 733 / 1000 + 1;
    b256 := new nat[size](i => 0);
    ghost var core := text[..Lead(text, NotSpace)];
    length, consumed, ok := 0, 0, false;
    RoomDecode(|text|);
    BufferStarts(b256[..], 256);
    assert core[..0] == [];
    NumberOfNone();
    while consumed < |text| && !IsSpace(text[consumed])
      invariant consumed <= |core| && IsText(core[..consumed]) && !ok
      invariant b256.Length == size && AreDigits(b256[..], 256) && InUse(b256[..], length)
      invariant Value(b256[..], 256) == Number(core[..consumed])
      invariant consumed > 0 ==> length + zeroes <= maxRetLen
      invariant consumed == 0 ==> length == 0
    {
      var carry := Index(text[consumed]);
      assert core[consumed] == text[consumed];
      if carry == -1 { NotText(core, consumed); return; }
      ghost var done := core[..consumed];
      assert core[..consumed + 1] == done + [text[consumed]];
      LetterFits(done, text[consumed], |text|, size);
      length := MulAdd(b256, 256, 58, carry, length);
      if length + zeroes > maxRetLen {
        InUseDigits(b256[..], 256, length);
        InUseFits(b256[..], length);
        if IsText(core) { LongerText(core, consumed + 1); }
        return;
      }
      consumed := consumed + 1;
    }
    assert core[..consumed] == core;
    InUseDigits(b256[..], 256, length);
    InUseFits(b256[..], length);
    assert b256[..][size - length..] == b256[size - length..];
    ok := true;
  }

  lemma NumberOfNone()
    ensures IsText([]) && Number([]) == 0
  {
    assert Indexes([]) == [];
  }

  lemma NotText(s: string, k: nat)
    requires k < |s| && Index(s[k]) == -1
    ensures !IsText(s)
  {
  }

  lemma InUseFits(s: seq<nat>, length: nat)
    requires InUse(s, length)
    ensures length <= |s|
  {
  }

  /** One letter more still fits in the buffer. */
  lemma LetterFits(done: string, c: char, total: nat, size: nat)
    requires IsText(done) && Index(c) >= 0 && |done| < total && Pow(58, total) <= Pow(256, size)
    ensures IsText(done + [c]) && 58 * Number(done) + Index(c) == Number(done + [c]) < Pow(256, size)
  {
    hide Value, Pow, Index;
    NumberSnoc(done, c);
    IndexesBelow(done);
    StillFits(Indexes(done), Index(c), 58, total, 256, size);
  }

  lemma IndexesBelow(s: string)
    requires IsText(s)
    ensures AreDigits(Indexes(s), 58)
  {
  }

  /** Leading ones are not spaces. */
  lemma {:induction false} CoreLength(t: string, z: nat)
    requires z <= |t| && forall i :: 0 <= i < z ==> t[i] == '1'
    ensures Lead(t, NotSpace) == z + Lead(t[z..], NotSpace)
  {
    hide Lead;
    var n := Lead(t[z..], NotSpace);
    forall i | 0 <= i < z + n ensures NotSpace(t[i]) { if i >= z { assert t[i] == t[z..][i - z]; } }
    if z + n < |t| { assert t[z + n] == t[z..][n]; }
    LeadUnique(t, NotSpace, z + n);
  }

  lemma OnesThen(t: string, z: nat, n: nat)
    requires z + n <= |t| && forall i :: 0 <= i < z ==> t[i] == '1'
    ensures t[..z + n] == Repeat('1', z) + t[z..][..n] && t[z + n..] == t[z..][n..]
  {
  }

  /** The first letters are the leading ones of the whole text, so the rest is decoded on its own. */
  lemma CoreParts(t: string, z: nat)
    requires z <= |t| && (forall i :: 0 <= i < z ==> t[i] == '1') && (z < |t| ==> t[z] != '1')
    ensures var core, rest := t[..Lead(t, NotSpace)], t[z..];
            var core' := rest[..Lead(rest, NotSpace)];
            && core == Repeat('1', z) + core'
            && (IsText(core) <==> IsText(core'))
            && (IsText(core) ==> Bytes(core) == Repeat(0, z) + Digits(Number(core'), 256))
            && t[Lead(t, NotSpace)..] == rest[Lead(rest, NotSpace)..]
  {
    hide Value, Digits, Index, Lead, IsText, Bytes, Number, Repeat;
    var n := Lead(t[z..], NotSpace);
    CoreLength(t, z);
    OnesThen(t, z, n);
    var core, core' := t[..z + n], t[z..][..n];
    TextParts(z, core');
    if IsText(core) {
      assert core' != [] ==> core'[0] == t[z];
      BytesParts(core, z, core');
    }
  }

  lemma BytesParts(core: string, z: nat, rest: string)
    requires core == Repeat('1', z) + rest && (rest != [] ==> rest[0] != '1') && IsText(core) && IsText(rest)
    ensures Bytes(core) == Repeat(0, z) + Digits(Number(rest), 256)
  {
    hide Value, Digits, Index, Lead;
    assert core[z..] == rest;
    if rest != [] { assert core[z] == rest[0]; }
    LeadUnique(core, IsOne, z);
  }

  lemma TextParts(z: nat, s: string)
    ensures IsText(Repeat('1', z) + s) <==> IsText(s)
  {
    var t := Repeat('1', z) + s;
    if IsText(t) { forall i | 0 <= i < |s| ensures Index(s[i]) >= 0 { assert t[z + i] == s[i]; } }
  }

  method DecodeBase58(str: string, maxRetLen: int) returns (ok: bool, vch: seq<Byte>)
    ensures Decode(str, maxRetLen) == if ok then Some(vch) else None
  {
    hide Value, Digits, Lead, Number, IsText, Bytes, Index, Repeat, AreDigits;
    ok, vch := false, [];
    if '\0' in str { return; }
    var psz := 0;
    while psz < |str| && IsSpace(str[psz])
      invariant psz <= |str| && forall i :: 0 <= i < psz ==> IsSpace(str[i])
    {
      psz := psz + 1;
    }
    LeadUnique(str, Space, psz);
    ok, vch := DecodeTrimmed(str[psz..], maxRetLen);
  }

  /** The rest of the decoder, after the leading spaces. */
  method DecodeTrimmed(t: string, maxRetLen: int) returns (ok: bool, vch: seq<Byte>)
    ensures var n := Lead(t, NotSpace);
            var core, tail := t[..n], t[n..];
            ok <==> Lead(tail, Space) == |tail| && IsText(core) && (core != [] ==> |Bytes(core)| <= maxRetLen)
    ensures ok ==> vch == Bytes(t[..Lead(t, NotSpace)])
  {
    hide Value, Digits, Lead, Number, IsText, Bytes, Index, Repeat, AreDigits;
    ok, vch := false, [];
    var zeroes := 0;
    while zeroes < |t| && t[zeroes] == '1'
      invariant zeroes <= |t| && forall i :: 0 <= i < zeroes ==> t[i] == '1'
      invariant zeroes > 0 ==> zeroes <= maxRetLen
    {
      zeroes := zeroes + 1;
      if zeroes > maxRetLen { ManyOnes(t, zeroes); return; }
    }
    CoreParts(t, zeroes);
    var rest := t[zeroes..];
    var done, b256, length, consumed := FromBase58(rest, zeroes, maxRetLen);
    if !done { return; }
    var p := consumed;
    while p < |rest| && IsSpace(rest[p])
      invariant consumed <= p <= |rest| && forall i :: consumed <= i < p ==> IsSpace(rest[i])
    {
      p := p + 1;
    }
    LeadUnique(rest[consumed..], Space, p - consumed);
    if p < |rest| { return; }
    ok := true;
    vch := Collect(b256, length, zeroes);
  }

  /** The zero bytes, then the digits in use. */
  method Collect(b256: array<nat>, length: nat, zeroes: nat) returns (vch: seq<Byte>)
    requires length <= b256.Length && AreDigits(b256[..], 256)
    ensures vch == Repeat(0, zeroes) + b256[b256.Length - length..]
  {
    var it := b256.Length - length;
    ghost var body := b256[it..];
    vch := Repeat(0, zeroes);
    for i := 0 to length
      invariant vch == Repeat(0, zeroes) + body[..i]
    {
      assert b256[..][it + i] == b256[it + i];
      vch := vch + [b256[it + i]];
    }
    assert body[..length] == body;
  }

  /** A text with more ones than the limit has too many bytes already. */
  lemma ManyOnes(t: string, z: nat)
    requires z <= |t| && forall i :: 0 <= i < z ==> t[i] == '1'
    ensures var core := t[..Lead(t, NotSpace)];
            IsText(core) ==> core != [] || z == 0
    ensures var core := t[..Lead(t, NotSpace)];
            IsText(core) ==> |Bytes(core)| >= z
  {
    var k := z + Lead(t[z..], IsOne);
    forall i | 0 <= i < k ensures t[i] == '1' { if i >= z { assert t[i] == t[z..][i - z]; } }
    CoreParts(t, k);
  }
}
