/** The compact target encoding and the trust of a block, through the limb arithmetic. */
module BlockTrust {
  import opened BitOps
  import opened ArithUint256

  const COMPACT_LIMIT: nat := 0x1_0000_0000
  const BLOCK_PROOF_OF_STAKE: nat := 1

  // ---------------------------------------------------------------------------
  // What a compact number denotes
  // ---------------------------------------------------------------------------

  function Exponent(nCompact: nat): (e: nat) { nCompact / 0x100_0000 }

  function Mantissa(nCompact: nat): (m: nat) { nCompact % 0x80_0000 }

  predicate SignBit(nCompact: nat) { nCompact / 0x80_0000 % 2 == 1 }

  /** mantissa * 256^(exponent - 3), cut down to a whole number. */
  function Magnitude(nCompact: nat): (v: nat) {
    var e, m := Exponent(nCompact), Mantissa(nCompact);
    if e <= 3 then Shr(m, 8 * (3 - e)) else MulNonNegative(m, Pow2(8 * (e - 3))); m * Pow2(8 * (e - 3))
  }

  function Denoted(nCompact: nat): (v: int) {
    var v: int := Magnitude(nCompact);
    if SignBit(nCompact) then -v else v
  }

  /** The source's overflow condition, on the mantissa after the shift for small exponents. */
  predicate OverflowFlag(nWord: nat, nSize: nat) {
    nWord != 0 && (nSize > 34 || (nWord > 0xff && nSize > 33) || (nWord > 0xffff && nSize > 32))
  }

  /** The mantissa that SetCompact works with: already shifted when the exponent is small. */
  function Word(nCompact: nat): (w: nat) {
    if Exponent(nCompact) <= 3 then Shr(Mantissa(nCompact), 8 * (3 - Exponent(nCompact))) else Mantissa(nCompact)
  }

  lemma Modulus()
    ensures MODULUS == Pow2(256)
  {
  }

  lemma ProductAgainst(m: nat, p: nat, q: nat)
    requires 0 < p && 0 < q
    ensures m >= q <==> m * p >= q * p
  {
    if m >= q { MulMonotone(q, m, p); } else { MulMonotone(m + 1, q, p); }
  }

  lemma Pow2Words()
    ensures Pow2(8) == 0x100 && Pow2(16) == 0x1_0000 && Pow2(23) == 0x80_0000 && Pow2(24) == 0x100_0000
  {
    assert Pow2(8) == 256;
    assert Pow2(7) == 128;
    hide Pow2;
    Pow2Add(8, 8);
    Pow2Add(16, 8);
    Pow2Add(16, 7);
  }

  /** The overflow flag is exact: it is set just when the magnitude does not fit in 256 bits. */
  lemma OverflowIsExact(nCompact: nat)
    ensures OverflowFlag(Word(nCompact), Exponent(nCompact)) <==> Magnitude(nCompact) >= MODULUS
  {
    hide Pow2, Shr, Weight;
    var e, m := Exponent(nCompact), Mantissa(nCompact);
    Modulus();
    Pow2Words();
    if e <= 3 {
      ShrAtMost(m, 8 * (3 - e));
      Pow2Monotone(24, 256);
    } else if e <= 32 {
      Pow2Add(24, 8 * (e - 3));
      Pow2Monotone(24 + 8 * (e - 3), 256);
      ProductAgainst(m, Pow2(8 * (e - 3)), Pow2(24));
    } else if e <= 34 {
      var q := 256 - 8 * (e - 3);
      assert e == 33 ==> q == 16;
      assert e == 34 ==> q == 8;
      Pow2Add(q, 8 * (e - 3));
      ProductAgainst(m, Pow2(8 * (e - 3)), Pow2(q));
    } else {
      Pow2Monotone(256, 8 * (e - 3));
      if m > 0 { MulMonotone(1, m, Pow2(8 * (e - 3))); }
    }
  }

  lemma ShrAtMost(x: nat, n: nat)
    ensures Shr(x, n) <= x
  {
    hide Pow2;
    DivNonNegative(x, Pow2(n));
  }

  /** The sign flag is exact: it is set just when the denoted number is negative. */
  lemma NegativeIsExact(nCompact: nat)
    ensures (Word(nCompact) != 0 && SignBit(nCompact)) <==> Denoted(nCompact) < 0
  {
    hide Pow2, Shr;
    var e, m := Exponent(nCompact), Mantissa(nCompact);
    if e > 3 && m > 0 { MulMonotone(1, m, Pow2(8 * (e - 3))); }
  }

  /** SetCompact, on an existing number. */
  method SetCompact(bn: BaseUint, nCompact: nat) returns (negative: bool, overflow: bool)
    requires bn.Valid() && nCompact < COMPACT_LIMIT
    modifies bn.pn
    ensures bn.Value() == Magnitude(nCompact) % MODULUS
    ensures negative <==> Denoted(nCompact) < 0
    ensures overflow <==> Magnitude(nCompact) >= MODULUS
  {
    hide Pow2, Shr, Weight, Low;
    var nSize := nCompact / 0x100_0000;
    var nWord := nCompact % 0x80_0000;
    if nSize <= 3 {
      ShrAtMost(nWord, 8 * (3 - nSize));
      nWord := Shr(nWord, 8 * (3 - nSize));
      bn.Assign(nWord);
      NumBound(bn.Limbs());
      SmallMod(nWord);
    } else {
      bn.Assign(nWord);
      bn.ShiftLeft(8 * (nSize - 3));
    }
    NegativeIsExact(nCompact);
    OverflowIsExact(nCompact);
    negative := nWord != 0 && nCompact / 0x80_0000 % 2 == 1;
    overflow := nWord != 0 && (nSize > 34 || (nWord > 0xff && nSize > 33) || (nWord > 0xffff && nSize > 32));
  }

  // ---------------------------------------------------------------------------
  // Encoding
  // ---------------------------------------------------------------------------

  /** The number of binary digits. */
  function BitLength(v: nat): (n: nat) { if v == 0 then 0 else 1 + BitLength(v / 2) }

  lemma {:induction false} BitLengthBounds(v: nat)
    ensures v < Pow2(BitLength(v)) && (v > 0 ==> Pow2(BitLength(v) - 1) <= v)
    decreases v
  {
    if v > 0 { BitLengthBounds(v / 2); }
  }

  lemma BitLengthUnique(v: nat, n: nat)
    requires v < Pow2(n) && (n > 0 ==> Pow2(n - 1) <= v)
    ensures n == BitLength(v)
  {
    hide Pow2;
    BitLengthBounds(v);
    Pow2Small();
    var l := BitLength(v);
    if n < l { Pow2Monotone(n, l - 1); }
    if l < n { Pow2Monotone(l, n - 1); }
  }

  function Bytes(v: nat): (n: nat) { (BitLength(v) + 7) / 8 }

  /** The top three bytes of `v`, padded when there are fewer. */
  function TopBytes(v: nat): (c: nat) {
    var n := Bytes(v);
    if n <= 3 then MulNonNegative(v, Pow2(8 * (3 - n))); v * Pow2(8 * (3 - n)) else Shr(v, 8 * (n - 3))
  }

  /** GetCompact: one byte less when the top bit of the mantissa would read as a sign. */
  function Compact(v: nat, negative: bool): (r: nat) {
    var c, n := TopBytes(v), Bytes(v);
    var (c', n') := if c >= 0x80_0000 then (c / 0x100, n + 1) else (c, n);
    c' + n' * 0x100_0000 + if negative && c' != 0 then 0x80_0000 else 0
  }

  lemma BitLengthOfZero()
    ensures BitLength(0) == 0
  {
  }

  lemma BytesBounds(v: nat)
    ensures v < Pow2(8 * Bytes(v)) && (v > 0 ==> Bytes(v) > 0 && Pow2(8 * (Bytes(v) - 1)) <= v)
    ensures v == 0 ==> Bytes(v) == 0
  {
    hide Pow2, BitLength;
    BitLengthBounds(v);
    var l, n := BitLength(v), Bytes(v);
    BitLengthOfZero();
    Pow2Monotone(l, 8 * n);
    if v > 0 {
      if l == 0 { Pow2Small(); }
      Pow2Monotone(8 * (n - 1), l - 1);
    }
  }

  lemma ShrBelow(v: nat, n: nat, m: nat)
    requires v < Pow2(m) * Pow2(n)
    ensures Shr(v, n) < Pow2(m)
  {
    hide Pow2;
    var x, p, q := Shr(v, n), Pow2(n), Pow2(m);
    ShrTimes(v, n);
    ProductAgainst(x, p, q);
  }

  lemma ShrTimes(v: nat, n: nat)
    ensures Shr(v, n) * Pow2(n) <= v
  {
    hide Pow2;
    var p := Pow2(n);
    assert v == p * (v / p) + v % p;
  }

  /** The mantissa always fits in 24 bits before the sign bit is cleared. */
  lemma TopBytesFit(v: nat)
    ensures TopBytes(v) < 0x100_0000
  {
    hide Pow2, Bytes;
    BytesBounds(v);
    Pow2Words();
    var n := Bytes(v);
    if n <= 3 {
      Pow2Add(8 * n, 8 * (3 - n));
      ProductAgainst(v, Pow2(8 * (3 - n)), Pow2(8 * n));
    } else {
      Pow2Add(24, 8 * (n - 3));
      ShrBelow(v, 8 * (n - 3), 24);
    }
  }

  /** The exponent and mantissa that Compact stores, unpacked. */
  lemma CompactFields(v: nat, negative: bool)
    ensures var r, c, n := Compact(v, negative), TopBytes(v), Bytes(v);
            && Mantissa(r) == (if c >= 0x80_0000 then c / 0x100 else c)
            && Exponent(r) == (if c >= 0x80_0000 then n + 1 else n)
            && (SignBit(r) <==> negative && Mantissa(r) != 0)
  {
    hide TopBytes, Bytes, Pow2, BitLength;
    TopBytesFit(v);
    var c, n := TopBytes(v), Bytes(v);
    var (c', n') := if c >= 0x80_0000 then (c / 0x100, n + 1) else (c, n);
    FieldsOf(c', n', negative && c' != 0);
  }

  lemma FieldsOf(c: nat, n: nat, sign: bool)
    requires c < 0x80_0000
    ensures var r := c + n * 0x100_0000 + if sign then 0x80_0000 else 0;
            Mantissa(r) == c && Exponent(r) == n && (SignBit(r) <==> sign)
  {
  }

  /** Two shifts in a row. */
  lemma ShrTwice(v: nat, a: nat, b: nat)
    ensures Shr(Shr(v, a), b) == Shr(v, a + b)
  {
    hide Pow2;
    Pow2Add(a, b);
    var p, q := Pow2(a), Pow2(b);
    var x, r := v / p, v % p;
    var y, s := x / q, x % q;
    TwiceAlgebra(v, p, q, x, r, y, s);
    DivModUnique(v, p * q, y, p * s + r);
  }

  lemma TwiceAlgebra(v: nat, p: nat, q: nat, x: int, r: int, y: int, s: int)
    requires 0 < p && 0 < q && v == p * x + r && 0 <= r < p && x == q * y + s && 0 <= s < q
    ensures v == (p * q) * y + (p * s + r) && 0 <= p * s + r < p * q
  {
    assert p * (q * y + s) == (p * q) * y + p * s;
    MulMonotone(s + 1, q, p);
    MulMonotone(0, s, p);
  }

  /** With more than three bytes, the mantissa is the number shifted down by the exponent. */
  lemma MantissaIsTop(v: nat, negative: bool)
    ensures var r := Compact(v, negative);
            Exponent(r) > 3 ==> Mantissa(r) == Shr(v, 8 * (Exponent(r) - 3))
    ensures var r := Compact(v, negative);
            Exponent(r) <= 3 ==> Mantissa(r) == v * Pow2(8 * (3 - Exponent(r)))
  {
    hide Pow2, Shr, Bytes;
    CompactFields(v, negative);
    var c, n := TopBytes(v), Bytes(v);
    if c >= 0x80_0000 {
      Pow2Words();
      if n > 3 {
        ShrTwice(v, 8 * (n - 3), 8);
        ShrByte(c);
      } else if n == 3 {
        Pow2Small();
        ShrByte(v);
      } else {
        Pow2Add(8 * (3 - n) - 8, 8);
        ByteOff(v, Pow2(8 * (3 - n) - 8));
      }
    }
  }

  lemma ShrByte(c: nat)
    ensures Shr(c, 8) == c / 0x100
  {
    Pow2Words();
  }

  lemma ByteOff(v: nat, p: nat)
    ensures (v * (p * 0x100)) / 0x100 == v * p
  {
    assert v * (p * 0x100) == 0x100 * (v * p);
    DivModUnique(v * (p * 0x100), 0x100, v * p, 0);
  }

  /**
   GetCompact rounds down to the precision of the encoding: what it denotes is at most `v`,
   and less than one unit of its last place below it; small numbers are kept exactly.
   */
  lemma CompactRoundsDown(v: nat, negative: bool)
    ensures var r := Compact(v, negative);
            && Magnitude(r) <= v
            && (Exponent(r) <= 3 ==> Magnitude(r) == v)
            && (Exponent(r) > 3 ==> v - Magnitude(r) < Pow2(8 * (Exponent(r) - 3)))
            && Denoted(r) == if negative then -(Magnitude(r) as int) else Magnitude(r)
  {
    hide Pow2, Compact, Shr, TopBytes, Bytes, Exponent, Mantissa, SignBit;
    var r := Compact(v, negative);
    MantissaIsTop(v, negative);
    CompactFields(v, negative);
    var e, m := Exponent(r), Mantissa(r);
    if e <= 3 {
      ShrExact(v, 8 * (3 - e));
    } else {
      ShrRest(v, 8 * (e - 3));
    }
    if m == 0 { ZeroMantissa(r); }
  }

  lemma ShrExact(v: nat, n: nat)
    ensures v * Pow2(n) >= 0 && Shr(v * Pow2(n), n) == v
  {
    hide Pow2;
    var p := Pow2(n);
    MulNonNegative(v, p);
    DivModUnique(v * p, p, v, 0);
  }

  lemma ShrRest(v: nat, n: nat)
    ensures 0 <= v - Shr(v, n) * Pow2(n) < Pow2(n)
  {
    hide Pow2;
    var p := Pow2(n);
    assert v == p * (v / p) + v % p;
  }

  lemma ZeroMantissa(r: nat)
    requires Mantissa(r) == 0
    ensures Magnitude(r) == 0
  {
    hide Pow2;
    ShrAtMost(0, if Exponent(r) <= 3 then 8 * (3 - Exponent(r)) else 0);
  }

  /** A number with a short mantissa gets an exponent that loses none of its bytes. */
  lemma ExponentIsSmall(m: nat, k: nat, negative: bool)
    requires m < 0x80_0000
    ensures m * Pow2(8 * k) >= 0 && Exponent(Compact(m * Pow2(8 * k), negative)) <= k + 3
  {
    hide Pow2, Bytes, Shr;
    MulNonNegative(m, Pow2(8 * k));
    var v := m * Pow2(8 * k);
    CompactFields(v, negative);
    BytesBounds(v);
    Pow2Words();
    Pow2Add(23, 8 * k);
    ProductAgainst(m, Pow2(8 * k), Pow2(23));
    var c, n := TopBytes(v), Bytes(v);
    assert v < Pow2(23 + 8 * k);
    if n > k + 3 { Pow2Monotone(23 + 8 * k, 8 * (n - 1)); }
    if n == k + 3 && c >= 0x80_0000 {
      if n == 3 {
        Pow2Small();
      } else {
        ShrTimes(v, 8 * k);
        MulMonotone(0x80_0000, Shr(v, 8 * k), Pow2(8 * k));
      }
    }
  }

  /** Encoding a number that some compact number denotes gives back exactly that number. */
  lemma CompactRoundTrip(nCompact: nat, negative: bool)
    ensures Magnitude(Compact(Magnitude(nCompact), negative)) == Magnitude(nCompact)
  {
    hide Pow2, Compact, Shr;
    var e, m := Exponent(nCompact), Mantissa(nCompact);
    var v := Magnitude(nCompact);
    var r := Compact(v, negative);
    CompactRoundsDown(v, negative);
    MantissaIsTop(v, negative);
    if Exponent(r) > 3 {
      var k := if e <= 3 then 0 else e - 3;
      var m' := if e <= 3 then v else m;
      if e <= 3 { ShrAtMost(m, 8 * (3 - e)); Pow2Small(); }
      assert v == m' * Pow2(8 * k);
      ExponentIsSmall(m', k, negative);
      var j := Exponent(r) - 3;
      Pow2Add(8 * (k - j), 8 * j);
      assert 8 * k == 8 * (k - j) + 8 * j;
      ExactShift(m', Pow2(8 * (k - j)), 8 * j);
    }
  }

  lemma ExactShift(m: nat, f: nat, n: nat)
    ensures m * f >= 0 && m * (f * Pow2(n)) >= 0 && Shr(m * (f * Pow2(n)), n) == m * f
  {
    hide Pow2;
    var p := Pow2(n);
    MulNonNegative(m, f);
    MulNonNegative(m * f, p);
    assert m * (f * p) == p * (m * f);
    DivModUnique(m * (f * p), p, m * f, 0);
  }

  /** GetCompact; its two assertions hold for every 256-bit number. */
  method GetCompact(bn: BaseUint, negative: bool) returns (nCompact: nat)
    requires bn.Valid()
    ensures nCompact == Compact(bn.Value(), negative) && nCompact < COMPACT_LIMIT
  {
    hide Pow2, Shr, Weight, Low, BitLength, TopBytes, Low64;
    ghost var v := bn.Value();
    var bits := bn.Bits();
    BitLengthUnique(v, bits);
    TopBytesFit(v);
    var nSize := (bits + 7) / 8;
    if nSize <= 3 {
      nCompact := LowBytes(bn, v, nSize);
    } else {
      var shifted := new BaseUint.Copy(bn);
      shifted.ShiftRight(8 * (nSize - 3));
      TopBytesOf(v);
      Low64Small(shifted.Value());
      nCompact := GetLow64(shifted);
    }
    if nCompact >= 0x80_0000 {
      nCompact := nCompact / 0x100;
      nSize := nSize + 1;
    }
    assert nCompact < 0x80_0000 && nSize < 256;
    nCompact := nCompact + nSize * 0x100_0000 + if negative && nCompact != 0 then 0x80_0000 else 0;
  }

  lemma TopBytesOf(v: nat)
    ensures TopBytes(v) == if Bytes(v) <= 3 then v * Pow2(8 * (3 - Bytes(v))) else v / Pow2(8 * (Bytes(v) - 3))
  {
  }

  method LowBytes(bn: BaseUint, ghost v: nat, nSize: nat) returns (c: nat)
    requires bn.Valid() && v == bn.Value() && nSize == Bytes(v) <= 3
    ensures c == TopBytes(v)
  {
    hide Pow2, Shr, Weight, Low, BitLength, TopBytes, Low64;
    BytesBounds(v);
    Pow2Words();
    Pow2Monotone(8 * nSize, 24);
    TopBytesOf(v);
    Low64Small(v);
    var low := GetLow64(bn);
    c := low * Pow2(8 * (3 - nSize));
  }

  function Low64(v: nat): (r: nat) { v % (BASE * BASE) }

  lemma Low64Small(v: nat)
    requires v < BASE * BASE
    ensures Low64(v) == v
  {
  }

  /** The low 64 bits. */
  method GetLow64(bn: BaseUint) returns (low: nat)
    requires bn.Valid()
    ensures low == Low64(bn.Value())
  {
    low := bn.pn[0] + bn.pn[1] * BASE;
    LowLimbs(bn.Limbs());
  }

  lemma LowLimbs(s: Limbs)
    ensures s[0] + s[1] * BASE == Num(s) % (BASE * BASE)
  {
    hide Weight, Low, Pow2;
    WeightStep(0);
    WeightStep(1);
    LowLast(s, 0, s[0]);
    LowLast(s, 1, s[1]);
    LowEmpty(s, s, s);
    var h := HighPart(s, 2, WIDTH);
    LowBound(s, 2);
    DivModUnique(Num(s), BASE * BASE, h, s[0] + s[1] * BASE);
  }

  // ---------------------------------------------------------------------------
  // Trust
  // ---------------------------------------------------------------------------

  /** What a block adds to the trust of its chain. */
  function Trust(nBits: nat, nFlags: nat): (t: nat) {
    var target := Denoted(nBits);
    if target <= 0 || target >= MODULUS then 0
    else if nFlags % 2 == BLOCK_PROOF_OF_STAKE then DivNonNegative(MODULUS, target + 1); MODULUS / (target + 1)
    else 1
  }

  /** (2^256 - 1 - t) / (t + 1) + 1 is 2^256 / (t + 1). */
  lemma TrustFormula(m: nat, t: nat)
    requires t + 1 <= m
    ensures (m - 1 - t) / (t + 1) + 1 == m / (t + 1)
  {
    var d := t + 1;
    var q, r := (m - d) / d, (m - d) % d;
    assert m == d * (q + 1) + r by { assert d * (q + 1) == d * q + d; }
    DivModUnique(m, d, q + 1, r);
  }

  /** No compact number denotes 2^256 - 1, so adding one to a target cannot wrap around. */
  lemma TargetPlusOneFits(nBits: nat)
    requires Magnitude(nBits) < MODULUS
    ensures Magnitude(nBits) + 1 < MODULUS
  {
    hide Shr, Weight, Pow2, Magnitude;
    Modulus();
    OneBitBelow(255);
    SmallOrEven(nBits);
    Pow2Words();
    Pow2Monotone(24, 256);
  }

  lemma SmallOrEven(nBits: nat)
    ensures Magnitude(nBits) < 0x80_0000 || Magnitude(nBits) % 2 == 0
  {
    hide Shr, Pow2;
    var e, m := Exponent(nBits), Mantissa(nBits);
    if e <= 3 {
      ShrAtMost(m, 8 * (3 - e));
    } else {
      OneBitBelow(8 * (e - 3) - 1);
      EvenProduct(m, Pow2(8 * (e - 3) - 1), Pow2(8 * (e - 3)));
    }
  }

  lemma EvenProduct(m: nat, h: nat, p: nat)
    requires p == 2 * h
    ensures (m * p) % 2 == 0
  {
    assert m * p == 2 * (m * h);
  }

  lemma HalfModulus(d: nat)
    requires d >= 2
    ensures MODULUS / d < MODULUS && MODULUS / d >= 0
  {
    hide Weight;
    DivNonNegative(MODULUS, d);
    if MODULUS / d >= MODULUS { MulMonotone(MODULUS, MODULUS / d, d); MulMonotone(2, d, MODULUS); }
  }

  method GetBlockTrust(nBits: nat, nFlags: nat) returns (trust: BaseUint)
    requires nBits < COMPACT_LIMIT
    ensures trust.Valid() && fresh(trust.pn)
    ensures trust.Value() == Trust(nBits, nFlags)
  {
    hide Pow2, Shr, Weight, Low, Magnitude;
    var target := new BaseUint(0);
    var negative, overflow := SetCompact(target, nBits);
    var zero := target.IsZero();
    if !overflow { SmallMod(Magnitude(nBits)); }
    if negative || overflow || zero {
      trust := new BaseUint(0);
      return;
    }
    if nFlags % 2 == BLOCK_PROOF_OF_STAKE {
      ghost var t := target.Value();
      TargetPlusOneFits(nBits);
      TrustFormula(MODULUS, t);
      HalfModulus(t + 1);
      SmallMod(t + 1);
      SmallMod(MODULUS / (t + 1));
      trust := target.Complement();
      var one := new BaseUint(1);
      target.AddAssign(one);
      var threw := trust.DivAssign(target);
      trust.AddAssign(one);
    } else {
      trust := new BaseUint(1);
    }
  }
}
