/** Bech32 and Bech32m: the checksum as a linear code, and the text encoding around it. */
module Bech32 {
  /** A 5-bit symbol, a coefficient in GF(32). */
  type Symbol = bv5

  datatype Encoding = BECH32 | BECH32M

  function EncodingConstant(encoding: Encoding): (c: bv32) {
    if encoding == BECH32 then 1 else 0x2bc830a3
  }

  // ---------------------------------------------------------------------------
  // The checksum
  // ---------------------------------------------------------------------------

  /** Addition of polynomials. */
  function Xor(a: bv32, b: bv32): (r: bv32) { a ^ b }

  predicate TestBit(c: bv32, mask: bv32) { c & mask != 0 }

  function Pick(c0: bv32, mask: bv32, k: bv32): (r: bv32) { if TestBit(c0, mask) then k else 0 }

  /** c0 * k(x), where k(x) is x^6 reduced by the generator. */
  function Reduction(c0: bv32): (r: bv32) {
    Xor(Xor(Xor(Xor(Pick(c0, 1, 0x3b6a57b2), Pick(c0, 2, 0x26508e6d)), Pick(c0, 4, 0x1ea119fa)),
            Pick(c0, 8, 0x3d4233dd)), Pick(c0, 16, 0x2a1462b3))
  }

  /** The lower five coefficients, moved up one place, and the top coefficient. */
  function Shifted(c: bv32): (r: bv32) { (c & 0x1ffffff) << 5 }

  function Top(c: bv32): (r: bv32) { c >> 25 }

  function Wide(v: Symbol): (r: bv32) { v as bv32 }

  function Diff(x: Symbol, y: Symbol): (r: Symbol) { x ^ y }

  function Shl5(d: bv32): (r: bv32) { d << 5 }

  /** c(x) * x + v, reduced by the generator. */
  function Step(c: bv32, v: Symbol): (r: bv32) {
    Xor(Xor(Shifted(c), Wide(v)), Reduction(Top(c)))
  }

  /** The remainder after all symbols, starting from the remainder `c`. */
  function Fold(c: bv32, v: seq<Symbol>): (r: bv32)
    decreases |v|
  {
    if v == [] then c else Fold(Step(c, v[0]), v[1..])
  }

  function PolyMod(v: seq<Symbol>): (r: bv32) { Fold(1, v) }

  const LIMIT: bv32 := 0x4000_0000

  /** Remainders have 30 bits. */
  lemma StepFits(c: bv32, v: Symbol)
    requires c < LIMIT
    ensures Step(c, v) < LIMIT
  {
  }

  lemma XorUnits(x: bv32)
    ensures Xor(x, x) == 0 && Xor(x, 0) == x && Xor(0, x) == x
  {
  }

  lemma XorSwap(a: bv32, b: bv32, c: bv32, d: bv32)
    ensures Xor(Xor(a, b), Xor(c, d)) == Xor(Xor(a, c), Xor(b, d))
  {
    hide Xor;
    XorAssociative(a, b, Xor(c, d));
    XorAssociative(b, c, d);
    XorCommutative(b, c);
    XorAssociative(c, b, d);
    XorAssociative(a, c, Xor(b, d));
  }

  lemma XorAssociative(a: bv32, b: bv32, c: bv32)
    ensures Xor(Xor(a, b), c) == Xor(a, Xor(b, c))
  {
  }

  lemma XorCommutative(a: bv32, b: bv32)
    ensures Xor(a, b) == Xor(b, a)
  {
  }

  lemma XorZero(a: bv32, b: bv32)
    ensures Xor(a, b) == 0 <==> a == b
  {
  }

  lemma TestXor(c: bv32, d: bv32, mask: bv32)
    requires mask == 1 || mask == 2 || mask == 4 || mask == 8 || mask == 16
    ensures TestBit(Xor(c, d), mask) <==> TestBit(c, mask) != TestBit(d, mask)
  {
    if mask == 1 {} else if mask == 2 {} else if mask == 4 {} else if mask == 8 {} else {}
  }

  lemma PickLinear(c: bv32, d: bv32, mask: bv32, k: bv32)
    requires mask == 1 || mask == 2 || mask == 4 || mask == 8 || mask == 16
    ensures Pick(Xor(c, d), mask, k) == Xor(Pick(c, mask, k), Pick(d, mask, k))
  {
    hide Xor, TestBit;
    TestXor(c, d, mask);
    XorUnits(k);
    XorUnits(0);
  }

  lemma ReductionLinear(c: bv32, d: bv32)
    ensures Reduction(Xor(c, d)) == Xor(Reduction(c), Reduction(d))
  {
    hide Pick, Xor;
    PickLinear(c, d, 1, 0x3b6a57b2);
    PickLinear(c, d, 2, 0x26508e6d);
    PickLinear(c, d, 4, 0x1ea119fa);
    PickLinear(c, d, 8, 0x3d4233dd);
    PickLinear(c, d, 16, 0x2a1462b3);
    Xor5(Pick(c, 1, 0x3b6a57b2), Pick(c, 2, 0x26508e6d), Pick(c, 4, 0x1ea119fa), Pick(c, 8, 0x3d4233dd), Pick(c, 16, 0x2a1462b3),
         Pick(d, 1, 0x3b6a57b2), Pick(d, 2, 0x26508e6d), Pick(d, 4, 0x1ea119fa), Pick(d, 8, 0x3d4233dd), Pick(d, 16, 0x2a1462b3));
  }

  lemma Xor5(a: bv32, b: bv32, c: bv32, d: bv32, e: bv32, a': bv32, b': bv32, c': bv32, d': bv32, e': bv32)
    ensures Xor(Xor(Xor(Xor(Xor(a, a'), Xor(b, b')), Xor(c, c')), Xor(d, d')), Xor(e, e')) ==
            Xor(Xor(Xor(Xor(Xor(a, b), c), d), e), Xor(Xor(Xor(Xor(a', b'), c'), d'), e'))
  {
    hide Xor;
    XorSwap(a, a', b, b');
    XorSwap(Xor(a, b), Xor(a', b'), c, c');
    XorSwap(Xor(Xor(a, b), c), Xor(Xor(a', b'), c'), d, d');
    XorSwap(Xor(Xor(Xor(a, b), c), d), Xor(Xor(Xor(a', b'), c'), d'), e, e');
  }

  /** The constant coefficient of k(x) is not zero, so no multiple of it vanishes in the low symbol. */
  lemma ReductionLow(e: bv32)
    requires e < 32 && Reduction(e) & 31 == 0
    ensures e == 0
  {
  }

  lemma ReductionZero()
    ensures Reduction(0) == 0
  {
  }

  lemma PartsLinear(a: bv32, b: bv32)
    ensures Xor(Shifted(a), Shifted(b)) == Shifted(Xor(a, b)) && Xor(Top(a), Top(b)) == Top(Xor(a, b))
  {
  }

  lemma WideLinear(x: Symbol, y: Symbol)
    ensures Xor(Wide(x), Wide(y)) == Wide(Diff(x, y)) && Wide(x) < 32 && (Wide(Diff(x, y)) == 0 <==> x == y)
  {
  }

  /** A step is linear: the difference of two steps is the step of the difference. */
  lemma StepLinear(a: bv32, b: bv32, x: Symbol, y: Symbol)
    ensures Xor(Step(a, x), Step(b, y)) == Xor(Xor(Shifted(Xor(a, b)), Wide(Diff(x, y))), Reduction(Top(Xor(a, b))))
  {
    hide Xor, Reduction, Shifted, Top, Wide, Diff;
    PartsLinear(a, b);
    WideLinear(x, y);
    ReductionLinear(Top(a), Top(b));
    XorSwap(Xor(Shifted(a), Wide(x)), Reduction(Top(a)), Xor(Shifted(b), Wide(y)), Reduction(Top(b)));
    XorSwap(Shifted(a), Wide(x), Shifted(b), Wide(y));
  }

  lemma PartsOf(d: bv32)
    ensures d < 0x200_0000 ==> Top(d) == 0 && Shifted(d) == Shl5(d)
    ensures d < LIMIT ==> Top(d) < 32
    ensures d < LIMIT && Top(d) == 0 && Shifted(d) == 0 ==> d == 0
    ensures Shifted(d) & 31 == 0
  {
  }

  /** Below 25 bits, a difference is only shifted: nothing has to be reduced. */
  lemma StepShifts(a: bv32, b: bv32, x: Symbol, y: Symbol)
    requires Xor(a, b) < 0x200_0000
    ensures Xor(Step(a, x), Step(b, y)) == Xor(Shl5(Xor(a, b)), Wide(Diff(x, y)))
  {
    hide Xor, Reduction, Shifted, Top, Wide, Step, Diff, Shl5;
    StepLinear(a, b, x, y);
    PartsOf(Xor(a, b));
    ReductionZero();
    XorUnits(Xor(Shl5(Xor(a, b)), Wide(Diff(x, y))));
  }

  /** Multiplying by x loses nothing: different remainders stay different. */
  lemma StepInjective(a: bv32, b: bv32, x: Symbol)
    requires a < LIMIT && b < LIMIT && a != b
    ensures Step(a, x) != Step(b, x)
  {
    hide Xor, Reduction, Shifted, Top, Wide, Step, Diff, Shl5;
    var d := Xor(a, b);
    StepLinear(a, b, x, x);
    WideLinear(x, x);
    DifferenceFits(a, b);
    PartsOf(d);
    ReductionZero();
    XorUnits(Shifted(d));
    XorZero(Step(a, x), Step(b, x));
    XorZero(Shifted(d), Reduction(Top(d)));
    if Reduction(Top(d)) & 31 == 0 { ReductionLow(Top(d)); }
  }

  lemma DifferenceFits(a: bv32, b: bv32)
    requires a < LIMIT && b < LIMIT && a != b
    ensures Xor(a, b) < LIMIT && Xor(a, b) != 0
  {
  }

  lemma {:induction false} FoldFits(c: bv32, v: seq<Symbol>)
    requires c < LIMIT
    ensures Fold(c, v) < LIMIT
    decreases |v|
  {
    if v != [] {
      StepFits(c, v[0]);
      hide Step;
      FoldFits(Step(c, v[0]), v[1..]);
    }
  }

  lemma {:induction false} FoldConcat(c: bv32, v: seq<Symbol>, w: seq<Symbol>)
    ensures Fold(c, v + w) == Fold(Fold(c, v), w)
    decreases |v|
  {
    hide Step;
    if v == [] {
      assert v + w == w;
    } else {
      assert (v + w)[1..] == v[1..] + w;
      FoldConcat(Step(c, v[0]), v[1..], w);
    }
  }

  /** At most the lowest `j` symbols are not zero. */
  predicate Within(d: bv32, j: nat)
    requires j <= 6
  {
    match j
    case 0 => d == 0
    case 1 => d < 0x20
    case 2 => d < 0x400
    case 3 => d < 0x8000
    case 4 => d < 0x10_0000
    case 5 => d < 0x200_0000
    case 6 => d < LIMIT
  }

  lemma DifferenceGrows(d: bv32, e: Symbol, j: nat)
    requires j < 6 && Within(d, j)
    ensures Within(Xor(Shl5(d), Wide(e)), j + 1) && d < 0x200_0000
    ensures Xor(Shl5(d), Wide(e)) == 0 <==> d == 0 && e == 0
  {
    match j case 0 => case 1 => case 2 => case 3 => case 4 => case 5 =>
  }

  lemma DiffZero(x: Symbol, y: Symbol)
    ensures Diff(x, y) == 0 <==> x == y
    ensures Diff(x, 0) == x
  {
  }

  /** One symbol inside the window: the difference moves up and stays recognisable. */
  lemma BurstStep(a: bv32, b: bv32, x: Symbol, y: Symbol, j: nat)
    requires j < 6 && Within(Xor(a, b), j)
    ensures Xor(Step(a, x), Step(b, y)) == Xor(Shl5(Xor(a, b)), Wide(Diff(x, y)))
    ensures Within(Xor(Step(a, x), Step(b, y)), j + 1)
    ensures Step(a, x) == Step(b, y) <==> a == b && x == y
  {
    hide Xor, Step, Wide, Diff, Shl5, Within;
    DifferenceGrows(Xor(a, b), Diff(x, y), j);
    StepShifts(a, b, x, y);
    XorZero(a, b);
    XorZero(Step(a, x), Step(b, y));
    DiffZero(x, y);
  }

  lemma WithinSix(a: bv32, b: bv32)
    requires a < LIMIT && b < LIMIT
    ensures Within(Xor(a, b), 6)
  {
  }

  /** Two runs that differ now, or will differ within the rest of a window of six symbols, end differently. */
  lemma {:induction false} BurstSurvives(a: bv32, b: bv32, x: seq<Symbol>, y: seq<Symbol>, j: nat)
    requires a < LIMIT && b < LIMIT && j <= 6 && Within(Xor(a, b), j)
    requires |x| == |y| && (forall i :: 6 - j <= i < |x| ==> x[i] == y[i])
    requires a != b || x != y
    ensures Fold(a, x) != Fold(b, y)
    decreases |x|
  {
    hide Step, Xor, Within;
    if x != [] {
      var a', b' := Step(a, x[0]), Step(b, y[0]);
      StepFits(a, x[0]);
      StepFits(b, y[0]);
      assert x == [x[0]] + x[1..] && y == [y[0]] + y[1..];
      if j < 6 {
        BurstStep(a, b, x[0], y[0], j);
        BurstSurvives(a', b', x[1..], y[1..], j + 1);
      } else {
        StepInjective(a, b, x[0]);
        WithinSix(a', b');
        BurstSurvives(a', b', x[1..], y[1..], 6);
      }
    }
  }

  /** Any change confined to six consecutive symbols changes the checksum, in lists of any length. */
  lemma BurstChangesChecksum(x: seq<Symbol>, y: seq<Symbol>, p: nat)
    requires |x| == |y| && x != y && p <= |x|
    requires forall i :: 0 <= i < |x| && !(p <= i < p + 6) ==> x[i] == y[i]
    ensures PolyMod(x) != PolyMod(y)
  {
    hide Fold, Xor;
    assert x == x[..p] + x[p..] && y == y[..p] + y[p..];
    assert x[..p] == y[..p];
    FoldConcat(1, x[..p], x[p..]);
    FoldConcat(1, y[..p], y[p..]);
    FoldFits(1, x[..p]);
    var c := Fold(1, x[..p]);
    XorUnits(c);
    BurstSurvives(c, c, x[p..], y[p..], 0);
  }

  // ---------------------------------------------------------------------------
  // Creating and verifying checksums
  // ---------------------------------------------------------------------------

  const SIX_ZEROES: seq<Symbol> := [0, 0, 0, 0, 0, 0]

  /** Symbols packed after `d`, five bits each. */
  function Pack(d: bv32, v: seq<Symbol>): (r: bv32)
    decreases |v|
  {
    if v == [] then d else Pack(Xor(Shl5(d), Wide(v[0])), v[1..])
  }

  /** Symbols in place of zeros add exactly their packed value to the remainder. */
  lemma {:induction false} FoldPacks(a: bv32, b: bv32, v: seq<Symbol>, z: seq<Symbol>, j: nat)
    requires j <= 6 && Within(Xor(a, b), j) && |v| == |z| && j + |v| <= 6
    requires forall i :: 0 <= i < |z| ==> z[i] == 0
    ensures Xor(Fold(a, v), Fold(b, z)) == Pack(Xor(a, b), v)
    decreases |v|
  {
    hide Step, Xor, Wide, Within, Diff, Shl5;
    if v != [] {
      BurstStep(a, b, v[0], z[0], j);
      DiffZero(v[0], 0);
      FoldPacks(Step(a, v[0]), Step(b, z[0]), v[1..], z[1..], j + 1);
    }
  }

  function Low(x: bv32): (s: Symbol) { (x & 31) as bv5 }

  /** The upper `i + 1` symbols of a packed value. */
  function Part(mod: bv32, i: nat): (r: bv32)
    requires i < 6
  {
    match i case 0 => mod >> 25 case 1 => mod >> 20 case 2 => mod >> 15 case 3 => mod >> 10 case 4 => mod >> 5 case 5 => mod
  }

  function Group(mod: bv32, i: nat): (s: Symbol)
    requires i < 6
  {
    Low(Part(mod, i))
  }

  /** The six symbols of a packed checksum, highest first. */
  function Unpack(mod: bv32): (s: seq<Symbol>)
    ensures |s| == 6
  {
    [Group(mod, 0), Group(mod, 1), Group(mod, 2), Group(mod, 3), Group(mod, 4), Group(mod, 5)]
  }

  /** A value is its upper part, extended by its lowest symbol. */
  lemma LowStep(x: bv32)
    ensures Xor(Shl5(Shr5(x)), Wide(Low(x))) == x
  {
  }

  function Shr5(x: bv32): (r: bv32) { x >> 5 }

  lemma PartZero(m: bv32)
    requires m < LIMIT
    ensures Shr5(Part(m, 0)) == 0
  {
  }

  lemma PartOne(m: bv32)
    ensures Shr5(Part(m, 1)) == Part(m, 0)
  {
  }

  lemma PartTwo(m: bv32)
    ensures Shr5(Part(m, 2)) == Part(m, 1)
  {
  }

  lemma PartThree(m: bv32)
    ensures Shr5(Part(m, 3)) == Part(m, 2)
  {
  }

  lemma PartFour(m: bv32)
    ensures Shr5(Part(m, 4)) == Part(m, 3)
  {
  }

  lemma PartFive(m: bv32)
    ensures Shr5(Part(m, 5)) == Part(m, 4)
  {
  }

  lemma PartUpper(m: bv32, i: nat)
    requires i < 6 && m < LIMIT
    ensures Shr5(Part(m, i)) == if i == 0 then 0 else Part(m, i - 1)
  {
    hide Shr5, Part;
    match i
    case 0 => PartZero(m);
    case 1 => PartOne(m);
    case 2 => PartTwo(m);
    case 3 => PartThree(m);
    case 4 => PartFour(m);
    case 5 => PartFive(m);
  }

  /** Each upper part is the one before it, extended by the next symbol. */
  lemma GroupStep(m: bv32, i: nat)
    requires i < 6 && m < LIMIT
    ensures Xor(Shl5(if i == 0 then 0 else Part(m, i - 1)), Wide(Group(m, i))) == Part(m, i)
  {
    hide Xor, Shl5, Wide, Low, Part, Shr5;
    PartUpper(m, i);
    LowStep(Part(m, i));
  }

  lemma PackCons(d: bv32, s: Symbol, rest: seq<Symbol>)
    ensures Pack(d, [s] + rest) == Pack(Xor(Shl5(d), Wide(s)), rest)
  {
    assert ([s] + rest)[1..] == rest;
  }

  lemma {:induction false} PackGroups(m: bv32, i: nat)
    requires m < LIMIT && i <= 6
    ensures Pack(if i == 0 then 0 else Part(m, i - 1), Unpack(m)[i..]) == m
    decreases 6 - i
  {
    hide Xor, Shl5, Wide, Group, Pack, Part;
    if i == 6 {
      PackEmpty(m);
      PartLast(m);
    } else {
      GroupStep(m, i);
      assert Unpack(m)[i..] == [Group(m, i)] + Unpack(m)[i + 1..];
      PackCons(if i == 0 then 0 else Part(m, i - 1), Group(m, i), Unpack(m)[i + 1..]);
      PackGroups(m, i + 1);
    }
  }

  lemma PackUnpack(m: bv32)
    requires m < LIMIT
    ensures Pack(0, Unpack(m)) == m
  {
    PackGroups(m, 0);
    assert Unpack(m)[0..] == Unpack(m);
  }

  lemma PartLast(m: bv32)
    ensures Part(m, 5) == m
  {
  }

  lemma PackEmpty(d: bv32)
    ensures Pack(d, []) == d
  {
  }

  lemma Recover(d: bv32, s: Symbol)
    requires d < 0x200_0000
    ensures Shr5(Xor(Shl5(d), Wide(s))) == d && Low(Xor(Shl5(d), Wide(s))) == s
  {
  }

  lemma ExtendInjective(d: bv32, e: bv32, s: Symbol, t: Symbol, j: nat)
    requires j < 6 && Within(d, j) && Within(e, j)
    ensures Within(Xor(Shl5(d), Wide(s)), j + 1)
    ensures Xor(Shl5(d), Wide(s)) == Xor(Shl5(e), Wide(t)) ==> d == e && s == t
  {
    hide Xor, Shl5, Wide, Low, Within, Shr5;
    DifferenceGrows(d, s, j);
    DifferenceGrows(e, t, j);
    Recover(d, s);
    Recover(e, t);
  }

  lemma {:induction false} PackInjective(d: bv32, e: bv32, v: seq<Symbol>, w: seq<Symbol>, j: nat)
    requires |v| == |w| && j + |v| <= 6 && Within(d, j) && Within(e, j) && Pack(d, v) == Pack(e, w)
    ensures d == e && v == w
    decreases |v|
  {
    hide Xor, Shl5, Wide, Within;
    if v != [] {
      ExtendInjective(d, e, v[0], w[0], j);
      ExtendInjective(e, d, w[0], v[0], j);
      PackInjective(Xor(Shl5(d), Wide(v[0])), Xor(Shl5(e), Wide(w[0])), v[1..], w[1..], j + 1);
      assert v == [v[0]] + v[1..] && w == [w[0]] + w[1..];
    }
  }

  /** The six symbols that bring the remainder of `v` to the encoding's constant. */
  function Checksum(encoding: Encoding, v: seq<Symbol>): (s: seq<Symbol>)
    ensures |s| == 6
  {
    Unpack(Xor(PolyMod(v + SIX_ZEROES), EncodingConstant(encoding)))
  }

  /** The checksum verifies, and no other six symbols do. */
  lemma ChecksumIsUnique(encoding: Encoding, v: seq<Symbol>, s: seq<Symbol>)
    requires |s| == 6
    ensures PolyMod(v + s) == EncodingConstant(encoding) <==> s == Checksum(encoding, v)
  {
    hide Xor, Fold, Pack, Unpack, Within;
    var c, k := Fold(1, v), EncodingConstant(encoding);
    FoldConcat(1, v, s);
    FoldConcat(1, v, SIX_ZEROES);
    FoldFits(1, v + SIX_ZEROES);
    XorUnits(c);
    WithinZero();
    FoldPacks(c, c, s, SIX_ZEROES, 0);
    var p := PolyMod(v + SIX_ZEROES);
    ConstantFits(p, encoding);
    PackUnpack(Xor(p, k));
    XorMoves(PolyMod(v + s), p, Pack(0, s), k);
    if PolyMod(v + s) == k {
      PackInjective(0, 0, s, Checksum(encoding, v), 0);
    }
  }

  lemma WithinZero()
    ensures Within(0, 0)
  {
  }

  lemma ConstantFits(p: bv32, encoding: Encoding)
    requires p < LIMIT
    ensures Xor(p, EncodingConstant(encoding)) < LIMIT
  {
  }

  lemma XorMoves(q: bv32, p: bv32, s: bv32, k: bv32)
    requires Xor(q, p) == s
    ensures q == k <==> s == Xor(p, k)
  {
    hide Xor;
    XorCommutative(q, p);
    XorAssociative(p, p, q);
    XorAssociative(p, p, k);
    XorUnits(p);
    XorUnits(q);
    XorUnits(k);
  }
}
