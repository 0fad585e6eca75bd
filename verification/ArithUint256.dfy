/** 256-bit unsigned integers as eight 32-bit limbs, against mathematical integers. */
module ArithUint256 {
  import opened BitOps

  const WIDTH: nat := 8
  const BASE: nat := 0x1_0000_0000
  type Limb = x: nat | x < BASE
  type Limbs = s: seq<Limb> | |s| == WIDTH witness [0, 0, 0, 0, 0, 0, 0, 0]

  /** The weight of limb `i`. */
  function Weight(i: nat): (w: nat)
    ensures w > 0
  {
    Pow2(32 * i)
  }

  /** 2^256. */
  const MODULUS: nat := Weight(WIDTH)

  /** The number in the lowest `n` limbs. */
  function Low(s: seq<Limb>, n: nat): (v: nat)
    requires n <= |s|
  {
    if n == 0 then 0 else MulNonNegative(s[n - 1], Weight(n - 1)); Low(s, n - 1) + s[n - 1] * Weight(n - 1)
  }

  lemma MulNonNegative(x: nat, y: nat)
    ensures x * y >= 0
  {
  }

  lemma DivNonNegative(x: nat, y: nat)
    requires y > 0
    ensures 0 <= x / y <= x
  {
    if x / y > x { MulMonotone(x + 1, x / y, y); MulMonotone(1, y, x + 1); }
  }

  lemma MulMonotone(x: int, y: int, w: int)
    requires x <= y && 0 <= w
    ensures x * w <= y * w
  {
  }

  function Num(s: Limbs): (v: nat) { Low(s, WIDTH) }

  // ---------------------------------------------------------------------------
  // Limbs and numbers
  // ---------------------------------------------------------------------------

  lemma Base()
    ensures Pow2(32) == BASE
  {
    assert Pow2(8) == 256;
    Pow2Add(8, 8);
    Pow2Add(16, 16);
  }

  lemma WeightStep(i: nat)
    ensures Weight(i + 1) == BASE * Weight(i) && Weight(0) == 1
  {
    Base();
    Pow2Add(32 * i, 32);
  }

  lemma {:induction false} LowBound(s: seq<Limb>, n: nat)
    requires n <= |s|
    ensures Low(s, n) < Weight(n)
    decreases n
  {
    hide Weight;
    if n == 0 {
      WeightStep(0);
    } else {
      LowBound(s, n - 1);
      WeightStep(n - 1);
      MulMonotone(s[n - 1], BASE - 1, Weight(n - 1));
    }
  }

  lemma {:induction false} LowSame(s: seq<Limb>, t: seq<Limb>, n: nat)
    requires n <= |s| && n <= |t| && forall j :: 0 <= j < n ==> s[j] == t[j]
    ensures Low(s, n) == Low(t, n)
    decreases n
  {
    if n > 0 { LowSame(s, t, n - 1); }
  }

  lemma {:induction false} LowUpdate(s: seq<Limb>, i: nat, x: Limb, n: nat)
    requires i < n <= |s|
    ensures Low(s[i := x], n) == Low(s, n) + (x - s[i]) * Weight(i)
    decreases n
  {
    if n - 1 == i {
      LowSame(s[i := x], s, i);
      assert x * Weight(i) == s[i] * Weight(i) + (x - s[i]) * Weight(i);
    } else {
      LowUpdate(s, i, x, n - 1);
    }
  }

  lemma {:induction false} LowZero(s: seq<Limb>, n: nat)
    requires n <= |s| && forall j :: 0 <= j < n ==> s[j] == 0
    ensures Low(s, n) == 0
    decreases n
  {
    if n > 0 { LowZero(s, n - 1); }
  }

  lemma NumBound(s: Limbs)
    ensures Num(s) < MODULUS
  {
    LowBound(s, WIDTH);
  }

  class BaseUint {
    const pn: array<Limb>

    predicate Valid() { pn.Length == WIDTH }

    function Limbs(): (s: Limbs)
      requires Valid()
      reads pn
    {
      pn[..]
    }

    function Value(): (v: nat)
      requires Valid()
      reads pn
    {
      Num(Limbs())
    }

    /** From a 64-bit number. */
    constructor (b: nat)
      requires b < BASE * BASE
      ensures Valid() && fresh(pn) && Value() == b
    {
      pn := new Limb[WIDTH](i => 0);
      new;
      pn[0] := b % BASE;
      pn[1] := b / BASE;
      SmallNum(pn[..], b);
    }

    constructor Copy(b: BaseUint)
      requires b.Valid()
      ensures Valid() && fresh(pn) && Limbs() == b.Limbs()
    {
      pn := new Limb[WIDTH](i requires 0 <= i < WIDTH && b.Valid() reads b.pn => b.pn[i]);
      new;
      assert pn[..] == b.pn[..];
    }

    /** operator+=; the argument may be this number itself. */
    method AddAssign(b: BaseUint)
      requires Valid() && b.Valid()
      modifies pn
      ensures Value() == (old(Value()) + old(b.Value())) % MODULUS
    {
      hide Weight, Low;
      ghost var x, y := Limbs(), b.Limbs();
      var carry := 0;
      LowEmpty(pn[..], x, y);
      for i := 0 to WIDTH
        invariant 0 <= carry <= 1
        invariant forall j :: i <= j < WIDTH ==> pn[j] == x[j] && b.pn[j] == y[j]
        invariant Low(pn[..], i) + carry * Weight(i) == Low(x, i) + Low(y, i)
      {
        var n := carry + pn[i] + b.pn[i];
        AddStep(pn[..], x, y, i, carry);
        ghost var s := pn[..][i := n % BASE];
        pn[i] := n % BASE;
        assert pn[..] == s;
        carry := n / BASE;
      }
      NumBound(pn[..]);
      ModOf(Num(x) + Num(y), carry, Num(pn[..]));
    }

    /** operator~ */
    method Complement() returns (r: BaseUint)
      requires Valid()
      ensures r.Valid() && fresh(r.pn) && r.Value() == MODULUS - 1 - Value()
    {
      hide Weight, Low;
      r := new BaseUint(0);
      ghost var s := pn[..];
      LowEmpty(r.pn[..], s, s);
      for i := 0 to WIDTH
        invariant r.Valid() && fresh(r.pn) && pn[..] == s
        invariant Low(r.pn[..], i) == Weight(i) - 1 - Low(s, i)
      {
        ComplementStep(r.pn[..], s, i);
        ghost var t := r.pn[..][i := BASE - 1 - pn[i]];
        r.pn[i] := BASE - 1 - pn[i];
        assert r.pn[..] == t;
      }
    }

    /** operator++ */
    method Increment()
      requires Valid()
      modifies pn
      ensures Value() == (old(Value()) + 1) % MODULUS
    {
      hide Weight, Low;
      ghost var x := pn[..];
      LowEmpty(pn[..], x, x);
      var i := 0;
      while i < WIDTH
        invariant 0 <= i <= WIDTH
        invariant forall j :: i <= j < WIDTH ==> pn[j] == x[j]
        invariant Low(pn[..], i) == 0 && Low(x, i) == Weight(i) - 1
      {
        IncrementStep(pn[..], x, i);
        ghost var s := pn[..][i := (pn[i] + 1) % BASE];
        pn[i] := (pn[i] + 1) % BASE;
        assert pn[..] == s;
        if pn[i] != 0 {
          NumBound(pn[..]);
          ModOf(Num(x) + 1, 0, Num(pn[..]));
          return;
        }
        i := i + 1;
      }
      ModOf(Num(x) + 1, 1, Num(pn[..]));
    }

    /** Unary operator-: complement plus one. */
    method Negate() returns (r: BaseUint)
      requires Valid()
      ensures r.Valid() && fresh(r.pn) && r.Value() == (MODULUS - Value()) % MODULUS
    {
      r := Complement();
      r.Increment();
    }

    /** operator-= */
    method SubAssign(b: BaseUint)
      requires Valid() && b.Valid()
      modifies pn
      ensures Value() == (old(Value()) - old(b.Value())) % MODULUS
    {
      var minus := b.Negate();
      ghost var v, w := Value(), b.Value();
      AddAssign(minus);
      NumBound(old(b.Limbs()));
      SubMod(v, w);
    }

    method CompareTo(b: BaseUint) returns (order: int)
      requires Valid() && b.Valid()
      ensures order == if Value() < b.Value() then -1 else if Value() > b.Value() then 1 else 0
    {
      hide Weight, Low;
      var i := WIDTH - 1;
      while i >= 0
        invariant -1 <= i < WIDTH
        invariant forall j :: i < j < WIDTH ==> pn[j] == b.pn[j]
      {
        if pn[i] < b.pn[i] { TopLimbDecides(pn[..], b.pn[..], i); return -1; }
        if pn[i] > b.pn[i] { TopLimbDecides(b.pn[..], pn[..], i); return 1; }
        i := i - 1;
      }
      assert pn[..] == b.pn[..];
      order := 0;
    }

    /** operator== with zero, the only 64-bit number it is compared with here. */
    method IsZero() returns (r: bool)
      requires Valid()
      ensures r <==> Value() == 0
    {
      hide Weight, Low;
      var i := WIDTH - 1;
      while i >= 2
        invariant 1 <= i < WIDTH
        invariant forall j :: i < j < WIDTH ==> pn[j] == 0
      {
        if pn[i] != 0 { LimbNonZero(pn[..], i); return false; }
        i := i - 1;
      }
      if pn[1] != 0 { LimbNonZero(pn[..], 1); return false; }
      if pn[0] != 0 { LimbNonZero(pn[..], 0); return false; }
      LowZero(pn[..], WIDTH);
      r := true;
    }

    /** bits(): the position of the highest bit set plus one. */
    method Bits() returns (n: nat)
      requires Valid()
      ensures n <= 256 && Value() < Pow2(n) && (n > 0 ==> Pow2(n - 1) <= Value())
    {
      hide Weight, Low, Pow2, And;
      var pos := WIDTH - 1;
      while pos >= 0
        invariant -1 <= pos < WIDTH
        invariant forall j :: pos < j < WIDTH ==> pn[j] == 0
      {
        if pn[pos] != 0 {
          var nbits := 31;
          Base();
          while nbits > 0
            invariant 0 <= nbits <= 31 && pn[pos] < Pow2(nbits + 1)
          {
            BitTest(pn[pos], nbits);
            if And(pn[pos], Pow2(nbits)) != 0 {
              TopBit(pn[..], pos, nbits);
              return 32 * pos + nbits + 1;
            }
            nbits := nbits - 1;
          }
          Pow2Small();
          TopBit(pn[..], pos, 0);
          return 32 * pos + 1;
        }
        pos := pos - 1;
      }
      LowZero(pn[..], WIDTH);
      Pow2Small();
      n := 0;
    }

    /** operator<<= */
    method ShiftLeft(shift: nat)
      requires Valid()
      modifies pn
      ensures Value() == old(Value()) * Pow2(shift) % MODULUS
    {
      hide Weight, Low, Pow2, Or, Shr, Shl32, ShlInv;
      ghost var a: Limbs := pn[..];
      var copy := new BaseUint.Copy(this);
      for i := 0 to WIDTH
        invariant copy.Valid() && copy.pn != pn && copy.pn[..] == a
        invariant forall j :: 0 <= j < i ==> pn[j] == 0
      {
        pn[i] := 0;
      }
      var k := shift / 32;
      var s := shift % 32;
      ShlStart(a, pn[..], k, s);
      for i := 0 to WIDTH
        invariant copy.Valid() && copy.pn != pn && copy.pn[..] == a
        invariant ShlInv(a, pn[..], i, k, s)
      {
        ghost var before: Limbs := pn[..];
        ShlParts(a, before, i, k, s);
        if i + k + 1 < WIDTH && s != 0 {
          pn[i + k + 1] := Or(pn[i + k + 1], Shr(copy.pn[i], 32 - s));
        }
        if i + k < WIDTH {
          pn[i + k] := Or(pn[i + k], Shl32(copy.pn[i], s));
        }
        assert pn[..] == ShlStep(a, before, i, k, s);
        ShlStepOk(a, before, i, k, s);
      }
      ShlEnd(a, pn[..], k, s);
      assert shift == 32 * k + s;
    }

    /** operator>>= */
    method ShiftRight(shift: nat)
      requires Valid()
      modifies pn
      ensures Value() == old(Value()) / Pow2(shift)
    {
      hide Weight, Low, Pow2, Or, Shr, Shl32, ShrInv;
      ghost var a: Limbs := pn[..];
      var copy := new BaseUint.Copy(this);
      for i := 0 to WIDTH
        invariant copy.Valid() && copy.pn != pn && copy.pn[..] == a
        invariant forall j :: 0 <= j < i ==> pn[j] == 0
      {
        pn[i] := 0;
      }
      var k := shift / 32;
      var s := shift % 32;
      ShrStart(a, pn[..], k, s);
      for i := 0 to WIDTH
        invariant copy.Valid() && copy.pn != pn && copy.pn[..] == a
        invariant ShrInv(a, pn[..], i, k, s)
      {
        ghost var before: Limbs := pn[..];
        ShrParts(a, before, i, k, s);
        if i - k - 1 >= 0 && s != 0 {
          pn[i - k - 1] := Or(pn[i - k - 1], Shl32(copy.pn[i], 32 - s));
        }
        if i - k >= 0 {
          pn[i - k] := Or(pn[i - k], Shr(copy.pn[i], s));
        }
        assert pn[..] == ShrStep(a, before, i, k, s);
        ShrStepOk(a, before, i, k, s);
      }
      ShrEnd(a, pn[..], k, s);
      assert shift == 32 * k + s;
    }

    /** operator*= by a 32-bit number. */
    method MulSmall(b32: Limb)
      requires Valid()
      modifies pn
      ensures Value() == (old(Value()) * b32) % MODULUS
    {
      hide Weight, Low;
      ghost var x := Limbs();
      var carry := 0;
      LowEmpty(pn[..], x, x);
      for i := 0 to WIDTH
        invariant 0 <= carry < BASE
        invariant forall j :: i <= j < WIDTH ==> pn[j] == x[j]
        invariant Low(pn[..], i) + carry * Weight(i) == Low(x, i) * b32
      {
        ProductFits(b32, pn[i], carry, 0);
        var n := carry + b32 * pn[i];
        ScaleStep(pn[..], x, i, carry, b32, n);
        ghost var s := pn[..][i := n % BASE];
        pn[i] := n % BASE;
        assert pn[..] == s;
        carry := n / BASE;
      }
      NumBound(pn[..]);
      ModOf(Num(x) * b32, carry, Num(pn[..]));
    }

    /** operator*=: limb by limb into a fresh number, what falls off the top being lost. */
    method MulAssign(b: BaseUint)
      requires Valid() && b.Valid()
      modifies pn
      ensures Value() == (old(Value()) * old(b.Value())) % MODULUS
    {
      var a := Product(b);
      CopyFrom(a);
    }

    method CopyFrom(a: BaseUint)
      requires Valid() && a.Valid() && a.pn != pn
      modifies pn
      ensures Limbs() == a.Limbs()
    {
      for i := 0 to WIDTH
        invariant forall j :: 0 <= j < i ==> pn[j] == a.pn[j]
      {
        pn[i] := a.pn[i];
      }
    }

    /** The two loops of operator*=. */
    method Product(b: BaseUint) returns (a: BaseUint)
      requires Valid() && b.Valid()
      ensures a.Valid() && fresh(a.pn) && a.Value() == (Value() * b.Value()) % MODULUS
    {
      hide Weight, Low, Num;
      ghost var x, y := Limbs(), b.Limbs();
      a := new BaseUint(0);
      ghost var k: nat := 0;
      NoRows(x, y);
      for j := 0 to WIDTH
        invariant fresh(a.pn) && a.Valid() && Num(a.Limbs()) + k * MODULUS == Low(x, j) * Num(y)
      {
        ghost var was := a.Limbs();
        var carry := a.AddRow(pn[j], b, j);
        k := RowDone(x, y, j, was, a.Limbs(), carry, k);
      }
      AllRows(x, y, a.Limbs(), k);
    }

    /** The inner loop: adds p times b, shifted by j limbs. */
    method AddRow(p: Limb, b: BaseUint, j: nat) returns (carry: nat)
      requires Valid() && b.Valid() && j < WIDTH && b.pn != pn
      modifies pn
      ensures Value() + carry * MODULUS == old(Value()) + p * Low(b.Limbs(), WIDTH - j) * Weight(j)
    {
      hide Weight, Low;
      ghost var was, y := Limbs(), b.Limbs();
      carry := 0;
      LowEmpty(was, y, y);
      var i := 0;
      while i + j < WIDTH
        invariant 0 <= i <= WIDTH - j && carry < BASE && b.pn[..] == y
        invariant Num(pn[..]) + carry * Weight(i + j) == Num(was) + p * Low(y, i) * Weight(j)
      {
        ProductFits(p, b.pn[i], carry, pn[i + j]);
        var n := carry + pn[i + j] + p * b.pn[i];
        RowStep(pn[..], was, y, p, i, j, carry, n);
        ghost var s := pn[..][i + j := n % BASE];
        pn[i + j] := n % BASE;
        assert pn[..] == s;
        carry := n / BASE;
        i := i + 1;
      }
    }

    method Assign(b: nat)
      requires Valid() && b < BASE * BASE
      modifies pn
      ensures Value() == b
    {
      pn[0] := b % BASE;
      pn[1] := b / BASE;
      for i := 2 to WIDTH
        invariant pn[0] == b % BASE && pn[1] == b / BASE
        invariant forall j :: 2 <= j < i ==> pn[j] == 0
      {
        pn[i] := 0;
      }
      SmallNum(pn[..], b);
    }

    /** operator/=: shift-and-subtract division; dividing by zero throws. */
    method DivAssign(b: BaseUint) returns (threw: bool)
      requires Valid() && b.Valid()
      modifies pn
      ensures threw <==> old(b.Value()) == 0
      ensures !threw ==> Value() == old(Value()) / old(b.Value())
    {
      hide Weight, Low, Pow2, Or, QuotientOk;
      ghost var n, d := Value(), b.Value();
      NumBound(pn[..]);
      var div := new BaseUint.Copy(b);
      var num := new BaseUint.Copy(this);
      Assign(0);
      var numBits := num.Bits();
      var divBits := div.Bits();
      Pow2Small();
      if divBits == 0 { return true; }
      if divBits > numBits {
        Pow2Monotone(numBits, divBits - 1);
        DivModUnique(n, d, 0, n);
        return false;
      }
      var shift := numBits - divBits;
      DivisionStarts(n, d, numBits, divBits);
      div.ShiftLeft(shift);
      ZeroQuotient(pn[..], shift);
      assert n == 0 * d + n;
      while shift >= 0
        invariant -1 <= shift < 256
        invariant div.Valid() && num.Valid() && fresh(div.pn) && fresh(num.pn) && div.pn != num.pn
        invariant shift >= 0 ==> div.Value() == d * Pow2(shift) && QuotientOk(pn[..], shift)
        invariant n == Value() * d + num.Value() && num.Value() < d * Pow2(shift + 1)
      {
        DivideRound(num, div, shift, d);
        shift := shift - 1;
      }
      DivModUnique(n, d, Value(), num.Value());
      threw := false;
    }

    /** One round of the division loop; this number is the quotient so far. */
    method DivideRound(num: BaseUint, div: BaseUint, shift: nat, ghost d: nat)
      requires Valid() && num.Valid() && div.Valid() && pn != num.pn && pn != div.pn && num.pn != div.pn
      requires shift < 256 && QuotientOk(pn[..], shift)
      requires div.Value() == d * Pow2(shift) && num.Value() < d * Pow2(shift + 1)
      modifies pn, num.pn, div.pn
      ensures shift > 0 ==> div.Value() == d * Pow2(shift - 1) && QuotientOk(pn[..], shift - 1)
      ensures Value() * d + num.Value() == old(Value() * d + num.Value())
      ensures num.Value() < d * Pow2(shift)
    {
      hide Weight, Low, Pow2, Or, QuotientOk;
      ghost var q: Limbs := pn[..];
      ghost var r := num.Value();
      SetBit(q, shift);
      QuotientNext(q, shift);
      DivisionStep(Num(q), d, r, shift);
      HalfShifted(d, shift);
      var order := num.CompareTo(div);
      if order >= 0 {
        NumBound(num.pn[..]);
        SmallMod(r - d * Pow2(shift));
        num.SubAssign(div);
        pn[shift / 32] := Or(pn[shift / 32], Pow2(shift % 32));
        assert pn[..] == q[shift / 32 := q[shift / 32] + Pow2(shift % 32)];
      }
      div.ShiftRight(1);
    }
  }

  lemma SmallNum(s: Limbs, b: nat)
    requires b < BASE * BASE && s == [b % BASE, b / BASE, 0, 0, 0, 0, 0, 0]
    ensures Num(s) == b
  {
    hide Weight, Low;
    WeightStep(0);
    var z: Limbs := [0, 0, 0, 0, 0, 0, 0, 0];
    LowZero(z, WIDTH);
    LowUpdate(z, 0, b % BASE, WIDTH);
    LowUpdate(z[0 := b % BASE], 1, b / BASE, WIDTH);
    assert s == z[0 := b % BASE][1 := b / BASE];
  }

  // ---------------------------------------------------------------------------
  // The loop bodies
  // ---------------------------------------------------------------------------

  lemma LowEmpty(s: seq<Limb>, x: seq<Limb>, y: seq<Limb>)
    ensures Low(s, 0) == Low(x, 0) == Low(y, 0) == 0 && Weight(0) == 1
  {
    WeightStep(0);
  }

  lemma ModOf(x: int, carry: int, v: nat)
    requires x == v + carry * MODULUS && v < MODULUS
    ensures x % MODULUS == v
  {
    DivModUnique(x, MODULUS, carry, v);
  }

  lemma SubMod(v: int, w: int)
    requires 0 <= w < MODULUS
    ensures (v + (MODULUS - w) % MODULUS) % MODULUS == (v - w) % MODULUS
  {
    hide Weight;
    var m := MODULUS;
    if w == 0 {
      DivModUnique(m, m, 1, 0);
    } else {
      DivModUnique(m - w, m, 0, m - w);
      var q, r := (v - w) / m, (v - w) % m;
      DivModUnique(v + (m - w), m, q + 1, r);
    }
  }

  lemma LowLast(s: seq<Limb>, i: nat, x: Limb)
    requires i < |s|
    ensures Low(s[i := x], i + 1) == Low(s, i) + x * Weight(i)
    ensures Low(s, i + 1) == Low(s, i) + s[i] * Weight(i)
  {
    LowSame(s[i := x], s, i);
  }

  lemma AddStep(s: Limbs, x: Limbs, y: Limbs, i: nat, c: nat)
    requires i < WIDTH && Low(s, i) + c * Weight(i) == Low(x, i) + Low(y, i)
    ensures var n := c + x[i] + y[i];
            Low(s[i := n % BASE], i + 1) + (n / BASE) * Weight(i + 1) == Low(x, i + 1) + Low(y, i + 1)
  {
    hide Weight, Low;
    var n := c + x[i] + y[i];
    LowLast(s, i, n % BASE);
    LowLast(x, i, x[i]);
    LowLast(y, i, y[i]);
    WeightStep(i);
    CarryStep(n, c, x[i], y[i], Weight(i));
  }

  lemma CarryStep(n: nat, c: nat, x: nat, y: nat, w: nat)
    requires n == c + x + y
    ensures (n % BASE) * w + (n / BASE) * (BASE * w) == c * w + x * w + y * w
  {
    var q, r := n / BASE, n % BASE;
    assert r * w + q * (BASE * w) == (r + q * BASE) * w;
    assert r + q * BASE == c + x + y;
    assert (c + x + y) * w == c * w + x * w + y * w;
  }

  lemma ComplementStep(t: Limbs, s: Limbs, i: nat)
    requires i < WIDTH && Low(t, i) == Weight(i) - 1 - Low(s, i)
    ensures Low(t[i := BASE - 1 - s[i]], i + 1) == Weight(i + 1) - 1 - Low(s, i + 1)
  {
    hide Weight, Low;
    LowLast(t, i, BASE - 1 - s[i]);
    LowLast(s, i, s[i]);
    WeightStep(i);
    var w := Weight(i);
    assert (BASE - 1 - s[i]) * w == BASE * w - w - s[i] * w;
  }

  /** The limbs above an agreeing point contribute the same. */
  lemma {:induction false} TailSame(s: seq<Limb>, t: seq<Limb>, i: nat, n: nat)
    requires i <= n <= |s| && n <= |t| && forall j :: i <= j < n ==> s[j] == t[j]
    ensures Low(s, n) - Low(s, i) == Low(t, n) - Low(t, i)
    decreases n
  {
    if i < n { TailSame(s, t, i, n - 1); }
  }

  lemma IncrementStep(s: Limbs, x: Limbs, i: nat)
    requires i < WIDTH && (forall j :: i <= j < WIDTH ==> s[j] == x[j])
    requires Low(s, i) == 0 && Low(x, i) == Weight(i) - 1
    ensures var t := s[i := (s[i] + 1) % BASE];
            if s[i] + 1 < BASE then Num(t) == Num(x) + 1
            else Low(t, i + 1) == 0 && Low(x, i + 1) == Weight(i + 1) - 1
  {
    hide Weight, Low;
    var t := s[i := (s[i] + 1) % BASE];
    LowLast(s, i, (s[i] + 1) % BASE);
    LowLast(x, i, x[i]);
    WeightStep(i);
    TailSame(t, x, i + 1, WIDTH);
    var w, l: int := Weight(i), s[i];
    assert (l + 1) * w == l * w + w;
  }

  lemma TopLimbDecides(s: Limbs, t: Limbs, i: nat)
    requires i < WIDTH && s[i] < t[i] && forall j :: i < j < WIDTH ==> s[j] == t[j]
    ensures Num(s) < Num(t)
  {
    hide Weight, Low;
    TailSame(s, t, i + 1, WIDTH);
    LowLast(s, i, s[i]);
    LowLast(t, i, t[i]);
    LowBound(s, i);
    LowBound(t, i);
    MulMonotone(s[i] + 1, t[i], Weight(i));
    assert (s[i] + 1) * Weight(i) == s[i] * Weight(i) + Weight(i);
  }

  lemma LimbNonZero(s: Limbs, i: nat)
    requires i < WIDTH && s[i] != 0
    ensures Num(s) > 0
  {
    hide Weight, Low;
    LowUpdate(s, i, 0, WIDTH);
    MulMonotone(1, s[i], Weight(i));
    assert (0 - s[i]) * Weight(i) == -(s[i] * Weight(i));
  }

  lemma Pow2Small()
    ensures Pow2(0) == 1 && Pow2(1) == 2
  {
  }

  /** Testing bit `n` of a number that has no higher bit. */
  lemma {:induction false} BitTest(x: nat, n: nat)
    requires x < Pow2(n + 1)
    ensures And(x, Pow2(n)) != 0 <==> x >= Pow2(n)
    decreases n
  {
    if n > 0 {
      BitTest(x / 2, n - 1);
      assert Pow2(n) / 2 == Pow2(n - 1) && Pow2(n) % 2 == 0;
      assert And(x, Pow2(n)) == if x == 0 then 0 else 2 * And(x / 2, Pow2(n - 1));
    }
  }

  lemma TopBit(s: Limbs, pos: nat, nb: nat)
    requires pos < WIDTH && (forall j :: pos < j < WIDTH ==> s[j] == 0)
    requires Pow2(nb) <= s[pos] < Pow2(nb + 1)
    ensures Pow2(32 * pos + nb) <= Num(s) < Pow2(32 * pos + nb + 1)
  {
    hide Pow2, Low;
    var w := Weight(pos);
    Pow2Add(nb, 32 * pos);
    Pow2Add(nb + 1, 32 * pos);
    HighZero(s, pos + 1);
    LowLast(s, pos, s[pos]);
    LowBound(s, pos);
    hide Weight;
    BetweenProducts(Pow2(nb), s[pos], Pow2(nb + 1), w, Low(s, pos));
  }

  lemma BetweenProducts(x: nat, y: nat, z: nat, w: nat, low: nat)
    requires x <= y < z && low < w
    ensures x * w <= low + y * w < z * w
  {
    MulMonotone(x, y, w);
    MulMonotone(y + 1, z, w);
  }

  lemma HighZero(s: Limbs, n: nat)
    requires n <= WIDTH && forall j :: n <= j < WIDTH ==> s[j] == 0
    ensures Num(s) == Low(s, n)
  {
    hide Weight, Low;
    var t := seq(WIDTH, i requires 0 <= i < WIDTH => if i < n then s[i] else 0);
    var z: Limbs := [0, 0, 0, 0, 0, 0, 0, 0];
    TailSame(s, z, n, WIDTH);
    LowZero(z, n);
    LowZero(z, WIDTH);
  }

  // Left shift -----------------------------------------------------------------

  /** `x >> n` and `x << n` on a 32-bit word. */
  function Shr(x: nat, n: nat): (r: nat) { DivNonNegative(x, Pow2(n)); x / Pow2(n) }

  function Shl32(x: nat, n: nat): (r: Limb) { MulNonNegative(x, Pow2(n)); (x * Pow2(n)) % BASE }

  /** One round of the left-shift loop, with its two `|=`. */
  function ShlStep(a: Limbs, t: Limbs, i: nat, k: nat, s: nat): (r: Limbs)
    requires i < WIDTH && s < 32
    requires i + k + 1 < WIDTH && s != 0 ==> Or(t[i + k + 1], Shr(a[i], 32 - s)) < BASE
    requires i + k < WIDTH ==> Or(t[i + k], Shl32(a[i], s)) < BASE
  {
    var t1: Limbs := if i + k + 1 < WIDTH && s != 0 then t[i + k + 1 := Or(t[i + k + 1], Shr(a[i], 32 - s))] else t;
    if i + k < WIDTH then t1[i + k := Or(t[i + k], Shl32(a[i], s))] else t1
  }

  ghost predicate ShlInv(a: Limbs, t: Limbs, i: nat, k: nat, s: nat)
    requires i <= WIDTH
  {
    && (forall j :: i + k < j < WIDTH ==> t[j] == 0)
    && (i + k < WIDTH ==> t[i + k] < Pow2(s))
    && (Low(a, i) * Pow2(32 * k + s)) % MODULUS == Num(t)
  }

  lemma SplitAlgebra(x: nat, p: nat, q: nat)
    requires 0 < p && 0 < q && p * q == BASE && x < BASE
    ensures x * p == (x / q) * BASE + (x % q) * p && (x % q) * p < BASE && x / q < p
  {
    var hi, r := x / q, x % q;
    assert x == q * hi + r;
    assert (q * hi + r) * p == hi * (p * q) + r * p;
    MulMonotone(r + 1, q, p);
    if hi >= p { MulMonotone(p, hi, q); }
  }

  /** A limb shifted left splits into the part that stays and the part that moves up. */
  lemma SplitLimb(x: Limb, s: nat)
    requires s < 32
    ensures x * Pow2(s) == Shr(x, 32 - s) * BASE + Shl32(x, s)
    ensures Shr(x, 32 - s) < Pow2(s) && Shl32(x, s) % Pow2(s) == 0
  {
    hide Pow2;
    var p, q := Pow2(s), Pow2(32 - s);
    Base();
    Pow2Add(s, 32 - s);
    SplitAlgebra(x, p, q);
    MulNonNegative(x % q, p);
    DivModUnique(x * p, BASE, x / q, (x % q) * p);
    MulMod(p, x % q);
  }

  lemma RoomAlgebra(lo: nat, p: nat, q: nat)
    requires 0 < p && p * q == BASE && lo < BASE && lo % p == 0
    ensures lo + p <= BASE
  {
    var m := lo / p;
    assert lo == p * m;
    if m >= q { MulMonotone(q, m, p); }
    MulMonotone(m + 1, q, p);
  }

  /** A multiple of 2^s below 2^32 leaves room for one more number below 2^s. */
  lemma RoomBelow(lo: nat, s: nat)
    requires s <= 32 && lo < BASE && lo % Pow2(s) == 0
    ensures lo + Pow2(s) <= BASE
  {
    hide Pow2;
    Base();
    Pow2Add(s, 32 - s);
    RoomAlgebra(lo, Pow2(s), Pow2(32 - s));
  }

  /** Both `|=` of a round add up: the bits do not overlap. */
  lemma ShlParts(a: Limbs, t: Limbs, i: nat, k: nat, s: nat)
    requires i < WIDTH && s < 32 && ShlInv(a, t, i, k, s)
    ensures i + k + 1 < WIDTH ==> Or(t[i + k + 1], Shr(a[i], 32 - s)) == Shr(a[i], 32 - s) < Pow2(s)
    ensures i + k < WIDTH ==>
              Or(t[i + k], Shl32(a[i], s)) == t[i + k] + Shl32(a[i], s) < BASE
    ensures Pow2(s) <= BASE
  {
    hide Pow2, Or, Low, Weight, Shr, Shl32;
    SplitLimb(a[i], s);
    var hi, lo := Shr(a[i], 32 - s), Shl32(a[i], s);
    RoomBelow(lo, s);
    if i + k + 1 < WIDTH {
      OrCommutes(0, hi);
      OrZero(hi);
    }
    if i + k < WIDTH {
      OrCommutes(t[i + k], lo);
      OrIsSum(lo, t[i + k], s);
    }
  }

  lemma ShlStart(a: Limbs, t: Limbs, k: nat, s: nat)
    requires forall j :: 0 <= j < WIDTH ==> t[j] == 0
    ensures ShlInv(a, t, 0, k, s)
  {
    hide Pow2, Weight;
    LowZero(t, WIDTH);
    assert 0 * Pow2(32 * k + s) == 0;
    ModOf(0, 0, 0);
  }

  lemma ModAdd(x: nat, d: nat, m: nat)
    requires m > 0
    ensures (x + d) % m == (x % m + d) % m
  {
    var q, r := x / m, x % m;
    var q', r' := (r + d) / m, (r + d) % m;
    assert x + d == m * (q + q') + r' by { assert m * (q + q') == m * q + m * q'; }
    DivModUnique(x + d, m, q + q', r');
  }

  /** What a round adds to the shifted number, by how much of it falls off the top. */
  lemma ShlAdds(a: Limbs, i: nat, k: nat, s: nat)
    requires i < WIDTH && s < 32
    ensures var hi, lo := Shr(a[i], 32 - s), Shl32(a[i], s);
            Low(a, i + 1) * Pow2(32 * k + s) ==
            Low(a, i) * Pow2(32 * k + s) + hi * Weight(i + k + 1) + lo * Weight(i + k)
  {
    hide Pow2, Low, Shr, Shl32;
    SplitLimb(a[i], s);
    LowLast(a, i, a[i]);
    Pow2Add(32 * k, s);
    Pow2Add(32 * i, 32 * k);
    WeightStep(i + k);
    var hi, lo := Shr(a[i], 32 - s), Shl32(a[i], s);
    assert 32 * (i + k) == 32 * i + 32 * k;
    hide Weight;
    ShlAlgebra(Low(a, i), a[i], Weight(i), Weight(k), Pow2(s), hi, lo);
  }

  lemma ShlAlgebra(low: nat, x: nat, wi: nat, wk: nat, p: nat, hi: nat, lo: nat)
    requires x * p == hi * BASE + lo
    ensures (low + x * wi) * (wk * p) == low * (wk * p) + hi * (BASE * (wi * wk)) + lo * (wi * wk)
  {
    var w := wi * wk;
    assert (x * wi) * (wk * p) == (x * p) * w;
    assert (hi * BASE + lo) * w == hi * (BASE * w) + lo * w;
    assert (low + x * wi) * (wk * p) == low * (wk * p) + (x * wi) * (wk * p);
  }

  lemma ShlStepOk(a: Limbs, t: Limbs, i: nat, k: nat, s: nat)
    requires i < WIDTH && s < 32 && ShlInv(a, t, i, k, s)
    requires i + k + 1 < WIDTH && s != 0 ==> Or(t[i + k + 1], Shr(a[i], 32 - s)) < BASE
    requires i + k < WIDTH ==> Or(t[i + k], Shl32(a[i], s)) < BASE
    ensures ShlInv(a, ShlStep(a, t, i, k, s), i + 1, k, s)
  {
    hide Low, Weight, Pow2, Or, Shr, Shl32;
    ShlParts(a, t, i, k, s);
    ShlAdds(a, i, k, s);
    ShlValue(a, t, i, k, s);
    var r := ShlStep(a, t, i, k, s);
    NumBound(r);
    var hi, lo := Shr(a[i], 32 - s), Shl32(a[i], s);
    ModAdd(Low(a, i) * Pow2(32 * k + s), hi * Weight(i + k + 1) + lo * Weight(i + k), MODULUS);
  }

  /** The new limbs hold the sum, less what falls off the top. */
  lemma ShlValue(a: Limbs, t: Limbs, i: nat, k: nat, s: nat)
    requires i < WIDTH && s < 32 && ShlInv(a, t, i, k, s)
    requires i + k + 1 < WIDTH && s != 0 ==> Or(t[i + k + 1], Shr(a[i], 32 - s)) < BASE
    requires i + k < WIDTH ==> Or(t[i + k], Shl32(a[i], s)) < BASE
    ensures var hi, lo := Shr(a[i], 32 - s), Shl32(a[i], s);
            Num(ShlStep(a, t, i, k, s)) == (Num(t) + (hi * Weight(i + k + 1) + lo * Weight(i + k))) % MODULUS
  {
    hide Low, Weight, Pow2, Or, Shr, Shl32;
    var hi, lo := Shr(a[i], 32 - s), Shl32(a[i], s);
    var r := ShlStep(a, t, i, k, s);
    ShlParts(a, t, i, k, s);
    SplitLimb(a[i], s);
    NumBound(t);
    NumBound(r);
    Pow2Small();
    if i + k + 1 < WIDTH {
      LowUpdate(t, i + k + 1, hi, WIDTH);
      LowUpdate(t[i + k + 1 := hi], i + k, t[i + k] + lo, WIDTH);
      assert t[i + k + 1 := hi][i + k := t[i + k] + lo] == r;
      ModOf(Num(r), 0, Num(r));
    } else if i + k + 1 == WIDTH {
      LowUpdate(t, i + k, t[i + k] + lo, WIDTH);
      ModOf(Num(r) + hi * MODULUS, hi, Num(r));
    } else {
      var e := WeightFactor(i + k, hi, lo);
      ModOf(Num(t) + e * MODULUS, e, Num(t));
    }
  }

  lemma WeightFactor(j: nat, hi: nat, lo: nat) returns (e: nat)
    requires j >= WIDTH
    ensures hi * Weight(j + 1) + lo * Weight(j) == e * MODULUS
  {
    hide Pow2;
    WeightStep(j);
    Pow2Add(32 * (j - WIDTH), 32 * WIDTH);
    assert 32 * j == 32 * (j - WIDTH) + 32 * WIDTH;
    var f := Weight(j - WIDTH);
    e := (hi * BASE + lo) * f;
    FactorAlgebra(hi, lo, f, MODULUS);
  }

  lemma FactorAlgebra(hi: nat, lo: nat, f: nat, m: nat)
    ensures hi * (BASE * (f * m)) + lo * (f * m) == ((hi * BASE + lo) * f) * m
  {
    var w := f * m;
    assert hi * (BASE * w) + lo * w == (hi * BASE + lo) * w;
  }

  lemma ShlEnd(a: Limbs, t: Limbs, k: nat, s: nat)
    requires ShlInv(a, t, WIDTH, k, s)
    ensures Num(t) == Num(a) * Pow2(32 * k + s) % MODULUS
  {
  }

  // Right shift ----------------------------------------------------------------

  function ShrStep(a: Limbs, t: Limbs, i: nat, k: nat, s: nat): (r: Limbs)
    requires i < WIDTH && s < 32
    requires i - k - 1 >= 0 && s != 0 ==> Or(t[i - k - 1], Shl32(a[i], 32 - s)) < BASE
    requires i - k >= 0 ==> Or(t[i - k], Shr(a[i], s)) < BASE
  {
    var t1: Limbs := if i - k - 1 >= 0 && s != 0 then t[i - k - 1 := Or(t[i - k - 1], Shl32(a[i], 32 - s))] else t;
    if i - k >= 0 then t1[i - k := Or(t[i - k], Shr(a[i], s))] else t1
  }

  ghost predicate ShrInv(a: Limbs, t: Limbs, i: nat, k: nat, s: nat)
    requires i <= WIDTH && s < 32
  {
    && (forall j :: 0 <= j < WIDTH && i - k <= j ==> t[j] == 0)
    && (0 <= i - 1 - k ==> t[i - 1 - k] < Pow2(32 - s))
    && Num(t) == Low(a, i) / Pow2(32 * k + s)
  }

  lemma ShrStart(a: Limbs, t: Limbs, k: nat, s: nat)
    requires s < 32 && forall j :: 0 <= j < WIDTH ==> t[j] == 0
    ensures ShrInv(a, t, 0, k, s)
  {
    hide Pow2, Weight;
    LowZero(t, WIDTH);
    DivNonNegative(0, Pow2(32 * k + s));
  }

  lemma ShrBound(x: Limb, s: nat)
    requires s < 32
    ensures Shr(x, s) < Pow2(32 - s) && Shr(x, s) < BASE
  {
    hide Pow2;
    var p, q := Pow2(32 - s), Pow2(s);
    Base();
    Pow2Add(s, 32 - s);
    DivNonNegative(x, q);
    if x / q >= p { MulMonotone(p, x / q, q); }
  }

  /** Both `|=` of a round add up. */
  lemma ShrParts(a: Limbs, t: Limbs, i: nat, k: nat, s: nat)
    requires i < WIDTH && s < 32 && ShrInv(a, t, i, k, s)
    ensures 0 <= i - k - 1 && s != 0 ==>
              Or(t[i - k - 1], Shl32(a[i], 32 - s)) == t[i - k - 1] + Shl32(a[i], 32 - s) < BASE
    ensures 0 <= i - k ==> Or(t[i - k], Shr(a[i], s)) == Shr(a[i], s) < Pow2(32 - s)
    ensures Shr(a[i], s) < BASE
  {
    hide Pow2, Or, Low, Weight, Shr, Shl32;
    ShrBound(a[i], s);
    if 0 <= i - k {
      OrCommutes(0, Shr(a[i], s));
      OrZero(Shr(a[i], s));
    }
    if 0 <= i - k - 1 && s != 0 {
      var lo := Shl32(a[i], 32 - s);
      SplitLimb(a[i], 32 - s);
      RoomBelow(lo, 32 - s);
      OrCommutes(t[i - k - 1], lo);
      OrIsSum(lo, t[i - k - 1], 32 - s);
    }
  }

  lemma {:induction false} Pow2Monotone(m: nat, n: nat)
    requires m <= n
    ensures Pow2(m) <= Pow2(n)
    decreases n
  {
    if m < n { Pow2Monotone(m, n - 1); }
  }

  /** Below the shift, nothing has reached the result yet. */
  lemma ShrNothingYet(a: Limbs, n: nat, k: nat, s: nat)
    requires n <= k && n <= WIDTH
    ensures Low(a, n) / Pow2(32 * k + s) == 0
  {
    hide Pow2, Low;
    LowBound(a, n);
    Pow2Monotone(32 * n, 32 * k + s);
    DivModUnique(Low(a, n), Pow2(32 * k + s), 0, Low(a, n));
  }

  lemma FirstLimbAlgebra(low: nat, x: nat, w: nat, p: nat)
    requires low < w && p > 0
    ensures (low + x * w) / (w * p) == x / p
  {
    var q, r := x / p, x % p;
    MulMonotone(r + 1, p, w);
    MulNonNegative(r, w);
    MulMonotone(1, p, w);
    assert low + x * w == (w * p) * q + (low + r * w) by {
      assert x == p * q + r;
      assert (p * q + r) * w == (w * p) * q + r * w;
    }
    DivModUnique(low + x * w, w * p, q, low + r * w);
  }

  lemma AddMultiple(low: nat, e: nat, f: nat)
    requires f > 0
    ensures (low + e * f) / f == low / f + e
  {
    var q, r := low / f, low % f;
    assert f * (q + e) == f * q + e * f;
    DivModUnique(low + e * f, f, q + e, r);
  }

  lemma ShrFirst(a: Limbs, k: nat, s: nat)
    requires k < WIDTH
    ensures Low(a, k + 1) / Pow2(32 * k + s) == Shr(a[k], s)
  {
    hide Pow2, Low;
    LowLast(a, k, a[k]);
    LowBound(a, k);
    Pow2Add(32 * k, s);
    FirstLimbAlgebra(Low(a, k), a[k], Weight(k), Pow2(s));
  }

  /** A limb above the shift arrives split over two limbs of the result. */
  lemma ShrLater(a: Limbs, i: nat, k: nat, s: nat)
    requires k < i < WIDTH && s < 32
    ensures Low(a, i + 1) / Pow2(32 * k + s) ==
            Low(a, i) / Pow2(32 * k + s) + Shr(a[i], s) * Weight(i - k) +
            (if s == 0 then 0 else Shl32(a[i], 32 - s) * Weight(i - k - 1))
  {
    hide Pow2, Low, Shl32, Weight;
    var w, f := Weight(i - k - 1), Pow2(32 * k + s);
    var e := a[i] * Pow2(32 - s);
    LowLast(a, i, a[i]);
    ShrFactor(a[i], i, k, s);
    MulNonNegative(a[i], Pow2(32 - s));
    MulNonNegative(e, w);
    AddMultiple(Low(a, i), e * w, f);
    ShrSpread(a[i], i - k - 1, s);
  }

  lemma ShrFactor(x: Limb, i: nat, k: nat, s: nat)
    requires k < i && s < 32
    ensures x * Weight(i) == ((x * Pow2(32 - s)) * Weight(i - k - 1)) * Pow2(32 * k + s)
  {
    hide Pow2;
    var j := i - k - 1;
    Base();
    Pow2Add(s, 32 - s);
    Pow2Add(32 * k, s);
    Pow2Add(32 * k, 32);
    Pow2Add(32 * (k + 1), 32 * j);
    assert 32 * i == 32 * (k + 1) + 32 * j;
    ShiftAlgebra(x, Pow2(s), Pow2(32 - s), Weight(j), Weight(k), Pow2(32 * k + s), Weight(i));
  }

  lemma ShrSpread(x: Limb, j: nat, s: nat)
    requires s < 32
    ensures (x * Pow2(32 - s)) * Weight(j) ==
            Shr(x, s) * Weight(j + 1) + (if s == 0 then 0 else Shl32(x, 32 - s) * Weight(j))
  {
    hide Pow2, Shl32, Weight;
    WeightStep(j);
    var w := Weight(j);
    if s == 0 {
      Base();
      Pow2Small();
      assert (x * BASE) * w == x * (BASE * w);
      assert x / 1 == x;
    } else {
      SplitLimb(x, 32 - s);
      SpreadAlgebra(Shr(x, s), Shl32(x, 32 - s), w);
    }
  }

  lemma SpreadAlgebra(hi: nat, lo: nat, w: nat)
    ensures (hi * BASE + lo) * w == hi * (BASE * w) + lo * w
  {
  }

  lemma ShiftAlgebra(x: nat, p: nat, q: nat, w: nat, wk: nat, f: nat, wi: nat)
    requires f == wk * p && p * q == BASE && wi == (wk * BASE) * w
    ensures x * wi == ((x * q) * w) * f
  {
    assert ((x * q) * w) * (wk * p) == x * ((wk * (p * q)) * w);
  }

  lemma ShrStepOk(a: Limbs, t: Limbs, i: nat, k: nat, s: nat)
    requires i < WIDTH && s < 32 && ShrInv(a, t, i, k, s)
    requires i - k - 1 >= 0 && s != 0 ==> Or(t[i - k - 1], Shl32(a[i], 32 - s)) < BASE
    requires i - k >= 0 ==> Or(t[i - k], Shr(a[i], s)) < BASE
    ensures ShrInv(a, ShrStep(a, t, i, k, s), i + 1, k, s)
  {
    hide Low, Weight, Pow2, Or, Shr, Shl32;
    ShrParts(a, t, i, k, s);
    if i < k {
      ShrNothingYet(a, i, k, s);
      ShrNothingYet(a, i + 1, k, s);
    } else {
      var hi := Shr(a[i], s);
      if i == k {
        ShrNothingYet(a, i, k, s);
        ShrFirst(a, k, s);
        WeightStep(0);
        LowUpdate(t, 0, hi, WIDTH);
      } else {
        ShrLater(a, i, k, s);
        var j := i - k - 1;
        var t1: Limbs := if s == 0 then t else t[j := t[j] + Shl32(a[i], 32 - s)];
        if s != 0 { LowUpdate(t, j, t[j] + Shl32(a[i], 32 - s), WIDTH); }
        LowUpdate(t1, j + 1, hi, WIDTH);
      }
    }
  }

  lemma ShrEnd(a: Limbs, t: Limbs, k: nat, s: nat)
    requires s < 32 && ShrInv(a, t, WIDTH, k, s)
    ensures Num(t) == Num(a) / Pow2(32 * k + s)
  {
  }

  // ---------------------------------------------------------------------------
  // Multiplication
  // ---------------------------------------------------------------------------

  /** A product of limbs, a limb and a carry fit in 64 bits, and the next carry in 32. */
  lemma ProductFits(p: Limb, x: Limb, carry: nat, a: Limb)
    requires carry < BASE
    ensures 0 <= carry + a + p * x < BASE * BASE && (carry + a + p * x) / BASE < BASE
  {
    MulMonotone(p, BASE - 1, x);
    MulMonotone(x, BASE - 1, BASE - 1);
    MulNonNegative(p, x);
    var n := carry + a + p * x;
    assert n < BASE * BASE;
  }

  lemma ScaleStep(s: Limbs, x: Limbs, i: nat, c: nat, b: Limb, n: nat)
    requires i < WIDTH && Low(s, i) + c * Weight(i) == Low(x, i) * b && n == c + b * x[i]
    ensures Low(s[i := n % BASE], i + 1) + (n / BASE) * Weight(i + 1) == Low(x, i + 1) * b
  {
    hide Weight, Low;
    LowLast(s, i, n % BASE);
    LowLast(x, i, x[i]);
    WeightStep(i);
    ScaleAlgebra(n / BASE, n % BASE, c, b, x[i], Weight(i), Low(x, i));
  }

  lemma ScaleAlgebra(q: nat, r: nat, c: nat, b: nat, x: nat, w: nat, low: nat)
    requires BASE * q + r == c + b * x
    ensures r * w + q * (BASE * w) == c * w + (x * w) * b && (low + x * w) * b == low * b + (x * w) * b
  {
    assert r * w + q * (BASE * w) == (BASE * q + r) * w;
    assert (c + b * x) * w == c * w + (x * w) * b;
  }

  lemma WeightProduct(i: nat, j: nat)
    ensures Weight(i) * Weight(j) == Weight(i + j)
  {
    Pow2Add(32 * i, 32 * j);
    assert 32 * (i + j) == 32 * i + 32 * j;
  }

  lemma RowStep(s: Limbs, was: Limbs, y: Limbs, p: Limb, i: nat, j: nat, c: nat, n: nat)
    requires i + j < WIDTH && n == c + s[i + j] + p * y[i]
    requires Num(s) + c * Weight(i + j) == Num(was) + p * Low(y, i) * Weight(j)
    ensures Num(s[i + j := n % BASE]) + (n / BASE) * Weight(i + 1 + j) == Num(was) + p * Low(y, i + 1) * Weight(j)
  {
    hide Weight, Low;
    LowUpdate(s, i + j, n % BASE, WIDTH);
    LowLast(y, i, y[i]);
    WeightStep(i + j);
    WeightProduct(i, j);
    RowAlgebra(n / BASE, n % BASE, c, s[i + j], p, y[i], Weight(i), Weight(j), Low(y, i));
  }

  lemma RowAlgebra(q: nat, r: nat, c: nat, a: nat, p: nat, y: nat, w: nat, v: nat, low: nat)
    requires BASE * q + r == c + a + p * y
    ensures (r - a) * (w * v) + q * (BASE * (w * v)) == c * (w * v) + p * y * (w * v)
    ensures p * (low + y * w) * v == p * low * v + p * y * (w * v)
  {
    var z := w * v;
    assert (r - a) * z + q * (BASE * z) == (BASE * q + r - a) * z;
    assert (c + p * y) * z == c * z + p * y * z;
    assert p * (low + y * w) == p * low + p * (y * w);
    assert p * (y * w) * v == p * y * z;
    assert (p * low + p * (y * w)) * v == p * low * v + p * (y * w) * v;
  }

  /** What the limbs from `m` on stand for. */
  lemma {:induction false} HighPart(y: Limbs, m: nat, n: nat) returns (h: nat)
    requires m <= n <= WIDTH
    ensures Low(y, n) == Low(y, m) + h * Weight(m)
    decreases n
  {
    hide Weight, Low;
    if n == m {
      h := 0;
    } else {
      var g := HighPart(y, m, n - 1);
      LowLast(y, n - 1, y[n - 1]);
      WeightProduct(n - 1 - m, m);
      h := g + y[n - 1] * Weight(n - 1 - m);
      HighAlgebra(g, y[n - 1], Weight(n - 1 - m), Weight(m));
    }
  }

  lemma HighAlgebra(g: nat, x: nat, u: nat, w: nat)
    ensures x * u >= 0 && (g + x * u) * w == g * w + x * (u * w)
  {
    MulNonNegative(x, u);
  }

  lemma NoRows(x: Limbs, y: Limbs)
    ensures Low(x, 0) * Num(y) == 0
  {
  }

  lemma AllRows(x: Limbs, y: Limbs, a: Limbs, k: nat)
    requires Num(a) + k * MODULUS == Low(x, WIDTH) * Num(y)
    ensures Num(a) == (Num(x) * Num(y)) % MODULUS
  {
    hide Weight, Low;
    NumBound(a);
    ModOf(Num(x) * Num(y), k, Num(a));
  }

  /** After a row the product of one limb more is held, up to multiples of 2^256. */
  lemma RowDone(x: Limbs, y: Limbs, j: nat, was: Limbs, now: Limbs, carry: nat, k: nat) returns (k': nat)
    requires j < WIDTH && Num(was) + k * MODULUS == Low(x, j) * Num(y)
    requires Num(now) + carry * MODULUS == Num(was) + x[j] * Low(y, WIDTH - j) * Weight(j)
    ensures Num(now) + k' * MODULUS == Low(x, j + 1) * Num(y)
  {
    hide Weight, Low;
    var h := HighPart(y, WIDTH - j, WIDTH);
    LowLast(x, j, x[j]);
    WeightProduct(WIDTH - j, j);
    MulNonNegative(x[j], h);
    k' := k + carry + x[j] * h;
    DoneAlgebra(Low(x, j), x[j], Weight(j), Low(y, WIDTH - j), h, Weight(WIDTH - j), MODULUS, Num(y), k, carry, x[j] * h);
  }

  lemma DoneAlgebra(lowX: nat, p: nat, w: nat, lowY: nat, h: nat, u: nat, m: nat, num: nat, k: nat, carry: nat, ph: nat)
    requires u * w == m && num == lowY + h * u && ph == p * h
    ensures (lowX + p * w) * num == lowX * num + p * lowY * w + ph * m
    ensures (k + carry + ph) * m == k * m + carry * m + ph * m
  {
    assert (lowX + p * w) * num == lowX * num + (p * w) * num;
    assert (p * w) * (lowY + h * u) == (p * w) * lowY + (p * w) * (h * u);
    assert (p * w) * lowY == p * lowY * w;
    assert (p * w) * (h * u) == (p * h) * (u * w);
  }

  /** All quotient bits at or below `shift` are still clear. */
  ghost predicate QuotientOk(q: Limbs, shift: nat)
    requires shift < 256
  {
    q[shift / 32] % Pow2(shift % 32 + 1) == 0 && forall j :: 0 <= j < shift / 32 ==> q[j] == 0
  }

  lemma ZeroQuotient(q: Limbs, shift: nat)
    requires shift < 256 && Num(q) == 0
    ensures QuotientOk(q, shift)
  {
    hide Weight, Low, Pow2;
    forall j | 0 <= j < WIDTH ensures q[j] == 0 {
      if q[j] != 0 { LimbNonZero(q, j); }
    }
    DivModUnique(0, Pow2(shift % 32 + 1), 0, 0);
  }

  /** The aligned divisor fits in 256 bits and is more than half of the number. */
  lemma DivisionStarts(n: nat, d: nat, numBits: nat, divBits: nat)
    requires 0 < divBits <= numBits <= 256
    requires n < Pow2(numBits) && Pow2(divBits - 1) <= d < Pow2(divBits)
    ensures var shift := numBits - divBits;
            d * Pow2(shift) % MODULUS == d * Pow2(shift) && n < d * Pow2(shift + 1)
  {
    hide Pow2;
    var shift := numBits - divBits;
    Pow2Add(divBits, shift);
    Pow2Add(divBits - 1, shift + 1);
    Pow2Monotone(numBits, 256);
    ShiftedBounds(n, d, Pow2(divBits), Pow2(divBits - 1), Pow2(shift), Pow2(shift + 1), Pow2(numBits));
    SmallMod(d * Pow2(shift));
  }

  lemma ShiftedBounds(n: nat, d: nat, p: nat, h: nat, s: nat, t: nat, top: nat)
    requires n < top == p * s == h * t && h <= d < p && s > 0
    ensures 0 <= d * s < top && n < d * t
  {
    MulMonotone(d + 1, p, s);
    assert (d + 1) * s == d * s + s;
    MulMonotone(h, d, t);
  }

  lemma SmallMod(x: int)
    requires 0 <= x < MODULUS
    ensures x % MODULUS == x
  {
    hide Weight;
    DivModUnique(x, MODULUS, 0, x);
  }

  /** Setting the quotient bit at `shift` adds 2^shift. */
  lemma SetBit(q: Limbs, shift: nat)
    requires shift < 256 && QuotientOk(q, shift)
    ensures var j, b := shift / 32, shift % 32;
            && Or(q[j], Pow2(b)) == q[j] + Pow2(b) < BASE
            && Num(q[j := q[j] + Pow2(b)]) == Num(q) + Pow2(shift)
  {
    hide Pow2, Or, Low;
    var j, b := shift / 32, shift % 32;
    OneBitBelow(b);
    RoomBelow(q[j], b + 1);
    OrIsSum(q[j], Pow2(b), b + 1);
    LowUpdate(q, j, q[j] + Pow2(b), WIDTH);
    Pow2Add(b, 32 * j);
    assert shift == b + 32 * j;
  }

  lemma OneBitBelow(b: nat)
    ensures 0 < Pow2(b) < Pow2(b + 1) && Pow2(b + 1) == 2 * Pow2(b)
  {
  }

  lemma DivisionStep(q: nat, d: nat, r: nat, shift: nat)
    requires r < d * Pow2(shift + 1)
    ensures var e := d * Pow2(shift);
            && (r >= e ==> (q + Pow2(shift)) * d + (r - e) == q * d + r && r - e < e)
  {
    OneBitBelow(shift);
    hide Pow2;
    var p := Pow2(shift);
    assert d * (2 * p) == 2 * (d * p);
    assert (q + p) * d == q * d + d * p;
  }

  /** Going one bit down keeps the lower bits clear, whether or not this bit was set. */
  lemma QuotientNext(q: Limbs, shift: nat)
    requires shift < 256 && QuotientOk(q, shift) && q[shift / 32] + Pow2(shift % 32) < BASE
    ensures shift > 0 ==> QuotientOk(q, shift - 1)
    ensures shift > 0 ==> QuotientOk(q[shift / 32 := q[shift / 32] + Pow2(shift % 32)], shift - 1)
  {
    hide Pow2;
    var j, b := shift / 32, shift % 32;
    if b > 0 {
      LowerShift(shift);
      OneBitBelow(b);
      HalfMultiple(q[j], Pow2(b));
    } else if shift > 0 {
      LowerShift(shift);
      DivModUnique(0, Pow2(32), 0, 0);
    }
  }

  lemma LowerShift(shift: nat)
    requires shift > 0
    ensures shift % 32 > 0 ==> (shift - 1) / 32 == shift / 32 && (shift - 1) % 32 == shift % 32 - 1
    ensures shift % 32 == 0 ==> (shift - 1) / 32 == shift / 32 - 1 && (shift - 1) % 32 == 31
  {
  }

  lemma HalfMultiple(x: nat, p: nat)
    requires p > 0 && x % (2 * p) == 0
    ensures x % p == 0 && (x + p) % p == 0
  {
    var m := x / (2 * p);
    assert x == (2 * p) * m;
    assert (2 * p) * m == p * (2 * m) && (2 * p) * m + p == p * (2 * m + 1);
    DivModUnique(x, p, 2 * m, 0);
    DivModUnique(x + p, p, 2 * m + 1, 0);
  }

  lemma HalfShifted(d: nat, shift: nat)
    ensures shift > 0 ==> d * Pow2(shift) / Pow2(1) == d * Pow2(shift - 1)
  {
    if shift > 0 {
      OneBitBelow(shift - 1);
      Pow2Small();
      var p := Pow2(shift - 1);
      hide Pow2;
      assert d * (2 * p) == 2 * (d * p);
    }
  }
}
