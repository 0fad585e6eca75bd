/** Numbers as big-endian digit strings in any base. */
module Radix {
  import opened BitOps

  function Pow(b: nat, n: nat): (r: nat)
    ensures b > 0 ==> r > 0
  {
    if n == 0 then 1 else NonNegative(b, Pow(b, n - 1)); b * Pow(b, n - 1)
  }

  lemma NonNegative(x: nat, y: nat)
    ensures x * y >= 0 && (x > 0 && y > 0 ==> x * y > 0)
  {
  }

  lemma Scale(x: int, y: int, w: int)
    requires x <= y && 0 <= w
    ensures x * w <= y * w && w * x <= w * y
  {
  }

  ghost predicate AreDigits(s: seq<nat>, base: nat) { forall i :: 0 <= i < |s| ==> s[i] < base }

  /** The number written in `s`, most significant digit first. */
  function Value(s: seq<nat>, base: nat): (v: nat)
    decreases |s|
  {
    if s == [] then 0 else NonNegative(Value(s[..|s| - 1], base), base); Value(s[..|s| - 1], base) * base + s[|s| - 1]
  }

  /** The shortest way to write `n`; zero is the empty string. */
  function Digits(n: nat, base: nat): (s: seq<nat>)
    requires base >= 2
    decreases n
  {
    if n == 0 then [] else Quotient(n, base); Digits(n / base, base) + [n % base]
  }

  lemma Quotient(n: nat, base: nat)
    requires base >= 2 && n > 0
    ensures 0 <= n / base < n && n == base * (n / base) + n % base && 0 <= n % base < base
    ensures (n / base) * base + n % base == n
  {
    var q := n / base;
    if q >= n { Scale(2, base, q); }
    if q < 0 { Scale(q, -1, base); }
  }

  lemma ValueSnoc(s: seq<nat>, d: nat, base: nat)
    ensures Value(s + [d], base) == Value(s, base) * base + d
  {
    assert (s + [d])[..|s|] == s;
  }

  lemma DigitsSnoc(v: nat, d: nat, base: nat)
    requires base >= 2 && d < base && v * base + d > 0
    ensures Digits(v * base + d, base) == Digits(v, base) + [d]
  {
    DivModUnique(v * base + d, base, v, d);
  }

  lemma {:induction false} DigitsValue(n: nat, base: nat)
    requires base >= 2
    ensures AreDigits(Digits(n, base), base) && Value(Digits(n, base), base) == n
    ensures n > 0 ==> Digits(n, base) != [] && Digits(n, base)[0] != 0
    decreases n
  {
    hide Value, Digits;
    DigitsOfZero(base);
    if n > 0 {
      Quotient(n, base);
      var q, r := n / base, n % base;
      DigitsOf(n, base);
      DigitsValue(q, base);
      ValueSnoc(Digits(q, base), r, base);
      if q == 0 { assert Digits(n, base) == [r]; }
    }
  }

  lemma DigitsOfZero(base: nat)
    requires base >= 2
    ensures Digits(0, base) == [] && Value([], base) == 0
  {
  }

  lemma DigitsOf(n: nat, base: nat)
    requires base >= 2 && n > 0
    ensures 0 <= n / base < n && Digits(n, base) == Digits(n / base, base) + [n % base]
  {
    Quotient(n, base);
  }

  /** A digit string without a leading zero is the shortest one for its value. */
  lemma {:induction false} ValueDigits(s: seq<nat>, base: nat)
    requires base >= 2 && AreDigits(s, base) && (s != [] ==> s[0] != 0)
    ensures Digits(Value(s, base), base) == s
    decreases |s|
  {
    if s != [] {
      var init, d := s[..|s| - 1], s[|s| - 1];
      ValueDigits(init, base);
      var v := Value(init, base);
      assert init + [d] == s;
      PositiveValue(s, base);
      NonNegative(v, base);
      DigitsSnoc(v, d, base);
    }
  }

  lemma {:induction false} PositiveValue(s: seq<nat>, base: nat)
    requires base >= 1 && s != [] && s[0] != 0
    ensures Value(s, base) > 0
    decreases |s|
  {
    if |s| > 1 {
      PositiveValue(s[..|s| - 1], base);
      NonNegative(Value(s[..|s| - 1], base), base);
    }
  }

  lemma {:induction false} ValueBound(s: seq<nat>, base: nat)
    requires base >= 1 && AreDigits(s, base)
    ensures Value(s, base) < Pow(base, |s|)
    decreases |s|
  {
    hide Pow, Value;
    if s == [] {
      ValueOfNone(base);
    } else {
      var init, d := s[..|s| - 1], s[|s| - 1];
      ValueBound(init, base);
      assert init + [d] == s;
      ValueSnoc(init, d, base);
      PowOf(base, |s|);
      DigitBelow(Value(init, base), Pow(base, |s| - 1), base, d);
    }
  }

  lemma ValueOfNone(base: nat)
    ensures Value([], base) == 0 && Pow(base, 0) == 1
  {
  }

  lemma PowOf(b: nat, n: nat)
    requires n > 0
    ensures Pow(b, n) == b * Pow(b, n - 1)
  {
  }

  lemma DigitBelow(v: nat, p: nat, base: nat, d: nat)
    requires v < p && d < base
    ensures v * base + d < base * p
  {
    Scale(v + 1, p, base);
    assert (v + 1) * base == v * base + base;
  }

  lemma {:induction false} ValueZeros(s: seq<nat>, base: nat)
    requires forall i :: 0 <= i < |s| ==> s[i] == 0
    ensures Value(s, base) == 0
    decreases |s|
  {
    if s != [] { ValueZeros(s[..|s| - 1], base); }
  }

  /** Leading zeros do not count. */
  lemma {:induction false} ValueTail(s: seq<nat>, base: nat, k: nat)
    requires k <= |s| && forall i :: 0 <= i < k ==> s[i] == 0
    ensures Value(s[k..], base) == Value(s, base)
    decreases |s|
  {
    if k == |s| {
      ValueZeros(s, base);
    } else {
      ValueTail(s[..|s| - 1], base, k);
      assert s[k..][..|s| - k - 1] == s[..|s| - 1][k..];
    }
  }

  // ---------------------------------------------------------------------------
  // Powers
  // ---------------------------------------------------------------------------

  lemma {:induction false} PowAdd(b: nat, m: nat, n: nat)
    ensures Pow(b, m + n) == Pow(b, m) * Pow(b, n)
    decreases n
  {
    if n > 0 {
      PowAdd(b, m, n - 1);
      var x, y := Pow(b, m), Pow(b, n - 1);
      assert b * (x * y) == x * (b * y);
    }
  }

  lemma {:induction false} PowMul(b: nat, m: nat, n: nat)
    ensures Pow(b, m * n) == Pow(Pow(b, m), n)
    decreases n
  {
    if n > 0 {
      PowMul(b, m, n - 1);
      assert m * n == m * (n - 1) + m;
      NonNegative(m, n - 1);
      PowAdd(b, m * (n - 1), m);
    }
  }

  lemma {:induction false} PowBaseMonotone(a: nat, b: nat, n: nat)
    requires a <= b
    ensures Pow(a, n) <= Pow(b, n)
    decreases n
  {
    if n > 0 {
      PowBaseMonotone(a, b, n - 1);
      Scale(Pow(a, n - 1), Pow(b, n - 1), a);
      Scale(a, b, Pow(b, n - 1));
    }
  }

  lemma {:induction false} PowBaseStrict(a: nat, b: nat, n: nat)
    requires a < b && n > 0
    ensures Pow(a, n) < Pow(b, n)
    decreases n
  {
    hide Pow;
    PowBaseMonotone(a, b, n - 1);
    PowOf(a, n);
    PowOf(b, n);
    StrictProduct(a, b, Pow(a, n - 1), Pow(b, n - 1));
  }

  lemma StrictProduct(a: nat, b: nat, x: nat, y: nat)
    requires a < b && x <= y && y > 0
    ensures a * x < b * y
  {
    Scale(x, y, a);
    Scale(a + 1, b, y);
    assert (a + 1) * y == a * y + y;
  }

  lemma {:induction false} PowMonotone(b: nat, m: nat, n: nat)
    requires b >= 1 && m <= n
    ensures Pow(b, m) <= Pow(b, n)
    decreases n
  {
    if m < n {
      PowMonotone(b, m, n - 1);
      Scale(1, b, Pow(b, n - 1));
    }
  }

  lemma PowSwap(b: nat, m: nat, n: nat)
    ensures Pow(Pow(b, m), n) == Pow(Pow(b, n), m)
  {
    hide Pow;
    PowMul(b, m, n);
    PowMul(b, n, m);
    assert m * n == n * m;
  }

  /**
   From one comparison a^p <= b^q, all comparisons a^m <= b^n with m/n below the same ratio:
   enough digits in base b for any m digits in base a.
   */
  lemma EnoughDigits(a: nat, b: nat, p: nat, q: nat, m: nat, n: nat)
    requires a >= 1 && b >= 1 && p > 0 && q > 0
    requires Pow(a, p) <= Pow(b, q) && m * q <= n * p
    ensures Pow(a, m) <= Pow(b, n)
  {
    hide Pow;
    // (a^m)^p = (a^p)^m <= (b^q)^m = b^(m*q) <= b^(n*p) = (b^n)^p
    NonNegative(m, q);
    NonNegative(n, p);
    PowSwap(a, m, p);
    PowBaseMonotone(Pow(a, p), Pow(b, q), m);
    PowSwap(b, q, m);
    PowMul(b, m, q);
    PowMonotone(b, m * q, n * p);
    PowMul(b, n, p);
    if Pow(a, m) > Pow(b, n) { PowBaseStrict(Pow(b, n), Pow(a, m), p); }
  }

  lemma PowTimes(b: nat, m: nat, n: nat, x: nat, y: nat)
    requires Pow(b, m) == x && Pow(b, n) == y
    ensures Pow(b, m + n) == x * y
  {
    PowAdd(b, m, n);
  }

  lemma Powers58()
    ensures Pow(58, 11) == 24986644000165537792
    ensures Pow(58, 71) == 159730386663078066345306447337161584696769904898410078913243029577507397293846405390982563136983769384625594118558891106107392
  {
    assert Pow(58, 5) == 656356768 && Pow(58, 6) == 38068692544;
    hide Pow;
    PowTimes(58, 5, 6, 656356768, 38068692544);
    PowTimes(58, 6, 6, 38068692544, 38068692544);
    PowTimes(58, 12, 12, 1449225352009601191936, 1449225352009601191936);
    PowTimes(58, 24, 24, 2100254120907352485526230505830591911428096, 2100254120907352485526230505830591911428096);
    PowTimes(58, 48, 12, 4411067372388315992860700508871397707604375080488126236526447381866738070646178185216, 1449225352009601191936);
    PowTimes(58, 60, 11, 6392630665487523829925705590507004456832030712891733088851577912861189652777515686114891080333114973618176, 24986644000165537792);
  }

  lemma Powers256()
    ensures Pow(256, 8) == 18446744073709551616
    ensures Pow(256, 52) == 169230328010303641331690318856389386196071598838855992136870091590247882556495704531248437872567112920983350278405979725889536
  {
    assert Pow(256, 4) == 4294967296;
    hide Pow;
    PowTimes(256, 4, 4, 4294967296, 4294967296);
    PowTimes(256, 8, 4, 18446744073709551616, 4294967296);
    PowTimes(256, 12, 12, 79228162514264337593543950336, 79228162514264337593543950336);
    PowTimes(256, 24, 24, 6277101735386680763835789423207666416102355444464034512896, 6277101735386680763835789423207666416102355444464034512896);
    PowTimes(256, 48, 4, 39402006196394479212279040100143613805079739270465446667948293404245721771497210611414266254884915640806627990306816, 4294967296);
  }

  /** 58^11 >= 256^8 and 58^71 <= 256^52. */
  lemma PowerTables()
    ensures Pow(256, 8) <= Pow(58, 11) && Pow(58, 71) <= Pow(256, 52)
  {
    hide Pow;
    Powers58();
    Powers256();
  }
}
