/** Bitwise operations on unbounded naturals, by their binary digits. */
module BitOps {

  function And(a: nat, b: nat): (r: nat)
    decreases a
  {
    if a == 0 then 0 else (if a % 2 == 1 && b % 2 == 1 then 1 else 0) + 2 * And(a / 2, b / 2)
  }

  function Or(a: nat, b: nat): (r: nat)
    decreases a + b
  {
    if a == 0 && b == 0 then 0 else (if a % 2 == 1 || b % 2 == 1 then 1 else 0) + 2 * Or(a / 2, b / 2)
  }

  function Pow2(n: nat): (r: nat)
    ensures r > 0
  {
    if n == 0 then 1 else 2 * Pow2(n - 1)
  }

  lemma {:induction false} Pow2Add(a: nat, b: nat)
    ensures Pow2(a + b) == Pow2(a) * Pow2(b)
    decreases b
  {
    if b > 0 {
      Pow2Add(a, b - 1);
      assert Pow2(a + b) == 2 * (Pow2(a) * Pow2(b - 1)) == Pow2(a) * (2 * Pow2(b - 1));
    }
  }

  lemma {:induction false} AndAtMost(a: nat, b: nat)
    ensures And(a, b) <= a
    decreases a
  {
    if a > 0 { AndAtMost(a / 2, b / 2); }
  }

  /** Or joins digits that do not overlap. */
  lemma {:induction false} OrIsSum(high: nat, low: nat, n: nat)
    requires high % Pow2(n) == 0 && low < Pow2(n)
    ensures Or(high, low) == high + low
    decreases n
  {
    if n == 0 {
      OrZero(high);
    } else {
      var p := Pow2(n - 1);
      var k := high / Pow2(n);
      assert high == 2 * (p * k) by {
        assert high == Pow2(n) * k;
        assert Pow2(n) * k == 2 * (p * k);
      }
      assert (p * k) % p == 0 by { MulMod(p, k); }
      OrIsSum(high / 2, low / 2, n - 1);
    }
  }

  lemma {:induction false} OrCommutes(a: nat, b: nat)
    ensures Or(a, b) == Or(b, a)
    decreases a + b
  {
    if a != 0 || b != 0 { OrCommutes(a / 2, b / 2); }
  }

  lemma {:induction false} OrZero(a: nat)
    ensures Or(a, 0) == a
    decreases a
  {
    if a > 0 { OrZero(a / 2); }
  }

  lemma MulMod(p: nat, k: nat)
    requires p > 0
    ensures (p * k) % p == 0 && (p * k) / p == k
  {
    DivModUnique(p * k, p, k, 0);
  }

  lemma MulAtLeast(d: int, k: int)
    requires 0 < d && 1 <= k
    ensures d * k >= d
  {
  }

  lemma UniqueQuotient(d: int, q: int, r: int, q': int, r': int)
    requires 0 < d && 0 <= r < d && 0 <= r' < d && d * q + r == d * q' + r'
    ensures q == q' && r == r'
  {
    if q < q' {
      assert d * (q' - q) == d * q' - d * q;
      MulAtLeast(d, q' - q);
    } else if q' < q {
      assert d * (q - q') == d * q - d * q';
      MulAtLeast(d, q - q');
    }
  }

  lemma DivModUnique(x: int, d: int, q: int, r: int)
    requires 0 < d && 0 <= r < d && x == d * q + r
    ensures x / d == q && x % d == r
  {
    UniqueQuotient(d, q, r, x / d, x % d);
  }
}
