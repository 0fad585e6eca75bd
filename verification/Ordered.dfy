/** Finite sets: members, sizes, and numbers in ascending order. */
module Ordered {
  lemma Member<T>(c: set<T>) returns (x: T)
    requires c != {}
    ensures x in c
  {
    x :| x in c;
  }

  lemma SubsetSize<T>(a: set<T>, b: set<T>)
    requires a <= b
    ensures |a| <= |b|
  {
    assert b == a + (b - a);
  }

  lemma {:induction false} LeastExists(c: set<int>)
    requires c != {}
    ensures exists m :: m in c && forall x :: x in c ==> m <= x
    decreases |c|
  {
    var x := Member(c);
    if c != {x} {
      assert c - {x} != {};
      LeastExists(c - {x});
      var m :| m in c - {x} && forall y :: y in c - {x} ==> m <= y;
      var l := if m < x then m else x;
      forall y | y in c ensures l <= y {
        if y != x { assert y in c - {x}; }
      }
    } else {
      assert x in c && forall y :: y in c ==> x <= y;
    }
  }

  function Least(c: set<int>): (m: int)
    requires c != {}
    ensures m in c && forall x :: x in c ==> m <= x
  {
    LeastExists(c);
    var m :| m in c && forall x :: x in c ==> m <= x;
    m
  }

  function Nth(c: set<int>, k: nat): (x: int)
    requires k < |c|
    ensures x in c
  {
    if k == 0 then assert c != {}; Least(c) else assert c != {}; Nth(c - {Least(c)}, k - 1)
  }
}
