/**
 The cuckoo cache as values: eight places per element, lazily collected slots and two
 generations, with insertion by displacement up to a depth limit.
 */
module Cuckoo {
  type Element = nat
  const DEFAULT: Element := 0
  const LOCATIONS := 8

  /** A cache; `hash(i, e)` is the i-th 32-bit hash of e. */
  datatype Cache = Cache(
    hash: (nat, Element) -> nat,
    table: seq<Element>,
    collected: seq<bool>,
    epoch: seq<bool>,
    counter: nat,          // epoch_heuristic_counter
    epochSize: nat,
    depthLimit: nat)
  {
    predicate Valid() {
      |table| >= 2 && |collected| == |table| && |epoch| == |table|
    }

    /** The i-th place of an element. */
    function Loc(e: Element, i: nat): (l: nat)
      requires Valid()
      ensures l < |table|
    {
      FastRange32(hash(i, e), |table|)
    }
  }

  /** Maps a 32-bit number onto [0, n). */
  function FastRange32(x: nat, n: nat): (r: nat)
    requires n > 0
    ensures r < n
  {
    var h := x % 0x1_0000_0000;
    assert h * n < 0x1_0000_0000 * n;
    h * n / 0x1_0000_0000
  }

  // ---------------------------------------------------------------------------
  // Operations
  // ---------------------------------------------------------------------------

  function Max(a: nat, b: nat): (r: nat) { if a < b then b else a }

  /** The number of binary digits less one. */
  function Log2(n: nat): (r: nat)
    requires n > 0
    ensures n >= 2 ==> r >= 1
  {
    if n == 1 then 0 else 1 + Log2(n / 2)
  }

  function Setup(hash: (nat, Element) -> nat, newSize: nat): (c: Cache)
    ensures c.Valid() && c.depthLimit >= 1
  {
    var size := Max(2, newSize);
    var epochSize := Max(1, 45 * size % 0x1_0000_0000 / 100);  // a 32-bit product
    Cache(hash, seq(size, i => DEFAULT), seq(size, i => true), seq(size, i => false), epochSize, epochSize, Log2(size))
  }

  /** How many of the first `n` slots are current-generation and not erasable. */
  function Recent(c: Cache, n: nat): (r: nat)
    requires c.Valid() && n <= |c.table|
  {
    if n == 0 then 0 else Recent(c, n - 1) + if c.epoch[n - 1] && !c.collected[n - 1] then 1 else 0
  }

  /** How many of the first `n` slots are old-generation and not erasable. */
  function Old(c: Cache, n: nat): (r: nat)
    requires c.Valid() && n <= |c.table|
  {
    if n == 0 then 0 else Old(c, n - 1) + if !c.epoch[n - 1] && !c.collected[n - 1] then 1 else 0
  }

  function EpochCheck(c: Cache): (r: Cache)
    requires c.Valid()
    ensures r.Valid() && r.hash == c.hash && r.table == c.table
  {
    if c.counter != 0 then c.(counter := c.counter - 1)
    else
      var unused := Recent(c, |c.table|);
      if unused >= c.epochSize then
        c.(collected := seq(|c.table|, i requires 0 <= i < |c.table| => c.collected[i] || !c.epoch[i]),
           epoch := seq(|c.table|, i => false), counter := c.epochSize)
      else c.(counter := Max(1, Max(c.epochSize / 16, c.epochSize - unused)))
  }

  /** The first of the places from the i-th on that holds `e`; 8 when there is none. */
  function Find(c: Cache, e: Element, i: nat): (k: nat)
    requires c.Valid() && i <= LOCATIONS
    ensures i <= k <= LOCATIONS && (k < LOCATIONS ==> c.table[c.Loc(e, k)] == e)
    ensures forall j :: i <= j < k ==> c.table[c.Loc(e, j)] != e
    decreases LOCATIONS - i
  {
    if i == LOCATIONS || c.table[c.Loc(e, i)] == e then i else Find(c, e, i + 1)
  }

  function FindCollected(c: Cache, e: Element, i: nat): (k: nat)
    requires c.Valid() && i <= LOCATIONS
    ensures i <= k <= LOCATIONS && (k < LOCATIONS ==> c.collected[c.Loc(e, k)])
    ensures forall j :: i <= j < k ==> !c.collected[c.Loc(e, j)]
    decreases LOCATIONS - i
  {
    if i == LOCATIONS || c.collected[c.Loc(e, i)] then i else FindCollected(c, e, i + 1)
  }

  /** The place after the one used last: std::find, plus one, modulo eight. */
  function FindLoc(c: Cache, e: Element, loc: int, i: nat): (k: nat)
    requires c.Valid() && i <= LOCATIONS
    ensures i <= k <= LOCATIONS
    decreases LOCATIONS - i
  {
    if i == LOCATIONS || c.Loc(e, i) == loc then i else FindLoc(c, e, loc, i + 1)
  }

  const INVALID := 0xFFFF_FFFF

  function NextLoc(c: Cache, e: Element, lastLoc: int): (l: nat)
    requires c.Valid()
    ensures l < |c.table|
  {
    c.Loc(e, (1 + FindLoc(c, e, lastLoc, 0)) % LOCATIONS)
  }

  /** What became of an insertion. */
  datatype Outcome = Found | Placed | Dropped(lost: Element)

  function Put(c: Cache, l: nat, e: Element, recent: bool): (r: Cache)
    requires c.Valid() && l < |c.table|
    ensures r.Valid() && r.hash == c.hash
  {
    c.(table := c.table[l := e], collected := c.collected[l := false], epoch := c.epoch[l := recent])
  }

  /** Exchanges the element in hand with the one in slot `l`. */
  function Swap(c: Cache, l: nat, e: Element, recent: bool): (r: Cache)
    requires c.Valid() && l < |c.table|
    ensures r.Valid() && r.hash == c.hash
  {
    c.(table := c.table[l := e], epoch := c.epoch[l := recent])
  }

  /** The displacement loop, with `depth` rounds left. */
  function Displace(c: Cache, e: Element, recent: bool, lastLoc: int, depth: nat): (r: (Cache, Outcome))
    requires c.Valid()
    ensures r.0.Valid() && r.0.hash == c.hash && !r.1.Found?
    decreases depth
  {
    if depth == 0 then (c, Dropped(e))
    else
      var k := FindCollected(c, e, 0);
      if k < LOCATIONS then (Put(c, c.Loc(e, k), e, recent), Placed)
      else
        var l := NextLoc(c, e, lastLoc);
        Displace(Swap(c, l, e, recent), c.table[l], c.epoch[l], l, depth - 1)
  }

  function Insert(c: Cache, e: Element): (r: (Cache, Outcome))
    requires c.Valid()
    ensures r.0.Valid() && r.0.hash == c.hash
  {
    var c1 := EpochCheck(c);
    var k := Find(c1, e, 0);
    if k < LOCATIONS then (Put(c1, c1.Loc(e, k), e, true), Found)
    else Displace(c1, e, true, INVALID, c1.depthLimit)
  }

  /** Lookup; with `erase` the slot of a hit is marked erasable. */
  function Contains(c: Cache, e: Element, erase: bool): (r: (Cache, bool))
    requires c.Valid()
    ensures r.0.Valid() && r.0.hash == c.hash
  {
    var k := Find(c, e, 0);
    if k < LOCATIONS then
      (if erase then c.(collected := c.collected[c.Loc(e, k) := true]) else c, true)
    else (c, false)
  }

  // ---------------------------------------------------------------------------
  // What is kept
  // ---------------------------------------------------------------------------

  predicate HoldsAt(c: Cache, e: Element, i: nat)
    requires c.Valid()
  {
    c.table[c.Loc(e, i)] == e
  }

  ghost predicate Findable(c: Cache, e: Element)
    requires c.Valid()
  {
    exists i :: 0 <= i < LOCATIONS && HoldsAt(c, e, i)
  }

  /** Findable in a slot that is not erasable. */
  ghost predicate Live(c: Cache, e: Element)
    requires c.Valid()
  {
    exists i :: 0 <= i < LOCATIONS && HoldsAt(c, e, i) && !c.collected[c.Loc(e, i)]
  }

  lemma ContainsIsFindable(c: Cache, e: Element, erase: bool)
    requires c.Valid()
    ensures Contains(c, e, erase).1 <==> Findable(c, e)
  {
    var k := Find(c, e, 0);
    if k < LOCATIONS { assert HoldsAt(c, e, k); }
  }

  /** Marking a hit erasable does not hide anything: lookups answer as before. */
  lemma EraseKeepsAnswers(c: Cache, e: Element, erase: bool, f: Element, eraseToo: bool)
    requires c.Valid()
    ensures Contains(Contains(c, e, erase).0, f, eraseToo).1 == Contains(c, f, eraseToo).1
  {
    var d := Contains(c, e, erase).0;
    ContainsIsFindable(c, f, eraseToo);
    ContainsIsFindable(d, f, eraseToo);
    SameTable(c, d, f);
  }

  /** Every element but the one in hand stays where it can be found. */
  ghost predicate KeptBut(before: Cache, e: Element, c: Cache, hand: Element)
    requires before.Valid() && c.Valid()
  {
    forall f :: f != hand && (Findable(before, f) || f == e) ==> Findable(c, f)
  }

  ghost predicate LiveBut(before: Cache, e: Element, c: Cache, hand: Element)
    requires before.Valid() && c.Valid()
  {
    forall f :: f != hand && (Live(before, f) || f == e) ==> Live(c, f)
  }

  /** Putting the element in hand into one of its own places. */
  lemma SwapKeeps(before: Cache, e: Element, c: Cache, hand: Element, i: nat, recent: bool)
    requires before.Valid() && c.Valid() && i < LOCATIONS && !c.collected[c.Loc(hand, i)]
    requires KeptBut(before, e, c, hand) && LiveBut(before, e, c, hand)
    ensures var l := c.Loc(hand, i);
            var d := Swap(c, l, hand, recent);
            KeptBut(before, e, d, c.table[l]) && LiveBut(before, e, d, c.table[l])
  {
    var l := c.Loc(hand, i);
    var d := Swap(c, l, hand, recent);
    assert HoldsAt(d, hand, i);
    forall f | f != c.table[l] && f != hand && Findable(c, f) ensures Findable(d, f) {
      var j :| 0 <= j < LOCATIONS && HoldsAt(c, f, j);
      assert HoldsAt(d, f, j);
    }
    forall f | f != c.table[l] && f != hand && Live(c, f) ensures Live(d, f) {
      var j :| 0 <= j < LOCATIONS && HoldsAt(c, f, j) && !c.collected[c.Loc(f, j)];
      assert HoldsAt(d, f, j);
    }
  }

  /** Putting it into an erasable slot loses at most what that slot held. */
  lemma PutKeeps(before: Cache, e: Element, c: Cache, hand: Element, i: nat, recent: bool)
    requires before.Valid() && c.Valid() && i < LOCATIONS && c.collected[c.Loc(hand, i)]
    requires KeptBut(before, e, c, hand) && LiveBut(before, e, c, hand)
    ensures var l := c.Loc(hand, i);
            var d := Put(c, l, hand, recent);
            KeptBut(before, e, d, c.table[l]) && forall f :: Live(before, f) || f == e ==> Live(d, f)
  {
    var l := c.Loc(hand, i);
    var d := Put(c, l, hand, recent);
    assert HoldsAt(d, hand, i);
    forall f | f != c.table[l] && f != hand && Findable(c, f) ensures Findable(d, f) {
      var j :| 0 <= j < LOCATIONS && HoldsAt(c, f, j);
      assert HoldsAt(d, f, j);
    }
    forall f | f != hand && Live(c, f) ensures Live(d, f) {
      var j :| 0 <= j < LOCATIONS && HoldsAt(c, f, j) && !c.collected[c.Loc(f, j)];
      assert HoldsAt(d, f, j);
    }
  }

  ghost predicate AtMostOneLost(before: Cache, e: Element, after: Cache)
    requires before.Valid() && after.Valid()
  {
    exists g :: KeptBut(before, e, after, g)
  }

  lemma {:induction false} DisplaceKeeps(before: Cache, e: Element, c: Cache, hand: Element, recent: bool, lastLoc: int, depth: nat)
    requires before.Valid() && c.Valid()
    requires KeptBut(before, e, c, hand) && LiveBut(before, e, c, hand)
    ensures var (d, out) := Displace(c, hand, recent, lastLoc, depth);
            && AtMostOneLost(before, e, d)
            && (out.Placed? ==> forall f :: Live(before, f) || f == e ==> Live(d, f))
            && (out.Dropped? ==> KeptBut(before, e, d, out.lost) && LiveBut(before, e, d, out.lost))
    decreases depth
  {
    hide KeptBut, LiveBut, Live, Findable, FastRange32, FindCollected, FindLoc, Put, Swap;
    if depth > 0 {
      var k := FindCollected(c, hand, 0);
      if k < LOCATIONS {
        PutKeeps(before, e, c, hand, k, recent);
      } else {
        var i := (1 + FindLoc(c, hand, lastLoc, 0)) % LOCATIONS;
        SwapKeeps(before, e, c, hand, i, recent);
        var l := c.Loc(hand, i);
        DisplaceKeeps(before, e, Swap(c, l, hand, recent), c.table[l], c.epoch[l], l, depth - 1);
      }
    }
  }

  /**
   One insertion: afterwards the new element and everything that could be found before can
   be found, except for at most one element; and unless the depth limit ran out, that one was
   erasable: everything live after the generation check stays live, the new element included.
   */
  lemma InsertKeeps(c: Cache, e: Element)
    requires c.Valid()
    ensures var (d, out) := Insert(c, e);
            && AtMostOneLost(c, e, d)
            && (!out.Dropped? ==> Findable(d, e) && forall f :: Live(EpochCheck(c), f) || f == e ==> Live(d, f))
            && (out.Dropped? ==> KeptBut(c, e, d, out.lost) && LiveBut(EpochCheck(c), e, d, out.lost))
  {
    var c1 := EpochCheck(c);
    forall f ensures Findable(c1, f) == Findable(c, f) { SameTable(c, c1, f); }
    var (d, out) := Insert(c, e);
    var k := Find(c1, e, 0);
    if k < LOCATIONS {
      KeepFound(c1, e, k);
      assert KeptBut(c, e, d, d.table[0]);
    } else {
      DisplaceKeeps(c1, e, c1, e, true, INVALID, c1.depthLimit);
      var g :| KeptBut(c1, e, d, g);
      assert KeptBut(c, e, d, g);
      if out.Placed? { LiveIsFindable(d, e); }
    }
  }

  lemma LiveIsFindable(c: Cache, e: Element)
    requires c.Valid() && Live(c, e)
    ensures Findable(c, e)
  {
  }

  lemma SameTable(c: Cache, d: Cache, f: Element)
    requires c.Valid() && d.Valid() && c.table == d.table && c.hash == d.hash
    ensures Findable(d, f) == Findable(c, f)
  {
    if Findable(c, f) { var j :| 0 <= j < LOCATIONS && HoldsAt(c, f, j); assert HoldsAt(d, f, j); }
    if Findable(d, f) { var j :| 0 <= j < LOCATIONS && HoldsAt(d, f, j); assert HoldsAt(c, f, j); }
  }

  /** An element that was already there: its slot is refreshed and nothing moves. */
  lemma KeepFound(c: Cache, e: Element, k: nat)
    requires c.Valid() && k < LOCATIONS && c.table[c.Loc(e, k)] == e
    ensures var d := Put(c, c.Loc(e, k), e, true);
            && (forall f :: Findable(d, f) == Findable(c, f))
            && Findable(d, e) && forall f :: Live(c, f) || f == e ==> Live(d, f)
  {
    var d := Put(c, c.Loc(e, k), e, true);
    assert d.table == c.table;
    forall f ensures Findable(d, f) == Findable(c, f) { SameTable(c, d, f); }
    assert HoldsAt(d, e, k);
    forall f | Live(c, f) ensures Live(d, f) {
      var j :| 0 <= j < LOCATIONS && HoldsAt(c, f, j) && !c.collected[c.Loc(f, j)];
      assert HoldsAt(d, f, j);
    }
  }

  // ---------------------------------------------------------------------------
  // Generations
  // ---------------------------------------------------------------------------

  /** What slot `l` adds to the two counts. */
  function IsRecent(c: Cache, l: nat): (n: nat)
    requires c.Valid() && l < |c.table|
  {
    if c.epoch[l] && !c.collected[l] then 1 else 0
  }

  function IsOld(c: Cache, l: nat): (n: nat)
    requires c.Valid() && l < |c.table|
  {
    if !c.epoch[l] && !c.collected[l] then 1 else 0
  }

  /** Changing the flags of one slot changes the counts by what that slot adds. */
  lemma {:induction false} CountsChange(c: Cache, d: Cache, l: nat, n: nat)
    requires c.Valid() && d.Valid() && |d.table| == |c.table| && l < |c.table| && n <= |c.table|
    requires forall i :: 0 <= i < |c.table| && i != l ==> c.epoch[i] == d.epoch[i] && c.collected[i] == d.collected[i]
    ensures Recent(d, n) - Recent(c, n) == if l < n then IsRecent(d, l) - IsRecent(c, l) else 0
    ensures Old(d, n) - Old(c, n) == if l < n then IsOld(d, l) - IsOld(c, l) else 0
    decreases n
  {
    if n > 0 { CountsChange(c, d, l, n - 1); }
  }

  function RecentCount(c: Cache): (n: nat)
    requires c.Valid()
  {
    Recent(c, |c.table|)
  }

  function OldCount(c: Cache): (n: nat)
    requires c.Valid()
  {
    Old(c, |c.table|)
  }

  function Flag(b: bool): (n: nat) { if b then 1 else 0 }

  /** The element in hand is counted once, whatever is displaced on the way. */
  lemma {:induction false} DisplaceCounts(c: Cache, hand: Element, recent: bool, lastLoc: int, depth: nat)
    requires c.Valid()
    ensures var d := Displace(c, hand, recent, lastLoc, depth).0;
            && RecentCount(d) <= RecentCount(c) + Flag(recent)
            && OldCount(d) <= OldCount(c) + Flag(!recent)
            && d.counter == c.counter && d.epochSize == c.epochSize && |d.table| == |c.table|
    decreases depth
  {
    hide Recent, Old, FastRange32, FindCollected, FindLoc, Put, Swap, RecentCount, OldCount;
    if depth > 0 {
      var k := FindCollected(c, hand, 0);
      if k < LOCATIONS {
        PutCounts(c, c.Loc(hand, k), hand, recent);
      } else {
        var i := (1 + FindLoc(c, hand, lastLoc, 0)) % LOCATIONS;
        var l := c.Loc(hand, i);
        SwapCounts(c, l, hand, recent);
        DisplaceCounts(Swap(c, l, hand, recent), c.table[l], c.epoch[l], l, depth - 1);
      }
    }
  }

  lemma PutCounts(c: Cache, l: nat, e: Element, recent: bool)
    requires c.Valid() && l < |c.table| && c.collected[l]
    ensures var d := Put(c, l, e, recent);
            && RecentCount(d) == RecentCount(c) + Flag(recent) && OldCount(d) == OldCount(c) + Flag(!recent)
            && d.counter == c.counter && d.epochSize == c.epochSize && |d.table| == |c.table|
  {
    hide Recent, Old;
    CountsChange(c, Put(c, l, e, recent), l, |c.table|);
  }

  lemma SwapCounts(c: Cache, l: nat, e: Element, recent: bool)
    requires c.Valid() && l < |c.table| && !c.collected[l]
    ensures var d := Swap(c, l, e, recent);
            && RecentCount(d) + Flag(c.epoch[l]) == RecentCount(c) + Flag(recent)
            && OldCount(d) + Flag(!c.epoch[l]) == OldCount(c) + Flag(!recent)
            && d.counter == c.counter && d.epochSize == c.epochSize && |d.table| == |c.table|
  {
    hide Recent, Old;
    CountsChange(c, Swap(c, l, e, recent), l, |c.table|);
  }

  /** epoch_size plus the slack of one scan interval. */
  function GenerationBound(c: Cache): (b: nat) { c.epochSize + Max(1, c.epochSize / 16) }

  /** The heuristic counter leaves room for the inserts it allows before the next scan. */
  ghost predicate Bounded(c: Cache)
    requires c.Valid()
  {
    RecentCount(c) + c.counter <= GenerationBound(c) && OldCount(c) <= GenerationBound(c)
  }

  lemma {:induction false} AgedCounts(c: Cache, d: Cache, n: nat)
    requires c.Valid() && d.Valid() && |d.table| == |c.table| && n <= |c.table|
    requires forall i :: 0 <= i < |c.table| ==> !d.epoch[i] && d.collected[i] == (c.collected[i] || !c.epoch[i])
    ensures Recent(d, n) == 0 && Old(d, n) == Recent(c, n)
    decreases n
  {
    if n > 0 { AgedCounts(c, d, n - 1); }
  }

  lemma {:induction false} SameCounts(c: Cache, d: Cache, n: nat)
    requires c.Valid() && d.Valid() && |d.table| == |c.table| && n <= |c.table|
    requires c.epoch == d.epoch && c.collected == d.collected
    ensures Recent(d, n) == Recent(c, n) && Old(d, n) == Old(c, n)
    decreases n
  {
    if n > 0 { SameCounts(c, d, n - 1); }
  }

  /** After the check there is room for one more recent element. */
  lemma EpochCheckMakesRoom(c: Cache)
    requires c.Valid() && Bounded(c)
    ensures var d := EpochCheck(c);
            && d.epochSize == c.epochSize && |d.table| == |c.table|
            && RecentCount(d) + 1 + d.counter <= GenerationBound(d) && OldCount(d) <= GenerationBound(d)
  {
    var d := EpochCheck(c);
    if c.counter == 0 && Recent(c, |c.table|) >= c.epochSize {
      AgedCounts(c, d, |c.table|);
    } else {
      SameCounts(c, d, |c.table|);
    }
  }

  lemma InsertIsBounded(c: Cache, e: Element)
    requires c.Valid() && Bounded(c)
    ensures Bounded(Insert(c, e).0) && Insert(c, e).0.epochSize == c.epochSize
  {
    hide Recent, Old;
    EpochCheckMakesRoom(c);
    var c1 := EpochCheck(c);
    var k := Find(c1, e, 0);
    if k < LOCATIONS {
      var l := c1.Loc(e, k);
      CountsChange(c1, Put(c1, l, e, true), l, |c1.table|);
    } else {
      DisplaceCounts(c1, e, true, INVALID, c1.depthLimit);
    }
  }

  lemma ContainsIsBounded(c: Cache, e: Element, erase: bool)
    requires c.Valid() && Bounded(c)
    ensures Bounded(Contains(c, e, erase).0) && Contains(c, e, erase).0.epochSize == c.epochSize
  {
    var k := Find(c, e, 0);
    if k < LOCATIONS && erase {
      var l := c.Loc(e, k);
      CountsChange(c, Contains(c, e, erase).0, l, |c.table|);
    }
  }

  // ---------------------------------------------------------------------------
  // Where elements are, and which
  // ---------------------------------------------------------------------------

  ghost predicate AtOwnPlace(c: Cache, l: nat)
    requires c.Valid() && l < |c.table|
  {
    exists i :: 0 <= i < LOCATIONS && c.Loc(c.table[l], i) == l
  }

  /** Every slot that is not erasable holds an element at one of its eight places. */
  ghost predicate WellPlaced(c: Cache)
    requires c.Valid()
  {
    forall l :: 0 <= l < |c.table| && !c.collected[l] ==> AtOwnPlace(c, l)
  }

  ghost predicate OnlyHolds(c: Cache, inserted: set<Element>) {
    forall l :: 0 <= l < |c.table| ==> c.table[l] == DEFAULT || c.table[l] in inserted
  }

  lemma PutIsPlaced(c: Cache, e: Element, i: nat, d: Cache)
    requires c.Valid() && d.Valid() && WellPlaced(c) && i < LOCATIONS
    requires d.hash == c.hash && d.table == c.table[c.Loc(e, i) := e]
    requires forall l :: 0 <= l < |c.table| && l != c.Loc(e, i) ==> d.collected[l] == c.collected[l]
    ensures WellPlaced(d)
  {
    forall l | 0 <= l < |d.table| && !d.collected[l] ensures AtOwnPlace(d, l) {
      if l == c.Loc(e, i) {
        assert d.Loc(d.table[l], i) == l;
      } else {
        assert AtOwnPlace(c, l);
        var j :| 0 <= j < LOCATIONS && c.Loc(c.table[l], j) == l;
        assert d.Loc(d.table[l], j) == l;
      }
    }
  }

  lemma {:induction false} DisplaceIsPlaced(c: Cache, hand: Element, recent: bool, lastLoc: int, depth: nat, inserted: set<Element>)
    requires c.Valid() && WellPlaced(c) && OnlyHolds(c, inserted) && (hand == DEFAULT || hand in inserted)
    ensures var d := Displace(c, hand, recent, lastLoc, depth).0; WellPlaced(d) && OnlyHolds(d, inserted)
    decreases depth
  {
    hide WellPlaced, FastRange32, FindCollected, FindLoc;
    if depth > 0 {
      var k := FindCollected(c, hand, 0);
      if k < LOCATIONS {
        PutIsPlaced(c, hand, k, Put(c, c.Loc(hand, k), hand, recent));
      } else {
        var i := (1 + FindLoc(c, hand, lastLoc, 0)) % LOCATIONS;
        var l := c.Loc(hand, i);
        var d := Swap(c, l, hand, recent);
        PutIsPlaced(c, hand, i, d);
        DisplaceIsPlaced(d, c.table[l], c.epoch[l], l, depth - 1, inserted);
      }
    }
  }

  lemma InsertIsPlaced(c: Cache, e: Element, inserted: set<Element>)
    requires c.Valid() && WellPlaced(c) && OnlyHolds(c, inserted)
    ensures WellPlaced(Insert(c, e).0) && OnlyHolds(Insert(c, e).0, inserted + {e})
  {
    var c1 := EpochCheck(c);
    assert WellPlaced(c1) by {
      forall l | 0 <= l < |c1.table| && !c1.collected[l] ensures AtOwnPlace(c1, l) {
        assert AtOwnPlace(c, l);
        var j :| 0 <= j < LOCATIONS && c.Loc(c.table[l], j) == l;
        assert c1.Loc(c1.table[l], j) == l;
      }
    }
    hide WellPlaced, EpochCheck;
    var k := Find(c1, e, 0);
    if k < LOCATIONS {
      PutIsPlaced(c1, e, k, Put(c1, c1.Loc(e, k), e, true));
    } else {
      DisplaceIsPlaced(c1, e, true, INVALID, c1.depthLimit, inserted + {e});
    }
  }

  lemma ContainsIsPlaced(c: Cache, e: Element, erase: bool)
    requires c.Valid() && WellPlaced(c)
    ensures WellPlaced(Contains(c, e, erase).0)
  {
    var d := Contains(c, e, erase).0;
    forall l | 0 <= l < |d.table| && !d.collected[l] ensures AtOwnPlace(d, l) {
      assert AtOwnPlace(c, l);
      var j :| 0 <= j < LOCATIONS && c.Loc(c.table[l], j) == l;
      assert d.Loc(d.table[l], j) == l;
    }
  }

  // ---------------------------------------------------------------------------
  // Whole runs
  // ---------------------------------------------------------------------------

  datatype Op = DoInsert(e: Element) | DoContains(e: Element, erase: bool)

  function Apply(c: Cache, op: Op): (r: Cache)
    requires c.Valid()
    ensures r.Valid()
  {
    match op
    case DoInsert(e) => Insert(c, e).0
    case DoContains(e, erase) => Contains(c, e, erase).0
  }

  function Run(c: Cache, ops: seq<Op>): (r: Cache)
    requires c.Valid()
    ensures r.Valid()
    decreases |ops|
  {
    if ops == [] then c else Run(Apply(c, ops[0]), ops[1..])
  }

  ghost function Inserted(ops: seq<Op>): (s: set<Element>) {
    set i | 0 <= i < |ops| && ops[i].DoInsert? :: ops[i].e
  }

  ghost predicate Good(c: Cache, inserted: set<Element>)
    requires c.Valid()
  {
    Bounded(c) && WellPlaced(c) && OnlyHolds(c, inserted)
  }

  lemma ApplyIsGood(c: Cache, op: Op, inserted: set<Element>)
    requires c.Valid() && Good(c, inserted)
    ensures Good(Apply(c, op), inserted + Inserted([op])) && Apply(c, op).epochSize == c.epochSize
  {
    hide Bounded, WellPlaced;
    match op
    case DoInsert(e) =>
      InsertIsBounded(c, e);
      InsertIsPlaced(c, e, inserted);
      assert Inserted([op]) == {e} by { assert [op][0].e in Inserted([op]); }
    case DoContains(e, erase) =>
      ContainsIsBounded(c, e, erase);
      ContainsIsPlaced(c, e, erase);
  }

  lemma {:induction false} RunIsGood(c: Cache, ops: seq<Op>, inserted: set<Element>)
    requires c.Valid() && Good(c, inserted)
    ensures Good(Run(c, ops), inserted + Inserted(ops)) && Run(c, ops).epochSize == c.epochSize
    decreases |ops|
  {
    if ops == [] {
      assert inserted + Inserted(ops) == inserted;
    } else {
      ApplyIsGood(c, ops[0], inserted);
      var next := inserted + Inserted([ops[0]]);
      RunIsGood(Apply(c, ops[0]), ops[1..], next);
      InsertedSplit(ops);
      assert next + Inserted(ops[1..]) == inserted + Inserted(ops);
    }
  }

  lemma InsertedSplit(ops: seq<Op>)
    requires ops != []
    ensures Inserted(ops) == Inserted([ops[0]]) + Inserted(ops[1..])
  {
    forall e ensures e in Inserted(ops) <==> e in Inserted([ops[0]]) + Inserted(ops[1..]) {
      if e in Inserted(ops) {
        var i :| 0 <= i < |ops| && ops[i].DoInsert? && ops[i].e == e;
        if i == 0 { assert [ops[0]][0].e == e; } else { assert ops[1..][i - 1].e == e; }
      }
      if e in Inserted(ops[1..]) {
        var i :| 0 <= i < |ops[1..]| && ops[1..][i].DoInsert? && ops[1..][i].e == e;
        assert ops[i + 1].e == e;
      }
    }
  }

  lemma SetupIsGood(hash: (nat, Element) -> nat, newSize: nat)
    ensures Good(Setup(hash, newSize), {})
  {
    var c := Setup(hash, newSize);
    EmptyCounts(c, |c.table|);
  }

  lemma {:induction false} EmptyCounts(c: Cache, n: nat)
    requires c.Valid() && n <= |c.table| && forall i :: 0 <= i < |c.table| ==> c.collected[i]
    ensures Recent(c, n) == 0 && Old(c, n) == 0
    decreases n
  {
    if n > 0 { EmptyCounts(c, n - 1); }
  }

  /**
   In every run of a cache: at most B current-generation elements and at most 2B elements
   altogether are not erasable, with B = epoch_size + max(1, epoch_size / 16); each of them is
   at one of its own places; and only inserted elements (or the default one) are ever found.
   */
  lemma RunTheorem(hash: (nat, Element) -> nat, newSize: nat, ops: seq<Op>)
    ensures var c := Run(Setup(hash, newSize), ops);
            var b := GenerationBound(Setup(hash, newSize));
            && RecentCount(c) <= b && RecentCount(c) + OldCount(c) <= 2 * b
            && WellPlaced(c)
            && forall e :: Findable(c, e) ==> e == DEFAULT || e in Inserted(ops)
  {
    hide Recent, Old;
    var s := Setup(hash, newSize);
    SetupIsGood(hash, newSize);
    RunIsGood(s, ops, {});
    assert {} + Inserted(ops) == Inserted(ops);
    var c := Run(s, ops);
    forall e | Findable(c, e) ensures e == DEFAULT || e in Inserted(ops) {
      var i :| 0 <= i < LOCATIONS && HoldsAt(c, e, i);
    }
  }
}
