/** What the consistency check of the address manager gathers, and why a consistent manager passes. */
module AddrManCheck {
  import opened AddrMan
  import opened AddrManInvariant
  import opened AddrManSteps
  import opened Ordered
  import Sums

  // ---------------------------------------------------------------------------
  // The pass over the entries
  // ---------------------------------------------------------------------------

  /** The checks made on one entry, in order. */
  function EntryCode(s: State, id: Id): (code: int) {
    var i := s.At(id);
    if i.inTried && i.lastSuccess == 0 then -1
    else if i.inTried && i.refCount != 0 then -2
    else if !i.inTried && (i.refCount < 0 || i.refCount > MAX_REFS) then -3
    else if !i.inTried && i.refCount == 0 then -4
    else if i.addr !in s.ids || s.ids[i.addr] != id then -5
    else if i.randomPos < 0 || i.randomPos >= |s.random| || s.random[i.randomPos] != id then -14
    else if i.lastTry < 0 then -6
    else if i.lastSuccess < 0 then -8
    else 0
  }

  lemma EntryPasses(s: State, id: Id)
    requires InvBut(s, {}, {}) && id in s.info
    ensures EntryCode(s, id) == 0
  {
    assert RefOk(s.info[id], Occ(s.newTable, id), id in {});
    if s.info[id].inTried { TriedHasNoRefs(s, id, {}); }
  }

  /** What has been gathered from the entries `m`. */
  datatype Seen = Seen(tried: set<Id>, refs: map<Id, int>, counts: map<nat, Count>)

  const NOTHING := Seen({}, map[], map[])

  function See(cfg: Config, g: Seen, id: Id, i: Info): (r: Seen) {
    var net := cfg.network(i.addr.host);
    var counts := g.counts[net := Bump(CountOf(g.counts, net), i.inTried, 1)];
    if i.inTried then Seen(g.tried + {id}, g.refs, counts) else Seen(g.tried, g.refs[id := i.refCount], counts)
  }

  ghost predicate SeenSets(g: Seen, m: map<Id, Info>) {
    && (forall id :: id in g.tried <==> id in m && m[id].inTried)
    && (forall id :: id in g.refs <==> id in m && !m[id].inTried)
    && (forall id :: id in g.refs ==> g.refs[id] == m[id].refCount)
  }

  ghost predicate SeenSizes(cfg: Config, g: Seen, m: map<Id, Info>) {
    |g.tried| == Tally(cfg, m, true, Anywhere) && |g.refs| == Tally(cfg, m, false, Anywhere)
  }

  /** The networks that entries are on. */
  ghost function Networks(cfg: Config, m: map<Id, Info>): (c: set<nat>) {
    set id | id in m :: cfg.network(m[id].addr.host)
  }

  ghost predicate SeenCounts(cfg: Config, g: Seen, m: map<Id, Info>) {
    && (forall net :: CountOf(g.counts, net) == Count(Tally(cfg, m, false, On(net)), Tally(cfg, m, true, On(net))))
    && g.counts.Keys == Networks(cfg, m)
  }

  ghost predicate SeenAll(cfg: Config, g: Seen, m: map<Id, Info>) {
    SeenSets(g, m) && SeenSizes(cfg, g, m) && SeenCounts(cfg, g, m)
  }

  lemma SeenNothing(cfg: Config)
    ensures SeenAll(cfg, NOTHING, map[])
  {
  }

  lemma TallyMore(cfg: Config, m: map<Id, Info>, id: Id, i: Info, tried: bool, scope: Scope)
    requires id !in m
    ensures Tally(cfg, m[id := i], tried, scope) == Tally(cfg, m, tried, scope) + Weight(cfg, tried, scope)(i)
  {
    Sums.SumUpdate(m, Weight(cfg, tried, scope), id, i);
  }

  lemma SeenMoreCounts(cfg: Config, g: Seen, m: map<Id, Info>, id: Id, i: Info)
    requires SeenCounts(cfg, g, m) && id !in m
    ensures SeenCounts(cfg, See(cfg, g, id, i), m[id := i])
  {
    hide Tally;
    var r := See(cfg, g, id, i);
    var n := m[id := i];
    forall net ensures CountOf(r.counts, net) == Count(Tally(cfg, n, false, On(net)), Tally(cfg, n, true, On(net))) {
      assert CountOf(g.counts, net) == Count(Tally(cfg, m, false, On(net)), Tally(cfg, m, true, On(net)));
      TallyMore(cfg, m, id, i, false, On(net));
      TallyMore(cfg, m, id, i, true, On(net));
    }
    NetworksMore(cfg, m, id, i);
  }

  lemma NetworksMore(cfg: Config, m: map<Id, Info>, id: Id, i: Info)
    requires id !in m
    ensures Networks(cfg, m[id := i]) == Networks(cfg, m) + {cfg.network(i.addr.host)}
  {
    var n := m[id := i];
    forall net | net in Networks(cfg, m) + {cfg.network(i.addr.host)} ensures net in Networks(cfg, n) {
      if net in Networks(cfg, m) {
        var x :| x in m && cfg.network(m[x].addr.host) == net;
        assert n[x] == m[x];
      } else {
        assert n[id] == i;
      }
    }
  }

  lemma SeenMore(cfg: Config, g: Seen, m: map<Id, Info>, id: Id, i: Info)
    requires SeenAll(cfg, g, m) && id !in m
    ensures SeenAll(cfg, See(cfg, g, id, i), m[id := i])
  {
    hide Tally, SeenCounts, SeenSets, SeenSizes;
    SeenMoreCounts(cfg, g, m, id, i);
    SeenMoreSets(cfg, g, m, id, i);
    SeenMoreSizes(cfg, g, m, id, i);
  }

  lemma SeenMoreSets(cfg: Config, g: Seen, m: map<Id, Info>, id: Id, i: Info)
    requires SeenSets(g, m) && id !in m
    ensures SeenSets(See(cfg, g, id, i), m[id := i])
  {
  }

  lemma SeenMoreSizes(cfg: Config, g: Seen, m: map<Id, Info>, id: Id, i: Info)
    requires SeenSets(g, m) && SeenSizes(cfg, g, m) && id !in m
    ensures SeenSizes(cfg, See(cfg, g, id, i), m[id := i])
  {
    hide Tally;
    TallyMore(cfg, m, id, i, false, Anywhere);
    TallyMore(cfg, m, id, i, true, Anywhere);
  }

  lemma NoMembers<T(!new)>(a: set<T>)
    requires forall x :: x !in a
    ensures a == {}
  {
  }

  // ---------------------------------------------------------------------------
  // The passes over the tables
  // ---------------------------------------------------------------------------

  /** Slots come bucket by bucket. */
  predicate Before(t: Slot, bucket: nat, pos: nat) {
    t.bucket < bucket || (t.bucket == bucket && t.pos < pos)
  }

  /** Where the visits to the tried table stand: `left` of the tried entries are still to be met. */
  ghost predicate TriedVisited(s: State, tried: set<Id>, left: set<Id>, bucket: nat, pos: nat) {
    && left <= tried
    && (forall t :: t in s.triedTable && Before(t, bucket, pos) ==>
          && s.triedTable[t] in s.info && s.info[s.triedTable[t]].inTried && s.triedTable[t] !in left
          && s.cfg.TriedSlot(s.info[s.triedTable[t]].addr) == t)
    && (forall id :: id in tried && id !in left && id in s.info ==>
          var t := s.cfg.TriedSlot(s.info[id].addr);
          t in s.triedTable && s.triedTable[t] == id && Before(t, bucket, pos))
  }

  /** The ids of the tried entries. */
  ghost predicate AllTried(s: State, tried: set<Id>) {
    forall id :: id in tried <==> id in s.info && s.info[id].inTried
  }

  /** The checks made on one slot of the tried table. */
  function TriedCode(s: State, left: set<Id>, t: Slot): (code: int) {
    if t !in s.triedTable then 0
    else if s.triedTable[t] !in left then -11
    else if s.triedTable[t] !in s.info || s.cfg.TriedSlot(s.info[s.triedTable[t]].addr).bucket != t.bucket then -17
    else if s.cfg.TriedSlot(s.info[s.triedTable[t]].addr).pos != t.pos then -18
    else 0
  }

  function TriedNext(s: State, left: set<Id>, t: Slot): (r: set<Id>) {
    if t in s.triedTable then left - {s.triedTable[t]} else left
  }

  /** Every slot of the tried table holds a tried entry whose slot it is. */
  ghost predicate TriedPlaced(s: State) {
    forall t :: t in s.triedTable ==>
                  && s.triedTable[t] in s.info && s.info[s.triedTable[t]].inTried
                  && s.cfg.TriedSlot(s.info[s.triedTable[t]].addr) == t
  }

  /** What is wrong with a slot of the tried table. */
  ghost predicate TriedFault(s: State, t: Slot, code: int) {
    && t in s.triedTable
    && var id := s.triedTable[t];
       match code
       case -11 => id !in s.info || !s.info[id].inTried || exists u :: u in s.triedTable && u != t && s.triedTable[u] == id
       case -17 => id in s.info && s.cfg.TriedSlot(s.info[id].addr).bucket != t.bucket
       case -18 => id in s.info && var u := s.cfg.TriedSlot(s.info[id].addr); u.bucket == t.bucket && u.pos != t.pos
       case _ => false
  }

  lemma TriedStep(s: State, tried: set<Id>, left: set<Id>, t: Slot)
    requires AllTried(s, tried) && TriedVisited(s, tried, left, t.bucket, t.pos)
    ensures TriedCode(s, left, t) == 0 ==> TriedVisited(s, tried, TriedNext(s, left, t), t.bucket, t.pos + 1)
    ensures TriedCode(s, left, t) != 0 ==> !TriedPlaced(s) && TriedFault(s, t, TriedCode(s, left, t))
  {
    var r := TriedNext(s, left, t);
    if t in s.triedTable {
      var id := s.triedTable[t];
      assert id in tried <==> id in s.info && s.info[id].inTried;
      assert !Before(t, t.bucket, t.pos);
    }
    if TriedCode(s, left, t) == 0 {
      forall u | u in s.triedTable && Before(u, t.bucket, t.pos + 1)
        ensures s.triedTable[u] in s.info && s.info[s.triedTable[u]].inTried && s.triedTable[u] !in r
        ensures s.cfg.TriedSlot(s.info[s.triedTable[u]].addr) == u
      {
        assert u == t || Before(u, t.bucket, t.pos);
      }
    }
  }

  lemma TriedRowEnds(s: State, tried: set<Id>, left: set<Id>, bucket: nat)
    requires Fits(s) && TriedVisited(s, tried, left, bucket, BUCKET_SIZE)
    ensures TriedVisited(s, tried, left, bucket + 1, 0)
  {
    forall t | t in s.triedTable ensures Before(t, bucket, BUCKET_SIZE) == Before(t, bucket + 1, 0) {}
  }

  /** The tables have the sizes they have. */
  ghost predicate Fits(s: State) {
    && (forall t :: t in s.triedTable ==> t.bucket < TRIED_BUCKETS && t.pos < BUCKET_SIZE)
    && (forall t :: t in s.newTable ==> t.bucket < NEW_BUCKETS && t.pos < BUCKET_SIZE)
  }

  lemma TriedAllSeen(s: State, tried: set<Id>, left: set<Id>)
    requires Fits(s) && AllTried(s, tried) && TriedVisited(s, tried, left, TRIED_BUCKETS, 0)
    ensures TriedPlaced(s) && (left == {} <==> TriedOk(s.cfg, s.info, s.triedTable))
  {
    forall t | t in s.triedTable ensures Before(t, TRIED_BUCKETS, 0) {}
    if TriedOk(s.cfg, s.info, s.triedTable) {
      forall id ensures id !in left {
        if id in tried {
          var t := s.cfg.TriedSlot(s.info[id].addr);
          assert t in s.triedTable && s.triedTable[t] == id;
        }
      }
      NoMembers(left);
    }
  }

  /** The part of a table that has been visited. */
  ghost function Done(table: map<Slot, Id>, bucket: nat, pos: nat): (r: map<Slot, Id>) {
    map t | t in table && Before(t, bucket, pos) :: table[t]
  }

  /** The references the entries outside the tried table claim. */
  ghost predicate AllRefs(s: State, refs: map<Id, int>) {
    && (forall id :: id in refs <==> id in s.info && !s.info[id].inTried)
    && (forall id :: id in refs ==> refs[id] == s.info[id].refCount && refs[id] >= 1)
  }

  /** Where the visits to the new table stand: `left` references are still to be met. */
  ghost predicate NewVisited(s: State, refs: map<Id, int>, left: map<Id, int>, bucket: nat, pos: nat) {
    && (forall t :: t in s.newTable && Before(t, bucket, pos) ==>
          s.newTable[t] in refs && s.newTable[t] in s.info && s.cfg.NewSlot(s.info[s.newTable[t]].addr, t.bucket) == t)
    && (forall id :: id in refs ==> Occ(Done(s.newTable, bucket, pos), id) <= refs[id])
    && (forall id :: id in left <==> id in refs && Occ(Done(s.newTable, bucket, pos), id) < refs[id])
    && (forall id :: id in left ==> left[id] == refs[id] - Occ(Done(s.newTable, bucket, pos), id))
  }

  /** Slots hold entries at their positions, and every entry has the references it claims. */
  ghost predicate NewExact(s: State) {
    && NewOk(s.cfg, s.info, s.newTable)
    && (forall id :: id in s.info && !s.info[id].inTried ==> Occ(s.newTable, id) == s.info[id].refCount)
  }

  function NewCode(s: State, left: map<Id, int>, t: Slot): (code: int) {
    if t !in s.newTable then 0
    else if s.newTable[t] !in left then -12
    else if s.newTable[t] !in s.info || s.cfg.NewSlot(s.info[s.newTable[t]].addr, t.bucket).pos != t.pos then -19
    else 0
  }

  function NewNext(s: State, left: map<Id, int>, t: Slot): (r: map<Id, int>) {
    if t !in s.newTable || s.newTable[t] !in left then left
    else
      var id := s.newTable[t];
      if left[id] - 1 == 0 then left - {id} else left[id := left[id] - 1]
  }

  /** Every slot of the new table holds an entry of that position which is not tried, none more often than it claims. */
  ghost predicate NewPlaced(s: State) {
    forall t :: t in s.newTable ==>
                  && s.newTable[t] in s.info && !s.info[s.newTable[t]].inTried
                  && s.cfg.NewSlot(s.info[s.newTable[t]].addr, t.bucket) == t
                  && Occ(s.newTable, s.newTable[t]) <= s.info[s.newTable[t]].refCount
  }

  /** What is wrong with a slot of the new table. */
  ghost predicate NewFault(s: State, t: Slot, code: int) {
    && t in s.newTable
    && var id := s.newTable[t];
       match code
       case -12 => id !in s.info || s.info[id].inTried || Occ(s.newTable, id) > s.info[id].refCount
       case -19 => id in s.info && s.cfg.NewSlot(s.info[id].addr, t.bucket).pos != t.pos
       case _ => false
  }

  /** One more slot visited. */
  lemma DoneStep(table: map<Slot, Id>, t: Slot, id: Id)
    ensures Occ(Done(table, t.bucket, t.pos + 1), id)
         == Occ(Done(table, t.bucket, t.pos), id) + (if t in table && table[t] == id then 1 else 0)
    ensures Occ(Done(table, t.bucket, t.pos + 1), id) <= Occ(table, id)
  {
    hide Sums.Sum;
    var a, b := Done(table, t.bucket, t.pos), Done(table, t.bucket, t.pos + 1);
    forall x ensures x in b <==> x in a || (x == t && t in table) {
      assert x != t ==> (Before(x, t.bucket, t.pos + 1) <==> Before(x, t.bucket, t.pos));
    }
    if t in table {
      assert b == a[t := table[t]];
      OccWrite(a, t, table[t], id);
    } else {
      assert a == b;
    }
    Sums.SumExtended(b, table, Is(id));
  }

  lemma NewStep(s: State, refs: map<Id, int>, left: map<Id, int>, t: Slot)
    requires AllRefs(s, refs) && NewVisited(s, refs, left, t.bucket, t.pos)
    ensures NewCode(s, left, t) == 0 ==> NewVisited(s, refs, NewNext(s, left, t), t.bucket, t.pos + 1)
    ensures NewCode(s, left, t) != 0 ==> !NewPlaced(s) && NewFault(s, t, NewCode(s, left, t))
  {
    hide Occ, Done;
    forall id
      ensures Occ(Done(s.newTable, t.bucket, t.pos + 1), id)
           == Occ(Done(s.newTable, t.bucket, t.pos), id) + (if t in s.newTable && s.newTable[t] == id then 1 else 0)
      ensures Occ(Done(s.newTable, t.bucket, t.pos + 1), id) <= Occ(s.newTable, id)
    {
      DoneStep(s.newTable, t, id);
    }
    if t in s.newTable {
      var id := s.newTable[t];
      assert id in refs <==> id in s.info && !s.info[id].inTried;
      assert id in left <==> id in refs && Occ(Done(s.newTable, t.bucket, t.pos), id) < refs[id];
      if id in refs { assert refs[id] == s.info[id].refCount; }
    }
    if NewCode(s, left, t) == 0 {
      forall u | u in s.newTable && Before(u, t.bucket, t.pos + 1)
        ensures s.newTable[u] in refs && s.newTable[u] in s.info && s.cfg.NewSlot(s.info[s.newTable[u]].addr, u.bucket) == u
      {
        if u != t { assert Before(u, t.bucket, t.pos); }
      }
    }
  }

  lemma NewRowEnds(s: State, refs: map<Id, int>, left: map<Id, int>, bucket: nat)
    requires Fits(s) && NewVisited(s, refs, left, bucket, BUCKET_SIZE)
    ensures NewVisited(s, refs, left, bucket + 1, 0)
  {
    hide Occ;
    forall t | t in s.newTable ensures Before(t, bucket, BUCKET_SIZE) == Before(t, bucket + 1, 0) {}
    assert Done(s.newTable, bucket, BUCKET_SIZE) == Done(s.newTable, bucket + 1, 0);
  }

  lemma NewAllSeen(s: State, refs: map<Id, int>, left: map<Id, int>)
    requires Fits(s) && AllRefs(s, refs) && NewVisited(s, refs, left, NEW_BUCKETS, 0)
    ensures NewPlaced(s) && (left == map[] <==> NewExact(s))
  {
    hide Occ;
    forall t | t in s.newTable ensures Before(t, NEW_BUCKETS, 0) {}
    assert Done(s.newTable, NEW_BUCKETS, 0) == s.newTable;
    forall t | t in s.newTable
      ensures !s.info[s.newTable[t]].inTried && Occ(s.newTable, s.newTable[t]) <= s.info[s.newTable[t]].refCount
    {
      var id := s.newTable[t];
      assert id in refs;
      assert Occ(Done(s.newTable, NEW_BUCKETS, 0), id) <= refs[id];
    }
    if NewExact(s) {
      forall id ensures id !in left.Keys {}
      NoMembers(left.Keys);
    }
    if left == map[] {
      forall id | id in s.info && !s.info[id].inTried ensures Occ(s.newTable, id) == s.info[id].refCount {
        assert id in refs && id !in left;
      }
    }
  }

  /** The visits start with what the entries gave. */
  lemma VisitsStart(s: State, g: Seen)
    requires SeenSets(g, s.info) && forall id :: id in s.info ==> EntryCode(s, id) == 0
    ensures AllTried(s, g.tried) && TriedVisited(s, g.tried, g.tried, 0, 0)
    ensures AllRefs(s, g.refs) && NewVisited(s, g.refs, g.refs, 0, 0)
  {
    assert Done(s.newTable, 0, 0) == map[];
  }

  /** vRandom is as long as there are entries. */
  lemma {:induction false} RandomSize(random: seq<Id>, c: set<Id>)
    requires (forall k, l :: 0 <= k < l < |random| ==> random[k] != random[l]) && forall id :: id in random <==> id in c
    ensures |random| == |c|
    decreases |random|
  {
    if random == [] {
      forall id ensures id !in c { assert id !in random; }
      NoMembers(c);
    } else {
      var n := |random| - 1;
      var last := random[n];
      assert random == random[..n] + [last];
      RandomSize(random[..n], c - {last});
      assert last in random;
      assert c == (c - {last}) + {last};
    }
  }

  /** Every entry counts for one of the two tables. */
  lemma {:induction false} TallySplit(cfg: Config, m: map<Id, Info>)
    ensures Tally(cfg, m, true, Anywhere) + Tally(cfg, m, false, Anywhere) == |m|
    decreases |m|
  {
    if |m| > 0 {
      var id := Sums.Pick(m);
      Sums.SumRemove(m, Weight(cfg, true, Anywhere), id);
      Sums.SumRemove(m, Weight(cfg, false, Anywhere), id);
      TallySplit(cfg, m - {id});
    }
  }

  lemma RandomFits(s: State)
    requires InvBut(s, {}, {})
    ensures |s.random| == s.nTried + s.nNew
  {
    hide Occ, RefsOk, TriedOk, NewOk, Indexed, Tally;
    assert s.info - {} == s.info;
    assert CountedAt(s, {}, true, Anywhere) && CountedAt(s, {}, false, Anywhere);
    TallySplit(s.cfg, s.info);
    PermutationSize(s);
  }

  lemma PermutationSize(s: State)
    requires Shuffled(s.info, s.random)
    ensures |s.random| == |s.info|
  {
    forall k, l | 0 <= k < l < |s.random| ensures s.random[k] != s.random[l] { InRandom(s, k, l); }
    forall id ensures id in s.random <==> id in s.info.Keys {
      if id in s.info { assert s.random[s.info[id].randomPos] == id; }
    }
    RandomSize(s.random, s.info.Keys);
    assert |s.info| == |s.info.Keys|;
  }

  // ---------------------------------------------------------------------------
  // What the check decides
  // ---------------------------------------------------------------------------

  /** The condition under which the check returns zero. */
  ghost predicate Checked(s: State) {
    && |s.random| == s.nTried + s.nNew
    && (forall id :: id in s.info ==> EntryCode(s, id) == 0)
    && s.nTried == Tally(s.cfg, s.info, true, Anywhere) && s.nNew == Tally(s.cfg, s.info, false, Anywhere)
    && TriedOk(s.cfg, s.info, s.triedTable) && NewExact(s)
    && s.cfg.key != 0
    && CountsChecked(s)
  }

  /** No network that has a count has a wrong one, and there are counts enough. */
  ghost predicate CountsChecked(s: State) {
    && |Networks(s.cfg, s.info)| <= |s.counts|
    && (forall net :: net in s.counts ==>
          s.counts[net] == Count(Tally(s.cfg, s.info, false, On(net)), Tally(s.cfg, s.info, true, On(net))))
  }

  /**
   What the returned code says. The parts are checked in a fixed order and the first that is
   violated decides; among entries or slots of one part it names the fault of one of them.
   */
  ghost predicate Explains(s: State, code: int) {
    if |s.random| != s.nTried + s.nNew then code == -7
    else if exists id :: id in s.info && EntryCode(s, id) != 0 then exists id :: id in s.info && EntryCode(s, id) == code != 0
    else if s.nTried != Tally(s.cfg, s.info, true, Anywhere) then code == -9
    else if s.nNew != Tally(s.cfg, s.info, false, Anywhere) then code == -10
    else if !TriedPlaced(s) then exists t :: TriedFault(s, t, code)
    else if !NewPlaced(s) then exists t :: NewFault(s, t, code)
    else if !TriedOk(s.cfg, s.info, s.triedTable) then code == -13
    else if !NewExact(s) then code == -15
    else if s.cfg.key == 0 then code == -16
    else if |Networks(s.cfg, s.info)| > |s.counts| then code == -20
    else code == if CountsChecked(s) then 0 else -21
  }

  lemma ExplainsZero(s: State, code: int)
    requires Explains(s, code)
    ensures code == 0 <==> Checked(s)
  {
    hide EntryCode, Tally, Occ, Networks;
    if NewExact(s) { ExactIsPlaced(s); }
  }

  lemma ExactIsPlaced(s: State)
    requires NewExact(s)
    ensures NewPlaced(s)
  {
    hide Occ;
  }

  /** What the check does not look at: idle addresses and ids, and networks without a count. */
  ghost predicate Unchecked(s: State) {
    && 0 <= s.idCount && (forall id :: id in s.info ==> 0 <= id < s.idCount)
    && (forall a :: a in s.ids ==> s.ids[a] in s.info && s.info[s.ids[a]].addr == a)
    && (forall id :: id in s.info ==> s.Network(s.info[id]) in s.counts)
  }

  lemma CountsOfAbsent(cfg: Config, m: map<Id, Info>, net: nat, tried: bool)
    requires net !in Networks(cfg, m)
    ensures Tally(cfg, m, tried, On(net)) == 0
  {
    forall id | id in m ensures Weight(cfg, tried, On(net))(m[id]) == 0 {
      assert cfg.network(m[id].addr.host) in Networks(cfg, m);
    }
    Sums.SumZero(m, Weight(cfg, tried, On(net)));
  }

  /** A manager is consistent exactly when it passes the check and what is not checked holds as well. */
  lemma CheckedExactly(s: State)
    ensures InvBut(s, {}, {}) && s.cfg.key != 0 <==> Checked(s) && Unchecked(s)
  {
    hide Occ, Tally;
    if InvBut(s, {}, {}) && s.cfg.key != 0 { ConsistentPasses(s); }
    if Checked(s) && Unchecked(s) { PassingIsConsistent(s); }
  }

  /**
   The comparison of sizes can be met by an idle count: a manager whose counts lack a network
   that has entries still passes if a network without entries has one.
   */
  lemma IdleCountMasks(s: State, missing: nat, idle: nat)
    requires InvBut(s, {}, {}) && s.cfg.key != 0
    requires missing in Networks(s.cfg, s.info) && idle !in s.counts
    ensures var r := s.(counts := (s.counts - {missing})[idle := Count(0, 0)]);
            Checked(r) && !Unchecked(r)
  {
    hide InvBut, Occ, Tally, TriedOk, NewExact, EntryCode, CountsChecked, Networks, Unchecked;
    ConsistentPasses(s);
    var r := s.(counts := (s.counts - {missing})[idle := Count(0, 0)]);
    forall id | id in s.info ensures EntryCode(r, id) == EntryCode(s, id) { EntryCodeSame(s, r, id); }
    NewExactSame(s, r);
    MaskedCounts(s, missing, idle);
  }

  lemma MaskedCounts(s: State, missing: nat, idle: nat)
    requires CountsChecked(s) && Unchecked(s) && missing in Networks(s.cfg, s.info) && idle !in s.counts
    ensures var r := s.(counts := (s.counts - {missing})[idle := Count(0, 0)]);
            CountsChecked(r) && !Unchecked(r)
  {
    hide Tally;
    var r := s.(counts := (s.counts - {missing})[idle := Count(0, 0)]);
    assert idle !in Networks(s.cfg, s.info);
    CountsOfAbsent(s.cfg, s.info, idle, true);
    CountsOfAbsent(s.cfg, s.info, idle, false);
    assert missing in s.counts;
    SizeSwapped(s.counts, missing, idle);
    var id :| id in s.info && s.cfg.network(s.info[id].addr.host) == missing;
    assert r.Network(r.info[id]) !in r.counts;
  }

  lemma SizeSwapped(m: map<nat, Count>, a: nat, b: nat)
    requires a in m && b !in m
    ensures |(m - {a})[b := Count(0, 0)]| == |m|
  {
    var n := (m - {a})[b := Count(0, 0)];
    assert n.Keys == m.Keys - {a} + {b};
    assert |n| == |n.Keys| && |m| == |m.Keys|;
  }

  lemma EntryCodeSame(s: State, r: State, id: Id)
    requires r == s.(counts := r.counts)
    ensures EntryCode(r, id) == EntryCode(s, id)
  {
  }

  lemma NewExactSame(s: State, r: State)
    requires r == s.(counts := r.counts) && NewExact(s)
    ensures NewExact(r)
  {
  }

  lemma ConsistentPasses(s: State)
    requires InvBut(s, {}, {}) && s.cfg.key != 0
    ensures Checked(s) && Unchecked(s)
  {
    hide Occ, Shuffled, TriedOk, NewOk, Tally, EntryCode;
    RandomFits(s);
    assert s.info - {} == s.info;
    assert CountedAt(s, {}, true, Anywhere) && CountedAt(s, {}, false, Anywhere);
    forall id | id in s.info ensures EntryCode(s, id) == 0 && Occ(s.newTable, id) == s.info[id].refCount {
      EntryPasses(s, id);
      RefCountIsOcc(s, id, {});
    }
    forall net | net in s.counts
      ensures s.counts[net] == Count(Tally(s.cfg, s.info, false, On(net)), Tally(s.cfg, s.info, true, On(net)))
    {
      assert CountedAt(s, {}, true, On(net)) && CountedAt(s, {}, false, On(net));
    }
    assert Networks(s.cfg, s.info) <= s.counts.Keys;
    SubsetSize(Networks(s.cfg, s.info), s.counts.Keys);
    assert |s.counts| == |s.counts.Keys|;
  }

  lemma PassingIsConsistent(s: State)
    requires Checked(s) && Unchecked(s)
    ensures InvBut(s, {}, {})
  {
    hide Occ, TriedOk, NewOk, Tally;
    PassingIsCounted(s);
    PassingIsShuffled(s);
    forall id | id in s.info ensures RefOk(s.info[id], Occ(s.newTable, id), id in {}) {
      assert EntryCode(s, id) == 0;
      if s.info[id].inTried { NowhereInNew(s, id); }
    }
  }

  lemma NowhereInNew(s: State, id: Id)
    requires NewOk(s.cfg, s.info, s.newTable) && id in s.info && s.info[id].inTried
    ensures Occ(s.newTable, id) == 0
  {
    OccNowhere(s.newTable, id);
  }

  lemma PassingIsCounted(s: State)
    requires Checked(s) && Unchecked(s)
    ensures Counted(s, {})
  {
    hide Occ, TriedOk, NewOk, Tally, EntryCode;
    assert s.info - {} == s.info;
    forall tried, scope ensures CountedAt(s, {}, tried, scope) {
      match scope
      case Anywhere =>
      case On(net) =>
        if net !in s.counts { CountsOfAbsent(s.cfg, s.info, net, tried); }
    }
  }

  lemma PassingIsShuffled(s: State)
    requires Checked(s)
    ensures Shuffled(s.info, s.random)
  {
    hide Occ, TriedOk, NewOk, Tally;
    forall id | id in s.info ensures 0 <= s.info[id].randomPos < |s.random| && s.random[s.info[id].randomPos] == id {
      assert EntryCode(s, id) == 0;
    }
    TallySplit(s.cfg, s.info);
    forall k | 0 <= k < |s.random| ensures s.random[k] in s.info && s.info[s.random[k]].randomPos == k {
      EveryPosition(s, k);
    }
  }

  /** As many positions as entries: each position is some entry's. */
  lemma EveryPosition(s: State, k: nat)
    requires k < |s.random| == |s.info|
    requires forall id :: id in s.info ==> 0 <= s.info[id].randomPos < |s.random| && s.random[s.info[id].randomPos] == id
    ensures s.random[k] in s.info && s.info[s.random[k]].randomPos == k
  {
    assert |s.info| == |s.info.Keys|;
    if forall id :: id in s.info ==> s.info[id].randomPos != k {
      Crowded(s.info, s.random, k, |s.random|, s.info.Keys);
      assert false;
    }
  }

  /** Entries at distinct positions other than `k`, all below `n`, are fewer than n. */
  lemma {:induction false} Crowded(m: map<Id, Info>, random: seq<Id>, k: nat, n: nat, c: set<Id>)
    requires k < n <= |random| && c <= m.Keys
    requires forall id :: id in c ==> 0 <= m[id].randomPos < n && random[m[id].randomPos] == id && m[id].randomPos != k
    ensures |c| < n
    decreases n
  {
    if n - 1 == k {
      if k > 0 {
        if exists id :: id in c && m[id].randomPos == k - 1 {
          var id :| id in c && m[id].randomPos == k - 1;
          PrefixSize(m, random, k - 1, c - {id});
        } else {
          PrefixSize(m, random, k - 1, c);
        }
      } else {
        forall id ensures id !in c {}
        NoMembers(c);
      }
    } else if exists id :: id in c && m[id].randomPos == n - 1 {
      var id :| id in c && m[id].randomPos == n - 1;
      Crowded(m, random, k, n - 1, c - {id});
    } else {
      Crowded(m, random, k, n - 1, c);
    }
  }

  lemma {:induction false} PrefixSize(m: map<Id, Info>, random: seq<Id>, n: nat, c: set<Id>)
    requires n <= |random| && c <= m.Keys
    requires forall id :: id in c ==> 0 <= m[id].randomPos < n && random[m[id].randomPos] == id
    ensures |c| <= n
    decreases n
  {
    if n == 0 {
      forall id ensures id !in c {}
      NoMembers(c);
    } else if exists id :: id in c && m[id].randomPos == n - 1 {
      var id :| id in c && m[id].randomPos == n - 1;
      PrefixSize(m, random, n - 1, c - {id});
    } else {
      PrefixSize(m, random, n - 1, c);
    }
  }
}
