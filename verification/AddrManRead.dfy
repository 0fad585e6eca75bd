/** The entries of the address manager are saved in some order and read back in it. */
module AddrManRead {
  import opened AddrMan
  import opened AddrManInvariant
  import opened AddrManSteps
  import opened AddrManDisk
  import Sums

  // ---------------------------------------------------------------------------
  // Orders and ranks
  // ---------------------------------------------------------------------------

  predicate Distinct(q: seq<Id>) {
    forall k, l :: 0 <= k < l < |q| ==> q[k] != q[l]
  }

  /** An order in which the entries can be visited. */
  ghost predicate Enumerates(order: seq<Id>, m: map<Id, Info>) {
    Distinct(order) && forall id :: id in order <==> id in m
  }

  lemma {:induction false} FilterOk(order: seq<Id>, keep: Id -> bool)
    requires Distinct(order)
    ensures Distinct(Filter(order, keep))
    ensures forall k :: 0 <= k < |Filter(order, keep)| ==> Filter(order, keep)[k] in order && keep(Filter(order, keep)[k])
    decreases |order|
  {
    if order != [] {
      var n := |order| - 1;
      FilterOk(order[..n], keep);
      assert order == order[..n] + [order[n]];
    }
  }

  /** The rank of a kept id is its index among the kept ones. */
  lemma {:induction false} RankIs(order: seq<Id>, keep: Id -> bool, id: Id)
    requires Distinct(order) && id in order
    ensures id in Ranks(order, keep)
    ensures keep(id) ==> Ranks(order, keep)[id] < |Filter(order, keep)| && Filter(order, keep)[Ranks(order, keep)[id]] == id
    decreases |order|
  {
    var n := |order| - 1;
    assert order == order[..n] + [order[n]];
    if id != order[n] { RankIs(order[..n], keep, id); }
  }

  /** The id at an index has that index as its rank. */
  lemma RankOf(order: seq<Id>, keep: Id -> bool, k: nat)
    requires Distinct(order) && k < |Filter(order, keep)|
    ensures Filter(order, keep)[k] in Ranks(order, keep) && Ranks(order, keep)[Filter(order, keep)[k]] == k
  {
    FilterOk(order, keep);
    RankIs(order, keep, Filter(order, keep)[k]);
  }

  lemma EnumeratesLess(order: seq<Id>, m: map<Id, Info>)
    requires Enumerates(order, m) && order != []
    ensures order[|order| - 1] in m && Enumerates(order[..|order| - 1], m - {order[|order| - 1]})
  {
    var n := |order| - 1;
    assert order == order[..n] + [order[n]];
    var last := order[n];
    assert last in order;
    assert last in m;
  }

  lemma EnumeratesNone(m: map<Id, Info>)
    requires Enumerates([], m)
    ensures |m| == 0
  {
    var none: seq<Id> := [];
    assert forall id :: id in m ==> id in none;
    assert m.Keys == {};
  }

  /** As many ids are kept as the weights say. */
  lemma {:induction false} FilterCount(order: seq<Id>, m: map<Id, Info>, keep: Id -> bool, w: Info -> nat)
    requires Enumerates(order, m) && forall id :: id in m ==> w(m[id]) == if keep(id) then 1 else 0
    ensures |Filter(order, keep)| == Sums.Sum(m, w)
    decreases |order|
  {
    hide Enumerates;
    if order == [] {
      EnumeratesNone(m);
    } else {
      var n := |order| - 1;
      EnumeratesLess(order, m);
      Sums.SumRemove(m, w, order[n]);
      FilterCount(order[..n], m - {order[n]}, keep, w);
    }
  }

  /** The lists written have the lengths written: the assertions on the totals hold. */
  lemma SavedLengths(s: State, order: seq<Id>)
    requires InvBut(s, {}, {}) && Enumerates(order, s.info)
    ensures |Filter(order, HasRefs(s))| == s.nNew && |Filter(order, IsTried(s))| == s.nTried
  {
    hide Sums.Sum, Filter, Shuffled, RefsOk, TriedOk, NewOk, Indexed;
    assert s.info - {} == s.info;
    assert CountedAt(s, {}, false, Anywhere) && CountedAt(s, {}, true, Anywhere);
    forall id | id in s.info
      ensures Weight(s.cfg, false, Anywhere)(s.info[id]) == if HasRefs(s)(id) then 1 else 0
      ensures Weight(s.cfg, true, Anywhere)(s.info[id]) == if IsTried(s)(id) then 1 else 0
    {
      RefsSplit(s, id);
    }
    FilterCount(order, s.info, HasRefs(s), Weight(s.cfg, false, Anywhere));
    FilterCount(order, s.info, IsTried(s), Weight(s.cfg, true, Anywhere));
  }

  /** An entry has references or is tried, not both. */
  lemma RefsSplit(s: State, id: Id)
    requires RefsOk(s.info, s.newTable, {}) && NewOk(s.cfg, s.info, s.newTable) && id in s.info
    ensures s.info[id].refCount >= 0 && (s.info[id].refCount != 0 <==> !s.info[id].inTried)
    ensures TimesOk(s.info[id])
  {
    assert RefOk(s.info[id], Occ(s.newTable, id), id in {});
    if s.info[id].inTried { TriedHasNoRefs(s, id, {}); }
  }

  /** The id an entry has after loading. */
  function Name(s: State, order: seq<Id>, id: Id): (n: Id) {
    if s.At(id).inTried then |Filter(order, HasRefs(s))| + Index(Ranks(order, IsTried(s)), id)
    else Index(Ranks(order, HasRefs(s)), id)
  }

  // ---------------------------------------------------------------------------
  // Reading the entries
  // ---------------------------------------------------------------------------

  function Below(n: nat): (c: set<Id>)
    ensures forall k :: k in c <==> 0 <= k < n
  {
    if n == 0 then {} else Below(n - 1) + {n - 1}
  }

  /** Records that can stand in one file together. */
  ghost predicate Apart(cfg: Config, news: seq<Record>, trieds: seq<Record>) {
    && (forall k :: 0 <= k < |news| ==> news[k].lastSuccess >= 0)
    && (forall k :: 0 <= k < |trieds| ==> trieds[k].lastSuccess > 0 && cfg.valid(trieds[k].addr.host))
    && (forall k, l :: 0 <= k < l < |news| ==> news[k].addr != news[l].addr)
    && (forall k, l :: 0 <= k < l < |trieds| ==> trieds[k].addr != trieds[l].addr)
    && (forall k, l :: 0 <= k < |news| && 0 <= l < |trieds| ==> news[k].addr != trieds[l].addr)
    && (forall k, l :: 0 <= k < l < |trieds| ==> cfg.TriedSlot(trieds[k].addr) != cfg.TriedSlot(trieds[l].addr))
  }

  /** Entries 0 to n - 1 as the new records say. */
  ghost predicate NewRead(t: State, cfg: Config, news: seq<Record>, n: nat)
    requires n <= |news|
  {
    && t.cfg == cfg && t.idCount == |t.random| == n && t.triedTable == map[] && t.newTable == map[] && t.collisions == {}
    && t.nNew == n && t.nTried == 0
    && (forall id :: id in t.info <==> 0 <= id < n)
    && (forall k :: 0 <= k < n ==> t.info[k] == FromRecord(news[k], k))
  }

  lemma {:induction false} ReadNewIs(cfg: Config, news: seq<Record>, trieds: seq<Record>, n: nat)
    requires Apart(cfg, news, trieds) && n <= |news|
    ensures var t := ReadNew(Empty(cfg), news, n);
            InvBut(t, Below(n), {}) && NewRead(t, cfg, news, n)
    decreases n
  {
    hide Occ, Shuffled, RefsOk, Counted, TriedOk, NewOk, Admit, Indexed;
    if n == 0 {
      EmptyInv(cfg);
    } else {
      ReadNewIs(cfg, news, trieds, n - 1);
      var t := ReadNew(Empty(cfg), news, n - 1);
      var i := FromRecord(news[n - 1], |t.random|);
      AddrIsFree(t, i.addr);
      AdmitKeeps(t, i, Below(n - 1));
      AdmitIs(t, i);
    }
  }

  lemma EmptyInv(cfg: Config)
    ensures InvBut(Empty(cfg), {}, {})
  {
    var s := Empty(cfg);
    forall tried, scope ensures CountedAt(s, {}, tried, scope) {
      assert s.info - {} == map[];
    }
  }

  lemma Holder(t: State, a: Service) returns (id: Id)
    requires Indexed(t.info, t.ids, t.idCount) && a in t.ids
    ensures id in t.info && t.info[id].addr == a
  {
    id := t.ids[a];
  }

  lemma AddrIsFree(t: State, a: Service)
    requires Indexed(t.info, t.ids, t.idCount) && forall id :: id in t.info ==> t.info[id].addr != a
    ensures a !in t.ids
  {
    hide Indexed;
    if a in t.ids {
      var id := Holder(t, a);
      assert false;
    }
  }

  /** After those, entries as the tried records say. */
  ghost predicate TriedRead(t: State, cfg: Config, news: seq<Record>, trieds: seq<Record>, m: nat)
    requires m <= |trieds|
  {
    && t.cfg == cfg && t.idCount == |t.random| == |news| + m && t.newTable == map[] && t.collisions == {}
    && t.nNew == |news| && t.nTried == m
    && (forall id :: id in t.info <==> 0 <= id < |news| + m)
    && (forall k :: 0 <= k < |news| ==> t.info[k] == FromRecord(news[k], k))
    && (forall k :: |news| <= k < |news| + m ==> t.info[k] == FromRecord(trieds[k - |news|], k).(inTried := true))
  }

  lemma {:induction false} ReadTriedIs(cfg: Config, news: seq<Record>, trieds: seq<Record>, m: nat)
    requires Apart(cfg, news, trieds) && m <= |trieds|
    ensures var t := ReadTried(ReadNew(Empty(cfg), news, |news|), trieds, m);
            InvBut(t, Below(|news|), {}) && TriedRead(t, cfg, news, trieds, m)
    decreases m
  {
    hide InvBut, NewRead, TriedRead, Apart, ReadNew, Admit, Below;
    var s := ReadNew(Empty(cfg), news, |news|);
    ReadNewIs(cfg, news, trieds, |news|);
    if m == 0 {
      TriedReadNone(s, cfg, news, trieds);
    } else {
      ReadTriedIs(cfg, news, trieds, m - 1);
      TriedReadOne(ReadTried(s, trieds, m - 1), cfg, news, trieds, m - 1);
      SameConfig(s, ReadTried(s, trieds, m - 1), cfg, news, trieds, m - 1);
    }
  }

  lemma TriedReadNone(s: State, cfg: Config, news: seq<Record>, trieds: seq<Record>)
    requires NewRead(s, cfg, news, |news|)
    ensures TriedRead(s, cfg, news, trieds, 0)
  {
  }

  lemma SameConfig(s: State, t: State, cfg: Config, news: seq<Record>, trieds: seq<Record>, m: nat)
    requires NewRead(s, cfg, news, |news|) && m < |trieds| && TriedRead(t, cfg, news, trieds, m) && Apart(cfg, news, trieds)
    ensures s.cfg == t.cfg == cfg && cfg.valid(trieds[m].addr.host)
  {
  }

  /** Reading one tried record. */
  lemma TriedReadOne(t: State, cfg: Config, news: seq<Record>, trieds: seq<Record>, m: nat)
    requires Apart(cfg, news, trieds) && m < |trieds|
    requires InvBut(t, Below(|news|), {}) && TriedRead(t, cfg, news, trieds, m)
    ensures var i := FromRecord(trieds[m], |t.random|).(inTried := true);
            var slot := t.cfg.TriedSlot(i.addr);
            var r := Admit(t, i).(triedTable := t.triedTable[slot := t.idCount]);
            slot !in t.triedTable && InvBut(r, Below(|news|), {}) && TriedRead(r, cfg, news, trieds, m + 1)
  {
    hide Occ, Shuffled, RefsOk, Counted, TriedOk, NewOk, Indexed, Admit, Below;
    var i := FromRecord(trieds[m], |t.random|).(inTried := true);
    forall id | id in t.info ensures t.info[id].addr != i.addr { TriedReadAddr(t, cfg, news, trieds, m, id); }
    AddrIsFree(t, i.addr);
    SlotIsFree(t, cfg, news, trieds, m);
    AdmitTriedKeeps(t, i, Below(|news|));
    TriedReadMore(t, cfg, news, trieds, m);
  }

  lemma TriedReadMore(t: State, cfg: Config, news: seq<Record>, trieds: seq<Record>, m: nat)
    requires m < |trieds| && TriedRead(t, cfg, news, trieds, m)
    ensures var i := FromRecord(trieds[m], |t.random|).(inTried := true);
            var r := Admit(t, i).(triedTable := t.triedTable[t.cfg.TriedSlot(i.addr) := t.idCount]);
            TriedRead(r, cfg, news, trieds, m + 1)
  {
    hide Admit;
    AdmitIs(t, FromRecord(trieds[m], |t.random|).(inTried := true));
  }

  lemma AdmitIs(t: State, i: Info)
    ensures var r := Admit(t, i);
            && r.info == t.info[t.idCount := i] && r.idCount == t.idCount + 1 && r.random == t.random + [t.idCount]
            && r.newTable == t.newTable && r.triedTable == t.triedTable && r.collisions == t.collisions && r.cfg == t.cfg
            && r.nTried == t.nTried + (if i.inTried then 1 else 0) && r.nNew == t.nNew + (if i.inTried then 0 else 1)
  {
  }

  lemma TriedReadAddr(t: State, cfg: Config, news: seq<Record>, trieds: seq<Record>, m: nat, id: Id)
    requires Apart(cfg, news, trieds) && m < |trieds| && TriedRead(t, cfg, news, trieds, m) && id in t.info
    ensures t.info[id].addr != trieds[m].addr
    ensures t.info[id].inTried ==> cfg.TriedSlot(t.info[id].addr) != cfg.TriedSlot(trieds[m].addr)
  {
    if id >= |news| {
      var k := id - |news|;
      assert t.info[id].addr == trieds[k].addr;
    }
  }

  lemma TriedHolder(t: State, slot: Slot) returns (id: Id)
    requires TriedOk(t.cfg, t.info, t.triedTable) && slot in t.triedTable
    ensures id in t.info && t.info[id].inTried && t.cfg.TriedSlot(t.info[id].addr) == slot
  {
    id := t.triedTable[slot];
  }

  lemma SlotIsFree(t: State, cfg: Config, news: seq<Record>, trieds: seq<Record>, m: nat)
    requires Apart(cfg, news, trieds) && m < |trieds| && TriedRead(t, cfg, news, trieds, m)
    requires TriedOk(t.cfg, t.info, t.triedTable)
    ensures cfg.TriedSlot(trieds[m].addr) !in t.triedTable
  {
    hide Apart, TriedOk;
    forall id | id in t.info && t.info[id].inTried ensures cfg.TriedSlot(t.info[id].addr) != cfg.TriedSlot(trieds[m].addr) {
      TriedReadAddr(t, cfg, news, trieds, m, id);
    }
    if cfg.TriedSlot(trieds[m].addr) in t.triedTable {
      var id := TriedHolder(t, cfg.TriedSlot(trieds[m].addr));
      assert false;
    }
  }
}
