/** Loading what was saved gives the same address manager, up to a renaming of ids. */
module AddrManRoundTrip {
  import opened AddrMan
  import opened AddrManInvariant
  import opened AddrManSteps
  import opened AddrManDisk
  import opened AddrManRead
  import opened AddrManRestore
  import opened AddrManCheck
  import Sums

  // ---------------------------------------------------------------------------
  // The totals fit the tables
  // ---------------------------------------------------------------------------

  lemma SizeOfMore(c: set<Id>, x: Id)
    requires x !in c
    ensures |c + {x}| == |c| + 1
  {
  }

  lemma {:induction false} BelowSize(n: nat)
    ensures |Below(n)| == n
    decreases n
  {
    if n > 0 {
      BelowSize(n - 1);
      SizeOfMore(Below(n - 1), n - 1);
    }
  }

  /** Distinct numbers below a bound are no more than the bound. */
  lemma {:induction false} DistinctBelow(q: seq<Id>, c: set<Id>)
    requires Distinct(q) && forall k :: 0 <= k < |q| ==> q[k] in c
    ensures |q| <= |c|
    decreases |q|
  {
    if q != [] {
      var n := |q| - 1;
      DistinctBelow(q[..n], c - {q[n]});
    }
  }

  function Code(t: Slot): (n: nat) { t.bucket * BUCKET_SIZE + t.pos }

  lemma CodeIs(t: Slot, u: Slot, buckets: nat)
    requires t.bucket < buckets && t.pos < BUCKET_SIZE && u.bucket < buckets && u.pos < BUCKET_SIZE
    ensures Code(t) < buckets * BUCKET_SIZE && (Code(t) == Code(u) ==> t == u)
  {
  }

  lemma Occurs(table: map<Slot, Id>, id: Id)
    requires Occ(table, id) > 0
    ensures exists t :: t in table && table[t] == id
  {
    var t := Sums.SumPositive(table, Is(id));
  }

  /** A slot of the new table that holds an entry with references. */
  ghost function SlotOf(s: State, id: Id): (t: Slot)
    requires Occ(s.newTable, id) > 0
    ensures t in s.newTable && s.newTable[t] == id
  {
    Occurs(s.newTable, id);
    var t :| t in s.newTable && s.newTable[t] == id;
    t
  }

  /** Each new entry has a slot of its own, each tried entry too. */
  lemma TotalsFit(s: State, order: seq<Id>)
    requires InvBut(s, {}, {}) && Enumerates(order, s.info)
    ensures 0 <= s.nNew <= NEW_BUCKETS * BUCKET_SIZE && 0 <= s.nTried <= TRIED_BUCKETS * BUCKET_SIZE
  {
    hide Occ, Shuffled, RefsOk, Counted, TriedOk, NewOk, Indexed, Filter, Below, Code;
    SavedLengths(s, order);
    var news, trieds := Filter(order, HasRefs(s)), Filter(order, IsTried(s));
    FilterOk(order, HasRefs(s));
    FilterOk(order, IsTried(s));
    forall k | 0 <= k < |news| ensures news[k] in s.info && Occ(s.newTable, news[k]) > 0 {
      RefsSplit(s, news[k]);
      RefCountIsOcc(s, news[k], {});
    }
    var codes: seq<Id> := seq(|news|, k requires 0 <= k < |news| => Code(SlotOf(s, news[k])));
    forall k, l | 0 <= k < l < |news| ensures codes[k] != codes[l] && codes[k] in Below(NEW_BUCKETS * BUCKET_SIZE) {
      NewSlotFits(s, SlotOf(s, news[k]));
      NewSlotFits(s, SlotOf(s, news[l]));
      CodeIs(SlotOf(s, news[k]), SlotOf(s, news[l]), NEW_BUCKETS);
    }
    forall k | 0 <= k < |codes| ensures codes[k] in Below(NEW_BUCKETS * BUCKET_SIZE) {
      NewSlotFits(s, SlotOf(s, news[k]));
      CodeIs(SlotOf(s, news[k]), SlotOf(s, news[k]), NEW_BUCKETS);
    }
    DistinctBelow(codes, Below(NEW_BUCKETS * BUCKET_SIZE));
    BelowSize(NEW_BUCKETS * BUCKET_SIZE);
    TriedFit(s, trieds);
  }

  lemma NewSlotFits(s: State, t: Slot)
    requires NewOk(s.cfg, s.info, s.newTable) && t in s.newTable
    ensures t.bucket < NEW_BUCKETS && t.pos < BUCKET_SIZE
  {
  }

  lemma TriedFit(s: State, trieds: seq<Id>)
    requires TriedOk(s.cfg, s.info, s.triedTable) && Distinct(trieds)
    requires forall k :: 0 <= k < |trieds| ==> trieds[k] in s.info && s.info[trieds[k]].inTried
    ensures |trieds| <= TRIED_BUCKETS * BUCKET_SIZE
  {
    hide Below, Code;
    var bound := TRIED_BUCKETS * BUCKET_SIZE;
    var codes: seq<Id> := seq(|trieds|, k requires 0 <= k < |trieds| => Code(s.cfg.TriedSlot(s.info[trieds[k]].addr)));
    forall k, l | 0 <= k < l < |codes| ensures codes[k] != codes[l] {
      CodeIs(s.cfg.TriedSlot(s.info[trieds[k]].addr), s.cfg.TriedSlot(s.info[trieds[l]].addr), TRIED_BUCKETS);
    }
    forall k | 0 <= k < |codes| ensures codes[k] in Below(bound) {
      CodeIs(s.cfg.TriedSlot(s.info[trieds[k]].addr), s.cfg.TriedSlot(s.info[trieds[k]].addr), TRIED_BUCKETS);
    }
    DistinctBelow(codes, Below(bound));
    BelowSize(bound);
  }

  // ---------------------------------------------------------------------------
  // Names
  // ---------------------------------------------------------------------------

  /** An entry gets the index of its record as its id, tried ones after the new ones. */
  lemma NameIs(s: State, order: seq<Id>, id: Id)
    requires InvBut(s, {}, {}) && Enumerates(order, s.info) && id in s.info
    ensures var news, trieds := Filter(order, HasRefs(s)), Filter(order, IsTried(s));
            var n := Name(s, order, id);
            if s.info[id].inTried then |news| <= n < |news| + |trieds| && trieds[n - |news|] == id
            else 0 <= n < |news| && news[n] == id
  {
    hide Occ, Shuffled, RefsOk, Counted, TriedOk, NewOk, Indexed, Filter, Ranks;
    RefsSplit(s, id);
    assert id in order;
    RankIs(order, HasRefs(s), id);
    RankIs(order, IsTried(s), id);
  }

  /** Every index below the number of entries is the name of one. */
  lemma NameOf(s: State, order: seq<Id>, n: nat) returns (id: Id)
    requires InvBut(s, {}, {}) && Enumerates(order, s.info)
    requires n < |Filter(order, HasRefs(s))| + |Filter(order, IsTried(s))|
    ensures id in s.info && Name(s, order, id) == n
  {
    hide Occ, Shuffled, RefsOk, Counted, TriedOk, NewOk, Indexed, Filter, Ranks;
    var news, trieds := Filter(order, HasRefs(s)), Filter(order, IsTried(s));
    FilterOk(order, HasRefs(s));
    FilterOk(order, IsTried(s));
    if n < |news| {
      id := news[n];
      RankOf(order, HasRefs(s), n);
    } else {
      id := trieds[n - |news|];
      RankOf(order, IsTried(s), n - |news|);
    }
    RefsSplit(s, id);
  }

  /** The saved records can stand in one file together. */
  lemma SavedApart(s: State, order: seq<Id>)
    requires InvBut(s, {}, {}) && Enumerates(order, s.info) && forall id :: id in s.info ==> s.cfg.valid(s.info[id].addr.host)
    ensures Apart(s.cfg, Records(s, Filter(order, HasRefs(s))), Records(s, Filter(order, IsTried(s))))
  {
    hide Occ, Shuffled, RefsOk, Counted, TriedOk, NewOk, Indexed, Filter, Records;
    var news, trieds := Filter(order, HasRefs(s)), Filter(order, IsTried(s));
    FilterOk(order, HasRefs(s));
    FilterOk(order, IsTried(s));
    forall k | 0 <= k < |news| ensures news[k] in s.info && !s.info[news[k]].inTried && TimesOk(s.info[news[k]]) { RefsSplit(s, news[k]); }
    forall k | 0 <= k < |trieds| ensures trieds[k] in s.info && s.info[trieds[k]].inTried && TimesOk(s.info[trieds[k]]) { RefsSplit(s, trieds[k]); }
    AddrsApart(s, news, trieds);
    SlotsApart(s, trieds);
    var a, b := Records(s, news), Records(s, trieds);
    assert forall k :: 0 <= k < |a| ==> a[k] == ToRecord(s.info[news[k]]);
    assert forall k :: 0 <= k < |b| ==> b[k] == ToRecord(s.info[trieds[k]]);
  }

  lemma AddrsApart(s: State, news: seq<Id>, trieds: seq<Id>)
    requires Indexed(s.info, s.ids, s.idCount) && Distinct(news) && Distinct(trieds)
    requires forall k :: 0 <= k < |news| ==> news[k] in s.info && !s.info[news[k]].inTried
    requires forall k :: 0 <= k < |trieds| ==> trieds[k] in s.info && s.info[trieds[k]].inTried
    ensures forall k, l :: 0 <= k < l < |news| ==> s.info[news[k]].addr != s.info[news[l]].addr
    ensures forall k, l :: 0 <= k < l < |trieds| ==> s.info[trieds[k]].addr != s.info[trieds[l]].addr
    ensures forall k, l :: 0 <= k < |news| && 0 <= l < |trieds| ==> s.info[news[k]].addr != s.info[trieds[l]].addr
  {
    forall k, l | 0 <= k < |news| && 0 <= l < |trieds| ensures s.info[news[k]].addr != s.info[trieds[l]].addr {
      var x, y := news[k], trieds[l];
      assert x in s.info && y in s.info && s.info[x].inTried != s.info[y].inTried;
    }
  }

  lemma SlotsApart(s: State, trieds: seq<Id>)
    requires TriedOk(s.cfg, s.info, s.triedTable) && Distinct(trieds)
    requires forall k :: 0 <= k < |trieds| ==> trieds[k] in s.info && s.info[trieds[k]].inTried
    ensures forall k, l :: 0 <= k < l < |trieds| ==> s.cfg.TriedSlot(s.info[trieds[k]].addr) != s.cfg.TriedSlot(s.info[trieds[l]].addr)
  {
  }

  // ---------------------------------------------------------------------------
  // The theorem
  // ---------------------------------------------------------------------------

  /** Entry `id` of s and its counterpart in r. */
  ghost predicate SameEntry(s: State, order: seq<Id>, r: State, id: Id)
    requires id in s.info
  {
    var n := Name(s, order, id);
    && n in r.info && ToRecord(r.info[n]) == ToRecord(s.info[id])
    && r.info[n].refCount == s.info[id].refCount && r.info[n].inTried == s.info[id].inTried
  }

  /** The same manager under other ids: same entries, both tables slot for slot. */
  ghost predicate SameManager(s: State, order: seq<Id>, r: State) {
    && r.cfg == s.cfg && r.nNew == s.nNew && r.nTried == s.nTried && r.collisions == {}
    && (forall id :: id in s.info ==> SameEntry(s, order, r, id))
    && (forall x, y :: x in s.info && y in s.info && Name(s, order, x) == Name(s, order, y) ==> x == y)
    && (forall n :: n in r.info ==> exists id :: id in s.info && Name(s, order, id) == n)
    && r.triedTable.Keys == s.triedTable.Keys && (forall t :: t in s.triedTable ==> r.triedTable[t] == Name(s, order, s.triedTable[t]))
    && r.newTable.Keys == s.newTable.Keys && (forall t :: t in s.newTable ==> r.newTable[t] == Name(s, order, s.newTable[t]))
  }

  /** What is read matches the references to restore. */
  lemma ReadMatches(s: State, order: seq<Id>, t: State)
    requires InvBut(s, {}, {}) && Enumerates(order, s.info) && forall id :: id in s.info ==> s.cfg.valid(s.info[id].addr.host)
    requires var a, b := Records(s, Filter(order, HasRefs(s))), Records(s, Filter(order, IsTried(s)));
             TriedRead(t, s.cfg, a, b, |b|)
    ensures Matches(s, Ranks(order, HasRefs(s)), t, Below(|Filter(order, HasRefs(s))|))
    ensures forall slot :: slot in s.newTable ==> s.newTable[slot] in s.info && Index(Ranks(order, HasRefs(s)), s.newTable[slot]) == Name(s, order, s.newTable[slot])
  {
    hide Occ, Shuffled, RefsOk, Counted, TriedOk, NewOk, Indexed, Filter, Ranks, Records;
    forall slot | slot in s.newTable
      ensures var id := s.newTable[slot];
              && id in s.info && !s.info[id].inTried && Index(Ranks(order, HasRefs(s)), id) == Name(s, order, id)
              && ReadAs(s, order, t, id)
    {
      SlotIsOwn(s, slot);
      UnlinkTable(s, slot);
      NameIs(s, order, s.newTable[slot]);
      ReadIs(s, order, t, s.newTable[slot]);
    }
    forall a, b | a in s.newTable && b in s.newTable && Name(s, order, s.newTable[a]) == Name(s, order, s.newTable[b])
      ensures s.newTable[a] == s.newTable[b]
    {
      NameIs(s, order, s.newTable[a]);
      NameIs(s, order, s.newTable[b]);
    }
  }

  /** Entry `id` as read. */
  ghost predicate ReadAs(s: State, order: seq<Id>, t: State, id: Id)
    requires id in s.info
  {
    var n := Name(s, order, id);
    && n in t.info && ToRecord(t.info[n]) == ToRecord(s.info[id]) && t.info[n].addr == s.info[id].addr
    && t.info[n].inTried == s.info[id].inTried && (s.info[id].inTried || n in Below(|Filter(order, HasRefs(s))|))
  }

  lemma ReadIs(s: State, order: seq<Id>, t: State, id: Id)
    requires InvBut(s, {}, {}) && Enumerates(order, s.info) && id in s.info
    requires var a, b := Records(s, Filter(order, HasRefs(s))), Records(s, Filter(order, IsTried(s)));
             TriedRead(t, s.cfg, a, b, |b|)
    ensures ReadAs(s, order, t, id)
  {
    hide Occ, Shuffled, RefsOk, Counted, TriedOk, NewOk, Indexed, Filter, Records, Enumerates, Name;
    NameIs(s, order, id);
  }

  /** An entry with references is not in transit. */
  lemma UnmarkAll(s: State, transit: set<Id>)
    requires InvBut(s, transit, {}) && forall id :: id in transit && id in s.info ==> s.info[id].refCount > 0
    ensures InvBut(s, {}, {})
  {
    hide Occ, Shuffled, Counted, TriedOk, NewOk, Indexed;
    forall x | x in s.info ensures RefOk(s.info[x], Occ(s.newTable, x), x in {}) {
      assert RefOk(s.info[x], Occ(s.newTable, x), x in transit);
    }
  }

  lemma {:induction false} NothingToPrune(t: State, order: seq<Id>)
    requires forall id :: id in t.info ==> t.info[id].inTried || t.info[id].refCount != 0
    ensures Prune(t, order) == t
    decreases |order|
  {
    if order != [] { NothingToPrune(t, order[..|order| - 1]); }
  }

  /** After restoring, every entry has its references back. */
  lemma RestoredEntry(s: State, order: seq<Id>, t: State, r: State, id: Id)
    requires InvBut(s, {}, {}) && Enumerates(order, s.info) && id in s.info && ReadAs(s, order, t, id)
    requires Matches(s, Ranks(order, HasRefs(s)), t, Below(|Filter(order, HasRefs(s))|))
    requires Listed(Slots(s, NEW_BUCKETS), s.newTable) && (forall x :: x in s.newTable ==> x in Slots(s, NEW_BUCKETS))
    requires InvBut(r, Below(|Filter(order, HasRefs(s))|), {}) && OnlyRefs(t, r)
    requires r.newTable == Renamed(s, Ranks(order, HasRefs(s)), Slots(s, NEW_BUCKETS))
    ensures SameEntry(s, order, r, id)
  {
    hide Occ, Shuffled, RefsOk, Counted, TriedOk, NewOk, Indexed, Slots, Renamed, Filter, Ranks, Matches, Listed, Enumerates, Below;
    var n := Name(s, order, id);
    RefsSplit(s, id);
    if s.info[id].inTried {
      TriedHasNoRefs(r, n, Below(|Filter(order, HasRefs(s))|));
    } else {
      RefCountIsOcc(s, id, {});
      RefCountIsOcc(r, n, Below(|Filter(order, HasRefs(s))|));
      var slot := SlotOf(s, id);
      RenamedOcc(s, Ranks(order, HasRefs(s)), t, Below(|Filter(order, HasRefs(s))|), Slots(s, NEW_BUCKETS), slot);
    }
  }

  lemma AllSlots(s: State)
    requires NewOk(s.cfg, s.info, s.newTable)
    ensures Listed(Slots(s, NEW_BUCKETS), s.newTable) && forall x :: x in s.newTable ==> x in Slots(s, NEW_BUCKETS)
  {
    hide Slots;
    SlotsOk(s, NEW_BUCKETS);
    forall x | x in s.newTable ensures x in Slots(s, NEW_BUCKETS) { NewSlotFits(s, x); }
  }

  /** The tried table is determined by the tried entries. */
  lemma SameTried(s: State, order: seq<Id>, r: State)
    requires InvBut(s, {}, {}) && InvBut(r, {}, {}) && r.cfg == s.cfg
    requires forall id :: id in s.info ==> SameEntry(s, order, r, id)
    requires forall n :: n in r.info ==> exists id :: id in s.info && Name(s, order, id) == n
    ensures r.triedTable.Keys == s.triedTable.Keys
    ensures forall t :: t in s.triedTable ==> r.triedTable[t] == Name(s, order, s.triedTable[t])
  {
    hide Occ, Shuffled, RefsOk, Counted, NewOk, Indexed, Name;
    forall t | t in s.triedTable ensures t in r.triedTable && r.triedTable[t] == Name(s, order, s.triedTable[t]) {
      var id := s.triedTable[t];
      assert id in s.info && SameEntry(s, order, r, id);
    }
    forall t | t in r.triedTable ensures t in s.triedTable {
      var n := r.triedTable[t];
      assert n in r.info;
      var id :| id in s.info && Name(s, order, id) == n;
      assert SameEntry(s, order, r, id);
    }
  }

  lemma NamesApart(s: State, order: seq<Id>, x: Id, y: Id)
    requires InvBut(s, {}, {}) && Enumerates(order, s.info) && x in s.info && y in s.info && Name(s, order, x) == Name(s, order, y)
    ensures x == y
  {
    hide InvBut, Filter, Name, Enumerates;
    NameIs(s, order, x);
    NameIs(s, order, y);
  }

  /** Reading and restoring what was saved. */
  lemma RestoredIs(s: State, order: seq<Id>, t: State, r: State)
    requires InvBut(s, {}, {}) && Enumerates(order, s.info) && forall id :: id in s.info ==> s.cfg.valid(s.info[id].addr.host)
    requires var a, b := Records(s, Filter(order, HasRefs(s))), Records(s, Filter(order, IsTried(s)));
             TriedRead(t, s.cfg, a, b, |b|) && InvBut(t, Below(|a|), {})
    requires (forall x :: x in Slots(s, NEW_BUCKETS) ==> x in s.newTable)
             && r == Restore(t, Refs(s, Ranks(order, HasRefs(s)), Slots(s, NEW_BUCKETS)), true)
    ensures InvBut(r, {}, {}) && SameManager(s, order, r)
  {
    hide Occ, Shuffled, RefsOk, Counted, TriedOk, NewOk, Indexed, Slots, Renamed, Filter, Ranks, Matches, Listed, Enumerates,
      Below, Refs, Restore, Records, Name, SameEntry, ReadAs;
    var news, trieds := Filter(order, HasRefs(s)), Filter(order, IsTried(s));
    var ids := Ranks(order, HasRefs(s));
    AllSlots(s);
    ReadMatches(s, order, t);
    RestoreIs(s, ids, t, Below(|news|), Slots(s, NEW_BUCKETS));
    forall id | id in s.info ensures SameEntry(s, order, r, id) {
      ReadIs(s, order, t, id);
      RestoredEntry(s, order, t, r, id);
    }
    forall n | n in r.info ensures exists id :: id in s.info && Name(s, order, id) == n {
      var id := NameOf(s, order, n);
    }
    forall n | n in Below(|news|) && n in r.info ensures r.info[n].refCount > 0 {
      var id := NameOf(s, order, n);
      NewNamed(s, order, r, id);
    }
    UnmarkAll(r, Below(|news|));
    SameTried(s, order, r);
    SavedLengths(s, order);
    forall x, y | x in s.info && y in s.info && Name(s, order, x) == Name(s, order, y) ensures x == y { NamesApart(s, order, x, y); }
    RenamedKeys(s, ids, Slots(s, NEW_BUCKETS));
  }

  lemma NewNamed(s: State, order: seq<Id>, r: State, id: Id)
    requires InvBut(s, {}, {}) && Enumerates(order, s.info) && id in s.info && SameEntry(s, order, r, id)
    requires Name(s, order, id) in Below(|Filter(order, HasRefs(s))|)
    ensures r.info[Name(s, order, id)].refCount > 0
  {
    hide Occ, Shuffled, RefsOk, Counted, TriedOk, NewOk, Indexed, Filter, Ranks, Enumerates, Name;
    NameIs(s, order, id);
    RefsSplit(s, id);
  }

  lemma RenamedKeys(s: State, ids: map<Id, nat>, q: seq<Slot>)
    requires (forall x :: x in q ==> x in s.newTable) && (forall x :: x in s.newTable ==> x in q)
    ensures Renamed(s, ids, q).Keys == s.newTable.Keys
    ensures forall x :: x in s.newTable ==> Renamed(s, ids, q)[x] == Index(ids, s.newTable[x])
  {
  }

  /**
   Loading what was saved, with the same hashes and the same asmap: no error, a consistent
   manager, and the same one up to the names of its entries, however the entry map is visited.
   It passes the final check unless its key is zero.
   */
  lemma RoundTrip(s: State, order: seq<Id>, cfg: Config, asmap: nat, visit: set<Id> -> seq<Id>)
    requires InvBut(s, {}, {}) && Enumerates(order, s.info) && cfg.(key := s.cfg.key) == s.cfg
    requires forall id :: id in s.info ==> s.cfg.valid(s.info[id].addr.host)
    ensures var l := Load(cfg, Serialize(s, order, asmap), asmap, visit);
            && l.Success? && InvBut(l.state, {}, {}) && SameManager(s, order, l.state)
            && (Checked(l.state) <==> s.cfg.key != 0) && (Inv(s) ==> Inv(l.state))
  {
    hide InvBut, Inv, Slots, Filter, Ranks, Listed, Enumerates, Below, Refs, Restore, Name, SameManager,
      ReadNew, ReadTried, Entries, Prune, Row, TriedRead, Apart, Unchecked, CountsChecked, NewExact, TriedOk, EntryCode, Tally;
    var f := Serialize(s, order, asmap);
    var a, b := f.news, f.trieds;
    var ids := Ranks(order, HasRefs(s));
    SavedLengths(s, order);
    TotalsFit(s, order);
    SavedApart(s, order);
    ReadTriedIs(s.cfg, a, b, |b|);
    var t := ReadTried(ReadNew(Empty(s.cfg), a, |a|), b, |b|);
    ReadMatches(s, order, t);
    IndexFits(s, order);
    EntriesIs(s, ids, f.buckets, |a|, NEW_BUCKETS);
    var r := Restore(t, Entries(f.buckets, |a|, NEW_BUCKETS), true);
    RestoredIs(s, order, t, r);
    NoneLost(r);
    NothingToPrune(r, visit(r.info.Keys));
    CheckedExactly(r);
    SameConfiguration(s, order, r);
    if Inv(s) { SameKeepsInv(s, order, r); }
  }

  /** The entries keep their addresses, and recorded collisions are forgotten. */
  lemma SameKeepsInv(s: State, order: seq<Id>, r: State)
    requires Inv(s) && InvBut(r, {}, {}) && SameManager(s, order, r)
    ensures Inv(r)
  {
    hide InvBut, Name;
    forall n | n in r.info ensures r.cfg.Routable(r.info[n].addr.host) {
      var id :| id in s.info && Name(s, order, id) == n;
      assert SameEntry(s, order, r, id);
    }
  }

  lemma SameConfiguration(s: State, order: seq<Id>, r: State)
    requires SameManager(s, order, r)
    ensures r.cfg == s.cfg
  {
  }

  lemma IndexFits(s: State, order: seq<Id>)
    requires InvBut(s, {}, {}) && Enumerates(order, s.info)
    ensures forall t :: t in s.newTable ==> Index(Ranks(order, HasRefs(s)), s.newTable[t]) < |Filter(order, HasRefs(s))|
  {
    hide Occ, Shuffled, RefsOk, Counted, TriedOk, NewOk, Indexed, Filter, Ranks, Enumerates;
    forall t | t in s.newTable ensures Index(Ranks(order, HasRefs(s)), s.newTable[t]) < |Filter(order, HasRefs(s))| {
      UnlinkTable(s, t);
      NameIs(s, order, s.newTable[t]);
    }
  }

  lemma NoneLost(r: State)
    requires InvBut(r, {}, {})
    ensures forall id :: id in r.info ==> r.info[id].inTried || r.info[id].refCount != 0
  {
    hide Occ, Shuffled, RefsOk, Counted, TriedOk, NewOk, Indexed;
    forall id | id in r.info ensures r.info[id].inTried || r.info[id].refCount != 0 { RefsSplit(r, id); }
  }
}
