/** Announcements, statistics and successes keep the invariant of the address manager. */
module AddrManOps {
  import opened AddrMan
  import opened AddrManInvariant
  import opened AddrManSteps
  import opened Ordered

  // ---------------------------------------------------------------------------
  // Developments
  // ---------------------------------------------------------------------------

  lemma EvolvesOn(s: State, t: State, r: State)
    requires Evolves(s, t) && Evolves(t, r) && Indexed(s.info, s.ids, s.idCount)
    ensures Evolves(s, r)
  {
  }

  /** Nothing enters or leaves the tried table. */
  ghost predicate Calm(s: State, r: State) {
    && Evolves(s, r) && TriedKept(s, r) && r.triedTable == s.triedTable && r.nTried == s.nTried
    && (forall id :: id in s.info && id in r.info ==> r.info[id].inTried == s.info[id].inTried)
  }

  lemma CalmOn(s: State, t: State, r: State)
    requires Calm(s, t) && Shrinks(t, r)
    ensures Calm(s, r) && r.collisions == t.collisions
  {
  }

  /** The part of the invariant about recorded collisions and addresses. */
  lemma CalmKeeps(s: State, r: State)
    requires CollisionsOk(s) && RoutableOnly(s) && Calm(s, r) && r.collisions <= s.collisions
    ensures CollisionsOk(r) && RoutableOnly(r)
  {
    SubsetSize(r.collisions, s.collisions);
  }

  // ---------------------------------------------------------------------------
  // Adding
  // ---------------------------------------------------------------------------

  lemma InsertKeeps(s: State, id: Id, source: nat, now: int)
    requires InvBut(s, {id}, {}) && id in s.info && !s.info[id].inTried && s.info[id].refCount < MAX_REFS
    ensures InvBut(Insert(s, id, source, now).0, {}, {}) && Shrinks(s, Insert(s, id, source, now).0)
  {
    hide Occ, Shuffled, RefsOk, Counted, TriedOk, NewOk, Indexed, ClearNew, Delete;
    var a := s.info[id].addr;
    var slot := s.cfg.NewSlot(a, s.cfg.NewBucket(a, source));
    assert {id} - {id} == {} && {} + {id} == {id};
    if slot !in s.newTable {
      LinkKeeps(s, id, slot, {id}, {});
    } else {
      if s.info[id].refCount == 0 { NotInNew(s, id, {id}, slot); }
      NotNegative(s, id, {id});
      if s.newTable[slot] != id && Insert(s, id, source, now).1 {
        ClearNewKeeps(s, slot, {id}, {});
        LinkKeeps(ClearNew(s, slot), id, slot, {id}, {});
      } else if s.info[id].refCount == 0 {
        DeleteKeeps(s, id, {id}, {});
      } else {
        UnmarkKeeps(s, id, {}, {});
      }
    }
  }

  lemma NotNegative(s: State, id: Id, transit: set<Id>)
    requires RefsOk(s.info, s.newTable, transit) && id in s.info
    ensures 0 <= s.info[id].refCount <= MAX_REFS && TimesOk(s.info[id])
  {
    assert RefOk(s.info[id], Occ(s.newTable, id), id in transit);
  }

  lemma FindIs(s: State, a: Service)
    requires Indexed(s.info, s.ids, s.idCount)
    ensures Find(s, a).None? <==> a !in s.ids
    ensures Find(s, a).Some? ==> Find(s, a).value in s.info && s.info[Find(s, a).value].addr == a
  {
  }

  lemma WithIsCalm(s: State, id: Id, i: Info)
    requires id in s.info && i.addr == s.info[id].addr && i.source == s.info[id].source && i.inTried == s.info[id].inTried
    ensures Calm(s, s.With(id, i))
  {
  }

  lemma AddSingleKeeps(s: State, a: Address, source: nat, penalty: int, now: int, draw: nat)
    requires Inv(s)
    ensures var r := AddSingle(s, a, source, penalty, now, draw).0;
            Inv(r) && Calm(s, r) && r.collisions == s.collisions
  {
    hide Occ, Shuffled, RefsOk, Counted, TriedOk, NewOk, Indexed, CollisionsOk, RoutableOnly, Calm, Insert, Shrinks, Find, Create;
    FindIs(s, a.service);
    CalmSelf(s);
    if s.cfg.Routable(a.service.host) {
      var penalty := if a.service.host == source then 0 else penalty;
      match Find(s, a.service) {
        case Some(id) =>
          var i := Refreshed(s.info[id], a, penalty, now);
          NotNegative(s, id, {});
          WithKeeps(s, id, i, {}, {});
          WithIsCalm(s, id, i);
          var t := s.With(id, i);
          if MayReference(i, a, draw) {
            MarkKeeps(t, id, {}, {});
            assert {} + {id} == {id};
            InsertKeeps(t, id, source, now);
            CalmOn(s, t, Insert(t, id, source, now).0);
          }
        case None =>
          AddNewKeeps(s, a, source, penalty, now);
      }
    }
    CalmKeeps(s, AddSingle(s, a, source, penalty, now, draw).0);
  }

  lemma CalmSelf(s: State)
    ensures Calm(s, s)
  {
  }

  lemma AddNewKeeps(s: State, a: Address, source: nat, penalty: int, now: int)
    requires InvBut(s, {}, {}) && a.service !in s.ids && s.cfg.Routable(a.service.host)
    ensures var t := Create(s, a, source);
            var u := t.With(s.idCount, t.At(s.idCount).(time := Max(0, t.At(s.idCount).time - penalty)));
            var r := Insert(u, s.idCount, source, now).0;
            InvBut(r, {}, {}) && Calm(s, r) && r.collisions == s.collisions
  {
    hide Occ, Shuffled, RefsOk, Counted, TriedOk, NewOk, Indexed, Calm, Insert, Shrinks, Adjust;
    var id := s.idCount;
    AdmitKeeps(s, Created(a, source, |s.random|), {});
    assert {} + {id} == {id};
    var t := Create(s, a, source);
    var i := t.info[id].(time := Max(0, t.info[id].time - penalty));
    WithKeeps(t, id, i, {id}, {});
    var u := t.With(id, i);
    InsertKeeps(u, id, source, now);
    CreateIsCalm(s, u, i);
    CalmOn(s, u, Insert(u, id, source, now).0);
  }

  lemma CreateIsCalm(s: State, u: State, i: Info)
    requires u.info == s.info[s.idCount := i] && s.idCount !in s.info && s.cfg.Routable(i.addr.host)
    requires u.cfg == s.cfg && u.triedTable == s.triedTable && u.nTried == s.nTried && u.idCount == s.idCount + 1
    ensures Calm(s, u)
  {
  }

  lemma {:induction false} AddKeeps(s: State, addrs: seq<Address>, source: nat, penalty: int, now: nat -> int, draw: nat -> nat)
    requires Inv(s)
    ensures var r := Add(s, addrs, source, penalty, now, draw).0;
            Inv(r) && Calm(s, r) && r.collisions == s.collisions
    decreases |addrs|
  {
    hide Calm, AddSingle, Occ, Shuffled, RefsOk, Counted, TriedOk, NewOk, Indexed, CollisionsOk, RoutableOnly;
    if addrs == [] {
      CalmSelf(s);
    } else {
      var n := |addrs| - 1;
      AddKeeps(s, addrs[..n], source, penalty, now, draw);
      var t := Add(s, addrs[..n], source, penalty, now, draw).0;
      AddSingleKeeps(t, addrs[n], source, penalty, now(n), draw(n));
      CalmTwice(s, t, AddSingle(t, addrs[n], source, penalty, now(n), draw(n)).0);
    }
  }

  lemma CalmTwice(s: State, t: State, r: State)
    requires Calm(s, t) && Calm(t, r) && Indexed(s.info, s.ids, s.idCount)
    ensures Calm(s, r)
  {
  }

  // ---------------------------------------------------------------------------
  // Statistics
  // ---------------------------------------------------------------------------

  /** Rewriting the statistics of one entry, and lastGood. */
  lemma TouchKeeps(s: State, id: Id, i: Info, lastGood: int)
    requires Inv(s) && id in s.info && SamePlace(s.info[id], i) && TimesOk(i)
    ensures var r := s.With(id, i).(lastGood := lastGood); Inv(r) && Calm(s, r)
  {
    hide Occ, Shuffled, RefsOk, Counted, TriedOk, NewOk, Indexed, CollisionsOk, RoutableOnly, Calm;
    WithKeeps(s, id, i, {}, {});
    var r := s.With(id, i).(lastGood := lastGood);
    LastGoodKeeps(s.With(id, i), lastGood);
    WithIsCalm(s, id, i);
    LastGoodIsCalm(s, s.With(id, i), lastGood);
    CalmKeeps(s, r);
  }

  predicate SamePlace(i: Info, j: Info) {
    && j.addr == i.addr && j.source == i.source && j.inTried == i.inTried
    && j.refCount == i.refCount && j.randomPos == i.randomPos
  }

  lemma LastGoodKeeps(s: State, lastGood: int)
    requires InvBut(s, {}, {})
    ensures InvBut(s.(lastGood := lastGood), {}, {})
  {
    hide Occ, Shuffled, RefsOk, Counted, TriedOk, NewOk, Indexed;
    RefsTimes(s, {});
    RewriteKeeps(s, s.(lastGood := lastGood), {}, {});
  }

  lemma LastGoodIsCalm(s: State, t: State, lastGood: int)
    requires Calm(s, t)
    ensures Calm(s, t.(lastGood := lastGood))
  {
  }

  lemma AttemptKeeps(s: State, a: Service, countFailure: bool, time: int)
    requires Inv(s) && time >= 0
    ensures var r := Attempt(s, a, countFailure, time); Inv(r) && Calm(s, r)
  {
    hide Occ, Shuffled, RefsOk, Counted, TriedOk, NewOk, Indexed, CollisionsOk, RoutableOnly, Calm, Find;
    CalmSelf(s);
    FindIs(s, a);
    if Find(s, a).Some? {
      var id := Find(s, a).value;
      NotNegative(s, id, {});
      TouchKeeps(s, id, Attempt(s, a, countFailure, time).info[id], s.lastGood);
    }
  }

  lemma ConnectedKeeps(s: State, a: Service, time: int)
    requires Inv(s)
    ensures var r := Connected(s, a, time); Inv(r) && Calm(s, r)
  {
    hide Occ, Shuffled, RefsOk, Counted, TriedOk, NewOk, Indexed, CollisionsOk, RoutableOnly, Calm, Find;
    CalmSelf(s);
    FindIs(s, a);
    if Find(s, a).Some? {
      var id := Find(s, a).value;
      NotNegative(s, id, {});
      TouchKeeps(s, id, s.info[id].(time := time), s.lastGood);
    }
  }

  lemma SetServicesKeeps(s: State, a: Service, services: Services)
    requires Inv(s)
    ensures var r := SetServices(s, a, services); Inv(r) && Calm(s, r)
  {
    hide Occ, Shuffled, RefsOk, Counted, TriedOk, NewOk, Indexed, CollisionsOk, RoutableOnly, Calm, Find;
    CalmSelf(s);
    FindIs(s, a);
    if Find(s, a).Some? {
      var id := Find(s, a).value;
      NotNegative(s, id, {});
      TouchKeeps(s, id, s.info[id].(services := services), s.lastGood);
    }
  }

  // ---------------------------------------------------------------------------
  // Successes
  // ---------------------------------------------------------------------------

  lemma MovedEvolves(s: State, r: State, id: Id)
    requires id in s.info && Moved(s, r, id) && RoutableOnly(s) && CollisionsOk(s)
    ensures Evolves(s, r) && RoutableOnly(r) && CollisionsOk(r.(collisions := s.collisions - {id}))
  {
    SubsetSize(s.collisions - {id}, s.collisions);
  }

  /** The entry a success is reported for, with its statistics updated. */
  lemma GoodTouches(s: State, id: Id, time: int)
    requires Inv(s) && time > 0 && id in s.info
    ensures var t := s.(lastGood := time).With(id, Succeeded(s.info[id], time));
            Inv(t) && Calm(s, t) && t.collisions == s.collisions && t.info == s.info[id := Succeeded(s.info[id], time)]
  {
    hide Inv, Calm;
    NotNegativeInv(s, id);
    TouchKeeps(s, id, Succeeded(s.info[id], time), time);
    assert s.With(id, Succeeded(s.info[id], time)).(lastGood := time)
        == s.(lastGood := time).With(id, Succeeded(s.info[id], time));
  }

  lemma NotNegativeInv(s: State, id: Id)
    requires Inv(s) && id in s.info
    ensures 0 <= s.info[id].refCount <= MAX_REFS && (s.info[id].refCount == 0 <==> s.info[id].inTried)
  {
    assert RefOk(s.info[id], Occ(s.newTable, id), id in {});
    if s.info[id].inTried { TriedHasNoRefs(s, id, {}); }
  }

  /** A success reported from outside. */
  lemma GoodKeeps(s: State, a: Service, time: int)
    requires Inv(s) && time > 0
    ensures var r := Good(s, a, true, time).0; Inv(r) && Evolves(s, r) && StaysTried(s, r)
  {
    hide Occ, Shuffled, RefsOk, Counted, TriedOk, NewOk, Indexed, Find, MakeTried, Evolves, StaysTried;
    FindIs(s.(lastGood := time), a);
    match Find(s.(lastGood := time), a) {
      case None =>
        LastGoodKeeps(s, time);
        CalmSelf(s);
        LastGoodIsCalm(s, s, time);
        CalmKeeps(s, s.(lastGood := time));
        CalmStays(s, s.(lastGood := time));
      case Some(id) =>
        GoodTouches(s, id, time);
        var t := s.(lastGood := time).With(id, Succeeded(s.info[id], time));
        var slot := s.cfg.TriedSlot(s.info[id].addr);
        CalmStays(s, t);
        NotNegativeInv(s, id);
        if t.info[id].inTried {
        } else if slot in s.triedTable {
          if |s.collisions| < MAX_COLLISIONS {
            CollisionAdded(t, id);
            StaysOn(s, t, t.(collisions := s.collisions + {id}));
          }
        } else {
          MakeTriedKeeps(t, id);
          MovedEvolves(t, MakeTried(t, id), id);
          assert t.collisions - {id} == t.collisions;
          EvolvesOn(s, t, MakeTried(t, id));
          MovedStays(s, t, MakeTried(t, id), id);
        }
    }
  }

  lemma CollisionAdded(t: State, id: Id)
    requires Inv(t) && id in t.info && !t.info[id].inTried && t.cfg.TriedSlot(t.info[id].addr) in t.triedTable
    requires |t.collisions| < MAX_COLLISIONS
    ensures Inv(t.(collisions := t.collisions + {id}))
  {
    hide Occ, Shuffled, RefsOk, Counted, TriedOk, NewOk;
    RefsTimes(t, {});
    RewriteKeeps(t, t.(collisions := t.collisions + {id}), {}, {});
  }

  /** Entries that were tried still are. */
  ghost predicate StaysTried(s: State, r: State) {
    forall id :: id in s.info && s.info[id].inTried ==> id in r.info && r.info[id].inTried
  }

  lemma CalmStays(s: State, r: State)
    requires Calm(s, r)
    ensures StaysTried(s, r) && Evolves(s, r)
  {
  }

  lemma StaysOn(s: State, t: State, r: State)
    requires Evolves(s, t) && StaysTried(s, t) && r == t.(collisions := r.collisions)
    ensures Evolves(s, r) && StaysTried(s, r)
  {
  }

  lemma MovedStays(s: State, t: State, r: State, id: Id)
    requires Calm(s, t) && id in t.info && Moved(t, r, id) && t.cfg.TriedSlot(t.info[id].addr) !in t.triedTable
    ensures StaysTried(s, r)
  {
  }

  // ---------------------------------------------------------------------------
  // What the results mean
  // ---------------------------------------------------------------------------

  lemma InsertedIsThere(s: State, id: Id, source: nat, now: int)
    requires InvBut(s, {id}, {}) && id in s.info && !s.info[id].inTried && Insert(s, id, source, now).1
    ensures var r := Insert(s, id, source, now).0;
            var slot := s.cfg.NewSlot(s.info[id].addr, s.cfg.NewBucket(s.info[id].addr, source));
            id in r.info && r.info[id].addr == s.info[id].addr && slot in r.newTable && r.newTable[slot] == id && r.cfg == s.cfg
  {
    hide Occ, Shuffled, RefsOk, Counted, TriedOk, NewOk, Indexed, ClearNew, Delete;
    var slot := s.cfg.NewSlot(s.info[id].addr, s.cfg.NewBucket(s.info[id].addr, source));
    if slot in s.newTable && s.newTable[slot] != id { ClearNewKeeps(s, slot, {id}, {}); }
  }

  /** An announcement that was inserted has an entry, at the place it has for this source. */
  lemma AddedIsThere(s: State, a: Address, source: nat, penalty: int, now: int, draw: nat)
    requires Inv(s) && AddSingle(s, a, source, penalty, now, draw).1
    ensures var r := AddSingle(s, a, source, penalty, now, draw).0;
            var slot := s.cfg.NewSlot(a.service, s.cfg.NewBucket(a.service, source));
            a.service in r.ids && slot in r.newTable && r.newTable[slot] == r.ids[a.service] && r.ids[a.service] in r.info
  {
    hide Occ, Shuffled, RefsOk, Counted, TriedOk, NewOk, Indexed, CollisionsOk, RoutableOnly, Calm, Insert, Shrinks, Find, Adjust;
    AddSingleKeeps(s, a, source, penalty, now, draw);
    FindIs(s, a.service);
    var p := if a.service.host == source then 0 else penalty;
    match Find(s, a.service) {
      case Some(id) =>
        var i := Refreshed(s.info[id], a, p, now);
        NotNegative(s, id, {});
        WithKeeps(s, id, i, {}, {});
        MarkKeeps(s.With(id, i), id, {}, {});
        assert {} + {id} == {id};
        InsertedIsThere(s.With(id, i), id, source, now);
        OwnId(AddSingle(s, a, source, penalty, now, draw).0, id);
      case None =>
        var id := s.idCount;
        AdmitKeeps(s, Created(a, source, |s.random|), {});
        assert {} + {id} == {id};
        var t := Create(s, a, source);
        var i := t.info[id].(time := Max(0, t.info[id].time - p));
        WithKeeps(t, id, i, {id}, {});
        InsertedIsThere(t.With(id, i), id, source, now);
        OwnId(AddSingle(s, a, source, penalty, now, draw).0, id);
    }
  }

  lemma OwnId(s: State, id: Id)
    requires Indexed(s.info, s.ids, s.idCount) && id in s.info
    ensures s.info[id].addr in s.ids && s.ids[s.info[id].addr] == id
  {
  }

  /** A reported success moves an entry exactly when it is new and its tried slot is empty. */
  lemma GoodExactly(s: State, a: Service, time: int)
    requires Inv(s) && time > 0
    ensures var (r, moved) := Good(s, a, true, time);
            var slot := s.cfg.TriedSlot(a);
            && (moved <==> a in s.ids && !s.info[s.ids[a]].inTried && slot !in s.triedTable)
            && (moved ==> s.ids[a] in r.info && r.info[s.ids[a]].inTried && r.triedTable == s.triedTable[slot := s.ids[a]])
            && (!moved ==> r.triedTable == s.triedTable && r.newTable == s.newTable)
            && (a in s.ids && !s.info[s.ids[a]].inTried && slot in s.triedTable && |s.collisions| < MAX_COLLISIONS ==>
                  r.collisions == s.collisions + {s.ids[a]})
  {
    hide Occ, Shuffled, RefsOk, Counted, TriedOk, NewOk, MakeTried, CollisionsOk, RoutableOnly, Calm, Evolves;
    if a in s.ids {
      var id := s.ids[a];
      FindIs(s.(lastGood := time), a);
      NotNegativeInv(s, id);
      GoodTouches(s, id, time);
      var t := s.(lastGood := time).With(id, Succeeded(s.info[id], time));
      if !s.info[id].inTried && s.cfg.TriedSlot(a) !in s.triedTable { MakeTriedKeeps(t, id); }
    }
  }
}
