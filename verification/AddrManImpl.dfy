/**
 The address manager with its fields updated in place and its tables held in arrays, refining
 the operations on values. The assertions of the source are assertions here.
 */
module AddrManImpl {
  import opened AddrMan
  import opened AddrManInvariant
  import opened AddrManSteps
  import opened AddrManOps
  import opened AddrManCollisions
  import opened AddrManRuns
  import opened AddrManCheck
  import opened AddrManDisk
  import opened AddrManLoad
  import opened Ordered
  import opened Wrappers

  const EMPTY: Id := -1

  /** A table of buckets; -1 marks an empty slot. */
  class Table {
    const cells: array2<Id>

    constructor (buckets: nat)
      ensures fresh(cells) && cells.Length0 == buckets && cells.Length1 == BUCKET_SIZE && Contents() == map[]
    {
      cells := new Id[buckets, BUCKET_SIZE]((b, p) => EMPTY);
    }

    ghost predicate Has(t: Slot) {
      t.bucket < cells.Length0 && t.pos < cells.Length1
    }

    ghost function Contents(): (m: map<Slot, Id>)
      reads cells
    {
      map b, p | 0 <= b < cells.Length0 && 0 <= p < cells.Length1 && cells[b, p] != EMPTY :: Slot(b, p) := cells[b, p]
    }

    lemma ContentsAt(t: Slot)
      ensures t in Contents() <==> Has(t) && cells[t.bucket, t.pos] != EMPTY
      ensures t in Contents() && Has(t) ==> Contents()[t] == cells[t.bucket, t.pos]
    {
    }

    method Get(t: Slot) returns (id: Id)
      requires Has(t)
      ensures if t in Contents() then id == Contents()[t] && id != EMPTY else id == EMPTY
    {
      ContentsAt(t);
      id := cells[t.bucket, t.pos];
    }

    method Set(t: Slot, id: Id)
      requires Has(t) && id != EMPTY
      modifies cells
      ensures Contents() == old(Contents())[t := id]
    {
      cells[t.bucket, t.pos] := id;
    }

    method Clear(t: Slot)
      requires Has(t)
      modifies cells
      ensures Contents() == old(Contents()) - {t}
    {
      cells[t.bucket, t.pos] := EMPTY;
    }
  }

  class AddrManImpl {
    var cfg: Config
    var idCount: Id
    var info: map<Id, Info>
    var ids: map<Service, Id>
    var random: seq<Id>
    var nTried: int
    const triedTable: Table
    var nNew: int
    const newTable: Table
    var lastGood: int
    var collisions: set<Id>
    var counts: map<nat, Count>

    ghost predicate Valid() {
      && triedTable.cells.Length0 == TRIED_BUCKETS && triedTable.cells.Length1 == BUCKET_SIZE
      && newTable.cells.Length0 == NEW_BUCKETS && newTable.cells.Length1 == BUCKET_SIZE
      && triedTable.cells != newTable.cells
    }

    ghost function State(): (s: State)
      reads this, triedTable.cells, newTable.cells
    {
      AddrMan.State(cfg, idCount, info, ids, random, nTried, triedTable.Contents(), nNew, newTable.Contents(),
                    lastGood, collisions, counts)
    }

    constructor (cfg: Config)
      ensures Valid() && State() == Empty(cfg) && Inv(State())
      ensures fresh(triedTable) && fresh(triedTable.cells) && fresh(newTable) && fresh(newTable.cells)
    {
      var tried := new Table(TRIED_BUCKETS);
      var news := new Table(NEW_BUCKETS);
      this.cfg, triedTable, newTable := cfg, tried, news;
      idCount, info, ids, random, nTried, nNew := 0, map[], map[], [], 0, 0;
      lastGood, collisions, counts := 1, {}, map[];
      new;
      EmptyIsConsistent(cfg);
    }

    // -------------------------------------------------------------------------
    // Internal operations
    // -------------------------------------------------------------------------

    method FindId(a: Service) returns (r: Option<Id>)
      ensures r == Find(State(), a)
    {
      if a in ids && ids[a] in info { r := Some(ids[a]); } else { r := None; }
    }

    method Count(i: Info, d: int)
      requires Valid()
      modifies `nNew, `nTried, `counts
      ensures State() == Adjust(old(State()), i, d)
    {
      var net := cfg.network(i.addr.host);
      counts := counts[net := Bump(CountOf(counts, net), i.inTried, d)];
      if i.inTried { nTried := nTried + d; } else { nNew := nNew + d; }
    }

    /** A new entry under the next id. */
    method Admit(i: Info)
      requires Valid()
      modifies `idCount, `info, `ids, `random, `nNew, `nTried, `counts
      ensures State() == AddrMan.Admit(old(State()), i)
    {
      hide Table.Contents, Adjust;
      var id := idCount;
      idCount := idCount + 1;
      info := info[id := i];
      ids := ids[i.addr := id];
      random := random + [id];
      Count(i, 1);
    }

    method Create(a: Address, source: nat) returns (id: Id)
      requires Valid()
      modifies `idCount, `info, `ids, `random, `nNew, `nTried, `counts
      ensures id == old(idCount) && State() == AddrMan.Create(old(State()), a, source)
    {
      hide Table.Contents, AddrMan.Admit;
      id := idCount;
      Admit(Created(a, source, |random|));
    }

    method SwapRandom(i: nat, j: nat)
      requires Valid() && Shuffled(info, random) && i < |random| && j < |random|
      modifies `info, `random
      ensures State() == AddrMan.SwapRandom(old(State()), i, j)
    {
      if i == j { return; }
      var a, b := random[i], random[j];
      assert a in info && b in info;
      info := info[a := info[a].(randomPos := j)];
      info := info[b := info[b].(randomPos := i)];
      random := random[i := b][j := a];
    }

    method Delete(id: Id)
      requires Valid() && Shuffled(info, random) && id in info
      requires info[id].refCount == 0 && !info[id].inTried
      modifies `info, `ids, `random, `nNew, `nTried, `counts
      ensures State() == AddrMan.Delete(old(State()), id)
    {
      hide Table.Contents, AddrMan.SwapRandom, Adjust;
      var i := info[id];
      SwapRandom(i.randomPos, |random| - 1);
      random := random[..|random| - 1];
      ids := ids - {i.addr};
      info := info - {id};
      Count(i, -1);
    }

    /** Takes the reference out of an occupied slot of the new table. */
    method UnlinkSlot(slot: Slot)
      requires Valid() && newTable.Has(slot) && slot in State().newTable && State().newTable[slot] in info
      modifies `info, newTable.cells
      ensures State() == Unlink(old(State()), slot)
    {
      hide Table.Contents;
      var id := newTable.Get(slot);
      info := info[id := info[id].(refCount := info[id].refCount - 1)];
      newTable.Clear(slot);
    }

    method ClearNew(slot: Slot, ghost transit: set<Id>, ghost out: set<Id>)
      requires Valid() && InvBut(State(), transit, out) && newTable.Has(slot)
      requires slot in State().newTable ==> State().newTable[slot] !in transit && State().newTable[slot] !in out
      modifies `info, `ids, `random, `nNew, `nTried, `counts, newTable.cells
      ensures State() == AddrMan.ClearNew(old(State()), slot)
    {
      hide Table.Contents, Shuffled, RefsOk, Counted, TriedOk, NewOk, Indexed, AddrMan.Delete;
      var id := newTable.Get(slot);
      if id != EMPTY {
        UnlinkKeeps(State(), slot, transit, out);
        assert info[id].refCount > 0;
        UnlinkSlot(slot);
        if info[id].refCount == 0 {
          ShuffledPart(State(), transit + {id}, out);
          Delete(id);
        }
      }
    }

    /** The loop over all new buckets. */
    method UnlinkAll(id: Id, start: nat)
      requires Valid() && id in info && id != EMPTY
      modifies `info, newTable.cells
      ensures State() == AddrMan.UnlinkAll(old(State()), id, start, 0)
    {
      hide Table.Contents, AddrMan.UnlinkAll, Unlink;
      ghost var s := State();
      var n := 0;
      while n < NEW_BUCKETS
        invariant n <= NEW_BUCKETS && id in info
        invariant AddrMan.UnlinkAll(State(), id, start, n) == AddrMan.UnlinkAll(s, id, start, 0)
      {
        var slot := cfg.NewSlot(info[id].addr, (start + n) % NEW_BUCKETS);
        UnlinkAllOnce(State(), id, start, n);
        var there := newTable.Get(slot);
        if there == id {
          UnlinkSlot(slot);
          if info[id].refCount == 0 { return; }
        }
        n := n + 1;
      }
      UnlinkAllEnds(State(), id, start);
    }

    /** Takes the entry of a taken slot out of the tried table. */
    method Unseat(slot: Slot) returns (e: Id)
      requires Valid() && triedTable.Has(slot) && slot in State().triedTable && State().triedTable[slot] in info
      modifies `info, triedTable.cells
      ensures e == old(State()).triedTable[slot] && State() == Unseated(old(State()), slot)
    {
      hide Table.Contents;
      e := triedTable.Get(slot);
      info := info[e := info[e].(inTried := false)];
      triedTable.Clear(slot);
    }

    /** Enters an entry without references into a place of the new table. */
    method Enter(e: Id, place: Slot)
      requires Valid() && newTable.Has(place) && e in info && e != EMPTY && info[e].refCount == 0
      modifies `info, newTable.cells
      ensures State() == Link(old(State()), e, place)
    {
      hide Table.Contents;
      info := info[e := info[e].(refCount := 1)];
      newTable.Set(place, e);
    }

    /** Moves the entry of a taken tried slot to the new table, in favour of `id`. */
    method Evict(slot: Slot, ghost id: Id)
      requires Valid() && InvBut(State(), {id}, {id}) && triedTable.Has(slot)
      requires slot in State().triedTable && State().triedTable[slot] != id && id in info && info[id].refCount == 0
      modifies `info, `ids, `random, `nNew, `nTried, `counts, newTable.cells, triedTable.cells
      ensures State() == AddrMan.Evict(old(State()), slot)
    {
      hide Table.Contents, Occ, Shuffled, RefsOk, Counted, TriedOk, NewOk, Indexed, AddrMan.ClearNew, Adjust, Unseated, Link,
        AddrMan.Evict, Shrinks;
      ghost var s := State();
      UnseatKeeps(s, slot, {id}, {id});
      var e := Unseat(slot);
      UnseatedAt(s, slot);
      var i := info[e].(inTried := true);
      Count(i, -1);
      ghost var t := State();
      var place := cfg.NewSlot(i.addr, cfg.NewBucket(i.addr, i.source));
      EvictClears(s, t, slot, id, place);
      ClearNew(place, {id} + {e}, {id} + {e});
      var there := newTable.Get(place);
      assert there == EMPTY;
      Enter(e, place);
      Count(i.(inTried := false), 1);
      EvictIs(s, slot);
    }

    method MakeTried(id: Id)
      requires Valid() && InvBut(State(), {}, {}) && id in info && !info[id].inTried && info[id].lastSuccess > 0
      modifies `info, `ids, `random, `nNew, `nTried, `counts, newTable.cells, triedTable.cells
      ensures State() == AddrMan.MakeTried(old(State()), id)
    {
      hide Table.Contents, Occ, Shuffled, RefsOk, Counted, TriedOk, NewOk, Indexed, AddrMan.Evict, AddrMan.UnlinkAll, Shrinks,
        Evicted, Adjust;
      ghost var s := State();
      var i := info[id];
      IdsArePositive(s, id);
      MarkKeeps(s, id, {}, {});
      assert {} + {id} == {id};
      var start := cfg.NewBucket(i.addr, i.source);
      UnlinkAllKeeps(s, id, start, 0);
      UnlinkAll(id, start);
      ghost var t := State();
      UnlinkedStays(s, t, id);
      UncountKeeps(t, id, i, {id}, {});
      Count(i, -1);
      assert info[id].refCount == 0;
      var slot := cfg.TriedSlot(i.addr);
      var there := triedTable.Get(slot);
      if there != EMPTY {
        ghost var u := State();
        TriedIsSeated(u, slot);
        EvictKeeps(u, slot, id);
        Evict(slot, id);
      }
      there := triedTable.Get(slot);
      assert there == EMPTY;
      triedTable.Set(slot, id);
      info := info[id := info[id].(inTried := true)];
      Count(i.(inTried := true), 1);
    }

    // -------------------------------------------------------------------------
    // Public operations
    // -------------------------------------------------------------------------

    /** 2^n by doubling. */
    method FactorOf(n: int) returns (f: nat)
      ensures f == Factor(n)
    {
      f := 1;
      var k := 0;
      while k < n
        invariant 0 <= k <= Max(0, n) && f == Factor(k)
      {
        f := f * 2;
        k := k + 1;
      }
    }

    /** Finds a place in the new table for an entry that exists. */
    method Insert(id: Id, source: nat, now: int) returns (inserted: bool)
      requires Valid() && InvBut(State(), {id}, {}) && id in info && !info[id].inTried && info[id].refCount < MAX_REFS
      modifies `info, `ids, `random, `nNew, `nTried, `counts, newTable.cells
      ensures (State(), inserted) == AddrMan.Insert(old(State()), id, source, now)
    {
      hide Table.Contents, Occ, Shuffled, RefsOk, Counted, TriedOk, NewOk, Indexed, AddrMan.ClearNew, AddrMan.Delete, Shrinks, Link,
        Info.IsTerrible;
      ghost var s := State();
      IdsArePositive(s, id);
      var a := info[id].addr;
      var slot := cfg.NewSlot(a, cfg.NewBucket(a, source));
      var there := newTable.Get(slot);
      inserted := there == EMPTY;
      if there != id {
        if !inserted {
          UnlinkTable(s, slot);
          var other := info[there];
          if other.IsTerrible(now) || (other.refCount > 1 && info[id].refCount == 0) {
            inserted := true;
          }
        }
        if inserted {
          ClearNewKeeps(s, slot, {id}, {});
          ClearNew(slot, {id}, {});
          ClearsOther(s, slot, id);
          LinkEntry(id, slot);
        } else if info[id].refCount == 0 {
          ShuffledPart(s, {id}, {});
          Delete(id);
        }
      }
    }

    /** Writes a reference to an entry into the new table. */
    method LinkEntry(id: Id, slot: Slot)
      requires Valid() && newTable.Has(slot) && id in info && id != EMPTY
      modifies `info, newTable.cells
      ensures State() == Link(old(State()), id, slot)
    {
      hide Table.Contents;
      info := info[id := info[id].(refCount := info[id].refCount + 1)];
      newTable.Set(slot, id);
    }

    method AddSingle(a: Address, source: nat, timePenalty: int, now: int, draw: nat) returns (inserted: bool)
      requires Valid() && Inv(State())
      modifies `idCount, `info, `ids, `random, `nNew, `nTried, `counts, newTable.cells
      ensures (State(), inserted) == AddrMan.AddSingle(old(State()), a, source, timePenalty, now, draw) && Inv(State())
    {
      hide Table.Contents, InvBut, Indexed, CollisionsOk, RoutableOnly, AddrMan.Insert, Factor, Calm, AddrMan.Create, Find,
        Refreshed, MayReference;
      ghost var s := State();
      AddSingleKeeps(s, a, source, timePenalty, now, draw);
      if !cfg.Routable(a.service.host) { return false; }
      var found := FindId(a.service);
      InvIndexed(s);
      FindIs(s, a.service);
      var penalty := timePenalty;
      if a.service.host == source { penalty := 0; }
      if found.Some? {
        inserted := AddKnown(found.value, a, source, penalty, now, draw);
      } else {
        inserted := AddNew(a, source, penalty, now);
      }
    }

    /** Brings time and services of an entry up to date. */
    method Refresh(id: Id, a: Address, penalty: int, now: int)
      requires id in info
      modifies `info
      ensures State() == old(State()).With(id, Refreshed(old(info)[id], a, penalty, now))
    {
      hide Table.Contents;
      var i := info[id];
      var online := now - a.time < DAY;
      var interval := if online then HOUR else DAY;
      if i.time < a.time - interval - penalty {
        i := i.(time := Max(0, a.time - penalty));
      }
      i := i.(services := i.services + a.services);
      info := info[id := i];
    }

    /** The part of AddSingle for an address that has an entry. */
    method AddKnown(id: Id, a: Address, source: nat, penalty: int, now: int, draw: nat) returns (inserted: bool)
      requires Valid() && InvBut(State(), {}, {}) && id in info
      modifies `info, `ids, `random, `nNew, `nTried, `counts, newTable.cells
      ensures var s := old(State());
              var i := Refreshed(s.info[id], a, penalty, now);
              (State(), inserted) == if MayReference(i, a, draw) then AddrMan.Insert(s.With(id, i), id, source, now) else (s.With(id, i), false)
    {
      hide Table.Contents, Occ, Shuffled, RefsOk, Counted, TriedOk, NewOk, Indexed, AddrMan.Insert, Factor;
      ghost var s := State();
      NotNegative(s, id, {});
      ghost var i := Refreshed(info[id], a, penalty, now);
      Refresh(id, a, penalty, now);
      if a.time <= info[id].time { return false; }
      if info[id].inTried { return false; }
      if info[id].refCount == MAX_REFS { return false; }
      var factor := FactorOf(info[id].refCount);
      if factor > 1 && draw % factor != 0 { return false; }
      WithKeeps(s, id, i, {}, {});
      MarkKeeps(State(), id, {}, {});
      assert {} + {id} == {id};
      inserted := Insert(id, source, now);
    }

    /** The part of AddSingle for an address not known before. */
    method AddNew(a: Address, source: nat, penalty: int, now: int) returns (inserted: bool)
      requires Valid() && InvBut(State(), {}, {}) && a.service !in ids
      modifies `idCount, `info, `ids, `random, `nNew, `nTried, `counts, newTable.cells
      ensures var t := AddrMan.Create(old(State()), a, source);
              var id := old(idCount);
              (State(), inserted) == AddrMan.Insert(t.With(id, t.At(id).(time := Max(0, t.At(id).time - penalty))), id, source, now)
    {
      hide Table.Contents, Occ, Shuffled, RefsOk, Counted, TriedOk, NewOk, Indexed, AddrMan.Insert, Adjust;
      ghost var s := State();
      AdmitKeeps(s, Created(a, source, |random|), {});
      assert {} + {s.idCount} == {s.idCount};
      var id := Create(a, source);
      ghost var t := State();
      var i := info[id].(time := Max(0, info[id].time - penalty));
      WithKeeps(t, id, i, {id}, {});
      info := info[id := i];
      assert State() == t.With(id, i);
      inserted := Insert(id, source, now);
    }

    method Add(addrs: seq<Address>, source: nat, timePenalty: int, now: nat -> int, draw: nat -> nat) returns (any: bool)
      requires Valid() && Inv(State())
      modifies `idCount, `info, `ids, `random, `nNew, `nTried, `counts, newTable.cells
      ensures State() == AddrMan.Add(old(State()), addrs, source, timePenalty, now, draw).0 && Inv(State())
      ensures any <==> AddrMan.Add(old(State()), addrs, source, timePenalty, now, draw).1 > 0
    {
      hide Table.Contents, Inv, AddrMan.AddSingle;
      ghost var s := State();
      var added := 0;
      for k := 0 to |addrs|
        invariant (State(), added) == AddrMan.Add(s, addrs[..k], source, timePenalty, now, draw) && Inv(State())
      {
        var inserted := AddSingle(addrs[k], source, timePenalty, now(k), draw(k));
        if inserted { added := added + 1; }
        assert addrs[..k + 1][..k] == addrs[..k];
      }
      assert addrs[..|addrs|] == addrs;
      any := added > 0;
    }

    method Good(a: Service, testBeforeEvict: bool, time: int) returns (moved: bool)
      requires Valid() && Inv(State()) && time > 0
      modifies `info, `ids, `random, `nNew, `nTried, `counts, `lastGood, `collisions, newTable.cells, triedTable.cells
      ensures (State(), moved) == AddrMan.Good(old(State()), a, testBeforeEvict, time)
    {
      hide Table.Contents, Occ, Shuffled, RefsOk, Counted, TriedOk, NewOk, Indexed, CollisionsOk, RoutableOnly, AddrMan.MakeTried, Calm,
        Find;
      ghost var s := State();
      lastGood := time;
      var found := FindId(a);
      FindIs(State(), a);
      if found.None? { return false; }
      var id := found.value;
      GoodTouches(s, id, time);
      NotNegativeInv(s, id);
      var i := info[id].(lastSuccess := time, lastTry := time, attempts := 0);
      info := info[id := i];
      if i.inTried { return false; }
      assert i.refCount > 0;
      var slot := cfg.TriedSlot(i.addr);
      var there := triedTable.Get(slot);
      if testBeforeEvict && there != EMPTY {
        if |collisions| < MAX_COLLISIONS { collisions := collisions + {id}; }
        return false;
      }
      MakeTried(id);
      moved := true;
    }

    method Attempt(a: Service, countFailure: bool, time: int)
      requires Valid() && Inv(State()) && time >= 0
      modifies `info
      ensures State() == AddrMan.Attempt(old(State()), a, countFailure, time) && Inv(State())
    {
      hide Table.Contents, Inv, Calm;
      AttemptKeeps(State(), a, countFailure, time);
      var found := FindId(a);
      if found.None? { return; }
      var id := found.value;
      info := info[id := info[id].(lastTry := time)];
      if countFailure && info[id].lastCountAttempt < lastGood {
        info := info[id := info[id].(lastCountAttempt := time, attempts := info[id].attempts + 1)];
      }
    }

    method Connected(a: Service, time: int)
      requires Valid() && Inv(State())
      modifies `info
      ensures State() == AddrMan.Connected(old(State()), a, time) && Inv(State())
    {
      hide Table.Contents, Inv, Calm;
      ConnectedKeeps(State(), a, time);
      var found := FindId(a);
      if found.None? { return; }
      var id := found.value;
      if time - info[id].time > 20 * MINUTE { info := info[id := info[id].(time := time)]; }
    }

    method SetServices(a: Service, services: Services)
      requires Valid() && Inv(State())
      modifies `info
      ensures State() == AddrMan.SetServices(old(State()), a, services) && Inv(State())
    {
      hide Table.Contents, Inv, Calm;
      SetServicesKeeps(State(), a, services);
      var found := FindId(a);
      if found.None? { return; }
      info := info[found.value := info[found.value].(services := services)];
    }

    method GetAddr(maxAddresses: nat, maxPct: nat, net: Option<nat>, now: int, draw: nat -> nat) returns (got: seq<Address>)
      requires Valid() && Inv(State())
      modifies `info, `random
      ensures (State(), got) == AddrMan.GetAddr(old(State()), maxAddresses, maxPct, net, now, draw) && Inv(State())
      ensures Distinct(got)
    {
      hide Table.Contents, Inv, Calm, AddrMan.SwapRandom, Wanted, Gather, Limit, Shuffled, Indexed, From, Distinct,
        AllGot;
      ghost var s := State();
      GetAddrKeeps(s, maxAddresses, maxPct, net, now, draw);
      var limit := Limit(|random|, maxAddresses, maxPct);
      got := [];
      var n := 0;
      while n < |random| && |got| < limit
        invariant n <= |random| == |s.random| && Inv(State())
        invariant Gather(State(), n, limit, net, now, draw, got) == Gather(s, 0, limit, net, now, draw, [])
      {
        ghost var u := State();
        GatherOnce(u, n, limit, net, now, draw, got);
        var pos := draw(n) % (|random| - n) + n;
        InvShuffled(u);
        SwapKeepsInv(u, n, pos);
        SwapRandom(n, pos);
        InvShuffled(State());
        InRandom(State(), n, n);
        var i := info[random[n]];
        if Wanted(cfg, i, net, now) { got := got + [AddressOf(i)]; }
        n := n + 1;
      }
      GatherEnds(State(), n, limit, net, now, draw, got);
    }

    /** What becomes of one recorded collision. */
    method ResolveOne(id: Id, now: int)
      requires Valid() && Inv(State()) && id in collisions && now > 0
      modifies `info, `ids, `random, `nNew, `nTried, `counts, `lastGood, `collisions, newTable.cells, triedTable.cells
      ensures State() == AddrMan.ResolveOne(old(State()), id, now) && Inv(State())
    {
      hide Table.Contents, Inv, AddrMan.Good, ResolvedOne;
      ghost var s := State();
      ResolveOneKeeps(s, id, now);
      var forget := false;
      if id !in info {
        forget := true;
      } else {
        var challenger := info[id];
        var slot := cfg.TriedSlot(challenger.addr);
        var there := triedTable.Get(slot);
        if !cfg.valid(challenger.addr.host) {
          forget := true;
        } else if there != EMPTY {
          TriedInv(s, slot);
          var holder := info[there];
          if now - holder.lastSuccess < REPLACEMENT {
            forget := true;
          } else if now - holder.lastTry < REPLACEMENT {
            if now - holder.lastTry > MINUTE {
              var moved := Good(challenger.addr, false, now);
              forget := true;
            }
          } else if now - challenger.lastSuccess > TEST_WINDOW {
            var moved := Good(challenger.addr, false, now);
            forget := true;
          }
        } else {
          var moved := Good(challenger.addr, false, now);
          forget := true;
        }
      }
      if forget { collisions := collisions - {id}; }
    }

    method ResolveCollisions(now: Id -> int)
      requires Valid() && Inv(State()) && forall c :: now(c) > 0
      modifies `info, `ids, `random, `nNew, `nTried, `counts, `lastGood, `collisions, newTable.cells, triedTable.cells
      ensures State() == AddrMan.ResolveCollisions(old(State()), now) && Inv(State())
    {
      hide Table.Contents, Inv, AddrMan.ResolveOne, ResolvedOne;
      ghost var s := State();
      var todo := collisions;
      while todo != {}
        invariant Inv(State()) && todo <= collisions
        invariant ResolveFrom(State(), todo, now) == ResolveFrom(s, s.collisions, now)
        decreases |todo|
      {
        var id := Least(todo);
        ghost var u := State();
        ResolveOneKeeps(u, id, now(id));
        ResolvedFacts(u, AddrMan.ResolveOne(u, id, now(id)), id, now(id));
        ResolveOne(id, now(id));
        todo := todo - {id};
      }
    }

    method SelectTriedCollision(draw: nat) returns (found: Option<Info>)
      requires Valid() && Inv(State())
      modifies `collisions, `info
      ensures (State(), found) == AddrMan.SelectTriedCollision(old(State()), draw) && Inv(State())
    {
      hide Table.Contents, Inv, Calm, Nth;
      ghost var s := State();
      SelectTriedCollisionKeeps(s, draw);
      if |collisions| == 0 { return None; }
      var id := Nth(collisions, draw % |collisions|);
      if id !in info {
        collisions := collisions - {id};
        return None;
      }
      var there := triedTable.Get(cfg.TriedSlot(info[id].addr));
      info := if there in info then info else info[there := BLANK];
      found := Some(info[there]);
    }

    // -------------------------------------------------------------------------
    // Consistency check
    // -------------------------------------------------------------------------

    method CheckEntry(id: Id) returns (code: int)
      requires id in info
      ensures code == EntryCode(State(), id)
    {
      hide Table.Contents;
      var i := info[id];
      if i.inTried {
        if i.lastSuccess == 0 { return -1; }
        if i.refCount != 0 { return -2; }
      } else {
        if i.refCount < 0 || i.refCount > MAX_REFS { return -3; }
        if i.refCount == 0 { return -4; }
      }
      if i.addr !in ids || ids[i.addr] != id { return -5; }
      if i.randomPos < 0 || i.randomPos >= |random| || random[i.randomPos] != id { return -14; }
      if i.lastTry < 0 { return -6; }
      if i.lastSuccess < 0 { return -8; }
      code := 0;
    }

    /** The pass over the entries. */
    method CheckEntries() returns (code: int, g: Seen)
      ensures code == 0 <==> forall id :: id in info ==> EntryCode(State(), id) == 0
      ensures code != 0 ==> exists id :: id in info && EntryCode(State(), id) == code
      ensures code == 0 ==> SeenAll(cfg, g, info)
    {
      hide Table.Contents, SeenAll, EntryCode, See;
      ghost var s := State();
      SeenNothing(cfg);
      var todo := info.Keys;
      assert info - todo == map[];
      code, g := 0, NOTHING;
      while todo != {}
        invariant todo <= info.Keys && code == 0
        invariant SeenAll(cfg, g, info - todo)
        invariant forall id :: id in info && id !in todo ==> EntryCode(s, id) == 0
        decreases |todo|
      {
        var id := Least(todo);
        SeenMore(cfg, g, info - todo, id, info[id]);
        assert (info - todo)[id := info[id]] == info - (todo - {id});
        code := CheckEntry(id);
        if code != 0 { return; }
        g := See(cfg, g, id, info[id]);
        todo := todo - {id};
      }
      assert info - {} == info;
    }

    /** One slot of the tried table. */
    method CheckTriedSlot(left: set<Id>, t: Slot) returns (code: int, r: set<Id>)
      requires Valid() && triedTable.Has(t)
      ensures code == TriedCode(State(), left, t) && (code == 0 ==> r == TriedNext(State(), left, t))
    {
      hide Table.Contents;
      r := left;
      var id := triedTable.Get(t);
      if id == EMPTY { return 0, r; }
      if id !in left { return -11, r; }
      if id !in info || cfg.TriedSlot(info[id].addr).bucket != t.bucket { return -17, r; }
      if cfg.TriedSlot(info[id].addr).pos != t.pos { return -18, r; }
      return 0, left - {id};
    }

    /** The pass over the tried table. */
    method CheckTried(tried: set<Id>) returns (code: int, left: set<Id>)
      requires Valid() && AllTried(State(), tried) && TriedVisited(State(), tried, tried, 0, 0)
      ensures code == 0 <==> TriedPlaced(State())
      ensures if code == 0 then left == {} <==> TriedOk(cfg, info, triedTable.Contents())
              else exists t :: TriedFault(State(), t, code)
    {
      hide Table.Contents, AllTried, TriedVisited, TriedCode, TriedNext, TriedOk, Fits, TriedPlaced, TriedFault;
      ghost var s := State();
      TablesFit();
      code, left := 0, tried;
      for n := 0 to TRIED_BUCKETS
        invariant TriedVisited(s, tried, left, n, 0)
      {
        for i := 0 to BUCKET_SIZE
          invariant TriedVisited(s, tried, left, n, i)
        {
          TriedStep(s, tried, left, Slot(n, i));
          code, left := CheckTriedSlot(left, Slot(n, i));
          if code != 0 { return; }
        }
        TriedRowEnds(s, tried, left, n);
      }
      code := 0;
      TriedAllSeen(s, tried, left);
    }

    lemma TablesFit()
      requires Valid()
      ensures Fits(State())
    {
      forall t | t in triedTable.Contents() ensures t.bucket < TRIED_BUCKETS && t.pos < BUCKET_SIZE { triedTable.ContentsAt(t); }
      forall t | t in newTable.Contents() ensures t.bucket < NEW_BUCKETS && t.pos < BUCKET_SIZE { newTable.ContentsAt(t); }
    }

    /** One slot of the new table. */
    method CheckNewSlot(left: map<Id, int>, t: Slot) returns (code: int, r: map<Id, int>)
      requires Valid() && newTable.Has(t)
      ensures code == NewCode(State(), left, t) && (code == 0 ==> r == NewNext(State(), left, t))
    {
      hide Table.Contents;
      r := left;
      var id := newTable.Get(t);
      if id == EMPTY { return 0, r; }
      if id !in left { return -12, r; }
      if id !in info || cfg.NewSlot(info[id].addr, t.bucket).pos != t.pos { return -19, r; }
      r := left[id := left[id] - 1];
      if r[id] == 0 {
        r := r - {id};
        assert r == left - {id};
      }
      code := 0;
    }

    /** The pass over the new table. */
    method CheckNew(refs: map<Id, int>) returns (code: int, left: map<Id, int>)
      requires Valid() && AllRefs(State(), refs) && NewVisited(State(), refs, refs, 0, 0)
      ensures code == 0 <==> NewPlaced(State())
      ensures if code == 0 then left == map[] <==> NewExact(State()) else exists t :: NewFault(State(), t, code)
    {
      hide Table.Contents, AllRefs, NewVisited, NewCode, NewNext, NewExact, Fits, NewPlaced, NewFault;
      ghost var s := State();
      TablesFit();
      code, left := 0, refs;
      for n := 0 to NEW_BUCKETS
        invariant NewVisited(s, refs, left, n, 0)
      {
        for i := 0 to BUCKET_SIZE
          invariant NewVisited(s, refs, left, n, i)
        {
          NewStep(s, refs, left, Slot(n, i));
          code, left := CheckNewSlot(left, Slot(n, i));
          if code != 0 { return; }
        }
        NewRowEnds(s, refs, left, n);
      }
      code := 0;
      NewAllSeen(s, refs, left);
    }

    /** The counts kept against those gathered. */
    method CheckCounts(local: map<nat, Count>) returns (code: int)
      ensures code == if forall net :: net in counts ==> counts[net] == CountOf(local, net) then 0 else -21
    {
      var todo := counts.Keys;
      while todo != {}
        invariant todo <= counts.Keys
        invariant forall net :: net in counts && net !in todo ==> counts[net] == CountOf(local, net)
        decreases |todo|
      {
        var net: nat :| net in todo;
        if CountOf(local, net) != counts[net] { return -21; }
        todo := todo - {net};
      }
      code := 0;
    }

    /** Zero exactly when the manager satisfies what is checked; otherwise the code of what it does not. */
    method CheckAddrman() returns (code: int)
      requires Valid()
      ensures Explains(State(), code)
      ensures code == 0 <==> Checked(State())
    {
      hide Table.Contents, AllTried, TriedVisited, AllRefs, NewVisited, NewExact, TriedOk, Tally, Networks, EntryCode, SeenSets,
        TriedPlaced, TriedFault, NewPlaced, NewFault, Checked;
      ghost var s := State();
      forall c | Explains(s, c) ensures c == 0 <==> Checked(s) { ExplainsZero(s, c); }
      if |random| != nTried + nNew { return -7; }
      var g;
      code, g := CheckEntries();
      if code != 0 { return; }
      VisitsStart(s, g);
      if |g.tried| != nTried { return -9; }
      if |g.refs| != nNew { return -10; }
      var setTried, mapNew;
      code, setTried := CheckTried(g.tried);
      if code != 0 { return; }
      code, mapNew := CheckNew(g.refs);
      if code != 0 { return; }
      if |setTried| != 0 { return -13; }
      if |mapNew| != 0 { return -15; }
      if cfg.key == 0 { return -16; }
      assert |g.counts| == |g.counts.Keys|;
      if |counts| < |g.counts| { return -20; }
      code := CheckCounts(g.counts);
    }

    // -------------------------------------------------------------------------
    // Saving and loading
    // -------------------------------------------------------------------------

    /** The ranks and the list of the entries to keep. */
    method SelectEntries(order: seq<Id>, wantTried: bool) returns (ranks: map<Id, nat>, kept: seq<Id>)
      requires forall id :: id in order ==> id in info
      ensures var keep := if wantTried then IsTried(State()) else HasRefs(State());
              ranks == Ranks(order, keep) && kept == Filter(order, keep)
    {
      hide Table.Contents;
      ghost var keep := if wantTried then IsTried(State()) else HasRefs(State());
      ranks, kept := map[], [];
      for k := 0 to |order|
        invariant ranks == Ranks(order[..k], keep) && kept == Filter(order[..k], keep)
      {
        assert order[..k + 1][..k] == order[..k];
        var id := order[k];
        assert id in order;
        ranks := ranks[id := |kept|];
        if (if wantTried then info[id].inTried else info[id].refCount != 0) { kept := kept + [id]; }
      }
      assert order[..|order|] == order;
    }

    /** The references of one bucket. */
    method SaveRow(ranks: map<Id, nat>, bucket: nat) returns (row: seq<int>)
      requires Valid() && bucket < NEW_BUCKETS
      ensures row == Row(State(), ranks, bucket)
    {
      hide Table.Contents, RowSlots;
      row := [];
      ghost var s := State();
      ghost var q: seq<Slot> := [];
      RowSlotsEmpty(s, bucket);
      for p := 0 to BUCKET_SIZE
        invariant q == RowSlots(s, bucket, p) && |row| == |q|
        invariant forall k :: 0 <= k < |q| ==> row[k] == if q[k] in s.newTable then Index(ranks, s.newTable[q[k]]) else 0
      {
        RowSlotsNext(s, bucket, p);
        var id := newTable.Get(Slot(bucket, p));
        if id != EMPTY {
          row := row + [Index(ranks, id)];
          q := q + [Slot(bucket, p)];
        }
      }
    }

    /** Writes the manager; `order` is the order of the entry map. */
    method Serialize(order: seq<Id>, asmap: nat) returns (f: File)
      requires Valid() && forall id :: id in order ==> id in info
      ensures f == AddrManDisk.Serialize(State(), order, asmap)
    {
      hide Table.Contents, Ranks, Filter, Row, RowSlots;
      var ranks, news := SelectEntries(order, false);
      var _, trieds := SelectEntries(order, true);
      var rows := [];
      for b := 0 to NEW_BUCKETS
        invariant |rows| == b && forall k :: 0 <= k < b ==> rows[k] == Row(State(), ranks, k)
      {
        var row := SaveRow(ranks, b);
        rows := rows + [row];
      }
      var a, b := RecordsOf(news), RecordsOf(trieds);
      f := File(FILE_FORMAT, INCOMPATIBILITY_BASE + FILE_FORMAT, cfg.key, nNew, nTried, FlipBit30(NEW_BUCKETS), a, b, rows, asmap);
    }

    function RecordsOf(q: seq<Id>): (r: seq<Record>)
      reads this, triedTable.cells, newTable.cells
      ensures r == Records(State(), q)
    {
      seq(|q|, k requires 0 <= k < |q| reads this => ToRecord(if q[k] in info then info[q[k]] else BLANK))
    }

    method ReadNewEntries(recs: seq<Record>, n: nat)
      requires Valid() && n <= |recs|
      modifies `idCount, `info, `ids, `random, `nNew, `nTried, `counts
      ensures State() == ReadNew(old(State()), recs, n)
    {
      hide Table.Contents, AddrMan.Admit;
      for k := 0 to n
        invariant State() == ReadNew(old(State()), recs, k)
      {
        Admit(FromRecord(recs[k], |random|));
      }
    }

    method ReadTriedEntries(recs: seq<Record>, n: nat)
      requires Valid() && n <= |recs| && Sane(State())
      modifies `idCount, `info, `ids, `random, `nNew, `nTried, `counts, triedTable.cells
      ensures State() == ReadTried(old(State()), recs, n)
    {
      hide Table.Contents, AddrMan.Admit, Sane, FromRecord;
      ghost var s := State();
      for k := 0 to n
        invariant State() == ReadTried(s, recs, k)
      {
        ReadTriedSane(s, recs, k, 0);
        SaneParts(State());
        ReadTriedEntry(recs[k]);
      }
    }

    method ReadTriedEntry(rec: Record)
      requires Valid() && 0 <= idCount
      modifies `idCount, `info, `ids, `random, `nNew, `nTried, `counts, triedTable.cells
      ensures var t := old(State());
              var i := FromRecord(rec, |t.random|).(inTried := true);
              var slot := t.cfg.TriedSlot(i.addr);
              State() == if t.cfg.valid(i.addr.host) && slot !in t.triedTable
                         then AddrMan.Admit(t, i).(triedTable := t.triedTable[slot := t.idCount]) else t
    {
      hide Table.Contents, AddrMan.Admit;
      var i := FromRecord(rec, |random|).(inTried := true);
      var slot := cfg.TriedSlot(i.addr);
      var there := triedTable.Get(slot);
      if cfg.valid(i.addr.host) && there == EMPTY {
        var id := idCount;
        AdmitKeepsTried(State(), i);
        Admit(i);
        triedTable.Set(slot, id);
      }
    }

    /** The references of the first `n` buckets, those out of range left out. */
    method ReadEntries(rows: seq<seq<int>>, count: int, n: nat) returns (q: seq<Entry>)
      requires n <= |rows|
      ensures q == Entries(rows, count, n)
    {
      q := [];
      for b := 0 to n
        invariant q == Entries(rows, count, b)
      {
        ghost var before := q;
        for k := 0 to |rows[b]|
          invariant q == before + RowEntries(b, rows[b], count, k)
        {
          var index := rows[b][k];
          if 0 <= index < count { q := q + [Entry(b, index)]; }
        }
      }
    }

    method RestoreEntry(e: Entry, sameBuckets: bool)
      requires Valid() && e.index in info && e.index != EMPTY && (sameBuckets ==> e.bucket < NEW_BUCKETS)
      modifies `info, newTable.cells
      ensures State() == RestoreOne(old(State()), e, sameBuckets)
    {
      hide Table.Contents, Link;
      var i := info[e.index];
      if !cfg.valid(i.addr.host) { return; }
      if i.refCount >= MAX_REFS { return; }
      var slot := cfg.NewSlot(i.addr, e.bucket);
      var there := EMPTY;
      if sameBuckets { there := newTable.Get(slot); }
      if sameBuckets && there == EMPTY {
        LinkEntry(e.index, slot);
      } else {
        var home := cfg.NewSlot(i.addr, cfg.NewBucket(i.addr, i.source));
        there := newTable.Get(home);
        if there == EMPTY { LinkEntry(e.index, home); }
      }
    }

    method RestoreEntries(q: seq<Entry>, sameBuckets: bool, ghost buckets: nat, ghost n: int)
      requires Valid() && Sane(State()) && HasIds(State(), n) && InRange(q, buckets, n) && (sameBuckets ==> buckets <= NEW_BUCKETS)
      modifies `info, newTable.cells
      ensures State() == Restore(old(State()), q, sameBuckets) && Sane(State())
    {
      hide Table.Contents, RestoreOne, Sane;
      ghost var s := State();
      for k := 0 to |q|
        invariant State() == Restore(s, q[..k], sameBuckets) && Sane(State()) && HasIds(State(), n)
      {
        assert q[..k + 1][..k] == q[..k];
        RestoreOneSane(State(), q[k], sameBuckets, n);
        RestoreEntry(q[k], sameBuckets);
      }
      assert q[..|q|] == q;
    }

    method PruneEntries(order: seq<Id>)
      requires Valid() && Sane(State())
      modifies `info, `ids, `random, `nNew, `nTried, `counts
      ensures State() == Prune(old(State()), order)
    {
      hide Table.Contents, AddrMan.Delete, Sane;
      ghost var s := State();
      for k := 0 to |order|
        invariant State() == Prune(s, order[..k]) && Sane(State())
      {
        assert order[..k + 1][..k] == order[..k];
        var id := order[k];
        if id in info && !info[id].inTried && info[id].refCount == 0 {
          DeleteSane(State(), id);
          SaneParts(State());
          Delete(id);
        }
      }
      assert order[..|order|] == order;
    }

    /** Reads what follows the header of a file. */
    method ReadBody(f: File, nBuckets: int, asmap: nat, visit: set<Id> -> seq<Id>)
      requires Valid() && Sane(State()) && idCount == 0
      requires 0 <= f.nNew <= |f.news| && 0 <= f.nTried <= |f.trieds| && nBuckets <= |f.buckets|
      modifies `idCount, `info, `ids, `random, `nNew, `nTried, `counts, triedTable.cells, newTable.cells
      ensures State() == LoadBody(old(State()), f, nBuckets, asmap, visit)
    {
      hide Table.Contents, ReadNew, ReadTried, Entries, Restore, Prune, Sane, HasIds, InRange;
      ReadNewSane(State(), f.news, f.nNew);
      ReadNewEntries(f.news, f.nNew);
      ReadTriedSane(State(), f.trieds, f.nTried, f.nNew);
      ReadTriedEntries(f.trieds, f.nTried);
      var rows := if nBuckets < 0 then 0 else nBuckets;
      var q := ReadEntries(f.buckets, f.nNew, rows);
      EntriesInRange(f.buckets, f.nNew, rows);
      var saved := if f.format >= 2 then f.asmap else 0;
      RestoreEntries(q, nBuckets == NEW_BUCKETS && saved == asmap, rows, f.nNew);
      PruneEntries(visit(info.Keys));
    }

    /**
     Reads a file into an empty manager; `visit` is the order of the entry map. The result is
     that of Load, followed by the consistency check.
     */
    method Unserialize(f: File, asmap: nat, visit: set<Id> -> seq<Id>) returns (failed: Option<Error>, code: int)
      requires Valid() && State() == Empty(cfg)
      modifies this, triedTable.cells, newTable.cells
      ensures match Load(old(cfg), f, asmap, visit)
              case Failure(error) => failed == Some(error)
              case Success(s) => failed == None && State() == s && (code == 0 <==> InvBut(s, {}, {}) && f.key != 0)
    {
      hide Table.Contents, LoadBody, Sane, Checked, InvBut;
      code := 0;
      if f.compat < INCOMPATIBILITY_BASE { return Some(BadCompat), code; }
      if f.compat - INCOMPATIBILITY_BASE > FILE_FORMAT { return Some(Unsupported), code; }
      var nBuckets := f.bucketField;
      if f.format >= 1 { nBuckets := FlipBit30(nBuckets); }
      if !(0 <= f.nNew <= NEW_BUCKETS * BUCKET_SIZE) { return Some(BadNewCount), code; }
      if !(0 <= f.nTried <= TRIED_BUCKETS * BUCKET_SIZE) { return Some(BadTriedCount), code; }
      if f.nNew > |f.news| || f.nTried > |f.trieds| || nBuckets > |f.buckets| { return Some(EndOfFile), code; }
      cfg := cfg.(key := f.key);
      EmptySane(cfg);
      ReadBody(f, nBuckets, asmap, visit);
      failed := None;
      LoadedIsCheckedExactly(old(cfg), f, asmap, visit);
      code := CheckAddrman();
    }
  }

  lemma ShuffledPart(s: State, transit: set<Id>, out: set<Id>)
    requires InvBut(s, transit, out)
    ensures Shuffled(s.info, s.random)
  {
  }

  lemma AdmitKeepsTried(s: State, i: Info)
    ensures AddrMan.Admit(s, i).triedTable == s.triedTable
  {
  }

  lemma SaneParts(s: State)
    requires Sane(s)
    ensures Shuffled(s.info, s.random) && 0 <= s.idCount
  {
  }

  lemma RowSlotsEmpty(s: State, bucket: nat)
    ensures RowSlots(s, bucket, 0) == []
  {
  }

  lemma RowSlotsNext(s: State, bucket: nat, n: nat)
    ensures RowSlots(s, bucket, n + 1) == RowSlots(s, bucket, n) + if Slot(bucket, n) in s.newTable then [Slot(bucket, n)] else []
  {
  }

  lemma SwapKeepsInv(s: State, i: nat, j: nat)
    requires Inv(s) && i <= j < |s.random|
    ensures Inv(AddrMan.SwapRandom(s, i, j)) && |AddrMan.SwapRandom(s, i, j).random| == |s.random|
  {
    SwapLater(s, i, j, [], None, 0);
  }

  lemma TriedInv(s: State, slot: Slot)
    requires Inv(s) && slot in s.triedTable
    ensures s.triedTable[slot] in s.info
  {
  }

  lemma UnlinkAllOnce(s: State, id: Id, start: nat, n: nat)
    requires n < NEW_BUCKETS && id in s.info
    ensures var slot := s.cfg.NewSlot(s.info[id].addr, (start + n) % NEW_BUCKETS);
            AddrMan.UnlinkAll(s, id, start, n) ==
            if slot in s.newTable && s.newTable[slot] == id then
              var t := Unlink(s, slot);
              if t.At(id).refCount == 0 then t else AddrMan.UnlinkAll(t, id, start, n + 1)
            else AddrMan.UnlinkAll(s, id, start, n + 1)
    ensures var slot := s.cfg.NewSlot(s.info[id].addr, (start + n) % NEW_BUCKETS);
            slot in s.newTable && s.newTable[slot] == id ==> id in Unlink(s, slot).info
  {
  }

  /** Clearing a slot of another entry. */
  lemma ClearsOther(s: State, slot: Slot, id: Id)
    requires InvBut(s, {id}, {}) && id in s.info && (slot in s.newTable ==> s.newTable[slot] != id)
    ensures var r := AddrMan.ClearNew(s, slot);
            id in r.info && (slot !in s.newTable ==> r == s)
  {
    hide Occ, Shuffled, RefsOk, Counted, TriedOk, NewOk, Indexed, AddrMan.Delete;
    ClearNewKeeps(s, slot, {id}, {});
  }

  lemma UnlinkAllEnds(s: State, id: Id, start: nat)
    ensures AddrMan.UnlinkAll(s, id, start, NEW_BUCKETS) == s
  {
  }

  lemma UnseatedAt(s: State, slot: Slot)
    requires slot in s.triedTable && s.triedTable[slot] in s.info
    ensures var e := s.triedTable[slot];
            e in Unseated(s, slot).info && Unseated(s, slot).info[e] == s.info[e].(inTried := false)
  {
  }

  /** What the eviction needs to clear the place of the evicted entry. */
  lemma EvictClears(s: State, t: State, slot: Slot, id: Id, place: Slot)
    requires InvBut(s, {id}, {id}) && slot in s.triedTable && s.triedTable[slot] != id && id in s.info && s.info[id].refCount == 0
    requires s.triedTable[slot] in s.info && s.info[s.triedTable[slot]].inTried && s.info[s.triedTable[slot]].refCount == 0
    requires t == Adjust(Unseated(s, slot), s.info[s.triedTable[slot]], -1) && InvBut(t, {id} + {s.triedTable[slot]}, {id} + {s.triedTable[slot]})
    ensures var both := {id} + {s.triedTable[slot]};
            && (place in t.newTable ==> t.newTable[place] !in both)
            && s.triedTable[slot] in AddrMan.ClearNew(t, place).info
            && AddrMan.ClearNew(t, place).info[s.triedTable[slot]].refCount == 0
            && place !in AddrMan.ClearNew(t, place).newTable && 0 <= s.triedTable[slot]
  {
    hide Occ, Shuffled, RefsOk, Counted, TriedOk, NewOk, Indexed, AddrMan.ClearNew, Adjust;
    var e := s.triedTable[slot];
    var both := {id} + {e};
    if place in t.newTable {
      NotInNew(t, id, both, place);
      NotInNew(t, e, both, place);
    }
    ClearNewKeeps(t, place, both, both);
    IdsArePositive(s, e);
  }

  lemma EvictIs(s: State, slot: Slot)
    requires slot in s.triedTable && s.triedTable[slot] in s.info && s.info[s.triedTable[slot]].inTried
    ensures var e := s.triedTable[slot];
            var i := s.info[e];
            var place := s.cfg.NewSlot(i.addr, s.cfg.NewBucket(i.addr, i.source));
            var u := AddrMan.ClearNew(Adjust(Unseated(s, slot), i, -1), place);
            u.At(e).refCount == 0 ==> AddrMan.Evict(s, slot) == Adjust(Link(u, e, place), i.(inTried := false), 1)
  {
    hide AddrMan.ClearNew, Adjust;
  }

  lemma IdsArePositive(s: State, id: Id)
    requires Indexed(s.info, s.ids, s.idCount) && id in s.info
    ensures 0 <= id
  {
  }
}
