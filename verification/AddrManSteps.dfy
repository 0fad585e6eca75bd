/** The internal steps of the address manager keep the invariant, entries in transit aside. */
module AddrManSteps {
  import opened AddrMan
  import opened AddrManInvariant

  // ---------------------------------------------------------------------------
  // Entries that stay where they are
  // ---------------------------------------------------------------------------

  /** The same entries, each with its address and in the same table. */
  ghost predicate SamePlaces(m: map<Id, Info>, n: map<Id, Info>) {
    && m.Keys == n.Keys
    && (forall id :: id in m ==> n[id].addr == m[id].addr && n[id].inTried == m[id].inTried)
  }

  lemma PlacesIndexed(m: map<Id, Info>, n: map<Id, Info>, ids: map<Service, Id>, idCount: Id)
    requires SamePlaces(m, n) && Indexed(m, ids, idCount)
    ensures Indexed(n, ids, idCount)
  {
  }

  lemma PlacesTried(cfg: Config, m: map<Id, Info>, n: map<Id, Info>, table: map<Slot, Id>)
    requires SamePlaces(m, n) && TriedOk(cfg, m, table)
    ensures TriedOk(cfg, n, table)
  {
    forall t | t in table ensures table[t] in n && n[table[t]].inTried && cfg.TriedSlot(n[table[t]].addr) == t {
      var id := table[t];
      assert id in m && n[id].inTried == m[id].inTried && n[id].addr == m[id].addr;
    }
  }

  lemma PlacesNew(cfg: Config, m: map<Id, Info>, n: map<Id, Info>, table: map<Slot, Id>)
    requires SamePlaces(m, n) && NewOk(cfg, m, table)
    ensures NewOk(cfg, n, table)
  {
    forall t | t in table
      ensures t.bucket < NEW_BUCKETS && table[t] in n && !n[table[t]].inTried && cfg.NewSlot(n[table[t]].addr, t.bucket) == t
    {
      var id := table[t];
      assert id in m && n[id].inTried == m[id].inTried && n[id].addr == m[id].addr;
    }
  }

  lemma PlacesCounted(s: State, r: State, out: set<Id>)
    requires SamePlaces(s.info, r.info) && Counted(s, out)
    requires r.cfg == s.cfg && r.nNew == s.nNew && r.nTried == s.nTried && r.counts == s.counts
    ensures Counted(r, out)
  {
    forall tried, scope ensures CountedAt(r, out, tried, scope) {
      assert CountedAt(s, out, tried, scope);
      TallySame(s.cfg, s.info, r.info, out, tried, scope);
    }
  }

  predicate TimesOk(i: Info) {
    i.lastTry >= 0 && i.lastSuccess >= 0 && (i.inTried ==> i.lastSuccess > 0)
  }

  lemma PlacesRefs(m: map<Id, Info>, n: map<Id, Info>, table: map<Slot, Id>, transit: set<Id>)
    requires SamePlaces(m, n) && RefsOk(m, table, transit)
    requires forall id :: id in m ==> n[id].refCount == m[id].refCount && TimesOk(n[id])
    ensures RefsOk(n, table, transit)
  {
    hide Occ;
    forall id | id in n ensures RefOk(n[id], Occ(table, id), id in transit) {
      assert RefOk(m[id], Occ(table, id), id in transit);
    }
  }

  /** Statistics and random order may change freely. */
  lemma RewriteKeeps(s: State, r: State, transit: set<Id>, out: set<Id>)
    requires InvBut(s, transit, out) && Shuffled(r.info, r.random)
    requires r == s.(info := r.info, random := r.random, lastGood := r.lastGood, collisions := r.collisions)
    requires SamePlaces(s.info, r.info)
    requires forall id :: id in s.info ==> r.info[id].refCount == s.info[id].refCount && TimesOk(r.info[id])
    ensures InvBut(r, transit, out)
  {
    hide Shuffled, RefsOk, Counted, TriedOk, NewOk, Indexed, SamePlaces;
    PlacesIndexed(s.info, r.info, s.ids, s.idCount);
    PlacesTried(s.cfg, s.info, r.info, s.triedTable);
    PlacesNew(s.cfg, s.info, r.info, s.newTable);
    PlacesCounted(s, r, out);
    assert s.info.Keys == r.info.Keys by { KeysSame(s.info, r.info); }
    PlacesRefs(s.info, r.info, s.newTable, transit);
  }

  lemma KeysSame(m: map<Id, Info>, n: map<Id, Info>)
    requires SamePlaces(m, n)
    ensures m.Keys == n.Keys
  {
  }

  lemma RefsTimes(s: State, transit: set<Id>)
    requires RefsOk(s.info, s.newTable, transit)
    ensures forall id :: id in s.info ==> TimesOk(s.info[id])
  {
    hide Occ;
    forall id | id in s.info ensures TimesOk(s.info[id]) {
      assert RefOk(s.info[id], Occ(s.newTable, id), id in transit);
    }
  }

  lemma WithShuffled(m: map<Id, Info>, random: seq<Id>, id: Id, i: Info)
    requires Shuffled(m, random) && id in m && i.randomPos == m[id].randomPos
    ensures Shuffled(m[id := i], random)
  {
  }

  lemma WithKeeps(s: State, id: Id, i: Info, transit: set<Id>, out: set<Id>)
    requires InvBut(s, transit, out) && id in s.info
    requires i.addr == s.info[id].addr && i.refCount == s.info[id].refCount && i.inTried == s.info[id].inTried
    requires TimesOk(i) && i.randomPos == s.info[id].randomPos
    ensures InvBut(s.With(id, i), transit, out)
  {
    hide Shuffled, RefsOk, Counted, TriedOk, NewOk, Indexed;
    RefsTimes(s, transit);
    WithShuffled(s.info, s.random, id, i);
    RewriteKeeps(s, s.With(id, i), transit, out);
  }

  /** Equal but for reference count, table and random position. */
  predicate SameHistory(i: Info, j: Info) {
    && j.addr == i.addr && j.time == i.time && j.services == i.services && j.source == i.source
    && j.lastTry == i.lastTry && j.lastCountAttempt == i.lastCountAttempt
    && j.lastSuccess == i.lastSuccess && j.attempts == i.attempts
  }

  /** Nothing but entries, the new table and its counts may differ. */
  ghost predicate SameRest(s: State, r: State) {
    r.cfg == s.cfg && r.idCount == s.idCount && r.lastGood == s.lastGood && r.collisions == s.collisions
  }

  /** No entry is gained, tried entries stay, and what remains keeps its place and history. */
  ghost predicate Shrinks(s: State, r: State) {
    && SameRest(s, r) && r.triedTable == s.triedTable && r.nTried == s.nTried
    && r.info.Keys <= s.info.Keys
    && (forall id :: id in r.info ==> SameHistory(s.info[id], r.info[id]) && r.info[id].inTried == s.info[id].inTried)
    && (forall id :: id in s.info && s.info[id].inTried ==> id in r.info)
  }

  /** Exchanging two positions of vRandom and of the two entries. */
  function Swapped(m: map<Id, Info>, random: seq<Id>, i: nat, j: nat): (r: map<Id, Info>)
    requires i < |random| && j < |random| && random[i] in m && random[j] in m
  {
    m[random[i] := m[random[i]].(randomPos := j)][random[j] := m[random[j]].(randomPos := i)]
  }

  lemma SwappedShuffled(m: map<Id, Info>, random: seq<Id>, i: nat, j: nat)
    requires Shuffled(m, random) && i < |random| && j < |random| && i != j
    ensures Shuffled(Swapped(m, random, i, j), random[i := random[j]][j := random[i]])
  {
    var n := Swapped(m, random, i, j);
    var r := random[i := random[j]][j := random[i]];
    assert random[i] != random[j];
    forall id | id in n ensures 0 <= n[id].randomPos < |r| && r[n[id].randomPos] == id {
      var k := m[id].randomPos;
      assert random[k] == id;
    }
    forall k | 0 <= k < |r| ensures r[k] in n && n[r[k]].randomPos == k {
      assert random[k] in m && m[random[k]].randomPos == k;
    }
  }

  lemma SwapKeeps(s: State, i: nat, j: nat, transit: set<Id>, out: set<Id>)
    requires InvBut(s, transit, out) && i < |s.random| && j < |s.random|
    ensures var r := SwapRandom(s, i, j);
            && InvBut(r, transit, out) && Shrinks(s, r)
            && r == s.(info := r.info, random := r.random) && r.info.Keys == s.info.Keys && |r.random| == |s.random|
            && (forall id :: id in s.info ==> r.info[id].refCount == s.info[id].refCount)
            && r.random[j] == s.random[i]
  {
    hide Shuffled, RefsOk, Counted, TriedOk, NewOk, Indexed;
    InRandom(s, i, j);
    if i != j {
      SwappedShuffled(s.info, s.random, i, j);
      var r := SwapRandom(s, i, j);
      SwapIs(s, i, j);
      RefsTimes(s, transit);
      RewriteKeeps(s, r, transit, out);
    }
  }

  lemma SwapIs(s: State, i: nat, j: nat)
    requires i < |s.random| && j < |s.random| && s.random[i] in s.info && s.random[j] in s.info && s.random[i] != s.random[j]
    ensures var r := SwapRandom(s, i, j);
            && r == s.(info := Swapped(s.info, s.random, i, j), random := s.random[i := s.random[j]][j := s.random[i]])
            && SamePlaces(s.info, r.info) && Shrinks(s, r)
            && (forall id :: id in s.info ==> r.info[id] == s.info[id].(randomPos := r.info[id].randomPos))
  {
  }

  lemma InRandom(s: State, i: nat, j: nat)
    requires Shuffled(s.info, s.random) && i < |s.random| && j < |s.random|
    ensures s.random[i] in s.info && s.random[j] in s.info && (i != j ==> s.random[i] != s.random[j])
  {
  }

  // ---------------------------------------------------------------------------
  // Creating and deleting
  // ---------------------------------------------------------------------------

  lemma AdmitCounted(s: State, i: Info)
    requires Counted(s, {}) && s.idCount !in s.info
    ensures Counted(Admit(s, i), {})
  {
    hide Tally, Weight;
    var r := Admit(s, i);
    var id := s.idCount;
    var t := s.(idCount := id + 1, info := s.info[id := i], ids := s.ids[i.addr := id], random := s.random + [id]);
    forall tried, scope ensures CountedAt(r, {}, tried, scope) {
      assert CountedAt(s, {}, tried, scope);
      TallyWrite(s.cfg, s.info, id, i, {}, tried, scope);
      AdjustKept(t, i, 1, tried, scope);
    }
  }

  lemma AdmitRefs(s: State, i: Info, transit: set<Id>)
    requires RefsOk(s.info, s.newTable, transit) && NewOk(s.cfg, s.info, s.newTable) && s.idCount !in s.info
    requires i.refCount == 0 && TimesOk(i) && s.idCount !in transit
    ensures RefsOk(s.info[s.idCount := i], s.newTable, if i.inTried then transit else transit + {s.idCount})
  {
    OccNowhere(s.newTable, s.idCount);
    hide Occ;
    var n := s.info[s.idCount := i];
    var after := if i.inTried then transit else transit + {s.idCount};
    forall x | x in n ensures RefOk(n[x], Occ(s.newTable, x), x in after) {
      if x != s.idCount { assert RefOk(s.info[x], Occ(s.newTable, x), x in transit); }
    }
  }

  lemma AdmitIndexed(m: map<Id, Info>, ids: map<Service, Id>, id: Id, i: Info)
    requires Indexed(m, ids, id) && i.addr !in ids
    ensures id !in m && Indexed(m[id := i], ids[i.addr := id], id + 1)
  {
  }

  lemma AdmitShuffled(m: map<Id, Info>, random: seq<Id>, id: Id, i: Info)
    requires Shuffled(m, random) && id !in m && i.randomPos == |random|
    ensures Shuffled(m[id := i], random + [id])
  {
  }

  lemma AdmitTables(s: State, i: Info)
    requires TriedOk(s.cfg, s.info, s.triedTable) && NewOk(s.cfg, s.info, s.newTable)
    requires s.idCount !in s.info && !i.inTried
    ensures TriedOk(s.cfg, s.info[s.idCount := i], s.triedTable) && NewOk(s.cfg, s.info[s.idCount := i], s.newTable)
  {
  }

  lemma AdmitKeeps(s: State, i: Info, transit: set<Id>)
    requires InvBut(s, transit, {}) && i.addr !in s.ids && s.idCount !in transit
    requires i.refCount == 0 && !i.inTried && TimesOk(i) && i.randomPos == |s.random|
    ensures InvBut(Admit(s, i), transit + {s.idCount}, {}) && s.idCount !in s.info
  {
    hide Shuffled, RefsOk, Counted, TriedOk, NewOk, Indexed;
    AdmitIndexed(s.info, s.ids, s.idCount, i);
    AdmitTables(s, i);
    AdmitShuffled(s.info, s.random, s.idCount, i);
    AdmitRefs(s, i, transit);
    AdmitCounted(s, i);
  }

  lemma AdmitTriedTables(s: State, i: Info)
    requires TriedOk(s.cfg, s.info, s.triedTable) && NewOk(s.cfg, s.info, s.newTable)
    requires s.idCount !in s.info && i.inTried && s.cfg.TriedSlot(i.addr) !in s.triedTable
    ensures TriedOk(s.cfg, s.info[s.idCount := i], s.triedTable[s.cfg.TriedSlot(i.addr) := s.idCount])
    ensures NewOk(s.cfg, s.info[s.idCount := i], s.newTable)
  {
  }

  /** An entry that goes straight to its empty tried slot. */
  lemma AdmitTriedKeeps(s: State, i: Info, transit: set<Id>)
    requires InvBut(s, transit, {}) && i.addr !in s.ids && s.idCount !in transit
    requires i.refCount == 0 && i.inTried && TimesOk(i) && i.randomPos == |s.random| && s.cfg.TriedSlot(i.addr) !in s.triedTable
    ensures InvBut(Admit(s, i).(triedTable := s.triedTable[s.cfg.TriedSlot(i.addr) := s.idCount]), transit, {})
    ensures s.idCount !in s.info
  {
    hide Shuffled, RefsOk, TriedOk, NewOk, Indexed, Tally;
    AdmitIndexed(s.info, s.ids, s.idCount, i);
    AdmitTriedTables(s, i);
    AdmitShuffled(s.info, s.random, s.idCount, i);
    AdmitRefs(s, i, transit);
    AdmitCounted(s, i);
    var r := Admit(s, i).(triedTable := s.triedTable[s.cfg.TriedSlot(i.addr) := s.idCount]);
    forall tried, scope ensures CountedAt(r, {}, tried, scope) {
      assert CountedAt(Admit(s, i), {}, tried, scope);
    }
  }

  /** The state without the entry at the end of vRandom. */
  function Dropped(s: State, id: Id): (r: State)
    requires id in s.info && s.random != []
  {
    var i := s.info[id];
    s.(random := s.random[..|s.random| - 1], ids := s.ids - {i.addr}, info := s.info - {id})
  }

  lemma DropCounted(s: State, id: Id, out: set<Id>)
    requires Counted(s, out) && id in s.info && id !in out && s.random != []
    ensures Counted(Adjust(Dropped(s, id), s.info[id], -1), out)
  {
    hide Tally, Weight;
    var r := Adjust(Dropped(s, id), s.info[id], -1);
    forall tried, scope ensures CountedAt(r, out, tried, scope) {
      assert CountedAt(s, out, tried, scope);
      TallyLeaveOut(s.cfg, s.info, id, out, tried, scope);
      assert s.info - (out + {id}) == r.info - out;
      AdjustKept(Dropped(s, id), s.info[id], -1, tried, scope);
    }
  }

  lemma DropRefs(s: State, id: Id, transit: set<Id>)
    requires RefsOk(s.info, s.newTable, transit) && id in s.info && s.info[id].refCount == 0
    ensures RefsOk(s.info - {id}, s.newTable, transit - {id})
    ensures forall t :: t in s.newTable ==> s.newTable[t] != id
  {
    assert RefOk(s.info[id], Occ(s.newTable, id), id in transit);
    forall x | x in s.info - {id} ensures RefOk((s.info - {id})[x], Occ(s.newTable, x), x in transit - {id}) {
      assert RefOk(s.info[x], Occ(s.newTable, x), x in transit);
    }
    forall t | t in s.newTable ensures s.newTable[t] != id { OccAt(s.newTable, t); }
  }

  lemma DropIndexed(m: map<Id, Info>, ids: map<Service, Id>, idCount: Id, id: Id)
    requires Indexed(m, ids, idCount) && id in m
    ensures Indexed(m - {id}, ids - {m[id].addr}, idCount)
  {
  }

  lemma DropShuffled(m: map<Id, Info>, random: seq<Id>, id: Id)
    requires Shuffled(m, random) && id in m && m[id].randomPos == |random| - 1
    ensures Shuffled(m - {id}, random[..|random| - 1])
  {
  }

  lemma DropTables(s: State, id: Id)
    requires TriedOk(s.cfg, s.info, s.triedTable) && NewOk(s.cfg, s.info, s.newTable)
    requires id in s.info && !s.info[id].inTried && forall t :: t in s.newTable ==> s.newTable[t] != id
    ensures TriedOk(s.cfg, s.info - {id}, s.triedTable) && NewOk(s.cfg, s.info - {id}, s.newTable)
  {
  }

  /** Removing the entry at the end of vRandom. */
  lemma DropKeeps(s: State, id: Id, transit: set<Id>, out: set<Id>)
    requires InvBut(s, transit, out) && id in s.info && id in transit && id !in out
    requires s.info[id].refCount == 0 && !s.info[id].inTried && s.info[id].randomPos == |s.random| - 1 >= 0
    ensures InvBut(Adjust(Dropped(s, id), s.info[id], -1), transit - {id}, out)
  {
    hide Shuffled, RefsOk, Counted, TriedOk, NewOk, Indexed;
    DropRefs(s, id, transit);
    DropTables(s, id);
    DropIndexed(s.info, s.ids, s.idCount, id);
    DropShuffled(s.info, s.random, id);
    DropCounted(s, id, out);
  }

  lemma DeleteKeeps(s: State, id: Id, transit: set<Id>, out: set<Id>)
    requires InvBut(s, transit, out) && id in s.info && id in transit && id !in out
    requires s.info[id].refCount == 0 && !s.info[id].inTried
    ensures var r := Delete(s, id);
            && InvBut(r, transit - {id}, out) && Shrinks(s, r)
            && r.info.Keys == s.info.Keys - {id} && r.newTable == s.newTable
            && (forall x :: x in r.info ==> r.info[x].refCount == s.info[x].refCount)
  {
    hide RefsOk, Counted, TriedOk, NewOk, SwapRandom, Indexed;
    var last := |s.random| - 1;
    var t := SwapRandom(s, s.info[id].randomPos, last);
    SwapKeeps(s, s.info[id].randomPos, last, transit, out);
    assert t.info[id].randomPos == last by { assert t.random[last] == id; }
    DropKeeps(t, id, transit, out);
    assert Delete(s, id) == Adjust(Dropped(t, id), t.info[id], -1);
  }

  // ---------------------------------------------------------------------------
  // Linking and unlinking
  // ---------------------------------------------------------------------------

  lemma UnlinkRefs(m: map<Id, Info>, table: map<Slot, Id>, slot: Slot, transit: set<Id>)
    requires RefsOk(m, table, transit) && slot in table && table[slot] in m && !m[table[slot]].inTried
    ensures var id := table[slot];
            && m[id].refCount > 0
            && RefsOk(m[id := m[id].(refCount := m[id].refCount - 1)], table - {slot}, transit + {id})
  {
    var id := table[slot];
    OccAt(table, slot);
    hide Occ;
    assert RefOk(m[id], Occ(table, id), id in transit);
    var n := m[id := m[id].(refCount := m[id].refCount - 1)];
    forall x | x in n ensures RefOk(n[x], Occ(table - {slot}, x), x in transit + {id}) {
      OccErase(table, slot, x);
      assert RefOk(m[x], Occ(table, x), x in transit);
    }
  }

  lemma UnlinkTable(s: State, slot: Slot)
    requires NewOk(s.cfg, s.info, s.newTable) && slot in s.newTable
    ensures s.newTable[slot] in s.info && !s.info[s.newTable[slot]].inTried
    ensures NewOk(s.cfg, s.info, s.newTable - {slot})
  {
  }

  lemma UnlinkKeeps(s: State, slot: Slot, transit: set<Id>, out: set<Id>)
    requires InvBut(s, transit, out) && slot in s.newTable
    ensures var id := s.newTable[slot];
            var r := Unlink(s, slot);
            && id in s.info && !s.info[id].inTried && s.info[id].refCount > 0
            && InvBut(r, transit + {id}, out) && Shrinks(s, r) && r.info.Keys == s.info.Keys
            && r.newTable == s.newTable - {slot}
  {
    hide Shuffled, RefsOk, Counted, TriedOk, NewOk, Indexed;
    var id := s.newTable[slot];
    var r := Unlink(s, slot);
    UnlinkTable(s, slot);
    WithShuffled(s.info, s.random, id, r.info[id]);
    PlacesIndexed(s.info, r.info, s.ids, s.idCount);
    PlacesTried(s.cfg, s.info, r.info, s.triedTable);
    PlacesNew(s.cfg, s.info, r.info, r.newTable);
    PlacesCounted(s, r, out);
    UnlinkRefs(s.info, s.newTable, slot, transit);
  }

  /** An entry with references is not in transit. */
  lemma UnmarkKeeps(s: State, id: Id, transit: set<Id>, out: set<Id>)
    requires InvBut(s, transit + {id}, out) && id in s.info && s.info[id].refCount > 0 && id !in transit
    ensures InvBut(s, transit, out)
  {
    hide Occ, Shuffled, Counted, TriedOk, NewOk, Indexed;
    forall x | x in s.info ensures RefOk(s.info[x], Occ(s.newTable, x), x in transit) {
      assert RefOk(s.info[x], Occ(s.newTable, x), x in transit + {id});
    }
  }

  lemma ClearNewKeeps(s: State, slot: Slot, transit: set<Id>, out: set<Id>)
    requires InvBut(s, transit, out) && (slot in s.newTable ==> s.newTable[slot] !in transit && s.newTable[slot] !in out)
    ensures var r := ClearNew(s, slot);
            && InvBut(r, transit, out) && Shrinks(s, r)
            && r.newTable == s.newTable - {slot}
            && (forall id :: id in s.info && id !in r.info ==> slot in s.newTable && id == s.newTable[slot])
            && (forall id :: id in r.info && (slot in s.newTable ==> id != s.newTable[slot]) ==> r.info[id].refCount == s.info[id].refCount)
  {
    hide Shuffled, RefsOk, Counted, TriedOk, NewOk, Indexed, Delete;
    if slot in s.newTable {
      var id := s.newTable[slot];
      UnlinkKeeps(s, slot, transit, out);
      var t := Unlink(s, slot);
      if t.info[id].refCount == 0 {
        DeleteKeeps(t, id, transit + {id}, out);
        assert transit + {id} - {id} == transit;
      } else {
        UnlinkCount(s, slot);
        UnmarkKeeps(t, id, transit, out);
      }
    } else {
      assert s.newTable - {slot} == s.newTable;
    }
  }

  lemma UnlinkCount(s: State, slot: Slot)
    requires slot in s.newTable && s.newTable[slot] in s.info && s.info[s.newTable[slot]].refCount > 0
    ensures Unlink(s, slot).info[s.newTable[slot]].refCount >= 0
  {
  }

  lemma LinkRefs(m: map<Id, Info>, table: map<Slot, Id>, slot: Slot, id: Id, transit: set<Id>)
    requires RefsOk(m, table, transit) && slot !in table && id in m && !m[id].inTried && m[id].refCount < MAX_REFS
    ensures RefsOk(m[id := m[id].(refCount := m[id].refCount + 1)], table[slot := id], transit - {id})
  {
    hide Occ;
    var n := m[id := m[id].(refCount := m[id].refCount + 1)];
    assert RefOk(m[id], Occ(table, id), id in transit);
    forall x | x in n ensures RefOk(n[x], Occ(table[slot := id], x), x in transit - {id}) {
      assert RefOk(m[x], Occ(table, x), x in transit);
      OccWrite(table, slot, id, x);
    }
  }

  lemma LinkTable(s: State, id: Id, slot: Slot)
    requires NewOk(s.cfg, s.info, s.newTable) && id in s.info && !s.info[id].inTried
    requires slot.bucket < NEW_BUCKETS && slot == s.cfg.NewSlot(s.info[id].addr, slot.bucket)
    ensures NewOk(s.cfg, s.info, s.newTable[slot := id])
  {
  }

  lemma LinkKeeps(s: State, id: Id, slot: Slot, transit: set<Id>, out: set<Id>)
    requires InvBut(s, transit, out) && id in s.info && !s.info[id].inTried && s.info[id].refCount < MAX_REFS
    requires slot !in s.newTable && slot.bucket < NEW_BUCKETS && slot == s.cfg.NewSlot(s.info[id].addr, slot.bucket)
    ensures InvBut(Link(s, id, slot), transit - {id}, out)
  {
    hide Shuffled, RefsOk, Counted, TriedOk, NewOk, Indexed;
    var r := Link(s, id, slot);
    LinkTable(s, id, slot);
    WithShuffled(s.info, s.random, id, r.info[id]);
    PlacesIndexed(s.info, r.info, s.ids, s.idCount);
    PlacesTried(s.cfg, s.info, r.info, s.triedTable);
    PlacesNew(s.cfg, s.info, r.info, r.newTable);
    PlacesCounted(s, r, out);
    LinkRefs(s.info, s.newTable, slot, id, transit);
  }

  // ---------------------------------------------------------------------------
  // Leaving the new table
  // ---------------------------------------------------------------------------

  function BucketFrom(start: nat, k: nat): (b: nat) { (start + k) % NEW_BUCKETS }

  predicate HeldIn(s: State, id: Id, bucket: nat)
    requires id in s.info
  {
    var t := s.cfg.NewSlot(s.info[id].addr, bucket);
    t in s.newTable && s.newTable[t] == id
  }

  /** None of the first `n` buckets from `start` on holds `id`. */
  ghost predicate Passed(s: State, id: Id, start: nat, n: nat)
    requires id in s.info
  {
    forall k :: 0 <= k < n ==> !HeldIn(s, id, BucketFrom(start, k))
  }

  /** Starting anywhere, all buckets are visited. */
  lemma EveryBucket(start: nat, bucket: nat) returns (k: nat)
    requires bucket < NEW_BUCKETS
    ensures k < NEW_BUCKETS && BucketFrom(start, k) == bucket
  {
    k := (bucket + NEW_BUCKETS - start % NEW_BUCKETS) % NEW_BUCKETS;
  }

  lemma PassedAll(s: State, id: Id, start: nat)
    requires NewOk(s.cfg, s.info, s.newTable) && id in s.info && Passed(s, id, start, NEW_BUCKETS)
    ensures Occ(s.newTable, id) == 0
  {
    forall t | t in s.newTable ensures s.newTable[t] != id {
      if s.newTable[t] == id {
        var k := EveryBucket(start, t.bucket);
        assert HeldIn(s, id, BucketFrom(start, k));
      }
    }
    OccNowhere(s.newTable, id);
  }

  lemma RefCountIsOcc(s: State, id: Id, transit: set<Id>)
    requires RefsOk(s.info, s.newTable, transit) && id in s.info
    ensures s.info[id].refCount == Occ(s.newTable, id)
  {
    assert RefOk(s.info[id], Occ(s.newTable, id), id in transit);
  }

  lemma PassedOnce(s: State, id: Id, start: nat, n: nat)
    requires id in s.info && n < NEW_BUCKETS && Passed(s, id, start, n) && HeldIn(s, id, BucketFrom(start, n))
    ensures var slot := s.cfg.NewSlot(s.info[id].addr, BucketFrom(start, n));
            id in Unlink(s, slot).info && Passed(Unlink(s, slot), id, start, n + 1)
  {
    var slot := s.cfg.NewSlot(s.info[id].addr, BucketFrom(start, n));
    var t := Unlink(s, slot);
    forall k | 0 <= k < n + 1 ensures !HeldIn(t, id, BucketFrom(start, k)) {
      if k < n { assert !HeldIn(s, id, BucketFrom(start, k)); }
    }
  }

  lemma {:induction false} UnlinkAllKeeps(s: State, id: Id, start: nat, n: nat)
    requires InvBut(s, {id}, {}) && id in s.info && !s.info[id].inTried
    requires n <= NEW_BUCKETS && Passed(s, id, start, n)
    ensures var r := UnlinkAll(s, id, start, n);
            && InvBut(r, {id}, {}) && Shrinks(s, r) && r.info.Keys == s.info.Keys
            && r.info[id].refCount == 0
    decreases NEW_BUCKETS - n
  {
    hide Shuffled, RefsOk, Counted, TriedOk, NewOk, Indexed, Occ;
    if n == NEW_BUCKETS {
      PassedAll(s, id, start);
      RefCountIsOcc(s, id, {id});
    } else if HeldIn(s, id, BucketFrom(start, n)) {
      var slot := s.cfg.NewSlot(s.info[id].addr, BucketFrom(start, n));
      UnlinkKeeps(s, slot, {id}, {});
      assert {id} + {id} == {id};
      var t := Unlink(s, slot);
      if t.info[id].refCount != 0 {
        PassedOnce(s, id, start, n);
        UnlinkAllKeeps(t, id, start, n + 1);
      }
    } else {
      UnlinkAllKeeps(s, id, start, n + 1);
    }
  }

  lemma NotInNew(s: State, id: Id, transit: set<Id>, slot: Slot)
    requires RefsOk(s.info, s.newTable, transit) && id in s.info && s.info[id].refCount == 0 && slot in s.newTable
    ensures s.newTable[slot] != id
  {
    RefCountIsOcc(s, id, transit);
    OccAt(s.newTable, slot);
  }

  lemma MarkKeeps(s: State, id: Id, transit: set<Id>, out: set<Id>)
    requires InvBut(s, transit, out) && (id in s.info ==> !s.info[id].inTried)
    ensures InvBut(s, transit + {id}, out)
  {
    hide Occ, Shuffled, Counted, TriedOk, NewOk, Indexed;
    forall x | x in s.info ensures RefOk(s.info[x], Occ(s.newTable, x), x in transit + {id}) {
      assert RefOk(s.info[x], Occ(s.newTable, x), x in transit);
    }
  }

  // ---------------------------------------------------------------------------
  // Moving to the tried table
  // ---------------------------------------------------------------------------

  /** An entry in the table and on the network of another. */
  predicate SameScope(i: Info, j: Info) { i.addr == j.addr && i.inTried == j.inTried }

  lemma UncountKeeps(s: State, id: Id, i: Info, transit: set<Id>, out: set<Id>)
    requires InvBut(s, transit, out) && id in s.info && id !in out && SameScope(s.info[id], i)
    ensures InvBut(Adjust(s, i, -1), transit, out + {id})
  {
    hide Occ, Shuffled, RefsOk, TriedOk, NewOk, Indexed, Tally;
    var r := Adjust(s, i, -1);
    forall tried, scope ensures CountedAt(r, out + {id}, tried, scope) {
      assert CountedAt(s, out, tried, scope);
      TallyLeaveOut(s.cfg, s.info, id, out, tried, scope);
      AdjustKept(s, i, -1, tried, scope);
    }
  }

  lemma CountKeeps(s: State, id: Id, i: Info, transit: set<Id>, out: set<Id>)
    requires InvBut(s, transit, out + {id}) && id in s.info && id !in out && SameScope(s.info[id], i)
    ensures InvBut(Adjust(s, i, 1), transit, out)
  {
    hide Occ, Shuffled, RefsOk, TriedOk, NewOk, Indexed, Tally;
    var r := Adjust(s, i, 1);
    forall tried, scope ensures CountedAt(r, out, tried, scope) {
      assert CountedAt(s, out + {id}, tried, scope);
      TallyLeaveOut(s.cfg, s.info, id, out, tried, scope);
      AdjustKept(s, i, 1, tried, scope);
    }
  }

  /** Changing an entry that is not counted. */
  lemma HiddenCounted(s: State, r: State, id: Id, i: Info, out: set<Id>)
    requires Counted(s, out) && id in s.info && id in out && r.info == s.info[id := i] && i.addr == s.info[id].addr
    requires r.cfg == s.cfg && r.nNew == s.nNew && r.nTried == s.nTried && r.counts == s.counts
    ensures Counted(r, out)
  {
    hide Tally;
    forall tried, scope ensures CountedAt(r, out, tried, scope) {
      assert CountedAt(s, out, tried, scope);
      assert s.info - out == r.info - out;
    }
  }

  /** An entry that leaves the tried table or enters it, while it is neither counted nor referred to. */
  lemma FlipRefs(m: map<Id, Info>, table: map<Slot, Id>, id: Id, i: Info, before: set<Id>, after: set<Id>)
    requires RefsOk(m, table, before) && id in m && m[id].refCount == 0 && i == m[id].(inTried := !m[id].inTried)
    requires (i.inTried ==> i.lastSuccess > 0) && (id in after <==> !i.inTried) && before - {id} == after - {id}
    ensures RefsOk(m[id := i], table, after)
  {
    hide Occ;
    var n := m[id := i];
    assert RefOk(m[id], Occ(table, id), id in before);
    forall x | x in n ensures RefOk(n[x], Occ(table, x), x in after) {
      assert x != id ==> (x in before <==> x in before - {id}) && (x in after <==> x in after - {id});
      assert RefOk(m[x], Occ(table, x), x in before);
    }
  }

  lemma FlipNew(cfg: Config, m: map<Id, Info>, table: map<Slot, Id>, id: Id, i: Info)
    requires NewOk(cfg, m, table) && forall t :: t in table ==> table[t] != id
    ensures NewOk(cfg, m[id := i], table)
  {
  }

  lemma FlipIndexed(m: map<Id, Info>, ids: map<Service, Id>, idCount: Id, id: Id, i: Info)
    requires Indexed(m, ids, idCount) && id in m && i.addr == m[id].addr
    ensures Indexed(m[id := i], ids, idCount)
  {
  }

  lemma UnseatTried(s: State, slot: Slot)
    requires TriedOk(s.cfg, s.info, s.triedTable) && slot in s.triedTable
    ensures var id := s.triedTable[slot];
            && id in s.info && s.info[id].inTried && s.cfg.TriedSlot(s.info[id].addr) == slot
            && TriedOk(s.cfg, s.info[id := s.info[id].(inTried := false)], s.triedTable - {slot})
  {
  }

  function Unseated(s: State, slot: Slot): (r: State)
    requires slot in s.triedTable
  {
    var id := s.triedTable[slot];
    s.With(id, s.At(id).(inTried := false)).(triedTable := s.triedTable - {slot})
  }

  lemma UnseatKeeps(s: State, slot: Slot, transit: set<Id>, out: set<Id>)
    requires InvBut(s, transit, out) && slot in s.triedTable && s.triedTable[slot] !in out
    ensures var id := s.triedTable[slot];
            var r := Adjust(Unseated(s, slot), s.At(id).(inTried := true), -1);
            && id in s.info && s.info[id].inTried && s.info[id].refCount == 0 && id !in transit
            && InvBut(r, transit + {id}, out + {id})
  {
    hide Occ, Shuffled, RefsOk, Counted, TriedOk, NewOk, Indexed;
    UnseatTried(s, slot);
    var id := s.triedTable[slot];
    var i := s.info[id];
    TriedHasNoRefs(s, id, transit);
    UncountKeeps(s, id, i, transit, out);
    var t := Adjust(s, i, -1);
    var j := i.(inTried := false);
    FlipRefs(s.info, s.newTable, id, j, transit, transit + {id});
    FlipNew(s.cfg, s.info, s.newTable, id, j);
    FlipIndexed(s.info, s.ids, s.idCount, id, j);
    WithShuffled(s.info, s.random, id, j);
    var r := Adjust(Unseated(s, slot), i, -1);
    HiddenCounted(t, r, id, j, out + {id});
  }

  lemma TriedHasNoRefs(s: State, id: Id, transit: set<Id>)
    requires RefsOk(s.info, s.newTable, transit) && NewOk(s.cfg, s.info, s.newTable) && id in s.info && s.info[id].inTried
    ensures s.info[id].refCount == 0 && id !in transit && forall t :: t in s.newTable ==> s.newTable[t] != id
  {
    OccNowhere(s.newTable, id);
    assert RefOk(s.info[id], Occ(s.newTable, id), id in transit);
  }

  lemma SeatTried(s: State, id: Id)
    requires TriedOk(s.cfg, s.info, s.triedTable) && id in s.info && !s.info[id].inTried
    requires s.cfg.TriedSlot(s.info[id].addr) !in s.triedTable
    ensures TriedOk(s.cfg, s.info[id := s.info[id].(inTried := true)], s.triedTable[s.cfg.TriedSlot(s.info[id].addr) := id])
  {
  }

  function Seated(s: State, id: Id, slot: Slot): (r: State) {
    s.With(id, s.At(id).(inTried := true)).(triedTable := s.triedTable[slot := id])
  }

  lemma SeatKeeps(s: State, id: Id, i: Info)
    requires InvBut(s, {id}, {id}) && id in s.info && s.info[id].refCount == 0 && !s.info[id].inTried && s.info[id].lastSuccess > 0
    requires i.addr == s.info[id].addr && i.inTried && s.cfg.TriedSlot(i.addr) !in s.triedTable
    ensures InvBut(Adjust(Seated(s, id, s.cfg.TriedSlot(i.addr)), i, 1), {}, {})
  {
    hide Occ, Shuffled, RefsOk, Counted, TriedOk, NewOk, Indexed;
    var j := s.info[id].(inTried := true);
    var r := Seated(s, id, s.cfg.TriedSlot(i.addr));
    SeatTried(s, id);
    FlipRefs(s.info, s.newTable, id, j, {id}, {});
    forall t | t in s.newTable ensures s.newTable[t] != id { NotInNew(s, id, {id}, t); }
    FlipNew(s.cfg, s.info, s.newTable, id, j);
    FlipIndexed(s.info, s.ids, s.idCount, id, j);
    WithShuffled(s.info, s.random, id, j);
    HiddenCounted(s, r, id, j, {id});
    assert {} + {id} == {id};
    CountKeeps(r, id, i, {}, {});
  }

  /** Eviction: the entry of a tried slot is back in the new table. */
  lemma EvictKeeps(s: State, slot: Slot, id: Id)
    requires InvBut(s, {id}, {id}) && slot in s.triedTable && s.triedTable[slot] != id
    requires id in s.info && s.info[id].refCount == 0
    ensures var e := s.triedTable[slot];
            var r := Evict(s, slot);
            && InvBut(r, {id}, {id}) && e in s.info && s.info[e].inTried && Evicted(s, r, e)
            && r.triedTable == s.triedTable - {slot} && id in r.info && r.info[id].refCount == 0
  {
    hide Occ, Shuffled, RefsOk, Counted, TriedOk, NewOk, Indexed, ClearNew, Adjust;
    var e := s.triedTable[slot];
    UnseatKeeps(s, slot, {id}, {id});
    var i := s.info[e];
    var t := Adjust(Unseated(s, slot), i, -1);
    var place := s.cfg.NewSlot(i.addr, s.cfg.NewBucket(i.addr, i.source));
    var both := {id} + {e};
    if place in t.newTable {
      NotInNew(t, id, both, place);
      NotInNew(t, e, both, place);
    }
    ClearNewKeeps(t, place, both, both);
    var u := ClearNew(t, place);
    LinkKeeps(u, e, place, both, both);
    var v := Link(u, e, place);
    assert both - {e} == {id};
    CountKeeps(v, e, i.(inTried := false), {id}, {id});
    assert Evict(s, slot) == Adjust(v, i.(inTried := false), 1);
    assert v.nTried == u.nTried == t.nTried;
    EvictedIs(s, t, u, v, e, i);
  }

  /** Everything but `e`, its new place and what was there is as before; e is in the new table. */
  ghost predicate Evicted(s: State, r: State, e: Id) {
    && SameRest(s, r) && r.nTried == s.nTried - 1 && r.info.Keys <= s.info.Keys && e in r.info && !r.info[e].inTried
    && (forall x :: x in r.info ==> SameHistory(s.info[x], r.info[x]) && (x != e ==> r.info[x].inTried == s.info[x].inTried))
    && (forall x :: x in s.info && s.info[x].inTried ==> x in r.info)
  }

  lemma EvictedIs(s: State, t: State, u: State, v: State, e: Id, i: Info)
    requires e in s.info && i == s.info[e] && i.inTried
    requires t.cfg == s.cfg && t.idCount == s.idCount && t.lastGood == s.lastGood && t.collisions == s.collisions
    requires t.nTried == s.nTried - 1 && t.info == s.info[e := i.(inTried := false)]
    requires Shrinks(t, u) && e in u.info
    requires v == u.(info := v.info, newTable := v.newTable)
    requires e in v.info && v.info == u.info[e := u.info[e].(refCount := v.info[e].refCount)]
    ensures Evicted(s, Adjust(v, i.(inTried := false), 1), e)
  {
  }

  /** What MakeTried does to the entries and the tried table. */
  ghost predicate Moved(s: State, r: State, id: Id)
    requires id in s.info
  {
    var slot := s.cfg.TriedSlot(s.info[id].addr);
    && SameRest(s, r) && r.triedTable == s.triedTable[slot := id]
    && r.nTried == s.nTried + (if slot in s.triedTable then 0 else 1)
    && r.info.Keys <= s.info.Keys && id in r.info && r.info[id].inTried
    && (forall x :: x in r.info ==> SameHistory(s.info[x], r.info[x]))
    && (forall x :: x in s.info && s.info[x].inTried ==> x in r.info)
    && (forall x :: x in r.info && x != id ==>
          (r.info[x].inTried <==> s.info[x].inTried && !(slot in s.triedTable && s.triedTable[slot] == x)))
  }

  lemma MakeTriedKeeps(s: State, id: Id)
    requires InvBut(s, {}, {}) && id in s.info && !s.info[id].inTried && s.info[id].lastSuccess > 0
    ensures InvBut(MakeTried(s, id), {}, {}) && Moved(s, MakeTried(s, id), id)
  {
    hide Occ, Shuffled, RefsOk, Counted, TriedOk, NewOk, Indexed, Evict, UnlinkAll, Shrinks, Evicted, Moved, Adjust;
    var i := s.info[id];
    MarkKeeps(s, id, {}, {});
    assert {} + {id} == {id};
    var start := s.cfg.NewBucket(i.addr, i.source);
    UnlinkAllKeeps(s, id, start, 0);
    var t := UnlinkAll(s, id, start, 0);
    UnlinkedStays(s, t, id);
    UncountKeeps(t, id, i, {id}, {});
    var u := Adjust(t, i, -1);
    var slot := s.cfg.TriedSlot(i.addr);
    if slot in u.triedTable {
      TriedIsSeated(s, slot);
      TriedIsSeated(u, slot);
      EvictKeeps(u, slot, id);
      var v := Evict(u, slot);
      EvictedStays(u, v, s.triedTable[slot], id);
      SeatKeeps(v, id, i.(inTried := true));
      MovedByEviction(s, t, u, v, id);
    } else {
      SeatKeeps(u, id, i.(inTried := true));
      MovedPlainly(s, t, u, id);
    }
  }

  lemma UnlinkedStays(s: State, t: State, id: Id)
    requires Shrinks(s, t) && id in t.info
    ensures t.cfg == s.cfg && t.triedTable == s.triedTable && SameScope(s.info[id], t.info[id]) && t.info[id].lastSuccess == s.info[id].lastSuccess
  {
  }

  lemma EvictedStays(u: State, v: State, e: Id, id: Id)
    requires Evicted(u, v, e) && id in v.info && id != e
    ensures v.cfg == u.cfg && SameScope(u.info[id], v.info[id]) && v.info[id].lastSuccess == u.info[id].lastSuccess
  {
  }

  lemma MovedPlainly(s: State, t: State, u: State, id: Id)
    requires Shrinks(s, t) && id in s.info && id in t.info && u == Adjust(t, s.info[id], -1) && !s.info[id].inTried
    requires s.cfg.TriedSlot(s.info[id].addr) !in s.triedTable
    ensures var i := s.info[id];
            Moved(s, Adjust(Seated(u, id, s.cfg.TriedSlot(i.addr)), i.(inTried := true), 1), id)
  {
    hide Adjust;
  }

  lemma MovedByEviction(s: State, t: State, u: State, v: State, id: Id)
    requires Shrinks(s, t) && id in s.info && id in t.info && u == Adjust(t, s.info[id], -1) && !s.info[id].inTried
    requires var slot := s.cfg.TriedSlot(s.info[id].addr);
             slot in s.triedTable && s.triedTable[slot] != id && s.triedTable[slot] in s.info && s.info[s.triedTable[slot]].inTried
             && Evicted(u, v, s.triedTable[slot]) && v.triedTable == s.triedTable - {slot} && id in v.info
    ensures var i := s.info[id];
            Moved(s, Adjust(Seated(v, id, s.cfg.TriedSlot(i.addr)), i.(inTried := true), 1), id)
  {
    var i := s.info[id];
    hide Adjust;
    var slot := s.cfg.TriedSlot(i.addr);
    var r := Adjust(Seated(v, id, slot), i.(inTried := true), 1);
    assert r.triedTable == s.triedTable[slot := id];
  }

  lemma TriedIsSeated(s: State, slot: Slot)
    requires TriedOk(s.cfg, s.info, s.triedTable) && slot in s.triedTable
    ensures s.triedTable[slot] in s.info && s.info[s.triedTable[slot]].inTried
  {
  }
}
