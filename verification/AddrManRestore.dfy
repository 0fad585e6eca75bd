/** The references of the new table are saved and restored slot for slot. */
module AddrManRestore {
  import opened AddrMan
  import opened AddrManInvariant
  import opened AddrManSteps
  import opened AddrManDisk
  import Sums

  // ---------------------------------------------------------------------------
  // The saved references
  // ---------------------------------------------------------------------------

  /** The occupied slots of the first `n` buckets, in order. */
  function Slots(s: State, n: nat): (q: seq<Slot>) {
    if n == 0 then [] else Slots(s, n - 1) + RowSlots(s, n - 1, BUCKET_SIZE)
  }

  ghost predicate Listed(q: seq<Slot>, table: map<Slot, Id>) {
    && (forall k, l :: 0 <= k < l < |q| ==> q[k] != q[l])
    && (forall t :: t in q ==> t in table)
  }

  lemma {:induction false} RowSlotsOk(s: State, bucket: nat, n: nat)
    ensures Listed(RowSlots(s, bucket, n), s.newTable)
    ensures forall t :: t in RowSlots(s, bucket, n) <==> t in s.newTable && t.bucket == bucket && t.pos < n
    decreases n
  {
    if n > 0 {
      RowSlotsOk(s, bucket, n - 1);
      forall t: Slot | t.bucket == bucket && t.pos == n - 1 ensures t == Slot(bucket, n - 1) {}
    }
  }

  lemma {:induction false} SlotsOk(s: State, n: nat)
    ensures Listed(Slots(s, n), s.newTable)
    ensures forall t :: t in Slots(s, n) <==> t in s.newTable && t.bucket < n && t.pos < BUCKET_SIZE
    decreases n
  {
    hide RowSlots;
    if n > 0 {
      SlotsOk(s, n - 1);
      RowSlotsOk(s, n - 1, BUCKET_SIZE);
      var a, b := Slots(s, n - 1), RowSlots(s, n - 1, BUCKET_SIZE);
      forall k, l | 0 <= k < l < |a + b| ensures (a + b)[k] != (a + b)[l] {
        if k < |a| <= l {
          assert a[k] in a && b[l - |a|] in b;
        }
      }
    }
  }

  /** The reference at a slot, as saved. */
  function RefAt(s: State, ids: map<Id, nat>, t: Slot): (e: Entry)
    requires t in s.newTable
  {
    Entry(t.bucket, Index(ids, s.newTable[t]))
  }

  function Refs(s: State, ids: map<Id, nat>, q: seq<Slot>): (r: seq<Entry>)
    requires forall t :: t in q ==> t in s.newTable
    ensures |r| == |q| && forall k :: 0 <= k < |q| ==> r[k] == RefAt(s, ids, q[k])
  {
    seq(|q|, k requires 0 <= k < |q| => RefAt(s, ids, q[k]))
  }

  lemma {:induction false} RowEntriesIs(s: State, ids: map<Id, nat>, bucket: nat, nNew: int, n: nat)
    requires n <= |Row(s, ids, bucket)| && forall t :: t in s.newTable ==> Index(ids, s.newTable[t]) < nNew
    ensures var q := RowSlots(s, bucket, BUCKET_SIZE);
            && (forall t :: t in q[..n] ==> t in s.newTable)
            && RowEntries(bucket, Row(s, ids, bucket), nNew, n) == Refs(s, ids, q[..n])
    decreases n
  {
    hide RowSlots;
    var q := RowSlots(s, bucket, BUCKET_SIZE);
    RowSlotsOk(s, bucket, BUCKET_SIZE);
    if n > 0 {
      RowEntriesIs(s, ids, bucket, nNew, n - 1);
      assert q[n - 1] in q;
      assert Refs(s, ids, q[..n]) == Refs(s, ids, q[..n - 1]) + [RefAt(s, ids, q[n - 1])];
    }
  }

  lemma RefsConcat(s: State, ids: map<Id, nat>, a: seq<Slot>, b: seq<Slot>)
    requires (forall t :: t in a ==> t in s.newTable) && (forall t :: t in b ==> t in s.newTable)
    ensures forall t :: t in a + b ==> t in s.newTable
    ensures Refs(s, ids, a + b) == Refs(s, ids, a) + Refs(s, ids, b)
  {
  }

  lemma RowIsRefs(s: State, ids: map<Id, nat>, bucket: nat, nNew: int)
    requires forall t :: t in s.newTable ==> Index(ids, s.newTable[t]) < nNew
    ensures var q := RowSlots(s, bucket, BUCKET_SIZE);
            var row := Row(s, ids, bucket);
            && (forall t :: t in q ==> t in s.newTable)
            && RowEntries(bucket, row, nNew, |row|) == Refs(s, ids, q)
  {
    hide RowSlots, Row, RowEntries;
    var q := RowSlots(s, bucket, BUCKET_SIZE);
    RowEntriesIs(s, ids, bucket, nNew, |q|);
    assert q[..|q|] == q;
  }

  lemma {:induction false} EntriesIs(s: State, ids: map<Id, nat>, rows: seq<seq<int>>, nNew: int, n: nat)
    requires n <= |rows| && forall b :: 0 <= b < |rows| ==> rows[b] == Row(s, ids, b)
    requires forall t :: t in s.newTable ==> Index(ids, s.newTable[t]) < nNew
    ensures (forall t :: t in Slots(s, n) ==> t in s.newTable) && Entries(rows, nNew, n) == Refs(s, ids, Slots(s, n))
    decreases n
  {
    hide RowSlots, Row, RowEntries, Refs;
    if n == 0 {
      var none: seq<Slot> := [];
      assert Refs(s, ids, none) == [];
    } else {
      EntriesIs(s, ids, rows, nNew, n - 1);
      RowIsRefs(s, ids, n - 1, nNew);
      RefsConcat(s, ids, Slots(s, n - 1), RowSlots(s, n - 1, BUCKET_SIZE));
      assert rows[n - 1] == Row(s, ids, n - 1);
    }
  }

  // ---------------------------------------------------------------------------
  // The restored table
  // ---------------------------------------------------------------------------

  /** The listed slots with the new names of what they hold. */
  function Renamed(s: State, ids: map<Id, nat>, q: seq<Slot>): (m: map<Slot, Id>)
    requires forall t :: t in q ==> t in s.newTable
    ensures forall t :: t in m <==> t in q
    ensures forall t :: t in q ==> m[t] == Index(ids, s.newTable[t])
    decreases |q|
  {
    if q == [] then map[]
    else
      var n := |q| - 1;
      assert q == q[..n] + [q[n]];
      Renamed(s, ids, q[..n])[q[n] := Index(ids, s.newTable[q[n]])]
  }

  /** The names used in the new table are entries read, one for each. */
  ghost predicate Matches(s: State, ids: map<Id, nat>, t: State, transit: set<Id>) {
    && t.cfg == s.cfg
    && (forall slot :: slot in s.newTable ==>
          && s.newTable[slot] in s.info && s.cfg.valid(s.info[s.newTable[slot]].addr.host)
          && Index(ids, s.newTable[slot]) in t.info && Index(ids, s.newTable[slot]) in transit
          && !t.info[Index(ids, s.newTable[slot])].inTried
          && t.info[Index(ids, s.newTable[slot])].addr == s.info[s.newTable[slot]].addr)
    && (forall a, b :: a in s.newTable && b in s.newTable && Index(ids, s.newTable[a]) == Index(ids, s.newTable[b]) ==>
          s.newTable[a] == s.newTable[b])
  }

  /** A name occurs in the restored slots as often as the entry did in them. */
  lemma RenamedOcc(s: State, ids: map<Id, nat>, t: State, transit: set<Id>, q: seq<Slot>, slot: Slot)
    requires Matches(s, ids, t, transit) && Listed(q, s.newTable) && slot in s.newTable
    ensures Occ(Renamed(s, ids, q), Index(ids, s.newTable[slot])) <= Occ(s.newTable, s.newTable[slot])
    ensures (forall x :: x in s.newTable ==> x in q) ==>
              Occ(Renamed(s, ids, q), Index(ids, s.newTable[slot])) == Occ(s.newTable, s.newTable[slot])
  {
    hide Sums.Sum, Renamed, Index;
    var id := s.newTable[slot];
    var x := Index(ids, id);
    var picked := map k | k in s.newTable && k in q :: s.newTable[k];
    var r := Renamed(s, ids, q);
    forall k | k in picked ensures Is(id)(picked[k]) == Is(x)(r[k]) {
      assert r[k] == Index(ids, s.newTable[k]);
    }
    assert picked.Keys == r.Keys;
    Sums.SumReweigh(picked, r, Is(id), Is(x));
    Sums.SumExtended(picked, s.newTable, Is(id));
    if forall k :: k in s.newTable ==> k in q {
      assert picked == s.newTable;
    }
  }

  /** What restoring leaves alone. */
  ghost predicate OnlyRefs(t: State, r: State) {
    && r == t.(info := r.info, newTable := r.newTable) && r.info.Keys == t.info.Keys
    && (forall x :: x in t.info ==> r.info[x] == t.info[x].(refCount := r.info[x].refCount))
  }

  lemma {:induction false} RestoreIs(s: State, ids: map<Id, nat>, t: State, transit: set<Id>, q: seq<Slot>)
    requires InvBut(s, {}, {}) && InvBut(t, transit, {}) && t.newTable == map[]
    requires Matches(s, ids, t, transit) && Listed(q, s.newTable)
    ensures var r := Restore(t, Refs(s, ids, q), true);
            InvBut(r, transit, {}) && r.newTable == Renamed(s, ids, q) && OnlyRefs(t, r)
    decreases |q|
  {
    hide InvBut, OnlyRefs, Matches, RestoreOne, Listed, Renamed, Restore, Refs;
    if q == [] {
      OnlyRefsSelf(t);
      RestoreNone(s, ids, t);
    } else {
      var n := |q| - 1;
      ListedLess(q, s.newTable);
      RestoreIs(s, ids, t, transit, q[..n]);
      var u := Restore(t, Refs(s, ids, q[..n]), true);
      assert q[n] in q;
      assert q == q[..n] + [q[n]];
      RestoreLast(s, ids, t, q);
      RestoreOneIs(s, ids, t, u, transit, q[..n], q[n]);
    }
  }

  lemma RestoreNone(s: State, ids: map<Id, nat>, t: State)
    requires t.newTable == map[]
    ensures var none: seq<Slot> := [];
            Restore(t, Refs(s, ids, none), true) == t && Renamed(s, ids, none) == map[]
  {
  }

  lemma RestoreLast(s: State, ids: map<Id, nat>, t: State, q: seq<Slot>)
    requires q != [] && (forall x :: x in q ==> x in s.newTable)
    ensures var n := |q| - 1;
            && Restore(t, Refs(s, ids, q), true) == RestoreOne(Restore(t, Refs(s, ids, q[..n]), true), RefAt(s, ids, q[n]), true)
            && Renamed(s, ids, q) == Renamed(s, ids, q[..n])[q[n] := Index(ids, s.newTable[q[n]])]
  {
    hide RestoreOne;
    var n := |q| - 1;
    assert Refs(s, ids, q)[..n] == Refs(s, ids, q[..n]);
  }

  lemma OnlyRefsSelf(t: State)
    ensures OnlyRefs(t, t)
  {
  }

  lemma ListedLess(q: seq<Slot>, table: map<Slot, Id>)
    requires Listed(q, table) && q != []
    ensures Listed(q[..|q| - 1], table) && q[|q| - 1] !in q[..|q| - 1]
    ensures forall t :: t in q ==> t in table
  {
  }

  lemma RestoreOneIs(s: State, ids: map<Id, nat>, t: State, u: State, transit: set<Id>, p: seq<Slot>, slot: Slot)
    requires InvBut(s, {}, {}) && InvBut(u, transit, {}) && Matches(s, ids, t, transit) && OnlyRefs(t, u)
    requires Listed(p + [slot], s.newTable) && (forall x :: x in p ==> x in s.newTable) && slot in s.newTable && slot !in p
    requires u.newTable == Renamed(s, ids, p)
    ensures var r := RestoreOne(u, RefAt(s, ids, slot), true);
            && InvBut(r, transit, {}) && OnlyRefs(t, r)
            && r.newTable == Renamed(s, ids, p)[slot := Index(ids, s.newTable[slot])]
  {
    hide Occ, Shuffled, RefsOk, Counted, TriedOk, NewOk, Indexed, Listed, Renamed;
    var id := s.newTable[slot];
    var x := Index(ids, id);
    SlotIsOwn(s, slot);
    RenamedOcc(s, ids, t, transit, p + [slot], slot);
    RefCountIsOcc(s, id, {});
    RefsBound(s, id);
    RenamedGrows(s, ids, p, slot);
    RefCountIsOcc(u, x, transit);
    LinkKeeps(u, x, slot, transit, {});
    MarkKeeps(Link(u, x, slot), x, transit - {x}, {});
    assert transit - {x} + {x} == transit;
  }

  lemma RefsBound(s: State, id: Id)
    requires RefsOk(s.info, s.newTable, {}) && id in s.info
    ensures s.info[id].refCount <= MAX_REFS
  {
    assert RefOk(s.info[id], Occ(s.newTable, id), id in {});
  }

  lemma SlotIsOwn(s: State, slot: Slot)
    requires NewOk(s.cfg, s.info, s.newTable) && slot in s.newTable
    ensures s.newTable[slot] in s.info && slot.bucket < NEW_BUCKETS && s.cfg.NewSlot(s.info[s.newTable[slot]].addr, slot.bucket) == slot
  {
  }

  lemma RenamedGrows(s: State, ids: map<Id, nat>, p: seq<Slot>, slot: Slot)
    requires (forall t :: t in p ==> t in s.newTable) && slot in s.newTable && slot !in p
    ensures forall t :: t in p + [slot] ==> t in s.newTable
    ensures var x := Index(ids, s.newTable[slot]);
            Occ(Renamed(s, ids, p + [slot]), x) == Occ(Renamed(s, ids, p), x) + 1
  {
    var x := Index(ids, s.newTable[slot]);
    assert (p + [slot])[..|p|] == p;
    assert Renamed(s, ids, p + [slot]) == Renamed(s, ids, p)[slot := x];
    OccWrite(Renamed(s, ids, p), slot, x, x);
  }
}
