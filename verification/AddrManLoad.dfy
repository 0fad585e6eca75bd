/** What holds while a file is read, whatever it contains. */
module AddrManLoad {
  import opened AddrMan
  import opened AddrManInvariant
  import opened AddrManSteps
  import opened AddrManCheck
  import opened AddrManDisk

  /** Enough for entries to be added and deleted, and all that the final check does not look at. */
  ghost predicate Sane(s: State) {
    Shuffled(s.info, s.random) && Unchecked(s)
  }

  /** Entries 0 to n - 1 exist. */
  ghost predicate HasIds(s: State, n: int) {
    forall id :: 0 <= id < n ==> id in s.info
  }

  lemma AdmitSane(s: State, i: Info, n: int)
    requires Sane(s) && i.randomPos == |s.random| && HasIds(s, n)
    ensures var r := Admit(s, i);
            Sane(r) && r.cfg == s.cfg && r.idCount == s.idCount + 1 && HasIds(r, n) && s.idCount in r.info
  {
    hide Shuffled, Adjust, Unchecked;
    AdmitUnchecked(s, i);
    AdmitShuffled(s.info, s.random, s.idCount, i);
  }

  lemma AdmitUnchecked(s: State, i: Info)
    requires Unchecked(s)
    ensures s.idCount !in s.info && Unchecked(Admit(s, i))
  {
  }

  lemma {:induction false} ReadNewSane(s: State, recs: seq<Record>, n: nat)
    requires n <= |recs| && Sane(s) && s.idCount == 0
    ensures var r := ReadNew(s, recs, n);
            Sane(r) && r.cfg == s.cfg && r.idCount == n && HasIds(r, n)
    decreases n
  {
    hide Sane, Admit;
    if n > 0 {
      ReadNewSane(s, recs, n - 1);
      var t := ReadNew(s, recs, n - 1);
      AdmitSane(t, FromRecord(recs[n - 1], |t.random|), n - 1);
    }
  }

  lemma {:induction false} ReadTriedSane(s: State, recs: seq<Record>, n: nat, k: int)
    requires n <= |recs| && Sane(s) && HasIds(s, k)
    ensures var r := ReadTried(s, recs, n);
            Sane(r) && HasIds(r, k) && r.cfg == s.cfg
    decreases n
  {
    hide Sane, Admit, HasIds;
    if n > 0 {
      ReadTriedSane(s, recs, n - 1, k);
      var t := ReadTried(s, recs, n - 1);
      var i := FromRecord(recs[n - 1], |t.random|).(inTried := true);
      AdmitSane(t, i, k);
      AdmitRest(t, i, k);
    }
  }

  lemma AdmitRest(s: State, i: Info, k: int)
    ensures var r := Admit(s, i);
            && r.cfg == s.cfg
            && forall table: map<Slot, Id> :: (Sane(r) ==> Sane(r.(triedTable := table))) && (HasIds(r, k) ==> HasIds(r.(triedTable := table), k))
  {
  }

  /** The references read point to entries read, in buckets read. */
  ghost predicate InRange(q: seq<Entry>, buckets: nat, nNew: int) {
    forall k :: 0 <= k < |q| ==> q[k].bucket < buckets && 0 <= q[k].index < nNew
  }

  lemma {:induction false} RowInRange(bucket: nat, row: seq<int>, nNew: int, n: nat)
    requires n <= |row|
    ensures InRange(RowEntries(bucket, row, nNew, n), bucket + 1, nNew)
    decreases n
  {
    if n > 0 { RowInRange(bucket, row, nNew, n - 1); }
  }

  lemma {:induction false} EntriesInRange(rows: seq<seq<int>>, nNew: int, n: nat)
    requires n <= |rows|
    ensures InRange(Entries(rows, nNew, n), n, nNew)
    decreases n
  {
    if n > 0 {
      EntriesInRange(rows, nNew, n - 1);
      RowInRange(n - 1, rows[n - 1], nNew, |rows[n - 1]|);
    }
  }

  lemma RestoreOneSane(s: State, e: Entry, sameBuckets: bool, n: int)
    requires Sane(s) && HasIds(s, n) && 0 <= e.index < n
    ensures var r := RestoreOne(s, e, sameBuckets); Sane(r) && HasIds(r, n) && r.cfg == s.cfg
  {
    hide Sane, HasIds, Link, Config.NewSlot, Config.NewBucket;
    forall slot: Slot
      ensures var r := Link(s, e.index, slot); Sane(r) && HasIds(r, n) && r.cfg == s.cfg
    {
      LinkSane(s, e.index, slot, n);
    }
  }

  lemma LinkSane(s: State, id: Id, slot: Slot, n: int)
    requires Sane(s) && HasIds(s, n) && 0 <= id < n
    ensures var r := Link(s, id, slot); Sane(r) && HasIds(r, n) && r.cfg == s.cfg
  {
    hide Shuffled;
    var i := s.info[id];
    WithShuffled(s.info, s.random, id, i.(refCount := i.refCount + 1));
  }

  lemma {:induction false} RestoreSane(s: State, q: seq<Entry>, sameBuckets: bool, buckets: nat, n: int)
    requires Sane(s) && HasIds(s, n) && InRange(q, buckets, n)
    ensures var r := Restore(s, q, sameBuckets); Sane(r) && HasIds(r, n) && r.cfg == s.cfg
    decreases |q|
  {
    hide Sane, HasIds, RestoreOne;
    if q != [] {
      RestoreSane(s, q[..|q| - 1], sameBuckets, buckets, n);
      RestoreOneSane(Restore(s, q[..|q| - 1], sameBuckets), q[|q| - 1], sameBuckets, n);
    }
  }

  lemma SwapSane(s: State, i: nat, j: nat)
    requires Shuffled(s.info, s.random) && i < |s.random| && j < |s.random|
    ensures var t := SwapRandom(s, i, j);
            && Shuffled(t.info, t.random) && SamePlaces(s.info, t.info) && t.random[j] == s.random[i]
            && t == s.(info := t.info, random := t.random)
  {
    InRandom(s, i, j);
    hide Shuffled;
    if i != j {
      SwappedShuffled(s.info, s.random, i, j);
      SwapIs(s, i, j);
    }
  }

  lemma DeleteSane(s: State, id: Id)
    requires Sane(s) && id in s.info
    ensures Sane(Delete(s, id)) && Delete(s, id).cfg == s.cfg
  {
    hide Adjust, SwapRandom, Unchecked;
    var last := |s.random| - 1;
    assert 0 <= s.info[id].randomPos <= last && s.random[s.info[id].randomPos] == id;
    var t := SwapRandom(s, s.info[id].randomPos, last);
    SwapSane(s, s.info[id].randomPos, last);
    assert t.random[last] == id && t.info[id].randomPos == last;
    DropShuffled(t.info, t.random, id);
    DropUnchecked(s, t, id, t.random[..last]);
  }

  /** An address is forgotten with its entry, even when another entry has the same one. */
  lemma DropUnchecked(s: State, t: State, id: Id, random: seq<Id>)
    requires Unchecked(s) && id in s.info && SamePlaces(s.info, t.info) && t == s.(info := t.info, random := t.random)
    ensures var i := s.info[id];
            Unchecked(Adjust(t.(random := random, ids := t.ids - {i.addr}, info := t.info - {id}), i, -1))
  {
    var i := s.info[id];
    var r := Adjust(t.(random := random, ids := t.ids - {i.addr}, info := t.info - {id}), i, -1);
    forall x | x in r.info ensures 0 <= x < r.idCount && r.Network(r.info[x]) in r.counts {
      assert s.Network(s.info[x]) in s.counts && r.info[x].addr == s.info[x].addr;
    }
    forall a | a in r.ids ensures r.ids[a] in r.info && r.info[r.ids[a]].addr == a {
      assert s.ids[a] in s.info && s.info[s.ids[a]].addr == a;
    }
  }

  lemma {:induction false} PruneSane(s: State, order: seq<Id>)
    requires Sane(s)
    ensures Sane(Prune(s, order)) && Prune(s, order).cfg == s.cfg
    decreases |order|
  {
    hide Sane, Delete;
    if order != [] {
      var n := |order| - 1;
      PruneSane(s, order[..n]);
      var t := Prune(s, order[..n]);
      if order[n] in t.info { DeleteSane(t, order[n]); }
    }
  }

  lemma EmptySane(cfg: Config)
    ensures Sane(Empty(cfg))
  {
  }

  lemma LoadSane(cfg: Config, f: File, asmap: nat, visit: set<Id> -> seq<Id>)
    requires Load(cfg, f, asmap, visit).Success?
    ensures var s := Load(cfg, f, asmap, visit).state; Sane(s) && s.cfg == cfg.(key := f.key)
  {
    hide Sane, HasIds, InRange, ReadNew, ReadTried, Entries, Restore, Prune;
    var nBuckets := if f.format >= 1 then FlipBit30(f.bucketField) else f.bucketField;
    var rows := if nBuckets < 0 then 0 else nBuckets;
    var empty := Empty(cfg.(key := f.key));
    EmptySane(empty.cfg);
    ReadNewSane(empty, f.news, f.nNew);
    var s := ReadNew(empty, f.news, f.nNew);
    ReadTriedSane(s, f.trieds, f.nTried, f.nNew);
    EntriesInRange(f.buckets, f.nNew, rows);
    var q := Entries(f.buckets, f.nNew, rows);
    var same := nBuckets == NEW_BUCKETS && (if f.format >= 2 then f.asmap else 0) == asmap;
    var t := ReadTried(s, f.trieds, f.nTried);
    RestoreSane(t, q, same, rows, f.nNew);
    PruneSane(Restore(t, q, same), visit(Restore(t, q, same).info.Keys));
  }

  /**
   Whatever the file contains, damaged files and files with one address twice included: if it
   can be read at all, the check at the end of loading accepts the manager exactly when all its
   indexes agree and the key is not zero.
   */
  lemma LoadedIsCheckedExactly(cfg: Config, f: File, asmap: nat, visit: set<Id> -> seq<Id>)
    requires Load(cfg, f, asmap, visit).Success?
    ensures var s := Load(cfg, f, asmap, visit).state; Checked(s) <==> InvBut(s, {}, {}) && f.key != 0
  {
    hide Checked, InvBut, Load, Shuffled, Unchecked;
    LoadSane(cfg, f, asmap, visit);
    CheckedExactly(Load(cfg, f, asmap, visit).state);
  }
}
