/**
 Saving the address manager and loading it again. A file is a list of typed records. Entries
 are written in some order of the entry map, which is an argument.
 */
module AddrManDisk {
  import opened AddrMan

  const FILE_FORMAT := 4
  const INCOMPATIBILITY_BASE := 32
  const BIT_30 := 0x4000_0000

  /** The part of an entry that is saved. */
  datatype Record = Record(addr: Service, time: int, services: Services, source: nat, lastSuccess: int, attempts: int)

  datatype File = File(
    format: nat,
    compat: nat,
    key: nat,
    nNew: int,
    nTried: int,
    bucketField: int,            // the number of new buckets, with bit 30 flipped
    news: seq<Record>,
    trieds: seq<Record>,
    buckets: seq<seq<int>>,
    asmap: nat)

  function ToRecord(i: Info): (r: Record) {
    Record(i.addr, i.time, i.services, i.source, i.lastSuccess, i.attempts)
  }

  /** An entry as read; what is not saved has its initial value. */
  function FromRecord(r: Record, randomPos: nat): (i: Info) {
    Info(r.addr, r.time, r.services, r.source, 0, 0, r.lastSuccess, r.attempts, 0, false, randomPos)
  }

  /** n ^ (1 << 30), on 32-bit integers. */
  function FlipBit30(n: int): (r: int) {
    if n / BIT_30 % 2 == 1 then n - BIT_30 else n + BIT_30
  }

  // ---------------------------------------------------------------------------
  // Saving
  // ---------------------------------------------------------------------------

  /** The ids to keep, in order. */
  function Filter(order: seq<Id>, keep: Id -> bool): (q: seq<Id>)
    decreases |order|
  {
    if order == [] then []
    else
      var n := |order| - 1;
      if keep(order[n]) then Filter(order[..n], keep) + [order[n]] else Filter(order[..n], keep)
  }

  /** For each id, how many ids to keep come before it. */
  function Ranks(order: seq<Id>, keep: Id -> bool): (m: map<Id, nat>)
    decreases |order|
  {
    if order == [] then map[]
    else
      var n := |order| - 1;
      Ranks(order[..n], keep)[order[n] := |Filter(order[..n], keep)|]
  }

  function HasRefs(s: State): (keep: Id -> bool) { (id: Id) => s.At(id).refCount != 0 }

  function IsTried(s: State): (keep: Id -> bool) { (id: Id) => s.At(id).inTried }

  function Records(s: State, q: seq<Id>): (r: seq<Record>)
    ensures |r| == |q| && forall k :: 0 <= k < |q| ==> r[k] == ToRecord(s.At(q[k]))
  {
    seq(|q|, k requires 0 <= k < |q| => ToRecord(s.At(q[k])))
  }

  /** The occupied slots among the first `n` of a bucket. */
  function RowSlots(s: State, bucket: nat, n: nat): (q: seq<Slot>) {
    if n == 0 then []
    else if Slot(bucket, n - 1) in s.newTable then RowSlots(s, bucket, n - 1) + [Slot(bucket, n - 1)]
    else RowSlots(s, bucket, n - 1)
  }

  function Index(ids: map<Id, nat>, id: Id): (k: nat) { if id in ids then ids[id] else 0 }

  function Row(s: State, ids: map<Id, nat>, bucket: nat): (row: seq<int>)
    ensures |row| == |RowSlots(s, bucket, BUCKET_SIZE)|
  {
    var q := RowSlots(s, bucket, BUCKET_SIZE);
    seq(|q|, k requires 0 <= k < |q| => if q[k] in s.newTable then Index(ids, s.newTable[q[k]]) else 0)
  }

  function Serialize(s: State, order: seq<Id>, asmap: nat): (f: File) {
    var ids := Ranks(order, HasRefs(s));
    File(FILE_FORMAT, INCOMPATIBILITY_BASE + FILE_FORMAT, s.cfg.key, s.nNew, s.nTried, FlipBit30(NEW_BUCKETS),
         Records(s, Filter(order, HasRefs(s))), Records(s, Filter(order, IsTried(s))),
         seq(NEW_BUCKETS, (b: nat) => Row(s, ids, b)), asmap)
  }

  // ---------------------------------------------------------------------------
  // Loading
  // ---------------------------------------------------------------------------

  datatype Error = BadCompat | Unsupported | BadNewCount | BadTriedCount | EndOfFile

  datatype Loaded = Failure(error: Error) | Success(state: State)

  /** The first `n` records of new entries. */
  function ReadNew(s: State, recs: seq<Record>, n: nat): (r: State)
    requires n <= |recs|
  {
    if n == 0 then s
    else
      var t := ReadNew(s, recs, n - 1);
      Admit(t, FromRecord(recs[n - 1], |t.random|))
  }

  /** The first `n` records of tried entries; a bad address or a taken slot loses one. */
  function ReadTried(s: State, recs: seq<Record>, n: nat): (r: State)
    requires n <= |recs|
  {
    if n == 0 then s
    else
      var t := ReadTried(s, recs, n - 1);
      var i := FromRecord(recs[n - 1], |t.random|).(inTried := true);
      var slot := s.cfg.TriedSlot(i.addr);
      if s.cfg.valid(i.addr.host) && slot !in t.triedTable then
        Admit(t, i).(triedTable := t.triedTable[slot := t.idCount])
      else t
  }

  /** A reference to restore: the bucket and the entry. */
  datatype Entry = Entry(bucket: nat, index: Id)

  function RowEntries(bucket: nat, row: seq<int>, nNew: int, n: nat): (q: seq<Entry>)
    requires n <= |row|
  {
    if n == 0 then []
    else if 0 <= row[n - 1] < nNew then RowEntries(bucket, row, nNew, n - 1) + [Entry(bucket, row[n - 1])]
    else RowEntries(bucket, row, nNew, n - 1)
  }

  /** The references of the first `n` rows. */
  function Entries(rows: seq<seq<int>>, nNew: int, n: nat): (q: seq<Entry>)
    requires n <= |rows|
  {
    if n == 0 then [] else Entries(rows, nNew, n - 1) + RowEntries(n - 1, rows[n - 1], nNew, |rows[n - 1]|)
  }

  function RestoreOne(s: State, e: Entry, sameBuckets: bool): (r: State) {
    var i := s.At(e.index);
    if !s.cfg.valid(i.addr.host) || i.refCount >= MAX_REFS then s
    else
      var slot := s.cfg.NewSlot(i.addr, e.bucket);
      if sameBuckets && slot !in s.newTable then Link(s, e.index, slot)
      else
        var home := s.cfg.NewSlot(i.addr, s.cfg.NewBucket(i.addr, i.source));
        if home !in s.newTable then Link(s, e.index, home) else s
  }

  function Restore(s: State, q: seq<Entry>, sameBuckets: bool): (r: State)
    decreases |q|
  {
    if q == [] then s
    else RestoreOne(Restore(s, q[..|q| - 1], sameBuckets), q[|q| - 1], sameBuckets)
  }

  /** Deletes entries in neither table, visiting them in `order`. */
  function Prune(s: State, order: seq<Id>): (r: State)
    decreases |order|
  {
    if order == [] then s
    else
      var n := |order| - 1;
      var t := Prune(s, order[..n]);
      if order[n] in t.info && !t.info[order[n]].inTried && t.info[order[n]].refCount == 0 then Delete(t, order[n]) else t
  }

  /** Reads the contents of a file whose header has passed; `visit` is the order of the entry map. */
  function LoadBody(empty: State, f: File, nBuckets: int, asmap: nat, visit: set<Id> -> seq<Id>): (r: State)
    requires 0 <= f.nNew <= |f.news| && 0 <= f.nTried <= |f.trieds| && nBuckets <= |f.buckets|
  {
    var s := ReadTried(ReadNew(empty, f.news, f.nNew), f.trieds, f.nTried);
    var q := Entries(f.buckets, f.nNew, if nBuckets < 0 then 0 else nBuckets);
    var saved := if f.format >= 2 then f.asmap else 0;
    var t := Restore(s, q, nBuckets == NEW_BUCKETS && saved == asmap);
    Prune(t, visit(t.info.Keys))
  }

  /** All that Unserialize does before its final consistency check. */
  function Load(cfg: Config, f: File, asmap: nat, visit: set<Id> -> seq<Id>): (r: Loaded) {
    var nBuckets := if f.format >= 1 then FlipBit30(f.bucketField) else f.bucketField;
    if f.compat < INCOMPATIBILITY_BASE then Failure(BadCompat)
    else if f.compat - INCOMPATIBILITY_BASE > FILE_FORMAT then Failure(Unsupported)
    else if !(0 <= f.nNew <= NEW_BUCKETS * BUCKET_SIZE) then Failure(BadNewCount)
    else if !(0 <= f.nTried <= TRIED_BUCKETS * BUCKET_SIZE) then Failure(BadTriedCount)
    else if f.nNew > |f.news| || f.nTried > |f.trieds| || nBuckets > |f.buckets| then Failure(EndOfFile)
    else Success(LoadBody(Empty(cfg.(key := f.key)), f, nBuckets, asmap, visit))
  }
}
