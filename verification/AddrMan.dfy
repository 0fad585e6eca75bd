/**
 The address manager as values: its entries, its indexes, the "new" and "tried" tables and
 the operations on them. A table is the map from its occupied slots to entry ids. Hashes are
 functions of the key, clock readings and random draws are arguments. An operation whose
 internal assertion would fail leaves the state as it is; AddrManImpl proves that none does.
 */
module AddrMan {
  import opened Ordered
  import opened Wrappers

  const TRIED_BUCKETS := 256
  const NEW_BUCKETS := 1024
  const BUCKET_SIZE := 64
  const MAX_REFS := 8
  const MAX_COLLISIONS := 10

  const MINUTE := 60
  const HOUR := 3600
  const DAY := 86400
  const HORIZON := 30 * DAY
  const RETRIES := 3
  const MAX_FAILURES := 10
  const MIN_FAIL := 7 * DAY
  const REPLACEMENT := 4 * HOUR
  const TEST_WINDOW := 40 * MINUTE

  type Id = int

  /** Service flags, as the set of bits that are set. */
  type Services = set<nat>

  datatype Service = Service(host: nat, port: nat)

  /** An address as announced. */
  datatype Address = Address(service: Service, time: int, services: Services)

  datatype Slot = Slot(bucket: nat, pos: nat)

  /** The secret key, the hashes it drives and the classification of hosts. */
  datatype Config = Config(
    key: nat,
    triedHash: (nat, Service) -> nat,
    newHash: (nat, Service, nat) -> nat,
    positionHash: (nat, bool, nat, Service) -> nat,
    network: nat -> nat,
    netClass: nat -> nat,
    valid: nat -> bool,
    special: nat -> bool)      // valid but not routable: private, local, reserved ranges
  {
    predicate Routable(host: nat) { valid(host) && !special(host) }

    function TriedSlot(a: Service): (t: Slot)
      ensures t.bucket < TRIED_BUCKETS && t.pos < BUCKET_SIZE
    {
      var bucket := triedHash(key, a) % TRIED_BUCKETS;
      Slot(bucket, positionHash(key, false, bucket, a) % BUCKET_SIZE)
    }

    function NewBucket(a: Service, source: nat): (b: nat)
      ensures b < NEW_BUCKETS
    {
      newHash(key, a, source) % NEW_BUCKETS
    }

    function NewSlot(a: Service, bucket: nat): (t: Slot)
      ensures t.bucket == bucket && t.pos < BUCKET_SIZE
    {
      Slot(bucket, positionHash(key, true, bucket, a) % BUCKET_SIZE)
    }
  }

  /** What is known about one address. */
  datatype Info = Info(
    addr: Service,
    time: int,
    services: Services,
    source: nat,
    lastTry: int,
    lastCountAttempt: int,
    lastSuccess: int,
    attempts: int,
    refCount: int,
    inTried: bool,
    randomPos: int)
  {
    predicate IsTerrible(now: int) {
      if now - lastTry <= MINUTE then false
      else
        || time > now + 10 * MINUTE
        || now - time > HORIZON
        || (lastSuccess == 0 && attempts >= RETRIES)
        || (now - lastSuccess > MIN_FAIL && attempts >= MAX_FAILURES)
    }
  }

  const BLANK := Info(Service(0, 0), 0, {}, 0, 0, 0, 0, 0, 0, false, -1)

  datatype Count = Count(nNew: int, nTried: int)

  datatype State = State(
    cfg: Config,
    idCount: Id,
    info: map<Id, Info>,          // mapInfo
    ids: map<Service, Id>,        // mapAddr
    random: seq<Id>,              // vRandom
    nTried: int,
    triedTable: map<Slot, Id>,    // vvTried
    nNew: int,
    newTable: map<Slot, Id>,      // vvNew
    lastGood: int,
    collisions: set<Id>,
    counts: map<nat, Count>)
  {
    function At(id: Id): (i: Info) { if id in info then info[id] else BLANK }

    function Network(i: Info): (n: nat) { cfg.network(i.addr.host) }

    function With(id: Id, i: Info): (s: State) { this.(info := info[id := i]) }
  }

  function Empty(cfg: Config): (s: State) {
    State(cfg, 0, map[], map[], [], 0, map[], 0, map[], 1, {}, map[])
  }

  function Max(a: int, b: int): (r: int) { if a < b then b else a }

  // ---------------------------------------------------------------------------
  // Internal operations
  // ---------------------------------------------------------------------------

  function CountOf(counts: map<nat, Count>, net: nat): (c: Count) {
    if net in counts then counts[net] else Count(0, 0)
  }

  function Bump(c: Count, tried: bool, d: int): (r: Count) {
    if tried then c.(nTried := c.nTried + d) else c.(nNew := c.nNew + d)
  }

  /** Adds `d` to the total of the table an entry counts for and to its network's count. */
  function Adjust(s: State, i: Info, d: int): (r: State)
    ensures r == s.(nNew := r.nNew, nTried := r.nTried, counts := r.counts)
    ensures r.nTried == s.nTried + (if i.inTried then d else 0) && r.nNew == s.nNew + (if i.inTried then 0 else d)
  {
    var net := s.Network(i);
    var counts := s.counts[net := Bump(CountOf(s.counts, net), i.inTried, d)];
    if i.inTried then s.(nTried := s.nTried + d, counts := counts)
    else s.(nNew := s.nNew + d, counts := counts)
  }

  function Find(s: State, a: Service): (r: Option<Id>) {
    if a in s.ids && s.ids[a] in s.info then Some(s.ids[a]) else None
  }

  function Created(a: Address, source: nat, randomPos: nat): (i: Info) {
    Info(a.service, a.time, a.services, source, 0, 0, 0, 0, 0, false, randomPos)
  }

  /** An entry under the next id. */
  function Admit(s: State, i: Info): (r: State) {
    Adjust(s.(idCount := s.idCount + 1,
              info := s.info[s.idCount := i],
              ids := s.ids[i.addr := s.idCount],
              random := s.random + [s.idCount]), i, 1)
  }

  /** A new entry for an announced address. */
  function Create(s: State, a: Address, source: nat): (r: State) {
    Admit(s, Created(a, source, |s.random|))
  }

  function SwapRandom(s: State, i: int, j: int): (r: State)
    ensures |r.random| == |s.random|
  {
    if i == j || !(0 <= i < |s.random| && 0 <= j < |s.random|) then s
    else
      var a, b := s.random[i], s.random[j];
      s.With(a, s.At(a).(randomPos := j))
       .(random := s.random[i := b][j := a])
       .With(b, s.At(b).(randomPos := i))
  }

  function Delete(s: State, id: Id): (r: State) {
    if id !in s.info || s.random == [] then s
    else
      var i := s.info[id];
      var t := SwapRandom(s, i.randomPos, |s.random| - 1);
      Adjust(t.(random := t.random[..|s.random| - 1], ids := t.ids - {i.addr}, info := t.info - {id}), i, -1)
  }

  function Unlink(s: State, slot: Slot): (r: State)
    requires slot in s.newTable
  {
    var id := s.newTable[slot];
    s.With(id, s.At(id).(refCount := s.At(id).refCount - 1)).(newTable := s.newTable - {slot})
  }

  function ClearNew(s: State, slot: Slot): (r: State) {
    if slot !in s.newTable then s
    else
      var t := Unlink(s, slot);
      if t.At(s.newTable[slot]).refCount == 0 then Delete(t, s.newTable[slot]) else t
  }

  function Link(s: State, id: Id, slot: Slot): (r: State) {
    s.With(id, s.At(id).(refCount := s.At(id).refCount + 1)).(newTable := s.newTable[slot := id])
  }

  /** Takes an entry out of the new buckets, from the n-th after `start` on. */
  function UnlinkAll(s: State, id: Id, start: nat, n: nat): (r: State)
    requires n <= NEW_BUCKETS
    decreases NEW_BUCKETS - n
  {
    if n == NEW_BUCKETS then s
    else
      var slot := s.cfg.NewSlot(s.At(id).addr, (start + n) % NEW_BUCKETS);
      if slot in s.newTable && s.newTable[slot] == id then
        var t := Unlink(s, slot);
        if t.At(id).refCount == 0 then t else UnlinkAll(t, id, start, n + 1)
      else UnlinkAll(s, id, start, n + 1)
  }

  /** Moves the entry of a tried slot back to the new table, deleting what is in its place. */
  function Evict(s: State, slot: Slot): (r: State)
    requires slot in s.triedTable
  {
    var id := s.triedTable[slot];
    var i := s.At(id);
    var t := Adjust(s.With(id, i.(inTried := false)).(triedTable := s.triedTable - {slot}), i.(inTried := true), -1);
    var place := s.cfg.NewSlot(i.addr, s.cfg.NewBucket(i.addr, i.source));
    var u := ClearNew(t, place);
    Adjust(u.With(id, u.At(id).(refCount := 1)).(newTable := u.newTable[place := id]), i.(inTried := false), 1)
  }

  function MakeTried(s: State, id: Id): (r: State) {
    var i := s.At(id);
    var t := UnlinkAll(s, id, s.cfg.NewBucket(i.addr, i.source), 0);
    var u := Adjust(t, i.(inTried := false), -1);
    var slot := s.cfg.TriedSlot(i.addr);
    var v := if slot in u.triedTable then Evict(u, slot) else u;
    Adjust(v.With(id, v.At(id).(inTried := true)).(triedTable := v.triedTable[slot := id]), i.(inTried := true), 1)
  }

  // ---------------------------------------------------------------------------
  // Public operations
  // ---------------------------------------------------------------------------

  /** 2^n. */
  function Factor(n: int): (f: nat)
    ensures f >= 1
  {
    if n <= 0 then 1 else 2 * Factor(n - 1)
  }

  /** An announcement refreshes the time and services of an entry that exists. */
  function Refreshed(i: Info, a: Address, penalty: int, now: int): (r: Info) {
    var interval := if now - a.time < DAY then HOUR else DAY;
    i.(time := if i.time < a.time - interval - penalty then Max(0, a.time - penalty) else i.time,
       services := i.services + a.services)
  }

  /** Whether an announcement of an existing entry may add a reference; `draw` is random. */
  predicate MayReference(i: Info, a: Address, draw: nat) {
    && a.time > i.time
    && !i.inTried
    && i.refCount != MAX_REFS
    && (Factor(i.refCount) > 1 ==> draw % Factor(i.refCount) == 0)
  }

  /** Puts entry `id` into the new bucket it has for `source`, if the place is to be had. */
  function Insert(s: State, id: Id, source: nat, now: int): (r: (State, bool)) {
    var a := s.At(id).addr;
    var slot := s.cfg.NewSlot(a, s.cfg.NewBucket(a, source));
    if slot !in s.newTable then (Link(s, id, slot), true)
    else if s.newTable[slot] == id then (s, false)
    else
      var other := s.At(s.newTable[slot]);
      if other.IsTerrible(now) || (other.refCount > 1 && s.At(id).refCount == 0) then
        (Link(ClearNew(s, slot), id, slot), true)
      else if s.At(id).refCount == 0 then (Delete(s, id), false)
      else (s, false)
  }

  function AddSingle(s: State, a: Address, source: nat, penalty: int, now: int, draw: nat): (r: (State, bool)) {
    if !s.cfg.Routable(a.service.host) then (s, false)
    else
      var penalty := if a.service.host == source then 0 else penalty;
      match Find(s, a.service)
      case Some(id) =>
        var i := Refreshed(s.At(id), a, penalty, now);
        var t := s.With(id, i);
        if MayReference(i, a, draw) then Insert(t, id, source, now) else (t, false)
      case None =>
        var id := s.idCount;
        var t := Create(s, a, source);
        Insert(t.With(id, t.At(id).(time := Max(0, t.At(id).time - penalty))), id, source, now)
  }

  /** Adds announcements in order; tells how many were inserted. */
  function Add(s: State, addrs: seq<Address>, source: nat, penalty: int, now: nat -> int, draw: nat -> nat): (r: (State, nat))
    decreases |addrs|
  {
    if addrs == [] then (s, 0)
    else
      var n := |addrs| - 1;
      var (t, k) := Add(s, addrs[..n], source, penalty, now, draw);
      var (u, b) := AddSingle(t, addrs[n], source, penalty, now(n), draw(n));
      (u, if b then k + 1 else k)
  }

  function Succeeded(i: Info, time: int): (r: Info) {
    i.(lastSuccess := time, lastTry := time, attempts := 0)
  }

  function Good(s: State, a: Service, testBeforeEvict: bool, time: int): (r: (State, bool)) {
    var s := s.(lastGood := time);
    match Find(s, a)
    case None => (s, false)
    case Some(id) =>
      var i := Succeeded(s.At(id), time);
      var t := s.With(id, i);
      if i.inTried || i.refCount <= 0 then (t, false)
      else if testBeforeEvict && s.cfg.TriedSlot(i.addr) in s.triedTable then
        (if |s.collisions| < MAX_COLLISIONS then t.(collisions := s.collisions + {id}) else t, false)
      else (MakeTried(t, id), true)
  }

  function Attempt(s: State, a: Service, countFailure: bool, time: int): (r: State) {
    match Find(s, a)
    case None => s
    case Some(id) =>
      var i := s.At(id);
      s.With(id, if countFailure && i.lastCountAttempt < s.lastGood
                 then i.(lastTry := time, lastCountAttempt := time, attempts := i.attempts + 1)
                 else i.(lastTry := time))
  }

  function Connected(s: State, a: Service, time: int): (r: State) {
    match Find(s, a)
    case None => s
    case Some(id) => if time - s.At(id).time > 20 * MINUTE then s.With(id, s.At(id).(time := time)) else s
  }

  function SetServices(s: State, a: Service, services: Services): (r: State) {
    match Find(s, a)
    case None => s
    case Some(id) => s.With(id, s.At(id).(services := services))
  }

  function AddressOf(i: Info): (a: Address) { Address(i.addr, i.time, i.services) }

  function Limit(size: nat, maxAddresses: nat, maxPct: nat): (n: nat) {
    var n := if maxPct != 0 then maxPct * size / 100 else size;
    if maxAddresses != 0 && maxAddresses < n then maxAddresses else n
  }

  /** Whether GetAddr reports an entry. */
  predicate Wanted(cfg: Config, i: Info, net: Option<nat>, now: int) {
    (net.Some? ==> cfg.netClass(i.addr.host) == net.value) && !i.IsTerrible(now)
  }

  /** The shuffling loop of GetAddr, from position `n` on with `got` addresses gathered. */
  function Gather(s: State, n: nat, limit: nat, net: Option<nat>, now: int, draw: nat -> nat, got: seq<Address>)
    : (r: (State, seq<Address>))
    requires n <= |s.random|
    decreases |s.random| - n
  {
    if n == |s.random| || |got| >= limit then (s, got)
    else
      var t := SwapRandom(s, n, draw(n) % (|s.random| - n) + n);
      var i := t.At(t.random[n]);
      Gather(t, n + 1, limit, net, now, draw, if Wanted(t.cfg, i, net, now) then got + [AddressOf(i)] else got)
  }

  function GetAddr(s: State, maxAddresses: nat, maxPct: nat, net: Option<nat>, now: int, draw: nat -> nat)
    : (r: (State, seq<Address>))
  {
    Gather(s, 0, Limit(|s.random|, maxAddresses, maxPct), net, now, draw, [])
  }

  /** What is to become of one recorded collision. */
  datatype Verdict = Forget | Wait | Replace | NoCollision

  function Judge(s: State, id: Id, now: int): (v: Verdict) {
    if id !in s.info then Forget
    else
      var challenger := s.info[id];
      var slot := s.cfg.TriedSlot(challenger.addr);
      if !s.cfg.valid(challenger.addr.host) then Forget
      else if slot !in s.triedTable then NoCollision
      else
        var holder := s.At(s.triedTable[slot]);
        if now - holder.lastSuccess < REPLACEMENT then Forget
        else if now - holder.lastTry < REPLACEMENT then
          if now - holder.lastTry > MINUTE then Replace else Wait
        else if now - challenger.lastSuccess > TEST_WINDOW then Replace
        else Wait
  }

  function ResolveOne(s: State, id: Id, now: int): (r: State) {
    match Judge(s, id, now)
    case Wait => s
    case Forget => s.(collisions := s.collisions - {id})
    case Replace =>
      var t := Good(s, s.info[id].addr, false, now).0;
      t.(collisions := t.collisions - {id})
    case NoCollision =>
      var t := Good(s, s.info[id].addr, false, now).0;
      t.(collisions := t.collisions - {id})
  }

  /** Goes through the recorded collisions in order of id, with one clock reading each. */
  function ResolveFrom(s: State, todo: set<Id>, now: Id -> int): (r: State)
    decreases |todo|
  {
    if todo == {} then s
    else
      var id := Least(todo);
      ResolveFrom(ResolveOne(s, id, now(id)), todo - {id}, now)
  }

  function ResolveCollisions(s: State, now: Id -> int): (r: State) {
    ResolveFrom(s, s.collisions, now)
  }

  /** Picks a recorded collision at random and returns the tried entry it collides with. */
  function SelectTriedCollision(s: State, draw: nat): (r: (State, Option<Info>)) {
    if s.collisions == {} then (s, None)
    else
      assert |s.collisions| > 0;
      var id := Nth(s.collisions, draw % |s.collisions|);
      if id !in s.info then (s.(collisions := s.collisions - {id}), None)
      else
        var slot := s.cfg.TriedSlot(s.info[id].addr);
        if slot in s.triedTable && s.triedTable[slot] in s.info then (s, Some(s.info[s.triedTable[slot]]))
        else
          // looking the empty mark up creates an entry for it
          (s.With(if slot in s.triedTable then s.triedTable[slot] else -1, BLANK), Some(BLANK))
  }
}
