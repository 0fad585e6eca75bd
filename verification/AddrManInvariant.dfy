/**
 What every operation of the address manager keeps: all its indexes agree. The parts are
 stated with exceptions for entries in transit between tables, so that each small step can be
 treated alone.
 */
module AddrManInvariant {
  import opened AddrMan
  import Sums

  // ---------------------------------------------------------------------------
  // The invariant
  // ---------------------------------------------------------------------------

  /** mapAddr is the inverse of the entries' addresses, and ids stay below the next one. */
  ghost predicate Indexed(info: map<Id, Info>, ids: map<Service, Id>, idCount: Id) {
    && 0 <= idCount && (forall id :: id in info ==> 0 <= id < idCount)
    && (forall id :: id in info ==> info[id].addr in ids && ids[info[id].addr] == id)
    && (forall a :: a in ids ==> ids[a] in info && info[ids[a]].addr == a)
  }

  /** vRandom is a permutation of the ids, and every entry knows its position. */
  ghost predicate Shuffled(info: map<Id, Info>, random: seq<Id>) {
    && (forall id :: id in info ==> 0 <= info[id].randomPos < |random| && random[info[id].randomPos] == id)
    && (forall k :: 0 <= k < |random| ==> random[k] in info && info[random[k]].randomPos == k)
  }

  /** Tried entries are in exactly their own slot. */
  ghost predicate TriedOk(cfg: Config, info: map<Id, Info>, triedTable: map<Slot, Id>) {
    && (forall t :: t in triedTable ==>
          triedTable[t] in info && info[triedTable[t]].inTried && cfg.TriedSlot(info[triedTable[t]].addr) == t)
    && (forall id :: id in info && info[id].inTried ==>
          cfg.TriedSlot(info[id].addr) in triedTable && triedTable[cfg.TriedSlot(info[id].addr)] == id)
  }

  /** The new table refers to entries that are not tried, at the position they have there. */
  ghost predicate NewOk(cfg: Config, info: map<Id, Info>, newTable: map<Slot, Id>) {
    forall t :: t in newTable ==>
                  && t.bucket < NEW_BUCKETS
                  && newTable[t] in info && !info[newTable[t]].inTried
                  && cfg.NewSlot(info[newTable[t]].addr, t.bucket) == t
  }

  function Is(id: Id): (w: Id -> nat) { (x: Id) => if x == id then 1 else 0 }

  /** How many slots of a table hold `id`. */
  ghost function Occ(table: map<Slot, Id>, id: Id): (n: nat) { Sums.Sum(table, Is(id)) }

  /** One entry against the number of its occurrences in the new table. */
  predicate RefOk(i: Info, occurrences: nat, moving: bool) {
    && i.refCount == occurrences && i.refCount <= MAX_REFS
    && (!i.inTried && !moving ==> i.refCount >= 1)
    && (i.inTried ==> i.lastSuccess > 0 && !moving)
    && i.lastTry >= 0 && i.lastSuccess >= 0
  }

  /** Reference counts are exact and, but for entries in transit, positive outside the tried table. */
  ghost predicate RefsOk(info: map<Id, Info>, newTable: map<Slot, Id>, transit: set<Id>) {
    forall id :: id in info ==> RefOk(info[id], Occ(newTable, id), id in transit)
  }

  /** All networks, or one. */
  datatype Scope = Anywhere | On(net: nat)

  function Weight(cfg: Config, tried: bool, scope: Scope): (w: Info -> nat) {
    (i: Info) => if i.inTried == tried && (scope.Anywhere? || cfg.network(i.addr.host) == scope.net) then 1 else 0
  }

  ghost function Tally(cfg: Config, info: map<Id, Info>, tried: bool, scope: Scope): (n: nat) {
    Sums.Sum(info, Weight(cfg, tried, scope))
  }

  /** The number the manager keeps for a scope. */
  function Kept(s: State, tried: bool, scope: Scope): (n: int) {
    match scope
    case Anywhere => if tried then s.nTried else s.nNew
    case On(net) => var c := CountOf(s.counts, net); if tried then c.nTried else c.nNew
  }

  ghost predicate CountedAt(s: State, out: set<Id>, tried: bool, scope: Scope) {
    Kept(s, tried, scope) == Tally(s.cfg, s.info - out, tried, scope)
  }

  /** Totals and per-network counts are exact, entries in `out` not being counted. */
  ghost predicate Counted(s: State, out: set<Id>) {
    && (forall tried, scope :: CountedAt(s, out, tried, scope))
    && (forall id :: id in s.info ==> s.Network(s.info[id]) in s.counts)
  }

  ghost predicate InvBut(s: State, transit: set<Id>, out: set<Id>) {
    && Indexed(s.info, s.ids, s.idCount) && Shuffled(s.info, s.random)
    && TriedOk(s.cfg, s.info, s.triedTable) && NewOk(s.cfg, s.info, s.newTable)
    && RefsOk(s.info, s.newTable, transit) && Counted(s, out)
  }

  /** Recorded collisions are of entries that are not tried and whose tried slot is taken. */
  ghost predicate CollisionsOk(s: State) {
    && (forall id :: id in s.collisions ==> id < s.idCount)
    && (forall id :: id in s.collisions && id in s.info ==>
                       !s.info[id].inTried && s.cfg.TriedSlot(s.info[id].addr) in s.triedTable)
    && |s.collisions| <= MAX_COLLISIONS
  }

  /** Only routable addresses are kept. */
  ghost predicate RoutableOnly(s: State) {
    forall id :: id in s.info ==> s.cfg.Routable(s.info[id].addr.host)
  }

  ghost predicate Inv(s: State) {
    InvBut(s, {}, {}) && CollisionsOk(s) && RoutableOnly(s)
  }

  /**
   How a state may develop: filled tried slots stay filled, their number does not fall, entries
   keep their address, and ids are not used again.
   */
  ghost predicate Evolves(s: State, r: State) {
    && r.cfg == s.cfg && s.idCount <= r.idCount
    && s.triedTable.Keys <= r.triedTable.Keys && s.nTried <= r.nTried
    && (forall id :: id in r.info && id in s.info ==> r.info[id].addr == s.info[id].addr && r.info[id].source == s.info[id].source)
    && (forall id :: id in r.info && id !in s.info ==> id >= s.idCount && s.cfg.Routable(r.info[id].addr.host))
  }

  /** No tried entry is deleted. */
  ghost predicate TriedKept(s: State, r: State) {
    forall id :: id in s.info && s.info[id].inTried ==> id in r.info
  }

  // ---------------------------------------------------------------------------
  // Counting
  // ---------------------------------------------------------------------------

  lemma AdjustKept(s: State, i: Info, d: int, tried: bool, scope: Scope)
    ensures Kept(Adjust(s, i, d), tried, scope) == Kept(s, tried, scope) + d * Weight(s.cfg, tried, scope)(i)
  {
  }

  /** Rewriting an entry changes every tally by the weights of its two versions. */
  lemma TallyWrite(cfg: Config, m: map<Id, Info>, id: Id, i: Info, out: set<Id>, tried: bool, scope: Scope)
    requires id !in out
    ensures Tally(cfg, m[id := i] - out, tried, scope)
         == Tally(cfg, m - out, tried, scope) - (if id in m then Weight(cfg, tried, scope)(m[id]) else 0)
            + Weight(cfg, tried, scope)(i)
  {
    hide Sums.Sum, Weight;
    assert m[id := i] - out == (m - out)[id := i];
    Sums.SumUpdate(m - out, Weight(cfg, tried, scope), id, i);
  }

  lemma TallyLeaveOut(cfg: Config, m: map<Id, Info>, id: Id, out: set<Id>, tried: bool, scope: Scope)
    requires id in m && id !in out
    ensures Tally(cfg, m - (out + {id}), tried, scope)
         == Tally(cfg, m - out, tried, scope) - Weight(cfg, tried, scope)(m[id])
  {
    assert m - (out + {id}) == (m - out) - {id};
    Sums.SumErase(m - out, Weight(cfg, tried, scope), id);
  }

  /** Entries that change neither table nor address change no tally. */
  lemma TallySame(cfg: Config, m: map<Id, Info>, n: map<Id, Info>, out: set<Id>, tried: bool, scope: Scope)
    requires m.Keys == n.Keys
    requires forall id :: id in m && id !in out ==> m[id].inTried == n[id].inTried && m[id].addr == n[id].addr
    ensures Tally(cfg, m - out, tried, scope) == Tally(cfg, n - out, tried, scope)
  {
    var w := Weight(cfg, tried, scope);
    forall id | id in m - out ensures w((m - out)[id]) == w((n - out)[id]) {
      assert m[id].inTried == n[id].inTried;
    }
    assert (m - out).Keys == (n - out).Keys;
    Sums.SumPointwise(m - out, n - out, w);
  }

  lemma OccWrite(table: map<Slot, Id>, slot: Slot, id: Id, x: Id)
    ensures Occ(table[slot := id], x)
         == Occ(table, x) - (if slot in table && table[slot] == x then 1 else 0) + (if id == x then 1 else 0)
  {
    Sums.SumUpdate(table, Is(x), slot, id);
  }

  lemma OccErase(table: map<Slot, Id>, slot: Slot, x: Id)
    ensures Occ(table - {slot}, x) == Occ(table, x) - (if slot in table && table[slot] == x then 1 else 0)
  {
    Sums.SumErase(table, Is(x), slot);
  }

  /** An id that occurs is at some slot; one without occurrences is at none. */
  lemma OccAt(table: map<Slot, Id>, slot: Slot)
    requires slot in table
    ensures Occ(table, table[slot]) >= 1
  {
    Sums.SumRemove(table, Is(table[slot]), slot);
  }

  lemma OccNowhere(table: map<Slot, Id>, id: Id)
    requires forall t :: t in table ==> table[t] != id
    ensures Occ(table, id) == 0
  {
    Sums.SumZero(table, Is(id));
  }
}
