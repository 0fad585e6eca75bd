/**
 The layered UTXO cache as values: a stack of caches over a flat coin database, what each
 operation of a cache does to the stack, and the proof that the stack behaves like a stack
 of plain maps.
 */
module Coins {
  import opened Sums
  import opened Wrappers

  datatype OutPoint = OutPoint(hash: nat, n: nat)

  const NULL_VALUE := -1
  const OP_RETURN := 0x6a
  const MAX_SCRIPT_SIZE := 10000
  /** Scripts up to this size live inside the coin itself. */
  const INLINE_SCRIPT_SIZE := 28

  datatype Coin = Coin(value: int, script: seq<nat>, height: nat, coinBase: bool, coinStake: bool, time: nat)
  {
    predicate IsSpent() { value == NULL_VALUE }

    predicate IsUnspendable() {
      (|script| > 0 && script[0] == OP_RETURN) || |script| > MAX_SCRIPT_SIZE
    }

    /** Heap bytes of the script: a block rounded up to 16 bytes, with its header. */
    function DynamicMemoryUsage(): nat {
      if |script| <= INLINE_SCRIPT_SIZE then 0 else (|script| + 31) / 16 * 16
    }
  }

  const EMPTY_COIN := Coin(NULL_VALUE, [], 0, false, false, 0)

  datatype Entry = Entry(coin: Coin, isDirty: bool, isFresh: bool)

  /** The five flag states that SanityCheck admits. */
  predicate LegalFlags(e: Entry) {
    var attr := (if e.isDirty then 1 else 0) + (if e.isFresh then 2 else 0) + (if e.coin.IsSpent() then 4 else 0);
    attr != 2 && attr != 4 && attr != 7
  }

  type Entries = map<OutPoint, Entry>
  type CoinMap = map<OutPoint, Coin>

  /** A stack of caches; `usage` is the layer's cachedCoinsUsage. */
  datatype Stack =
    | Database(coins: CoinMap)
    | Cache(entries: Entries, usage: int, base: Stack)

  const EntryUsage: Entry -> nat := (e: Entry) => e.coin.DynamicMemoryUsage()

  ghost function Usage(entries: Entries): (u: nat) { Sum(entries, EntryUsage) }

  lemma UsageEmpty(entries: Entries)
    requires |entries| == 0
    ensures Usage(entries) == 0
  {
  }

  function UsageAt(entries: Entries, o: OutPoint): (u: nat) {
    if o in entries then entries[o].coin.DynamicMemoryUsage() else 0
  }

  lemma UsagePut(entries: Entries, o: OutPoint, e: Entry)
    ensures Usage(entries[o := e]) == Usage(entries) - UsageAt(entries, o) + e.coin.DynamicMemoryUsage()
  {
    SumUpdate(entries, EntryUsage, o, e);
  }

  lemma UsageErase(entries: Entries, o: OutPoint)
    ensures Usage(entries - {o}) == Usage(entries) - UsageAt(entries, o)
  {
    SumErase(entries, EntryUsage, o);
  }

  // ---------------------------------------------------------------------------
  // What a layer means
  // ---------------------------------------------------------------------------

  function Lookup(m: CoinMap, o: OutPoint): Option<Coin> {
    if o in m then Some(m[o]) else None
  }

  function EntryAt(entries: Entries, o: OutPoint): (e: Option<Entry>) {
    if o in entries then Some(entries[o]) else None
  }

  /** A layer's answer at one outpoint, from its own entry and the answer below. */
  function Answer(e: Option<Entry>, below: Option<Coin>): (c: Option<Coin>) {
    match e
    case None => below
    case Some(e) => if e.coin.IsSpent() then None else Some(e.coin)
  }

  /** The unspent coin that a layer stands for at `o`. */
  function At(s: Stack, o: OutPoint): (c: Option<Coin>)
    decreases s
  {
    match s
    case Database(coins) => Lookup(coins, o)
    case Cache(entries, _, base) => Answer(EntryAt(entries, o), At(base, o))
  }

  ghost predicate SameView(s: Stack, t: Stack) { forall o :: At(s, o) == At(t, o) }

  /** Same number of layers, and every layer means the same. */
  ghost predicate SameViews(s: Stack, t: Stack)
    decreases s
  {
    && SameView(s, t)
    && (s.Cache? <==> t.Cache?)
    && (s.Cache? ==> SameViews(s.base, t.base))
  }

  /** A clean entry repeats the parent; a fresh entry promises that the parent has no unspent coin. */
  predicate EntryOk(e: Entry, below: Option<Coin>) {
    && LegalFlags(e)
    && (!e.isDirty ==> below == if e.coin.IsSpent() then None else Some(e.coin))
    && (e.isFresh ==> below == None)
  }

  ghost predicate LayerOk(entries: Entries, base: Stack) {
    forall o :: o in entries ==> EntryOk(entries[o], At(base, o))
  }

  ghost predicate Inv(s: Stack)
    decreases s
  {
    match s
    case Database(coins) => forall o :: o in coins ==> !coins[o].IsSpent()
    case Cache(entries, usage, base) =>
      Inv(base) && LayerOk(entries, base) && usage == Usage(entries)
  }

  lemma {:induction false} ViewIsUnspent(s: Stack, o: OutPoint)
    requires Inv(s)
    ensures At(s, o).Some? ==> !At(s, o).value.IsSpent()
    decreases s
  {
    if s.Cache? { ViewIsUnspent(s.base, o); }
  }

  // ---------------------------------------------------------------------------
  // Operations of the topmost layer
  // ---------------------------------------------------------------------------

  /** GetCoin: every cache on the way down keeps a copy of the coin that was found. */
  function Get(s: Stack, o: OutPoint): (r: (Stack, Option<Coin>))
    decreases s
  {
    match s
    case Database(coins) => (s, Lookup(coins, o))
    case Cache(_, _, _) =>
      var (t, found) := Fetch(s, o);
      (t, match found
          case None => None
          case Some(e) => if e.coin.IsSpent() then None else Some(e.coin))
  }

  /** FetchCoin. */
  function Fetch(s: Stack, o: OutPoint): (r: (Stack, Option<Entry>))
    requires s.Cache?
    ensures r.0.Cache? && (r.1.Some? ==> o in r.0.entries && r.0.entries[o] == r.1.value)
    decreases s, 0
  {
    var Cache(entries, usage, base) := s;
    if o in entries then (s, Some(entries[o]))
    else
      match Get(base, o)
      case (base', None) => (Cache(entries, usage, base'), None)
      case (base', Some(coin)) =>
        var e := Entry(coin, false, coin.IsSpent());
        (Cache(entries[o := e], usage + coin.DynamicMemoryUsage(), base'), Some(e))
  }

  predicate Ignored(coin: Coin, skipZeroValue: bool) {
    coin.IsUnspendable() || (coin.value == 0 && skipZeroValue)
  }

  /** AddCoin throws when told that there is nothing to overwrite and the cache holds an unspent coin. */
  predicate AddThrows(s: Stack, o: OutPoint, coin: Coin, overwrite: bool, skipZeroValue: bool)
    requires s.Cache?
  {
    !Ignored(coin, skipZeroValue) && !overwrite && o in s.entries && !s.entries[o].coin.IsSpent()
  }

  /** AddCoin. The usage counter has already been reduced when the exception is thrown. */
  function Add(s: Stack, o: OutPoint, coin: Coin, overwrite: bool, skipZeroValue: bool): (r: Stack)
    requires s.Cache?
    ensures r.Cache?
  {
    if Ignored(coin, skipZeroValue) then s
    else
      var inserted := o !in s.entries;
      var old' := if inserted then Entry(EMPTY_COIN, false, false) else s.entries[o];
      var usage := if inserted then s.usage else s.usage - old'.coin.DynamicMemoryUsage();
      if AddThrows(s, o, coin, overwrite, skipZeroValue) then s.(usage := usage)
      else
        var markFresh := !overwrite && !old'.isDirty;
        Cache(s.entries[o := Entry(coin, true, old'.isFresh || markFresh)], usage + coin.DynamicMemoryUsage(), s.base)
  }

  /** SpendCoin: a fresh entry disappears, any other entry stays as a dirty empty coin. */
  function Spend(s: Stack, o: OutPoint): (r: Stack)
    requires s.Cache?
    ensures r.Cache?
  {
    var (t, found) := Fetch(s, o);
    match found
    case None => t
    case Some(e) =>
      var usage := t.usage - e.coin.DynamicMemoryUsage();
      if e.isFresh then Cache(t.entries - {o}, usage, t.base)
      else Cache(t.entries[o := Entry(EMPTY_COIN, true, false)], usage, t.base)
  }

  function Uncache(s: Stack, o: OutPoint): (r: Stack)
    requires s.Cache?
    ensures r.Cache?
  {
    if o in s.entries && !s.entries[o].isDirty && !s.entries[o].isFresh then
      Cache(s.entries - {o}, s.usage - s.entries[o].coin.DynamicMemoryUsage(), s.base)
    else s
  }

  /** What one dirty child entry does to the parent's entry for the same outpoint (None: no entry). */
  function WriteEntry(child: Entry, parent: Option<Entry>): (r: Option<Entry>) {
    if !child.isDirty then parent
    else
      match parent
      case None =>
        if child.isFresh && child.coin.IsSpent() then None else Some(Entry(child.coin, true, child.isFresh))
      case Some(p) =>
        if p.isFresh && child.coin.IsSpent() then None else Some(Entry(child.coin, true, p.isFresh))
  }

  function WrittenAt(child: Entries, parent: Entries, o: OutPoint): (r: Option<Entry>) {
    if o in child then WriteEntry(child[o], EntryAt(parent, o)) else EntryAt(parent, o)
  }

  /** The parent's entries after the whole child has been written, whatever the order of the loop. */
  function Written(child: Entries, parent: Entries): (r: Entries)
    ensures forall o :: EntryAt(r, o) == WrittenAt(child, parent, o)
  {
    map o | o in child.Keys + parent.Keys && WrittenAt(child, parent, o).Some? ::
      WrittenAt(child, parent, o).value
  }

  /** The condition of the "FRESH flag misapplied" exception for one child entry. */
  predicate Misapplied(child: Entry, parent: Option<Entry>) {
    child.isDirty && child.isFresh && parent.Some? && !parent.value.coin.IsSpent()
  }

  ghost predicate WriteThrows(child: Entries, parent: Stack) {
    parent.Cache? && exists o :: o in child && Misapplied(child[o], EntryAt(parent.entries, o))
  }

  /** The database erases spent coins and writes the others; clean child entries are skipped. */
  function WrittenCoins(child: Entries, coins: CoinMap): (r: CoinMap)
    ensures forall o :: Lookup(r, o) ==
              if o in child && child[o].isDirty then Answer(Some(child[o]), None) else Lookup(coins, o)
  {
    map o | o in child.Keys + coins.Keys &&
            (if o in child && child[o].isDirty then !child[o].coin.IsSpent() else o in coins) ::
      if o in child && child[o].isDirty then child[o].coin else coins[o]
  }

  ghost function BatchWrite(child: Entries, parent: Stack): (r: Stack)
    ensures r.Cache? <==> parent.Cache?
    ensures parent.Cache? ==> r.base == parent.base
  {
    match parent
    case Database(coins) => Database(WrittenCoins(child, coins))
    case Cache(entries, usage, base) =>
      var w := Written(child, entries);
      Cache(w, usage - Usage(entries) + Usage(w), base)
  }

  ghost function Flush(s: Stack): (r: Stack)
    requires s.Cache?
  {
    Cache(map[], 0, BatchWrite(s.entries, s.base))
  }

  /** The entries that survive Sync, now clean. */
  function Kept(entries: Entries): (r: Entries)
    ensures forall o :: Answer(EntryAt(r, o), None) == Answer(EntryAt(entries, o), None)
    ensures forall o :: o in r ==> !r[o].isDirty && !r[o].isFresh && !r[o].coin.IsSpent()
  {
    map o | o in entries && !entries[o].coin.IsSpent() :: Entry(entries[o].coin, false, false)
  }

  ghost function Sync(s: Stack): (r: Stack)
    requires s.Cache?
  {
    Cache(Kept(s.entries), s.usage - Usage(s.entries) + Usage(Kept(s.entries)), BatchWrite(s.entries, s.base))
  }

  // ---------------------------------------------------------------------------
  // One operation at a time
  // ---------------------------------------------------------------------------

  lemma {:induction false} SameViewsReflexive(s: Stack)
    ensures SameViews(s, s)
    decreases s
  {
    if s.Cache? { SameViewsReflexive(s.base); }
  }

  /** A layer stays consistent when its base keeps its meaning. */
  lemma RebaseKeepsInv(s: Stack, b: Stack)
    requires s.Cache? && Inv(s) && Inv(b) && SameView(s.base, b)
    ensures Inv(s.(base := b)) && SameView(s.(base := b), s)
  {
    var t := s.(base := b);
    forall o ensures At(t, o) == At(s, o) {
      assert At(s.base, o) == At(b, o);
    }
    forall o | o in t.entries ensures EntryOk(t.entries[o], At(b, o)) {
      assert At(s.base, o) == At(b, o);
    }
  }

  /** Lookups fill every cache on the way, change no view, and answer what the layer means. */
  lemma {:induction false} GetKeepsViews(s: Stack, o: OutPoint)
    requires Inv(s)
    ensures var (t, coin) := Get(s, o);
            Inv(t) && SameViews(s, t) && coin == At(s, o)
    decreases s, 1
  {
    if s.Cache? { FetchKeepsViews(s, o); }
  }

  lemma {:induction false} FetchKeepsViews(s: Stack, o: OutPoint)
    requires s.Cache? && Inv(s)
    ensures var (t, e) := Fetch(s, o);
            && Inv(t) && SameViews(s, t)
            && At(s, o) == Answer(e, None)
    decreases s, 0
  {
    SameViewsReflexive(s);
    if o !in s.entries {
      GetKeepsViews(s.base, o);
      var (b, found) := Get(s.base, o);
      RebaseKeepsInv(s, b);
      if found.Some? {
        ViewIsUnspent(s.base, o);
        FillKeepsView(s.(base := b), o, found.value);
      }
    }
  }

  /** Putting a clean copy of the parent's coin into a layer. */
  lemma FillKeepsView(s: Stack, o: OutPoint, coin: Coin)
    requires s.Cache? && Inv(s) && o !in s.entries
    requires At(s.base, o) == Some(coin) && !coin.IsSpent()
    ensures var t := Cache(s.entries[o := Entry(coin, false, false)], s.usage + coin.DynamicMemoryUsage(), s.base);
            Inv(t) && SameView(t, s)
  {
    UsagePut(s.entries, o, Entry(coin, false, false));
  }

  /** What AddCoin and SpendCoin do to a layer's entries: one outpoint changes. */
  ghost predicate ChangedAt(s: Stack, t: Stack, o: OutPoint, c: Option<Coin>) {
    At(t, o) == c && forall p :: p != o ==> At(t, p) == At(s, p)
  }

  /** AddCoin on the top layer, when no unspent coin is silently declared absent. */
  lemma AddIsUpdate(s: Stack, o: OutPoint, coin: Coin, overwrite: bool, skipZeroValue: bool)
    requires s.Cache? && Inv(s) && !coin.IsSpent()
    requires overwrite || Ignored(coin, skipZeroValue) || At(s, o).None?
    ensures var t := Add(s, o, coin, overwrite, skipZeroValue);
            && !AddThrows(s, o, coin, overwrite, skipZeroValue)
            && Inv(t) && t.base == s.base
            && if Ignored(coin, skipZeroValue) then SameView(s, t) else ChangedAt(s, t, o, Some(coin))
  {
    hide Usage;
    if !Ignored(coin, skipZeroValue) {
      AddKeepsInvExactlyWhen(s, o, coin, overwrite, skipZeroValue);
    }
  }

  /**
   Exactly when an AddCoin that does not throw keeps the invariant: a coin that enters the
   cache unannounced (no overwrite allowed, no entry yet) must be absent below.
   */
  lemma AddKeepsInvExactlyWhen(s: Stack, o: OutPoint, coin: Coin, overwrite: bool, skipZeroValue: bool)
    requires s.Cache? && Inv(s) && !coin.IsSpent()
    requires !AddThrows(s, o, coin, overwrite, skipZeroValue)
    ensures Inv(Add(s, o, coin, overwrite, skipZeroValue)) <==>
            (Ignored(coin, skipZeroValue) || overwrite || o in s.entries || At(s.base, o).None?)
  {
    hide Usage;
    if !Ignored(coin, skipZeroValue) {
      var t := Add(s, o, coin, overwrite, skipZeroValue);
      UsagePut(s.entries, o, t.entries[o]);
      assert EntryOk(t.entries[o], At(s.base, o)) <==>
             (overwrite || o in s.entries || At(s.base, o).None?);
    }
  }

  /** The thrown AddCoin changes no view but leaves the counter short by the coin it refused to overwrite. */
  lemma AddThrowMiscounts(s: Stack, o: OutPoint, coin: Coin, skipZeroValue: bool)
    requires s.Cache? && Inv(s) && !coin.IsSpent()
    requires AddThrows(s, o, coin, false, skipZeroValue)
    ensures var t := Add(s, o, coin, false, skipZeroValue);
            && SameView(s, t) && t.base == s.base
            && (Inv(t) <==> s.entries[o].coin.DynamicMemoryUsage() == 0)
  {
  }

  lemma SpendIsRemoval(s: Stack, o: OutPoint)
    requires s.Cache? && Inv(s)
    ensures var t := Spend(s, o);
            Inv(t) && ChangedAt(s, t, o, None) && SameViews(s.base, t.base)
  {
    FetchKeepsViews(s, o);
    var (t, found) := Fetch(s, o);
    if found.Some? {
      SpendEntry(t, o);
    }
  }

  lemma SpendEntry(s: Stack, o: OutPoint)
    requires s.Cache? && Inv(s) && o in s.entries
    ensures var t := Spend(s, o);
            Inv(t) && ChangedAt(s, t, o, None) && t.base == s.base
  {
    hide Usage;
    if s.entries[o].isFresh { EraseFreshEntry(s, o); } else { EmptyEntry(s, o); }
  }

  lemma EraseFreshEntry(s: Stack, o: OutPoint)
    requires s.Cache? && Inv(s) && o in s.entries && s.entries[o].isFresh
    ensures var t := Cache(s.entries - {o}, s.usage - s.entries[o].coin.DynamicMemoryUsage(), s.base);
            Inv(t) && ChangedAt(s, t, o, None)
  {
    hide Usage;
    UsageErase(s.entries, o);
    var t := Cache(s.entries - {o}, s.usage - s.entries[o].coin.DynamicMemoryUsage(), s.base);
    assert forall p :: p != o ==> EntryAt(t.entries, p) == EntryAt(s.entries, p);
  }

  lemma EmptyEntry(s: Stack, o: OutPoint)
    requires s.Cache? && Inv(s) && o in s.entries
    ensures var t := Cache(s.entries[o := Entry(EMPTY_COIN, true, false)],
                           s.usage - s.entries[o].coin.DynamicMemoryUsage(), s.base);
            Inv(t) && ChangedAt(s, t, o, None)
  {
    var e := Entry(EMPTY_COIN, true, false);
    UsagePut(s.entries, o, e);
  }

  lemma UncacheKeepsView(s: Stack, o: OutPoint)
    requires s.Cache? && Inv(s)
    ensures var t := Uncache(s, o);
            Inv(t) && t.base == s.base && SameView(s, t)
  {
    UsageErase(s.entries, o);
  }

  /**
   Writing a consistent child into its parent never misapplies FRESH, keeps the parent
   consistent, and makes the parent mean what the child meant.
   */
  lemma BatchWriteInstallsView(child: Entries, parent: Stack)
    requires Inv(parent) && LayerOk(child, parent)
    ensures var r := BatchWrite(child, parent);
            && !WriteThrows(child, parent)
            && Inv(r)
            && SameView(r, Cache(child, 0, parent))
            && (parent.Cache? ==> r.base == parent.base)
  {
    if parent.Cache? { CacheWriteInstallsView(child, parent); } else { DatabaseWriteInstallsView(child, parent.coins); }
  }

  lemma DatabaseWriteInstallsView(child: Entries, coins: CoinMap)
    requires Inv(Database(coins)) && LayerOk(child, Database(coins))
    ensures var r := Database(WrittenCoins(child, coins));
            Inv(r) && SameView(r, Cache(child, 0, Database(coins)))
  {
    var r := WrittenCoins(child, coins);
    forall o
      ensures Lookup(r, o) == Answer(EntryAt(child, o), Lookup(coins, o))
      ensures o in r ==> !r[o].IsSpent()
    {
      assert o in child ==> EntryOk(child[o], At(Database(coins), o));
    }
  }

  lemma CacheWriteInstallsView(child: Entries, parent: Stack)
    requires parent.Cache? && Inv(parent) && LayerOk(child, parent)
    ensures var r := BatchWrite(child, parent);
            !WriteThrows(child, parent) && Inv(r) && SameView(r, Cache(child, 0, parent))
  {
    var r := BatchWrite(child, parent);
    forall o
      ensures o in r.entries ==> EntryOk(r.entries[o], At(parent.base, o))
      ensures At(r, o) == At(Cache(child, 0, parent), o)
    {
      WriteEntryOk(EntryAt(child, o), EntryAt(parent.entries, o), At(parent.base, o));
      assert EntryAt(r.entries, o) == WrittenAt(child, parent.entries, o);
    }
    forall o | o in child
      ensures !Misapplied(child[o], EntryAt(parent.entries, o))
    {
      assert EntryOk(child[o], At(parent, o));
    }
  }

  /** One outpoint of a batch write, seen from child, parent and grandparent. */
  lemma WriteEntryOk(child: Option<Entry>, parent: Option<Entry>, below: Option<Coin>)
    requires parent.Some? ==> EntryOk(parent.value, below)
    requires child.Some? ==> EntryOk(child.value, Answer(parent, below))
    ensures var r := if child.Some? then WriteEntry(child.value, parent) else parent;
            && (r.Some? ==> EntryOk(r.value, below))
            && Answer(r, below) == Answer(child, Answer(parent, below))
  {
  }

  /** Flush and Sync: this layer's view is untouched, the parent's becomes equal to it, the rest is untouched. */
  lemma FlushPushesView(s: Stack)
    requires s.Cache? && Inv(s)
    ensures var t := Flush(s);
            && Inv(t) && SameView(s, t) && SameView(s, t.base)
            && (s.base.Cache? <==> t.base.Cache?) && (s.base.Cache? ==> t.base.base == s.base.base)
  {
    BatchWriteInstallsView(s.entries, s.base);
    assert SameView(s, Cache(s.entries, 0, s.base));
  }

  lemma SyncPushesView(s: Stack)
    requires s.Cache? && Inv(s)
    ensures var t := Sync(s);
            && Inv(t) && SameView(s, t) && SameView(s, t.base)
            && (s.base.Cache? <==> t.base.Cache?) && (s.base.Cache? ==> t.base.base == s.base.base)
  {
    BatchWriteInstallsView(s.entries, s.base);
    var t := Sync(s);
    forall o ensures At(t, o) == At(s, o) && At(t.base, o) == At(s, o) {
      assert At(t.base, o) == At(Cache(s.entries, 0, s.base), o);
      assert Answer(EntryAt(t.entries, o), None) == Answer(EntryAt(s.entries, o), None);
    }
    forall o | o in t.entries ensures EntryOk(t.entries[o], At(t.base, o)) {
      assert At(t, o) == At(t.base, o);
    }
  }

  lemma SameLookups(m: CoinMap, n: CoinMap)
    requires forall o :: Lookup(m, o) == Lookup(n, o)
    ensures m == n
  {
    forall o
      ensures o in m <==> o in n
      ensures o in m ==> m[o] == n[o]
    {
      assert Lookup(m, o) == Lookup(n, o);
    }
  }
}
