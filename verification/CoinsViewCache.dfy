/**
 The mutable caches. Each method is proved to take the stack of layers from its old value to
 the one given by the operation of the same name in Coins.
 */
module CoinsViewCache {
  import opened Coins
  import opened Wrappers

  class CoinsViewDB {
    var coins: CoinMap

    constructor ()
      ensures coins == map[]
    {
      coins := map[];
    }

    /** Writes the dirty entries; with `erase` the batch is consumed. */
    method BatchWrite(mapCoins: Entries, erase: bool) returns (rest: Entries)
      modifies this
      ensures coins == WrittenCoins(mapCoins, old(coins))
      ensures rest == if erase then map[] else mapCoins
    {
      var todo := mapCoins;
      while todo != map[]
        invariant forall o :: o in todo ==> o in mapCoins && todo[o] == mapCoins[o]
        invariant forall o :: Lookup(coins, o) ==
                    if o in todo then Lookup(old(coins), o) else Lookup(WrittenCoins(mapCoins, old(coins)), o)
        decreases todo.Keys
      {
        var o :| o in todo;
        var e := todo[o];
        if e.isDirty {
          coins := if e.coin.IsSpent() then coins - {o} else coins[o := e.coin];
        }
        todo := todo - {o};
      }
      rest := if erase then todo else mapCoins;
      SameLookups(coins, WrittenCoins(mapCoins, old(coins)));
    }
  }

  /** Either a cache over another cache (`base`), or the lowest cache, over `db`. */
  class CoinsViewCache {
    const base: CoinsViewCache?
    const db: CoinsViewDB
    /** The caches underneath. */
    ghost const below: set<CoinsViewCache>

    var cacheCoins: Entries
    var cachedCoinsUsage: int

    /** How the layers are linked; this never changes. */
    ghost predicate Linked()
      decreases below
    {
      && this !in below
      && (base == null ==> below == {})
      && (base != null ==>
            && below == {base} + base.below && base !in base.below && base.db == db
            && base.Linked())
    }

    /** The stack of layers from this one down. */
    ghost function State(): (s: Stack)
      requires Linked()
      reads this, below, db
      ensures s == Cache(cacheCoins, cachedCoinsUsage, BaseState())
      decreases below, 1
    {
      Cache(cacheCoins, cachedCoinsUsage, BaseState())
    }

    ghost function BaseState(): (s: Stack)
      requires Linked()
      reads below, db
      decreases below, 0
    {
      if base == null then Database(db.coins) else base.State()
    }

    constructor OverDatabase(database: CoinsViewDB)
      ensures Linked() && fresh(this)
      ensures db == database && below == {} && State() == Cache(map[], 0, Database(db.coins))
    {
      base, db, below := null, database, {};
      cacheCoins, cachedCoinsUsage := map[], 0;
    }

    constructor OverCache(parent: CoinsViewCache)
      requires parent.Linked()
      ensures Linked() && fresh(this)
      ensures base == parent && below == {parent} + parent.below && State() == Cache(map[], 0, parent.State())
    {
      base, db, below := parent, parent.db, {parent} + parent.below;
      cacheCoins, cachedCoinsUsage := map[], 0;
    }

    /** FetchCoin: true when the cache now has an entry for `o`. */
    method FetchCoin(o: OutPoint) returns (found: bool)
      requires Linked()
      modifies this, below
      ensures State() == Fetch(old(State()), o).0
      ensures found == Fetch(old(State()), o).1.Some?
      ensures found <==> o in cacheCoins
      decreases below, 0
    {
      if o in cacheCoins { return true; }
      var tmp: Coin;
      if base == null {
        found := o in db.coins;
        tmp := if found then db.coins[o] else EMPTY_COIN;
      } else {
        found, tmp := base.GetCoin(o);
      }
      if !found { return; }
      cacheCoins := cacheCoins[o := Entry(tmp, false, tmp.IsSpent())];
      cachedCoinsUsage := cachedCoinsUsage + tmp.DynamicMemoryUsage();
    }

    method GetCoin(o: OutPoint) returns (found: bool, coin: Coin)
      requires Linked()
      modifies this, below
      ensures State() == Get(old(State()), o).0
      ensures Get(old(State()), o).1 == if found then Some(coin) else None
      decreases below, 1
    {
      var present := FetchCoin(o);
      if !present { return false, EMPTY_COIN; }
      coin := cacheCoins[o].coin;
      found := !coin.IsSpent();
    }

    method HaveCoin(o: OutPoint) returns (have: bool)
      requires Linked()
      modifies this, below
      ensures State() == Get(old(State()), o).0
      ensures have == Get(old(State()), o).1.Some?
    {
      var present := FetchCoin(o);
      have := present && !cacheCoins[o].coin.IsSpent();
    }

    method AddCoin(o: OutPoint, coin: Coin, possibleOverwrite: bool, skipZeroValue: bool) returns (threw: bool)
      requires Linked() && !coin.IsSpent()
      modifies this
      ensures State() == Add(old(State()), o, coin, possibleOverwrite, skipZeroValue)
      ensures threw == AddThrows(old(State()), o, coin, possibleOverwrite, skipZeroValue)
    {
      if coin.IsUnspendable() { return false; }
      if coin.value == 0 && skipZeroValue { return false; }
      var inserted := o !in cacheCoins;
      var entry := if inserted then Entry(EMPTY_COIN, false, false) else cacheCoins[o];
      var markFresh := false;
      if !inserted {
        cachedCoinsUsage := cachedCoinsUsage - entry.coin.DynamicMemoryUsage();
      }
      if !possibleOverwrite {
        if !entry.coin.IsSpent() { return true; }
        markFresh := !entry.isDirty;
      }
      cacheCoins := cacheCoins[o := Entry(coin, true, entry.isFresh || markFresh)];
      cachedCoinsUsage := cachedCoinsUsage + coin.DynamicMemoryUsage();
      threw := false;
    }

    /** SpendCoin: `removed` is true whenever there was an entry, spent or not. */
    method SpendCoin(o: OutPoint) returns (removed: bool, moveout: Coin)
      requires Linked()
      modifies this, below
      ensures State() == Spend(old(State()), o)
      ensures var e := Fetch(old(State()), o).1;
              removed == e.Some? && moveout == if e.Some? then e.value.coin else EMPTY_COIN
    {
      removed := FetchCoin(o);
      if !removed { return false, EMPTY_COIN; }
      var entry := cacheCoins[o];
      cachedCoinsUsage := cachedCoinsUsage - entry.coin.DynamicMemoryUsage();
      moveout := entry.coin;
      if entry.isFresh {
        cacheCoins := cacheCoins - {o};
      } else {
        cacheCoins := cacheCoins[o := Entry(EMPTY_COIN, true, entry.isFresh)];
      }
    }

    method UncacheCoin(o: OutPoint)
      requires Linked()
      modifies this
      ensures State() == Uncache(old(State()), o)
    {
      if o in cacheCoins && !cacheCoins[o].isDirty && !cacheCoins[o].isFresh {
        cachedCoinsUsage := cachedCoinsUsage - cacheCoins[o].coin.DynamicMemoryUsage();
        cacheCoins := cacheCoins - {o};
      }
    }

    /** Stores an entry and keeps the usage counter in step. */
    method Put(o: OutPoint, e: Entry)
      modifies this
      ensures cacheCoins == old(cacheCoins)[o := e]
      ensures cachedCoinsUsage - Usage(cacheCoins) == old(cachedCoinsUsage - Usage(cacheCoins))
    {
      UsagePut(cacheCoins, o, e);
      if o in cacheCoins { cachedCoinsUsage := cachedCoinsUsage - cacheCoins[o].coin.DynamicMemoryUsage(); }
      cacheCoins := cacheCoins[o := e];
      cachedCoinsUsage := cachedCoinsUsage + e.coin.DynamicMemoryUsage();
    }

    method Erase(o: OutPoint)
      requires o in cacheCoins
      modifies this
      ensures cacheCoins == old(cacheCoins) - {o}
      ensures cachedCoinsUsage - Usage(cacheCoins) == old(cachedCoinsUsage - Usage(cacheCoins))
    {
      UsageErase(cacheCoins, o);
      cachedCoinsUsage := cachedCoinsUsage - cacheCoins[o].coin.DynamicMemoryUsage();
      cacheCoins := cacheCoins - {o};
    }

    /** One round of the BatchWrite loop: entry `e` of the child arrives at this cache. */
    method WriteOne(o: OutPoint, e: Entry) returns (threw: bool)
      modifies this
      ensures threw == Misapplied(e, EntryAt(old(cacheCoins), o))
      ensures !threw ==> EntryAt(cacheCoins, o) == WriteEntry(e, EntryAt(old(cacheCoins), o))
      ensures forall p :: p != o ==> EntryAt(cacheCoins, p) == EntryAt(old(cacheCoins), p)
      ensures cachedCoinsUsage - Usage(cacheCoins) == old(cachedCoinsUsage - Usage(cacheCoins))
    {
      hide Usage;
      if !e.isDirty { return false; }
      if o !in cacheCoins {
        if !(e.isFresh && e.coin.IsSpent()) {
          Put(o, Entry(e.coin, true, e.isFresh));
        }
      } else {
        var us := cacheCoins[o];
        if e.isFresh && !us.coin.IsSpent() { return true; }
        if us.isFresh && e.coin.IsSpent() {
          Erase(o);
        } else {
          Put(o, Entry(e.coin, true, us.isFresh));
        }
      }
      threw := false;
    }

    /** The BatchWrite loop; it may visit the child's entries in any order. */
    method WriteAll(mapCoins: Entries) returns (threw: bool)
      modifies this
      ensures threw <==> exists o :: o in mapCoins && Misapplied(mapCoins[o], EntryAt(old(cacheCoins), o))
      ensures !threw ==> cacheCoins == Written(mapCoins, old(cacheCoins))
      ensures cachedCoinsUsage - Usage(cacheCoins) == old(cachedCoinsUsage - Usage(cacheCoins))
    {
      hide Usage;
      var todo := mapCoins;
      ghost var parent := cacheCoins;
      while todo != map[]
        invariant WriteProgress(mapCoins, todo, parent, cacheCoins)
        invariant cachedCoinsUsage - Usage(cacheCoins) == old(cachedCoinsUsage - Usage(cacheCoins))
        decreases todo.Keys
      {
        var o :| o in todo;
        ghost var before := cacheCoins;
        threw := WriteOne(o, todo[o]);
        WriteProgressStep(mapCoins, todo, parent, before, o, cacheCoins);
        if threw { return; }
        todo := todo - {o};
      }
      WriteDone(mapCoins, parent, cacheCoins);
      threw := false;
    }

    method BatchWrite(mapCoins: Entries, erase: bool) returns (rest: Entries, threw: bool)
      requires Linked()
      modifies this
      ensures threw == WriteThrows(mapCoins, old(State()))
      ensures !threw ==> State() == Coins.BatchWrite(mapCoins, old(State()))
      ensures !threw ==> rest == if erase then map[] else mapCoins
    {
      hide Usage;
      threw := WriteAll(mapCoins);
      rest := if erase && !threw then map[] else mapCoins;
    }

    /** Hands this cache's entries to whatever lies underneath. */
    method WriteToBase(erase: bool) returns (rest: Entries, threw: bool)
      requires Linked()
      modifies below, db
      ensures threw == WriteThrows(cacheCoins, old(BaseState()))
      ensures !threw ==> BaseState() == Coins.BatchWrite(cacheCoins, old(BaseState()))
      ensures !threw ==> rest == if erase then map[] else cacheCoins
    {
      if base == null {
        rest := db.BatchWrite(cacheCoins, erase);
        threw := false;
      } else {
        rest, threw := base.BatchWrite(cacheCoins, erase);
      }
    }

    method Flush() returns (threw: bool)
      requires Linked()
      modifies this, below, db
      ensures threw == WriteThrows(old(cacheCoins), old(BaseState()))
      ensures !threw ==> State() == Coins.Flush(old(State()))
    {
      hide Usage;
      var rest;
      rest, threw := WriteToBase(true);
      if threw { return; }
      cacheCoins := rest;
      cachedCoinsUsage := 0;
    }

    method Sync() returns (threw: bool)
      requires Linked()
      modifies this, below, db
      ensures threw == WriteThrows(old(cacheCoins), old(BaseState()))
      ensures !threw ==> State() == Coins.Sync(old(State()))
    {
      hide Usage;
      var rest;
      rest, threw := WriteToBase(false);
      if threw { return; }
      CleanAll();
    }

    /** The second half of Sync: spent entries go, the others lose their flags. */
    method CleanAll()
      modifies this
      ensures cacheCoins == Kept(old(cacheCoins))
      ensures cachedCoinsUsage == old(cachedCoinsUsage) - Usage(old(cacheCoins)) + Usage(cacheCoins)
    {
      hide Usage;
      var todo := cacheCoins;
      ghost var before := cacheCoins;
      while todo != map[]
        invariant CleanProgress(todo, before, cacheCoins)
        invariant cachedCoinsUsage - Usage(cacheCoins) == old(cachedCoinsUsage) - Usage(before)
        decreases todo.Keys
      {
        var o :| o in todo;
        CleanProgressStep(todo, before, cacheCoins, o);
        if todo[o].coin.IsSpent() {
          Erase(o);
        } else {
          Put(o, Entry(todo[o].coin, false, false));
        }
        todo := todo - {o};
      }
      CleanDone(before, cacheCoins);
    }

    /** SanityCheck passes exactly when flags are legal and the usage is exact, so in every consistent state. */
    method SanityCheck() returns (ok: bool)
      requires Linked()
      ensures ok <==> (forall o :: o in cacheCoins ==> LegalFlags(cacheCoins[o])) && cachedCoinsUsage == Usage(cacheCoins)
      ensures Inv(State()) ==> ok
    {
      hide Usage, LegalFlags;
      var recomputedUsage := 0;
      var todo := cacheCoins;
      ok := true;
      while |todo| > 0
        invariant todo.Keys <= cacheCoins.Keys && forall o :: o in todo ==> todo[o] == cacheCoins[o]
        invariant recomputedUsage + Usage(todo) == Usage(cacheCoins)
        invariant ok <==> forall o :: o in cacheCoins && o !in todo ==> LegalFlags(cacheCoins[o])
        decreases |todo|
      {
        assert todo.Keys != {};
        var o :| o in todo.Keys;
        ok := ok && LegalFlags(todo[o]);
        UsageErase(todo, o);
        recomputedUsage := recomputedUsage + todo[o].coin.DynamicMemoryUsage();
        todo := todo - {o};
      }
      assert todo == map[];
      UsageEmpty(todo);
      if Inv(State()) { ConsistentIsLegal(State()); }
      ok := ok && recomputedUsage == cachedCoinsUsage;
    }
  }

  lemma ConsistentIsLegal(s: Stack)
    requires s.Cache? && Inv(s)
    ensures (forall o :: o in s.entries ==> LegalFlags(s.entries[o])) && s.usage == Usage(s.entries)
  {
    hide Usage;
    forall o | o in s.entries ensures LegalFlags(s.entries[o]) { assert EntryOk(s.entries[o], At(s.base, o)); }
  }

  /** The BatchWrite loop, when the entries in `todo` have not been visited yet. */
  ghost predicate WriteProgress(child: Entries, todo: Entries, parent: Entries, now: Entries) {
    && (forall o :: o in todo ==> o in child && todo[o] == child[o])
    && (forall o :: EntryAt(now, o) == if o in todo then EntryAt(parent, o) else WrittenAt(child, parent, o))
    && (forall o :: o in child && o !in todo ==> !Misapplied(child[o], EntryAt(parent, o)))
  }

  lemma WriteProgressStep(child: Entries, todo: Entries, parent: Entries, before: Entries, o: OutPoint, now: Entries)
    requires WriteProgress(child, todo, parent, before) && o in todo
    requires forall p :: p != o ==> EntryAt(now, p) == EntryAt(before, p)
    ensures EntryAt(before, o) == EntryAt(parent, o)
    ensures !Misapplied(todo[o], EntryAt(parent, o)) && EntryAt(now, o) == WriteEntry(todo[o], EntryAt(parent, o))
            ==> WriteProgress(child, todo - {o}, parent, now)
  {
    assert EntryAt(before, o) == EntryAt(parent, o);
    forall p ensures p != o ==> EntryAt(now, p) == if p in todo then EntryAt(parent, p) else WrittenAt(child, parent, p) {
      assert p != o ==> EntryAt(now, p) == EntryAt(before, p);
    }
  }

  lemma WriteDone(child: Entries, parent: Entries, now: Entries)
    requires WriteProgress(child, map[], parent, now)
    ensures now == Written(child, parent)
  {
    SameEntries(now, Written(child, parent));
  }

  ghost predicate CleanProgress(todo: Entries, before: Entries, now: Entries) {
    && (forall o :: o in todo ==> o in before && todo[o] == before[o])
    && (forall o :: EntryAt(now, o) == if o in todo then EntryAt(before, o) else EntryAt(Kept(before), o))
  }

  lemma CleanProgressStep(todo: Entries, before: Entries, now: Entries, o: OutPoint)
    requires CleanProgress(todo, before, now) && o in todo
    ensures o in now && now[o] == todo[o]
    ensures if todo[o].coin.IsSpent()
            then CleanProgress(todo - {o}, before, now - {o})
            else CleanProgress(todo - {o}, before, now[o := Entry(todo[o].coin, false, false)])
  {
    assert EntryAt(now, o) == EntryAt(before, o);
    var next := if todo[o].coin.IsSpent() then now - {o} else now[o := Entry(todo[o].coin, false, false)];
    assert EntryAt(next, o) == EntryAt(Kept(before), o);
    forall p ensures p != o ==> EntryAt(next, p) == EntryAt(now, p) {}
  }

  lemma CleanDone(before: Entries, now: Entries)
    requires CleanProgress(map[], before, now)
    ensures now == Kept(before)
  {
    SameEntries(now, Kept(before));
  }

  lemma SameEntries(m: Entries, n: Entries)
    requires forall o :: EntryAt(m, o) == EntryAt(n, o)
    ensures m == n
  {
    forall o
      ensures o in m <==> o in n
      ensures o in m ==> m[o] == n[o]
    {
      assert EntryAt(m, o) == EntryAt(n, o);
    }
  }
}
