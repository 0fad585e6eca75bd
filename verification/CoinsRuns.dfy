/**
 Whole runs of a stack of coin caches against the reference: a stack of plain coin maps,
 one per layer, where a flush or sync copies a layer's map onto the one below it.
 */
module CoinsRuns {
  import opened Coins
  import opened Wrappers

  datatype Op =
    | GetAt(depth: nat, o: OutPoint)
    | AddCoin(o: OutPoint, coin: Coin, overwrite: bool, skipZeroValue: bool)
    | SpendCoin(o: OutPoint)
    | UncacheAt(depth: nat, o: OutPoint)
    | FlushAt(depth: nat)
    | SyncAt(depth: nat)
    | PushCache
    | DropCache

  function Depth(s: Stack): (d: nat) { if s.Cache? then 1 + Depth(s.base) else 0 }

  /** Lookups, uncaching, flushing and syncing may address any layer; `depth` counts from the top. */
  ghost function StepAt(s: Stack, depth: nat, op: Op): (r: Stack)
    requires op.GetAt? || op.UncacheAt? || op.FlushAt? || op.SyncAt?
    requires if op.GetAt? then depth <= Depth(s) else depth < Depth(s)
    decreases depth
  {
    if depth > 0 then s.(base := StepAt(s.base, depth - 1, op))
    else match op
      case GetAt(_, o) => Get(s, o).0
      case UncacheAt(_, o) => Uncache(s, o)
      case FlushAt(_) => Flush(s)
      case SyncAt(_) => Sync(s)
  }

  predicate Possible(layers: nat, op: Op) {
    match op
    case GetAt(d, _) => d <= layers
    case UncacheAt(d, _) => d < layers
    case FlushAt(d) => d < layers
    case SyncAt(d) => d < layers
    case PushCache => true
    case _ => layers > 0
  }

  ghost function Step(s: Stack, op: Op): (r: Stack)
    requires Possible(Depth(s), op)
  {
    match op
    case AddCoin(o, coin, overwrite, skip) => Add(s, o, coin, overwrite, skip)
    case SpendCoin(o) => Spend(s, o)
    case PushCache => Cache(map[], 0, s)
    case DropCache => s.base
    case _ => StepAt(s, op.depth, op)
  }

  function Layer(s: Stack, depth: nat): (r: Stack)
    requires depth <= Depth(s)
  {
    if depth == 0 then s else Layer(s.base, depth - 1)
  }

  /** Does this call end in one of the two logic_error exceptions? */
  ghost predicate Throws(s: Stack, op: Op)
    requires Possible(Depth(s), op)
  {
    match op
    case AddCoin(o, coin, overwrite, skip) => AddThrows(s, o, coin, overwrite, skip)
    case FlushAt(d) => var l := Layer(s, d); l.Cache? && WriteThrows(l.entries, l.base)
    case SyncAt(d) => var l := Layer(s, d); l.Cache? && WriteThrows(l.entries, l.base)
    case _ => false
  }

  // The reference ------------------------------------------------------------

  type Maps = ms: seq<CoinMap> | |ms| > 0 witness [map[]]

  /** What the caller owes: coins added are unspent, and an add that rules out overwriting is right about it. */
  predicate Permitted(ms: Maps, op: Op) {
    && Possible(|ms| - 1, op)
    && (op.AddCoin? ==>
          && !op.coin.IsSpent()
          && (op.overwrite || Ignored(op.coin, op.skipZeroValue) || op.o !in ms[0]))
  }

  function RefStep(ms: Maps, op: Op): (r: Maps)
    requires Possible(|ms| - 1, op)
  {
    match op
    case AddCoin(o, coin, _, skip) => if Ignored(coin, skip) then ms else ms[0 := ms[0][o := coin]]
    case SpendCoin(o) => ms[0 := ms[0] - {o}]
    case FlushAt(d) => ms[d + 1 := ms[d]]
    case SyncAt(d) => ms[d + 1 := ms[d]]
    case PushCache => [ms[0]] + ms
    case DropCache => ms[1..]
    case _ => ms
  }

  ghost predicate MeansMap(s: Stack, m: CoinMap) { forall o :: At(s, o) == Lookup(m, o) }

  ghost predicate Represents(s: Stack, ms: Maps)
    decreases s
  {
    && MeansMap(s, ms[0])
    && |ms| == Depth(s) + 1
    && (s.Cache? ==> Represents(s.base, ms[1..]))
  }

  // One step -----------------------------------------------------------------

  lemma {:induction false} SameViewsRepresent(s: Stack, t: Stack, ms: Maps)
    requires Represents(s, ms) && SameViews(s, t)
    ensures Represents(t, ms)
    decreases s
  {
    assert forall o :: At(t, o) == At(s, o);
    if s.Cache? { SameViewsRepresent(s.base, t.base, ms[1..]); }
  }

  /** A step at some depth keeps the top layer's meaning, so the layers above stay consistent. */
  lemma {:induction false} StepAtRefines(s: Stack, ms: Maps, depth: nat, op: Op)
    requires op.GetAt? || op.UncacheAt? || op.FlushAt? || op.SyncAt?
    requires if op.GetAt? then depth <= Depth(s) else depth < Depth(s)
    requires Inv(s) && Represents(s, ms)
    ensures var t := StepAt(s, depth, op);
            && Inv(t) && SameView(s, t)
            && Represents(t, if op.FlushAt? || op.SyncAt? then ms[depth + 1 := ms[depth]] else ms)
    decreases depth
  {
    if depth > 0 {
      StepAtRefines(s.base, ms[1..], depth - 1, op);
      var b := StepAt(s.base, depth - 1, op);
      RebaseKeepsInv(s, b);
      var ms' := if op.FlushAt? || op.SyncAt? then ms[depth + 1 := ms[depth]] else ms;
      var bs' := if op.FlushAt? || op.SyncAt? then ms[1..][depth := ms[1..][depth - 1]] else ms[1..];
      assert ms'[1..] == bs';
    } else {
      TopStepRefines(s, ms, op);
    }
  }

  lemma TopStepRefines(s: Stack, ms: Maps, op: Op)
    requires op.GetAt? || op.UncacheAt? || op.FlushAt? || op.SyncAt?
    requires op.GetAt? || 0 < Depth(s)
    requires Inv(s) && Represents(s, ms)
    ensures var t := StepAt(s, 0, op);
            && Inv(t) && SameView(s, t)
            && Represents(t, if op.FlushAt? || op.SyncAt? then ms[1 := ms[0]] else ms)
  {
    var t := StepAt(s, 0, op);
    match op
    case GetAt(_, o) =>
      GetKeepsViews(s, o);
      SameViewsRepresent(s, t, ms);
    case UncacheAt(_, o) =>
      UncacheKeepsView(s, o);
    case FlushAt(_) =>
      FlushPushesView(s);
      PushedRepresents(s, t, ms);
    case SyncAt(_) =>
      SyncPushesView(s);
      PushedRepresents(s, t, ms);
  }

  lemma PushedRepresents(s: Stack, t: Stack, ms: Maps)
    requires s.Cache? && t.Cache? && Represents(s, ms)
    requires SameView(s, t) && SameView(s, t.base)
    requires (s.base.Cache? <==> t.base.Cache?) && (s.base.Cache? ==> t.base.base == s.base.base)
    ensures Represents(t, ms[1 := ms[0]])
  {
    var ns := ms[1 := ms[0]];
    assert forall o :: At(t.base, o) == At(s, o);
    assert ns[1..][1..] == ms[1..][1..];
    assert ns[1..][0] == ms[0];
  }

  lemma AddRefines(s: Stack, ms: Maps, op: Op)
    requires op.AddCoin? && Inv(s) && Represents(s, ms) && Permitted(ms, op)
    ensures Inv(Step(s, op)) && Represents(Step(s, op), RefStep(ms, op)) && !Throws(s, op)
  {
    var AddCoin(o, coin, overwrite, skip) := op;
    assert At(s, o) == Lookup(ms[0], o);
    AddIsUpdate(s, o, coin, overwrite, skip);
    var t, ns := Step(s, op), RefStep(ms, op);
    assert ns[1..] == ms[1..];
    forall p ensures At(t, p) == Lookup(ns[0], p) {
      assert At(s, p) == Lookup(ms[0], p);
    }
  }

  lemma SpendRefines(s: Stack, ms: Maps, op: Op)
    requires op.SpendCoin? && Inv(s) && Represents(s, ms) && Permitted(ms, op)
    ensures Inv(Step(s, op)) && Represents(Step(s, op), RefStep(ms, op))
  {
    SpendIsRemoval(s, op.o);
    var t, ns := Step(s, op), RefStep(ms, op);
    SameViewsRepresent(s.base, t.base, ms[1..]);
    assert ns[1..] == ms[1..];
    forall p ensures At(t, p) == Lookup(ns[0], p) {
      assert At(s, p) == Lookup(ms[0], p);
    }
  }

  lemma PushRefines(s: Stack, ms: Maps)
    requires Inv(s) && Represents(s, ms)
    ensures Inv(Cache(map[], 0, s)) && Represents(Cache(map[], 0, s), [ms[0]] + ms)
  {
    NewCacheIsEmpty(s);
    assert ([ms[0]] + ms)[1..] == ms;
    assert forall p :: At(Cache(map[], 0, s), p) == At(s, p);
  }

  lemma {:induction false} StepRefines(s: Stack, ms: Maps, op: Op)
    requires Inv(s) && Represents(s, ms) && Permitted(ms, op)
    ensures Inv(Step(s, op)) && Represents(Step(s, op), RefStep(ms, op))
    ensures !Throws(s, op)
  {
    match op
    case AddCoin(_, _, _, _) => AddRefines(s, ms, op);
    case SpendCoin(_) => SpendRefines(s, ms, op);
    case PushCache => PushRefines(s, ms);
    case DropCache =>
    case GetAt(d, _) => StepAtRefines(s, ms, d, op);
    case UncacheAt(d, _) => StepAtRefines(s, ms, d, op);
    case FlushAt(d) => StepAtRefines(s, ms, d, op); LayerInv(s, d);
    case SyncAt(d) => StepAtRefines(s, ms, d, op); LayerInv(s, d);
  }

  lemma NewCacheIsEmpty(s: Stack)
    requires Inv(s)
    ensures Inv(Cache(map[], 0, s)) && SameView(s, Cache(map[], 0, s))
  {
  }

  lemma {:induction false} LayerInv(s: Stack, depth: nat)
    requires Inv(s) && depth < Depth(s)
    ensures var l := Layer(s, depth); l.Cache? && Inv(l) && !WriteThrows(l.entries, l.base)
    decreases depth
  {
    if depth == 0 { BatchWriteInstallsView(s.entries, s.base); } else { LayerInv(s.base, depth - 1); }
  }

  // Runs ---------------------------------------------------------------------

  predicate PermittedRun(ms: Maps, ops: seq<Op>)
    decreases |ops|
  {
    ops == [] || (Permitted(ms, ops[0]) && PermittedRun(RefStep(ms, ops[0]), ops[1..]))
  }

  function RefRun(ms: Maps, ops: seq<Op>): (r: Maps)
    requires PermittedRun(ms, ops)
    decreases |ops|
  {
    if ops == [] then ms else RefRun(RefStep(ms, ops[0]), ops[1..])
  }

  /** The answers that the lookups of a run must give: None means "no unspent coin". */
  function RefAnswers(ms: Maps, ops: seq<Op>): (r: seq<Option<Coin>>)
    requires PermittedRun(ms, ops)
    decreases |ops|
  {
    if ops == [] then []
    else
      (if ops[0].GetAt? then [Lookup(ms[ops[0].depth], ops[0].o)] else []) +
      RefAnswers(RefStep(ms, ops[0]), ops[1..])
  }

  datatype Outcome = Finished(stack: Stack, answers: seq<Option<Coin>>) | Threw

  /** The run of the real stack; it stops when an operation throws or addresses a missing layer. */
  ghost function Run(s: Stack, ops: seq<Op>): (r: Outcome)
    decreases |ops|
  {
    if ops == [] then Finished(s, [])
    else if !Possible(Depth(s), ops[0]) || Throws(s, ops[0]) then Threw
    else
      match Run(Step(s, ops[0]), ops[1..])
      case Threw => Threw
      case Finished(t, answers) =>
        Finished(t, (if ops[0].GetAt? then [Get(Layer(s, ops[0].depth), ops[0].o).1] else []) + answers)
  }

  lemma {:induction false} LayerAnswers(s: Stack, ms: Maps, depth: nat, o: OutPoint)
    requires Inv(s) && Represents(s, ms) && depth <= Depth(s)
    ensures Get(Layer(s, depth), o).1 == Lookup(ms[depth], o)
    decreases depth
  {
    hide Usage;
    if depth == 0 {
      GetKeepsViews(s, o);
      assert At(s, o) == Lookup(ms[0], o);
    } else {
      LayerAnswers(s.base, ms[1..], depth - 1, o);
    }
  }

  /**
   Every permitted run of lookups, adds, spends, uncachings, syncs and flushes on a stack of
   any depth, with caches pushed and discarded along the way, never throws, answers every
   lookup like the stack of plain maps, and ends in a consistent stack with the same meaning.
   */
  lemma {:induction false} RunRefinesMaps(s: Stack, ms: Maps, ops: seq<Op>)
    requires Inv(s) && Represents(s, ms) && PermittedRun(ms, ops)
    ensures var r := Run(s, ops);
            && r.Finished? && Inv(r.stack)
            && Represents(r.stack, RefRun(ms, ops))
            && r.answers == RefAnswers(ms, ops)
    decreases |ops|
  {
    if ops != [] {
      StepRefines(s, ms, ops[0]);
      RunRefinesMaps(Step(s, ops[0]), RefStep(ms, ops[0]), ops[1..]);
      if ops[0].GetAt? { LayerAnswers(s, ms, ops[0].depth, ops[0].o); }
    }
  }

  // Flushing everything ------------------------------------------------------

  /** Flush the top cache, then the one below it, down to the database. */
  ghost function FlushAll(s: Stack): (r: Stack)
    decreases Depth(s)
  {
    if s.Database? then s
    else
      var t := Flush(s);
      assert Depth(t.base) == Depth(s.base);
      Cache(t.entries, t.usage, FlushAll(t.base))
  }

  function Bottom(s: Stack): (coins: CoinMap) { if s.Database? then s.coins else Bottom(s.base) }

  /** Flushing all layers makes the database equal to the map that the top layer stood for. */
  lemma {:induction false} FlushAllReachesBottom(s: Stack, m: CoinMap)
    requires Inv(s) && MeansMap(s, m)
    ensures Inv(FlushAll(s)) && MeansMap(FlushAll(s), m) && Bottom(FlushAll(s)) == m
    decreases Depth(s)
  {
    if s.Database? {
      assert forall o :: At(s, o) == Lookup(s.coins, o);
      SameLookups(s.coins, m);
    } else {
      FlushPushesView(s);
      var b := Flush(s).base;
      assert Depth(b) == Depth(s.base);
      assert MeansMap(b, m) by { assert forall o :: At(b, o) == At(s, o); }
      FlushAllReachesBottom(b, m);
      var r := FlushAll(s);
      assert r == Cache(map[], 0, FlushAll(b));
      NewCacheIsEmpty(FlushAll(b));
    }
  }

  /** From an empty database, any permitted run followed by flushing everything leaves exactly the reference map on disk. */
  lemma RunThenFlushAll(ops: seq<Op>)
    requires PermittedRun([map[]], ops)
    ensures var r := Run(Database(map[]), ops);
            r.Finished? && Bottom(FlushAll(r.stack)) == RefRun([map[]], ops)[0]
  {
    RunRefinesMaps(Database(map[]), [map[]], ops);
    FlushAllReachesBottom(Run(Database(map[]), ops).stack, RefRun([map[]], ops)[0]);
  }
}
