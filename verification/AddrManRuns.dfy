/**
 Every run of the address manager keeps its invariant. Along a run tried slots stay filled, and
 tried entries stay tried unless a pass over the collisions evicts them by its rules.
 */
module AddrManRuns {
  import opened AddrMan
  import opened AddrManInvariant
  import opened AddrManSteps
  import opened AddrManOps
  import opened AddrManCollisions
  import opened Wrappers

  // ---------------------------------------------------------------------------
  // GetAddr
  // ---------------------------------------------------------------------------

  /** An answer that belongs to one of the first `n` positions of vRandom. */
  ghost predicate From(s: State, n: nat, a: Address, net: Option<nat>, now: int)
    requires Shuffled(s.info, s.random) && n <= |s.random|
  {
    exists k :: 0 <= k < n && a == AddressOf(s.info[s.random[k]]) && Wanted(s.cfg, s.info[s.random[k]], net, now)
  }

  predicate Distinct(got: seq<Address>) {
    forall k, l :: 0 <= k < l < |got| ==> got[k].service != got[l].service
  }

  ghost predicate GotOk(s: State, n: nat, got: seq<Address>, net: Option<nat>, now: int)
    requires Shuffled(s.info, s.random) && n <= |s.random|
  {
    Distinct(got) && forall k :: 0 <= k < |got| ==> From(s, n, got[k], net, now)
  }

  /** Every wanted entry among the first `n` positions has been reported. */
  ghost predicate AllGot(s: State, n: nat, got: seq<Address>, net: Option<nat>, now: int)
    requires Shuffled(s.info, s.random) && n <= |s.random|
  {
    forall k :: 0 <= k < n && Wanted(s.cfg, s.info[s.random[k]], net, now) ==> AddressOf(s.info[s.random[k]]) in got
  }

  lemma AllGotOn(s: State, t: State, n: nat, got: seq<Address>, net: Option<nat>, now: int)
    requires Shuffled(s.info, s.random) && Shuffled(t.info, t.random) && n <= |s.random| == |t.random|
    requires t.cfg == s.cfg && t.info.Keys == s.info.Keys
    requires forall id :: id in s.info ==> SameHistory(s.info[id], t.info[id])
    requires forall k :: 0 <= k < n ==> t.random[k] == s.random[k]
    requires AllGot(s, n, got, net, now)
    ensures AllGot(t, n, got, net, now)
  {
    forall k | 0 <= k < n && Wanted(t.cfg, t.info[t.random[k]], net, now) ensures AddressOf(t.info[t.random[k]]) in got {
      var id := s.random[k];
      assert t.random[k] == id && id in s.info && SameHistory(s.info[id], t.info[id]);
    }
  }

  lemma AllGotMore(s: State, n: nat, got: seq<Address>, net: Option<nat>, now: int)
    requires Shuffled(s.info, s.random) && n < |s.random| && AllGot(s, n, got, net, now)
    ensures var i := s.info[s.random[n]];
            AllGot(s, n + 1, if Wanted(s.cfg, i, net, now) then got + [AddressOf(i)] else got, net, now)
  {
  }

  lemma FromOn(s: State, t: State, n: nat, a: Address, net: Option<nat>, now: int)
    requires Shuffled(s.info, s.random) && Shuffled(t.info, t.random) && n <= |s.random| == |t.random|
    requires t.cfg == s.cfg && t.info.Keys == s.info.Keys
    requires forall id :: id in s.info ==> SameHistory(s.info[id], t.info[id])
    requires forall k :: 0 <= k < n ==> t.random[k] == s.random[k]
    requires From(s, n, a, net, now)
    ensures From(t, n, a, net, now)
  {
    var k :| 0 <= k < n && a == AddressOf(s.info[s.random[k]]) && Wanted(s.cfg, s.info[s.random[k]], net, now);
    var id := s.random[k];
    assert t.random[k] == id && SameHistory(s.info[id], t.info[id]);
    assert a == AddressOf(t.info[t.random[k]]) && Wanted(t.cfg, t.info[t.random[k]], net, now);
  }

  lemma FromMore(s: State, n: nat, a: Address, net: Option<nat>, now: int)
    requires Shuffled(s.info, s.random) && n < |s.random| && From(s, n, a, net, now)
    ensures From(s, n + 1, a, net, now)
  {
    var k :| 0 <= k < n && a == AddressOf(s.info[s.random[k]]) && Wanted(s.cfg, s.info[s.random[k]], net, now);
    assert k < n + 1;
  }

  /** An earlier answer is about another entry, so another address. */
  lemma FromOther(s: State, n: nat, a: Address, net: Option<nat>, now: int)
    requires Shuffled(s.info, s.random) && Indexed(s.info, s.ids, s.idCount) && n < |s.random| && From(s, n, a, net, now)
    ensures a.service != s.info[s.random[n]].addr
  {
    var k :| 0 <= k < n && a == AddressOf(s.info[s.random[k]]) && Wanted(s.cfg, s.info[s.random[k]], net, now);
    var x, y := s.random[k], s.random[n];
    assert x in s.info && s.info[x].randomPos == k;
    assert y in s.info && s.info[y].randomPos == n;
    assert s.ids[s.info[x].addr] == x && s.ids[s.info[y].addr] == y;
  }

  /** One answer more. */
  lemma GotMore(s: State, n: nat, got: seq<Address>, net: Option<nat>, now: int)
    requires Shuffled(s.info, s.random) && Indexed(s.info, s.ids, s.idCount) && n < |s.random| && GotOk(s, n, got, net, now)
    ensures var i := s.info[s.random[n]];
            GotOk(s, n + 1, if Wanted(s.cfg, i, net, now) then got + [AddressOf(i)] else got, net, now)
  {
    hide Shuffled, Indexed, From;
    InRandom(s, n, n);
    var i := s.info[s.random[n]];
    forall k | 0 <= k < |got| ensures From(s, n + 1, got[k], net, now) && got[k].service != i.addr {
      FromMore(s, n, got[k], net, now);
      FromOther(s, n, got[k], net, now);
    }
    if Wanted(s.cfg, i, net, now) { FromLast(s, n, net, now); }
  }

  lemma FromLast(s: State, n: nat, net: Option<nat>, now: int)
    requires Shuffled(s.info, s.random) && n < |s.random| && Wanted(s.cfg, s.info[s.random[n]], net, now)
    ensures From(s, n + 1, AddressOf(s.info[s.random[n]]), net, now)
  {
    assert n < n + 1;
  }

  /** One exchange at position n or later leaves the answers so far as they are. */
  lemma SwapLater(s: State, n: nat, j: nat, got: seq<Address>, net: Option<nat>, now: int)
    requires Inv(s) && n < |s.random| && n <= j < |s.random| && GotOk(s, n, got, net, now)
    ensures var t := SwapRandom(s, n, j);
            && Inv(t) && Calm(s, t) && t.collisions == s.collisions && |t.random| == |s.random|
            && GotOk(t, n, got, net, now) && (AllGot(s, n, got, net, now) ==> AllGot(t, n, got, net, now))
  {
    hide Occ, Shuffled, RefsOk, Counted, TriedOk, NewOk, Indexed, CollisionsOk, RoutableOnly, Calm, Shrinks, From, AllGot;
    var t := SwapRandom(s, n, j);
    SwapKeeps(s, n, j, {}, {});
    CalmSelf(s);
    CalmOn(s, s, t);
    CalmKeeps(s, t);
    ShrinksHistory(s, t);
    forall k | 0 <= k < |got| ensures From(t, n, got[k], net, now) { FromOn(s, t, n, got[k], net, now); }
    if AllGot(s, n, got, net, now) { AllGotOn(s, t, n, got, net, now); }
  }

  lemma ShrinksHistory(s: State, t: State)
    requires Shrinks(s, t) && t.info.Keys == s.info.Keys
    ensures forall id :: id in s.info ==> SameHistory(s.info[id], t.info[id])
  {
  }

  lemma {:induction false} GatherKeeps(s: State, n: nat, limit: nat, net: Option<nat>, now: int, draw: nat -> nat, got: seq<Address>)
    requires Inv(s) && n <= |s.random| && GotOk(s, n, got, net, now) && AllGot(s, n, got, net, now) && |got| <= limit
    ensures var (r, all) := Gather(s, n, limit, net, now, draw, got);
            && Inv(r) && Calm(s, r) && r.collisions == s.collisions && |r.random| == |s.random|
            && GotOk(r, |r.random|, all, net, now) && |all| <= limit
            && (|all| < limit ==> AllGot(r, |r.random|, all, net, now))
    decreases |s.random| - n
  {
    hide Inv, Calm, GotOk, AllGot, SwapRandom, Wanted, Gather, Shuffled, Indexed;
    InvShuffled(s);
    CalmSelf(s);
    if n == |s.random| || |got| >= limit {
      GatherEnds(s, n, limit, net, now, draw, got);
      GotGrows(s, n, got, net, now);
    } else {
      var j := draw(n) % (|s.random| - n) + n;
      var t := SwapRandom(s, n, j);
      GatherOnce(s, n, limit, net, now, draw, got);
      SwapLater(s, n, j, got, net, now);
      InvShuffled(t);
      InRandom(t, n, n);
      GotMore(t, n, got, net, now);
      AllGotMore(t, n, got, net, now);
      var i := t.info[t.random[n]];
      var more := if Wanted(t.cfg, i, net, now) then got + [AddressOf(i)] else got;
      GatherKeeps(t, n + 1, limit, net, now, draw, more);
      CalmTwice(s, t, Gather(t, n + 1, limit, net, now, draw, more).0);
    }
  }

  lemma GatherOnce(s: State, n: nat, limit: nat, net: Option<nat>, now: int, draw: nat -> nat, got: seq<Address>)
    requires n < |s.random| && |got| < limit
    ensures var t := SwapRandom(s, n, draw(n) % (|s.random| - n) + n);
            |t.random| == |s.random| && Gather(s, n, limit, net, now, draw, got) ==
            Gather(t, n + 1, limit, net, now, draw,
                   if Wanted(t.cfg, t.At(t.random[n]), net, now) then got + [AddressOf(t.At(t.random[n]))] else got)
  {
    hide Wanted, SwapRandom;
  }

  lemma GatherEnds(s: State, n: nat, limit: nat, net: Option<nat>, now: int, draw: nat -> nat, got: seq<Address>)
    requires n == |s.random| || (n <= |s.random| && |got| >= limit)
    ensures Gather(s, n, limit, net, now, draw, got) == (s, got)
  {
  }

  lemma InvShuffled(s: State)
    requires Inv(s)
    ensures Shuffled(s.info, s.random) && Indexed(s.info, s.ids, s.idCount)
  {
  }

  lemma {:induction false} GotGrows(s: State, n: nat, got: seq<Address>, net: Option<nat>, now: int)
    requires Shuffled(s.info, s.random) && n <= |s.random| && GotOk(s, n, got, net, now)
    ensures GotOk(s, |s.random|, got, net, now)
    decreases |s.random| - n
  {
    if n < |s.random| {
      forall k | 0 <= k < |got| ensures From(s, n + 1, got[k], net, now) { FromMore(s, n, got[k], net, now); }
      GotGrows(s, n + 1, got, net, now);
    }
  }

  /** GetAddr reports no address twice, only wanted ones, no more than its limit, and all of them below it. */
  lemma GetAddrKeeps(s: State, maxAddresses: nat, maxPct: nat, net: Option<nat>, now: int, draw: nat -> nat)
    requires Inv(s)
    ensures var (r, all) := GetAddr(s, maxAddresses, maxPct, net, now, draw);
            && Inv(r) && Calm(s, r)
            && GotOk(r, |r.random|, all, net, now) && |all| <= Limit(|s.random|, maxAddresses, maxPct)
            && (|all| < Limit(|s.random|, maxAddresses, maxPct) ==> AllGot(r, |r.random|, all, net, now))
  {
    GatherKeeps(s, 0, Limit(|s.random|, maxAddresses, maxPct), net, now, draw, []);
  }

  // ---------------------------------------------------------------------------
  // Runs
  // ---------------------------------------------------------------------------

  datatype Op =
    | DoAdd(addrs: seq<Address>, source: nat, penalty: int, nows: nat -> int, draws: nat -> nat)
    | DoGood(a: Service, time: int)
    | DoAttempt(a: Service, countFailure: bool, time: int)
    | DoConnected(a: Service, time: int)
    | DoSetServices(a: Service, services: Services)
    | DoGetAddr(maxAddresses: nat, maxPct: nat, net: Option<nat>, now: int, draws: nat -> nat)
    | DoResolve(clock: Id -> int)
    | DoSelect(draw: nat)

  /** Times of successes and clock readings are positive, times of attempts not negative. */
  ghost predicate Permitted(op: Op) {
    match op
    case DoGood(_, time) => time > 0
    case DoAttempt(_, _, time) => time >= 0
    case DoResolve(clock) => forall c :: clock(c) > 0
    case _ => true
  }

  function Step(s: State, op: Op): (r: State) {
    match op
    case DoAdd(addrs, source, penalty, nows, draws) => Add(s, addrs, source, penalty, nows, draws).0
    case DoGood(a, time) => Good(s, a, true, time).0
    case DoAttempt(a, countFailure, time) => Attempt(s, a, countFailure, time)
    case DoConnected(a, time) => Connected(s, a, time)
    case DoSetServices(a, services) => SetServices(s, a, services)
    case DoGetAddr(maxAddresses, maxPct, net, now, draws) => GetAddr(s, maxAddresses, maxPct, net, now, draws).0
    case DoResolve(clock) => ResolveCollisions(s, clock)
    case DoSelect(draw) => SelectTriedCollision(s, draw).0
  }

  /** Entries leave the tried table only in a pass over the collisions, each by its rules. */
  ghost predicate LeavesByRules(s: State, op: Op, r: State) {
    match op
    case DoResolve(clock) => EvictionsJustified(s, r, s.collisions, clock)
    case _ => StaysTried(s, r)
  }

  lemma StepKeeps(s: State, op: Op)
    requires Inv(s) && Permitted(op)
    ensures Inv(Step(s, op)) && Evolves(s, Step(s, op)) && LeavesByRules(s, op, Step(s, op))
  {
    hide Inv, Evolves, StaysTried, EvictionsJustified, Calm, GotOk, AllGot,
      Add, Good, Attempt, Connected, SetServices, GetAddr, ResolveCollisions, SelectTriedCollision, Limit;
    match op
    case DoAdd(addrs, source, penalty, nows, draws) =>
      AddKeeps(s, addrs, source, penalty, nows, draws);
      CalmStays(s, Step(s, op));
    case DoGood(a, time) =>
      GoodKeeps(s, a, time);
    case DoAttempt(a, countFailure, time) =>
      AttemptKeeps(s, a, countFailure, time);
      CalmStays(s, Step(s, op));
    case DoConnected(a, time) =>
      ConnectedKeeps(s, a, time);
      CalmStays(s, Step(s, op));
    case DoSetServices(a, services) =>
      SetServicesKeeps(s, a, services);
      CalmStays(s, Step(s, op));
    case DoGetAddr(maxAddresses, maxPct, net, now, draws) =>
      GetAddrKeeps(s, maxAddresses, maxPct, net, now, draws);
      CalmStays(s, Step(s, op));
    case DoResolve(clock) =>
      ResolveCollisionsKeeps(s, clock);
    case DoSelect(draw) =>
      SelectTriedCollisionKeeps(s, draw);
      CalmStays(s, Step(s, op));
  }

  ghost function Run(s: State, ops: seq<Op>): (r: State)
    decreases |ops|
  {
    if ops == [] then s else Step(Run(s, ops[..|ops| - 1]), ops[|ops| - 1])
  }

  lemma {:induction false} RunKeeps(s: State, ops: seq<Op>)
    requires Inv(s) && forall op :: op in ops ==> Permitted(op)
    ensures Inv(Run(s, ops)) && Evolves(s, Run(s, ops))
    decreases |ops|
  {
    hide Inv, Evolves, Step, Permitted, LeavesByRules;
    if ops == [] {
      EvolvesSelf(s);
    } else {
      var n := |ops| - 1;
      RunKeeps(s, ops[..n]);
      StepKeeps(Run(s, ops[..n]), ops[n]);
      InvShuffled(s);
      EvolvesOn(s, Run(s, ops[..n]), Run(s, ops));
    }
  }

  lemma EmptyIsConsistent(cfg: Config)
    ensures Inv(Empty(cfg))
  {
    var s := Empty(cfg);
    forall tried, scope ensures CountedAt(s, {}, tried, scope) {
      assert s.info - {} == map[];
    }
  }

  /**
   From an empty manager, after any operations the indexes are consistent; from any earlier
   point of the run filled tried slots are still filled and their number has not fallen; and
   the next operation lets entries leave the tried table only by the rules.
   */
  lemma RunTheorem(cfg: Config, ops: seq<Op>, k: nat)
    requires k <= |ops| && forall op :: op in ops ==> Permitted(op)
    ensures var r := Run(Empty(cfg), ops);
            var early := Run(Empty(cfg), ops[..k]);
            && Inv(r) && r.cfg == cfg
            && early.triedTable.Keys <= r.triedTable.Keys && early.nTried <= r.nTried
            && (k < |ops| ==> LeavesByRules(early, ops[k], Run(Empty(cfg), ops[..k + 1])))
  {
    hide Inv, Step, Permitted, LeavesByRules, Evolves, Run;
    var empty := Empty(cfg);
    EmptyIsConsistent(cfg);
    RunKeeps(empty, ops);
    RunKeeps(empty, ops[..k]);
    var early := Run(empty, ops[..k]);
    RunSplit(empty, ops, k);
    RunKeeps(early, ops[k..]);
    EvolvesFacts(empty, Run(empty, ops));
    EvolvesFacts(early, Run(empty, ops));
    if k < |ops| {
      assert ops[k] in ops;
      StepKeeps(early, ops[k]);
      RunNext(empty, ops, k);
    }
  }

  lemma EvolvesFacts(s: State, r: State)
    requires Evolves(s, r)
    ensures r.cfg == s.cfg && s.triedTable.Keys <= r.triedTable.Keys && s.nTried <= r.nTried
  {
  }

  lemma RunNext(s: State, ops: seq<Op>, k: nat)
    requires k < |ops|
    ensures Run(s, ops[..k + 1]) == Step(Run(s, ops[..k]), ops[k])
  {
    hide Step;
    assert ops[..k + 1][..k] == ops[..k];
  }

  lemma {:induction false} RunSplit(s: State, ops: seq<Op>, k: nat)
    requires k <= |ops|
    ensures Run(s, ops) == Run(Run(s, ops[..k]), ops[k..])
    decreases |ops|
  {
    hide Step;
    if k == |ops| {
      assert ops[..k] == ops && ops[k..] == [];
    } else {
      var n := |ops| - 1;
      RunSplit(s, ops[..n], k);
      assert ops[..n][..k] == ops[..k];
      assert ops[..n][k..] == ops[k..][..n - k];
      assert ops[k..][n - k] == ops[n];
    }
  }
}
