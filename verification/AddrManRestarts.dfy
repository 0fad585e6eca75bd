/**
 The address manager over restarts: after any operations, with the manager saved and loaded
 any number of times in between, it is consistent and passes its check.
 */
module AddrManRestarts {
  import opened AddrMan
  import opened AddrManInvariant
  import opened AddrManCheck
  import opened AddrManDisk
  import opened AddrManRead
  import opened AddrManRoundTrip
  import opened AddrManRuns

  /** After any run from empty, the manager passes its check unless its key is zero. */
  lemma RunPassesCheck(cfg: Config, ops: seq<Op>)
    requires forall op :: op in ops ==> Permitted(op)
    ensures Checked(Run(Empty(cfg), ops)) <==> cfg.key != 0
  {
    hide InvBut, Unchecked, Run, Permitted, LeavesByRules, TriedOk, NewExact, CountsChecked, EntryCode;
    RunTheorem(cfg, ops, 0);
    CheckedExactly(Run(Empty(cfg), ops));
  }

  /** An operation, or saving and loading with the given orders of the entry map. */
  datatype Event =
    | Do(op: Op)
    | Restart(asmap: nat, save: map<Id, Info> -> seq<Id>, visit: set<Id> -> seq<Id>)

  ghost predicate Allowed(e: Event) {
    match e
    case Do(op) => Permitted(op)
    case Restart(_, save, _) => forall m :: Enumerates(save(m), m)
  }

  function Reload(s: State, asmap: nat, order: seq<Id>, visit: set<Id> -> seq<Id>): (r: Loaded) {
    Load(s.cfg, Serialize(s, order, asmap), asmap, visit)
  }

  function Happen(s: State, e: Event): (r: State) {
    match e
    case Do(op) => Step(s, op)
    case Restart(asmap, save, visit) =>
      var l := Reload(s, asmap, save(s.info), visit);
      if l.Success? then l.state else s
  }

  ghost function Life(s: State, events: seq<Event>): (r: State)
    decreases |events|
  {
    if events == [] then s else Happen(Life(s, events[..|events| - 1]), events[|events| - 1])
  }

  /** What neither operations nor restarts take away. */
  ghost predicate Lasts(s: State, r: State) {
    r.cfg == s.cfg && s.triedTable.Keys <= r.triedTable.Keys && s.nTried <= r.nTried
  }

  /** A restart never fails and loses no slot of either table. */
  lemma RestartKeeps(s: State, asmap: nat, order: seq<Id>, visit: set<Id> -> seq<Id>)
    requires Inv(s) && Enumerates(order, s.info)
    ensures var l := Reload(s, asmap, order, visit);
            && l.Success? && Inv(l.state) && Lasts(s, l.state)
            && l.state.triedTable.Keys == s.triedTable.Keys && l.state.newTable.Keys == s.newTable.Keys
            && (Checked(l.state) <==> s.cfg.key != 0)
  {
    hide InvBut, Load, Serialize, Checked, CollisionsOk, Enumerates, SameEntry, Name;
    RoundTrip(s, order, s.cfg, asmap, visit);
  }

  lemma HappenKeeps(s: State, e: Event)
    requires Inv(s) && Allowed(e)
    ensures Inv(Happen(s, e)) && Lasts(s, Happen(s, e))
  {
    hide Inv, Step, Load, Serialize, Checked, Permitted, LeavesByRules, Evolves, Enumerates;
    match e
    case Do(op) =>
      StepKeeps(s, op);
      EvolvesFacts(s, Step(s, op));
    case Restart(asmap, save, visit) =>
      RestartKeeps(s, asmap, save(s.info), visit);
  }

  lemma {:induction false} LifeKeeps(s: State, events: seq<Event>)
    requires Inv(s) && forall e :: e in events ==> Allowed(e)
    ensures Inv(Life(s, events)) && Lasts(s, Life(s, events))
    decreases |events|
  {
    hide Inv, Happen, Allowed;
    if events != [] {
      var n := |events| - 1;
      LifeKeeps(s, events[..n]);
      HappenKeeps(Life(s, events[..n]), events[n]);
    }
  }

  lemma {:induction false} LifeSplit(s: State, events: seq<Event>, k: nat)
    requires k <= |events|
    ensures Life(s, events) == Life(Life(s, events[..k]), events[k..])
    decreases |events|
  {
    hide Happen;
    if k == |events| {
      assert events[..k] == events && events[k..] == [];
    } else {
      var n := |events| - 1;
      LifeSplit(s, events[..n], k);
      assert events[..n][..k] == events[..k];
      assert events[..n][k..] == events[k..][..n - k];
      assert events[k..][n - k] == events[n];
    }
  }

  /**
   From an empty manager, whatever happens, restarts included: the manager is consistent and
   passes its check unless its key is zero; from any earlier point on, filled tried slots are
   still filled and their number has not fallen.
   */
  lemma LifeTheorem(cfg: Config, events: seq<Event>, k: nat)
    requires k <= |events| && forall e :: e in events ==> Allowed(e)
    ensures var r := Life(Empty(cfg), events);
            && Inv(r) && (Checked(r) <==> cfg.key != 0)
            && Lasts(Life(Empty(cfg), events[..k]), r)
  {
    hide InvBut, CollisionsOk, RoutableOnly, Unchecked, Life, Allowed, TriedOk, NewExact, CountsChecked, EntryCode, Tally;
    var empty := Empty(cfg);
    EmptyIsConsistent(cfg);
    LifeKeeps(empty, events);
    LifeKeeps(empty, events[..k]);
    LifeSplit(empty, events, k);
    LifeKeeps(Life(empty, events[..k]), events[k..]);
    CheckedExactly(Life(empty, events));
  }
}
