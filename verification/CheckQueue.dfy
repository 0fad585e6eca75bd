/**
 The parallel check queue as a state machine: one master and any number of workers, one
 mutex and two condition variables. A critical section is one step, the execution of one
 check is one step, and a waiting thread may wake up for no reason at any time.
 */
module CheckQueue {
  import opened Sums

  /** A verification and the answer it gives when it is run. */
  datatype Check = Check(id: nat, passes: bool)

  type ThreadId = nat
  type Threads = map<ThreadId, Thread>
  const MASTER: ThreadId := 0

  datatype Thread =
    | Outside                 // not in Loop (for the master: not in Wait)
    | Notifying(count: nat)   // the master in Add, after its critical section
    | Entering                // about to lock for the first time: nNow == 0
    | Working(todo: seq<Check>, nNow: nat, fOk: bool)
    | Waiting                 // blocked in cond.wait
    | Woken                   // notified, about to lock again
    | Locked                  // inside a critical section; never seen between steps

  /** A finished session: what was added, and what Wait returned. */
  datatype Session = Session(added: seq<Check>, result: bool)

  datatype State = State(
    batchSize: nat,
    queue: seq<Check>,
    nIdle: int,
    nTotal: int,
    fAllOk: bool,
    nTodo: int,
    threads: map<ThreadId, Thread>,
    added: seq<Check>,        // since the last Wait returned
    log: seq<Session>)

  datatype Step =
    | Add(checks: seq<Check>)
    | Notify(who: set<ThreadId>)
    | Start(t: ThreadId)      // a worker thread begins, or the master calls Wait
    | Critical(t: ThreadId)
    | Execute(t: ThreadId)
    | Spurious(t: ThreadId)

  predicate AllPass(checks: seq<Check>) { forall i :: 0 <= i < |checks| ==> checks[i].passes }

  function Init(batchSize: nat, workers: set<ThreadId>): (s: State) {
    State(batchSize, [], 0, 0, true, 0, map t | t in workers + {MASTER} :: Outside, [], [])
  }

  // ---------------------------------------------------------------------------
  // The steps
  // ---------------------------------------------------------------------------

  function Max(a: int, b: int): int { if a < b then b else a }
  function Min(a: int, b: int): int { if a < b then a else b }

  /** How many checks to take now. */
  function BatchCount(s: State): (n: int)
    requires s.nTotal + s.nIdle + 1 > 0
  {
    Max(1, Min(s.batchSize, |s.queue| / (s.nTotal + s.nIdle + 1)))
  }

  /** The batch always fits in the queue and is never empty. */
  lemma BatchFits(s: State)
    requires s.nTotal + s.nIdle + 1 > 0 && s.queue != []
    ensures 1 <= BatchCount(s) <= |s.queue|
  {
    ShareFits(|s.queue|, s.nTotal + s.nIdle + 1);
  }

  lemma ShareFits(x: nat, d: int)
    requires d > 0
    ensures x / d <= x
  {
    var q := x / d;
    assert x == d * q + x % d;
    if q > x { ProductAtLeast(d, q); }
  }

  lemma ProductAtLeast(d: int, q: int)
    requires d >= 1 && q >= 0
    ensures d * q >= q
  {
  }

  function Wake(threads: map<ThreadId, Thread>, who: set<ThreadId>): (r: map<ThreadId, Thread>) {
    map t | t in threads :: if t in who && threads[t].Waiting? then Woken else threads[t]
  }

  function WaitingWorkers(s: State): (r: set<ThreadId>) {
    set t | t in s.threads && t != MASTER && s.threads[t].Waiting?
  }

  /** The clean-up at the start of a critical section. */
  function CleanUp(s: State, t: ThreadId, nNow: nat, fOk: bool): (r: State) {
    if nNow != 0 then
      var s1 := s.(fAllOk := s.fAllOk && fOk, nTodo := s.nTodo - nNow);
      if s1.nTodo == 0 && t != MASTER then s1.(threads := Wake(s1.threads, {MASTER})) else s1
    else s.(nTotal := s.nTotal + 1)
  }

  /** The rest of the critical section: return, sleep, or take a batch. */
  function Decide(s: State, t: ThreadId): (r: State)
    requires s.nTotal + s.nIdle + 1 > 0
  {
    if s.queue == [] then
      if t == MASTER && s.nTodo == 0 then
        s.(nTotal := s.nTotal - 1, fAllOk := true, threads := s.threads[t := Outside],
           added := [], log := s.log + [Session(s.added, s.fAllOk)])
      else s.(nIdle := s.nIdle + 1, threads := s.threads[t := Waiting])
    else
      BatchFits(s);
      var nNow := BatchCount(s);
      var from := |s.queue| - nNow;
      s.(queue := s.queue[..from],
         threads := s.threads[t := Working(s.queue[from..], nNow, s.fAllOk)])
  }

  /** Takes the lock: reports the previous batch, or wakes up. */
  function Lock(s: State, t: ThreadId): (r: State)
    requires t in s.threads
    ensures t in r.threads
  {
    var r := match s.threads[t]
      case Entering => CleanUp(s, t, 0, true)
      case Working(_, nNow, fOk) => CleanUp(s, t, nNow, fOk)
      case _ => s.(nIdle := s.nIdle - 1);
    r.(threads := r.threads[t := Locked])
  }

  predicate CanLock(p: Thread) { p.Entering? || p.Woken? || (p.Working? && p.todo == []) }

  predicate Enabled(s: State, a: Step) {
    match a
    case Add(checks) => MASTER in s.threads && s.threads[MASTER] == Outside && checks != []
    case Notify(who) =>
      && MASTER in s.threads && s.threads[MASTER].Notifying?
      && who <= WaitingWorkers(s)
      && if s.threads[MASTER].count == 1
         then |who| == Min(1, |WaitingWorkers(s)|)
         else who == WaitingWorkers(s)
    case Start(t) => t in s.threads && s.threads[t] == Outside
    case Critical(t) => t in s.threads && CanLock(s.threads[t])
    case Execute(t) => t in s.threads && s.threads[t].Working? && s.threads[t].todo != []
    case Spurious(t) => t in s.threads && s.threads[t].Waiting?
  }

  /** Guards the division in BatchCount; InvDefines shows that it never rules anything out. */
  predicate Defined(s: State, a: Step) {
    Enabled(s, a) && (a.Critical? ==> Lock(s, a.t).nTotal + Lock(s, a.t).nIdle + 1 > 0)
  }

  function Next(s: State, a: Step): (r: State)
    requires Defined(s, a)
  {
    match a
    case Add(checks) =>
      s.(queue := s.queue + checks, nTodo := s.nTodo + |checks|,
         threads := s.threads[MASTER := Notifying(|checks|)], added := s.added + checks)
    case Notify(who) => s.(threads := Wake(s.threads, who)[MASTER := Outside])
    case Start(t) => s.(threads := s.threads[t := Entering])
    case Critical(t) => Decide(Lock(s, t), t)
    case Execute(t) =>
      var Working(todo, nNow, fOk) := s.threads[t];
      s.(threads := s.threads[t := Working(todo[1..], nNow, fOk && todo[0].passes)])
    case Spurious(t) => s.(threads := s.threads[t := Woken])
  }

  // ---------------------------------------------------------------------------
  // The invariant
  // ---------------------------------------------------------------------------

  const InFlight: Thread -> nat := (p: Thread) => if p.Working? then p.nNow else 0
  const Idle: Thread -> nat := (p: Thread) => if p.Waiting? || p.Woken? then 1 else 0
  const InLoop: Thread -> nat := (p: Thread) => if p.Waiting? || p.Woken? || p.Working? then 1 else 0

  ghost function InFlightSum(m: Threads): (n: nat) { Sum(m, InFlight) }
  ghost function IdleCount(m: Threads): (n: nat) { Sum(m, Idle) }
  ghost function LoopCount(m: Threads): (n: nat) { Sum(m, InLoop) }

  ghost predicate ThreadOk(s: State, t: ThreadId)
    requires t in s.threads
  {
    && (s.threads[t].Working? ==> 1 <= s.threads[t].nNow && |s.threads[t].todo| <= s.threads[t].nNow)
    && (s.threads[t].Notifying? ==> t == MASTER)
  }

  /** Nothing that is still pending or already reported has failed. */
  ghost predicate NoFailure(s: State) {
    s.fAllOk && AllPass(s.queue) && BatchesPass(s.threads)
  }

  ghost predicate BatchesPass(m: Threads) { forall t :: t in m ==> BatchPasses(m[t]) }

  predicate BatchPasses(p: Thread) { p.Working? ==> p.fOk && AllPass(p.todo) }

  ghost predicate CountsOk(s: State, locked: nat) {
    && s.nTodo == |s.queue| + InFlightSum(s.threads)
    && s.nIdle == IdleCount(s.threads)
    && s.nTotal == LoopCount(s.threads) + locked
  }

  ghost predicate MasterOk(s: State) {
    MASTER in s.threads && (s.threads[MASTER].Waiting? ==> s.queue == [] && s.nTodo > 0)
  }

  ghost predicate LogOk(s: State) {
    forall i :: 0 <= i < |s.log| ==> (s.log[i].result <==> AllPass(s.log[i].added))
  }

  /** What holds while `locked` threads (none or one) are inside a critical section. */
  ghost predicate Core(s: State, locked: nat) {
    && CountsOk(s, locked)
    && MasterOk(s)
    && (NoFailure(s) <==> AllPass(s.added))
    && LogOk(s)
    && (forall t :: t in s.threads ==> ThreadOk(s, t))
  }

  ghost predicate Inv(s: State) { Core(s, 0) && forall t :: t in s.threads ==> !s.threads[t].Locked? }

  ghost predicate LockedBy(s: State, t: ThreadId) {
    t in s.threads && s.threads[t].Locked? && forall u :: u in s.threads && u != t ==> !s.threads[u].Locked?
  }

  /** One thread changes its place in the protocol. */
  lemma MoveThread(m: Threads, t: ThreadId, p: Thread)
    requires t in m
    ensures InFlightSum(m[t := p]) == InFlightSum(m) - InFlight(m[t]) + InFlight(p)
    ensures IdleCount(m[t := p]) == IdleCount(m) - Idle(m[t]) + Idle(p)
    ensures LoopCount(m[t := p]) == LoopCount(m) - InLoop(m[t]) + InLoop(p)
  {
    hide Sum;
    SumUpdate(m, InFlight, t, p);
    SumUpdate(m, Idle, t, p);
    SumUpdate(m, InLoop, t, p);
  }

  /** A notification changes no count: woken threads still count as idle until they lock. */
  lemma WakeKeepsCounts(m: Threads, who: set<ThreadId>)
    ensures var r := Wake(m, who);
            InFlightSum(r) == InFlightSum(m) && IdleCount(r) == IdleCount(m) && LoopCount(r) == LoopCount(m)
  {
    hide Sum;
    var r := Wake(m, who);
    SumPointwise(m, r, InFlight);
    SumPointwise(m, r, Idle);
    SumPointwise(m, r, InLoop);
  }

  lemma OneOf(m: Threads, t: ThreadId)
    requires t in m
    ensures InFlightSum(m) >= InFlight(m[t]) && IdleCount(m) >= Idle(m[t]) && LoopCount(m) >= InLoop(m[t])
  {
    hide Sum;
    SumRemove(m, InFlight, t);
    SumRemove(m, Idle, t);
    SumRemove(m, InLoop, t);
  }

  lemma CriticalCounts(s: State, t: ThreadId)
    requires Inv(s) && t in s.threads && CanLock(s.threads[t])
    ensures Lock(s, t).nTotal >= 0 && Lock(s, t).nIdle >= 0
  {
    hide InFlightSum, IdleCount, LoopCount;
    OneOf(s.threads, t);
  }

  // ---------------------------------------------------------------------------
  // Every step keeps the invariant
  // ---------------------------------------------------------------------------

  lemma AllPassConcat(a: seq<Check>, b: seq<Check>)
    ensures AllPass(a + b) <==> AllPass(a) && AllPass(b)
  {
    forall i | 0 <= i < |b| ensures b[i] == (a + b)[|a| + i] {}
    if AllPass(a + b) {
      forall i | 0 <= i < |a| ensures a[i].passes { assert a[i] == (a + b)[i]; }
      forall i | 0 <= i < |b| ensures b[i].passes { assert b[i] == (a + b)[|a| + i]; }
    }
  }

  /** What taking the lock does to the other threads: at most, the sleeping master is woken. */
  lemma LockShape(s: State, t: ThreadId)
    requires t in s.threads && CanLock(s.threads[t]) && MASTER in s.threads
    ensures var u := Lock(s, t);
            && u.threads.Keys == s.threads.Keys && u.threads[t] == Locked
            && (u.threads == s.threads[t := Locked] || u.threads == Wake(s.threads[t := Locked], {MASTER}))
            && (forall v :: v in s.threads && v != t ==>
                  u.threads[v] == s.threads[v] || (v == MASTER && s.threads[v].Waiting? && u.threads[v].Woken?))
            && (u.threads[MASTER].Waiting? ==> u.nTodo == s.nTodo || u.nTodo != 0)
  {
    var u := Lock(s, t);
    assert Wake(s.threads, {MASTER})[t := Locked] == Wake(s.threads[t := Locked], {MASTER});
  }

  lemma LockKeepsCounts(s: State, t: ThreadId)
    requires Inv(s) && t in s.threads && CanLock(s.threads[t])
    ensures CountsOk(Lock(s, t), 1)
  {
    hide InFlightSum, IdleCount, LoopCount;
    LockShape(s, t);
    MoveThread(s.threads, t, Locked);
    WakeKeepsCounts(s.threads[t := Locked], {MASTER});
  }

  lemma BatchesMove(m: Threads, t: ThreadId, p: Thread)
    requires t in m
    ensures BatchesPass(m[t := p]) <==> BatchPasses(p) && BatchesPass(m - {t})
    ensures BatchesPass(m) <==> BatchPasses(m[t]) && BatchesPass(m - {t})
  {
    var n := m[t := p];
    if BatchesPass(n) {
      assert BatchPasses(n[t]);
      forall v | v in m - {t} ensures BatchPasses((m - {t})[v]) { assert BatchPasses(n[v]); }
    }
    if BatchesPass(m) {
      forall v | v in m - {t} ensures BatchPasses((m - {t})[v]) { assert BatchPasses(m[v]); }
    }
    if BatchesPass(m - {t}) {
      forall v | v in m && v != t ensures BatchPasses(m[v]) && BatchPasses(n[v]) { assert BatchPasses((m - {t})[v]); }
    }
  }

  lemma WakeKeepsBatches(m: Threads, who: set<ThreadId>)
    ensures BatchesPass(Wake(m, who)) <==> BatchesPass(m)
  {
    var r := Wake(m, who);
    forall t | t in m ensures BatchPasses(r[t]) == BatchPasses(m[t]) {}
    if BatchesPass(r) {
      forall t | t in m ensures BatchPasses(m[t]) { assert BatchPasses(r[t]); }
    }
  }

  lemma LockKeepsResult(s: State, t: ThreadId)
    requires Inv(s) && t in s.threads && CanLock(s.threads[t])
    ensures NoFailure(Lock(s, t)) <==> NoFailure(s)
  {
    hide InFlightSum, IdleCount, LoopCount;
    LockShape(s, t);
    var u := Lock(s, t);
    assert u.fAllOk == (s.fAllOk && BatchPasses(s.threads[t]));
    if BatchesPass(u.threads) {
      forall v | v in s.threads && v != t ensures BatchPasses(s.threads[v]) { assert BatchPasses(u.threads[v]); }
    }
  }

  lemma LockKeepsCore(s: State, t: ThreadId)
    requires Inv(s) && t in s.threads && CanLock(s.threads[t])
    ensures Core(Lock(s, t), 1) && LockedBy(Lock(s, t), t)
  {
    hide InFlightSum, IdleCount, LoopCount, NoFailure;
    LockShape(s, t);
    LockKeepsCounts(s, t);
    LockKeepsResult(s, t);
    OneOf(s.threads, t);
  }

  lemma DecideKeepsCounts(u: State, t: ThreadId)
    requires Core(u, 1) && LockedBy(u, t)
    ensures CountsOk(Decide(u, t), 0)
  {
    hide InFlightSum, IdleCount, LoopCount;
    if u.queue != [] { BatchFits(u); }
    MoveThread(u.threads, t, Decide(u, t).threads[t]);
  }

  /** When nothing is left to do, the accumulated flag is the answer. */
  lemma AllDone(u: State, t: ThreadId)
    requires Core(u, 1) && u.queue == [] && u.nTodo == 0
    ensures u.fAllOk <==> AllPass(u.added)
  {
    hide IdleCount, LoopCount;
    forall v | v in u.threads ensures BatchPasses(u.threads[v]) {
      OneOf(u.threads, v);
    }
  }

  lemma DecideKeepsResult(u: State, t: ThreadId)
    requires Core(u, 1) && LockedBy(u, t)
    ensures var r := Decide(u, t); (NoFailure(r) <==> AllPass(r.added)) && LogOk(r)
  {
    hide InFlightSum, IdleCount, LoopCount;
    var r := Decide(u, t);
    BatchesMove(u.threads, t, r.threads[t]);
    if u.queue == [] {
      if t == MASTER && u.nTodo == 0 {
        AllDone(u, t);
        NothingInFlight(u, t);
      }
    } else {
      BatchFits(u);
      var from := |u.queue| - BatchCount(u);
      assert u.queue == u.queue[..from] + u.queue[from..];
      AllPassConcat(u.queue[..from], u.queue[from..]);
      assert NoFailure(r) <==> NoFailure(u);
    }
  }

  lemma NothingInFlight(u: State, t: ThreadId)
    requires Core(u, 1) && u.queue == [] && u.nTodo == 0
    ensures forall v :: v in u.threads ==> !u.threads[v].Working?
  {
    hide IdleCount, LoopCount;
    forall v | v in u.threads ensures !u.threads[v].Working? {
      OneOf(u.threads, v);
    }
  }

  lemma CriticalKeepsInv(s: State, t: ThreadId)
    requires Inv(s) && t in s.threads && CanLock(s.threads[t])
    ensures Defined(s, Critical(t)) && Inv(Next(s, Critical(t)))
  {
    hide InFlightSum, IdleCount, LoopCount, NoFailure;
    CriticalCounts(s, t);
    LockKeepsCore(s, t);
    var u := Lock(s, t);
    DecideKeepsCounts(u, t);
    DecideKeepsResult(u, t);
    if u.queue != [] { BatchFits(u); }
    OneOf(u.threads, t);
  }

  lemma NotifyKeepsInv(s: State, who: set<ThreadId>)
    requires Inv(s) && Enabled(s, Notify(who))
    ensures Inv(Next(s, Notify(who)))
  {
    hide InFlightSum, IdleCount, LoopCount;
    var m := Wake(s.threads, who);
    WakeKeepsCounts(s.threads, who);
    WakeKeepsBatches(s.threads, who);
    BatchesMove(m, MASTER, Outside);
    MoveThread(m, MASTER, Outside);
  }

  lemma AddKeepsInv(s: State, checks: seq<Check>)
    requires Inv(s) && Enabled(s, Add(checks))
    ensures Inv(Next(s, Add(checks)))
  {
    hide InFlightSum, IdleCount, LoopCount;
    BatchesMove(s.threads, MASTER, Notifying(|checks|));
    MoveThread(s.threads, MASTER, Notifying(|checks|));
    AllPassConcat(s.queue, checks);
    AllPassConcat(s.added, checks);
  }

  lemma ExecuteKeepsInv(s: State, t: ThreadId)
    requires Inv(s) && Enabled(s, Execute(t))
    ensures Inv(Next(s, Execute(t)))
  {
    hide InFlightSum, IdleCount, LoopCount;
    var p := Next(s, Execute(t)).threads[t];
    BatchesMove(s.threads, t, p);
    MoveThread(s.threads, t, p);
    var todo := s.threads[t].todo;
    assert todo == [todo[0]] + todo[1..];
    AllPassConcat([todo[0]], todo[1..]);
  }

  /** A thread starts, or wakes up for no reason. */
  lemma MoveKeepsInv(s: State, a: Step)
    requires Inv(s) && Enabled(s, a) && (a.Start? || a.Spurious?)
    ensures Inv(Next(s, a))
  {
    hide InFlightSum, IdleCount, LoopCount;
    var p := if a.Start? then Entering else Woken;
    BatchesMove(s.threads, a.t, p);
    MoveThread(s.threads, a.t, p);
  }

  // ---------------------------------------------------------------------------
  // Whole runs
  // ---------------------------------------------------------------------------

  /** `steps` can be taken one after the other from `s`, in this order, and end in `r`. */
  ghost predicate Run(s: State, steps: seq<Step>, r: State)
    decreases |steps|
  {
    if steps == [] then s == r
    else Defined(s, steps[0]) && Run(Next(s, steps[0]), steps[1..], r)
  }

  ghost predicate Reachable(batchSize: nat, workers: set<ThreadId>, s: State) {
    exists steps :: Run(Init(batchSize, workers), steps, s)
  }

  lemma InitIsConsistent(batchSize: nat, workers: set<ThreadId>)
    ensures Inv(Init(batchSize, workers))
  {
    hide Sum;
    var s := Init(batchSize, workers);
    SumZero(s.threads, InFlight);
    SumZero(s.threads, Idle);
    SumZero(s.threads, InLoop);
  }

  lemma StepKeepsInv(s: State, a: Step)
    requires Inv(s) && Enabled(s, a)
    ensures Defined(s, a) && Inv(Next(s, a))
  {
    hide InFlightSum, IdleCount, LoopCount, NoFailure;
    match a
    case Add(checks) => AddKeepsInv(s, checks);
    case Notify(who) => NotifyKeepsInv(s, who);
    case Critical(t) => CriticalKeepsInv(s, t);
    case Execute(t) => ExecuteKeepsInv(s, t);
    case Start(_) => MoveKeepsInv(s, a);
    case Spurious(_) => MoveKeepsInv(s, a);
  }

  lemma {:induction false} RunKeepsInv(s: State, steps: seq<Step>, r: State)
    requires Inv(s) && Run(s, steps, r)
    ensures Inv(r)
    decreases |steps|
  {
    hide Inv, Next;
    if steps != [] {
      StepKeepsInv(s, steps[0]);
      RunKeepsInv(Next(s, steps[0]), steps[1..], r);
    }
  }

  lemma ReachableIsConsistent(batchSize: nat, workers: set<ThreadId>, s: State)
    requires Reachable(batchSize, workers, s)
    ensures Inv(s)
  {
    hide Inv, Init;
    var steps :| Run(Init(batchSize, workers), steps, s);
    InitIsConsistent(batchSize, workers);
    RunKeepsInv(Init(batchSize, workers), steps, s);
  }

  /**
   In every interleaving of the master with any number of workers, each Wait has returned true
   exactly when all checks added in its own session pass.
   */
  lemma WaitIsExact(batchSize: nat, workers: set<ThreadId>, s: State)
    requires Reachable(batchSize, workers, s)
    ensures forall i :: 0 <= i < |s.log| ==> (s.log[i].result <==> AllPass(s.log[i].added))
  {
    ReachableIsConsistent(batchSize, workers, s);
  }

  /** nTodo counts the queued checks and the checks of all batches in flight. */
  lemma TodoIsQueuePlusBatches(batchSize: nat, workers: set<ThreadId>, s: State)
    requires Reachable(batchSize, workers, s)
    ensures s.nTodo == |s.queue| + Sum(s.threads, InFlight)
    ensures s.nIdle == Sum(s.threads, Idle) && s.nTotal == Sum(s.threads, InLoop)
  {
    ReachableIsConsistent(batchSize, workers, s);
  }

  /** Whatever a session was given is exactly what the log says was added in it. */
  lemma SessionsAreSeparate(s: State, a: Step)
    requires Inv(s) && Enabled(s, a)
    ensures Defined(s, a)
    ensures var r := Next(s, a);
            if r.log == s.log then r.added == (if a.Add? then s.added + a.checks else s.added)
            else a == Critical(MASTER) && r.log == s.log + [Session(s.added, AllPass(s.added))] && r.added == []
                 && r.queue == [] && (forall t :: t in r.threads ==> !r.threads[t].Working?)
  {
    hide InFlightSum, IdleCount, LoopCount, NoFailure;
    if a.Critical? {
      CriticalCounts(s, a.t);
      LockKeepsCore(s, a.t);
      var u := Lock(s, a.t);
      if u.queue == [] && a.t == MASTER && u.nTodo == 0 {
        AllDone(u, a.t);
        NothingInFlight(u, a.t);
      }
    }
  }

  // ---------------------------------------------------------------------------
  // The queue never gets stuck
  // ---------------------------------------------------------------------------

  predicate MasterInWait(s: State) {
    MASTER in s.threads && !s.threads[MASTER].Outside? && !s.threads[MASTER].Notifying?
  }

  /** A master blocked without a pending notification leaves some worker with an unfinished batch. */
  lemma BlockedMasterHasHelper(s: State) returns (t: ThreadId)
    requires Inv(s) && s.threads[MASTER].Waiting?
    ensures s.queue == [] && t != MASTER && t in s.threads && s.threads[t].Working?
  {
    t := SumPositive(s.threads, InFlight);
  }

  /** A step that does work, as opposed to a thread starting or waking up for no reason. */
  predicate Useful(a: Step) { a.Critical? || a.Execute? }

  /** While the master is in Wait, some thread can take a useful step. */
  lemma NeverStuck(s: State) returns (a: Step)
    requires Inv(s) && MasterInWait(s)
    ensures Useful(a) && Enabled(s, a)
  {
    hide InFlightSum, IdleCount, LoopCount, NoFailure;
    var t := MASTER;
    if s.threads[MASTER].Waiting? { t := BlockedMasterHasHelper(s); }
    a := if CanLock(s.threads[t]) then Critical(t) else Execute(t);
  }

  const Energy: Thread -> nat := (p: Thread) =>
    if p.Working? then |p.todo| + 3 else if p.Entering? then 2 else if p.Woken? then 1 else 0

  ghost function EnergySum(m: Threads): (n: nat) { Sum(m, Energy) }

  ghost function Remaining(s: State): (n: nat) { 4 * |s.queue| + EnergySum(s.threads) }

  lemma EnergyMove(m: Threads, t: ThreadId, p: Thread)
    requires t in m
    ensures EnergySum(m[t := p]) == EnergySum(m) - Energy(m[t]) + Energy(p)
  {
    hide Sum;
    SumUpdate(m, Energy, t, p);
  }

  /** Waking the master costs one unit of energy, if it was asleep. */
  lemma EnergyWakeMaster(m: Threads)
    requires MASTER in m
    ensures EnergySum(Wake(m, {MASTER})) <= EnergySum(m) + 1
  {
    if m[MASTER].Waiting? {
      EnergyMove(m, MASTER, Woken);
      assert Wake(m, {MASTER}) == m[MASTER := Woken];
    } else {
      assert Wake(m, {MASTER}) == m;
    }
  }

  /** Every useful step uses up some of a quantity that only starts and spurious wake-ups add to. */
  lemma UsefulStepsRunOut(s: State, a: Step)
    requires Inv(s) && Enabled(s, a) && Useful(a)
    ensures Defined(s, a) && Remaining(Next(s, a)) < Remaining(s)
  {
    hide InFlightSum, IdleCount, LoopCount, NoFailure, EnergySum;
    match a
    case Execute(t) =>
      EnergyMove(s.threads, t, Next(s, a).threads[t]);
    case Critical(t) =>
      CriticalCounts(s, t);
      var u := Lock(s, t);
      LockShape(s, t);
      EnergyMove(s.threads, t, Locked);
      EnergyWakeMaster(s.threads[t := Locked]);
      if u.queue != [] { BatchFits(u); }
      EnergyMove(u.threads, t, Next(s, a).threads[t]);
  }

  ghost predicate AllUseful(steps: seq<Step>) { forall i :: 0 <= i < |steps| ==> Useful(steps[i]) }

  /**
   Hence every Wait comes back: without new starts and spurious wake-ups, no schedule is
   longer than Remaining, and a schedule that cannot be continued has returned to the caller.
   */
  lemma {:induction false} WaitReturns(s: State, steps: seq<Step>, r: State)
    requires Inv(s) && Run(s, steps, r) && AllUseful(steps)
    ensures |steps| <= Remaining(s)
    ensures (forall a :: Useful(a) ==> !Enabled(r, a)) ==> !MasterInWait(r)
    decreases |steps|
  {
    hide Inv, Next, Enabled, Remaining;
    if steps == [] {
      if MasterInWait(s) { var a := NeverStuck(s); }
    } else {
      assert Useful(steps[0]);
      StepKeepsInv(s, steps[0]);
      UsefulStepsRunOut(s, steps[0]);
      forall i | 0 <= i < |steps[1..]| ensures Useful(steps[1..][i]) { assert steps[1..][i] == steps[i + 1]; }
      WaitReturns(Next(s, steps[0]), steps[1..], r);
    }
  }
}
