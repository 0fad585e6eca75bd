/**
 Whole runs of the two-phase headers download: what a peer can get released and when, and
 that a peer which repeats its chain gets all of it through.
 */
module HeadersSyncRuns {
  import opened HeadersSync

  /** What happened so far: headers accepted in either phase, and headers handed to the caller. */
  datatype History = History(presync: seq<Header>, stored: seq<Header>, released: seq<Header>)

  function Tip(p: Params, hs: seq<Header>): (h: Header) { if hs == [] then p.start else hs[|hs| - 1] }

  /** Every header names the one before it, starting from the chain start. */
  ghost predicate Linked(p: Params, hs: seq<Header>) {
    forall i :: 0 <= i < |hs| ==> hs[i].prev == p.hash(Tip(p, hs[..i]))
  }

  /** The accumulated work, as the 256-bit counter has it. */
  function Work(p: Params, hs: seq<Header>): (w: nat)
    decreases |hs|
  {
    if hs == [] then p.startWork else p.AddWork(Work(p, hs[..|hs| - 1]), hs[|hs| - 1])
  }

  /** Some header of the chain brought the counter to the threshold. */
  predicate Reached(p: Params, hs: seq<Header>)
    decreases |hs|
  {
    hs != [] && (Reached(p, hs[..|hs| - 1]) || Work(p, hs) >= p.minimumWork)
  }

  /** The commitment bits of a chain, lowest height first. */
  function Bits(p: Params, hs: seq<Header>): (bits: seq<bool>)
    decreases |hs|
  {
    if hs == [] then []
    else
      Bits(p, hs[..|hs| - 1]) +
      if p.IsCommitHeight(p.startHeight + |hs|) then [p.Bit(hs[|hs| - 1])] else []
  }

  /** How many commitment heights the first `n` headers cover. */
  function Count(p: Params, n: nat): (c: nat) {
    if n == 0 then 0 else Count(p, n - 1) + if p.IsCommitHeight(p.startHeight + n) then 1 else 0
  }

  /** Below the threshold, a commitment height repeats the bit recorded for that same height. */
  predicate MatchesAt(p: Params, presync: seq<Header>, stored: seq<Header>, i: nat)
    requires i < |stored|
  {
    p.IsCommitHeight(p.startHeight + i + 1) && !Reached(p, stored[..i + 1]) ==>
      i < |presync| && p.Bit(stored[i]) == p.Bit(presync[i])
  }

  ghost predicate CommitmentsMatch(p: Params, presync: seq<Header>, stored: seq<Header>) {
    forall i :: 0 <= i < |stored| ==> MatchesAt(p, presync, stored, i)
  }

  /** The promise about everything that has been released. */
  ghost predicate Guarded(p: Params, h: History) {
    && h.released <= h.stored
    && Linked(p, h.stored)
    && CommitmentsMatch(p, h.presync, h.stored)
    && (h.stored != [] ==> Work(p, h.presync) >= p.minimumWork)
    && (h.released != [] && !Reached(p, h.stored) ==> |h.stored| - |h.released| >= REDOWNLOAD_BUFFER_SIZE)
  }

  ghost predicate PresyncOk(p: Params, s: Sync, h: History) {
    && h.stored == [] && h.released == []
    && s.commitments == Bits(p, h.presync)
    && s.height == p.startHeight + |h.presync|
    && s.last == Tip(p, h.presync)
    && s.work == Work(p, h.presync)
    && !s.releaseAll
  }

  ghost predicate BufferOk(s: Sync, h: History) {
    && |h.released| + |s.buffer| == |h.stored|
    && forall i :: 0 <= i < |s.buffer| ==> s.buffer[i] == Compress(h.stored[|h.released| + i])
  }

  ghost predicate ChainOk(p: Params, s: Sync, stored: seq<Header>) {
    && Linked(p, stored)
    && s.bufferHeight == p.startHeight + |stored|
    && s.bufferLast == p.hash(Tip(p, stored))
    && s.bufferWork == Work(p, stored)
    && s.releaseAll == Reached(p, stored)
  }

  /** Until the threshold is reached, the commitments left are those above the stored headers. */
  ghost predicate UnusedOk(p: Params, s: Sync, presync: seq<Header>, n: nat) {
    !s.releaseAll ==> Count(p, n) <= |Bits(p, presync)| && s.commitments == Bits(p, presync)[Count(p, n)..]
  }

  ghost predicate RedownloadOk(p: Params, s: Sync, h: History) {
    && h.released <= h.stored
    && s.bufferFirstPrev == p.hash(Tip(p, h.released))
    && ChainOk(p, s, h.stored)
    && BufferOk(s, h)
    && UnusedOk(p, s, h.presync, |h.stored|)
    && CommitmentsMatch(p, h.presync, h.stored)
    && h.presync != [] && Work(p, h.presync) >= p.minimumWork
  }

  ghost predicate Inv(p: Params, s: Sync, h: History) {
    && Guarded(p, h)
    && (s.phase == Presync ==> PresyncOk(p, s, h))
    && (s.phase == Redownload ==> RedownloadOk(p, s, h))
  }

  // ---------------------------------------------------------------------------
  // Commitment bits
  // ---------------------------------------------------------------------------

  lemma {:induction false} BitsCount(p: Params, hs: seq<Header>)
    ensures |Bits(p, hs)| == Count(p, |hs|)
    decreases |hs|
  {
    if hs != [] { BitsCount(p, hs[..|hs| - 1]); }
  }

  lemma {:induction false} CountMonotone(p: Params, m: nat, n: nat)
    requires m <= n
    ensures Count(p, m) <= Count(p, n)
    decreases n - m
  {
    if m < n { CountMonotone(p, m, n - 1); }
  }

  lemma {:induction false} BitsAt(p: Params, hs: seq<Header>, k: nat)
    requires k < |hs| && p.IsCommitHeight(p.startHeight + k + 1)
    ensures Count(p, k) < |Bits(p, hs)| && Bits(p, hs)[Count(p, k)] == p.Bit(hs[k])
    decreases |hs|
  {
    BitsCount(p, hs[..|hs| - 1]);
    if k < |hs| - 1 { BitsAt(p, hs[..|hs| - 1], k); }
  }

  /** A commitment that is still unused belongs to a header that was seen in the first phase. */
  lemma UnusedCommitment(p: Params, hs: seq<Header>, k: nat)
    requires p.IsCommitHeight(p.startHeight + k + 1) && Count(p, k) < |Bits(p, hs)|
    ensures k < |hs|
  {
    BitsCount(p, hs);
    if |hs| <= k { CountMonotone(p, |hs|, k); }
  }

  // ---------------------------------------------------------------------------
  // One header, one batch
  // ---------------------------------------------------------------------------

  lemma Snoc<T>(hs: seq<T>, h: T)
    ensures (hs + [h])[..|hs|] == hs && |hs + [h]| == |hs| + 1
    ensures forall i :: 0 <= i <= |hs| ==> (hs + [h])[..i] == hs[..i]
    ensures hs[..|hs|] == hs
  {
  }

  lemma PresyncHeaderOk(p: Params, s: Sync, h: History, hd: Header)
    requires s.phase == Presync && PresyncOk(p, s, h)
    ensures var (t, ok) := PresyncHeader(p, s, hd);
            t.phase == Presync && (ok ==> PresyncOk(p, t, h.(presync := h.presync + [hd])))
  {
    Snoc(h.presync, hd);
  }

  lemma {:induction false} PresyncHeadersOk(p: Params, s: Sync, h: History, hs: seq<Header>)
    requires s.phase == Presync && PresyncOk(p, s, h)
    ensures var (t, ok) := PresyncHeaders(p, s, hs);
            t.phase == Presync && (ok ==> PresyncOk(p, t, h.(presync := h.presync + hs)))
    decreases |hs|
  {
    if hs == [] {
      assert h.presync + hs == h.presync;
    } else {
      PresyncHeaderOk(p, s, h, hs[0]);
      var (t, ok) := PresyncHeader(p, s, hs[0]);
      if ok {
        var h' := h.(presync := h.presync + [hs[0]]);
        PresyncHeadersOk(p, t, h', hs[1..]);
        assert h'.presync + hs[1..] == h.presync + hs;
      }
    }
  }

  lemma LinkedSnoc(p: Params, hs: seq<Header>, h: Header)
    requires Linked(p, hs) && h.prev == p.hash(Tip(p, hs))
    ensures Linked(p, hs + [h])
  {
    Snoc(hs, h);
  }

  lemma StoreKeepsChain(p: Params, s: Sync, stored: seq<Header>, hd: Header)
    requires ChainOk(p, s, stored) && StoreHeader(p, s, hd).1
    ensures ChainOk(p, StoreHeader(p, s, hd).0, stored + [hd])
  {
    Snoc(stored, hd);
    LinkedSnoc(p, stored, hd);
  }

  /** The commitment taken from the front is the one recorded for this very height. */
  lemma StoreUsesOwnCommitment(p: Params, s: Sync, presync: seq<Header>, k: nat, hd: Header)
    requires UnusedOk(p, s, presync, k) && s.bufferHeight == p.startHeight + k && StoreHeader(p, s, hd).1
    ensures UnusedOk(p, StoreHeader(p, s, hd).0, presync, k + 1)
    ensures p.IsCommitHeight(p.startHeight + k + 1) && !StoreHeader(p, s, hd).0.releaseAll ==>
              k < |presync| && p.Bit(hd) == p.Bit(presync[k])
  {
    var t := StoreHeader(p, s, hd).0;
    if p.IsCommitHeight(p.startHeight + k + 1) && !t.releaseAll {
      assert s.commitments != [];
      UnusedCommitment(p, presync, k);
      BitsAt(p, presync, k);
    }
  }

  lemma StoreKeepsMatch(p: Params, s: Sync, presync: seq<Header>, stored: seq<Header>, hd: Header)
    requires ChainOk(p, s, stored) && UnusedOk(p, s, presync, |stored|)
    requires CommitmentsMatch(p, presync, stored) && StoreHeader(p, s, hd).1
    ensures CommitmentsMatch(p, presync, stored + [hd])
  {
    var stored' := stored + [hd];
    StoreKeepsChain(p, s, stored, hd);
    StoreUsesOwnCommitment(p, s, presync, |stored|, hd);
    hide UnusedOk, Linked, Work, StoreHeader, Reached;
    forall i | 0 <= i < |stored'| ensures MatchesAt(p, presync, stored', i) {
      if i < |stored| {
        assert stored'[..i + 1] == stored[..i + 1];
        assert MatchesAt(p, presync, stored, i);
      } else {
        assert stored'[..i + 1] == stored';
      }
    }
  }

  lemma StoreKeepsBuffer(p: Params, s: Sync, h: History, hd: Header)
    requires BufferOk(s, h) && StoreHeader(p, s, hd).1
    ensures BufferOk(StoreHeader(p, s, hd).0, h.(stored := h.stored + [hd]))
  {
  }

  lemma StoreHeaderOk(p: Params, s: Sync, h: History, hd: Header)
    requires s.phase == Redownload && RedownloadOk(p, s, h)
    ensures var (t, ok) := StoreHeader(p, s, hd);
            t.phase == Redownload && (ok ==> RedownloadOk(p, t, h.(stored := h.stored + [hd])))
  {
    hide UnusedOk, CommitmentsMatch, Reached, Work, BufferOk, ChainOk, Tip, Compress;
    if StoreHeader(p, s, hd).1 {
      StoreKeepsChain(p, s, h.stored, hd);
      StoreUsesOwnCommitment(p, s, h.presync, |h.stored|, hd);
      StoreKeepsMatch(p, s, h.presync, h.stored, hd);
      StoreKeepsBuffer(p, s, h, hd);
    }
  }

  /** Storing on top of released headers never weakens the promise about them. */
  lemma GuardedGrows(p: Params, s: Sync, h: History, t: Sync, hd: Header)
    requires Guarded(p, h) && RedownloadOk(p, s, h) && RedownloadOk(p, t, h.(stored := h.stored + [hd]))
    ensures Guarded(p, h.(stored := h.stored + [hd]))
  {
    hide Linked, CommitmentsMatch, UnusedOk;
    Snoc(h.stored, hd);
  }

  /** What failing or succeeding calls may have stored stays within the promise. */
  lemma {:induction false} StoreHeadersOk(p: Params, s: Sync, h: History, hs: seq<Header>)
    requires s.phase == Redownload && RedownloadOk(p, s, h) && Guarded(p, h)
    ensures var (t, ok, n) := StoreHeaders(p, s, hs);
            var h' := h.(stored := h.stored + hs[..n]);
            && t.phase == Redownload && Guarded(p, h')
            && (ok ==> RedownloadOk(p, t, h'))
    decreases |hs|
  {
    hide RedownloadOk, Guarded, StoreHeader;
    if hs == [] {
      assert h.stored + hs[..0] == h.stored;
    } else {
      StoreHeaderOk(p, s, h, hs[0]);
      var (t, ok) := StoreHeader(p, s, hs[0]);
      if ok {
        var h1 := h.(stored := h.stored + [hs[0]]);
        GuardedGrows(p, s, h, t, hs[0]);
        StoreHeadersOk(p, t, h1, hs[1..]);
        var n := StoreHeaders(p, t, hs[1..]).2;
        assert h1.stored + hs[1..][..n] == h.stored + hs[..n + 1];
      } else {
        assert h.stored + hs[..0] == h.stored;
      }
    }
  }

  /** Popping reconstructs exactly the stored headers, in order, and stops where it should. */
  lemma {:induction false} PopOk(p: Params, s: Sync, h: History)
    requires s.phase == Redownload && RedownloadOk(p, s, h) && Guarded(p, h)
    ensures var (t, out) := Pop(p, s);
            var h' := h.(released := h.released + out);
            && t.phase == Redownload && RedownloadOk(p, t, h') && Guarded(p, h')
            && (if s.releaseAll then t.buffer == [] else |t.buffer| <= REDOWNLOAD_BUFFER_SIZE)
    decreases |s.buffer|
  {
    hide RedownloadOk, Guarded;
    if |s.buffer| > REDOWNLOAD_BUFFER_SIZE || (|s.buffer| > 0 && s.releaseAll) {
      var hd := s.buffer[0].GetFullHeader(s.bufferFirstPrev);
      var s1 := s.(buffer := s.buffer[1..], bufferFirstPrev := p.hash(hd));
      var h1 := h.(released := h.released + [hd]);
      PopOneOk(p, s, h);
      var (t, out) := Pop(p, s1);
      PopOk(p, s1, h1);
      assert h1.released + out == h.released + ([hd] + out);
    } else {
      assert h.released + [] == h.released;
    }
  }

  lemma PopOneOk(p: Params, s: Sync, h: History)
    requires s.phase == Redownload && RedownloadOk(p, s, h) && Guarded(p, h)
    requires |s.buffer| > REDOWNLOAD_BUFFER_SIZE || (|s.buffer| > 0 && s.releaseAll)
    ensures var hd := s.buffer[0].GetFullHeader(s.bufferFirstPrev);
            var s1 := s.(buffer := s.buffer[1..], bufferFirstPrev := p.hash(hd));
            var h1 := h.(released := h.released + [hd]);
            hd == h.stored[|h.released|] && RedownloadOk(p, s1, h1) && Guarded(p, h1)
  {
    hide Bits, Count, Work, Reached, CommitmentsMatch;
    var k := |h.released|;
    assert s.buffer[0] == Compress(h.stored[k]);
    assert h.stored[..k] == h.released;
    assert h.stored[k].prev == p.hash(Tip(p, h.stored[..k]));
    assert h.released + [h.stored[k]] == h.stored[..k + 1];
  }

  // ---------------------------------------------------------------------------
  // Calls and runs
  // ---------------------------------------------------------------------------

  datatype Call = Call(headers: seq<Header>, full: bool)

  /** The history after one call of ProcessNextHeaders. */
  function Record(p: Params, s: Sync, h: History, c: Call): (r: History) {
    if c.headers == [] || s.phase == Final then h
    else if s.phase == Presync then
      if StoreCommitments(p, s, c.headers).1 then h.(presync := h.presync + c.headers) else h
    else
      var n := StoreHeaders(p, s, c.headers).2;
      h.(stored := h.stored + c.headers[..n], released := h.released + Process(p, s, c.headers, c.full).1.released)
  }

  lemma PresyncCallKeepsInv(p: Params, s: Sync, h: History, c: Call)
    requires s.phase == Presync && c.headers != [] && Inv(p, s, h)
    ensures Inv(p, Process(p, s, c.headers, c.full).0, Record(p, s, h, c))
  {
    hide Work, Reached, Bits;
    PresyncHeadersOk(p, s, h, c.headers);
    var t := PresyncHeaders(p, s, c.headers).0;
    var h' := h.(presync := h.presync + c.headers);
    EmptyChainFacts(p, h'.presync);
  }

  lemma EmptyChainFacts(p: Params, presync: seq<Header>)
    ensures Linked(p, []) && Work(p, []) == p.startWork && !Reached(p, []) && CommitmentsMatch(p, presync, [])
    ensures Count(p, 0) == 0 && Bits(p, presync)[0..] == Bits(p, presync)
  {
  }

  lemma RedownloadCallKeepsInv(p: Params, s: Sync, h: History, c: Call)
    requires s.phase == Redownload && c.headers != [] && Inv(p, s, h)
    ensures Inv(p, Process(p, s, c.headers, c.full).0, Record(p, s, h, c))
  {
    hide Guarded, RedownloadOk, StoreHeaders, Pop;
    StoreHeadersOk(p, s, h, c.headers);
    var (t, ok, n) := StoreHeaders(p, s, c.headers);
    var h1 := h.(stored := h.stored + c.headers[..n]);
    if ok {
      PopOk(p, t, h1);
    } else {
      assert h.released + [] == h.released;
    }
  }

  lemma CallKeepsInv(p: Params, s: Sync, h: History, c: Call)
    requires Inv(p, s, h)
    ensures Inv(p, Process(p, s, c.headers, c.full).0, Record(p, s, h, c))
  {
    if c.headers != [] && s.phase == Presync { PresyncCallKeepsInv(p, s, h, c); }
    if c.headers != [] && s.phase == Redownload { RedownloadCallKeepsInv(p, s, h, c); }
  }

  /** Everything that the calls return for acceptance, in order. */
  function Outputs(p: Params, s: Sync, calls: seq<Call>): (out: seq<Header>)
    decreases |calls|
  {
    if calls == [] then []
    else
      var (t, result) := Process(p, s, calls[0].headers, calls[0].full);
      result.released + Outputs(p, t, calls[1..])
  }

  function Recorded(p: Params, s: Sync, h: History, calls: seq<Call>): (r: History)
    decreases |calls|
  {
    if calls == [] then h
    else Recorded(p, Process(p, s, calls[0].headers, calls[0].full).0, Record(p, s, h, calls[0]), calls[1..])
  }

  lemma {:induction false} RunIsGuarded(p: Params, s: Sync, h: History, calls: seq<Call>)
    requires Inv(p, s, h)
    ensures Guarded(p, Recorded(p, s, h, calls))
    ensures Recorded(p, s, h, calls).released == h.released + Outputs(p, s, calls)
    decreases |calls|
  {
    hide Inv, Guarded, Process, Record;
    if calls == [] {
      InvGuards(p, s, h);
      assert h.released + [] == h.released;
    } else {
      CallKeepsInv(p, s, h, calls[0]);
      var (t, result) := Process(p, s, calls[0].headers, calls[0].full);
      var h' := Record(p, s, h, calls[0]);
      ReleasedGrows(p, s, h, calls[0]);
      RunIsGuarded(p, t, h', calls[1..]);
      assert h'.released + Outputs(p, t, calls[1..]) == h.released + (result.released + Outputs(p, t, calls[1..]));
    }
  }

  lemma InvGuards(p: Params, s: Sync, h: History)
    requires Inv(p, s, h)
    ensures Guarded(p, h)
  {
  }

  lemma ReleasedGrows(p: Params, s: Sync, h: History, c: Call)
    ensures Record(p, s, h, c).released == h.released + Process(p, s, c.headers, c.full).1.released
  {
    hide StoreHeaders, Pop, StoreCommitments;
    assert h.released + [] == h.released;
  }

  /**
   Whatever a peer sends in whatever batches: the headers returned for acceptance are, in
   order and field for field, a prefix of the headers stored in the second phase; those are
   hash-linked from the chain start; below the work threshold each one at a commitment height
   has the bit recorded for that height in the first phase, and a header is only released
   under at least REDOWNLOAD_BUFFER_SIZE stored ones; and nothing is stored before the first
   phase has seen enough work.
   */
  lemma ReleasesAreGuarded(p: Params, calls: seq<Call>)
    ensures var h := Recorded(p, Init(p), History([], [], []), calls);
            Guarded(p, h) && Outputs(p, Init(p), calls) == h.released
  {
    EmptyChainFacts(p, []);
    RunIsGuarded(p, Init(p), History([], [], []), calls);
  }

  // ---------------------------------------------------------------------------
  // A peer that repeats its chain
  // ---------------------------------------------------------------------------

  /** One chain repeats the other as far as both go. */
  ghost predicate Repeats(chain: seq<Header>, other: seq<Header>) {
    forall i :: 0 <= i < |chain| && i < |other| ==> chain[i] == other[i]
  }

  lemma {:induction false} ReachedMonotone(p: Params, hs: seq<Header>, k: nat)
    requires k <= |hs| && Reached(p, hs[..k])
    ensures Reached(p, hs)
    decreases |hs|
  {
    if k < |hs| {
      assert hs[..|hs| - 1][..k] == hs[..k];
      ReachedMonotone(p, hs[..|hs| - 1], k);
    } else {
      assert hs[..k] == hs;
    }
  }

  /** Repeating the whole first-phase chain reaches the threshold again. */
  lemma RepeatReaches(p: Params, presync: seq<Header>, chain: seq<Header>)
    requires presync != [] && Work(p, presync) >= p.minimumWork
    requires Repeats(chain, presync) && |presync| <= |chain|
    ensures Reached(p, chain)
  {
    assert chain[..|presync|] == presync;
    ReachedMonotone(p, chain, |presync|);
  }

  lemma ReplayedHeaderIsStored(p: Params, s: Sync, h: History, chain: seq<Header>)
    requires s.phase == Redownload && RedownloadOk(p, s, h)
    requires Linked(p, chain) && Repeats(chain, h.presync)
    requires |h.stored| < |chain| && h.stored == chain[..|h.stored|]
    ensures StoreHeader(p, s, chain[|h.stored|]).1
  {
    hide CommitmentsMatch, BufferOk, Bits, Count, Repeats, Linked, Reached, Work;
    var k := |h.stored|;
    var hd := chain[k];
    LinkedAt(p, chain, k);
    ReplayThreshold(p, chain, k);
    if !Reached(p, chain[..k + 1]) && p.IsCommitHeight(p.startHeight + k + 1) {
      StillInPresync(p, h.presync, chain, k);
      BitsAt(p, h.presync, k);
    }
  }

  lemma LinkedAt(p: Params, chain: seq<Header>, k: nat)
    requires Linked(p, chain) && k < |chain|
    ensures chain[k].prev == p.hash(Tip(p, chain[..k]))
  {
  }

  lemma ReplayThreshold(p: Params, chain: seq<Header>, k: nat)
    requires k < |chain|
    ensures Reached(p, chain[..k + 1]) ==
            (Reached(p, chain[..k]) || p.AddWork(Work(p, chain[..k]), chain[k]) >= p.minimumWork)
  {
    var next := chain[..k + 1];
    assert next[..k] == chain[..k] && next[k] == chain[k];
  }

  /** A chain that repeats the first phase meets the threshold no later than the first phase did. */
  lemma StillInPresync(p: Params, presync: seq<Header>, chain: seq<Header>, k: nat)
    requires presync != [] && Work(p, presync) >= p.minimumWork && Repeats(chain, presync)
    requires k < |chain| && !Reached(p, chain[..k + 1])
    ensures k < |presync| && chain[k] == presync[k]
  {
    hide Reached, Work;
    if |presync| <= k { RepeatReaches(p, presync, chain[..k + 1]); }
  }

  lemma {:induction false} ReplayedBatchIsStored(p: Params, s: Sync, h: History, chain: seq<Header>, m: nat)
    requires s.phase == Redownload && RedownloadOk(p, s, h)
    requires Linked(p, chain) && Repeats(chain, h.presync)
    requires |h.stored| <= m <= |chain| && h.stored == chain[..|h.stored|]
    ensures StoreHeaders(p, s, chain[|h.stored|..m]).1
    decreases m - |h.stored|
  {
    hide RedownloadOk, Linked, Repeats, StoreHeader;
    var k := |h.stored|;
    var hs := chain[k..m];
    if k < m {
      ReplayedHeaderIsStored(p, s, h, chain);
      StoreHeaderOk(p, s, h, hs[0]);
      var h' := h.(stored := h.stored + [hs[0]]);
      assert h'.stored == chain[..k + 1];
      assert hs[1..] == chain[k + 1..m];
      ReplayedBatchIsStored(p, StoreHeader(p, s, hs[0]).0, h', chain, m);
    }
  }

  function Flatten(calls: seq<Call>): (hs: seq<Header>) {
    if calls == [] then [] else calls[0].headers + Flatten(calls[1..])
  }

  /** What became of serving messages until no more were requested. */
  datatype Served = Served(sync: Sync, out: seq<Header>, calls: nat, ok: bool)

  function Serve(p: Params, s: Sync, calls: seq<Call>): (r: Served)
    ensures r.calls <= |calls|
    decreases |calls|
  {
    if calls == [] then Served(s, [], 0, true)
    else
      var (t, result) := Process(p, s, calls[0].headers, calls[0].full);
      if !result.success then Served(t, [], 1, false)
      else if !result.requestMore then Served(t, result.released, 1, true)
      else
        var r := Serve(p, t, calls[1..]);
        Served(r.sync, result.released + r.out, 1 + r.calls, r.ok)
  }

  /**
   One message of the replay, full or not: accepted, and everything is out as soon as the
   threshold is met. More is requested exactly after a full message below the threshold; a
   partial one below it ends the sync although it succeeds.
   */
  lemma ReplayedCall(p: Params, s: Sync, h: History, chain: seq<Header>, m: nat, full: bool)
    requires s.phase == Redownload && Inv(p, s, h)
    requires Linked(p, chain) && Repeats(chain, h.presync)
    requires |h.stored| < m <= |chain| && h.stored == chain[..|h.stored|]
    ensures var hs := chain[|h.stored|..m];
            var (t, result) := Process(p, s, hs, full);
            var h' := Record(p, s, h, Call(hs, full));
            && result.success && Inv(p, t, h')
            && h'.presync == h.presync && h'.stored == chain[..m] && h'.released == h.released + result.released
            && h'.released <= chain[..m]
            && result.requestMore == (full && !Reached(p, chain[..m]))
            && t.phase == (if full && !Reached(p, chain[..m]) then Redownload else Final)
            && (Reached(p, chain[..m]) ==> h'.released == chain[..m])
  {
    hide Inv, Guarded, RedownloadOk, Linked, Repeats, StoreHeaders, Pop, Reached;
    var hs := chain[|h.stored|..m];
    InvParts(p, s, h);
    ReplayedBatchIsStored(p, s, h, chain, m);
    CallKeepsInv(p, s, h, Call(hs, full));
    StoreHeadersOk(p, s, h, hs);
    var (t, ok, n) := StoreHeaders(p, s, hs);
    var h1 := h.(stored := h.stored + hs[..n]);
    assert h1.stored == chain[..m];
    PopOk(p, t, h1);
    PopKeepsFlag(p, t);
    RedownloadParts(p, t, h1);
    var (u, out) := Pop(p, t);
    RedownloadParts(p, u, h1.(released := h1.released + out));
  }

  lemma InvParts(p: Params, s: Sync, h: History)
    requires Inv(p, s, h) && s.phase == Redownload
    ensures Guarded(p, h) && RedownloadOk(p, s, h)
  {
  }

  lemma RedownloadParts(p: Params, s: Sync, h: History)
    requires RedownloadOk(p, s, h)
    ensures s.releaseAll == Reached(p, h.stored)
    ensures s.buffer == [] ==> h.released == h.stored
    ensures h.released <= h.stored
  {
  }

  lemma {:induction false} PopKeepsFlag(p: Params, s: Sync)
    ensures Pop(p, s).0.releaseAll == s.releaseAll
    decreases |s.buffer|
  {
    if |s.buffer| > REDOWNLOAD_BUFFER_SIZE || (|s.buffer| > 0 && s.releaseAll) {
      var h := s.buffer[0].GetFullHeader(s.bufferFirstPrev);
      PopKeepsFlag(p, s.(buffer := s.buffer[1..], bufferFirstPrev := p.hash(h)));
    }
  }

  /**
   The first `n` messages were all full and none of them ended at or above the threshold;
   `k` headers came before them.
   */
  ghost predicate Continues(p: Params, chain: seq<Header>, k: nat, calls: seq<Call>, n: nat)
    requires n <= |calls|
  {
    forall j :: 0 <= j < n ==> calls[j].full && !ReachedAfter(p, chain, k, calls, j)
  }

  /** The threshold has been met by the end of the `j`-th message. */
  predicate ReachedAfter(p: Params, chain: seq<Header>, k: nat, calls: seq<Call>, j: nat)
    requires j < |calls|
  {
    var end := k + |Flatten(calls[..j + 1])|;
    end <= |chain| && Reached(p, chain[..end])
  }

  lemma ReachedAfterTail(p: Params, chain: seq<Header>, k: nat, calls: seq<Call>, j: nat)
    requires 0 < j < |calls|
    ensures ReachedAfter(p, chain, k, calls, j) == ReachedAfter(p, chain, k + |calls[0].headers|, calls[1..], j - 1)
  {
    assert calls[..j + 1][1..] == calls[1..][..j];
  }

  lemma ReachedAfterFirst(p: Params, chain: seq<Header>, k: nat, calls: seq<Call>)
    requires calls != []
    ensures Flatten(calls[..1]) == calls[0].headers
    ensures var end := k + |calls[0].headers|;
            ReachedAfter(p, chain, k, calls, 0) == (end <= |chain| && Reached(p, chain[..end]))
  {
    hide Reached;
    assert calls[..1][1..] == [] && calls[..1][0] == calls[0];
    assert Flatten(calls[..1]) == calls[0].headers + Flatten([]);
  }

  lemma ContinuesStep(p: Params, chain: seq<Header>, k: nat, calls: seq<Call>, n: nat)
    requires 0 < n <= |calls| && calls[0].full && !ReachedAfter(p, chain, k, calls, 0)
    requires Continues(p, chain, k + |calls[0].headers|, calls[1..], n - 1)
    ensures Continues(p, chain, k, calls, n)
  {
    hide ReachedAfter;
    forall j | 0 <= j < n ensures calls[j].full && !ReachedAfter(p, chain, k, calls, j) {
      if j > 0 {
        ReachedAfterTail(p, chain, k, calls, j);
        assert calls[1..][j - 1] == calls[j];
      }
    }
  }

  /**
   What a peer that repeats its chain gets: it is never refused; the sync stops at the first
   message that is partial or meets the threshold, and goes on if there is none; what was
   released is a prefix of what was served, and all of it when the threshold was met.
   */
  ghost predicate Outcome(p: Params, h: History, chain: seq<Header>, calls: seq<Call>, r: Served)
    requires r.calls <= |calls|
  {
    var k := |h.stored|;
    var m := k + |Flatten(calls[..r.calls])|;
    && r.ok && m <= |chain| && h.released + r.out <= chain[..m]
    && (Reached(p, chain[..m]) ==> r.sync.phase == Final && h.released + r.out == chain[..m])
    && if r.sync.phase == Redownload then r.calls == |calls| && Continues(p, chain, k, calls, r.calls)
       else
         && r.sync.phase == Final && r.calls > 0 && Continues(p, chain, k, calls, r.calls - 1)
         && (!calls[r.calls - 1].full || ReachedAfter(p, chain, k, calls, r.calls - 1))
  }

  lemma OutcomeNone(p: Params, s: Sync, h: History, chain: seq<Header>)
    requires s.phase == Redownload && Inv(p, s, h) && h.stored == chain && !Reached(p, chain)
    ensures Outcome(p, h, chain, [], Served(s, [], 0, true))
  {
    hide Reached, Inv, Flatten;
    ReleasedIsStored(p, s, h);
    EmptyFlatten();
    assert chain[..|chain|] == chain && h.released + [] == h.released;
  }

  lemma EmptyFlatten()
    ensures Flatten([]) == []
  {
  }

  lemma ReleasedIsStored(p: Params, s: Sync, h: History)
    requires Inv(p, s, h) && s.phase == Redownload
    ensures h.released <= h.stored
  {
    hide Linked, CommitmentsMatch, Reached, Work;
  }

  /** The first message is the last one. */
  lemma OutcomeEnds(p: Params, t: Sync, h: History, chain: seq<Header>, calls: seq<Call>, out: seq<Header>)
    requires calls != [] && t.phase == Final
    requires var m := |h.stored| + |calls[0].headers|;
             && m <= |chain| && h.released + out <= chain[..m]
             && (Reached(p, chain[..m]) ==> h.released + out == chain[..m])
             && (Reached(p, chain[..m]) || !calls[0].full)
    ensures Outcome(p, h, chain, calls, Served(t, out, 1, true))
  {
    hide Reached, ReachedAfter;
    ReachedAfterFirst(p, chain, |h.stored|, calls);
  }

  /** The first message is full and stays below the threshold. */
  lemma OutcomeGoesOn(p: Params, h: History, h': History, chain: seq<Header>, calls: seq<Call>, out: seq<Header>, r: Served)
    requires calls != [] && calls[0].full && r.calls < |calls|
    requires var m := |h.stored| + |calls[0].headers|;
             && m <= |chain| && !Reached(p, chain[..m])
             && h'.stored == chain[..m] && h'.released == h.released + out
    requires Outcome(p, h', chain, calls[1..], r)
    ensures Outcome(p, h, chain, calls, Served(r.sync, out + r.out, 1 + r.calls, r.ok))
  {
    hide Reached, ReachedAfter, Continues;
    var k := |h.stored|;
    ReachedAfterFirst(p, chain, k, calls);
    assert calls[..1 + r.calls][1..] == calls[1..][..r.calls] && calls[..1 + r.calls][0] == calls[0];
    assert h.released + (out + r.out) == h'.released + r.out;
    if r.sync.phase == Redownload {
      ContinuesStep(p, chain, k, calls, 1 + r.calls);
    } else {
      ContinuesStep(p, chain, k, calls, r.calls);
      ReachedAfterTail(p, chain, k, calls, r.calls);
    }
  }

  /** A replay of the first-phase chain, possibly extended, cut into any messages. */
  lemma {:induction false} ReplayIsServed(p: Params, s: Sync, h: History, chain: seq<Header>, calls: seq<Call>)
    requires s.phase == Redownload && Inv(p, s, h) && !Reached(p, h.stored)
    requires Linked(p, chain) && Repeats(chain, h.presync)
    requires |h.stored| <= |chain| && h.stored == chain[..|h.stored|] && chain[|h.stored|..] == Flatten(calls)
    requires forall i :: 0 <= i < |calls| ==> calls[i].headers != []
    ensures Outcome(p, h, chain, calls, Serve(p, s, calls))
    decreases |calls|
  {
    hide Inv, Linked, Repeats, Reached, Process, Record, Outcome;
    if calls == [] {
      assert chain == h.stored;
      OutcomeNone(p, s, h, chain);
    } else {
      var k := |h.stored|;
      var c := calls[0];
      var m := k + |c.headers|;
      assert chain[k..m] == c.headers && chain[m..] == Flatten(calls[1..]) by {
        assert chain[k..] == c.headers + Flatten(calls[1..]);
      }
      ReplayedCall(p, s, h, chain, m, c.full);
      var (t, result) := Process(p, s, c.headers, c.full);
      if result.requestMore {
        var h' := Record(p, s, h, c);
        ReplayIsServed(p, t, h', chain, calls[1..]);
        OutcomeGoesOn(p, h, h', chain, calls, result.released, Serve(p, t, calls[1..]));
      } else {
        OutcomeEnds(p, t, h, chain, calls, result.released);
      }
    }
  }

  /** The peer sends full messages, except that one which meets the threshold may be partial. */
  ghost predicate FullUntilReached(p: Params, chain: seq<Header>, k: nat, calls: seq<Call>) {
    forall j :: 0 <= j < |calls| ==> calls[j].full || ReachedAfter(p, chain, k, calls, j)
  }

  /**
   A peer that repeats its first-phase chain in messages which are full as long as they leave
   the sync below the threshold: it is never refused, and once a message meets the threshold,
   every header up to the end of that message has been released, and no earlier one met it.
   */
  lemma {:induction false} ReplayIsReleased(p: Params, s: Sync, h: History, chain: seq<Header>, calls: seq<Call>)
    requires s.phase == Redownload && Inv(p, s, h) && !Reached(p, h.stored)
    requires Linked(p, chain) && Repeats(chain, h.presync)
    requires |h.stored| <= |chain| && h.stored == chain[..|h.stored|] && chain[|h.stored|..] == Flatten(calls)
    requires forall i :: 0 <= i < |calls| ==> calls[i].headers != []
    requires FullUntilReached(p, chain, |h.stored|, calls)
    ensures var r := Serve(p, s, calls);
            var m := |h.stored| + |Flatten(calls[..r.calls])|;
            && r.ok && m <= |chain|
            && if Reached(p, chain) then
                 && r.sync.phase == Final && Reached(p, chain[..m]) && h.released + r.out == chain[..m]
                 && r.calls > 0 && Continues(p, chain, |h.stored|, calls, r.calls - 1)
               else r.sync.phase == Redownload && m == |chain|
  {
    hide Inv, Linked, Repeats, Reached, Flatten, Serve;
    ReplayIsServed(p, s, h, chain, calls);
    var r := Serve(p, s, calls);
    if r.sync.phase == Redownload {
      assert calls[..|calls|] == calls && chain[..|chain|] == chain;
    } else {
      assert ReachedAfter(p, chain, |h.stored|, calls, r.calls - 1);
      ReachedMonotone(p, chain, |h.stored| + |Flatten(calls[..r.calls])|);
    }
  }

  function RunState(p: Params, s: Sync, calls: seq<Call>): (r: Sync)
    decreases |calls|
  {
    if calls == [] then s else RunState(p, Process(p, s, calls[0].headers, calls[0].full).0, calls[1..])
  }

  lemma {:induction false} RunKeepsInv(p: Params, s: Sync, h: History, calls: seq<Call>)
    requires Inv(p, s, h)
    ensures Inv(p, RunState(p, s, calls), Recorded(p, s, h, calls))
    decreases |calls|
  {
    hide Inv, Process, Record;
    if calls != [] {
      CallKeepsInv(p, s, h, calls[0]);
      RunKeepsInv(p, Process(p, s, calls[0].headers, calls[0].full).0, Record(p, s, h, calls[0]), calls[1..]);
    }
  }

  /**
   From the very start: any first phase that succeeds, followed by the same chain in messages
   that are full until the threshold is met, is released.
   */
  lemma {:induction false} SyncCompletes(p: Params, calls: seq<Call>, chain: seq<Header>, replay: seq<Call>)
    requires RunState(p, Init(p), calls).phase == Redownload
    requires Recorded(p, Init(p), History([], [], []), calls).stored == []
    requires var presync := Recorded(p, Init(p), History([], [], []), calls).presync;
             Linked(p, chain) && presync <= chain && chain == Flatten(replay)
    requires forall i :: 0 <= i < |replay| ==> replay[i].headers != []
    requires FullUntilReached(p, chain, 0, replay)
    ensures var r := Serve(p, RunState(p, Init(p), calls), replay);
            && r.ok && r.sync.phase == Final
            && r.out == Flatten(replay[..r.calls]) && Reached(p, r.out)
  {
    hide Process, Record, Linked, Reached, Bits, Count, Guarded, FullUntilReached, Continues;
    var s, h := RunState(p, Init(p), calls), Recorded(p, Init(p), History([], [], []), calls);
    EmptyChainFacts(p, []);
    EmptyIsGuarded(p);
    RunKeepsInv(p, Init(p), History([], [], []), calls);
    EmptyChainFacts(p, h.presync);
    RepeatReaches(p, h.presync, chain);
    assert chain[0..] == chain;
    ReplayIsReleased(p, s, h, chain, replay);
    var r := Serve(p, s, replay);
    FlattenSplit(replay, r.calls);
    assert [] + r.out == r.out;
  }

  lemma EmptyIsGuarded(p: Params)
    ensures Guarded(p, History([], [], [])) && PresyncOk(p, Init(p), History([], [], []))
  {
  }

  lemma {:induction false} FlattenSplit(calls: seq<Call>, n: nat)
    requires n <= |calls|
    ensures Flatten(calls[..n]) <= Flatten(calls)
    decreases n
  {
    if n > 0 {
      assert calls[..n][1..] == calls[1..][..n - 1];
      FlattenSplit(calls[1..], n - 1);
    }
  }

  // ---------------------------------------------------------------------------
  // Memory held for a peer
  // ---------------------------------------------------------------------------

  predicate Bounded(p: Params, s: Sync) {
    |s.commitments| <= p.maxCommitments && |s.buffer| <= REDOWNLOAD_BUFFER_SIZE
  }

  lemma {:induction false} PresyncIsBounded(p: Params, s: Sync, hs: seq<Header>)
    requires Bounded(p, s) && PresyncHeaders(p, s, hs).1
    ensures Bounded(p, PresyncHeaders(p, s, hs).0)
    decreases |hs|
  {
    if hs != [] { PresyncIsBounded(p, PresyncHeader(p, s, hs[0]).0, hs[1..]); }
  }

  lemma {:induction false} StoreUsesUpCommitments(p: Params, s: Sync, hs: seq<Header>)
    ensures var t := StoreHeaders(p, s, hs).0; t.phase == s.phase && |t.commitments| <= |s.commitments|
    decreases |hs|
  {
    if hs != [] { StoreUsesUpCommitments(p, StoreHeader(p, s, hs[0]).0, hs[1..]); }
  }

  lemma {:induction false} PopShortensBuffer(p: Params, s: Sync)
    requires s.phase == Redownload
    ensures var t := Pop(p, s).0; |t.buffer| <= REDOWNLOAD_BUFFER_SIZE && t.commitments == s.commitments
    decreases |s.buffer|
  {
    if |s.buffer| > REDOWNLOAD_BUFFER_SIZE || (|s.buffer| > 0 && s.releaseAll) {
      var h := s.buffer[0].GetFullHeader(s.bufferFirstPrev);
      PopShortensBuffer(p, s.(buffer := s.buffer[1..], bufferFirstPrev := p.hash(h)));
    }
  }

  /** Between calls, a peer never occupies more than the two limits, whatever it sends. */
  lemma {:induction false} RunIsBounded(p: Params, s: Sync, calls: seq<Call>)
    requires Bounded(p, s)
    ensures Bounded(p, RunState(p, s, calls))
    decreases |calls|
  {
    if calls != [] {
      CallIsBounded(p, s, calls[0]);
      hide Process, Bounded;
      RunIsBounded(p, Process(p, s, calls[0].headers, calls[0].full).0, calls[1..]);
    }
  }

  lemma CallIsBounded(p: Params, s: Sync, c: Call)
    requires Bounded(p, s)
    ensures Bounded(p, Process(p, s, c.headers, c.full).0)
  {
    if c.headers != [] && s.phase == Presync {
      if PresyncHeaders(p, s, c.headers).1 { PresyncIsBounded(p, s, c.headers); }
    } else if c.headers != [] && s.phase == Redownload {
      StoreUsesUpCommitments(p, s, c.headers);
      PopShortensBuffer(p, StoreHeaders(p, s, c.headers).0);
    }
  }
}
