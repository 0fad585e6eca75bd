/**
 The two-phase headers download as values: what each call does to the sync state, with the
 header hash, the salted commitment bit and the work of a header as parameters.
 */
module HeadersSync {

  const HEADER_COMMITMENT_PERIOD: nat := 584
  const REDOWNLOAD_BUFFER_SIZE: nat := 13959
  const WORK_MODULUS: nat := 0x1_0000000000000000_0000000000000000_0000000000000000_0000000000000000

  type Hash = nat
  const NULL_HASH: Hash := 0

  datatype Header = Header(version: int, prev: Hash, merkleRoot: nat, time: nat, bits: nat, nonce: nat, flags: nat)
  const NULL_HEADER := Header(0, 0, 0, 0, 0, 0, 0)

  /** A header without the hash of its predecessor. */
  datatype CompressedHeader = CompressedHeader(version: int, merkleRoot: nat, time: nat, bits: nat, nonce: nat, flags: nat)
  {
    function GetFullHeader(prev: Hash): (h: Header) { Header(version, prev, merkleRoot, time, bits, nonce, flags) }
  }

  function Compress(h: Header): (c: CompressedHeader)
    ensures c.GetFullHeader(h.prev) == h
  {
    CompressedHeader(h.version, h.merkleRoot, h.time, h.bits, h.nonce, h.flags)
  }

  /** What a sync is given, and what it draws at random, when it is created. */
  datatype Params = Params(
    hash: Header -> Hash,
    saltedBit: Hash -> bool,
    trust: Header -> nat,
    start: Header,            // the block the peer's chain builds on
    startHeight: nat,
    startWork: nat,
    minimumWork: nat,
    commitOffset: nat,
    maxCommitments: nat)
  {
    function Bit(h: Header): bool { saltedBit(hash(h)) }
    predicate IsCommitHeight(height: nat) { height % HEADER_COMMITMENT_PERIOD == commitOffset }
    function AddWork(work: nat, h: Header): nat { (work + trust(h)) % WORK_MODULUS }
  }

  datatype Phase = Presync | Redownload | Final

  datatype Sync = Sync(
    phase: Phase,
    work: nat,                        // m_current_chain_work
    commitments: seq<bool>,
    last: Header,                     // m_last_header_received
    height: nat,                      // m_current_height
    buffer: seq<CompressedHeader>,    // m_redownloaded_headers
    bufferHeight: nat,                // m_redownload_buffer_last_height
    bufferLast: Hash,                 // m_redownload_buffer_last_hash
    bufferFirstPrev: Hash,            // m_redownload_buffer_first_prev_hash
    bufferWork: nat,                  // m_redownload_chain_work
    releaseAll: bool)                 // m_process_all_remaining_headers

  datatype Result = Result(released: seq<Header>, success: bool, requestMore: bool)

  function Init(p: Params): (s: Sync) {
    Sync(Presync, p.startWork, [], p.start, p.startHeight, [], 0, NULL_HASH, NULL_HASH, 0, false)
  }

  // ---------------------------------------------------------------------------
  // The calls
  // ---------------------------------------------------------------------------

  function Finalize(s: Sync): (r: Sync) {
    s.(phase := Final, commitments := [], last := NULL_HEADER, buffer := [], bufferLast := NULL_HASH,
       bufferFirstPrev := NULL_HASH, releaseAll := false, height := 0)
  }

  /** ValidateAndProcessSingleHeader: a commitment at every commitment height, up to the limit. */
  function PresyncHeader(p: Params, s: Sync, h: Header): (r: (Sync, bool)) {
    if s.phase != Presync then (s, false)
    else
      var nextHeight := s.height + 1;
      var s1 := if p.IsCommitHeight(nextHeight) then s.(commitments := s.commitments + [p.Bit(h)]) else s;
      if p.IsCommitHeight(nextHeight) && |s1.commitments| > p.maxCommitments then (s1, false)
      else (s1.(work := p.AddWork(s1.work, h), last := h, height := nextHeight), true)
  }

  function PresyncHeaders(p: Params, s: Sync, hs: seq<Header>): (r: (Sync, bool))
    decreases |hs|
  {
    if hs == [] then (s, true)
    else
      var (t, ok) := PresyncHeader(p, s, hs[0]);
      if ok then PresyncHeaders(p, t, hs[1..]) else (t, false)
  }

  /** ValidateAndStoreHeadersCommitments. */
  function StoreCommitments(p: Params, s: Sync, hs: seq<Header>): (r: (Sync, bool)) {
    if hs == [] then (s, true)
    else if s.phase != Presync || hs[0].prev != p.hash(s.last) then (s, false)
    else
      var (t, ok) := PresyncHeaders(p, s, hs);
      if ok && t.work >= p.minimumWork then (StartRedownload(p, t), true) else (t, ok)
  }

  function StartRedownload(p: Params, s: Sync): (r: Sync) {
    s.(phase := Redownload, buffer := [], bufferHeight := p.startHeight, bufferFirstPrev := p.hash(p.start),
       bufferLast := p.hash(p.start), bufferWork := p.startWork)
  }

  /** ValidateAndStoreRedownloadedHeader. */
  function StoreHeader(p: Params, s: Sync, h: Header): (r: (Sync, bool)) {
    var nextHeight := s.bufferHeight + 1;
    if s.phase != Redownload || h.prev != s.bufferLast then (s, false)
    else
      var work := p.AddWork(s.bufferWork, h);
      var s1 := s.(bufferWork := work, releaseAll := s.releaseAll || work >= p.minimumWork);
      var check := !s1.releaseAll && p.IsCommitHeight(nextHeight);
      if check && s1.commitments == [] then (s1, false)
      else
        var s2 := if check then s1.(commitments := s1.commitments[1..]) else s1;
        if check && p.Bit(h) != s1.commitments[0] then (s2, false)
        else (s2.(buffer := s2.buffer + [Compress(h)], bufferHeight := nextHeight, bufferLast := p.hash(h)), true)
  }

  /** The redownload loop; the third component counts the headers that were stored. */
  function StoreHeaders(p: Params, s: Sync, hs: seq<Header>): (r: (Sync, bool, nat))
    ensures r.2 <= |hs| && (r.1 ==> r.2 == |hs|)
    decreases |hs|
  {
    if hs == [] then (s, true, 0)
    else
      var (t, ok) := StoreHeader(p, s, hs[0]);
      if !ok then (t, false, 0)
      else
        var (u, allOk, n) := StoreHeaders(p, t, hs[1..]);
        (u, allOk, n + 1)
  }

  /** PopHeadersReadyForAcceptance. */
  function Pop(p: Params, s: Sync): (r: (Sync, seq<Header>))
    decreases |s.buffer|
  {
    if s.phase != Redownload then (s, [])
    else if |s.buffer| > REDOWNLOAD_BUFFER_SIZE || (|s.buffer| > 0 && s.releaseAll) then
      var h := s.buffer[0].GetFullHeader(s.bufferFirstPrev);
      var (t, hs) := Pop(p, s.(buffer := s.buffer[1..], bufferFirstPrev := p.hash(h)));
      (t, [h] + hs)
    else (s, [])
  }

  /** ProcessNextHeaders. */
  function Process(p: Params, s: Sync, hs: seq<Header>, full: bool): (r: (Sync, Result))
  {
    if hs == [] || s.phase == Final then (s, Result([], false, false))
    else
      var (t, result) := if s.phase == Presync then ProcessPresync(p, s, hs, full) else ProcessRedownload(p, s, hs, full);
      (if result.success && result.requestMore then t else Finalize(t), result)
  }

  function ProcessPresync(p: Params, s: Sync, hs: seq<Header>, full: bool): (r: (Sync, Result)) {
    var (t, ok) := StoreCommitments(p, s, hs);
    (t, Result([], ok, ok && (full || t.phase == Redownload)))
  }

  function ProcessRedownload(p: Params, s: Sync, hs: seq<Header>, full: bool): (r: (Sync, Result)) {
    var (t, ok, _) := StoreHeaders(p, s, hs);
    if !ok then (t, Result([], false, false))
    else
      var (u, released) := Pop(p, t);
      (u, Result(released, true, !(u.buffer == [] && u.releaseAll) && full))
  }
}
