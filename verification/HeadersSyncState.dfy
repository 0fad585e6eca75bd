/** The mutable sync object; each method follows the function of the same purpose in HeadersSync. */
module HeadersSyncState {
  import opened HeadersSync

  class HeadersSyncState {
    const p: Params

    var downloadState: Phase
    var currentChainWork: nat
    var headerCommitments: seq<bool>
    var lastHeaderReceived: Header
    var currentHeight: nat
    var redownloadedHeaders: seq<CompressedHeader>
    var redownloadBufferLastHeight: nat
    var redownloadBufferLastHash: Hash
    var redownloadBufferFirstPrevHash: Hash
    var redownloadChainWork: nat
    var processAllRemainingHeaders: bool

    function State(): (s: Sync)
      reads this
    {
      Sync(downloadState, currentChainWork, headerCommitments, lastHeaderReceived, currentHeight,
           redownloadedHeaders, redownloadBufferLastHeight, redownloadBufferLastHash,
           redownloadBufferFirstPrevHash, redownloadChainWork, processAllRemainingHeaders)
    }

    constructor (params: Params)
      ensures p == params && State() == Init(params)
    {
      p := params;
      downloadState, currentChainWork, headerCommitments := Presync, params.startWork, [];
      lastHeaderReceived, currentHeight := params.start, params.startHeight;
      redownloadedHeaders, redownloadBufferLastHeight := [], 0;
      redownloadBufferLastHash, redownloadBufferFirstPrevHash, redownloadChainWork := NULL_HASH, NULL_HASH, 0;
      processAllRemainingHeaders := false;
    }

    method FinalizeSync()
      modifies this
      ensures State() == Finalize(old(State()))
    {
      headerCommitments := [];
      lastHeaderReceived := NULL_HEADER;
      redownloadedHeaders := [];
      redownloadBufferLastHash := NULL_HASH;
      redownloadBufferFirstPrevHash := NULL_HASH;
      processAllRemainingHeaders := false;
      currentHeight := 0;
      downloadState := Final;
    }

    method ProcessNextHeaders(received: seq<Header>, fullHeadersMessage: bool) returns (result: Result)
      modifies this
      ensures (State(), result) == Process(p, old(State()), received, fullHeadersMessage)
    {
      result := Result([], false, false);
      if received == [] { return; }
      if downloadState == Final { return; }
      if downloadState == Presync {
        var ok := ValidateAndStoreHeadersCommitments(received);
        result := result.(success := ok);
        if ok {
          if fullHeadersMessage || downloadState == Redownload {
            result := result.(requestMore := true);
          }
        }
      } else {
        result := result.(success := true);
        ghost var s := State();
        var i := 0;
        while i < |received|
          invariant 0 <= i <= |received| && result == Result([], true, false)
          invariant StoreHeaders(p, s, received).0 == StoreHeaders(p, State(), received[i..]).0
          invariant StoreHeaders(p, s, received).1 == StoreHeaders(p, State(), received[i..]).1
        {
          assert received[i..][0] == received[i] && received[i..][1..] == received[i + 1..];
          var ok := ValidateAndStoreRedownloadedHeader(received[i]);
          if !ok {
            result := result.(success := false);
            break;
          }
          i := i + 1;
        }
        if result.success {
          var released := PopHeadersReadyForAcceptance();
          result := result.(released := released);
          if redownloadedHeaders == [] && processAllRemainingHeaders {
          } else if fullHeadersMessage {
            result := result.(requestMore := true);
          }
        }
      }
      if !(result.success && result.requestMore) { FinalizeSync(); }
    }

    method ValidateAndStoreHeadersCommitments(headers: seq<Header>) returns (ok: bool)
      modifies this
      ensures (State(), ok) == StoreCommitments(p, old(State()), headers)
    {
      if |headers| == 0 { return true; }
      if downloadState != Presync { return false; }
      if headers[0].prev != p.hash(lastHeaderReceived) { return false; }
      ghost var s := State();
      var i := 0;
      while i < |headers|
        invariant 0 <= i <= |headers|
        invariant PresyncHeaders(p, s, headers) == PresyncHeaders(p, State(), headers[i..])
      {
        assert headers[i..][0] == headers[i] && headers[i..][1..] == headers[i + 1..];
        ok := ValidateAndProcessSingleHeader(headers[i]);
        if !ok { return; }
        i := i + 1;
      }
      if currentChainWork >= p.minimumWork {
        redownloadedHeaders := [];
        redownloadBufferLastHeight := p.startHeight;
        redownloadBufferFirstPrevHash := p.hash(p.start);
        redownloadBufferLastHash := p.hash(p.start);
        redownloadChainWork := p.startWork;
        downloadState := Redownload;
      }
      ok := true;
    }

    method ValidateAndProcessSingleHeader(current: Header) returns (ok: bool)
      modifies this
      ensures (State(), ok) == PresyncHeader(p, old(State()), current)
    {
      if downloadState != Presync { return false; }
      var nextHeight := currentHeight + 1;
      if nextHeight % HEADER_COMMITMENT_PERIOD == p.commitOffset {
        headerCommitments := headerCommitments + [p.saltedBit(p.hash(current))];
        if |headerCommitments| > p.maxCommitments { return false; }
      }
      currentChainWork := (currentChainWork + p.trust(current)) % WORK_MODULUS;
      lastHeaderReceived := current;
      currentHeight := nextHeight;
      ok := true;
    }

    method ValidateAndStoreRedownloadedHeader(header: Header) returns (ok: bool)
      modifies this
      ensures (State(), ok) == StoreHeader(p, old(State()), header)
    {
      if downloadState != Redownload { return false; }
      var nextHeight := redownloadBufferLastHeight + 1;
      if header.prev != redownloadBufferLastHash { return false; }
      redownloadChainWork := (redownloadChainWork + p.trust(header)) % WORK_MODULUS;
      if redownloadChainWork >= p.minimumWork {
        processAllRemainingHeaders := true;
      }
      if !processAllRemainingHeaders && nextHeight % HEADER_COMMITMENT_PERIOD == p.commitOffset {
        if |headerCommitments| == 0 { return false; }
        var commitment := p.saltedBit(p.hash(header));
        var expected := headerCommitments[0];
        headerCommitments := headerCommitments[1..];
        if commitment != expected { return false; }
      }
      redownloadedHeaders := redownloadedHeaders + [Compress(header)];
      redownloadBufferLastHeight := nextHeight;
      redownloadBufferLastHash := p.hash(header);
      ok := true;
    }

    method PopHeadersReadyForAcceptance() returns (ret: seq<Header>)
      modifies this
      ensures (State(), ret) == Pop(p, old(State()))
    {
      ret := [];
      if downloadState != Redownload { return; }
      ghost var s := State();
      assert ret + Pop(p, s).1 == Pop(p, s).1;
      while |redownloadedHeaders| > REDOWNLOAD_BUFFER_SIZE ||
            (|redownloadedHeaders| > 0 && processAllRemainingHeaders)
        invariant downloadState == Redownload
        invariant Pop(p, s) == (Pop(p, State()).0, ret + Pop(p, State()).1)
        decreases |redownloadedHeaders|
      {
        var header := redownloadedHeaders[0].GetFullHeader(redownloadBufferFirstPrevHash);
        ghost var now := State();
        ret := ret + [header];
        redownloadedHeaders := redownloadedHeaders[1..];
        redownloadBufferFirstPrevHash := p.hash(header);
        assert State() == now.(buffer := now.buffer[1..], bufferFirstPrev := p.hash(header));
        assert ret + Pop(p, State()).1 == ret[..|ret| - 1] + ([header] + Pop(p, State()).1);
      }
      assert ret + [] == ret;
    }
  }
}
