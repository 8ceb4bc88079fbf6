/**
 Headers pre-synchronisation and redownload: a peer's chain is downloaded twice, one
 commitment bit per period kept from the first pass, and headers are released from a
 lookahead buffer of compressed headers in the second.

 The protocol is stated on plain histories: the headers of the first pass, those accepted
 in the second, and those released. The class keeps only bits, hashes and compressed
 headers, and is proved to follow the histories exactly.
 */
module HeadersSync {

  datatype Header = Header(version: int, prev: int, merkle: int, time: int, bits: int, nonce: int, auxpow: int)

  /** A header without the hash of its predecessor. */
  datatype CompressedHeader = CompressedHeader(version: int, merkle: int, time: int, bits: int, nonce: int, auxpow: int)

  function Compress(h: Header): CompressedHeader {
    CompressedHeader(h.version, h.merkle, h.time, h.bits, h.nonce, h.auxpow)
  }

  function GetFullHeader(c: CompressedHeader, prev: int): Header {
    Header(c.version, prev, c.merkle, c.time, c.bits, c.nonce, c.auxpow)
  }

  const TWO_256 := 0x1_0000000000000000_0000000000000000_0000000000000000_0000000000000000

  /** 256-bit addition of chain work. */
  function AddWork(a: int, b: int): int { (a + b) % TWO_256 }

  /** The sync's constants, and the functions it calls. */
  datatype Params = Params(
    period: nat, commitOffset: int, bufferSize: nat,
    maxCommitments: nat, minimumWork: int,
    startHeader: Header, startHeight: int, startWork: int,
    hashOf: Header -> int,
    saltedBit: int -> bool,
    permitted: (int, int, int) -> bool,
    proofOf: int -> int)
  {
    ghost predicate Ok() { period > 0 && bufferSize > 0 }

    predicate AtCommit(height: int)
      requires period > 0
    {
      height % period == commitOffset
    }

    function Bit(h: Header): bool { saltedBit(hashOf(h)) }
  }

  // ----- the protocol on histories

  function Last(p: Params, hs: seq<Header>): Header {
    if hs == [] then p.startHeader else hs[|hs| - 1]
  }

  function WorkOf(p: Params, hs: seq<Header>): int {
    if hs == [] then p.startWork else AddWork(WorkOf(p, hs[..|hs| - 1]), p.proofOf(hs[|hs| - 1].bits))
  }

  function ProofSum(p: Params, hs: seq<Header>): int {
    if hs == [] then 0 else p.proofOf(hs[0].bits) + ProofSum(p, hs[1..])
  }

  lemma {:induction false} ProofSumNext(p: Params, hs: seq<Header>, h: Header)
    ensures ProofSum(p, hs + [h]) == ProofSum(p, hs) + p.proofOf(h.bits)
  {
    if hs == [] {
      assert hs + [h] == [h] && [h][1..] == [];
    } else {
      assert (hs + [h])[1..] == hs[1..] + [h];
      ProofSumNext(p, hs[1..], h);
    }
  }

  /** The work of a history is that of its start plus the proofs of all its headers, modulo 2^256. */
  lemma {:induction false} WorkIs(p: Params, hs: seq<Header>)
    requires 0 <= p.startWork < TWO_256
    ensures WorkOf(p, hs) == (p.startWork + ProofSum(p, hs)) % TWO_256
  {
    if hs != [] {
      var before, h := hs[..|hs| - 1], hs[|hs| - 1];
      WorkIs(p, before);
      ProofSumNext(p, before, h);
      assert before + [h] == hs;
      SumMod(p.startWork + ProofSum(p, before), p.proofOf(h.bits));
    }
  }

  lemma SumMod(a: int, b: int)
    ensures (a % TWO_256 + b) % TWO_256 == (a + b) % TWO_256
  {
  }

  /** The commitment bits of a first pass, in order of height. */
  function Bits(p: Params, hs: seq<Header>): seq<bool>
    requires p.period > 0
  {
    if hs == [] then [] else
    Bits(p, hs[..|hs| - 1]) + if p.AtCommit(p.startHeight + |hs|) then [p.Bit(hs[|hs| - 1])] else []
  }

  function Commits(p: Params, n: nat): nat
    requires p.period > 0
  {
    if n == 0 then 0 else Commits(p, n - 1) + if p.AtCommit(p.startHeight + n) then 1 else 0
  }

  /** The first pass takes a header unless difficulty jumps or there would be too many commitments. */
  ghost predicate PresyncOk(p: Params, seen: seq<Header>, h: Header)
    requires p.period > 0
  {
    && p.permitted(p.startHeight + |seen| + 1, Last(p, seen).bits, h.bits)
    && (p.AtCommit(p.startHeight + |seen| + 1) ==> Commits(p, |seen| + 1) <= p.maxCommitments)
  }

  /** At some point the work of the headers accepted in the second pass had reached the minimum. */
  ghost predicate Reached(p: Params, accepted: seq<Header>) {
    exists n :: 0 < n <= |accepted| && WorkOf(p, accepted[..n]) >= p.minimumWork
  }

  /** The second pass takes a header that connects, and, until enough work is seen, repeats the committed bit of the same height. */
  ghost predicate RedownloadOk(p: Params, seen: seq<Header>, accepted: seq<Header>, h: Header)
    requires p.period > 0
  {
    && h.prev == p.hashOf(Last(p, accepted))
    && p.permitted(p.startHeight + |accepted| + 1, Last(p, accepted).bits, h.bits)
    && (!Reached(p, accepted + [h]) && p.AtCommit(p.startHeight + |accepted| + 1) ==>
         |accepted| < |seen| && p.Bit(h) == p.Bit(seen[|accepted|]))
  }

  /** What every history of the second pass looks like. */
  ghost predicate Chained(p: Params, hs: seq<Header>) {
    forall i :: 0 <= i < |hs| ==> hs[i].prev == p.hashOf(Last(p, hs[..i]))
  }

  ghost predicate Committed(p: Params, seen: seq<Header>, accepted: seq<Header>)
    requires p.period > 0
  {
    forall i :: 0 <= i < |accepted| && !Reached(p, accepted[..i + 1]) && p.AtCommit(p.startHeight + i + 1) ==>
      i < |seen| && p.Bit(accepted[i]) == p.Bit(seen[i])
  }

  // ----- facts about the bits

  lemma {:induction false} BitsCount(p: Params, hs: seq<Header>)
    requires p.period > 0
    ensures |Bits(p, hs)| == Commits(p, |hs|)
  {
    if hs != [] { BitsCount(p, hs[..|hs| - 1]); }
  }

  lemma {:induction false} CommitsGrow(p: Params, m: nat, n: nat)
    requires p.period > 0 && m <= n
    ensures Commits(p, m) <= Commits(p, n)
  {
    if m < n { CommitsGrow(p, m, n - 1); }
  }

  /** The bit at the front of the queue belongs to the height about to be checked. */
  lemma {:induction false} BitAt(p: Params, hs: seq<Header>, i: nat)
    requires p.period > 0 && i < |hs| && p.AtCommit(p.startHeight + i + 1)
    ensures Commits(p, i) < |Bits(p, hs)| && Bits(p, hs)[Commits(p, i)] == p.Bit(hs[i])
  {
    var n := |hs| - 1;
    BitsCount(p, hs[..n]);
    if i < n {
      BitAt(p, hs[..n], i);
    }
  }

  lemma ReachedStep(p: Params, hs: seq<Header>, h: Header)
    ensures Reached(p, hs + [h]) <==> Reached(p, hs) || WorkOf(p, hs + [h]) >= p.minimumWork
  {
    var hs' := hs + [h];
    forall n | 0 <= n <= |hs| ensures hs'[..n] == hs[..n] { }
    assert hs'[..|hs'|] == hs';
  }

  // ----- the sync object

  datatype State = PRESYNC | REDOWNLOAD | FINAL

  datatype ProcessingResult = ProcessingResult(powValidatedHeaders: seq<Header>, success: bool, requestMore: bool)

  const NULL_HEADER := Header(0, 0, 0, 0, 0, 0, 0)

  function CompressAll(hs: seq<Header>): seq<CompressedHeader> {
    seq(|hs|, i requires 0 <= i < |hs| => Compress(hs[i]))
  }

  class HeadersSyncState {
    const p: Params
    var downloadState: State
    var currentChainWork: int
    var headerCommitments: seq<bool>
    var lastHeaderReceived: Header
    var currentHeight: int
    var redownloadedHeaders: seq<CompressedHeader>
    var bufferLastHeight: int
    var bufferLastHash: int
    var bufferFirstPrevHash: int
    var redownloadChainWork: int
    var processAllRemainingHeaders: bool

    ghost var seen: seq<Header>
    ghost var accepted: seq<Header>
    ghost var released: seq<Header>

    /** What holds of the histories for ever, also after the sync has ended. */
    ghost predicate History()
      reads this
    {
      && p.Ok()
      && released <= accepted
      && Chained(p, accepted)
      && Committed(p, seen, accepted)
      && (released != [] ==> |released| + p.bufferSize <= |accepted| || Reached(p, accepted))
    }

    ghost predicate InPresync()
      reads this
    {
      && downloadState == PRESYNC && History()
      && accepted == [] && redownloadedHeaders == [] && !processAllRemainingHeaders
      && currentHeight == p.startHeight + |seen|
      && lastHeaderReceived == Last(p, seen)
      && currentChainWork == WorkOf(p, seen)
      && headerCommitments == Bits(p, seen) && |headerCommitments| <= p.maxCommitments
    }

    /** The buffer and its bounds, for a given history of accepted headers. */
    ghost predicate Buffers(hs: seq<Header>)
      reads this
    {
      && |released| <= |hs|
      && bufferLastHeight == p.startHeight + |hs|
      && bufferLastHash == p.hashOf(Last(p, hs))
      && bufferFirstPrevHash == p.hashOf(Last(p, released))
      && redownloadedHeaders == CompressAll(hs[|released|..])
      && (redownloadedHeaders == [] ==> hs == [])
    }

    /** The work seen and the commitment bits still to check, for a given history of accepted headers. */
    ghost predicate Checks(hs: seq<Header>)
      reads this
    {
      && p.period > 0
      && redownloadChainWork == WorkOf(p, hs)
      && (processAllRemainingHeaders <==> Reached(p, hs))
      && |headerCommitments| <= p.maxCommitments
      && (!processAllRemainingHeaders ==>
        Commits(p, |hs|) <= |Bits(p, seen)| && headerCommitments == Bits(p, seen)[Commits(p, |hs|)..])
    }

    ghost predicate InRedownload()
      reads this
    {
      downloadState == REDOWNLOAD && History() && Buffers(accepted) && Checks(accepted)
    }

    ghost predicate InFinal()
      reads this
    {
      && downloadState == FINAL && History()
      && headerCommitments == [] && redownloadedHeaders == []
      && lastHeaderReceived == NULL_HEADER && currentHeight == 0
      && bufferLastHash == 0 && bufferFirstPrevHash == 0 && !processAllRemainingHeaders
    }

    /** Every state between two calls. */
    ghost predicate Valid()
      reads this
    {
      || InPresync()
      || (InRedownload() && |redownloadedHeaders| <= p.bufferSize && !processAllRemainingHeaders)
      || InFinal()
    }

    constructor (params: Params)
      requires params.Ok()
      ensures p == params && InPresync() && Valid() && seen == [] && accepted == [] && released == []
    {
      p := params;
      currentChainWork := params.startWork;
      lastHeaderReceived := params.startHeader;
      currentHeight := params.startHeight;
      downloadState := PRESYNC;
      headerCommitments, redownloadedHeaders := [], [];
      bufferLastHeight, bufferLastHash, bufferFirstPrevHash, redownloadChainWork := 0, 0, 0, 0;
      processAllRemainingHeaders := false;
      seen, accepted, released := [], [], [];
    }

    method Finalize()
      requires History() && downloadState != FINAL
      modifies this
      ensures InFinal() && seen == old(seen) && accepted == old(accepted) && released == old(released)
    {
      headerCommitments := [];
      lastHeaderReceived := NULL_HEADER;
      redownloadedHeaders := [];
      bufferLastHash := 0;
      bufferFirstPrevHash := 0;
      processAllRemainingHeaders := false;
      currentHeight := 0;
      downloadState := FINAL;
    }

    /** One header of the first pass. */
    method ValidateAndProcessSingleHeader(current: Header) returns (ok: bool)
      requires InPresync()
      modifies this
      ensures ok <==> PresyncOk(p, old(seen), current)
      ensures if ok then InPresync() && seen == old(seen) + [current] else History() && seen == old(seen) && downloadState == PRESYNC
      ensures accepted == old(accepted) && released == old(released)
    {
      hide AddWork, Reached, Chained, Committed, WorkOf, Commits, Bits, Params.AtCommit, Last, PresyncOk;
      PresyncGrows(p, seen, current);
      var nextHeight := currentHeight + 1;
      if !p.permitted(nextHeight, lastHeaderReceived.bits, current.bits) { return false; }
      if p.AtCommit(nextHeight) {
        headerCommitments := headerCommitments + [p.saltedBit(p.hashOf(current))];
        if |headerCommitments| > p.maxCommitments { return false; }
      }
      currentChainWork := AddWork(currentChainWork, p.proofOf(current.bits));
      lastHeaderReceived := current;
      currentHeight := nextHeight;
      seen := seen + [current];
      return true;
    }

    /** One header of the second pass: check it against the stored bits and buffer it. */
    method ValidateAndStoreRedownloadedHeader(header: Header) returns (ok: bool)
      requires InRedownload()
      modifies this
      ensures ok <==> RedownloadOk(p, old(seen), old(accepted), header)
      ensures if ok then InRedownload() && accepted == old(accepted) + [header] else History() && accepted == old(accepted) && downloadState == REDOWNLOAD
      ensures seen == old(seen) && released == old(released)
    {
      hide Reached, Chained, Committed, Last, Params.AtCommit, Params.Bit, CompressAll, WorkOf, Commits, Bits;
      var nextHeight := bufferLastHeight + 1;
      if header.prev != bufferLastHash { return false; }
      var previousBits := if redownloadedHeaders != [] then redownloadedHeaders[|redownloadedHeaders| - 1].bits else p.startHeader.bits;
      BufferEnd(p, accepted, |released|);
      if !p.permitted(nextHeight, previousBits, header.bits) { return false; }
      ok := CheckCommitment(header, nextHeight);
      if ok {
        AcceptedGrows(p, seen, accepted, header);
        ReachedGrows(p, accepted, header);
        StoreHeader(header, nextHeight);
      }
    }

    /** Track the work, and compare the header with the stored bit of its height if there is one to compare. */
    method CheckCommitment(header: Header, nextHeight: int) returns (ok: bool)
      requires Checks(accepted) && nextHeight == p.startHeight + |accepted| + 1
      modifies this`redownloadChainWork, this`processAllRemainingHeaders, this`headerCommitments
      ensures ok <==> (!Reached(p, accepted + [header]) && p.AtCommit(nextHeight) ==> |accepted| < |seen| && p.Bit(header) == p.Bit(seen[|accepted|]))
      ensures ok ==> Checks(accepted + [header])
    {
      hide AddWork, Reached, WorkOf, Commits, Bits, Params.AtCommit;
      Extend(p, accepted, header);
      ReachedStep(p, accepted, header);
      redownloadChainWork := AddWork(redownloadChainWork, p.proofOf(header.bits));
      if redownloadChainWork >= p.minimumWork { processAllRemainingHeaders := true; }
      if !processAllRemainingHeaders && p.AtCommit(nextHeight) {
        QueueFront(p, seen, |accepted|);
        if |headerCommitments| == 0 { return false; }
        var commitment := p.saltedBit(p.hashOf(header));
        var expected := headerCommitments[0];
        headerCommitments := headerCommitments[1..];
        if commitment != expected { return false; }
      }
      return true;
    }

    method StoreHeader(header: Header, nextHeight: int)
      requires Buffers(accepted) && nextHeight == bufferLastHeight + 1
      modifies this`redownloadedHeaders, this`bufferLastHeight, this`bufferLastHash, this`accepted
      ensures accepted == old(accepted) + [header] && Buffers(accepted)
    {
      hide CompressAll;
      BufferGrows(accepted, |released|, header);
      redownloadedHeaders := redownloadedHeaders + [Compress(header)];
      bufferLastHeight := nextHeight;
      bufferLastHash := p.hashOf(header);
      accepted := accepted + [header];
    }

    /** The buffer holds what is accepted and not yet released. */
    ghost predicate Popping()
      reads this
    {
      && released <= accepted && Chained(p, accepted)
      && redownloadedHeaders == CompressAll(accepted[|released|..])
      && bufferFirstPrevHash == p.hashOf(Last(p, released))
    }

    /** The front of the buffer, with the hash of its predecessor put back. */
    method PopFront() returns (h: Header)
      requires Popping() && redownloadedHeaders != []
      modifies this`redownloadedHeaders, this`bufferFirstPrevHash, this`released
      ensures Popping() && released == old(released) + [h] && redownloadedHeaders == old(redownloadedHeaders)[1..]
    {
      hide Chained, CompressAll, Last;
      assert released == accepted[..|released|];
      Front(p, accepted, |released|);
      h := GetFullHeader(redownloadedHeaders[0], bufferFirstPrevHash);
      assert h == accepted[|released|];
      redownloadedHeaders := redownloadedHeaders[1..];
      bufferFirstPrevHash := p.hashOf(h);
      released := released + [h];
    }

    /** Release what is buried deep enough, or everything once enough work was seen. */
    method PopHeadersReadyForAcceptance() returns (ret: seq<Header>)
      requires InRedownload()
      modifies this`redownloadedHeaders, this`bufferFirstPrevHash, this`released
      ensures released == old(released) + ret && released <= accepted
      ensures downloadState == REDOWNLOAD && History() && Checks(accepted) && redownloadedHeaders == CompressAll(accepted[|released|..])
      ensures if processAllRemainingHeaders then released == accepted else
        InRedownload() && |redownloadedHeaders| <= p.bufferSize && (ret != [] ==> |redownloadedHeaders| == p.bufferSize)
    {
      hide Reached, Chained, Committed, Params.AtCommit, Params.Bit, CompressAll, WorkOf, Commits, Bits, Last;
      ret := [];
      Sizes(accepted, |released|);
      while |redownloadedHeaders| > p.bufferSize || (|redownloadedHeaders| > 0 && processAllRemainingHeaders)
        invariant Popping() && released == old(released) + ret && |redownloadedHeaders| == |accepted| - |released|
        invariant ret != [] ==> processAllRemainingHeaders || |redownloadedHeaders| >= p.bufferSize
        decreases |redownloadedHeaders|
      {
        var h := PopFront();
        ret := ret + [h];
      }
    }

    /** The first pass over a batch; afterwards the second pass may begin. */
    method ValidateAndStoreHeadersCommitments(headers: seq<Header>) returns (ok: bool)
      requires InPresync() && |headers| > 0
      modifies this
      ensures ok <==> headers[0].prev == p.hashOf(Last(p, old(seen))) && forall i :: 0 <= i < |headers| ==> PresyncOk(p, old(seen) + headers[..i], headers[i])
      ensures ok ==> seen == old(seen) + headers
      ensures ok ==> if WorkOf(p, seen) >= p.minimumWork then InRedownload() && redownloadedHeaders == [] && !processAllRemainingHeaders else InPresync()
      ensures !ok ==> History() && downloadState == PRESYNC && old(seen) <= seen
      ensures accepted == [] && released == []
    {
      hide Reached, Chained, Committed, Params.AtCommit, Params.Bit, WorkOf, Commits, Bits, Last, PresyncOk;
      if headers[0].prev != p.hashOf(lastHeaderReceived) { return false; }
      ghost var before := seen;
      assert before + headers[..0] == before;
      for i := 0 to |headers|
        invariant InPresync() && seen == before + headers[..i]
        invariant forall j :: 0 <= j < i ==> PresyncOk(p, before + headers[..j], headers[j])
      {
        assert before + headers[..i] + [headers[i]] == before + headers[..i + 1];
        var good := ValidateAndProcessSingleHeader(headers[i]);
        if !good { return false; }
      }
      assert headers[..|headers|] == headers;
      ok := true;
      if currentChainWork >= p.minimumWork {
        BeginRedownload();
      }
    }

    method BeginRedownload()
      requires InPresync()
      modifies this
      ensures InRedownload() && redownloadedHeaders == [] && !processAllRemainingHeaders && seen == old(seen) && accepted == [] && released == []
    {
      redownloadedHeaders := [];
      bufferLastHeight := p.startHeight;
      bufferFirstPrevHash := p.hashOf(p.startHeader);
      bufferLastHash := p.hashOf(p.startHeader);
      redownloadChainWork := p.startWork;
      downloadState := REDOWNLOAD;
    }

    /** The second pass over a batch. */
    method StoreRedownloadedHeaders(headers: seq<Header>) returns (ok: bool)
      requires InRedownload()
      modifies this
      ensures ok <==> forall i :: 0 <= i < |headers| ==> RedownloadOk(p, old(seen), old(accepted) + headers[..i], headers[i])
      ensures ok ==> InRedownload() && accepted == old(accepted) + headers
      ensures !ok ==> History() && downloadState == REDOWNLOAD && old(accepted) <= accepted
      ensures seen == old(seen) && released == old(released)
    {
      hide Reached, Chained, Committed, Params.AtCommit, Params.Bit, WorkOf, Commits, Bits, Last, RedownloadOk, CompressAll;
      ghost var before := accepted;
      assert before + headers[..0] == before;
      for i := 0 to |headers|
        invariant InRedownload() && accepted == before + headers[..i] && seen == old(seen) && released == old(released)
        invariant forall j :: 0 <= j < i ==> RedownloadOk(p, seen, before + headers[..j], headers[j])
      {
        assert before + headers[..i] + [headers[i]] == before + headers[..i + 1];
        var good := ValidateAndStoreRedownloadedHeader(headers[i]);
        if !good { return false; }
      }
      assert headers[..|headers|] == headers;
      return true;
    }

    /**
     Process a batch of headers from the peer. The result is that of the protocol on
     histories; whatever it is, the state stays valid, and the sync is over unless the
     caller is told to ask for more.
     */
    method ProcessNextHeaders(received: seq<Header>, fullHeadersMessage: bool) returns (ret: ProcessingResult)
      requires Valid()
      modifies this
      ensures Valid() && History()
      ensures old(seen) <= seen && old(accepted) <= accepted && released == old(released) + ret.powValidatedHeaders
      ensures received == [] || old(downloadState) == FINAL ==>
        ret == ProcessingResult([], false, false) && seen == old(seen) && accepted == old(accepted) && downloadState == old(downloadState)
      ensures old(downloadState) == FINAL ==> downloadState == FINAL
      ensures received != [] && old(downloadState) == PRESYNC ==>
        && (ret.success <==> received[0].prev == p.hashOf(Last(p, old(seen))) && forall i :: 0 <= i < |received| ==> PresyncOk(p, old(seen) + received[..i], received[i]))
        && (ret.success ==> seen == old(seen) + received)
        && (ret.requestMore <==> ret.success && (fullHeadersMessage || WorkOf(p, seen) >= p.minimumWork))
        && ret.powValidatedHeaders == [] && accepted == old(accepted)
        && downloadState == (if !ret.requestMore then FINAL else if WorkOf(p, seen) >= p.minimumWork then REDOWNLOAD else PRESYNC)
      ensures received != [] && old(downloadState) == REDOWNLOAD ==>
        && (ret.success <==> forall i :: 0 <= i < |received| ==> RedownloadOk(p, old(seen), old(accepted) + received[..i], received[i]))
        && (ret.success ==> accepted == old(accepted) + received)
        && (!ret.success ==> ret.powValidatedHeaders == [])
        && (ret.success && Reached(p, accepted) ==> released == accepted)
        && (ret.success && !Reached(p, accepted) ==> |released| == if |accepted| > p.bufferSize then |accepted| - p.bufferSize else 0)
        && (ret.requestMore <==> ret.success && fullHeadersMessage && !Reached(p, accepted))
        && seen == old(seen) && downloadState == (if ret.requestMore then REDOWNLOAD else FINAL)
    {
      hide Reached, Chained, Committed, Params.AtCommit, Params.Bit, WorkOf, Commits, Bits, Last, RedownloadOk, PresyncOk, CompressAll;
      if received == [] || downloadState == FINAL { return ProcessingResult([], false, false); }
      var success, requestMore, ready := false, false, [];
      if downloadState == PRESYNC {
        success := ValidateAndStoreHeadersCommitments(received);
        if success && (fullHeadersMessage || downloadState == REDOWNLOAD) {
          requestMore := true;
        }
      } else {
        success := StoreRedownloadedHeaders(received);
        if success {
          ready := PopHeadersReadyForAcceptance();
          Sizes(accepted, |released|);
          if redownloadedHeaders == [] && processAllRemainingHeaders {
          } else if fullHeadersMessage {
            requestMore := true;
          }
        }
      }
      if !(success && requestMore) { Finalize(); }
      ret := ProcessingResult(ready, success, requestMore);
    }
  }

  /** A whole sync: any sequence of batches, with any message sizes. */
  method RunSync(params: Params, batches: seq<(seq<Header>, bool)>) returns (output: seq<Header>, s: HeadersSyncState)
    requires params.Ok()
    ensures s.p == params && s.Valid() && s.History()
    ensures output == s.released && output <= s.accepted && Chained(params, output)
  {
    s := new HeadersSyncState(params);
    output := [];
    for i := 0 to |batches|
      invariant s.p == params && s.Valid() && s.History() && fresh(s) && output == s.released
    {
      var r := s.ProcessNextHeaders(batches[i].0, batches[i].1);
      output := output + r.powValidatedHeaders;
    }
    PrefixChained(params, s.accepted, output);
  }

  lemma PrefixChained(p: Params, hs: seq<Header>, r: seq<Header>)
    requires Chained(p, hs) && r <= hs
    ensures Chained(p, r)
  {
    forall i | 0 <= i < |r| ensures r[i].prev == p.hashOf(Last(p, r[..i])) { assert r[..i] == hs[..i]; }
  }

  lemma Front(p: Params, hs: seq<Header>, r: nat)
    requires r <= |hs| && CompressAll(hs[r..]) != [] && Chained(p, hs)
    ensures r < |hs| && CompressAll(hs[r..])[0] == Compress(hs[r]) && CompressAll(hs[r..])[1..] == CompressAll(hs[r + 1..])
    ensures hs[r].prev == p.hashOf(Last(p, hs[..r])) && Last(p, hs[..r] + [hs[r]]) == hs[r]
  {
  }

  lemma Sizes(hs: seq<Header>, r: nat)
    requires r <= |hs|
    ensures |CompressAll(hs[r..])| == |hs| - r
  {
  }

  lemma BufferGrows(accepted: seq<Header>, r: nat, h: Header)
    requires r <= |accepted|
    ensures CompressAll((accepted + [h])[r..]) == CompressAll(accepted[r..]) + [Compress(h)]
  {
  }

  lemma ReachedGrows(p: Params, hs: seq<Header>, h: Header)
    ensures Reached(p, hs) ==> Reached(p, hs + [h])
  {
    ReachedStep(p, hs, h);
  }

  lemma BufferEnd(p: Params, accepted: seq<Header>, r: nat)
    requires r <= |accepted|
    ensures var buffer := CompressAll(accepted[r..]);
      && (buffer != [] ==> buffer[|buffer| - 1].bits == Last(p, accepted).bits)
      && (accepted == [] ==> p.startHeader.bits == Last(p, accepted).bits)
  {
  }

  /** At a commitment height the queue is empty exactly when the first pass did not get that far. */
  lemma QueueFront(p: Params, seen: seq<Header>, n: nat)
    requires p.period > 0 && Commits(p, n) <= |Bits(p, seen)| && p.AtCommit(p.startHeight + n + 1)
    ensures Commits(p, n) == |Bits(p, seen)| <==> n >= |seen|
    ensures n < |seen| ==> Bits(p, seen)[Commits(p, n)] == p.Bit(seen[n])
  {
    BitsCount(p, seen);
    if n < |seen| {
      BitAt(p, seen, n);
    } else {
      CommitsGrow(p, |seen|, n);
    }
  }

  lemma ChainGrows(p: Params, accepted: seq<Header>, h: Header)
    requires Chained(p, accepted) && h.prev == p.hashOf(Last(p, accepted))
    ensures Chained(p, accepted + [h])
  {
    var next := accepted + [h];
    forall i | 0 <= i < |next| ensures next[i].prev == p.hashOf(Last(p, next[..i])) {
      assert next[..i] == accepted[..i];
      assert accepted[..|accepted|] == accepted;
    }
  }

  lemma AcceptedGrows(p: Params, seen: seq<Header>, accepted: seq<Header>, h: Header)
    requires p.period > 0 && Chained(p, accepted) && Committed(p, seen, accepted) && RedownloadOk(p, seen, accepted, h)
    ensures Chained(p, accepted + [h]) && Committed(p, seen, accepted + [h])
  {
    hide Chained, Reached, Params.AtCommit, Params.Bit;
    ChainGrows(p, accepted, h);
    var next := accepted + [h];
    forall i | 0 <= i < |next| && !Reached(p, next[..i + 1]) && p.AtCommit(p.startHeight + i + 1)
      ensures i < |seen| && p.Bit(next[i]) == p.Bit(seen[i])
    {
      if i < |accepted| { assert next[..i + 1] == accepted[..i + 1] && next[i] == accepted[i]; } else { assert next[..i + 1] == next; }
    }
  }

  /** What one more header of the first pass adds to work and bits, and when it is taken. */
  lemma PresyncGrows(p: Params, seen: seq<Header>, h: Header)
    requires p.period > 0
    ensures var next, commit := seen + [h], p.AtCommit(p.startHeight + |seen| + 1);
      && WorkOf(p, next) == AddWork(WorkOf(p, seen), p.proofOf(h.bits)) && Last(p, next) == h
      && Bits(p, next) == Bits(p, seen) + (if commit then [p.Bit(h)] else [])
      && (PresyncOk(p, seen, h) <==>
           p.permitted(p.startHeight + |seen| + 1, Last(p, seen).bits, h.bits) && (commit ==> |Bits(p, next)| <= p.maxCommitments))
      && Committed(p, next, [])
  {
    hide AddWork, WorkOf, Commits, Bits, Params.AtCommit, Last;
    Extend(p, seen, h);
    BitsCount(p, seen + [h]);
  }

  lemma Extend(p: Params, hs: seq<Header>, h: Header)
    requires p.period > 0
    ensures var next := hs + [h];
      && WorkOf(p, next) == AddWork(WorkOf(p, hs), p.proofOf(h.bits)) && Last(p, next) == h
      && Commits(p, |next|) == Commits(p, |hs|) + (if p.AtCommit(p.startHeight + |hs| + 1) then 1 else 0)
      && Bits(p, next) == Bits(p, hs) + (if p.AtCommit(p.startHeight + |hs| + 1) then [p.Bit(h)] else [])
  {
    assert (hs + [h])[..|hs|] == hs;
  }
}
