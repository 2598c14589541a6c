/** What the reordering connection does to whole streams of pipelined requests. */
module RequestStreams {
  import opened ByteStrings
  import opened RequestHeader
  import opened RequestMeaning
  import opened ChunkedBody
  import opened OrderedConn

  // ---------------------------------------------------------------- independence of write boundaries

  function Flatten(pieces: seq<Bytes>): Bytes {
    if pieces == [] then [] else pieces[0] + Flatten(pieces[1..])
  }

  /** Consecutive writes over a connection that does not fail; None once a write reports an error. */
  function Deliver(rules: Rules, s: ConnState, pieces: seq<Bytes>): Option<Ran>
    requires HasTracker(s)
    decreases pieces
  {
    if pieces == [] then Some(Ran(s, []))
    else if !Accepts(rules, s, pieces[0]) then None
    else
      var first := Run(rules, s, pieces[0]);
      Then(first, Deliver(rules, first.value.state, pieces[1..]))
  }

  /** Every non-empty prefix keeps within the header limit and the chunked syntax. */
  ghost predicate WellFormed(rules: Rules, s: ConnState, stream: Bytes)
    requires HasTracker(s)
  {
    forall k | 0 < k <= |stream| :: Accepts(rules, s, stream[..k])
  }

  /** A well-formed stream is accepted piece by piece. */
  lemma WellFormedTail(rules: Rules, s: ConnState, a: Bytes, b: Bytes)
    requires HasTracker(s) && WellFormed(rules, s, a + b)
    ensures Accepts(rules, s, a) && WellFormed(rules, Run(rules, s, a).value.state, b)
  {
    hide Run;
    if a == [] {
      RunNothing(rules, s);
      assert a + b == b;
    } else {
      assert (a + b)[..|a|] == a;
      assert Accepts(rules, s, (a + b)[..|a|]);
      forall k | 0 < k <= |b| ensures Accepts(rules, Run(rules, s, a).value.state, b[..k]) {
        assert (a + b)[..|a| + k] == a + b[..k];
        assert Accepts(rules, s, (a + b)[..|a| + k]);
        RunComposes(rules, s, a, b[..k]);
      }
    }
  }

  lemma WellFormedAppend(rules: Rules, s: ConnState, a: Bytes, b: Bytes)
    requires HasTracker(s) && WellFormed(rules, s, a) && Run(rules, s, a).Some?
    requires WellFormed(rules, Run(rules, s, a).value.state, b)
    ensures WellFormed(rules, s, a + b)
  {
    hide Run;
    forall k | 0 < k <= |a + b| ensures Accepts(rules, s, (a + b)[..k]) {
      if k <= |a| {
        assert (a + b)[..k] == a[..k];
      } else {
        assert (a + b)[..k] == a + b[..k - |a|];
        assert Accepts(rules, Run(rules, s, a).value.state, b[..k - |a|]);
        RunComposes(rules, s, a, b[..k - |a|]);
      }
    }
  }

  lemma {:induction false} AnySplitDelivers(rules: Rules, s: ConnState, pieces: seq<Bytes>)
    requires HasTracker(s) && WellFormed(rules, s, Flatten(pieces))
    ensures Deliver(rules, s, pieces).Some? && Deliver(rules, s, pieces) == Run(rules, s, Flatten(pieces))
    decreases pieces
  {
    hide Run, WellFormed;
    if pieces == [] {
      RunNothing(rules, s);
    } else {
      WellFormedTail(rules, s, pieces[0], Flatten(pieces[1..]));
      AnySplitDelivers(rules, Run(rules, s, pieces[0]).value.state, pieces[1..]);
      RunComposes(rules, s, pieces[0], Flatten(pieces[1..]));
    }
  }

  function Singles(stream: Bytes): seq<Bytes> {
    if stream == [] then [] else [[stream[0]]] + Singles(stream[1..])
  }

  lemma {:induction false} FlattenSingles(stream: Bytes)
    ensures Flatten(Singles(stream)) == stream
  {
    if stream != [] {
      FlattenSingles(stream[1..]);
      var pieces := [[stream[0]]] + Singles(stream[1..]);
      assert Singles(stream) == pieces && pieces[0] == [stream[0]] && pieces[1..] == Singles(stream[1..]);
      hide Singles;
      assert Flatten(pieces) == [stream[0]] + stream[1..];
    }
  }

  lemma {:induction false} SinglesDelivered(rules: Rules, s: ConnState, stream: Bytes)
    requires HasTracker(s) && Deliver(rules, s, Singles(stream)).Some?
    ensures WellFormed(rules, s, stream)
    decreases stream
  {
    hide Run;
    if stream != [] {
      var first, rest := [stream[0]], stream[1..];
      assert Singles(stream)[0] == first && Singles(stream)[1..] == Singles(rest);
      SinglesDelivered(rules, Run(rules, s, first).value.state, rest);
      assert forall k | 0 < k <= |first| :: first[..k] == first;
      WellFormedAppend(rules, s, first, rest);
      assert first + rest == stream;
    }
  }

  /**
   * The result of a stream does not depend on how it is cut into writes, exactly when the stream keeps
   * within the header limit and the chunked syntax at every point: then every split is accepted in
   * full, and sends and leaves behind what the uncut stream does.
   */
  lemma SplitIndependence(rules: Rules, s: ConnState, stream: Bytes)
    requires HasTracker(s)
    ensures WellFormed(rules, s, stream) <==>
            forall pieces | Flatten(pieces) == stream ::
              Deliver(rules, s, pieces).Some? && Deliver(rules, s, pieces) == Run(rules, s, stream)
  {
    hide Run, WellFormed, Deliver, Singles;
    if WellFormed(rules, s, stream) {
      forall pieces | Flatten(pieces) == stream
        ensures Deliver(rules, s, pieces).Some? && Deliver(rules, s, pieces) == Run(rules, s, stream)
      {
        AnySplitDelivers(rules, s, pieces);
      }
    } else {
      FlattenSingles(stream);
      if Deliver(rules, s, Singles(stream)).Some? {
        SinglesDelivered(rules, s, stream);
      }
    }
  }

  // ---------------------------------------------------------------- streams of requests

  datatype RequestBody = Plain(bytes: Bytes) | Chunked(encoding: Body)

  datatype Request = Request(header: Bytes, body: RequestBody)

  /** A header block within the limit, and the body its own header lines announce. */
  ghost predicate IsRequest(rules: Rules, r: Request) {
    && 4 <= |r.header| <= 0x10_0000 && EndsAtTerminator(r.header)
    && var lines := HeaderLines(r.header);
       match r.body
       case Plain(bytes) =>
         !AnnouncesChunked(rules, lines) && forall n: nat | n > 0 :: Announces(rules, lines, n) <==> n == |bytes|
       case Chunked(encoding) => AnnouncesChunked(rules, lines) && IsBody(encoding)
  }

  function HeaderLines(header: Bytes): seq<Bytes>
    requires |header| >= 4
  {
    SplitLines(header[..|header| - 4])[1..]
  }

  lemma FramedAsAnnounced(rules: Rules, r: Request)
    requires IsRequest(rules, r)
    ensures var framing := OrderHeader(rules, r.header).framing;
            match r.body
            case Plain(bytes) => !framing.chunked && |bytes| == framing.contentLength
            case Chunked(encoding) => framing.chunked && IsBody(encoding)
  {
    hide OrderHeader, Announces, AnnouncesChunked, EndsAtTerminator, SplitLines, Asked, InAskedOrder, UnlistedBy;
    HeaderIsOrdered(rules, r.header);
    var n, lines := OrderHeader(rules, r.header).framing.contentLength, HeaderLines(r.header);
    match r.body
    case Plain(bytes) =>
      assert n > 0 ==> Announces(rules, lines, n);
      assert |bytes| > 0 ==> Announces(rules, lines, |bytes|);
    case Chunked(_) =>
  }

  function BodyBytes(body: RequestBody): Bytes {
    match body
    case Plain(bytes) => bytes
    case Chunked(encoding) => Encode(encoding)
  }

  function Wire(requests: seq<Request>): Bytes {
    if requests == [] then [] else requests[0].header + BodyBytes(requests[0].body) + Wire(requests[1..])
  }

  /** The same requests with only their header blocks rewritten. */
  ghost function Rewritten(rules: Rules, requests: seq<Request>): Bytes
    requires forall r | r in requests :: IsRequest(rules, r)
  {
    if requests == [] then []
    else
      assert IsRequest(rules, requests[0]);
      OrderHeader(rules, requests[0].header).bytes + BodyBytes(requests[0].body) + Rewritten(rules, requests[1..])
  }

  lemma HeaderRuns(rules: Rules, header: Bytes)
    requires 4 <= |header| <= MAX_BUFFERED && EndsAtTerminator(header)
    ensures WellFormed(rules, IDLE, header)
    ensures Run(rules, IDLE, header)
              == Some(Ran(Framed(OrderHeader(rules, header).framing), OrderHeader(rules, header).bytes))
  {
    hide Run, OrderHeader;
    assert [] + header == header;
    RunCompletes(rules, [], header);
    forall k | 0 < k <= |header| ensures Accepts(rules, IDLE, header[..k]) {
      if k < |header| {
        forall i ensures !At([] + header[..k], CRLFCRLF, i) {
          assert [] + header[..k] == header[..k];
          AtInPrefix(header, k, CRLFCRLF, i);
        }
        RunCollects(rules, [], header[..k]);
      } else {
        assert header[..k] == header;
      }
    }
  }

  // ---------------------------------------------------------------- broken chunked bodies

  /** What one call of Write answers, the state it leaves and the bytes it puts on the wire. */
  datatype Reply = Reply(n: nat, err: WriteError, state: ConnState, sent: Bytes)

  /** A reply of Write over a connection that does not fail. */
  ghost predicate Answers(rules: Rules, s: ConnState, p: Bytes, r: Reply)
    requires HasTracker(s)
  {
    WriteOutcome(rules, s, p, r.n, r.err, r.state, r.sent) && !r.err.BodyWriteFailed? && !r.err.HeaderWriteFailed?
  }

  /** A header block within the limit that announces a chunked body. */
  ghost predicate IsChunkedHeader(rules: Rules, header: Bytes) {
    4 <= |header| <= 0x10_0000 && EndsAtTerminator(header) && AnnouncesChunked(rules, HeaderLines(header))
  }

  function InBody(t: Tracker): ConnState {
    ConnState([], 0, Some(t))
  }

  lemma FeedLeavesStart(t: Tracker, b: byte)
    requires t.Valid() && Feed(t, b).outcome.More?
    ensures Feed(t, b).tracker != NEW_TRACKER
  {
  }

  /** A tracker that has taken anything is never again as it was at the start. */
  lemma {:induction false} ConsumeLeavesStart(t: Tracker, data: Bytes)
    requires t.Valid() && data != [] && Consume(t, data).outcome.More?
    ensures Consume(t, data).tracker != NEW_TRACKER
    decreases data
  {
    hide Feed;
    FeedLeavesStart(t, data[0]);
    if |data| > 1 {
      ConsumeLeavesStart(Feed(t, data[0]).tracker, data[1..]);
    }
  }

  lemma OpenBodyRuns(rules: Rules, t: Tracker, data: Bytes)
    requires t.Valid() && Consume(t, data).outcome.More?
    ensures Run(rules, InBody(t), data) == Some(Ran(InBody(Consume(t, data).tracker), data))
  {
    hide Run, Consume;
    RunChunked(rules, t, data);
    assert data[..|data|] == data;
  }

  /** No part of a broken body runs to the state in which a body begins. */
  lemma BrokenBodyLeavesStart(rules: Rules, t: Tracker, data: Bytes, m: nat)
    requires t.Valid() && 0 < m <= |data| && Consume(t, data).outcome.Malformed?
    requires Run(rules, InBody(t), data[..m]).Some?
    ensures Run(rules, InBody(t), data[..m]).value.state.chunked != Some(NEW_TRACKER)
  {
    hide Run, Consume;
    ConsumeComposes(t, data[..m], data[m..]);
    assert data == data[..m] + data[m..];
    RunChunked(rules, t, data[..m]);
    OpenBodyRuns(rules, t, data[..m]);
    ConsumeLeavesStart(t, data[..m]);
  }

  /** Written inside a chunked body, input that breaks the encoding is refused and no byte of it is sent. */
  lemma BrokenRestIsRefused(rules: Rules, t: Tracker, data: Bytes, r: Reply)
    requires t.Valid() && Consume(t, data).outcome.Malformed?
    ensures Answers(rules, InBody(t), data, r) <==> r == Reply(0, MalformedChunk, InBody(t), [])
  {
    hide Run, Consume, EndsWith;
    RunChunked(rules, t, data);
    RunNothing(rules, InBody(t));
    assert data[..0] == [] && data[0..] == data;
    if Answers(rules, InBody(t), data, r) {
      OutcomeWithoutFailure(rules, InBody(t), data, r.n, r.err, r.state, r.sent);
      if r.n > 0 {
        BrokenBodyLeavesStart(rules, t, data, r.n);
      }
    }
  }

  /** Before the whole header block is there the wrapper only collects. */
  lemma PartOfHeaderIsHeld(rules: Rules, header: Bytes, k: nat)
    requires EndsAtTerminator(header) && k < |header|
    ensures Run(rules, IDLE, header[..k]) == Some(Ran(ConnState(header[..k], 0, None), []))
  {
    hide Run;
    assert [] + header[..k] == header[..k];
    forall i ensures !At([] + header[..k], CRLFCRLF, i) {
      AtInPrefix(header, k, CRLFCRLF, i);
    }
    RunCollects(rules, [], header[..k]);
  }

  lemma HeaderThenBodyRuns(rules: Rules, header: Bytes, data: Bytes)
    requires IsChunkedHeader(rules, header)
    ensures var ordered := OrderHeader(rules, header).bytes;
            Run(rules, IDLE, header) == Some(Ran(InBody(NEW_TRACKER), ordered))
    ensures var body := Run(rules, InBody(NEW_TRACKER), data);
            Run(rules, IDLE, header + data) ==
              if body.None? then None
              else Some(Ran(body.value.state, OrderHeader(rules, header).bytes + body.value.sent))
  {
    hide Run, OrderHeader, Announces, AnnouncesChunked, EndsAtTerminator, SplitLines, Asked, InAskedOrder, UnlistedBy;
    HeaderRuns(rules, header);
    HeaderIsOrdered(rules, header);
    RunComposes(rules, IDLE, header, data);
  }

  /** Where a write that ends in a broken body can have stopped: after the header block and nowhere else. */
  lemma StopsAfterHeader(rules: Rules, header: Bytes, data: Bytes, n: nat)
    requires IsChunkedHeader(rules, header) && n <= |header + data|
    requires Consume(NEW_TRACKER, data).outcome.Malformed?
    requires var part := Run(rules, IDLE, (header + data)[..n]);
             part.Some? && part.value.state.chunked == Some(NEW_TRACKER)
    ensures n == |header|
  {
    hide Run, Consume, OrderHeader, EndsAtTerminator;
    var p := header + data;
    if n < |header| {
      assert p[..n] == header[..n];
      PartOfHeaderIsHeld(rules, header, n);
    } else if n > |header| {
      var m := n - |header|;
      assert p[..n] == header + data[..m];
      HeaderThenBodyRuns(rules, header, data[..m]);
      BrokenBodyLeavesStart(rules, NEW_TRACKER, data, m);
    }
  }

  /** Written together with its header, a broken body is refused whole: only the rewritten header is sent. */
  lemma BrokenBodyIsRefused(rules: Rules, header: Bytes, data: Bytes, r: Reply)
    requires IsChunkedHeader(rules, header) && Consume(NEW_TRACKER, data).outcome.Malformed?
    ensures Answers(rules, IDLE, header + data, r)
       <==> r == Reply(|header|, MalformedChunk, InBody(NEW_TRACKER), OrderHeader(rules, header).bytes)
  {
    hide Run, Consume, OrderHeader, EndsAtTerminator, EndsWith;
    var p := header + data;
    HeaderThenBodyRuns(rules, header, data);
    RunChunked(rules, NEW_TRACKER, data);
    RunNothing(rules, IDLE);
    assert p[..|header|] == header && p[|header|..] == data && p[..0] == [];
    if Answers(rules, IDLE, p, r) {
      OutcomeWithoutFailure(rules, IDLE, p, r.n, r.err, r.state, r.sent);
      if r.n > 0 {
        StopsAfterHeader(rules, header, data, r.n);
      }
    }
  }

  /** The good part of a broken body, written with its header, is accepted and sent. */
  lemma GoodPartIsSent(rules: Rules, header: Bytes, part: Bytes, r: Reply)
    requires IsChunkedHeader(rules, header) && Consume(NEW_TRACKER, part).outcome.More?
    ensures var state := InBody(Consume(NEW_TRACKER, part).tracker);
            var sent := OrderHeader(rules, header).bytes + part;
            Answers(rules, IDLE, header + part, r) <==> r == Reply(|header + part|, NoError, state, sent)
  {
    hide Run, Consume, OrderHeader, EndsAtTerminator, EndsWith;
    HeaderThenBodyRuns(rules, header, part);
    OpenBodyRuns(rules, NEW_TRACKER, part);
    if Answers(rules, IDLE, header + part, r) {
      OutcomeWithoutFailure(rules, IDLE, header + part, r.n, r.err, r.state, r.sent);
    }
  }

  /**
   * Without well-formedness the boundaries show. Take any request whose chunked body breaks after its
   * first k > 0 bytes. In one write, none of the body is sent; cut after those k bytes, they are all
   * sent. Either way the call that holds the break reports it.
   */
  lemma MalformedInputShowsBoundaries(rules: Rules, header: Bytes, data: Bytes, k: nat, whole: Reply, first: Reply,
      second: Reply)
    requires IsChunkedHeader(rules, header) && 0 < k <= |data|
    requires Consume(NEW_TRACKER, data).outcome.Malformed? && Consume(NEW_TRACKER, data[..k]).outcome.More?
    requires Answers(rules, IDLE, header + data, whole)
    requires Answers(rules, IDLE, header + data[..k], first)
    requires HasTracker(first.state) && Answers(rules, first.state, data[k..], second)
    ensures whole.err.MalformedChunk? && whole.n == |header|
    ensures first.err.NoError? && second.err.MalformedChunk? && second.n == 0
    ensures whole.sent == OrderHeader(rules, header).bytes
    ensures first.sent + second.sent == OrderHeader(rules, header).bytes + data[..k] != whole.sent
  {
    hide Run, Consume, OrderHeader, EndsAtTerminator, Answers, IsChunkedHeader, InBody, HasTracker;
    BrokenBodyIsRefused(rules, header, data, whole);
    GoodPartIsSent(rules, header, data[..k], first);
    RestIsBroken(data, k);
    BrokenRestIsRefused(rules, Consume(NEW_TRACKER, data[..k]).tracker, data[k..], second);
  }

  lemma RestIsBroken(data: Bytes, k: nat)
    requires k <= |data| && Consume(NEW_TRACKER, data[..k]).outcome.More?
    requires Consume(NEW_TRACKER, data).outcome.Malformed?
    ensures Consume(Consume(NEW_TRACKER, data[..k]).tracker, data[k..]).outcome.Malformed?
  {
    hide Consume;
    assert data == data[..k] + data[k..];
    ConsumeComposes(NEW_TRACKER, data[..k], data[k..]);
  }

  /** Such bodies exist: any chunk whose data ends in CR and a byte that is not LF. */
  lemma BrokenTerminator(c: Chunk, b: byte)
    requires c.data != [] && IsSizeLine(c.size, c.extension, |c.data|) && b != LF
    ensures var open := SizeLine(c.size, c.extension) + c.data + [CR];
            && Consume(NEW_TRACKER, open).outcome.More?
            && Consume(NEW_TRACKER, open + [b]).outcome.Malformed?
  {
    hide Consume, IsSizeLine, SizeLine;
    var line := SizeLine(c.size, c.extension);
    assert line != [] && line[0..] == line by {
      SizeLineHasEnd(c.size, c.extension);
    }
    forall tail ensures var t := Tracker(ReadingDataCRLF, [], 0, 0, []);
                        Consume(NEW_TRACKER, line + c.data + tail) == Later(|line| + |c.data|, Consume(t, tail))
    {
      assert line + c.data + tail == line + (c.data + tail);
      ConsumeSizeLine(NEW_TRACKER, c.size, c.extension, |c.data|, 0, c.data + tail);
      ConsumeData(NEW_TRACKER.(dataRemaining := |c.data|, phase := ReadingData), c.data + tail, |c.data|);
      assert (c.data + tail)[|c.data|..] == tail;
    }
    TerminatorTaken([]);
    assert [CR] + [] == [CR];
    TerminatorTaken([b]);
    assert line + c.data + [CR] + [b] == line + c.data + ([CR] + [b]);
  }

  lemma SizeLineHasEnd(size: Bytes, extension: Bytes)
    ensures |SizeLine(size, extension)| >= 2
  {
  }

  lemma TerminatorTaken(rest: Bytes)
    requires |rest| <= 1 && LF !in rest
    ensures var r := Consume(Tracker(ReadingDataCRLF, [], 0, 0, []), [CR] + rest).outcome;
            if rest == [] then r.More? else r.Malformed?
  {
    assert ([CR] + rest)[1..] == rest;
  }

  // ---------------------------------------------------------------- headers over the limit

  /**
   * A header that grows over the limit before its blank line comes is refused with a count of 0 for the
   * bytes of that call, although all of them are kept.
   */
  lemma OversizedHeaderIsKept(rules: Rules, header: Bytes, p: Bytes, r: Reply)
    requires p != [] && |header + p| > 0x10_0000 && forall i :: !At(header + p, CRLFCRLF, i)
    ensures Answers(rules, ConnState(header, 0, None), p, r)
       <==> r == Reply(0, HeaderTooLarge, ConnState(header + p, 0, None), [])
  {
    hide Run, At;
    RunCollects(rules, header, p);
    assert p[0..] == p && p[..|p|] == p;
    if Answers(rules, ConnState(header, 0, None), p, r) {
      OutcomeWithoutFailure(rules, ConnState(header, 0, None), p, r.n, r.err, r.state, r.sent);
    }
  }

  /** Up to the limit a header without its blank line is held, and all of it is counted. */
  lemma PartialHeaderIsHeld(rules: Rules, header: Bytes, p: Bytes, r: Reply)
    requires p != [] && |header + p| <= 0x10_0000 && forall i :: !At(header + p, CRLFCRLF, i)
    ensures Answers(rules, ConnState(header, 0, None), p, r)
       <==> r == Reply(|p|, NoError, ConnState(header + p, 0, None), [])
  {
    hide Run, At;
    RunCollects(rules, header, p);
    assert p[..|p|] == p;
    if Answers(rules, ConnState(header, 0, None), p, r) {
      OutcomeWithoutFailure(rules, ConnState(header, 0, None), p, r.n, r.err, r.state, r.sent);
    }
  }

  /** Such a header: one byte over the limit, and no blank line. */
  lemma OversizedHeaderExists(rules: Rules)
    ensures var p: Bytes := seq(0x10_0001, _ => 97);
            Answers(rules, IDLE, p, Reply(0, HeaderTooLarge, ConnState(p, 0, None), []))
  {
    hide Run, Answers;
    var p: Bytes := seq(0x10_0001, _ => 97);
    assert [] + p == p;
    forall i ensures !At([] + p, CRLFCRLF, i) {
      if 0 <= i <= |p| - 4 {
        assert p[i..i + 4][0] == 97;
      }
    }
    OversizedHeaderIsKept(rules, [], p, Reply(0, HeaderTooLarge, ConnState(p, 0, None), []));
  }

  lemma BodyRuns(rules: Rules, r: Request)
    requires IsRequest(rules, r)
    ensures var s := Framed(OrderHeader(rules, r.header).framing);
            && WellFormed(rules, s, BodyBytes(r.body))
            && Run(rules, s, BodyBytes(r.body)) == Some(Ran(IDLE, BodyBytes(r.body)))
  {
    hide Run, OrderHeader, Consume, IsBody, Encode, Announces, AnnouncesChunked, EndsAtTerminator;
    FramedAsAnnounced(rules, r);
    var s := Framed(OrderHeader(rules, r.header).framing);
    match r.body
    case Plain(bytes) =>
      RunBody(rules, s, bytes);
      forall k | 0 < k <= |bytes| ensures Accepts(rules, s, bytes[..k]) {
        RunBody(rules, s, bytes[..k]);
      }
    case Chunked(encoding) =>
      var wire := Encode(encoding);
      EncodingIsTakenExactly(encoding, []);
      assert wire + [] == wire && wire[..|wire|] == wire;
      RunChunked(rules, NEW_TRACKER, wire);
      forall k | 0 < k <= |wire| ensures Accepts(rules, s, wire[..k]) {
        if k < |wire| {
          RunChunked(rules, NEW_TRACKER, wire[..k]);
          assert wire[..k][..k] == wire[..k];
        }
      }
  }

  /**
   * For every list of requests and every way of cutting their bytes into writes, the wire carries the
   * same requests, each with its header block rewritten and its body untouched, and the wrapper is idle.
   */
  lemma {:induction false} PipelineIsRewritten(rules: Rules, requests: seq<Request>)
    requires forall r | r in requests :: IsRequest(rules, r)
    ensures WellFormed(rules, IDLE, Wire(requests))
    ensures Run(rules, IDLE, Wire(requests)) == Some(Ran(IDLE, Rewritten(rules, requests)))
    ensures forall pieces | Flatten(pieces) == Wire(requests) ::
              Deliver(rules, IDLE, pieces) == Some(Ran(IDLE, Rewritten(rules, requests)))
  {
    hide Run, OrderHeader, WellFormed, Deliver;
    if requests == [] {
      RunNothing(rules, IDLE);
      NothingIsWellFormed(rules);
    } else {
      assert requests[0] in requests && forall r | r in requests[1..] :: r in requests;
      PipelineIsRewritten(rules, requests[1..]);
      OneMoreRequest(rules, requests[0], Wire(requests[1..]), Rewritten(rules, requests[1..]));
    }
    SplitIndependence(rules, IDLE, Wire(requests));
  }

  lemma NothingIsWellFormed(rules: Rules)
    ensures WellFormed(rules, IDLE, [])
  {
  }

  lemma OneMoreRequest(rules: Rules, r: Request, wire: Bytes, sent: Bytes)
    requires IsRequest(rules, r)
    requires WellFormed(rules, IDLE, wire) && Run(rules, IDLE, wire) == Some(Ran(IDLE, sent))
    ensures WellFormed(rules, IDLE, r.header + BodyBytes(r.body) + wire)
    ensures Run(rules, IDLE, r.header + BodyBytes(r.body) + wire)
         == Some(Ran(IDLE, OrderHeader(rules, r.header).bytes + BodyBytes(r.body) + sent))
  {
    hide Run, OrderHeader, WellFormed, BodyBytes;
    var body := BodyBytes(r.body);
    HeaderRuns(rules, r.header);
    BodyRuns(rules, r);
    RunComposes(rules, IDLE, r.header, body);
    WellFormedAppend(rules, IDLE, r.header, body);
    RunComposes(rules, IDLE, r.header + body, wire);
    WellFormedAppend(rules, IDLE, r.header + body, wire);
  }

  // ---------------------------------------------------------------- wrapping twice

  /** After any stream, what was sent runs through a second wrapper unchanged, into the same state. */
  lemma {:induction false} WrappingTwiceIsWrappingOnce(rules: Rules, stream: Bytes)
    requires Run(rules, IDLE, stream).Some?
    ensures var once := Run(rules, IDLE, stream).value;
            Run(rules, IDLE, once.sent) == Some(Ran(once.state.(header := []), once.sent))
    decreases |stream|
  {
    hide Run, Step, Inv;
    if stream == [] {
      RunNothing(rules, IDLE);
    } else {
      var front, b := stream[..|stream| - 1], stream[|stream| - 1];
      assert stream == front + [b];
      RunComposes(rules, IDLE, front, [b]);
      WrappingTwiceIsWrappingOnce(rules, front);
      IdleHolds();
      RunKeepsInv(rules, IDLE, front);
      var once := Run(rules, IDLE, front).value;
      RunOne(rules, once.state, b);
      SecondWrapper(rules, once.state, b);
      RunComposes(rules, IDLE, once.sent, Step(rules, once.state, b).value.sent);
    }
  }

  lemma IdleHolds()
    ensures Inv(IDLE)
  {
  }

  lemma SecondWrapper(rules: Rules, s: ConnState, b: byte)
    requires Inv(s) && Step(rules, s, b).Some?
    ensures var first := Step(rules, s, b).value;
            Run(rules, s.(header := []), first.sent) == Some(Ran(first.state.(header := []), first.sent))
  {
    hide Run, OrderHeader;
    var first := Step(rules, s, b).value;
    if s.bodyRemaining > 0 || s.chunked.Some? {
      RunOne(rules, s, b);
      assert s.(header := []) == s;
    } else {
      var header := s.header + [b];
      HeaderGrows(s.header, b);
      if EndsWith(header, CRLFCRLF) {
        OrderHeaderPreservesMeaning(rules, header);
        var sent := OrderHeader(rules, header).bytes;
        assert [] + sent == sent;
        RunCompletes(rules, [], sent);
      } else {
        RunNothing(rules, IDLE);
      }
    }
  }
}
