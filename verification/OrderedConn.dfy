/** The header-reordering connection of internal/httpwire/ordered_conn.go. */
module OrderedConn {
  import opened ByteStrings
  import opened RequestHeader
  import opened ChunkedBody

  /** What the wrapper remembers between writes. */
  datatype ConnState = ConnState(header: Bytes, bodyRemaining: nat, chunked: Option<Tracker>)

  /** State and bytes put on the wire after some input. */
  datatype Ran = Ran(state: ConnState, sent: Bytes)

  const IDLE: ConnState := ConnState([], 0, None)

  ghost predicate Inv(s: ConnState) {
    && (forall i :: !At(s.header, CRLFCRLF, i))
    && (s.bodyRemaining > 0 ==> s.header == [] && s.chunked.None?)
    && (s.chunked.Some? ==> s.header == [] && s.chunked.value.Valid())
  }

  function Framed(framing: Framing): ConnState {
    if framing.chunked then ConnState([], 0, Some(NEW_TRACKER)) else ConnState([], framing.contentLength, None)
  }

  predicate HasTracker(s: ConnState) {
    s.chunked.Some? ==> s.chunked.value.Valid()
  }

  /** One byte of the stream; None when it breaks the chunked encoding. */
  function Step(rules: Rules, s: ConnState, b: byte): (r: Option<Ran>)
    requires HasTracker(s)
    ensures r.Some? ==> HasTracker(r.value.state)
  {
    if s.bodyRemaining > 0 then Some(Ran(s.(bodyRemaining := s.bodyRemaining - 1), [b]))
    else if s.chunked.Some? then
      var fed := Feed(s.chunked.value, b);
      match fed.outcome
      case Malformed => None
      case Completed => Some(Ran(s.(chunked := None), [b]))
      case More => Some(Ran(s.(chunked := Some(fed.tracker)), [b]))
    else
      var header := s.header + [b];
      if EndsWith(header, CRLFCRLF) then
        var ordered := OrderHeader(rules, header);
        Some(Ran(Framed(ordered.framing), ordered.bytes))
      else Some(Ran(s.(header := header), []))
  }

  /** A whole stream, one byte at a time: the meaning of the connection, free of write boundaries. */
  function Run(rules: Rules, s: ConnState, p: Bytes): (r: Option<Ran>)
    requires HasTracker(s)
    ensures r.Some? ==> HasTracker(r.value.state)
    decreases p
  {
    if p == [] then Some(Ran(s, []))
    else
      match Step(rules, s, p[0])
      case None => None
      case Some(first) =>
        match Run(rules, first.state, p[1..])
        case None => None
        case Some(rest) => Some(Ran(rest.state, first.sent + rest.sent))
  }

  function Then(first: Option<Ran>, rest: Option<Ran>): Option<Ran> {
    if first.None? || rest.None? then None else Some(Ran(rest.value.state, first.value.sent + rest.value.sent))
  }

  /** Resuming after any prefix gives what the uninterrupted stream gives. */
  lemma {:induction false} RunComposes(rules: Rules, s: ConnState, a: Bytes, b: Bytes)
    requires HasTracker(s)
    ensures var first := Run(rules, s, a);
            Run(rules, s, a + b) == if first.None? then None else Then(first, Run(rules, first.value.state, b))
    decreases a
  {
    if a == [] {
      assert a + b == b;
      assert Run(rules, s, b).Some? ==> [] + Run(rules, s, b).value.sent == Run(rules, s, b).value.sent;
    } else {
      assert (a + b)[1..] == a[1..] + b;
      var step := Step(rules, s, a[0]);
      if step.Some? {
        RunComposes(rules, step.value.state, a[1..], b);
        var tail := Run(rules, step.value.state, a[1..]);
        if tail.Some? && Run(rules, tail.value.state, b).Some? {
          var last := Run(rules, tail.value.state, b).value.sent;
          assert step.value.sent + (tail.value.sent + last) == step.value.sent + tail.value.sent + last;
        }
      }
    }
  }

  lemma InvHasTracker(s: ConnState)
    requires Inv(s)
    ensures HasTracker(s)
  {
  }

  lemma RunNothing(rules: Rules, s: ConnState)
    requires HasTracker(s)
    ensures Run(rules, s, []) == Some(Ran(s, []))
  {
  }

  lemma RunOne(rules: Rules, s: ConnState, b: byte)
    requires HasTracker(s)
    ensures Run(rules, s, [b]) == Step(rules, s, b)
  {
    var step := Step(rules, s, b);
    assert [b][1..] == [];
    if step.Some? {
      assert step.value.sent + [] == step.value.sent;
    }
  }

  lemma HeaderGrows(header: Bytes, b: byte)
    requires forall i :: !At(header, CRLFCRLF, i)
    ensures EndsWith(header + [b], CRLFCRLF) ==> EndsAtTerminator(header + [b])
    ensures !EndsWith(header + [b], CRLFCRLF) ==> forall i :: !At(header + [b], CRLFCRLF, i)
  {
    var longer := header + [b];
    forall i ensures At(longer, CRLFCRLF, i) <==> i == |longer| - 4 && EndsWith(longer, CRLFCRLF) {
      assert longer[..|header|] == header;
      AtInPrefix(longer, |header|, CRLFCRLF, i);
      if 0 <= i == |longer| - 4 {
        assert longer[i..i + 4] == longer[i..];
      }
    }
  }

  lemma StepKeepsInv(rules: Rules, s: ConnState, b: byte)
    requires Inv(s)
    ensures Step(rules, s, b).Some? ==> Inv(Step(rules, s, b).value.state)
  {
    if s.bodyRemaining == 0 && s.chunked.None? {
      HeaderGrows(s.header, b);
    }
  }

  lemma {:induction false} RunKeepsInv(rules: Rules, s: ConnState, p: Bytes)
    requires Inv(s)
    ensures Run(rules, s, p).Some? ==> Inv(Run(rules, s, p).value.state)
    decreases p
  {
    if p != [] {
      StepKeepsInv(rules, s, p[0]);
      var step := Step(rules, s, p[0]);
      if step.Some? {
        RunKeepsInv(rules, step.value.state, p[1..]);
      }
    }
  }

  /** Bytes sent and bytes held back always add up to bytes accepted. */
  lemma {:induction false} NothingLostOrAdded(rules: Rules, s: ConnState, p: Bytes)
    requires Inv(s) && Run(rules, s, p).Some?
    ensures var r := Run(rules, s, p).value; |r.sent| + |r.state.header| == |s.header| + |p|
    decreases p
  {
    if p != [] {
      StepKeepsInv(rules, s, p[0]);
      if s.bodyRemaining == 0 && s.chunked.None? {
        HeaderGrows(s.header, p[0]);
        if EndsWith(s.header + [p[0]], CRLFCRLF) {
          OrderHeaderPreservesMeaning(rules, s.header + [p[0]]);
        }
      }
      NothingLostOrAdded(rules, Step(rules, s, p[0]).value.state, p[1..]);
    }
  }

  // ---------------------------------------------------------------- segments of a stream

  lemma {:induction false} RunBody(rules: Rules, s: ConnState, body: Bytes)
    requires Inv(s) && |body| <= s.bodyRemaining
    ensures Run(rules, s, body) == Some(Ran(s.(bodyRemaining := s.bodyRemaining - |body|), body))
    decreases body
  {
    if body != [] {
      RunBody(rules, s.(bodyRemaining := s.bodyRemaining - 1), body[1..]);
      assert body == [body[0]] + body[1..];
    }
  }

  /** Inside a chunked body the connection forwards exactly what the tracker takes. */
  lemma {:induction false} RunChunked(rules: Rules, t: Tracker, p: Bytes)
    requires t.Valid()
    ensures var c := Consume(t, p);
            var s := ConnState([], 0, Some(t));
            var after := ConnState([], 0, if c.outcome.Completed? then None else Some(c.tracker));
            && (c.outcome.Malformed? ==> Run(rules, s, p).None?)
            && (!c.outcome.Malformed? ==> Run(rules, s, p[..c.count]) == Some(Ran(after, p[..c.count])))
    decreases p
  {
    hide Feed;
    if p != [] {
      var fed := Feed(t, p[0]);
      if fed.outcome.More? {
        RunChunked(rules, fed.tracker, p[1..]);
        var k := Consume(fed.tracker, p[1..]).count;
        assert Consume(t, p) == Later(1, Consume(fed.tracker, p[1..]));
        assert p[..k + 1][0] == p[0] && p[..k + 1][1..] == p[1..][..k];
        assert p[..k + 1] == [p[0]] + p[1..][..k];
      } else if fed.outcome.Completed? {
        assert p[..1] == [p[0]];
        RunOne(rules, ConnState([], 0, Some(t)), p[0]);
      }
    }
  }

  /** While a header is collected and its blank line has not come, nothing is sent. */
  lemma {:induction false} RunCollects(rules: Rules, header: Bytes, p: Bytes)
    requires forall i :: !At(header + p, CRLFCRLF, i)
    ensures Run(rules, ConnState(header, 0, None), p) == Some(Ran(ConnState(header + p, 0, None), []))
    decreases p
  {
    if p == [] {
      assert header + p == header;
    } else {
      var longer := header + [p[0]];
      assert longer + p[1..] == header + p;
      if |longer| >= 4 {
        assert (header + p)[|longer| - 4..|longer| - 4 + 4] == longer[|longer| - 4..];
        assert !At(header + p, CRLFCRLF, |longer| - 4);
      }
      RunCollects(rules, longer, p[1..]);
      var nothing: Bytes := [];
      assert nothing + nothing == nothing;
    }
  }

  /** The blank line sends the rewritten block. */
  lemma RunCompletes(rules: Rules, header: Bytes, p: Bytes)
    requires p != [] && EndsAtTerminator(header + p)
    ensures var block := header + p;
            && |block| >= 4
            && Run(rules, ConnState(header, 0, None), p[..|p| - 1])
            == Some(Ran(ConnState(block[..|block| - 1], 0, None), []))
            && Run(rules, ConnState(header, 0, None), p)
            == Some(Ran(Framed(OrderHeader(rules, block).framing), OrderHeader(rules, block).bytes))
  {
    hide OrderHeader, Run;
    var block, front := header + p, p[..|p| - 1];
    assert header + front == block[..|block| - 1];
    forall i ensures !At(header + front, CRLFCRLF, i) {
      AtInPrefix(block, |block| - 1, CRLFCRLF, i);
    }
    RunCollects(rules, header, front);
    assert p == front + [p[|p| - 1]];
    RunComposes(rules, ConnState(header, 0, None), front, [p[|p| - 1]]);
    RunOne(rules, ConnState(header + front, 0, None), p[|p| - 1]);
    assert header + front + [p[|p| - 1]] == block;
    assert block[|block| - 4..] == block[|block| - 4..|block| - 4 + 4];
    var nothing: Bytes := [];
    assert nothing + OrderHeader(rules, block).bytes == OrderHeader(rules, block).bytes;
  }

  // ---------------------------------------------------------------- the connection object

  /** An inner connection that may write short or fail whenever it likes. */
  class Conn {
    var wire: Bytes
    var failures: nat

    constructor ()
      ensures wire == [] && failures == 0
    {
      wire, failures := [], 0;
    }

    method Write(data: Bytes) returns (written: nat, failed: bool)
      modifies this
      ensures written <= |data| && wire == old(wire) + data[..written]
      ensures failures == old(failures) + if failed || (written == 0 && data != []) then 1 else 0
    {
      written :| written <= |data|;
      failed := *;
      wire := wire + data[..written];
      if failed || (written == 0 && data != []) {
        failures := failures + 1;
      }
    }
  }

  /** writeAll. */
  method WriteAll(writer: Conn, rest: Bytes) returns (total: nat, failed: bool)
    modifies writer
    ensures total <= |rest| && writer.wire == old(writer.wire) + rest[..total]
    ensures failed <==> writer.failures > old(writer.failures)
    ensures !failed ==> total == |rest| && writer.failures == old(writer.failures)
  {
    total := 0;
    var data := rest;
    while |data| > 0
      invariant total <= |rest| && data == rest[total..]
      invariant writer.wire == old(writer.wire) + rest[..total]
      invariant writer.failures == old(writer.failures)
    {
      var written, errWrite := writer.Write(data);
      assert rest[..total] + data[..written] == rest[..total + written];
      total := total + written;
      if errWrite || written == 0 {
        return total, true;
      }
      data := data[written..];
    }
    assert rest[..total] == rest;
    return total, false;
  }

  datatype WriteError = NoError | HeaderTooLarge | MalformedChunk | BodyWriteFailed | HeaderWriteFailed

  datatype HeaderStatus = Collecting | HeaderSent | HeaderFailed

  /** A write succeeds over a connection that does not fail exactly when this holds. */
  predicate Accepts(rules: Rules, s: ConnState, p: Bytes)
    requires HasTracker(s)
  {
    var r := Run(rules, s, p);
    r.Some? && (p == [] || |r.value.state.header| <= MAX_BUFFERED)
  }

  /** sent is what the stream emits before some header block, and then part of that block rewritten. */
  ghost predicate CutInHeader(rules: Rules, s: ConnState, p: Bytes, sent: Bytes)
    requires HasTracker(s)
  {
    exists k: nat | k < |p| ::
      && Run(rules, s, p[..k]).Some?
      && Run(rules, s, p[..k + 1]).Some?
      && Run(rules, s, p[..k]).value.state.bodyRemaining == 0
      && Run(rules, s, p[..k]).value.state.chunked.None?
      && Run(rules, s, p[..k]).value.sent <= sent <= Run(rules, s, p[..k + 1]).value.sent
  }

  /**
   * A write of p that answers n and err, moves the connection from s0 to s and puts sent on the wire.
   * Whatever the inner connection does, the bytes counted are the bytes forwarded: state and wire are
   * exactly those of the first n bytes of p. Only a header that is too large (the rest of p is held and
   * not counted) and a failure while a rewritten header is written (all of p is given up) count differently.
   */
  ghost predicate WriteOutcome(rules: Rules, s0: ConnState, p: Bytes, n: nat, err: WriteError, s: ConnState,
      sent: Bytes)
    requires HasTracker(s0)
  {
    n <= |p| &&
    match err
    case NoError =>
      n == |p| && Accepts(rules, s0, p) && Run(rules, s0, p) == Some(Ran(s, sent))
    case HeaderTooLarge =>
      && Run(rules, s0, p) == Some(Ran(s, sent)) && p != [] && |s.header| > MAX_BUFFERED
      && s.header == (if n == 0 then s0.header else []) + p[n..]
    case MalformedChunk =>
      && Run(rules, s0, p[..n]) == Some(Ran(s, sent)) && Run(rules, s0, p).None?
      && s.chunked.Some? && (n == 0 || s.chunked.value == NEW_TRACKER)
      && s.chunked.value.Valid() && Consume(s.chunked.value, p[n..]).outcome.Malformed?
    case BodyWriteFailed =>
      Run(rules, s0, p[..n]) == Some(Ran(s, sent))
    case HeaderWriteFailed =>
      n == |p| && s == IDLE && CutInHeader(rules, s0, p, sent)
  }

  /** Over a connection that does not fail, the result is decided by the stream alone. */
  lemma OutcomeWithoutFailure(rules: Rules, s0: ConnState, p: Bytes, n: nat, err: WriteError, s: ConnState, sent: Bytes)
    requires HasTracker(s0) && WriteOutcome(rules, s0, p, n, err, s, sent)
    requires !err.BodyWriteFailed? && !err.HeaderWriteFailed?
    ensures err.NoError? <==> Accepts(rules, s0, p)
    ensures err.MalformedChunk? <==> Run(rules, s0, p).None?
  {
  }

  /** orderedRequestConn. */
  class OrderedRequestConn {
    const rules: Rules
    const conn: Conn
    var header: Bytes
    var bodyRemaining: nat
    var chunked: ChunkedRequestTracker?

    ghost function State(): ConnState
      reads this, chunked
    {
      ConnState(header, bodyRemaining, if chunked == null then None else Some(chunked.View()))
    }

    ghost predicate Valid()
      reads this, chunked
    {
      Inv(State())
    }

    /** NewOrderedRequestConn. */
    constructor (conn: Conn, rules: Rules)
      ensures this.conn == conn && this.rules == rules && State() == IDLE && Valid()
    {
      this.conn, this.rules := conn, rules;
      header, bodyRemaining, chunked := [], 0, null;
    }

    /** The Content-Length case of Write. */
    method ForwardBody(remaining: Bytes) returns (written: nat, failed: bool)
      requires Valid() && bodyRemaining > 0 && remaining != []
      modifies this`bodyRemaining, conn
      ensures Valid() && written <= |remaining| && (failed || written > 0) && header == [] && chunked == null
      ensures Run(rules, old(State()), remaining[..written]) == Some(Ran(State(), remaining[..written]))
      ensures conn.wire == old(conn.wire) + remaining[..written]
      ensures failed <==> conn.failures > old(conn.failures)
      ensures !failed ==> conn.failures == old(conn.failures) && (written < |remaining| ==> bodyRemaining == 0)
    {
      hide Run;
      var bodyBytes := if |remaining| < bodyRemaining then |remaining| else bodyRemaining;
      written, failed := WriteAll(conn, remaining[..bodyBytes]);
      assert remaining[..bodyBytes][..written] == remaining[..written];
      RunBody(rules, State(), remaining[..written]);
      bodyRemaining := bodyRemaining - written;
    }

    /** The chunked case of Write: preview, write, then commit what was written. */
    method ForwardChunked(remaining: Bytes) returns (written: nat, failed: bool, errChunk: bool)
      requires Valid() && chunked != null && remaining != []
      modifies this`chunked, conn, chunked
      ensures Valid() && (chunked == null || chunked == old(chunked)) && written <= |remaining| && header == []
      ensures errChunk <==> Consume(old(State()).chunked.value, remaining).outcome.Malformed?
      ensures errChunk ==> State() == old(State()) && conn.wire == old(conn.wire) && conn.failures == old(conn.failures)
      ensures errChunk ==> Run(rules, old(State()), remaining).None?
      ensures !errChunk ==> Run(rules, old(State()), remaining[..written]) == Some(Ran(State(), remaining[..written]))
      ensures !errChunk ==> conn.wire == old(conn.wire) + remaining[..written]
      ensures !errChunk ==> (failed <==> conn.failures > old(conn.failures))
      ensures !errChunk && !failed ==> written > 0 && conn.failures == old(conn.failures)
      ensures !errChunk && !failed && written < |remaining| ==> chunked == null
    {
      hide Run, Consume, Feed;
      ghost var t := chunked.View();
      var preview := chunked.Clone();
      var chunkBytes, _, previewFailed := preview.ConsumeBytes(remaining);
      RunChunked(rules, t, remaining);
      errChunk := previewFailed;
      if errChunk {
        return 0, false, true;
      }
      written, failed := WriteAll(conn, remaining[..chunkBytes]);
      assert remaining[..chunkBytes][..written] == remaining[..written];
      TakenPart(t, remaining, written);
      var _, completed, errConsume := chunked.ConsumeBytes(remaining[..written]);
      RunChunked(rules, t, remaining[..written]);
      assert !errConsume;
      assert remaining[..written][..written] == remaining[..written];
      if completed {
        chunked := null;
      }
    }

    /** The header case of Write: collect, and once the blank line is there rewrite and send. */
    method ForwardHeader(remaining: Bytes) returns (taken: nat, status: HeaderStatus)
      requires Valid() && bodyRemaining == 0 && chunked == null && remaining != []
      modifies this`header, this`bodyRemaining, this`chunked, conn
      ensures Valid() && (chunked == null || fresh(chunked)) && taken <= |remaining|
      ensures old(conn.wire) <= conn.wire && |old(conn.wire)| <= |conn.wire|
      ensures status.Collecting? ==> conn.wire == old(conn.wire) && header == old(header) + remaining
      ensures status.Collecting? ==> Run(rules, old(State()), remaining) == Some(Ran(State(), []))
      ensures status.HeaderSent? ==> taken > 0 && header == [] && (chunked == null || chunked.View() == NEW_TRACKER)
      ensures status.HeaderSent? ==>
        Run(rules, old(State()), remaining[..taken]) == Some(Ran(State(), conn.wire[|old(conn.wire)|..]))
      ensures status.HeaderFailed? ==>
        State() == IDLE && BlockIn(rules, old(State()), remaining, taken, conn.wire[|old(conn.wire)|..])
      ensures status.HeaderFailed? <==> conn.failures > old(conn.failures)
      ensures !status.HeaderFailed? ==> conn.failures == old(conn.failures)
    {
      hide Run, OrderHeader, IndexOf;
      ghost var before := header;
      var previousHeaderLength := |header|;
      header := header + remaining;
      var headerEnd := IndexOf(header, CRLFCRLF);
      if headerEnd < 0 {
        RunCollects(rules, before, remaining);
        return |remaining|, Collecting;
      }
      headerEnd := headerEnd + |CRLFCRLF|;
      BlockIsNew(before, remaining, headerEnd);
      var block := header[..headerEnd];
      header := [];
      taken := headerEnd - previousHeaderLength;
      RunCompletes(rules, before, remaining[..taken]);
      assert remaining[..taken][..taken - 1] == remaining[..taken - 1];
      var ordered, framing := OrderRequestHeader(rules, block);
      var total, errWrite := WriteAll(conn, ordered);
      assert conn.wire[|old(conn.wire)|..] == ordered[..total];
      if errWrite {
        return taken, HeaderFailed;
      }
      if framing.chunked {
        chunked := new ChunkedRequestTracker();
      } else {
        bodyRemaining := framing.contentLength;
      }
      assert ordered[..total] == ordered;
      return taken, HeaderSent;
    }

    /** One round of the loop of Write. */
    method ForwardSegment(remaining: Bytes) returns (taken: nat, progress: Progress)
      requires Valid() && remaining != []
      modifies this`header, this`bodyRemaining, this`chunked, conn, chunked
      ensures Valid() && (chunked == null || chunked == old(chunked) || fresh(chunked)) && taken <= |remaining|
      ensures |old(conn.wire)| <= |conn.wire| && old(conn.wire) <= conn.wire
      ensures SegmentDone(rules, old(State()), remaining, taken, progress, State(), conn.wire[|old(conn.wire)|..])
      ensures (conn.failures > old(conn.failures) <==> progress.BodyCut? || progress.HeaderCut?)
      ensures conn.failures >= old(conn.failures)
    {
      hide Run, Consume, Inv, BlockIn;
      InvHasTracker(State());
      ghost var before := conn.wire;
      if bodyRemaining > 0 {
        var written, failed := ForwardBody(remaining);
        assert conn.wire[|before|..] == remaining[..written];
        return written, if failed then BodyCut else Onward;
      }
      if chunked != null {
        var written, failed, errChunk := ForwardChunked(remaining);
        if errChunk {
          return 0, Broken;
        }
        assert conn.wire[|before|..] == remaining[..written];
        return written, if failed then BodyCut else Onward;
      }
      var headerBytes, status := ForwardHeader(remaining);
      match status
      case Collecting =>
        assert remaining[..|remaining|] == remaining;
        return |remaining|, Held;
      case HeaderFailed =>
        return headerBytes, HeaderCut;
      case HeaderSent =>
        return headerBytes, Onward;
    }

    /** Write; see WriteOutcome for what each result means. */
    method Write(p: Bytes) returns (n: nat, err: WriteError)
      requires Valid()
      modifies this`header, this`bodyRemaining, this`chunked, conn, chunked
      ensures Valid() && |old(conn.wire)| <= |conn.wire| && old(conn.wire) <= conn.wire
      ensures WriteOutcome(rules, old(State()), p, n, err, State(), conn.wire[|old(conn.wire)|..])
      ensures conn.failures == old(conn.failures) <==> !err.BodyWriteFailed? && !err.HeaderWriteFailed?
    {
      hide Inv, SoFar, WriteOutcome, SegmentDone;
      ghost var s0, w0 := State(), conn.wire;
      InvHasTracker(s0);
      Begin(rules, s0, p);
      assert conn.wire[|w0|..] == [];
      var consumed: nat := 0;
      var remaining := p;
      while |remaining| > 0
        invariant Valid() && consumed <= |p| && remaining == p[consumed..]
        invariant chunked == null || chunked == old(chunked) || fresh(chunked)
        invariant |w0| <= |conn.wire| && w0 <= conn.wire && conn.failures == old(conn.failures)
        invariant SoFar(rules, s0, p, consumed, State(), conn.wire[|w0|..])
        decreases |remaining|
      {
        ghost var s, w := State(), conn.wire;
        InvHasTracker(s);
        var taken, progress := ForwardSegment(remaining);
        assert conn.wire[|w0|..] == w[|w0|..] + conn.wire[|w|..];
        Extend(rules, s0, p, consumed, s, w[|w0|..], taken, progress, State(), conn.wire[|w|..]);
        match progress
        case BodyCut =>
          return consumed + taken, BodyWriteFailed;
        case HeaderCut =>
          return |p|, HeaderWriteFailed;
        case Broken =>
          return consumed, MalformedChunk;
        case Held =>
          if |header| > MAX_BUFFERED {
            return consumed, HeaderTooLarge;
          }
          return |p|, NoError;
        case Onward =>
          consumed := consumed + taken;
          remaining := remaining[taken..];
      }
      EndAll(rules, s0, p, State(), conn.wire[|w0|..]);
      return |p|, NoError;
    }
  }

  /** What a write has done after consuming the first bytes of p. */
  ghost predicate SoFar(rules: Rules, s0: ConnState, p: Bytes, consumed: nat, s: ConnState, sent: Bytes) {
    && HasTracker(s0) && HasTracker(s) && consumed <= |p|
    && Run(rules, s0, p[..consumed]) == Some(Ran(s, sent))
    && (consumed == 0 || s.header == [])
    && (consumed < |p| && s.chunked.Some? ==> consumed == 0 || s.chunked.value == NEW_TRACKER)
  }

  lemma Begin(rules: Rules, s0: ConnState, p: Bytes)
    requires HasTracker(s0)
    ensures SoFar(rules, s0, p, 0, s0, [])
  {
  }

  /** One more segment of the stream, or the end of the write. */
  lemma Extend(rules: Rules, s0: ConnState, p: Bytes, consumed: nat, s: ConnState, sent: Bytes,
               taken: nat, progress: Progress, after: ConnState, part: Bytes)
    requires HasTracker(s0) && HasTracker(s) && consumed < |p| && taken <= |p| - consumed
    requires SoFar(rules, s0, p, consumed, s, sent)
    requires SegmentDone(rules, s, p[consumed..], taken, progress, after, part)
    ensures progress.Onward? ==> taken > 0 && SoFar(rules, s0, p, consumed + taken, after, sent + part)
    ensures progress.BodyCut? ==> WriteOutcome(rules, s0, p, consumed + taken, BodyWriteFailed, after, sent + part)
    ensures progress.HeaderCut? ==> WriteOutcome(rules, s0, p, |p|, HeaderWriteFailed, after, sent + part)
    ensures progress.Broken? ==> WriteOutcome(rules, s0, p, consumed, MalformedChunk, after, sent + part)
    ensures progress.Held? && |after.header| > MAX_BUFFERED ==>
              WriteOutcome(rules, s0, p, consumed, HeaderTooLarge, after, sent + part)
    ensures progress.Held? && |after.header| <= MAX_BUFFERED ==>
              WriteOutcome(rules, s0, p, |p|, NoError, after, sent + part)
  {
    hide Run, Consume;
    var rest := p[consumed..];
    assert p[..consumed] + rest == p;
    RunComposes(rules, s0, p[..consumed], rest);
    Advance(rules, s0, p, consumed, taken);
    if progress.HeaderCut? {
      Advance(rules, s0, p, consumed, taken - 1);
    } else if progress.Held? {
      assert p[..consumed + taken] == p;
      RunNothing(rules, s0);
      assert p[..0] == [];
    } else if progress.Broken? {
      assert sent + part == sent;
    }
  }

  lemma Advance(rules: Rules, s0: ConnState, p: Bytes, consumed: nat, count: nat)
    requires HasTracker(s0) && consumed + count <= |p|
    ensures var first := Run(rules, s0, p[..consumed]);
            Run(rules, s0, p[..consumed + count]) ==
              if first.None? then None else Then(first, Run(rules, first.value.state, p[consumed..][..count]))
  {
    hide Run;
    RunComposes(rules, s0, p[..consumed], p[consumed..][..count]);
    assert p[..consumed] + p[consumed..][..count] == p[..consumed + count];
  }

  lemma EndAll(rules: Rules, s0: ConnState, p: Bytes, s: ConnState, sent: Bytes)
    requires HasTracker(s0) && SoFar(rules, s0, p, |p|, s, sent)
    ensures WriteOutcome(rules, s0, p, |p|, NoError, s, sent)
  {
    hide Run;
    assert p[..|p|] == p;
  }

  /** A header block that is complete after the first count bytes of rest, and the bytes it becomes. */
  ghost predicate BlockIn(rules: Rules, s: ConnState, rest: Bytes, count: nat, part: Bytes)
    requires HasTracker(s)
  {
    && 0 < count <= |rest|
    && Run(rules, s, rest[..count]).Some?
    && part <= Run(rules, s, rest[..count]).value.sent
    && var almost := Run(rules, s, rest[..count - 1]);
       && almost.Some? && almost.value.sent == []
       && almost.value.state.bodyRemaining == 0 && almost.value.state.chunked.None?
  }

  /** How one round of the loop of Write ends: on to the next, or out of the loop. */
  datatype Progress = Onward | Held | Broken | BodyCut | HeaderCut

  ghost predicate SegmentDone(rules: Rules, s: ConnState, rest: Bytes, taken: nat, progress: Progress,
      after: ConnState, part: Bytes)
    requires HasTracker(s)
  {
    taken <= |rest| &&
    match progress
    case Onward =>
      && taken > 0 && Run(rules, s, rest[..taken]) == Some(Ran(after, part))
      && after.header == [] && (taken < |rest| && after.chunked.Some? ==> after.chunked.value == NEW_TRACKER)
    case Held =>
      taken == |rest| && rest != [] && part == [] && Run(rules, s, rest) == Some(Ran(after, []))
      && after.header == s.header + rest
    case Broken =>
      && after == s && part == [] && s.chunked.Some?
      && Consume(s.chunked.value, rest).outcome.Malformed? && Run(rules, s, rest).None?
    case BodyCut =>
      Run(rules, s, rest[..taken]) == Some(Ran(after, part))
    case HeaderCut =>
      after == IDLE && BlockIn(rules, s, rest, taken, part)
  }

  /** The commit consumes without error whatever part of the previewed bytes went out. */
  lemma TakenPart(t: Tracker, data: Bytes, written: nat)
    requires t.Valid() && !Consume(t, data).outcome.Malformed? && written <= Consume(t, data).count
    ensures !Consume(t, data[..written]).outcome.Malformed? && Consume(t, data[..written]).count == written
    ensures written == Consume(t, data).count ==> Consume(t, data[..written]) == Consume(t, data)
  {
    hide Feed, Consume;
    assert data == data[..written] + data[written..];
    ConsumeComposes(t, data[..written], data[written..]);
    if Consume(t, data[..written]).outcome.More? && written == Consume(t, data).count {
      assert data[written..] == [];
      assert data[..written] == data;
    }
  }

  /** A blank line found after appending ends in the appended bytes, and it is the first. */
  lemma BlockIsNew(header: Bytes, more: Bytes, end: nat)
    requires forall i :: !At(header, CRLFCRLF, i)
    requires 4 <= end <= |header + more| && At(header + more, CRLFCRLF, end - 4)
    requires forall i | 0 <= i < end - 4 :: !At(header + more, CRLFCRLF, i)
    ensures end > |header|
    ensures (header + more)[..end] == header + more[..end - |header|]
    ensures (header + more)[end..] == more[end - |header|..]
    ensures EndsAtTerminator(header + more[..end - |header|])
  {
    hide At;
    var whole := header + more;
    var block := whole[..end];
    assert whole[..|header|] == header;
    AtInPrefix(whole, |header|, CRLFCRLF, end - 4);
    assert end > |header|;
    assert block == header + more[..end - |header|];
    forall i | 0 <= i <= end - 4 ensures At(block, CRLFCRLF, i) <==> At(whole, CRLFCRLF, i) {
      AtInPrefix(whole, end, CRLFCRLF, i);
    }
  }
}
