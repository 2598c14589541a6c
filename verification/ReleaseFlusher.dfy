/** The cumulative release flusher: internal/home/concurrency_release.go. One step is one critical section. */
module ReleaseFlusher {
  import opened ByteStrings

  datatype Group = Group(credential: string, model: string)

  /** A ticket's channel; every ticket gets its own. */
  type Ticket = nat

  datatype Release = Release(latest: int, acked: int, waiters: map<int, seq<Ticket>>)

  datatype Frame = Frame(group: Group, sequence: int, accepted: bool)

  datatype Mark = Mark(group: Group, sequence: int)

  /**
   * groups is the flusher's map; pending is what the flush under way has still to send. The rest is history:
   * the frames sent, the ticket of each mark, and the tickets whose channel is closed.
   */
  datatype State = State(
    groups: map<Group, Release>,
    pending: map<Group, int>,
    frames: seq<Frame>,
    issued: map<Ticket, Mark>,
    closed: set<Ticket>)

  const START := State(map[], map[], [], map[], {})

  function StateOf(groups: map<Group, Release>, g: Group): Release {
    if g in groups then groups[g] else Release(0, 0, map[])
  }

  function Waiting(r: Release, sequence: int): seq<Ticket> {
    if sequence in r.waiters then r.waiters[sequence] else []
  }

  /** Is this mark one that MarkDirty takes? */
  predicate IsMark(g: Group, sequence: int) {
    sequence > 0 && g.credential != "" && g.model != ""
  }

  /** MarkDirty with a new ticket. */
  function Marked(s: State, g: Group, sequence: int, t: Ticket): State {
    if !IsMark(g, sequence) then s
    else
      var r := StateOf(s.groups, g);
      var issued := s.issued[t := Mark(g, sequence)];
      if sequence <= r.acked then s.(issued := issued, closed := s.closed + {t})
      else
        var waiters := r.waiters[sequence := Waiting(r, sequence) + [t]];
        s.(issued := issued,
           groups := s.groups[g := Release(if sequence > r.latest then sequence else r.latest, r.acked, waiters)])
  }

  /** The first critical section of flush: what is dirty, when there is a sender. */
  function Begun(s: State, hasSender: bool): State {
    s.(pending := if hasSender
                  then map g | g in s.groups && s.groups[g].latest > s.groups[g].acked :: s.groups[g].latest
                  else map[])
  }

  /** The tickets of a release that an acknowledgement of sequence completes. */
  function Covered(r: Release, sequence: int): set<Ticket> {
    set q, i | q in r.waiters && q <= sequence && 0 <= i < |r.waiters[q]| :: r.waiters[q][i]
  }

  function Acknowledged(r: Release, sequence: int): Release {
    if sequence > r.acked
    then Release(r.latest, sequence, map q | q in r.waiters && q > sequence :: r.waiters[q])
    else r
  }

  /** The frame of one pending group was sent; on success its second critical section ran. */
  function Sent(s: State, g: Group, ok: bool): State
    requires g in s.pending
  {
    var sequence := s.pending[g];
    var sent := s.(pending := s.pending - {g}, frames := s.frames + [Frame(g, sequence, ok)]);
    var r := StateOf(s.groups, g);
    if !ok then sent
    else sent.(groups := s.groups[g := Acknowledged(r, sequence)],
               closed := s.closed + if sequence > r.acked then Covered(r, sequence) else {})
  }

  /** idle */
  predicate IsIdle(s: State) {
    forall g | g in s.groups :: s.groups[g].latest <= s.groups[g].acked
  }

  // ---- the invariant ------------------------------------------------------------------------------------

  /** 0 <= Acked <= Latest, and every waiter lies in (Acked, Latest]. */
  ghost predicate ReleaseOk(r: Release) {
    && 0 <= r.acked <= r.latest
    && (forall q | q in r.waiters :: r.acked < q <= r.latest && r.waiters[q] != [])
  }

  /** Some accepted frame of the group reaches the sequence. */
  ghost predicate AcceptedUpTo(frames: seq<Frame>, g: Group, sequence: int) {
    exists i | 0 <= i < |frames| :: frames[i].group == g && frames[i].accepted && frames[i].sequence >= sequence
  }

  ghost predicate GroupsOk(s: State) {
    && (forall g | g in s.groups :: ReleaseOk(s.groups[g]))
    && (forall g | g in s.groups && s.groups[g].acked > 0 :: AcceptedUpTo(s.frames, g, s.groups[g].acked))
    && (forall g | g in s.pending :: g in s.groups && s.groups[g].acked < s.pending[g] <= s.groups[g].latest)
  }

  /** A ticket waits at one place, its mark's; and what waits is an issued ticket that is not closed. */
  ghost predicate WaitersOk(s: State) {
    forall g, q, i | g in s.groups && q in s.groups[g].waiters && 0 <= i < |s.groups[g].waiters[q]| ::
      var t := s.groups[g].waiters[q][i];
      && t in s.issued
      && t !in s.closed
      && s.issued[t] == Mark(g, q)
      && (forall j | 0 <= j < i :: s.groups[g].waiters[q][j] != t)
  }

  /** A ticket is closed exactly when the acknowledgement has reached its mark; until then it waits. */
  ghost predicate TicketsOk(s: State) {
    && s.closed <= s.issued.Keys
    && (forall t | t in s.issued :: IsMark(s.issued[t].group, s.issued[t].sequence))
    && (forall t | t in s.issued ::
          t in s.closed <==> s.issued[t].sequence <= StateOf(s.groups, s.issued[t].group).acked)
    && (forall t | t in s.issued && t !in s.closed ::
          t in Waiting(StateOf(s.groups, s.issued[t].group), s.issued[t].sequence))
  }

  /** The frames of one group never go back, and what is pending is not behind them. */
  ghost predicate FramesOk(s: State) {
    && (forall i, j | 0 <= i < j < |s.frames| && s.frames[i].group == s.frames[j].group ::
          s.frames[i].sequence <= s.frames[j].sequence)
    && (forall i | 0 <= i < |s.frames| :: s.frames[i].sequence <= StateOf(s.groups, s.frames[i].group).latest)
    && (forall i | 0 <= i < |s.frames| && s.frames[i].group in s.pending ::
          s.frames[i].sequence <= s.pending[s.frames[i].group])
  }

  ghost predicate Inv(s: State) {
    GroupsOk(s) && WaitersOk(s) && TicketsOk(s) && FramesOk(s)
  }

  datatype Event =
    | MarkDirty(group: Group, sequence: int, ticket: Ticket)
    | Begin(hasSender: bool)
    | Send(group: Group, ok: bool)

  /** One flush at a time; tickets are new. */
  ghost predicate Enabled(s: State, e: Event) {
    match e
    case MarkDirty(_, _, t) => t !in s.issued
    case Begin(_) => s.pending == map[]
    case Send(g, _) => g in s.pending
  }

  function Next(s: State, e: Event): State
    requires Enabled(s, e)
  {
    match e
    case MarkDirty(g, q, t) => Marked(s, g, q, t)
    case Begin(hasSender) => Begun(s, hasSender)
    case Send(g, ok) => Sent(s, g, ok)
  }

  lemma AcceptedGrows(frames: seq<Frame>, f: Frame)
    ensures forall g, q | AcceptedUpTo(frames, g, q) :: AcceptedUpTo(frames + [f], g, q)
    ensures f.accepted ==> AcceptedUpTo(frames + [f], f.group, f.sequence)
  {
    var more := frames + [f];
    forall g, q | AcceptedUpTo(frames, g, q) ensures AcceptedUpTo(more, g, q) {
      var i :| 0 <= i < |frames| && frames[i].group == g && frames[i].accepted && frames[i].sequence >= q;
      assert more[i] == frames[i];
    }
    assert more[|frames|] == f;
  }

  /**
   * What a mark leaves, by its sequence and names alone: none is lost, and none is taken that has no
   * sequence, credential or model.
   */
  lemma MarkIs(s: State, g: Group, q: int, t: Ticket)
    requires Inv(s) && t !in s.issued
    ensures var after := Marked(s, g, q, t);
            var acked := if g in s.groups then s.groups[g].acked else 0;
            if q > 0 && g.credential != "" && g.model != ""
            then
              && after.issued == s.issued[t := Mark(g, q)]
              && (if q <= acked then t in after.closed && after.groups == s.groups
                  else
                    && t !in after.closed && g in after.groups && after.groups - {g} == s.groups - {g}
                    && after.groups[g].acked == acked < q <= after.groups[g].latest
                    && (after.groups[g].latest == q
                        || (g in s.groups && after.groups[g].latest == s.groups[g].latest))
                    && q in after.groups[g].waiters && t in after.groups[g].waiters[q])
            else after == s
  {
    hide GroupsOk, WaitersOk, FramesOk;
    assert t !in s.closed;
    var r := StateOf(s.groups, g);
    if q > r.acked {
      var more := Waiting(r, q) + [t];
      assert more[|more| - 1] == t;
    }
  }

  lemma MarkedKeepsInv(s: State, g: Group, q: int, t: Ticket)
    requires Inv(s) && t !in s.issued
    ensures Inv(Marked(s, g, q, t))
  {
    if IsMark(g, q) && q > StateOf(s.groups, g).acked {
      WaitingKeepsGroups(s, g, q, t);
      WaitingKeepsWaiters(s, g, q, t);
      WaitingKeepsTickets(s, g, q, t);
    } else {
      ClosedAtOnce(s, g, q, t);
    }
  }

  /** A mark that is already acknowledged: its ticket is closed on the spot. */
  lemma ClosedAtOnce(s: State, g: Group, q: int, t: Ticket)
    requires Inv(s) && t !in s.issued && (IsMark(g, q) ==> q <= StateOf(s.groups, g).acked)
    ensures Inv(Marked(s, g, q, t))
  {
    hide AcceptedUpTo, ReleaseOk;
    var s' := Marked(s, g, q, t);
    assert GroupsOk(s');
    assert WaitersOk(s');
    assert TicketsOk(s');
  }

  lemma WaitingKeepsGroups(s: State, g: Group, q: int, t: Ticket)
    requires GroupsOk(s) && FramesOk(s) && IsMark(g, q) && q > StateOf(s.groups, g).acked
    ensures GroupsOk(Marked(s, g, q, t)) && FramesOk(Marked(s, g, q, t))
  {
    hide AcceptedUpTo;
  }

  lemma WaitingKeepsWaiters(s: State, g: Group, q: int, t: Ticket)
    requires WaitersOk(s) && t !in s.issued && t !in s.closed && IsMark(g, q) && q > StateOf(s.groups, g).acked
    ensures WaitersOk(Marked(s, g, q, t))
  {
  }

  lemma WaitingKeepsTickets(s: State, g: Group, q: int, t: Ticket)
    requires TicketsOk(s) && t !in s.issued && IsMark(g, q) && q > StateOf(s.groups, g).acked
    ensures TicketsOk(Marked(s, g, q, t))
  {
    WaitersGrow(s, g, q, t);
    hide StateOf, Waiting;
    var s' := Marked(s, g, q, t);
    assert forall x | x in s'.issued :: x == t || (x in s.issued && s'.issued[x] == s.issued[x]);
  }

  lemma WaitersGrow(s: State, g: Group, q: int, t: Ticket)
    requires IsMark(g, q) && q > StateOf(s.groups, g).acked
    ensures Marked(s, g, q, t) == s.(issued := s.issued[t := Mark(g, q)], groups := Marked(s, g, q, t).groups)
    ensures forall h :: StateOf(Marked(s, g, q, t).groups, h).acked == StateOf(s.groups, h).acked
    ensures forall h, p, x | x in Waiting(StateOf(s.groups, h), p) ::
              x in Waiting(StateOf(Marked(s, g, q, t).groups, h), p)
    ensures t in Waiting(StateOf(Marked(s, g, q, t).groups, g), q)
  {
  }

  lemma BegunKeepsInv(s: State, hasSender: bool)
    requires Inv(s) && s.pending == map[]
    ensures Inv(Begun(s, hasSender))
  {
    hide AcceptedUpTo;
    var s' := Begun(s, hasSender);
    assert GroupsOk(s');
    assert WaitersOk(s');
    assert TicketsOk(s');
    assert FramesOk(s');
  }

  lemma SentKeepsInv(s: State, g: Group, ok: bool)
    requires Inv(s) && g in s.pending
    ensures Inv(Sent(s, g, ok))
  {
    hide AcceptedUpTo, WaitersOk, TicketsOk, FramesOk;
    AcceptedGrows(s.frames, Frame(g, s.pending[g], ok));
    SentKeepsWaiters(s, g, ok);
    SentKeepsTickets(s, g, ok);
    SentKeepsFrames(s, g, ok);
  }

  lemma SentKeepsWaiters(s: State, g: Group, ok: bool)
    requires WaitersOk(s) && g in s.pending
    ensures WaitersOk(Sent(s, g, ok))
  {
  }

  lemma SentKeepsTickets(s: State, g: Group, ok: bool)
    requires WaitersOk(s) && TicketsOk(s) && g in s.pending && g in s.groups
    ensures TicketsOk(Sent(s, g, ok))
  {
  }

  lemma SentKeepsFrames(s: State, g: Group, ok: bool)
    requires FramesOk(s) && g in s.pending && g in s.groups && s.pending[g] <= s.groups[g].latest
    ensures FramesOk(Sent(s, g, ok))
  {
  }

  // ---- runs ---------------------------------------------------------------------------------------------

  ghost predicate Possible(s: State, events: seq<Event>)
    decreases |events|
  {
    events == [] || (Enabled(s, events[0]) && Possible(Next(s, events[0]), events[1..]))
  }

  function Run(s: State, events: seq<Event>): State
    requires Possible(s, events)
    decreases |events|
  {
    if events == [] then s else Run(Next(s, events[0]), events[1..])
  }

  lemma NextKeepsInv(s: State, e: Event)
    requires Inv(s) && Enabled(s, e)
    ensures Inv(Next(s, e))
  {
    hide Inv, Marked, Begun, Sent;
    match e
    case MarkDirty(g, q, t) => MarkedKeepsInv(s, g, q, t);
    case Begin(hasSender) => BegunKeepsInv(s, hasSender);
    case Send(g, ok) => SentKeepsInv(s, g, ok);
  }

  /** In every state marks, snapshots, sends and acknowledgements lead to, however interleaved. */
  lemma {:induction false} RunKeepsInv(s: State, events: seq<Event>)
    requires Inv(s) && Possible(s, events)
    ensures Inv(Run(s, events))
    decreases |events|
  {
    hide Inv, Next, Enabled;
    if events != [] {
      NextKeepsInv(s, events[0]);
      RunKeepsInv(Next(s, events[0]), events[1..]);
    }
  }

  lemma StartIsOk()
    ensures Inv(START)
  {
  }

  /** A ticket is closed only after a frame for its group that reaches its mark was accepted. */
  lemma ClosedAfterAccepted(s: State, t: Ticket)
    requires Inv(s) && t in s.closed
    ensures AcceptedUpTo(s.frames, s.issued[t].group, s.issued[t].sequence)
  {
    var g := s.issued[t].group;
    assert g in s.groups && s.groups[g].acked >= s.issued[t].sequence > 0;
    var i :| 0 <= i < |s.frames| && s.frames[i].group == g && s.frames[i].accepted
        && s.frames[i].sequence >= s.groups[g].acked;
    assert s.frames[i].sequence >= s.issued[t].sequence;
  }

  ghost predicate NoTicketTwice(waiters: map<int, seq<Ticket>>) {
    forall p, q, i, j | p in waiters && q in waiters && 0 <= i < |waiters[p]| && 0 <= j < |waiters[q]|
      && waiters[p][i] == waiters[q][j] :: p == q && i == j
  }

  /** An acknowledgement closes no channel that is closed, and none twice. */
  lemma ClosesOnce(s: State, g: Group)
    requires Inv(s) && g in s.pending
    ensures Covered(StateOf(s.groups, g), s.pending[g]) !! s.closed
    ensures NoTicketTwice(StateOf(s.groups, g).waiters)
  {
  }

  ghost predicate WithinOneFlush(events: seq<Event>) {
    forall i | 0 <= i < |events| :: !events[i].Begin?
  }

  /** What the flush under way can still acknowledge of a group. */
  function Reach(s: State, g: Group): int {
    if g in s.pending then s.pending[g] else StateOf(s.groups, g).acked
  }

  lemma StepWithinFlush(s: State, e: Event, g: Group)
    requires Inv(s) && Enabled(s, e) && !e.Begin?
    ensures Reach(Next(s, e), g) <= Reach(s, g)
    ensures StateOf(s.groups, g).latest <= StateOf(Next(s, e).groups, g).latest
    ensures e.MarkDirty? && e.group == g && e.sequence > 0 && g.credential != "" && g.model != "" ==>
              e.sequence <= StateOf(Next(s, e).groups, g).latest
  {
    hide WaitersOk, TicketsOk, FramesOk, AcceptedUpTo;
  }

  /**
   * Nothing marked while a flush is under way is lost: whatever else happens before the next flush starts,
   * a mark beyond what the flush took down leaves its group dirty.
   */
  lemma {:induction false} NoLostRelease(s: State, events: seq<Event>, g: Group, k: nat)
    requires Inv(s) && Possible(s, events) && WithinOneFlush(events)
    requires k < |events| && events[k].MarkDirty? && events[k].group == g
    requires g.credential != "" && g.model != "" && events[k].sequence > 0 && events[k].sequence > Reach(s, g)
    ensures var r := StateOf(Run(s, events).groups, g);
            r.acked <= Reach(s, g) < events[k].sequence <= r.latest && !IsIdle(Run(s, events))
    decreases |events|
  {
    hide Inv, Next, Enabled, Reach;
    NextKeepsInv(s, events[0]);
    StepWithinFlush(s, events[0], g);
    var s' := Next(s, events[0]);
    if k > 0 {
      NoLostRelease(s', events[1..], g, k - 1);
    } else {
      StaysReached(s', events[1..], g);
    }
  }

  lemma {:induction false} StaysReached(s: State, events: seq<Event>, g: Group)
    requires Inv(s) && Possible(s, events) && WithinOneFlush(events)
    ensures StateOf(Run(s, events).groups, g).acked <= Reach(s, g)
    ensures StateOf(s.groups, g).latest <= StateOf(Run(s, events).groups, g).latest
    decreases |events|
  {
    hide Inv, Next, Enabled, Reach;
    if events == [] {
      AckedWithinReach(s, g);
    } else {
      NextKeepsInv(s, events[0]);
      StepWithinFlush(s, events[0], g);
      StaysReached(Next(s, events[0]), events[1..], g);
    }
  }

  lemma AckedWithinReach(s: State, g: Group)
    requires Inv(s)
    ensures StateOf(s.groups, g).acked <= Reach(s, g)
  {
  }

  ghost predicate AllSucceed(events: seq<Event>) {
    forall i | 0 <= i < |events| :: events[i].Send? && events[i].ok
  }

  /** Every group is either acknowledged in full or pending with its latest mark. */
  ghost predicate OnlyPending(s: State) {
    forall g | g in s.groups && s.groups[g].latest > s.groups[g].acked ::
      g in s.pending && s.pending[g] == s.groups[g].latest
  }

  /**
   * A flush that starts after the last mark, and all of whose sends succeed, leaves the flusher idle and
   * every ticket ever issued closed.
   */
  lemma FlushCompletes(s: State, events: seq<Event>)
    requires Inv(s) && s.pending == map[]
    requires Possible(Begun(s, true), events) && AllSucceed(events)
    requires Run(Begun(s, true), events).pending == map[]
    ensures IsIdle(Run(Begun(s, true), events))
    ensures Run(Begun(s, true), events).closed == Run(Begun(s, true), events).issued.Keys
  {
    hide WaitersOk, FramesOk, GroupsOk, TicketsOk;
    var s' := Begun(s, true);
    BegunKeepsInv(s, true);
    assert OnlyPending(s');
    SuccessKeepsPending(s', events);
    RunKeepsInv(s', events);
    IdleIsClosed(Run(s', events));
  }

  lemma {:induction false} SuccessKeepsPending(s: State, events: seq<Event>)
    requires Inv(s) && OnlyPending(s) && Possible(s, events) && AllSucceed(events)
    ensures OnlyPending(Run(s, events))
    decreases |events|
  {
    hide WaitersOk, FramesOk, TicketsOk, AcceptedUpTo;
    if events != [] {
      assert OnlyPending(Next(s, events[0]));
      NextKeepsInv(s, events[0]);
      SuccessKeepsPending(Next(s, events[0]), events[1..]);
    }
  }

  lemma IdleIsClosed(s: State)
    requires Inv(s) && IsIdle(s)
    ensures s.closed == s.issued.Keys
  {
    forall t | t in s.issued ensures t in s.closed {
      if t !in s.closed {
        OpenIsDirty(s, t);
        assert false;
      }
    }
  }

  /** The group of a ticket that is still open has something to send. */
  lemma OpenIsDirty(s: State, t: Ticket)
    requires Inv(s) && t in s.issued && t !in s.closed
    ensures s.issued[t].group in s.groups
    ensures s.groups[s.issued[t].group].acked < s.issued[t].sequence <= s.groups[s.issued[t].group].latest
  {
    var r := StateOf(s.groups, s.issued[t].group);
    assert t in Waiting(r, s.issued[t].sequence);
    assert s.issued[t].sequence in r.waiters;
  }

  // ---- delays -------------------------------------------------------------------------------------------

  const DEFAULT_INTERVAL: int := 250_000_000
  const DEFAULT_BACKOFF: int := 2_000_000_000

  /** A configured duration, and whether the file sets it. */
  datatype Setting = Setting(value: int, isPresent: bool)

  function WithDefault(c: Setting, fallback: int): int {
    if !c.isPresent && c.value == 0 then fallback else c.value
  }

  datatype Timings = Timings(interval: int, backoff: int)

  /** timings: provider is the current configuration, if there is a provider. */
  function CurrentTimings(own: Timings, provider: Option<(Setting, Setting)>): (t: Timings)
    ensures 0 < t.interval <= t.backoff
  {
    var t := match provider
      case Some(c) => Timings(WithDefault(c.0, DEFAULT_INTERVAL), WithDefault(c.1, DEFAULT_BACKOFF))
      case None => own;
    var interval := if t.interval <= 0 then DEFAULT_INTERVAL else t.interval;
    Timings(interval, if t.backoff < interval then interval else t.backoff)
  }

  /** nextDelay */
  function NextDelay(delay: int, failed: bool, t: Timings): int {
    if !failed then t.interval
    else
      var doubled := delay * 2;
      var atLeast := if doubled < t.interval then t.interval else doubled;
      if atLeast > t.backoff then t.backoff else atLeast
  }

  /** A configured positive interval counts, and a maximum that is no smaller; what is missing has a default. */
  lemma TimingsAre(own: Timings, provider: Option<(Setting, Setting)>)
    ensures var t := CurrentTimings(own, provider);
            && (provider.None? && own.interval > 0 ==> t.interval == own.interval)
            && (provider.None? && own.backoff >= t.interval ==> t.backoff == own.backoff)
            && (provider.None? && own.interval <= 0 ==> t.interval == 250_000_000)
            && (provider.None? && own.backoff < t.interval ==> t.backoff == t.interval)
    ensures provider.Some? ==>
              var t := CurrentTimings(own, provider);
              var interval, backoff := provider.value.0, provider.value.1;
              && (interval.value > 0 ==> t.interval == interval.value)
              && (interval.value <= 0 ==> t.interval == 250_000_000)
              && (backoff.value > 0 && backoff.value >= t.interval ==> t.backoff == backoff.value)
              && (backoff == Setting(0, false) && t.interval <= 2_000_000_000 ==> t.backoff == 2_000_000_000)
              && (backoff.value < t.interval && backoff != Setting(0, false) ==> t.backoff == t.interval)
  {
  }

  /** The delay after some flushes; failed says which of them failed. */
  function DelayOf(start: int, failed: seq<bool>, t: Timings): int {
    if failed == [] then start else NextDelay(DelayOf(start, failed[..|failed| - 1], t), failed[|failed| - 1], t)
  }

  /** A success sets the delay back: k failures since the last one double the interval k times, up to the maximum. */
  lemma {:induction false} DelaySinceSuccess(start: int, before: seq<bool>, k: nat, t: Timings)
    requires 0 < t.interval <= t.backoff
    ensures DelayOf(start, before + [false] + seq(k, _ => true), t)
         == if t.interval * PowerOfTwo(k) < t.backoff then t.interval * PowerOfTwo(k) else t.backoff
    decreases k
  {
    var all := before + [false] + seq(k, _ => true);
    DelayDoubles(k, t);
    if k == 0 {
      assert all[..|all| - 1] == before && all[|all| - 1] == false;
    } else {
      DelaySinceSuccess(start, before, k - 1, t);
      assert all[..|all| - 1] == before + [false] + seq(k - 1, _ => true) && all[|all| - 1];
      DelayDoubles(k - 1, t);
    }
  }

  function DelayAfter(failures: nat, t: Timings): int {
    if failures == 0 then t.interval else NextDelay(DelayAfter(failures - 1, t), true, t)
  }

  function PowerOfTwo(k: nat): nat {
    if k == 0 then 1 else 2 * PowerOfTwo(k - 1)
  }

  /** After k failures in a row the delay is the interval doubled k times, up to the maximum. */
  lemma {:induction false} DelayDoubles(k: nat, t: Timings)
    requires 0 < t.interval <= t.backoff
    ensures DelayAfter(k, t) == if t.interval * PowerOfTwo(k) < t.backoff then t.interval * PowerOfTwo(k) else t.backoff
    ensures t.interval * PowerOfTwo(k) >= t.interval
    decreases k
  {
    if k > 0 {
      DelayDoubles(k - 1, t);
      DoubledOnce(t.interval, PowerOfTwo(k - 1));
    }
  }

  lemma DoubledOnce(a: int, b: int)
    ensures a * (2 * b) == 2 * (a * b)
  {
  }

  // ---- the flusher --------------------------------------------------------------------------------------

  class Flusher {
    var groups: map<Group, Release>
    /** What the flush under way took down and has not sent yet. */
    var pending: map<Group, int>
    var closed: set<Ticket>
    /** The number of channels made. */
    var made: nat
    ghost var frames: seq<Frame>
    ghost var issued: map<Ticket, Mark>

    ghost function Current(): State
      reads this
    {
      State(groups, pending, frames, issued, closed)
    }

    ghost predicate Valid()
      reads this
    {
      Inv(Current()) && forall t | t in issued :: t < made
    }

    constructor ()
      ensures Valid() && Current() == START
    {
      groups, pending, closed, made, frames, issued := map[], map[], {}, 0, [], map[];
      new;
      StartIsOk();
    }

    /** Closing a channel twice is a run-time panic; the precondition rules it out. */
    method Close(t: Ticket)
      requires t !in closed
      modifies this`closed
      ensures closed == old(closed) + {t}
    {
      closed := closed + {t};
    }

    method MarkDirty(g: Group, sequence: int) returns (ticket: Option<Ticket>)
      requires Valid()
      modifies this
      ensures Valid() && Current() == Marked(old(Current()), g, sequence, old(made))
      ensures ticket.Some? <==> sequence > 0 && g.credential != "" && g.model != ""
      ensures ticket.None? ==> Current() == old(Current())
      ensures ticket.Some? ==> ticket.value !in old(issued) && issued == old(issued)[ticket.value := Mark(g, sequence)]
      ensures ticket.Some? && g in old(groups) && sequence <= old(groups)[g].acked ==>
                ticket.value in closed && groups == old(groups)
      ensures ticket.Some? && (g in old(groups) ==> sequence > old(groups)[g].acked) ==>
                && g in groups && groups[g].acked < sequence <= groups[g].latest
                && ticket.value !in closed && sequence in groups[g].waiters
                && ticket.value in groups[g].waiters[sequence]
    {
      hide Inv;
      MarkIs(Current(), g, sequence, made);
      if sequence <= 0 || g.credential == "" || g.model == "" {
        return None;
      }
      var done := made;
      FreshIsOpen(Current(), done);
      MarkedKeepsInv(Current(), g, sequence, done);
      made := made + 1;
      issued := issued[done := Mark(g, sequence)];
      var state := StateOf(groups, g);
      if sequence <= state.acked {
        Close(done);
      } else {
        state := state.(waiters := state.waiters[sequence := Waiting(state, sequence) + [done]]);
        if sequence > state.latest {
          state := state.(latest := sequence);
        }
        groups := groups[g := state];
      }
      ticket := Some(done);
    }

    /** The start of flush: takes down what is dirty. */
    method Begin(hasSender: bool)
      requires Valid() && pending == map[]
      modifies this`pending
      ensures Valid() && Current() == Begun(old(Current()), hasSender)
    {
      hide Inv;
      BegunKeepsInv(Current(), hasSender);
      if !hasSender {
        assert Current() == Begun(old(Current()), hasSender);
        return;
      }
      var dirty: map<Group, int> := map[];
      var left := groups.Keys;
      while left != {}
        invariant left <= groups.Keys
        invariant dirty == map g | g in groups && g !in left && groups[g].latest > groups[g].acked :: groups[g].latest
      {
        var g :| g in left;
        left := left - {g};
        if groups[g].latest > groups[g].acked {
          dirty := dirty[g := groups[g].latest];
        }
      }
      pending := dirty;
      assert Current() == Begun(old(Current()), hasSender);
    }

    /** What flush does once the frame of a pending group was sent, or failed to be. */
    method Acknowledge(g: Group, ok: bool)
      requires Valid() && g in pending
      modifies this
      ensures Valid() && Current() == Sent(old(Current()), g, ok)
    {
      hide Inv;
      SentKeepsInv(Current(), g, ok);
      ghost var before := Current();
      var sequence := pending[g];
      frames := frames + [Frame(g, sequence, ok)];
      pending := pending - {g};
      if !ok {
        return;
      }
      var state := StateOf(groups, g);
      if sequence > state.acked {
        ClosesOnce(before, g);
        var waiters := Complete(state, sequence);
        state := Release(state.latest, sequence, waiters);
      }
      groups := groups[g := state];
      assert closed == Sent(before, g, ok).closed;
      assert Current() == Sent(before, g, ok);
    }

    /** Closes the covered tickets and drops their entries. */
    method Complete(r: Release, sequence: int) returns (left: map<int, seq<Ticket>>)
      requires Covered(r, sequence) !! closed
      requires NoTicketTwice(r.waiters)
      modifies this`closed
      ensures closed == old(closed) + Covered(r, sequence)
      ensures left == map q | q in r.waiters && q > sequence :: r.waiters[q]
    {
      left := r.waiters;
      var todo := r.waiters.Keys;
      while todo != {}
        invariant todo <= r.waiters.Keys
        invariant left == map q | q in r.waiters && (q in todo || q > sequence) :: r.waiters[q]
        invariant closed == old(closed) + CoveredOutside(r, sequence, todo)
      {
        HasElement(todo);
        var q :| q in todo;
        if q <= sequence {
          for i := 0 to |r.waiters[q]|
            invariant closed == old(closed) + CoveredOutside(r, sequence, todo) + set j | 0 <= j < i :: r.waiters[q][j]
          {
            Close(r.waiters[q][i]);
          }
          left := left - {q};
        }
        todo := todo - {q};
      }
    }

    method Idle() returns (idle: bool)
      ensures idle <==> IsIdle(Current())
    {
      var left := groups.Keys;
      while left != {}
        invariant left <= groups.Keys
        invariant forall g | g in groups && g !in left :: groups[g].latest <= groups[g].acked
      {
        var g :| g in left;
        if groups[g].latest > groups[g].acked {
          return false;
        }
        left := left - {g};
      }
      idle := true;
    }
  }

  lemma FreshIsOpen(s: State, t: Ticket)
    requires Inv(s) && t !in s.issued
    ensures t !in s.closed
  {
  }

  lemma HasElement(s: set<int>)
    requires s != {}
    ensures exists x :: x in s
  {
    if forall x :: x !in s {
      assert false;
    }
  }

  ghost function CoveredOutside(r: Release, sequence: int, todo: set<int>): set<Ticket> {
    set q, i | q in r.waiters && q !in todo && q <= sequence && 0 <= i < |r.waiters[q]| :: r.waiters[q][i]
  }
}
