/**
 * When a conditional replace or delete in home mode succeeds, and what a rejection means
 * (internal/cache/antigravity_reasoning_replay_cache.go).
 */
module AntigravityProgress {
  import opened ByteStrings
  import opened AntigravityLocal
  import opened AntigravityShared

  /** The register holds a live value on the snapshot's branch, one for one normal, that the items extend. */
  ghost predicate Extendable(normalize: Bytes -> Option<Bytes>, register: Option<Value>, seen: Seen, items: Items) {
    && register.Some? && register.value.Stored? && !register.value.deleted
    && seen.branch != 0 && register.value.branch == seen.branch
    && exists normal ::
         && Normalized(normalize, register.value.items) == Some(normal)
         && |normal| == |register.value.items| && normal <= items
  }

  /** The swaps of client c between two steps. */
  ghost function SwapsIn(events: seq<Event>, c: nat, lo: nat, hi: nat): set<int>
    requires hi <= |events|
  {
    set k | lo <= k < hi && events[k] == Swap(c)
  }

  lemma SwapsGrow(events: seq<Event>, c: nat, lo: nat, hi: nat)
    requires lo <= hi < |events|
    ensures SwapsIn(events, c, lo, hi + 1) == SwapsIn(events, c, lo, hi) + if events[hi] == Swap(c) then {hi} else {}
    ensures |SwapsIn(events, c, lo, hi + 1)| == |SwapsIn(events, c, lo, hi)| + if events[hi] == Swap(c) then 1 else 0
  {
    assert SwapsIn(events, c, lo, hi + 1) == SwapsIn(events, c, lo, hi) + if events[hi] == Swap(c) then {hi} else {};
  }

  /** Why a replace that began at step b may be rejected. */
  ghost predicate HasCause(normalize: Bytes -> Option<Bytes>, worlds: seq<World>, events: seq<Event>, c: nat, b: int,
      i: nat, seen: Seen, items: Items)
    requires -1 <= b < i <= |events| < |worlds|
  {
    || (exists k | b < k < i :: events[k] == Reread(c) && !Extendable(normalize, worlds[k].register, seen, items))
    || |SwapsIn(events, c, b + 1, i)| == 4
  }

  ghost predicate RetryOk(normalize: Bytes -> Option<Bytes>, worlds: seq<World>, events: seq<Event>, c: nat, i: nat)
    requires i <= |events| < |worlds| && c in worlds[i].clients
  {
    var p, b := worlds[i].clients[c], LastBegin(events, c, i);
    match p
    case Swapping(_, _, _, _, _, attempt) => b >= 0 && |SwapsIn(events, c, b + 1, i)| == attempt < 4
    case Rereading(_, _, _, attempt) => b >= 0 && |SwapsIn(events, c, b + 1, i)| == attempt + 1 <= 4
    case Replaced(seen, items, outcome) =>
      outcome.Rejected? ==> b >= 0 && HasCause(normalize, worlds, events, c, b, i, seen, items)
    case _ => true
  }

  /** A retry goes on exactly over such a value, and only with a swap left. */
  lemma RereadDecides(normalize: Bytes -> Option<Bytes>, p: Phase, current: Option<Value>)
    requires p.Rereading?
    ensures AfterReread(normalize, p, current)
         == if Extendable(normalize, current, p.seen, p.items) && p.attempt < 3
            then Swapping(p.seen, p.items, p.kept, current, true, p.attempt + 1)
            else Replaced(p.seen, p.items, Rejected)
  {
    hide Normalized;
  }

  lemma OthersKeepRetry(normalize: Bytes -> Option<Bytes>, worlds: seq<World>, events: seq<Event>, c: nat, i: nat)
    requires i < |events| < |worlds| && c in worlds[i].clients && RetryOk(normalize, worlds, events, c, i)
    requires !ByClient(events[i], c) && c in worlds[i + 1].clients && worlds[i + 1].clients[c] == worlds[i].clients[c]
    ensures RetryOk(normalize, worlds, events, c, i + 1)
  {
    hide Extendable;
    var b := LastBegin(events, c, i);
    assert LastBegin(events, c, i + 1) == b;
    if b >= 0 {
      SwapsGrow(events, c, b + 1, i);
    }
  }

  lemma OwnKeepsRetry(normalize: Bytes -> Option<Bytes>, worlds: seq<World>, events: seq<Event>, c: nat, i: nat)
    requires i < |events| < |worlds| && Enabled(normalize, worlds[i], events[i])
    requires worlds[i + 1] == Next(normalize, worlds[i], events[i])
    requires ByClient(events[i], c) && RetryOk(normalize, worlds, events, c, i)
    ensures c in worlds[i + 1].clients && RetryOk(normalize, worlds, events, c, i + 1)
  {
    hide Extendable, AfterReread, Normalized, Replayable;
    var e, b := events[i], LastBegin(events, c, i);
    if e.BeginReplace? {
      assert LastBegin(events, c, i + 1) == i;
      assert SwapsIn(events, c, i + 1, i + 1) == {};
    } else if e.Swap? || e.Reread? {
      assert LastBegin(events, c, i + 1) == b;
      SwapsGrow(events, c, b + 1, i);
      if e.Reread? {
        RereadDecides(normalize, worlds[i].clients[c], worlds[i].register);
        assert events[i] == Reread(c);
      }
    }
  }

  lemma {:induction false} RetriesHold(normalize: Bytes -> Option<Bytes>, worlds: seq<World>, events: seq<Event>,
      i: nat, c: nat)
    requires IsRun(normalize, worlds, events) && i < |worlds| && c in worlds[i].clients
    ensures RetryOk(normalize, worlds, events, c, i)
    decreases i
  {
    hide Next, Enabled, RetryOk;
    if i == 0 {
      NoRetryYet(normalize, worlds, events, c);
    } else {
      SameClients(normalize, worlds[i - 1], events[i - 1], c);
      RetriesHold(normalize, worlds, events, i - 1, c);
      if ByClient(events[i - 1], c) {
        OwnKeepsRetry(normalize, worlds, events, c, i - 1);
      } else {
        OthersKeepRetry(normalize, worlds, events, c, i - 1);
      }
    }
  }

  lemma NoRetryYet(normalize: Bytes -> Option<Bytes>, worlds: seq<World>, events: seq<Event>, c: nat)
    requires |events| < |worlds| && Initial(worlds[0]) && c in worlds[0].clients
    ensures RetryOk(normalize, worlds, events, c, 0)
  {
  }

  /**
   * A replace is rejected only with a cause: since it began, a reread found the register empty, not
   * decodable, deleted, on another branch, not normal one for one, or not a prefix of its items, or its
   * fourth swap failed.
   */
  lemma RejectionHasCause(normalize: Bytes -> Option<Bytes>, worlds: seq<World>, events: seq<Event>, i: nat, c: nat)
    requires IsRun(normalize, worlds, events) && i < |worlds| && c in worlds[i].clients
    requires worlds[i].clients[c].Replaced? && worlds[i].clients[c].outcome.Rejected?
    ensures var p, b := worlds[i].clients[c], LastBegin(events, c, i);
            || (exists k | b < k < i :: events[k] == Reread(c)
                  && !Extendable(normalize, worlds[k].register, p.seen, p.items))
            || |SwapsIn(events, c, b + 1, i)| == 4
  {
    hide Extendable, IsRun;
    RunHasLength(normalize, worlds, events);
    RetriesHold(normalize, worlds, events, i, c);
  }

  lemma RunHasLength(normalize: Bytes -> Option<Bytes>, worlds: seq<World>, events: seq<Event>)
    requires IsRun(normalize, worlds, events)
    ensures |worlds| == |events| + 1
  {
    hide Next, Enabled;
  }

  // ---------------------------------------------------------------- success

  /** Client c does nothing between steps k and j. */
  ghost predicate Quiet(events: seq<Event>, c: nat, k: nat, j: nat)
    requires j <= |events|
  {
    forall m | k < m < j :: !ByClient(events[m], c)
  }

  lemma {:induction false} QuietKeepsPhase(normalize: Bytes -> Option<Bytes>, worlds: seq<World>, events: seq<Event>,
      c: nat, k: nat, j: nat)
    requires IsRun(normalize, worlds, events) && k < j < |worlds| && Quiet(events, c, k, j)
    requires c in worlds[k + 1].clients
    ensures c in worlds[j].clients && worlds[j].clients[c] == worlds[k + 1].clients[c]
    decreases j
  {
    hide Next, Enabled;
    if k + 1 < j {
      QuietKeepsPhase(normalize, worlds, events, c, k, j - 1);
      SameClients(normalize, worlds[j - 1], events[j - 1], c);
    }
  }

  lemma RunStep(normalize: Bytes -> Option<Bytes>, worlds: seq<World>, events: seq<Event>, i: nat)
    requires IsRun(normalize, worlds, events) && i < |events|
    ensures |worlds| == |events| + 1
    ensures Enabled(normalize, worlds[i], events[i]) && worlds[i + 1] == Next(normalize, worlds[i], events[i])
  {
    hide Next, Enabled;
  }

  /** What a successful replace leaves: its items, on its snapshot's branch when they extend what it saw. */
  ghost predicate ReplacedBy(before: World, after: World, c: nat, seen: Seen, items: Items) {
    && c in after.clients && after.clients[c] == Replaced(seen, items, Accepted)
    && after.register.Some? && after.register.value.Stored?
    && !after.register.value.deleted && after.register.value.items == items
    && after.register.value.branch
       == if seen.branch != 0 && seen.items <= items then seen.branch else before.branches + 1
  }

  lemma SwapSucceeds(normalize: Bytes -> Option<Bytes>, w: World, c: nat, p: Phase)
    requires c in w.clients && w.clients[c] == p && p.Swapping?
    requires p.kept == (p.seen.branch != 0 && p.seen.items <= p.items)
    requires if p.found then w.register.Some? && w.register == p.raw else w.register.None?
    ensures ReplacedBy(w, Next(normalize, w, Swap(c)), c, p.seen, p.items)
  {
  }

  /** What a client keeps in mind of its snapshot. */
  ghost predicate KeptOk(p: Phase) {
    && (p.Swapping? ==> p.kept == (p.seen.branch != 0 && p.seen.items <= p.items))
    && (p.Rereading? ==> p.kept == (p.seen.branch != 0 && p.seen.items <= p.items))
  }

  lemma NextKeepsKept(normalize: Bytes -> Option<Bytes>, w: World, e: Event, c: nat)
    requires Enabled(normalize, w, e) && c in w.clients && KeptOk(w.clients[c])
    ensures c in Next(normalize, w, e).clients && KeptOk(Next(normalize, w, e).clients[c])
  {
    hide Normalized, Replayable, AfterReread;
    if e.Reread? {
      RereadDecides(normalize, w.clients[e.c], w.register);
    }
  }

  lemma {:induction false} KeptHolds(normalize: Bytes -> Option<Bytes>, worlds: seq<World>, events: seq<Event>, i: nat,
      c: nat)
    requires IsRun(normalize, worlds, events) && i < |worlds| && c in worlds[i].clients
    ensures KeptOk(worlds[i].clients[c])
    decreases i
  {
    hide Next, Enabled;
    if i > 0 {
      SameClients(normalize, worlds[i - 1], events[i - 1], c);
      KeptHolds(normalize, worlds, events, i - 1, c);
      NextKeepsKept(normalize, worlds[i - 1], events[i - 1], c);
    }
  }

  /** A replace whose first swap meets the register as its snapshot saw it succeeds. */
  lemma UnchangedIsReplaced(normalize: Bytes -> Option<Bytes>, worlds: seq<World>, events: seq<Event>, c: nat,
      k: nat, j: nat)
    requires IsRun(normalize, worlds, events) && k < j < |events|
    requires events[k].BeginReplace? && events[k].c == c && events[j] == Swap(c) && Quiet(events, c, k, j)
    requires c in worlds[k].clients && Free(worlds[k].clients[c])
    requires var seen := SeenBy(worlds[k].clients[c]);
             if seen.found then worlds[j].register.Some? && worlds[j].register == seen.raw else worlds[j].register.None?
    ensures Normalized(normalize, events[k].input).Some?
    ensures ReplacedBy(worlds[j], worlds[j + 1], c, SeenBy(worlds[k].clients[c]),
              Normalized(normalize, events[k].input).value)
  {
    hide IsRun, Normalized;
    RunStep(normalize, worlds, events, k);
    RunStep(normalize, worlds, events, j);
    QuietKeepsPhase(normalize, worlds, events, c, k, j);
    SwapSucceeds(normalize, worlds[j], c, worlds[k + 1].clients[c]);
  }

  /**
   * A reread that finds a value the replace extends, with a swap left, followed by a swap over that same
   * register, succeeds: the concurrent turn is kept and this one joins it.
   */
  lemma ExtendedIsReplaced(normalize: Bytes -> Option<Bytes>, worlds: seq<World>, events: seq<Event>, c: nat,
      k: nat, j: nat)
    requires IsRun(normalize, worlds, events) && k < j < |events|
    requires events[k] == Reread(c) && events[j] == Swap(c) && Quiet(events, c, k, j)
    requires c in worlds[k].clients && worlds[k].clients[c].Rereading?
    requires Extendable(normalize, worlds[k].register, worlds[k].clients[c].seen, worlds[k].clients[c].items)
    requires |SwapsIn(events, c, LastBegin(events, c, k) + 1, k)| < 4
    requires worlds[j].register == worlds[k].register
    ensures ReplacedBy(worlds[j], worlds[j + 1], c, worlds[k].clients[c].seen, worlds[k].clients[c].items)
  {
    hide IsRun, Normalized, AfterReread, Extendable;
    RunStep(normalize, worlds, events, k);
    RunStep(normalize, worlds, events, j);
    var p := worlds[k].clients[c];
    RetriesHold(normalize, worlds, events, k, c);
    RereadDecides(normalize, p, worlds[k].register);
    KeptHolds(normalize, worlds, events, k, c);
    QuietKeepsPhase(normalize, worlds, events, c, k, j);
    StillThere(normalize, worlds[k].register, p.seen, p.items);
    SwapSucceeds(normalize, worlds[j], c, worlds[k + 1].clients[c]);
  }

  lemma StillThere(normalize: Bytes -> Option<Bytes>, register: Option<Value>, seen: Seen, items: Items)
    requires Extendable(normalize, register, seen, items)
    ensures register.Some?
  {
  }

  /** A conditional delete succeeds exactly when the register is as its snapshot saw it, and leaves a tombstone. */
  lemma DeleteDecides(normalize: Bytes -> Option<Bytes>, worlds: seq<World>, events: seq<Event>, c: nat, j: nat)
    requires IsRun(normalize, worlds, events) && j < |events| && events[j] == SwapTombstone(c)
    ensures c in worlds[j].clients && worlds[j].clients[c].Deleting? && c in worlds[j + 1].clients
    ensures var seen := worlds[j].clients[c].seen;
            var same := if seen.found then worlds[j].register.Some? && worlds[j].register == seen.raw
                        else worlds[j].register.None?;
            && worlds[j + 1].clients[c] == Deleted(seen, if same then Accepted else Rejected)
            && (same ==> Published(None, worlds[j + 1].register))
            && (!same ==> worlds[j + 1].register == worlds[j].register)
  {
    RunStep(normalize, worlds, events, j);
  }

  /** The unconditional writes leave their items or a tombstone on a fresh branch; expiry leaves nothing. */
  lemma UnconditionalIs(normalize: Bytes -> Option<Bytes>, worlds: seq<World>, events: seq<Event>, j: nat)
    requires IsRun(normalize, worlds, events) && j < |events|
    ensures events[j].Overwrite? ==>
              && Normalized(normalize, events[j].input).Some?
              && Published(Some(Normalized(normalize, events[j].input).value), worlds[j + 1].register)
              && worlds[j + 1].register.value.branch == worlds[j].branches + 1
    ensures events[j].Erase? ==>
              Published(None, worlds[j + 1].register) && worlds[j + 1].register.value.branch == worlds[j].branches + 1
    ensures events[j].Expire? ==> worlds[j + 1].register == None
    ensures events[j].Overwrite? || events[j].Erase? || events[j].Expire? ==> worlds[j + 1].clients == worlds[j].clients
  {
    hide Normalized;
    RunStep(normalize, worlds, events, j);
  }

  // ---------------------------------------------------------------- reading

  /** The failed reservations of client c between two steps. */
  ghost function ReservesIn(events: seq<Event>, c: nat, lo: nat, hi: nat): set<int>
    requires hi <= |events|
  {
    set k | lo <= k < hi && events[k] == Reserve(c)
  }

  /** The last read client c began before step i, or -1. */
  function LastStart(events: seq<Event>, c: nat, i: nat): (b: int)
    requires i <= |events|
    ensures -1 <= b < i
  {
    if i == 0 then -1 else if events[i - 1] == Start(c) then i - 1 else LastStart(events, c, i - 1)
  }

  /** What a read leaves behind, from what the register holds. */
  ghost predicate ShowsValue(normalize: Bytes -> Option<Bytes>, v: Value, s: Seen) {
    && s.found
    && s.raw == (if v.Oversized? then None else Some(v))
    && s.branch == (if v.Stored? then v.branch else 0)
    && (v.Stored? && v.deleted ==> s.items == [])
    && (v.Oversized? || v.Undecodable? ==> s.items == [])
    && (v.Legacy? || (v.Stored? && !v.deleted) ==>
          match Normalized(normalize, v.items)
          case Some(normal) => s.items == if |normal| == |v.items| then normal else []
          case None => s.items == [])
  }

  /** A read that meets a value yields its snapshot; one that meets none reserves the key with a tombstone. */
  lemma ReadYieldsSnapshot(normalize: Bytes -> Option<Bytes>, worlds: seq<World>, events: seq<Event>, c: nat, j: nat)
    requires IsRun(normalize, worlds, events) && j < |events| && (events[j] == Read(c) || events[j] == Reserve(c))
    ensures c in worlds[j + 1].clients
    ensures events[j].Read? && worlds[j].register.Some? ==>
              && worlds[j + 1].register == worlds[j].register && worlds[j + 1].clients[c].Holding?
              && ShowsValue(normalize, worlds[j].register.value, worlds[j + 1].clients[c].seen)
    ensures events[j].Read? && worlds[j].register.None? ==> worlds[j + 1].clients[c].Reserving?
    ensures events[j].Reserve? && worlds[j].register.None? ==>
              && Published(None, worlds[j + 1].register) && worlds[j + 1].clients[c].Holding?
              && ShowsValue(normalize, worlds[j + 1].register.value, worlds[j + 1].clients[c].seen)
  {
    hide Normalized;
    RunStep(normalize, worlds, events, j);
  }

  ghost predicate ReadOk(worlds: seq<World>, events: seq<Event>, c: nat, i: nat)
    requires i <= |events| < |worlds| && c in worlds[i].clients
  {
    var p, b := worlds[i].clients[c], LastStart(events, c, i);
    match p
    case Getting(attempt) => b >= 0 && |ReservesIn(events, c, b + 1, i)| == attempt < 4
    case Reserving(attempt) => b >= 0 && |ReservesIn(events, c, b + 1, i)| == attempt < 4
    case Holding(seen) => !seen.found ==> b >= 0 && ReadFailed(events, c, b, i)
    case _ => true
  }

  ghost predicate ReadFailed(events: seq<Event>, c: nat, b: int, i: nat)
    requires -1 <= b < i <= |events|
  {
    || (exists k | b < k < i :: events[k] == ReadFails(c) || (events[k].ReserveFails? && events[k].c == c))
    || |ReservesIn(events, c, b + 1, i)| == 4
  }

  lemma ReservesGrow(events: seq<Event>, c: nat, lo: nat, hi: nat)
    requires lo <= hi < |events|
    ensures |ReservesIn(events, c, lo, hi + 1)|
         == |ReservesIn(events, c, lo, hi)| + if events[hi] == Reserve(c) then 1 else 0
  {
    assert ReservesIn(events, c, lo, hi + 1)
        == ReservesIn(events, c, lo, hi) + if events[hi] == Reserve(c) then {hi} else {};
  }

  lemma OthersKeepRead(worlds: seq<World>, events: seq<Event>, c: nat, i: nat)
    requires i < |events| < |worlds| && c in worlds[i].clients && ReadOk(worlds, events, c, i)
    requires !ByClient(events[i], c) && c in worlds[i + 1].clients && worlds[i + 1].clients[c] == worlds[i].clients[c]
    ensures ReadOk(worlds, events, c, i + 1)
  {
    var b := LastStart(events, c, i);
    assert LastStart(events, c, i + 1) == b;
    if b >= 0 {
      ReservesGrow(events, c, b + 1, i);
    }
  }

  lemma OwnKeepsRead(normalize: Bytes -> Option<Bytes>, worlds: seq<World>, events: seq<Event>, c: nat, i: nat)
    requires i < |events| < |worlds| && Enabled(normalize, worlds[i], events[i])
    requires worlds[i + 1] == Next(normalize, worlds[i], events[i])
    requires ByClient(events[i], c) && ReadOk(worlds, events, c, i)
    ensures c in worlds[i + 1].clients && ReadOk(worlds, events, c, i + 1)
  {
    hide AfterReread, Normalized, Replayable;
    var e, b := events[i], LastStart(events, c, i);
    if e.Start? {
      assert LastStart(events, c, i + 1) == i;
      assert ReservesIn(events, c, i + 1, i + 1) == {};
    } else {
      assert LastStart(events, c, i + 1) == b;
      if b >= 0 {
        ReservesGrow(events, c, b + 1, i);
      }
      if e.Reread? {
        RereadDecides(normalize, worlds[i].clients[c], worlds[i].register);
      }
    }
  }

  lemma {:induction false} ReadsHold(normalize: Bytes -> Option<Bytes>, worlds: seq<World>, events: seq<Event>,
      i: nat, c: nat)
    requires IsRun(normalize, worlds, events) && i < |worlds| && c in worlds[i].clients
    ensures ReadOk(worlds, events, c, i)
    decreases i
  {
    hide Next, Enabled, ReadOk;
    if i == 0 {
      NoReadYet(worlds, events, c);
    } else {
      SameClients(normalize, worlds[i - 1], events[i - 1], c);
      ReadsHold(normalize, worlds, events, i - 1, c);
      if ByClient(events[i - 1], c) {
        OwnKeepsRead(normalize, worlds, events, c, i - 1);
      } else {
        OthersKeepRead(worlds, events, c, i - 1);
      }
    }
  }

  lemma NoReadYet(worlds: seq<World>, events: seq<Event>, c: nat)
    requires |events| < |worlds| && Initial(worlds[0]) && c in worlds[0].clients
    ensures ReadOk(worlds, events, c, 0)
  {
  }

  /** A read ends without a snapshot only when one of its commands failed, or four reservations came too late. */
  lemma MissingSnapshotHasCause(normalize: Bytes -> Option<Bytes>, worlds: seq<World>, events: seq<Event>, i: nat,
      c: nat)
    requires IsRun(normalize, worlds, events) && i < |worlds| && c in worlds[i].clients
    requires worlds[i].clients[c].Holding? && !worlds[i].clients[c].seen.found
    ensures var b := LastStart(events, c, i);
            || (exists k | b < k < i :: events[k] == ReadFails(c) || (events[k].ReserveFails? && events[k].c == c))
            || |ReservesIn(events, c, b + 1, i)| == 4
  {
    hide IsRun;
    RunHasLength(normalize, worlds, events);
    ReadsHold(normalize, worlds, events, i, c);
  }
}
