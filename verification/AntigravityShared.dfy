/**
 * The replay cache in home mode: many clients over one compare-and-swap register
 * (internal/cache/antigravity_reasoning_replay_cache.go, internal/home/client.go).
 * One step is one KV command. Nonces and branch ids are drawn when the command that publishes them
 * takes effect; an id nobody has seen cannot be told from one drawn earlier.
 */
module AntigravityShared {
  import opened ByteStrings
  import opened AntigravityLocal
  import opened AntigravityRuns
  import opened ReplayItems

  const MAX_ATTEMPTS: nat := 4

  /** A value of the register, decoded. Two raw values are equal exactly when their decoded forms are. */
  datatype Value =
    | Stored(nonce: nat, branch: nat, deleted: bool, items: Items)
    | Legacy(items: Items)
    | Undecodable(id: nat)
    | Oversized(id: nat)

  /** AntigravityReasoningReplaySnapshot as home mode fills it; raw is None for nil bytes. */
  datatype Seen = Seen(raw: Option<Value>, found: bool, items: Items, branch: nat)

  datatype Outcome = Accepted | Rejected | Failed

  /** Where one client is in its get, replace or delete. */
  datatype Phase =
    | Idle
    | Getting(attempt: nat)
    | Reserving(attempt: nat)
    | Holding(seen: Seen)
    | Swapping(seen: Seen, items: Items, kept: bool, raw: Option<Value>, found: bool, attempt: nat)
    | Rereading(seen: Seen, items: Items, kept: bool, attempt: nat)
    | Deleting(seen: Seen)
    | Replaced(seen: Seen, items: Items, outcome: Outcome)
    | Deleted(seen: Seen, outcome: Outcome)

  datatype World = World(register: Option<Value>, clients: map<nat, Phase>, nonces: nat, branches: nat, log: seq<Write>)

  /** The snapshot of a value that was read. */
  function SeenOf(normalize: Bytes -> Option<Bytes>, v: Value): Seen {
    match v
    case Oversized(_) => Seen(None, true, [], NO_BRANCH)
    case Undecodable(_) => Seen(Some(v), true, [], NO_BRANCH)
    case Legacy(items) => Seen(Some(v), true, Replayable(normalize, items), NO_BRANCH)
    case Stored(_, branch, deleted, items) =>
      Seen(Some(v), true, if deleted then [] else Replayable(normalize, items), branch)
  }

  /** Items that survive normalization one for one, or none. */
  function Replayable(normalize: Bytes -> Option<Bytes>, items: Items): Items {
    match Normalized(normalize, items)
    case Some(normal) => if |normal| == |items| then normal else []
    case None => []
  }

  const NOTHING_SEEN: Seen := Seen(None, false, [], NO_BRANCH)

  /** The register test of KVCompareAndSwap. */
  predicate Holds(register: Option<Value>, raw: Option<Value>, found: bool) {
    if found then register.Some? && raw == register else register.None?
  }

  /** Put a new value, on a given branch or a fresh one, under a fresh nonce. */
  function Publish(w: World, branch: nat, deleted: bool, items: Items): World {
    var b := if branch == NO_BRANCH then w.branches + 1 else branch;
    w.(register := Some(Stored(w.nonces + 1, b, deleted, items)), nonces := w.nonces + 1,
       branches := if branch == NO_BRANCH then w.branches + 1 else w.branches,
       log := w.log + [Write("", b, items)])
  }

  function Move(w: World, c: nat, phase: Phase): World {
    w.(clients := w.clients[c := phase])
  }

  /** The decision after a failed swap, from the value read back: swap again over it, or give up. */
  function AfterReread(normalize: Bytes -> Option<Bytes>, p: Phase, current: Option<Value>): Phase
    requires p.Rereading?
  {
    var giveUp := Replaced(p.seen, p.items, Rejected);
    if current.None? || !current.value.Stored? then giveUp
    else if current.value.deleted || p.seen.branch == NO_BRANCH || current.value.branch != p.seen.branch then giveUp
    else
      match Normalized(normalize, current.value.items)
      case None => giveUp
      case Some(normal) =>
        if |normal| != |current.value.items| || !(normal <= p.items) || p.attempt + 1 >= MAX_ATTEMPTS then giveUp
        else Swapping(p.seen, p.items, p.kept, current, true, p.attempt + 1)
  }

  /** One KV command, or one local step of a client. */
  datatype Event =
    | Start(c: nat)
    | Read(c: nat)
    | ReadFails(c: nat)
    | Reserve(c: nat)
    | ReserveFails(c: nat, applied: bool)
    | BeginReplace(c: nat, input: Items)
    | Swap(c: nat)
    | SwapFails(c: nat, applied: bool)
    | Reread(c: nat)
    | RereadFails(c: nat)
    | BeginDelete(c: nat)
    | SwapTombstone(c: nat)
    | SwapTombstoneFails(c: nat, applied: bool)
    | Overwrite(input: Items)
    | Erase
    | Expire

  /** A client that holds a snapshot and runs no command; one snapshot may serve again and again. */
  predicate Free(p: Phase) {
    p.Holding? || p.Replaced? || p.Deleted?
  }

  predicate Enabled(normalize: Bytes -> Option<Bytes>, w: World, e: Event) {
    match e
    case Overwrite(input) => Normalized(normalize, input).Some?
    case Erase => true
    case Expire => true
    case _ =>
      e.c in w.clients &&
      var p := w.clients[e.c];
      match e
      case Start(_) => p.Idle? || Free(p)
      case Read(_) => p.Getting?
      case ReadFails(_) => p.Getting?
      case Reserve(_) => p.Reserving?
      case ReserveFails(_, applied) => p.Reserving? && (applied ==> w.register.None?)
      case BeginReplace(_, input) => Free(p) && Normalized(normalize, input).Some?
      case Swap(_) => p.Swapping?
      case SwapFails(_, applied) => p.Swapping? && (applied ==> Holds(w.register, p.raw, p.found))
      case Reread(_) => p.Rereading?
      case RereadFails(_) => p.Rereading?
      case BeginDelete(_) => Free(p)
      case SwapTombstone(_) => p.Deleting?
      case SwapTombstoneFails(_, applied) => p.Deleting? && (applied ==> Holds(w.register, p.seen.raw, p.seen.found))
      case _ => false
  }

  function BranchOf(p: Phase): nat
    requires p.Swapping?
  {
    if p.kept then p.seen.branch else NO_BRANCH
  }

  function Next(normalize: Bytes -> Option<Bytes>, w: World, e: Event): World
    requires Enabled(normalize, w, e)
  {
    match e
    case Start(c) => Move(w, c, Getting(0))
    case Read(c) =>
      (match w.register
       case Some(v) => Move(w, c, Holding(SeenOf(normalize, v)))
       case None => Move(w, c, Reserving(w.clients[c].attempt)))
    case ReadFails(c) => Move(w, c, Holding(NOTHING_SEEN))
    case Reserve(c) =>
      if w.register.None? then
        var w' := Publish(w, NO_BRANCH, true, []);
        Move(w', c, Holding(SeenOf(normalize, w'.register.value)))
      else
        var attempt := w.clients[c].attempt + 1;
        Move(w, c, if attempt < MAX_ATTEMPTS then Getting(attempt) else Holding(NOTHING_SEEN))
    case ReserveFails(c, applied) =>
      Move(if applied then Publish(w, NO_BRANCH, true, []) else w, c, Holding(NOTHING_SEEN))
    case BeginReplace(c, input) =>
      var seen, items := w.clients[c].seen, Normalized(normalize, input).value;
      var kept := seen.branch != NO_BRANCH && seen.items <= items;
      Move(w, c, Swapping(seen, items, kept, seen.raw, seen.found, 0))
    case Swap(c) =>
      var p := w.clients[c];
      if Holds(w.register, p.raw, p.found) then
        Move(Publish(w, BranchOf(p), false, p.items), c, Replaced(p.seen, p.items, Accepted))
      else Move(w, c, Rereading(p.seen, p.items, p.kept, p.attempt))
    case SwapFails(c, applied) =>
      var p := w.clients[c];
      Move(if applied then Publish(w, BranchOf(p), false, p.items) else w, c,
           Replaced(p.seen, p.items, Failed))
    case Reread(c) => Move(w, c, AfterReread(normalize, w.clients[c], w.register))
    case RereadFails(c) => Move(w, c, Replaced(w.clients[c].seen, w.clients[c].items, Failed))
    case BeginDelete(c) => Move(w, c, Deleting(w.clients[c].seen))
    case SwapTombstone(c) =>
      var p := w.clients[c];
      if Holds(w.register, p.seen.raw, p.seen.found) then
        Move(Publish(w, NO_BRANCH, true, []), c, Deleted(p.seen, Accepted))
      else Move(w, c, Deleted(p.seen, Rejected))
    case SwapTombstoneFails(c, applied) =>
      var p := w.clients[c];
      Move(if applied then Publish(w, NO_BRANCH, true, []) else w, c, Deleted(p.seen, Failed))
    case Overwrite(input) => Publish(w, NO_BRANCH, false, Normalized(normalize, input).value)
    case Erase => Publish(w, NO_BRANCH, true, [])
    case Expire => w.(register := None)
  }

  /** Any clients, and whatever value, not on a branch, an older version may have left in the register. */
  ghost predicate Initial(w: World) {
    && (w.register.Some? ==> !w.register.value.Stored?)
    && (forall c | c in w.clients :: w.clients[c].Idle?)
    && w.nonces == 0 && w.branches == 0 && w.log == []
  }

  ghost predicate IsRun(normalize: Bytes -> Option<Bytes>, worlds: seq<World>, events: seq<Event>) {
    && |worlds| == |events| + 1 && Initial(worlds[0])
    && forall i | 0 <= i < |events| ::
         Enabled(normalize, worlds[i], events[i]) && worlds[i + 1] == Next(normalize, worlds[i], events[i])
  }

  /** Normalizing what was normalized changes nothing. */
  ghost predicate Idempotent(normalize: Bytes -> Option<Bytes>) {
    forall x :: normalize(x).Some? ==> normalize(normalize(x).value) == normalize(x)
  }

  lemma {:induction false} KeptIsClean(normalize: Bytes -> Option<Bytes>, items: Items)
    requires Idempotent(normalize)
    ensures Kept(normalize, Kept(normalize, items)) == Kept(normalize, items)
  {
    if items != [] {
      var front, last := items[..|items| - 1], items[|items| - 1];
      KeptIsClean(normalize, front);
      if normalize(last).Some? {
        var all := Kept(normalize, front) + [normalize(last).value];
        assert all[..|all| - 1] == Kept(normalize, front);
      }
    }
  }

  lemma NormalizedIsClean(normalize: Bytes -> Option<Bytes>, input: Items)
    requires Idempotent(normalize) && Normalized(normalize, input).Some?
    ensures Clean(normalize, Normalized(normalize, input).value)
  {
    KeptIsClean(normalize, input);
    KeptGrows(normalize, input, 0);
  }

  ghost predicate Clean(normalize: Bytes -> Option<Bytes>, items: Items) {
    Normalized(normalize, items) == Some(items)
  }

  // ---------------------------------------------------------------- what a client knows

  ghost predicate ValueOk(normalize: Bytes -> Option<Bytes>, w: World, v: Value) {
    v.Stored? ==> 1 <= v.branch <= w.branches && if v.deleted then v.items == [] else Clean(normalize, v.items)
  }

  /** A snapshot with a branch shows exactly the items of the value it was taken from. */
  ghost predicate SeenOk(normalize: Bytes -> Option<Bytes>, w: World, s: Seen) {
    && (s.branch != NO_BRANCH ==> s.found && s.raw.Some? && s.raw.value.Stored?)
    && (s.raw.Some? && s.raw.value.Stored? ==>
          ValueOk(normalize, w, s.raw.value) && s.raw.value.branch == s.branch && s.raw.value.items == s.items)
    && (!s.found ==> s.raw.None?)
  }

  /** Register contents over which a replace may be accepted. */
  ghost predicate Admissible(s: Seen, items: Items, over: Option<Value>) {
    || Holds(over, s.raw, s.found)
    || (over.Some? && over.value.Stored? && !over.value.deleted
        && s.branch != NO_BRANCH && over.value.branch == s.branch && over.value.items <= items)
  }

  ghost predicate PhaseOk(normalize: Bytes -> Option<Bytes>, w: World, p: Phase) {
    match p
    case Holding(s) => SeenOk(normalize, w, s)
    case Deleting(s) => SeenOk(normalize, w, s)
    case Swapping(s, items, kept, raw, found, attempt) =>
      && SeenOk(normalize, w, s) && Clean(normalize, items) && attempt < MAX_ATTEMPTS
      && (kept ==> s.branch != NO_BRANCH)
      && (found ==> raw.Some? ==> Admissible(s, items, raw))
      && (found <==> s.found)
      && (kept && found && raw.Some? ==> raw.value.Stored? && raw.value.branch == s.branch && raw.value.items <= items)
    case Rereading(s, items, kept, attempt) =>
      SeenOk(normalize, w, s) && Clean(normalize, items) && attempt < MAX_ATTEMPTS && (kept ==> s.branch != NO_BRANCH)
    case Replaced(s, _, _) => SeenOk(normalize, w, s)
    case Deleted(s, _) => SeenOk(normalize, w, s)
    case _ => true
  }

  ghost predicate RegisterOk(normalize: Bytes -> Option<Bytes>, w: World) {
    w.register.Some? && w.register.value.Stored? ==>
      var v := w.register.value;
      && ValueOk(normalize, w, v)
      && Write("", v.branch, v.items) in w.log
      && forall i | 0 <= i < |w.log| && w.log[i].branch == v.branch :: w.log[i].items <= v.items
  }

  ghost predicate LogOk(w: World) {
    Chain(w.log) && forall i | 0 <= i < |w.log| :: w.log[i].key == "" && w.log[i].branch <= w.branches
  }

  ghost predicate Inv(normalize: Bytes -> Option<Bytes>, w: World) {
    RegisterOk(normalize, w) && LogOk(w) && forall c | c in w.clients :: PhaseOk(normalize, w, w.clients[c])
  }

  lemma MoveKeepsInv(normalize: Bytes -> Option<Bytes>, w: World, c: nat, p: Phase)
    requires Inv(normalize, w) && PhaseOk(normalize, w, p)
    ensures Inv(normalize, Move(w, c, p))
  {
    var w' := Move(w, c, p);
    forall k | k in w'.clients ensures PhaseOk(normalize, w', w'.clients[k]) {
      PhaseStable(normalize, w, w', w'.clients[k]);
    }
  }

  lemma PhaseStable(normalize: Bytes -> Option<Bytes>, w: World, w': World, p: Phase)
    requires PhaseOk(normalize, w, p) && w.branches <= w'.branches
    ensures PhaseOk(normalize, w', p)
  {
  }

  ghost predicate Continues(register: Option<Value>, branch: nat, items: Items) {
    && register.Some?
    && register.value.Stored?
    && register.value.branch == branch
    && register.value.items <= items
  }

  lemma PublishKeepsInv(normalize: Bytes -> Option<Bytes>, w: World, branch: nat, deleted: bool, items: Items)
    requires Inv(normalize, w) && if deleted then items == [] else Clean(normalize, items)
    requires branch != NO_BRANCH ==> Continues(w.register, branch, items)
    ensures Inv(normalize, Publish(w, branch, deleted, items))
  {
    hide Clean;
    var w' := Publish(w, branch, deleted, items);
    assert w'.log[|w.log|] == Write("", w'.register.value.branch, items);
    forall k | k in w'.clients ensures PhaseOk(normalize, w', w'.clients[k]) {
      PhaseStable(normalize, w, w', w'.clients[k]);
    }
  }

  lemma SeenOfIsOk(normalize: Bytes -> Option<Bytes>, w: World, v: Value)
    requires ValueOk(normalize, w, v)
    ensures SeenOk(normalize, w, SeenOf(normalize, v))
  {
  }

  lemma RereadIsOk(normalize: Bytes -> Option<Bytes>, w: World, p: Phase)
    requires RegisterOk(normalize, w) && p.Rereading? && PhaseOk(normalize, w, p)
    ensures PhaseOk(normalize, w, AfterReread(normalize, p, w.register))
  {
  }

  /** A swap that finds what it expects overwrites only what it may. */
  lemma SwapIsOk(normalize: Bytes -> Option<Bytes>, w: World, p: Phase)
    requires p.Swapping? && PhaseOk(normalize, w, p) && Holds(w.register, p.raw, p.found)
    ensures Admissible(p.seen, p.items, w.register)
    ensures BranchOf(p) != NO_BRANCH ==> Continues(w.register, BranchOf(p), p.items)
  {
  }

  /** The commands of a get. */
  lemma GetKeepsInv(normalize: Bytes -> Option<Bytes>, w: World, e: Event)
    requires Idempotent(normalize) && Inv(normalize, w) && Enabled(normalize, w, e)
    requires e.Start? || e.Read? || e.ReadFails? || e.Reserve? || e.ReserveFails?
    ensures Inv(normalize, Next(normalize, w, e))
  {
    hide Idempotent, Clean, Normalized, LogOk, AfterReread, Replayable;
    match e
    case Start(c) => MoveKeepsInv(normalize, w, c, Getting(0));
    case Read(c) =>
      if w.register.Some? {
        SeenOfIsOk(normalize, w, w.register.value);
        MoveKeepsInv(normalize, w, c, Holding(SeenOf(normalize, w.register.value)));
      } else {
        MoveKeepsInv(normalize, w, c, Reserving(w.clients[c].attempt));
      }
    case ReadFails(c) => MoveKeepsInv(normalize, w, c, Holding(NOTHING_SEEN));
    case Reserve(c) =>
      if w.register.None? {
        var w' := Publish(w, NO_BRANCH, true, []);
        PublishKeepsInv(normalize, w, NO_BRANCH, true, []);
        SeenOfIsOk(normalize, w', w'.register.value);
        MoveKeepsInv(normalize, w', c, Holding(SeenOf(normalize, w'.register.value)));
      } else {
        var attempt := w.clients[c].attempt + 1;
        MoveKeepsInv(normalize, w, c, if attempt < MAX_ATTEMPTS then Getting(attempt) else Holding(NOTHING_SEEN));
      }
    case ReserveFails(c, applied) =>
      PublishKeepsInv(normalize, w, NO_BRANCH, true, []);
      MoveKeepsInv(normalize, if applied then Publish(w, NO_BRANCH, true, []) else w, c, Holding(NOTHING_SEEN));
  }

  /** The commands of a conditional replace. */
  lemma ReplaceKeepsInv(normalize: Bytes -> Option<Bytes>, w: World, e: Event)
    requires Idempotent(normalize) && Inv(normalize, w) && Enabled(normalize, w, e)
    requires e.BeginReplace? || e.Swap? || e.SwapFails? || e.Reread? || e.RereadFails?
    ensures Inv(normalize, Next(normalize, w, e))
  {
    hide Idempotent, Clean, Normalized, LogOk, AfterReread, Replayable;
    match e
    case BeginReplace(c, input) =>
      NormalizedIsClean(normalize, input);
      assert PhaseOk(normalize, w, w.clients[c]);
      var seen, items := w.clients[c].seen, Normalized(normalize, input).value;
      var kept := seen.branch != NO_BRANCH && seen.items <= items;
      MoveKeepsInv(normalize, w, c, Swapping(seen, items, kept, seen.raw, seen.found, 0));
    case Swap(c) =>
      var p := w.clients[c];
      assert PhaseOk(normalize, w, p);
      if Holds(w.register, p.raw, p.found) {
        SwapIsOk(normalize, w, p);
        PublishKeepsInv(normalize, w, BranchOf(p), false, p.items);
        MoveKeepsInv(normalize, Publish(w, BranchOf(p), false, p.items), c, Replaced(p.seen, p.items, Accepted));
      } else {
        MoveKeepsInv(normalize, w, c, Rereading(p.seen, p.items, p.kept, p.attempt));
      }
    case SwapFails(c, applied) =>
      var p := w.clients[c];
      assert PhaseOk(normalize, w, p);
      if applied {
        SwapIsOk(normalize, w, p);
        PublishKeepsInv(normalize, w, BranchOf(p), false, p.items);
      }
      MoveKeepsInv(normalize, if applied then Publish(w, BranchOf(p), false, p.items) else w, c,
                   Replaced(p.seen, p.items, Failed));
    case Reread(c) =>
      assert PhaseOk(normalize, w, w.clients[c]);
      RereadIsOk(normalize, w, w.clients[c]);
      MoveKeepsInv(normalize, w, c, AfterReread(normalize, w.clients[c], w.register));
    case RereadFails(c) => MoveKeepsInv(normalize, w, c, Replaced(w.clients[c].seen, w.clients[c].items, Failed));
  }

  /** Conditional deletes, unconditional writes and expiry. */
  lemma OtherKeepsInv(normalize: Bytes -> Option<Bytes>, w: World, e: Event)
    requires Idempotent(normalize) && Inv(normalize, w) && Enabled(normalize, w, e)
    requires e.BeginDelete? || e.SwapTombstone? || e.SwapTombstoneFails? || e.Overwrite? || e.Erase? || e.Expire?
    ensures Inv(normalize, Next(normalize, w, e))
  {
    hide Idempotent, Clean, Normalized, LogOk, AfterReread, Replayable;
    match e
    case BeginDelete(c) =>
      assert PhaseOk(normalize, w, w.clients[c]);
      MoveKeepsInv(normalize, w, c, Deleting(w.clients[c].seen));
    case SwapTombstone(c) =>
      var p := w.clients[c];
      PublishKeepsInv(normalize, w, NO_BRANCH, true, []);
      if Holds(w.register, p.seen.raw, p.seen.found) {
        MoveKeepsInv(normalize, Publish(w, NO_BRANCH, true, []), c, Deleted(p.seen, Accepted));
      } else {
        MoveKeepsInv(normalize, w, c, Deleted(p.seen, Rejected));
      }
    case SwapTombstoneFails(c, applied) =>
      var p := w.clients[c];
      PublishKeepsInv(normalize, w, NO_BRANCH, true, []);
      MoveKeepsInv(normalize, if applied then Publish(w, NO_BRANCH, true, []) else w, c,
                   Deleted(p.seen, Failed));
    case Overwrite(input) =>
      NormalizedIsClean(normalize, input);
      PublishKeepsInv(normalize, w, NO_BRANCH, false, Normalized(normalize, input).value);
    case Erase => PublishKeepsInv(normalize, w, NO_BRANCH, true, []);
    case Expire =>
      var w' := w.(register := None);
      forall k | k in w'.clients ensures PhaseOk(normalize, w', w'.clients[k]) {
        PhaseStable(normalize, w, w', w'.clients[k]);
      }
      assert LogOk(w') by { LogOkStable(w, w'); }
  }

  lemma NextKeepsInv(normalize: Bytes -> Option<Bytes>, w: World, e: Event)
    requires Idempotent(normalize) && Inv(normalize, w) && Enabled(normalize, w, e)
    ensures Inv(normalize, Next(normalize, w, e))
  {
    hide Idempotent, Inv, Enabled, Next;
    if e.Start? || e.Read? || e.ReadFails? || e.Reserve? || e.ReserveFails? {
      GetKeepsInv(normalize, w, e);
    } else if e.BeginReplace? || e.Swap? || e.SwapFails? || e.Reread? || e.RereadFails? {
      ReplaceKeepsInv(normalize, w, e);
    } else {
      OtherKeepsInv(normalize, w, e);
    }
  }

  lemma LogOkStable(w: World, w': World)
    requires LogOk(w) && w'.log == w.log && w'.branches == w.branches
    ensures LogOk(w')
  {
  }

  lemma {:induction false} RunKeepsInv(normalize: Bytes -> Option<Bytes>, worlds: seq<World>, events: seq<Event>,
      i: nat)
    requires Idempotent(normalize) && IsRun(normalize, worlds, events) && i < |worlds|
    ensures Inv(normalize, worlds[i])
  {
    hide Idempotent, Next, Enabled;
    if i > 0 {
      hide Inv;
      RunKeepsInv(normalize, worlds, events, i - 1);
      NextKeepsInv(normalize, worlds[i - 1], events[i - 1]);
    }
  }

  // ---------------------------------------------------------------- counting the writes of a request

  predicate ByClient(e: Event, c: nat) {
    !e.Overwrite? && !e.Erase? && !e.Expire? && e.c == c
  }

  /** The last request client c began before step i, or -1. */
  function LastBegin(events: seq<Event>, c: nat, i: nat): (b: int)
    requires i <= |events|
    ensures -1 <= b < i
  {
    if i == 0 then -1
    else if ByClient(events[i - 1], c) && (events[i - 1].BeginReplace? || events[i - 1].BeginDelete?) then i - 1
    else LastBegin(events, c, i - 1)
  }

  /** The steps between lo and hi at which client c published a value. */
  ghost function WritesIn(worlds: seq<World>, events: seq<Event>, c: nat, lo: nat, hi: nat): set<int>
    requires hi <= |events| < |worlds|
  {
    set k | lo <= k < hi && ByClient(events[k], c) && |worlds[k + 1].log| > |worlds[k].log|
  }

  lemma WritesGrow(worlds: seq<World>, events: seq<Event>, c: nat, lo: nat, hi: nat)
    requires lo <= hi < |events| < |worlds|
    ensures WritesIn(worlds, events, c, lo, hi + 1) == WritesIn(worlds, events, c, lo, hi)
              + if ByClient(events[hi], c) && |worlds[hi + 1].log| > |worlds[hi].log| then {hi} else {}
  {
  }

  /** The snapshot a client holds, and what it means to publish, whatever it is doing. */
  function SeenBy(p: Phase): Seen {
    if p.Idle? || p.Getting? || p.Reserving? then NOTHING_SEEN else p.seen
  }

  /** The request of client c that began at step b wrote exactly once before step i, over an admissible value. */
  ghost predicate WroteOnce(worlds: seq<World>, events: seq<Event>, c: nat, b: nat, i: nat, items: Option<Items>)
    requires b <= i <= |events| < |worlds| && c in worlds[i].clients
  {
    exists k :: WritesIn(worlds, events, c, b + 1, i) == {k} && b < k < i
      && MayReplace(SeenBy(worlds[i].clients[c]), items, worlds[k].register)
      && Published(items, worlds[k + 1].register)
  }

  /** A replace leaves its items, a delete a tombstone. */
  predicate Published(items: Option<Items>, register: Option<Value>) {
    && register.Some?
    && register.value.Stored?
    && register.value.deleted == items.None?
    && register.value.items == if items.Some? then items.value else []
  }

  /** What a replace may overwrite, and, without items, what a delete may. */
  ghost predicate MayReplace(s: Seen, items: Option<Items>, over: Option<Value>) {
    if items.Some? then Admissible(s, items.value, over) else Holds(over, s.raw, s.found)
  }

  ghost predicate WroteNothing(worlds: seq<World>, events: seq<Event>, c: nat, b: nat, i: nat)
    requires b <= i <= |events| < |worlds|
  {
    WritesIn(worlds, events, c, b + 1, i) == {}
  }

  ghost predicate Settled(worlds: seq<World>, events: seq<Event>, c: nat, b: nat, i: nat, outcome: Outcome,
      items: Option<Items>)
    requires b <= i <= |events| < |worlds| && c in worlds[i].clients
  {
    match outcome
    case Accepted => WroteOnce(worlds, events, c, b, i, items)
    case Rejected => WroteNothing(worlds, events, c, b, i)
    case Failed => WroteNothing(worlds, events, c, b, i) || WroteOnce(worlds, events, c, b, i, items)
  }

  /** What the phase of client c at step i says about the writes of its last request. */
  ghost predicate Tallied(normalize: Bytes -> Option<Bytes>, worlds: seq<World>, events: seq<Event>, c: nat, i: nat)
    requires i <= |events| < |worlds| && c in worlds[i].clients
  {
    var p, b := worlds[i].clients[c], LastBegin(events, c, i);
    match p
    case Swapping(_, items, _, _, _, _) =>
      b >= 0 && FromReplace(normalize, events, b, items) && WroteNothing(worlds, events, c, b, i)
    case Rereading(_, items, _, _) =>
      b >= 0 && FromReplace(normalize, events, b, items) && WroteNothing(worlds, events, c, b, i)
    case Deleting(_) => b >= 0 && events[b].BeginDelete? && WroteNothing(worlds, events, c, b, i)
    case Replaced(_, items, outcome) =>
      b >= 0 && FromReplace(normalize, events, b, items) && Settled(worlds, events, c, b, i, outcome, Some(items))
    case Deleted(_, outcome) => b >= 0 && events[b].BeginDelete? && Settled(worlds, events, c, b, i, outcome, None)
    case _ => true
  }

  ghost predicate FromReplace(normalize: Bytes -> Option<Bytes>, events: seq<Event>, b: nat, items: Items)
    requires b < |events|
  {
    events[b].BeginReplace? && Normalized(normalize, events[b].input) == Some(items)
  }

  lemma StillNothing(worlds: seq<World>, events: seq<Event>, c: nat, b: nat, i: nat)
    requires b < i < |events| < |worlds| && WroteNothing(worlds, events, c, b, i)
    ensures !(ByClient(events[i], c) && |worlds[i + 1].log| > |worlds[i].log|) ==>
              WroteNothing(worlds, events, c, b, i + 1)
    ensures ByClient(events[i], c) && |worlds[i + 1].log| > |worlds[i].log| ==>
              WritesIn(worlds, events, c, b + 1, i + 1) == {i}
  {
    WritesGrow(worlds, events, c, b + 1, i);
  }

  /** Steps of others leave a client's tally as it is. */
  lemma OthersKeepTally(normalize: Bytes -> Option<Bytes>, worlds: seq<World>, events: seq<Event>, c: nat, i: nat)
    requires i < |events| < |worlds| && c in worlds[i].clients && Tallied(normalize, worlds, events, c, i)
    requires !ByClient(events[i], c) && c in worlds[i + 1].clients && worlds[i + 1].clients[c] == worlds[i].clients[c]
    ensures Tallied(normalize, worlds, events, c, i + 1)
  {
    var b := LastBegin(events, c, i);
    assert LastBegin(events, c, i + 1) == b;
    if b >= 0 {
      WritesGrow(worlds, events, c, b + 1, i);
      assert WritesIn(worlds, events, c, b + 1, i + 1) == WritesIn(worlds, events, c, b + 1, i);
      SettledStays(worlds, events, c, b, i);
    }
  }

  lemma SettledStays(worlds: seq<World>, events: seq<Event>, c: nat, b: nat, i: nat)
    requires b < i < |events| < |worlds| && c in worlds[i].clients && c in worlds[i + 1].clients
    requires worlds[i + 1].clients[c] == worlds[i].clients[c]
    requires WritesIn(worlds, events, c, b + 1, i + 1) == WritesIn(worlds, events, c, b + 1, i)
    ensures forall items | WroteOnce(worlds, events, c, b, i, items) :: WroteOnce(worlds, events, c, b, i + 1, items)
    ensures WroteNothing(worlds, events, c, b, i) ==> WroteNothing(worlds, events, c, b, i + 1)
  {
    hide MayReplace, WritesIn, Published, SeenBy, ByClient;
    forall items | WroteOnce(worlds, events, c, b, i, items) ensures WroteOnce(worlds, events, c, b, i + 1, items) {
      var k :| WritesIn(worlds, events, c, b + 1, i) == {k} && b < k < i
        && MayReplace(SeenBy(worlds[i].clients[c]), items, worlds[k].register)
        && Published(items, worlds[k + 1].register);
      assert WritesIn(worlds, events, c, b + 1, i + 1) == {k};
    }
  }

  /** The commands of a replace, by the client itself. */
  lemma ReplaceTally(normalize: Bytes -> Option<Bytes>, worlds: seq<World>, events: seq<Event>, c: nat, i: nat)
    requires i < |events| < |worlds| && Enabled(normalize, worlds[i], events[i])
    requires worlds[i + 1] == Next(normalize, worlds[i], events[i])
    requires Inv(normalize, worlds[i]) && ByClient(events[i], c) && Tallied(normalize, worlds, events, c, i)
    requires events[i].Swap? || events[i].SwapFails? || events[i].Reread? || events[i].RereadFails?
    ensures Tallied(normalize, worlds, events, c, i + 1)
  {
    hide Normalized, Replayable, Clean, RegisterOk, LogOk, WritesIn, Admissible;
    var w, e := worlds[i], events[i];
    var p, b := w.clients[c], LastBegin(events, c, i);
    assert LastBegin(events, c, i + 1) == b;
    assert PhaseOk(normalize, w, p);
    StillNothing(worlds, events, c, b, i);
    if p.Swapping? && Holds(w.register, p.raw, p.found) {
      SwapIsOk(normalize, w, p);
    }
    assert worlds[i + 1].clients[c].Replaced? && |worlds[i + 1].log| > |w.log| ==>
        MayReplace(SeenBy(worlds[i + 1].clients[c]), Some(worlds[i + 1].clients[c].items), w.register)
        && Published(Some(worlds[i + 1].clients[c].items), worlds[i + 1].register);
  }

  /** The command of a delete. */
  lemma DeleteTally(normalize: Bytes -> Option<Bytes>, worlds: seq<World>, events: seq<Event>, c: nat, i: nat)
    requires i < |events| < |worlds| && Enabled(normalize, worlds[i], events[i])
    requires worlds[i + 1] == Next(normalize, worlds[i], events[i])
    requires ByClient(events[i], c) && Tallied(normalize, worlds, events, c, i)
    requires events[i].SwapTombstone? || events[i].SwapTombstoneFails?
    ensures Tallied(normalize, worlds, events, c, i + 1)
  {
    hide WritesIn, Admissible;
    var w, b := worlds[i], LastBegin(events, c, i);
    assert LastBegin(events, c, i + 1) == b;
    StillNothing(worlds, events, c, b, i);
  }

  lemma BeginTally(normalize: Bytes -> Option<Bytes>, worlds: seq<World>, events: seq<Event>, c: nat, i: nat)
    requires i < |events| < |worlds| && Enabled(normalize, worlds[i], events[i])
    requires worlds[i + 1] == Next(normalize, worlds[i], events[i])
    requires ByClient(events[i], c)
    requires !events[i].Swap? && !events[i].SwapFails? && !events[i].Reread? && !events[i].RereadFails?
    requires !events[i].SwapTombstone? && !events[i].SwapTombstoneFails?
    ensures Tallied(normalize, worlds, events, c, i + 1)
  {
    assert events[i].BeginReplace? || events[i].BeginDelete? ==> LastBegin(events, c, i + 1) == i;
    assert WritesIn(worlds, events, c, i + 1, i + 1) == {};
  }

  lemma SameClients(normalize: Bytes -> Option<Bytes>, w: World, e: Event, c: nat)
    requires Enabled(normalize, w, e)
    ensures Next(normalize, w, e).clients.Keys == w.clients.Keys
    ensures c in w.clients && !ByClient(e, c) ==> Next(normalize, w, e).clients[c] == w.clients[c]
    ensures ByClient(e, c) ==> c in w.clients
  {
  }

  lemma {:induction false} TalliesHold(normalize: Bytes -> Option<Bytes>, worlds: seq<World>, events: seq<Event>,
      i: nat, c: nat)
    requires Idempotent(normalize) && IsRun(normalize, worlds, events) && i < |worlds| && c in worlds[i].clients
    ensures Tallied(normalize, worlds, events, c, i)
    decreases i
  {
    hide Idempotent, Next, Enabled, Inv, Tallied;
    if i == 0 {
      IdleTally(normalize, worlds, events, c);
    } else {
      var e := events[i - 1];
      SameClients(normalize, worlds[i - 1], e, c);
      RunKeepsInv(normalize, worlds, events, i - 1);
      TalliesHold(normalize, worlds, events, i - 1, c);
      if !ByClient(e, c) {
        OthersKeepTally(normalize, worlds, events, c, i - 1);
      } else if e.Swap? || e.SwapFails? || e.Reread? || e.RereadFails? {
        ReplaceTally(normalize, worlds, events, c, i - 1);
      } else if e.SwapTombstone? || e.SwapTombstoneFails? {
        DeleteTally(normalize, worlds, events, c, i - 1);
      } else {
        BeginTally(normalize, worlds, events, c, i - 1);
      }
    }
  }

  lemma IdleTally(normalize: Bytes -> Option<Bytes>, worlds: seq<World>, events: seq<Event>, c: nat)
    requires |events| < |worlds| && Initial(worlds[0]) && c in worlds[0].clients
    ensures Tallied(normalize, worlds, events, c, 0)
  {
  }

  // ---------------------------------------------------------------- main results

  /**
   * In every interleaving, counting what a client published since its replace began: a replace that
   * reports success wrote exactly once, at an instant when the register held what its snapshot saw, or a
   * live value of the same branch that its items extend. One that reports rejection wrote nothing, and
   * one whose command failed wrote nothing or once, over such a value.
   */
  lemma ReplaceIsSafe(normalize: Bytes -> Option<Bytes>, worlds: seq<World>, events: seq<Event>, i: nat, c: nat)
    requires Idempotent(normalize) && IsRun(normalize, worlds, events) && i < |worlds|
    requires c in worlds[i].clients && worlds[i].clients[c].Replaced?
    ensures var r, b := worlds[i].clients[c], LastBegin(events, c, i);
            && b >= 0 && events[b].BeginReplace? && Normalized(normalize, events[b].input) == Some(r.items)
            && var writes := WritesIn(worlds, events, c, b + 1, i);
               && (r.outcome.Accepted? ==> |writes| == 1)
               && (r.outcome.Rejected? ==> writes == {})
               && |writes| <= 1
               && (forall k | k in writes :: Published(Some(r.items), worlds[k + 1].register))
               && forall k | k in writes ::
                    || Holds(worlds[k].register, r.seen.raw, r.seen.found)
                    || (worlds[k].register.Some? && worlds[k].register.value.Stored?
                        && !worlds[k].register.value.deleted && r.seen.branch != NO_BRANCH
                        && worlds[k].register.value.branch == r.seen.branch
                        && worlds[k].register.value.items <= r.items)
  {
    hide IsRun, Idempotent, LastBegin, WritesIn, Holds, Published, Normalized;
    TalliesHold(normalize, worlds, events, i, c);
  }

  /**
   * A conditional delete that reports success wrote exactly once, over exactly the value its snapshot saw;
   * a rejected one wrote nothing, and one whose command failed wrote nothing or once, over that value.
   */
  lemma DeleteIsSafe(normalize: Bytes -> Option<Bytes>, worlds: seq<World>, events: seq<Event>, i: nat, c: nat)
    requires Idempotent(normalize) && IsRun(normalize, worlds, events) && i < |worlds|
    requires c in worlds[i].clients && worlds[i].clients[c].Deleted?
    ensures var d, b := worlds[i].clients[c], LastBegin(events, c, i);
            && b >= 0 && events[b].BeginDelete?
            && var writes := WritesIn(worlds, events, c, b + 1, i);
               && (d.outcome.Accepted? ==> |writes| == 1)
               && (d.outcome.Rejected? ==> writes == {})
               && |writes| <= 1
               && forall k | k in writes ::
                    Holds(worlds[k].register, d.seen.raw, d.seen.found) && Published(None, worlds[k + 1].register)
  {
    hide IsRun, Idempotent, LastBegin, WritesIn, Holds, Published, Admissible;
    TalliesHold(normalize, worlds, events, i, c);
  }

  /** The register's own history is a chain on every branch: no client ever drops another's turn on it. */
  lemma RegisterIsChain(normalize: Bytes -> Option<Bytes>, worlds: seq<World>, events: seq<Event>, i: nat)
    requires Idempotent(normalize) && IsRun(normalize, worlds, events) && i < |worlds|
    ensures Chain(worlds[i].log)
    ensures worlds[i].register.Some? && worlds[i].register.value.Stored? ==>
              Write("", worlds[i].register.value.branch, worlds[i].register.value.items) in worlds[i].log
  {
    RunKeepsInv(normalize, worlds, events, i);
  }

  // ---------------------------------------------------------------- no resurrection

  /** The register has left what a snapshot saw: its branch, or the very value when that has none. */
  ghost predicate Left(s: Seen, register: Option<Value>) {
    match s.raw
    case None => true
    case Some(v) =>
      if v.Stored? then register.None? || !register.value.Stored? || register.value.branch != s.branch
      else register != s.raw && (register.Some? ==> register.value.Stored?)
  }

  /** A register that left a snapshot never comes back to it: branches and nonces are drawn anew. */
  lemma LeftStays(normalize: Bytes -> Option<Bytes>, w: World, e: Event, s: Seen)
    requires Inv(normalize, w) && Enabled(normalize, w, e)
    requires SeenOk(normalize, w, s) && s.found && Left(s, w.register)
    ensures SeenOk(normalize, Next(normalize, w, e), s) && Left(s, Next(normalize, w, e).register)
  {
    hide Normalized, Replayable, Clean, RegisterOk, LogOk, AfterReread;
    if e.Swap? || e.SwapFails? {
      var p := w.clients[e.c];
      assert PhaseOk(normalize, w, p);
      if Holds(w.register, p.raw, p.found) {
        SwapIsOk(normalize, w, p);
      }
    }
  }

  predicate IsSwap(e: Event) {
    e.Swap? || e.SwapFails? || e.SwapTombstone? || e.SwapTombstoneFails?
  }

  /**
   * The register bars a snapshot: it left what was seen, or, for the snapshot of a read that failed, which
   * stands for an empty register, it holds something.
   */
  ghost predicate Barred(s: Seen, register: Option<Value>) {
    if s.found then Left(s, register) else register.Some?
  }

  /** A request that writes now would have to find its snapshot's value or branch, or the register empty. */
  lemma BarredIsRejected(normalize: Bytes -> Option<Bytes>, w: World, e: Event, s: Seen)
    requires Inv(normalize, w) && Enabled(normalize, w, e) && IsSwap(e) && SeenBy(w.clients[e.c]) == s
    ensures Barred(s, w.register) ==> Next(normalize, w, e).log == w.log && Next(normalize, w, e).register == w.register
    ensures !s.found && !Barred(s, w.register) && (e.Swap? || e.SwapTombstone?) ==>
              |Next(normalize, w, e).log| == |w.log| + 1
  {
    hide Normalized, Replayable, Clean, RegisterOk, LogOk, AfterReread;
    var p := w.clients[e.c];
    assert PhaseOk(normalize, w, p);
    if p.Swapping? && Holds(w.register, p.raw, p.found) {
      SwapIsOk(normalize, w, p);
    }
  }

  /**
   * No resurrection over the register: once it was overwritten off a snapshot's branch, erased or expired
   * after a client read that snapshot, no swap of any client holding it writes ever again. The snapshot of
   * a read that failed saw no value; its swap writes exactly when the register is empty at that moment.
   */
  lemma {:induction false} NothingComesBack(normalize: Bytes -> Option<Bytes>, worlds: seq<World>, events: seq<Event>,
      i: nat, j: nat, s: Seen)
    requires Idempotent(normalize) && IsRun(normalize, worlds, events) && i <= j < |events|
    requires exists c | c in worlds[i].clients :: SeenBy(worlds[i].clients[c]) == s
    requires IsSwap(events[j]) && SeenBy(worlds[j].clients[events[j].c]) == s
    ensures (s.found && Left(s, worlds[i].register)) || (!s.found && worlds[j].register.Some?) ==>
              worlds[j + 1].log == worlds[j].log && worlds[j + 1].register == worlds[j].register
    ensures !s.found && worlds[j].register.None? && (events[j].Swap? || events[j].SwapTombstone?) ==>
              |worlds[j + 1].log| == |worlds[j].log| + 1
  {
    hide Inv, Enabled, Next, Left;
    RunKeepsInv(normalize, worlds, events, i);
    HeldIsOk(normalize, worlds[i], s);
    if s.found && Left(s, worlds[i].register) {
      LeftThroughout(normalize, worlds, events, i, j, s);
    }
    RunKeepsInv(normalize, worlds, events, j);
    BarredIsRejected(normalize, worlds[j], events[j], s);
  }

  lemma HeldIsOk(normalize: Bytes -> Option<Bytes>, w: World, s: Seen)
    requires Inv(normalize, w) && exists c | c in w.clients :: SeenBy(w.clients[c]) == s
    ensures SeenOk(normalize, w, s)
  {
    var c :| c in w.clients && SeenBy(w.clients[c]) == s;
    assert PhaseOk(normalize, w, w.clients[c]);
  }

  lemma {:induction false} LeftThroughout(normalize: Bytes -> Option<Bytes>, worlds: seq<World>, events: seq<Event>,
      i: nat, j: nat, s: Seen)
    requires Idempotent(normalize) && IsRun(normalize, worlds, events) && i <= j < |worlds|
    requires SeenOk(normalize, worlds[i], s) && s.found && Left(s, worlds[i].register)
    ensures SeenOk(normalize, worlds[j], s) && Left(s, worlds[j].register)
    decreases j
  {
    hide Inv, Enabled, Next, Left, SeenOk;
    if i < j {
      LeftThroughout(normalize, worlds, events, i, j - 1, s);
      RunKeepsInv(normalize, worlds, events, j - 1);
      LeftStays(normalize, worlds[j - 1], events[j - 1], s);
    }
  }

  /**
   * The unconditional writes and an accepted delete bar every snapshot taken before; so does expiry, except
   * for the snapshot of a read that failed, which it serves.
   */
  lemma EndingBars(normalize: Bytes -> Option<Bytes>, w: World, e: Event, s: Seen)
    requires Inv(normalize, w) && Enabled(normalize, w, e) && SeenOk(normalize, w, s)
    requires e.Overwrite? || e.Erase? || e.Expire? || (e.SwapTombstone? && |Next(normalize, w, e).log| > |w.log|)
    ensures Barred(s, Next(normalize, w, e).register) <==> s.found || !e.Expire?
  {
    hide Normalized, Replayable, Clean, RegisterOk, LogOk;
  }

  /** A run in which the replace of a client whose read failed lands after another value came and expired. */
  lemma FailedReadWritesAfterExpiry(normalize: Bytes -> Option<Bytes>, other: Items, input: Items)
    returns (worlds: seq<World>, events: seq<Event>)
    requires Normalized(normalize, other).Some? && Normalized(normalize, input).Some?
    ensures IsRun(normalize, worlds, events) && |events| == 6 && events[1] == ReadFails(1)
    ensures events[2] == Overwrite(other) && events[3].Expire?
    ensures 1 in worlds[6].clients
    ensures worlds[6].clients[1] == Replaced(NOTHING_SEEN, Normalized(normalize, input).value, Accepted)
    ensures Published(Some(Normalized(normalize, input).value), worlds[6].register)
  {
    hide Normalized, Next, Enabled, IsRun;
    var w0 := World.World(None, map[1 := Idle], 0, 0, []);
    RunBegins(normalize, w0);
    ReadFailed(normalize, w0);
    worlds, events := RunOn(normalize, [w0], [], Start(1), ReadFails(1));
    OverwriteAndExpire(normalize, worlds[2], other);
    worlds, events := RunOn(normalize, worlds, events, Overwrite(other), Expire);
    SwapsOnEmpty(normalize, worlds[4], input);
    worlds, events := RunOn(normalize, worlds, events, BeginReplace(1, input), Swap(1));
  }

  lemma RunBegins(normalize: Bytes -> Option<Bytes>, w: World)
    requires Initial(w)
    ensures IsRun(normalize, [w], [])
  {
  }

  /** A run goes on by two enabled steps. */
  lemma RunOn(normalize: Bytes -> Option<Bytes>, worlds: seq<World>, events: seq<Event>, e: Event, f: Event)
    returns (more: seq<World>, steps: seq<Event>)
    requires IsRun(normalize, worlds, events)
    requires var w := worlds[|events|]; Enabled(normalize, w, e) && Enabled(normalize, Next(normalize, w, e), f)
    ensures IsRun(normalize, more, steps) && |more| == |worlds| + 2 && steps == events + [e, f]
    ensures more[|events| + 2] == Next(normalize, Next(normalize, worlds[|events|], e), f)
  {
    hide Next, Enabled;
    var w := worlds[|events|];
    var w' := Next(normalize, w, e);
    steps, more := events + [e, f], worlds + [w', Next(normalize, w', f)];
    forall i | 0 <= i < |steps|
      ensures Enabled(normalize, more[i], steps[i]) && more[i + 1] == Next(normalize, more[i], steps[i])
    {
      if i < |events| {
        assert more[i] == worlds[i] && more[i + 1] == worlds[i + 1] && steps[i] == events[i];
      }
    }
  }

  lemma ReadFailed(normalize: Bytes -> Option<Bytes>, w: World)
    requires w.clients == map[1 := Idle]
    ensures Enabled(normalize, w, Start(1)) && Enabled(normalize, Next(normalize, w, Start(1)), ReadFails(1))
    ensures var after := Next(normalize, Next(normalize, w, Start(1)), ReadFails(1));
            after == w.(clients := map[1 := Holding(NOTHING_SEEN)])
  {
  }

  lemma OverwriteAndExpire(normalize: Bytes -> Option<Bytes>, w: World, other: Items)
    requires Normalized(normalize, other).Some?
    ensures Enabled(normalize, w, Overwrite(other)) && Enabled(normalize, Next(normalize, w, Overwrite(other)), Expire)
    ensures var after := Next(normalize, Next(normalize, w, Overwrite(other)), Expire);
            after.register.None? && after.clients == w.clients
  {
    hide Normalized;
  }

  lemma SwapsOnEmpty(normalize: Bytes -> Option<Bytes>, w: World, input: Items)
    requires w.register.None? && w.clients == map[1 := Holding(NOTHING_SEEN)] && Normalized(normalize, input).Some?
    ensures Enabled(normalize, w, BeginReplace(1, input))
    ensures Enabled(normalize, Next(normalize, w, BeginReplace(1, input)), Swap(1))
    ensures var after := Next(normalize, Next(normalize, w, BeginReplace(1, input)), Swap(1));
            && after.clients == map[1 := Replaced(NOTHING_SEEN, Normalized(normalize, input).value, Accepted)]
            && Published(Some(Normalized(normalize, input).value), after.register)
  {
    hide Normalized;
  }
}
