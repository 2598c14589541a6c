/**
 * Appending turns in home mode: any number of clients retrying compare-and-swap over one register
 * (internal/cache/codex_reasoning_replay_cache.go). One step is one KV command.
 */
module CodexAppendLog {
  import opened ByteStrings
  import opened CodexTurns

  const MAX_CAS_ATTEMPTS: nat := 32

  datatype Phase =
    | Idle
    | Getting(turn: Items, attempt: nat)
    | Swapping(turn: Items, attempt: nat, raw: Option<Items>)
    | Done(turn: Items, ok: bool)

  /**
   * The register, the clients, and the turns accepted since the register was last set, deleted or
   * expired, in commit order.
   */
  datatype World = World(register: Option<Items>, clients: map<nat, Phase>, accepted: seq<Items>)

  datatype Event =
    | Start(c: nat, turn: Items)
    | Cancel(c: nat)
    | Read(c: nat)
    | ReadFails(c: nat)
    | Swap(c: nat)
    | SwapFails(c: nat, applied: bool)
    | Set(items: Items)
    | Remove

  function Existing(raw: Option<Items>): Items {
    match raw
    case Some(items) => items
    case None => []
  }

  /** What one committed append adds to the list of accepted turns. */
  function Accept(w: World, turn: Items): seq<Items> {
    var existing := Existing(w.register);
    if HasTurn(Base(existing), TurnId(turn)) then w.accepted
    else if existing != Base(existing) then [turn]
    else w.accepted + [turn]
  }

  function Commit(w: World, turn: Items): World {
    w.(register := Some(Appended(Existing(w.register), turn)), accepted := Accept(w, turn))
  }

  function Move(w: World, c: nat, p: Phase): World {
    w.(clients := w.clients[c := p])
  }

  ghost predicate Enabled(w: World, e: Event) {
    match e
    case Set(items) => items != [] && Fits(items)
    case Remove => true
    case _ =>
      e.c in w.clients &&
      var p := w.clients[e.c];
      match e
      case Start(_, turn) => (p.Idle? || p.Done?) && IsTurn(turn)
      case Cancel(_) => p.Getting?
      case Read(_) => p.Getting?
      case ReadFails(_) => p.Getting?
      case Swap(_) => p.Swapping?
      case SwapFails(_, applied) => p.Swapping? && (applied ==> w.register == p.raw)
      case _ => false
  }

  ghost function Next(w: World, e: Event): World
    requires Enabled(w, e)
  {
    match e
    case Start(c, turn) => Move(w, c, Getting(turn, 0))
    case Cancel(c) => Move(w, c, Done(w.clients[c].turn, false))
    case Read(c) => Move(w, c, Swapping(w.clients[c].turn, w.clients[c].attempt, w.register))
    case ReadFails(c) => Move(w, c, Done(w.clients[c].turn, false))
    case Swap(c) =>
      var p := w.clients[c];
      if w.register == p.raw then
        var register := Some(Appended(Existing(p.raw), p.turn));
        Move(w.(register := register, accepted := Accept(w, p.turn)), c, Done(p.turn, true))
      else if p.attempt + 1 < MAX_CAS_ATTEMPTS then Move(w, c, Getting(p.turn, p.attempt + 1))
      else Move(w, c, Done(p.turn, false))
    case SwapFails(c, applied) =>
      var p := w.clients[c];
      Move(if applied then Commit(w, p.turn) else w, c, Done(p.turn, false))
    case Set(items) => w.(register := Some(items), accepted := [items])
    case Remove => w.(register := None, accepted := [])
  }

  ghost predicate IsRun(worlds: seq<World>, events: seq<Event>) {
    && |worlds| == |events| + 1
    && worlds[0].register.None? && worlds[0].accepted == []
    && (forall c | c in worlds[0].clients :: worlds[0].clients[c].Idle?)
    && forall i | 0 <= i < |events| :: Enabled(worlds[i], events[i]) && worlds[i + 1] == Next(worlds[i], events[i])
  }

  function Concat(turns: seq<Items>): Items {
    if turns == [] then [] else Concat(turns[..|turns| - 1]) + turns[|turns| - 1]
  }

  ghost predicate PhaseOk(p: Phase) {
    (p.Getting? || p.Swapping? ==> IsTurn(p.turn))
  }

  /** A list led by a marker; every appended turn is one, and what is set need not be. */
  predicate IsLed(items: Items) {
    items != [] && items[0].turn
  }

  /** Turns follow the first list, and only a list that is alone can be led by anything but a marker. */
  ghost predicate LogOk(accepted: seq<Items>) {
    && (forall i | 0 < i < |accepted| :: IsTurn(accepted[i]))
    && (accepted != [] && !IsLed(accepted[0]) ==> |accepted| == 1 && accepted[0] != [] && Fits(accepted[0]))
  }

  ghost predicate Inv(w: World) {
    && (w.register.None? ==> w.accepted == [])
    && (w.register.Some? ==> w.register.value != [] && w.register.value == Trim(Concat(w.accepted)))
    && LogOk(w.accepted)
    && forall c | c in w.clients :: PhaseOk(w.clients[c])
  }

  lemma ConcatOneMore(turns: seq<Items>, turn: Items)
    ensures Concat(turns + [turn]) == Concat(turns) + turn
  {
    assert (turns + [turn])[..|turns|] == turns;
  }

  lemma ConcatOne(turn: Items)
    ensures Concat([turn]) == turn
  {
    assert [turn][..0] == [];
  }

  lemma FitsIsTrimmed(items: Items)
    requires Fits(items)
    ensures Trim(items) == items
  {
  }

  /** A committed append extends the trimmed concatenation of the accepted turns. */
  lemma CommitKeepsLog(w: World, turn: Items)
    requires Inv(w) && IsTurn(turn)
    ensures Appended(Existing(w.register), turn) != []
    ensures Appended(Existing(w.register), turn) == Trim(Concat(Accept(w, turn)))
  {
    hide Fits, Trim, Concat;
    var existing := Existing(w.register);
    AppendedIsPresent(existing, turn);
    ConcatOne(turn);
    ConcatOneMore(w.accepted, turn);
    ConcatNothing();
    if w.register.None? || existing != Base(existing) {
      assert [] + turn == turn;
      assert !HasTurn([], TurnId(turn)) by { NoTurnInNothing(TurnId(turn)); }
      assert w.register.None? ==> w.accepted + [turn] == [turn];
    } else if HasTurn(existing, TurnId(turn)) {
      TrimIsIdempotent(Concat(w.accepted));
    } else {
      TrimThenAppend(Concat(w.accepted), turn);
    }
  }

  lemma {:induction false} LedConcat(turns: seq<Items>)
    requires turns != [] && IsLed(turns[0])
    ensures IsLed(Concat(turns))
    decreases |turns|
  {
    ConcatNothing();
    if |turns| > 1 {
      LedConcat(turns[..|turns| - 1]);
    }
  }

  lemma LedTrim(items: Items)
    requires IsLed(items) && Trim(items) != []
    ensures IsLed(Trim(items))
  {
    hide Fits, Trim;
    var k := TrimCut(items);
    assert IsStart(items, k);
  }

  /** What is not led by a marker is one list that was set: no appended turn goes with it. */
  lemma OnlySetIsReset(w: World)
    requires Inv(w) && Existing(w.register) != Base(Existing(w.register))
    ensures |w.accepted| == 1 && !IsLed(w.accepted[0])
  {
    hide Fits, Trim, Concat;
    ConcatNothing();
    NothingIsTrimmed();
    if w.accepted != [] && IsLed(w.accepted[0]) {
      LedConcat(w.accepted);
      LedTrim(Concat(w.accepted));
    }
  }

  lemma NothingIsTrimmed()
    ensures Trim([]) == []
  {
    NothingFits();
  }

  /** A committed append keeps the turns accepted before it, in order. */
  lemma CommitKeepsTurns(w: World, turn: Items)
    requires Inv(w) && IsTurn(turn)
    ensures LogOk(Accept(w, turn))
    ensures w.accepted != [] && IsLed(w.accepted[0]) ==> w.accepted <= Accept(w, turn)
  {
    hide Fits, Trim, Concat, HasTurn;
    if Existing(w.register) != Base(Existing(w.register)) {
      OnlySetIsReset(w);
    } else if w.accepted != [] && !IsLed(w.accepted[0]) {
      UnledIsReset(w);
    }
  }

  lemma UnledIsReset(w: World)
    requires Inv(w) && w.accepted != [] && !IsLed(w.accepted[0])
    ensures Base(Existing(w.register)) == [] != Existing(w.register)
  {
    hide Fits, Trim, Concat;
    ConcatOne(w.accepted[0]);
    assert w.accepted == [w.accepted[0]];
    FitsIsTrimmed(w.accepted[0]);
  }

  lemma ConcatNothing()
    ensures Concat([]) == []
  {
  }

  lemma NoTurnInNothing(id: string)
    ensures !HasTurn([], id)
  {
  }

  lemma NextKeepsInv(w: World, e: Event)
    requires Inv(w) && Enabled(w, e)
    ensures Inv(Next(w, e))
  {
    hide Trim, Concat, Fits, Appended, Accept, LogOk;
    match e
    case Swap(c) =>
      assert PhaseOk(w.clients[c]);
      CommitKeepsLog(w, w.clients[c].turn);
      CommitKeepsTurns(w, w.clients[c].turn);
    case SwapFails(c, applied) =>
      assert PhaseOk(w.clients[c]);
      CommitKeepsLog(w, w.clients[c].turn);
      CommitKeepsTurns(w, w.clients[c].turn);
    case Set(items) =>
      ConcatOne(items);
      FitsIsTrimmed(items);
      SetIsOk(items);
    case Remove => SetIsOk([]);
    case _ =>
  }

  lemma SetIsOk(items: Items)
    ensures LogOk([])
    ensures items != [] && Fits(items) ==> LogOk([items])
  {
    hide Fits;
  }

  lemma {:induction false} RunKeepsInv(worlds: seq<World>, events: seq<Event>, i: nat)
    requires IsRun(worlds, events) && i < |worlds|
    ensures Inv(worlds[i])
  {
    hide Next, Enabled;
    if i > 0 {
      hide Inv;
      RunKeepsInv(worlds, events, i - 1);
      NextKeepsInv(worlds[i - 1], events[i - 1]);
    }
  }

  /** Whatever the interleaving, the register holds the trimmed concatenation of the accepted turns. */
  lemma RegisterIsTrimmedLog(worlds: seq<World>, events: seq<Event>, i: nat)
    requires IsRun(worlds, events) && i < |worlds|
    ensures if worlds[i].register.Some? then worlds[i].register.value == Trim(Concat(worlds[i].accepted))
            else worlds[i].accepted == []
    ensures LogOk(worlds[i].accepted)
  {
    RunKeepsInv(worlds, events, i);
  }

  /**
   * Until the register is set, deleted or expired, no accepted turn is dropped from the list and none
   * changes its place: only a list that was set, and is led by no marker, gives way to the first append.
   */
  lemma {:induction false} AcceptedTurnsStay(worlds: seq<World>, events: seq<Event>, i: nat, j: nat)
    requires IsRun(worlds, events) && i <= j < |worlds|
    requires forall k | i <= k < j :: !events[k].Set? && !events[k].Remove?
    requires worlds[i].accepted != [] && IsLed(worlds[i].accepted[0])
    ensures worlds[i].accepted <= worlds[j].accepted
    decreases j
  {
    hide Inv, Next, Enabled;
    if i < j {
      AcceptedTurnsStay(worlds, events, i, j - 1);
      RunKeepsInv(worlds, events, j - 1);
      RunSteps(worlds, events, j - 1);
      StepKeepsTurns(worlds[j - 1], events[j - 1]);
    }
  }

  lemma RunSteps(worlds: seq<World>, events: seq<Event>, i: nat)
    requires IsRun(worlds, events) && i < |events|
    ensures |worlds| == |events| + 1 && Enabled(worlds[i], events[i]) && worlds[i + 1] == Next(worlds[i], events[i])
  {
    hide Next, Enabled;
  }

  lemma StepKeepsTurns(w: World, e: Event)
    requires Inv(w) && Enabled(w, e) && !e.Set? && !e.Remove?
    requires w.accepted != [] && IsLed(w.accepted[0])
    ensures w.accepted <= Next(w, e).accepted
  {
    hide Trim, Concat, Fits, Appended, Accept, LogOk;
    if e.Swap? || e.SwapFails? {
      assert PhaseOk(w.clients[e.c]);
      CommitKeepsTurns(w, w.clients[e.c].turn);
    }
  }

  /** What an append replaces is one list that was set and is led by no marker. */
  lemma OnlySetGivesWay(worlds: seq<World>, events: seq<Event>, i: nat)
    requires IsRun(worlds, events) && i < |events| && !events[i].Set? && !events[i].Remove?
    requires !(worlds[i].accepted <= worlds[i + 1].accepted)
    ensures |worlds[i].accepted| == 1 && !IsLed(worlds[i].accepted[0])
  {
    hide Inv, Next, Enabled, LogOk;
    RunKeepsInv(worlds, events, i);
    RunSteps(worlds, events, i);
    if worlds[i].accepted != [] && IsLed(worlds[i].accepted[0]) {
      StepKeepsTurns(worlds[i], events[i]);
    }
    UnledIsOne(worlds[i]);
  }

  lemma UnledIsOne(w: World)
    requires Inv(w)
    ensures w.accepted == [] || IsLed(w.accepted[0]) || |w.accepted| == 1
  {
    hide Trim, Concat, Fits;
  }

  /**
   * No lost append: at the step where an append reports success the register ends with its turn, which
   * joins everything accepted before it, or the turn's id was stored already and nothing changed.
   */
  lemma SuccessfulAppendIsStored(worlds: seq<World>, events: seq<Event>, i: nat)
    requires IsRun(worlds, events) && i < |events| && events[i].Swap?
    requires worlds[i + 1].clients[events[i].c] == Done(worlds[i].clients[events[i].c].turn, true)
    ensures var before, after := Existing(worlds[i].register), worlds[i + 1].register;
            var turn := worlds[i].clients[events[i].c].turn;
            var led := before == [] || before[0].turn;
            && after.Some? && turn != []
            && if led && exists k | 0 <= k < |before| :: before[k].turn && before[k].id == turn[0].id
               then after.value == before && worlds[i + 1].accepted == worlds[i].accepted
               else && |turn| <= |after.value| && after.value[|after.value| - |turn|..] == turn
                    && worlds[i + 1].accepted == (if led then worlds[i].accepted else []) + [turn]
  {
    hide Trim, Concat, Fits;
    var w, c := worlds[i], events[i].c;
    RunKeepsInv(worlds, events, i);
    assert Enabled(w, events[i]) && worlds[i + 1] == Next(w, events[i]);
    assert PhaseOk(w.clients[c]);
    var turn := w.clients[c].turn;
    AppendedIsPresent(Existing(w.register), turn);
    assert w.register == w.clients[c].raw;
    assert [] + [turn] == [turn];
    if HasTurn(Base(Existing(w.register)), TurnId(turn)) {
      NoTurnInNothing(TurnId(turn));
      assert Base(Existing(w.register)) == Existing(w.register);
      TrimIsIdempotent(Concat(w.accepted));
    }
  }

  // ---------------------------------------------------------------- when an append succeeds

  predicate ByClient(e: Event, c: nat) {
    !e.Set? && !e.Remove? && e.c == c
  }

  /** The last append client c began before step i, or -1. */
  function LastStart(events: seq<Event>, c: nat, i: nat): (b: int)
    requires i <= |events|
    ensures -1 <= b < i
  {
    if i == 0 then -1
    else if events[i - 1].Start? && events[i - 1].c == c then i - 1
    else LastStart(events, c, i - 1)
  }

  ghost function SwapsIn(events: seq<Event>, c: nat, lo: nat, hi: nat): set<int>
    requires hi <= |events|
  {
    set k | lo <= k < hi && events[k] == Swap(c)
  }

  lemma SwapsGrow(events: seq<Event>, c: nat, lo: nat, hi: nat)
    requires lo <= hi < |events|
    ensures |SwapsIn(events, c, lo, hi + 1)| == |SwapsIn(events, c, lo, hi)| + if events[hi] == Swap(c) then 1 else 0
  {
    assert SwapsIn(events, c, lo, hi + 1) == SwapsIn(events, c, lo, hi) + if events[hi] == Swap(c) then {hi} else {};
  }

  /** A command of the append failed, or it was cancelled. */
  ghost predicate Broke(events: seq<Event>, c: nat, b: int, i: nat)
    requires i <= |events|
  {
    exists k | b < k < i && k >= 0 ::
      (events[k].Cancel? || events[k].ReadFails? || events[k].SwapFails?) && events[k].c == c
  }

  ghost predicate AttemptOk(worlds: seq<World>, events: seq<Event>, c: nat, i: nat)
    requires i <= |events| < |worlds| && c in worlds[i].clients
  {
    var b := LastStart(events, c, i);
    match worlds[i].clients[c]
    case Idle => true
    case Getting(_, attempt) => b >= 0 && |SwapsIn(events, c, b + 1, i)| == attempt < 32
    case Swapping(_, attempt, _) => b >= 0 && |SwapsIn(events, c, b + 1, i)| == attempt < 32
    case Done(_, ok) => b >= 0 && (!ok ==> Broke(events, c, b, i) || |SwapsIn(events, c, b + 1, i)| == 32)
  }

  lemma SameClients(w: World, e: Event, c: nat)
    requires Enabled(w, e)
    ensures Next(w, e).clients.Keys == w.clients.Keys
    ensures c in w.clients && !ByClient(e, c) ==> Next(w, e).clients[c] == w.clients[c]
  {
  }

  lemma NextKeepsAttempt(worlds: seq<World>, events: seq<Event>, c: nat, i: nat)
    requires i < |events| < |worlds| && Enabled(worlds[i], events[i]) && worlds[i + 1] == Next(worlds[i], events[i])
    requires c in worlds[i].clients && c in worlds[i + 1].clients && AttemptOk(worlds, events, c, i)
    ensures AttemptOk(worlds, events, c, i + 1)
  {
    hide Appended, Accept, IsTurn;
    var e, b := events[i], LastStart(events, c, i);
    SameClients(worlds[i], e, c);
    if e.Start? && e.c == c {
      assert LastStart(events, c, i + 1) == i;
      assert SwapsIn(events, c, i + 1, i + 1) == {};
    } else {
      assert LastStart(events, c, i + 1) == b;
      if b >= 0 {
        SwapsGrow(events, c, b + 1, i);
        if (e.Cancel? || e.ReadFails? || e.SwapFails?) && e.c == c {
          assert events[i] == e;
        }
      }
    }
  }

  lemma {:induction false} AttemptsHold(worlds: seq<World>, events: seq<Event>, i: nat, c: nat)
    requires IsRun(worlds, events) && i < |worlds| && c in worlds[i].clients
    ensures AttemptOk(worlds, events, c, i)
    decreases i
  {
    hide Next, Enabled;
    if i > 0 {
      hide AttemptOk;
      RunSteps(worlds, events, i - 1);
      SameClients(worlds[i - 1], events[i - 1], c);
      AttemptsHold(worlds, events, i - 1, c);
      NextKeepsAttempt(worlds, events, c, i - 1);
    }
  }

  /** An append fails only when it was cancelled, one of its commands failed, or 32 of its swaps came too late. */
  lemma FailureHasCause(worlds: seq<World>, events: seq<Event>, i: nat, c: nat)
    requires IsRun(worlds, events) && i < |worlds| && c in worlds[i].clients
    requires worlds[i].clients[c].Done? && !worlds[i].clients[c].ok
    ensures var b := LastStart(events, c, i);
            || (exists k | b < k < i && k >= 0 ::
                  (events[k].Cancel? || events[k].ReadFails? || events[k].SwapFails?) && events[k].c == c)
            || |SwapsIn(events, c, b + 1, i)| == 32
  {
    hide Next, Enabled;
    AttemptsHold(worlds, events, i, c);
  }

  lemma {:induction false} QuietKeepsPhase(worlds: seq<World>, events: seq<Event>, c: nat, k: nat, j: nat)
    requires IsRun(worlds, events) && k < j < |worlds| && c in worlds[k + 1].clients
    requires forall m | k < m < j :: !ByClient(events[m], c)
    ensures c in worlds[j].clients && worlds[j].clients[c] == worlds[k + 1].clients[c]
    decreases j
  {
    hide Next, Enabled;
    if k + 1 < j {
      QuietKeepsPhase(worlds, events, c, k, j - 1);
      RunSteps(worlds, events, j - 1);
      SameClients(worlds[j - 1], events[j - 1], c);
    }
  }

  /** A swap that meets the register as the read before it did succeeds. */
  lemma UnchangedIsAppended(worlds: seq<World>, events: seq<Event>, c: nat, k: nat, j: nat)
    requires IsRun(worlds, events) && k < j < |events| && events[k] == Read(c) && events[j] == Swap(c)
    requires forall m | k < m < j :: !ByClient(events[m], c)
    requires worlds[j].register == worlds[k].register
    ensures c in worlds[k].clients && worlds[k].clients[c].Getting? && c in worlds[j + 1].clients
    ensures worlds[j + 1].clients[c] == Done(worlds[k].clients[c].turn, true)
  {
    hide Appended, Accept, IsTurn, IsRun;
    RunLength(worlds, events);
    RunSteps(worlds, events, k);
    RunSteps(worlds, events, j);
    QuietKeepsPhase(worlds, events, c, k, j);
  }

  lemma RunLength(worlds: seq<World>, events: seq<Event>)
    requires IsRun(worlds, events)
    ensures |worlds| == |events| + 1
  {
  }
}
