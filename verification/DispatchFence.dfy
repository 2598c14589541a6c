/**
 * The dispatch lifetime of a Home client: internal/home/client.go. One step is one operation on the flag,
 * one taking or leaving of the lock, one write under the lock, or one close of a foreign object; a section
 * that loads no flag is one step, taken when the lock is free.
 */
module DispatchFence {
  import opened ByteStrings

  /** A redis client object, and a dialed connection. */
  type Pool = nat
  type Conn = nat

  /** The flag, which any thread may store at any time, and the fields the lock guards. */
  datatype Fields = Fields(
    fenced: bool,
    cmd: Option<Pool>,
    sub: Option<Pool>,
    release: Option<Pool>,
    connections: set<Conn>,
    built: nat)

  const FRESH := Fields(false, None, None, None, {}, 0)

  function Pools(p: Option<Pool>): set<Pool> {
    match p
    case Some(id) => {id}
    case None => {}
  }

  function Held(f: Fields): set<Pool> {
    Pools(f.cmd) + Pools(f.sub) + Pools(f.release)
  }

  /** detachClientsLocked */
  function Detached(f: Fields): Fields {
    f.(cmd := None, sub := None, connections := {})
  }

  /** The writes of ensureClients and concurrencyReleaseClient; making the options may fail. */
  function WithCmd(f: Fields, options: bool): Fields {
    if f.cmd.None? && options then f.(cmd := Some(f.built), built := f.built + 1) else f
  }

  function WithSub(f: Fields, options: bool): Fields {
    if f.sub.None? && options then f.(sub := Some(f.built), built := f.built + 1) else f
  }

  function WithRelease(f: Fields, options: bool): Fields {
    if f.release.None? && options then f.(release := Some(f.built), built := f.built + 1) else f
  }

  /** The section of ensureClients, given what it loaded from the flag. */
  function Ensured(f: Fields, loaded: bool, cmdOptions: bool, subOptions: bool): Fields {
    if loaded then f
    else
      var f1 := WithCmd(f, cmdOptions);
      if f1.cmd.None? then f1 else WithSub(f1, subOptions)
  }

  /** A section that loaded an unset flag leaves both pools when their options can be made, and keeps what it finds. */
  lemma EnsuredIs(f: Fields, loaded: bool, cmdOptions: bool, subOptions: bool)
    ensures var after := Ensured(f, loaded, cmdOptions, subOptions);
            && (loaded ==> after == f)
            && after.fenced == f.fenced && after.release == f.release && after.connections == f.connections
            && (f.cmd.Some? ==> after.cmd == f.cmd) && (f.sub.Some? ==> after.sub == f.sub)
            && (!loaded && (cmdOptions || f.cmd.Some?) ==> after.cmd.Some?)
            && (!loaded && (cmdOptions || f.cmd.Some?) && (subOptions || f.sub.Some?) ==> after.sub.Some?)
            && (!cmdOptions && f.cmd.None? ==> after == f)
            && (!loaded && f.cmd.None? && cmdOptions ==> after.cmd == Some(f.built))
            && (!loaded && f.sub.None? && subOptions && after.cmd.Some? ==>
                  after.sub == Some(after.built - 1) && after.built == f.built + if f.cmd.None? then 2 else 1)
  {
  }

  lemma ReleasedIs(f: Fields, options: bool)
    ensures var after := WithRelease(f, options);
            && after.(release := f.release, built := f.built) == f
            && (f.release.Some? ==> after == f)
            && (f.release.None? ==> after.release == if options then Some(f.built) else None)
            && (f.release.None? && options ==> after.built == f.built + 1)
  {
  }

  // ---- the client ---------------------------------------------------------------------------------------

  class Client {
    var fenced: bool
    var ambiguous: bool
    var cmd: Option<Pool>
    var sub: Option<Pool>
    var release: Option<Pool>
    var connections: set<Conn>
    var built: nat

    ghost function Current(): Fields
      reads this
    {
      Fields(fenced, cmd, sub, release, connections, built)
    }

    constructor ()
      ensures Current() == FRESH && !ambiguous
    {
      fenced, ambiguous, cmd, sub, release, connections, built := false, false, None, None, None, {}, 0;
    }

    /** The flag stores that open Close and AbortAmbiguousDispatch. */
    method Fence(abort: bool)
      modifies this`fenced, this`ambiguous
      ensures Current() == old(Current()).(fenced := true) && ambiguous == (old(ambiguous) || abort)
    {
      if abort {
        ambiguous := true;
      }
      fenced := true;
    }

    /** What other threads may do while this one holds the lock: store the flag. */
    method OthersStore()
      modifies this`fenced
      ensures old(fenced) ==> fenced
    {
      if * {
        fenced := true;
      }
    }

    /** What other threads may do between two sections of this one: store the flag, detach, build. */
    method OthersRun()
      modifies this`fenced, this`cmd, this`sub, this`release, this`connections, this`built
      ensures old(fenced) ==> fenced
    {
      OthersStore();
      if * {
        var _, _ := DetachAll();
      }
      if * {
        var _, _ := EnsureClients(true, true);
      }
    }

    method DetachLocked() returns (pools: set<Pool>, conns: set<Conn>)
      modifies this`cmd, this`sub, this`connections
      ensures Current() == Detached(old(Current())) && conns == old(connections)
      ensures pools == old(Pools(cmd) + Pools(sub))
    {
      pools, conns := Pools(cmd) + Pools(sub), connections;
      cmd, sub, connections := None, None, {};
    }

    /** The section under the lock of Close, AbortAmbiguousDispatch and closeClientsLocked. */
    method DetachAll() returns (pools: set<Pool>, conns: set<Conn>)
      modifies this`cmd, this`sub, this`release, this`connections
      ensures Current() == Detached(old(Current())).(release := None)
      ensures pools == old(Held(Current())) && conns == old(connections)
    {
      pools, conns := DetachLocked();
      pools := pools + Pools(release);
      release := None;
    }

    /** loaded is what the section read from the flag, which others may store before it writes. */
    method EnsureClients(cmdOptions: bool, subOptions: bool) returns (ok: bool, ghost loaded: bool)
      modifies this`fenced, this`cmd, this`sub, this`built
      ensures (old(fenced) ==> loaded) && (loaded ==> fenced) && (old(fenced) ==> fenced)
      ensures Current() == Ensured(old(Current()), loaded, cmdOptions, subOptions).(fenced := fenced)
      ensures ok <==> !loaded && cmd.Some? && sub.Some?
    {
      loaded := fenced;
      if fenced {
        return false, true;
      }
      OthersStore();
      if cmd.None? {
        if !cmdOptions {
          return false, false;
        }
        cmd, built := Some(built), built + 1;
      }
      OthersStore();
      if sub.None? {
        if !subOptions {
          return false, false;
        }
        sub, built := Some(built), built + 1;
      }
      ok := true;
    }

    /**
     * A pool handed out is in use when it is, and never by a client fenced before the call; none is refused
     * unless the client is fenced by the end, has no pool, or could not make the options of one.
     */
    method CommandClient(cmdOptions: bool, subOptions: bool) returns (pool: Option<Pool>)
      modifies this`fenced, this`cmd, this`sub, this`release, this`connections, this`built
      ensures pool.Some? ==> pool == cmd && !old(fenced)
      ensures pool.None? ==> fenced || cmd.None? || !cmdOptions || !subOptions
      ensures old(fenced) ==> Current() == old(Current())
    {
      if fenced {
        return None;
      }
      OthersRun();
      var ok, _ := EnsureClients(cmdOptions, subOptions);
      if !ok {
        return None;
      }
      OthersRun();
      if fenced {
        return None;
      }
      OthersStore();
      pool := cmd;
    }

    /** The section of concurrencyReleaseClient. */
    method ReleaseClient(options: bool) returns (pool: Option<Pool>, ghost loaded: bool)
      modifies this`fenced, this`release, this`built
      ensures (old(fenced) ==> loaded) && (loaded ==> fenced) && (old(fenced) ==> fenced)
      ensures Current() == (if loaded then old(Current()) else WithRelease(old(Current()), options)).(fenced := fenced)
      ensures pool == if loaded then None else release
    {
      loaded := fenced;
      if fenced {
        return None, true;
      }
      OthersStore();
      if release.None? && options {
        release, built := Some(built), built + 1;
      }
      pool := release;
    }

    /** The section of trackedRedisDialer; a connection that is not tracked must be closed by the dialer. */
    method Track(c: Conn) returns (tracked: bool)
      modifies this`fenced, this`connections
      ensures (old(fenced) ==> !tracked) && (!tracked ==> fenced) && (old(fenced) ==> fenced)
      ensures connections == if tracked then old(connections) + {c} else old(connections)
    {
      if fenced {
        return false;
      }
      OthersStore();
      connections := connections + {c};
      tracked := true;
    }

    method Forget(c: Conn)
      modifies this`connections
      ensures Current() == old(Current()).(connections := old(connections) - {c})
    {
      connections := connections - {c};
    }
  }

  // ---- threads ------------------------------------------------------------------------------------------

  /** What a section that loads the flag is for: the two halves of ensureClients are two writes. */
  datatype Purpose =
    | ForCmd(command: bool)
    | ForSub(command: bool)
    | ForTake
    | ForRelease
    | ForConn(conn: Conn)

  /** What a thread does after it leaves the lock. */
  datatype After = Done | Refuse(conn: Conn) | TakeNext

  /** Where a thread is in one of the operations. */
  datatype Phase =
    | Resting
    | Fencing
    | Waiting(purpose: Purpose)
    | Locked(purpose: Purpose)
    | Cleared(purpose: Purpose)
    | Leaving(after: After)
    | Closing(pools: set<Pool>, conns: set<Conn>)

  /**
   * holder has the lock. sealed: some closer has detached after it stored the flag. dialed counts
   * connections, plain maps those a release pool dialed to it; shut and hungUp are what was closed, and
   * handed the pools CommandClient and ReleaseClient gave out.
   */
  datatype World = World(
    fields: Fields,
    holder: Option<nat>,
    sealed: bool,
    threads: map<nat, Phase>,
    dialed: nat,
    plain: map<Conn, Pool>,
    releases: set<Pool>,
    shut: set<Pool>,
    hungUp: set<Conn>,
    handed: seq<Pool>)

  const START := World(FRESH, None, false, map[], 0, map[], {}, {}, {}, [])

  datatype Event =
    | Fence(thread: nat)
    | Detach(thread: nat)
    | Switch(thread: nat)
    | Bootstrap(thread: nat)
    | Promote(thread: nat)
    | Enter(thread: nat, purpose: Purpose)
    | Dial(thread: nat)
    | Lock(thread: nat)
    | Load(thread: nat)
    | Act(thread: nat, options: bool)
    | Unlock(thread: nat)
    | HangUp(thread: nat, conn: Conn)
    | Shut(thread: nat, pool: Pool)
    | PoolHangsUp(conn: Conn)
    | PlainDial(pool: Pool)

  function PhaseOf(w: World, t: nat): Phase {
    if t in w.threads then w.threads[t] else Resting
  }

  predicate Enabled(w: World, e: Event) {
    match e
    case Fence(t) => PhaseOf(w, t).Resting?
    case Detach(t) => PhaseOf(w, t).Fencing? && w.holder == None
    case Switch(t) => PhaseOf(w, t).Resting? && w.holder == None
    case Bootstrap(t) => PhaseOf(w, t).Resting? && w.holder == None
    case Promote(t) => PhaseOf(w, t).Resting? && w.holder == None
    case Enter(t, p) => PhaseOf(w, t).Resting? && (p.ForCmd? || p.ForRelease?)
    case Dial(t) => PhaseOf(w, t).Resting?
    case Lock(t) => PhaseOf(w, t).Waiting? && w.holder == None
    case Load(t) => PhaseOf(w, t).Locked?
    case Act(t, _) => PhaseOf(w, t).Cleared?
    case Unlock(t) => PhaseOf(w, t).Leaving?
    case HangUp(t, c) => PhaseOf(w, t).Closing? && c in PhaseOf(w, t).conns && w.holder == None
    case Shut(t, p) => PhaseOf(w, t).Closing? && PhaseOf(w, t).conns == {} && p in PhaseOf(w, t).pools
    case PoolHangsUp(c) => c in w.fields.connections && w.holder == None
    case PlainDial(p) => p in w.releases && p !in w.shut
  }

  /** A thread with nothing left to close rests. */
  function ToClose(pools: set<Pool>, conns: set<Conn>): Phase {
    if pools == {} && conns == {} then Resting else Closing(pools, conns)
  }

  function Moved(w: World, t: nat, p: Phase): World {
    w.(threads := w.threads[t := p])
  }

  /** The write of a section that loaded an unset flag. */
  function Written(f: Fields, p: Purpose, options: bool): Fields {
    match p
    case ForCmd(_) => WithCmd(f, options)
    case ForSub(_) => WithSub(f, options)
    case ForTake => f
    case ForRelease => WithRelease(f, options)
    case ForConn(c) => f.(connections := f.connections + {c})
  }

  /** Where the section goes after the write that left these fields. */
  function PhaseAfter(f: Fields, p: Purpose): Phase {
    match p
    case ForCmd(command) => if f.cmd.Some? then Cleared(ForSub(command)) else Leaving(Done)
    case ForSub(command) => Leaving(if command && f.sub.Some? then TakeNext else Done)
    case _ => Leaving(Done)
  }

  /** The pool a section gives to its caller. */
  function HandedOut(f: Fields, p: Purpose): seq<Pool> {
    var pool := if p.ForTake? then f.cmd else if p.ForRelease? then f.release else None;
    match pool
    case Some(id) => [id]
    case None => []
  }

  function Acted(w: World, t: nat, p: Purpose, options: bool): World {
    var f := Written(w.fields, p, options);
    Moved(w.(fields := f,
             releases := w.releases + if p.ForRelease? then Pools(f.release) else {},
             handed := w.handed + HandedOut(f, p)),
          t, PhaseAfter(f, p))
  }

  function Next(w: World, e: Event): World
    requires Enabled(w, e)
  {
    var f := w.fields;
    match e
    case Fence(t) => Moved(w.(fields := f.(fenced := true)), t, Fencing)
    case Detach(t) =>
      Moved(w.(fields := Detached(f).(release := None), sealed := true), t, ToClose(Held(f), f.connections))
    case Switch(t) => Moved(w.(fields := Detached(f).(release := None)), t, ToClose(Held(f), f.connections))
    case Bootstrap(t) => Moved(w.(fields := Detached(f)), t, ToClose(Pools(f.cmd) + Pools(f.sub), f.connections))
    case Promote(t) => Moved(w.(fields := f.(cmd := None)), t, ToClose(Pools(f.cmd), {}))
    case Enter(t, p) => Moved(w, t, if f.fenced then Resting else Waiting(p))
    case Dial(t) => Moved(w.(dialed := w.dialed + 1), t, Waiting(ForConn(w.dialed)))
    case Lock(t) => Moved(w.(holder := Some(t)), t, Locked(PhaseOf(w, t).purpose))
    case Load(t) =>
      var p := PhaseOf(w, t).purpose;
      Moved(w, t, if !f.fenced then Cleared(p) else Leaving(if p.ForConn? then Refuse(p.conn) else Done))
    case Act(t, options) => Acted(w, t, PhaseOf(w, t).purpose, options)
    case Unlock(t) =>
      Moved(w.(holder := None), t, match PhaseOf(w, t).after
        case Done => Resting
        case Refuse(c) => Closing({}, {c})
        case TakeNext => Waiting(ForTake))
    case HangUp(t, c) =>
      var p := PhaseOf(w, t);
      Moved(w.(fields := f.(connections := f.connections - {c}), hungUp := w.hungUp + {c}), t,
            ToClose(p.pools, p.conns - {c}))
    case Shut(t, p) =>
      Moved(w.(shut := w.shut + {p}, hungUp := w.hungUp + set c | c in w.plain && w.plain[c] == p), t,
            ToClose(PhaseOf(w, t).pools - {p}, {}))
    case PoolHangsUp(c) => w.(fields := f.(connections := f.connections - {c}), hungUp := w.hungUp + {c})
    case PlainDial(p) => w.(dialed := w.dialed + 1, plain := w.plain[w.dialed := p])
  }

  ghost predicate Possible(w: World, events: seq<Event>)
    decreases |events|
  {
    events == [] || (Enabled(w, events[0]) && Possible(Next(w, events[0]), events[1..]))
  }

  function Run(w: World, events: seq<Event>): World
    requires Possible(w, events)
    decreases |events|
  {
    if events == [] then w else Run(Next(w, events[0]), events[1..])
  }

  // ---- the lock and the seal ----------------------------------------------------------------------------

  predicate InSection(p: Phase) {
    p.Locked? || p.Cleared? || p.Leaving?
  }

  /** After a fenced detach there is nothing left to dispatch on. */
  ghost predicate Empty(f: Fields) {
    f.fenced && f.cmd.None? && f.sub.None? && f.release.None? && f.connections == {}
  }

  /** One thread has the lock; a seal leaves nothing behind and no section that read an unset flag. */
  ghost predicate SealOk(w: World) {
    && (forall t: nat :: InSection(PhaseOf(w, t)) <==> w.holder == Some(t))
    && (forall t: nat :: PhaseOf(w, t).Fencing? ==> w.fields.fenced)
    && (w.sealed ==> Empty(w.fields) && forall t: nat :: !PhaseOf(w, t).Cleared?)
  }

  lemma SealStep(w: World, e: Event)
    requires SealOk(w) && Enabled(w, e)
    ensures SealOk(Next(w, e)) && (w.sealed ==> Next(w, e).sealed && Next(w, e).handed == w.handed)
    ensures w.fields.fenced ==> Next(w, e).fields.fenced
  {
  }

  // ---- what a store of the flag stops -------------------------------------------------------------------

  /** A pool was built, or a connection tracked. */
  ghost predicate Adds(before: Fields, after: Fields) {
    after.built > before.built || !(after.connections <= before.connections)
  }

  /** There is still something to write for this purpose. */
  predicate HasWrite(f: Fields, p: Purpose) {
    match p
    case ForCmd(_) => f.cmd.None? || f.sub.None?
    case ForSub(_) => f.sub.None?
    case ForTake => false
    case ForRelease => f.release.None?
    case ForConn(c) => c !in f.connections
  }

  /** Some thread stands between its load of the unset flag and a write. */
  ghost predicate AboutToAdd(w: World) {
    exists t: nat :: PhaseOf(w, t).Cleared? && HasWrite(w.fields, PhaseOf(w, t).purpose)
  }

  /** With the flag stored, only the one section that loaded it before can add, and it has the lock. */
  lemma OnlyClearedAdds(w: World, e: Event)
    requires SealOk(w) && w.fields.fenced && Enabled(w, e)
    ensures Adds(w.fields, Next(w, e).fields) ==> e.Act? && w.holder == Some(e.thread) && AboutToAdd(w)
    ensures !AboutToAdd(w) ==> !AboutToAdd(Next(w, e))
    ensures forall t: nat | PhaseOf(Next(w, e), t).Cleared? :: PhaseOf(w, t).Cleared? && w.holder == Some(t)
  {
    hide AboutToAdd;
    AddsOnlyByAct(w, e);
    if AboutToAdd(Next(w, e)) {
      AboutBefore(w, e);
    }
  }

  lemma AddsOnlyByAct(w: World, e: Event)
    requires SealOk(w) && w.fields.fenced && Enabled(w, e)
    ensures Adds(w.fields, Next(w, e).fields) ==> e.Act? && w.holder == Some(e.thread) && AboutToAdd(w)
    ensures forall t: nat | PhaseOf(Next(w, e), t).Cleared? :: PhaseOf(w, t).Cleared? && w.holder == Some(t)
  {
  }

  lemma AboutBefore(w: World, e: Event)
    requires SealOk(w) && w.fields.fenced && Enabled(w, e) && AboutToAdd(Next(w, e))
    ensures AboutToAdd(w)
  {
    var w' := Next(w, e);
    var t: nat :| PhaseOf(w', t).Cleared? && HasWrite(w'.fields, PhaseOf(w', t).purpose);
    assert PhaseOf(w, t).Cleared? && HasWrite(w.fields, PhaseOf(w, t).purpose);
  }

  /** Nothing is added by a run whose start has no such section: pools and connections only go. */
  lemma {:induction false} NothingMoreIsAdded(w: World, events: seq<Event>)
    requires SealOk(w) && w.fields.fenced && !AboutToAdd(w) && Possible(w, events)
    ensures !Adds(w.fields, Run(w, events).fields)
    decreases |events|
  {
    hide Next, Enabled, SealOk, AboutToAdd;
    if events != [] {
      SealStep(w, events[0]);
      OnlyClearedAdds(w, events[0]);
      NothingMoreIsAdded(Next(w, events[0]), events[1..]);
    }
  }

  /**
   * Exactly when a store of the flag comes too late to stop another pool or connection: when a thread
   * stands in a section whose load came before the store, with something left to write.
   */
  lemma StoreComesTooLateIff(w: World)
    requires SealOk(w) && w.fields.fenced
    ensures AboutToAdd(w) <==> exists events :: Possible(w, events) && Adds(w.fields, Run(w, events).fields)
  {
    if AboutToAdd(w) {
      var t: nat :| PhaseOf(w, t).Cleared? && HasWrite(w.fields, PhaseOf(w, t).purpose);
      var first := Act(t, true);
      var p := PhaseOf(w, t).purpose;
      if p.ForCmd? && w.fields.cmd.Some? {
        TwoSteps(w, first, first);
      } else {
        OneStep(w, first);
      }
    }
    forall events | Possible(w, events) && Adds(w.fields, Run(w, events).fields) ensures AboutToAdd(w) {
      if !AboutToAdd(w) {
        NothingMoreIsAdded(w, events);
        assert false;
      }
    }
  }

  lemma OneStep(w: World, e: Event)
    requires Enabled(w, e)
    ensures Possible(w, [e]) && Run(w, [e]) == Next(w, e)
  {
    hide Next, Enabled;
    assert [e][1..] == [];
  }

  lemma TwoSteps(w: World, e: Event, f: Event)
    requires Enabled(w, e) && Enabled(Next(w, e), f)
    ensures Possible(w, [e, f]) && Run(w, [e, f]) == Next(Next(w, e), f)
  {
    hide Next, Enabled;
    assert [e, f][1..] == [f];
    OneStep(Next(w, e), f);
  }

  /** Whatever adds after the store, it is the section that was open at the store, and it never left the lock. */
  lemma {:induction false} OnlyOpenSectionAdds(w: World, events: seq<Event>, e: Event)
    requires SealOk(w) && w.fields.fenced && Possible(w, events)
    requires Enabled(Run(w, events), e) && Adds(Run(w, events).fields, Next(Run(w, events), e).fields)
    ensures e.Act? && w.holder == Some(e.thread) && PhaseOf(w, e.thread).Cleared?
    ensures forall k | 0 <= k < |events| :: !events[k].Lock? && !events[k].Detach? && !events[k].Switch?
    decreases |events|
  {
    hide Next, SealOk, AboutToAdd, Adds;
    if events == [] {
      OnlyClearedAdds(w, e);
      HolderIsCleared(w, e);
    } else {
      var first := events[0];
      SealStep(w, first);
      OnlyClearedAdds(w, first);
      OnlyOpenSectionAdds(Next(w, first), events[1..], e);
      assert PhaseOf(w, e.thread).Cleared? && w.holder == Some(e.thread);
    }
  }

  lemma HolderIsCleared(w: World, e: Event)
    requires Enabled(w, e) && e.Act?
    ensures PhaseOf(w, e.thread).Cleared?
  {
  }

  /** A closer's detach takes whatever was added before it, late or not, and leaves nothing. */
  lemma DetachTakesAll(w: World, t: nat)
    requires SealOk(w) && Enabled(w, Detach(t))
    ensures var after := Next(w, Detach(t));
            && Empty(after.fields) && after.sealed
            && PoolsOf(PhaseOf(after, t)) == Held(w.fields) && ConnsOf(PhaseOf(after, t)) == w.fields.connections
  {
  }

  /** A run that builds a pool after the store: the load of the flag came before it. */
  lemma BuiltAfterTheStore()
    ensures var before := [Enter(1, ForCmd(false)), Lock(1), Load(1), Fence(2)];
            && Possible(START, before + [Act(1, true)])
            && Possible(START, before)
            && Run(START, before).fields == FRESH.(fenced := true)
            && Run(START, before + [Act(1, true)]).fields.cmd == Some(0)
  {
    var w1 := Next(START, Enter(1, ForCmd(false)));
    var w2 := Next(w1, Lock(1));
    var w3 := Next(w2, Load(1));
    var w4 := Next(w3, Fence(2));
    FourSteps(START, Enter(1, ForCmd(false)), Lock(1), Load(1), Fence(2), []);
    OneStep(w4, Act(1, true));
    FourSteps(START, Enter(1, ForCmd(false)), Lock(1), Load(1), Fence(2), [Act(1, true)]);
  }

  lemma FirstStep(w: World, e: Event, rest: seq<Event>)
    requires Enabled(w, e) && Possible(Next(w, e), rest)
    ensures Possible(w, [e] + rest) && Run(w, [e] + rest) == Run(Next(w, e), rest)
  {
    hide Next, Enabled;
    assert ([e] + rest)[1..] == rest;
  }

  lemma FourSteps(w: World, a: Event, b: Event, c: Event, d: Event, rest: seq<Event>)
    requires Enabled(w, a) && Enabled(Next(w, a), b) && Enabled(Next(Next(w, a), b), c)
    requires Enabled(Next(Next(Next(w, a), b), c), d)
    requires Possible(Next(Next(Next(Next(w, a), b), c), d), rest)
    ensures Possible(w, [a, b, c, d] + rest)
    ensures Run(w, [a, b, c, d] + rest) == Run(Next(Next(Next(Next(w, a), b), c), d), rest)
  {
    hide Next, Enabled, Possible, Run;
    FirstStep(Next(Next(Next(w, a), b), c), d, rest);
    FirstStep(Next(Next(w, a), b), c, [d] + rest);
    FirstStep(Next(w, a), b, [c] + ([d] + rest));
    FirstStep(w, a, [b] + ([c] + ([d] + rest)));
    assert [a] + ([b] + ([c] + ([d] + rest))) == [a, b, c, d] + rest;
  }

  // ---- an open client serves ----------------------------------------------------------------------------

  lemma {:induction false} RunAppend(w: World, a: seq<Event>, b: seq<Event>)
    requires Possible(w, a) && Possible(Run(w, a), b)
    ensures Possible(w, a + b) && Run(w, a + b) == Run(Run(w, a), b)
    decreases |a|
  {
    hide Next, Enabled;
    if a == [] {
      assert a + b == b;
    } else {
      assert (a + b)[1..] == a[1..] + b;
      RunAppend(Next(w, a[0]), a[1..], b);
    }
  }

  /** An open client whose lock is free. */
  ghost predicate Open(w: World) {
    !w.fields.fenced && w.holder == None
  }

  lemma Acquires(w: World, t: nat)
    requires Open(w) && PhaseOf(w, t).Waiting?
    ensures var steps := [Lock(t), Load(t)];
            && Possible(w, steps)
            && Run(w, steps) == w.(holder := Some(t), threads := w.threads[t := Cleared(PhaseOf(w, t).purpose)])
  {
    var w1 := Next(w, Lock(t));
    TwoSteps(w, Lock(t), Load(t));
    assert w.threads[t := Locked(PhaseOf(w, t).purpose)][t := Cleared(PhaseOf(w, t).purpose)]
        == w.threads[t := Cleared(PhaseOf(w, t).purpose)];
  }

  /** The two writes of ensureClients leave both pools, and a command then asks for the lock again. */
  lemma Builds(w: World, t: nat)
    requires !w.fields.fenced && PhaseOf(w, t) == Cleared(ForCmd(true))
    ensures var steps := [Act(t, true), Act(t, true)];
            && Possible(w, steps)
            && var after := Run(w, steps);
               && after.fields == Ensured(w.fields, false, true, true) && after.holder == w.holder
               && PhaseOf(after, t) == Leaving(TakeNext) && after.handed == w.handed
  {
    hide WithSub, WithCmd;
    EnsuredIs(w.fields, false, true, true);
    ActIs(w, t, true);
    ActIs(Next(w, Act(t, true)), t, true);
    BothBuilt(w.fields);
    TwoSteps(w, Act(t, true), Act(t, true));
  }

  lemma BothBuilt(f: Fields)
    ensures WithCmd(f, true).cmd.Some? && WithSub(WithCmd(f, true), true).sub.Some?
    ensures Ensured(f, false, true, true) == WithSub(WithCmd(f, true), true)
    ensures WithCmd(f, true).fenced == f.fenced
  {
  }

  /** What a section writes, records as handed out, and does next. */
  lemma ActIs(w: World, t: nat, options: bool)
    requires PhaseOf(w, t).Cleared?
    ensures Enabled(w, Act(t, options))
    ensures var p, f, after := PhaseOf(w, t).purpose, w.fields, Next(w, Act(t, options));
            && after.holder == w.holder && after.fields.fenced == f.fenced
            && (p.ForCmd? ==>
                  && after.fields == WithCmd(f, options) && after.handed == w.handed
                  && PhaseOf(after, t) == if after.fields.cmd.Some? then Cleared(ForSub(p.command)) else Leaving(Done))
            && (p.ForSub? ==>
                  && after.fields == WithSub(f, options) && after.handed == w.handed
                  && PhaseOf(after, t) == Leaving(if p.command && after.fields.sub.Some? then TakeNext else Done))
            && (p.ForTake? ==>
                  && after.fields == f && PhaseOf(after, t) == Leaving(Done)
                  && after.handed == w.handed + if f.cmd.Some? then [f.cmd.value] else [])
            && (p.ForRelease? ==>
                  && after.fields == WithRelease(f, options) && PhaseOf(after, t) == Leaving(Done)
                  && after.handed == w.handed + if after.fields.release.Some? then [after.fields.release.value] else [])
            && (p.ForConn? ==>
                  && after.fields == f.(connections := f.connections + {p.conn})
                  && after.handed == w.handed && PhaseOf(after, t) == Leaving(Done))
  {
  }

  lemma Leaves(w: World, t: nat)
    requires PhaseOf(w, t).Leaving? && !PhaseOf(w, t).after.Refuse?
    ensures Possible(w, [Unlock(t)])
    ensures var after := Run(w, [Unlock(t)]);
            && after.fields == w.fields && after.holder == None && after.handed == w.handed
            && PhaseOf(after, t) == if PhaseOf(w, t).after.TakeNext? then Waiting(ForTake) else Resting
  {
    OneStep(w, Unlock(t));
  }

  /** One visit to the lock of an open client, from asking for it to leaving it. */
  lemma Visits(w: World, t: nat) returns (steps: seq<Event>)
    requires Open(w) && (PhaseOf(w, t) == Waiting(ForCmd(true)) || PhaseOf(w, t) == Waiting(ForTake))
    ensures Possible(w, steps) && Open(Run(w, steps))
    ensures PhaseOf(w, t) == Waiting(ForCmd(true)) ==>
              && Run(w, steps).fields == Ensured(w.fields, false, true, true)
              && PhaseOf(Run(w, steps), t) == Waiting(ForTake) && Run(w, steps).handed == w.handed
    ensures PhaseOf(w, t) == Waiting(ForTake) ==>
              && Run(w, steps).fields == w.fields && PhaseOf(Run(w, steps), t).Resting?
              && Run(w, steps).handed == w.handed + if w.fields.cmd.Some? then [w.fields.cmd.value] else []
  {
    hide Next, Enabled, Run, Possible, Ensured;
    Acquires(w, t);
    var inside := Run(w, [Lock(t), Load(t)]);
    var acts: seq<Event>;
    if PhaseOf(w, t) == Waiting(ForTake) {
      ActIs(inside, t, true);
      OneStep(inside, Act(t, true));
      acts := [Act(t, true)];
    } else {
      Builds(inside, t);
      EnsuredIs(w.fields, false, true, true);
      acts := [Act(t, true), Act(t, true)];
    }
    RunAppend(w, [Lock(t), Load(t)], acts);
    Leaves(Run(inside, acts), t);
    steps := [Lock(t), Load(t)] + acts + [Unlock(t)];
    RunAppend(w, [Lock(t), Load(t)] + acts, [Unlock(t)]);
  }

  /** From every open state whose lock is free, a command by a resting thread can be served with the pool in use. */
  lemma OpenClientServes(w: World, t: nat) returns (steps: seq<Event>)
    requires Open(w) && PhaseOf(w, t).Resting?
    ensures Possible(w, steps) && Open(Run(w, steps)) && PhaseOf(Run(w, steps), t).Resting?
    ensures var after := Run(w, steps);
            && after.fields.cmd.Some? && after.fields.sub.Some? && after.handed == w.handed + [after.fields.cmd.value]
            && (w.fields.cmd.Some? ==> after.fields.cmd == w.fields.cmd)
  {
    hide Run, Possible, Ensured;
    var start := Enter(t, ForCmd(true));
    OneStep(w, start);
    EnsuredIs(w.fields, false, true, true);
    var asked := Next(w, start);
    hide Next, Enabled;
    var first := Visits(asked, t);
    var second := Visits(Run(asked, first), t);
    RunAppend(asked, first, second);
    RunAppend(w, [start], first + second);
    steps := [start] + (first + second);
  }

  /** A dialed connection is tracked by an open client, and given back to the dialer by a fenced one. */
  lemma DialIsTracked(w: World, t: nat, c: Conn)
    requires w.holder == None && PhaseOf(w, t) == Waiting(ForConn(c))
    ensures Enabled(w, Lock(t)) && Enabled(Next(w, Lock(t)), Load(t))
    ensures var loaded := Next(Next(w, Lock(t)), Load(t));
            if w.fields.fenced then PhaseOf(loaded, t) == Leaving(Refuse(c)) && loaded.fields == w.fields
            else Enabled(loaded, Act(t, false)) && c in Next(loaded, Act(t, false)).fields.connections
  {
  }

  // ---- what every run keeps -----------------------------------------------------------------------------

  function PoolsOf(p: Phase): set<Pool> {
    if p.Closing? then p.pools else {}
  }

  function ConnOf(p: Purpose): set<Conn> {
    if p.ForConn? then {p.conn} else {}
  }

  function ConnsOf(p: Phase): set<Conn> {
    match p
    case Waiting(purpose) => ConnOf(purpose)
    case Locked(purpose) => ConnOf(purpose)
    case Cleared(purpose) => ConnOf(purpose)
    case Leaving(after) => if after.Refuse? then {after.conn} else {}
    case Closing(_, conns) => conns
    case _ => {}
  }

  /** A pool that was built is in use, or shut, or some thread is about to shut it. */
  ghost predicate PoolHeld(w: World, p: Pool) {
    p in Held(w.fields) || p in w.shut || exists t | t in w.threads :: p in PoolsOf(w.threads[t])
  }

  /** A connection is tracked, hung up, in some thread's hands, or its release pool's that is not shut. */
  ghost predicate ConnHeld(w: World, c: Conn) {
    || c in w.fields.connections
    || c in w.hungUp
    || (c in w.plain && w.plain[c] !in w.shut)
    || exists t | t in w.threads :: c in ConnsOf(w.threads[t])
  }

  /** No pool and no connection is lost sight of. */
  ghost predicate NothingLost(w: World) {
    && (forall p: nat | p < w.fields.built :: PoolHeld(w, p))
    && (forall c: nat | c < w.dialed :: ConnHeld(w, c))
    && (forall p | p in w.releases :: p < w.fields.built)
    && (forall c | c in w.plain :: w.plain[c] in w.releases)
  }

  ghost predicate FieldsApart(f: Fields, shut: set<Pool>) {
    && (forall p | p in Held(f) + shut :: p < f.built)
    && Held(f) !! shut
    && Pools(f.cmd) !! Pools(f.sub)
    && Pools(f.cmd) + Pools(f.sub) !! Pools(f.release)
  }

  /** A pool is shut by one thread, once: those in use, those being shut and those shut are apart. */
  ghost predicate PoolsApart(w: World) {
    && FieldsApart(w.fields, w.shut)
    && (forall t | t in w.threads :: PoolsOf(w.threads[t]) !! Held(w.fields) + w.shut)
    && (forall t, p | t in w.threads && p in PoolsOf(w.threads[t]) :: p < w.fields.built)
    && (forall t, u | t in w.threads && u in w.threads && t != u :: PoolsOf(w.threads[t]) !! PoolsOf(w.threads[u]))
  }

  predicate HasThread(e: Event) {
    !e.PoolHangsUp? && !e.PlainDial?
  }

  /** Where the pools of a step go: what leaves the fields is the thread's to shut, what leaves it is shut. */
  lemma PoolsMove(w: World, e: Event)
    requires PoolsApart(w) && Enabled(w, e) && HasThread(e)
    ensures var w', t := Next(w, e), e.thread;
            && w'.threads == w.threads[t := PhaseOf(w', t)]
            && w'.fields.built >= w.fields.built
            && (forall p | p in Held(w'.fields) + PoolsOf(PhaseOf(w', t)) + w'.shut ::
                  p in Held(w.fields) + PoolsOf(PhaseOf(w, t)) + w.shut || p >= w.fields.built)
  {
  }

  /** What a thread has to shut is apart from what is in use and what is shut. */
  ghost predicate OwnApart(w: World, t: nat) {
    && PoolsOf(PhaseOf(w, t)) !! Held(w.fields) + w.shut
    && (forall p | p in PoolsOf(PhaseOf(w, t)) :: p < w.fields.built)
  }

  lemma FieldsStayApart(w: World, e: Event)
    requires PoolsApart(w) && Enabled(w, e) && HasThread(e)
    ensures FieldsApart(Next(w, e).fields, Next(w, e).shut)
  {
  }

  lemma OwnStaysApart(w: World, e: Event)
    requires PoolsApart(w) && Enabled(w, e) && HasThread(e)
    ensures OwnApart(Next(w, e), e.thread)
  {
    var w', t := Next(w, e), e.thread;
    OwnBefore(w, t);
    forall p | p in PoolsOf(PhaseOf(w', t)) ensures p !in Held(w'.fields) + w'.shut && p < w'.fields.built {
      assert p in Held(w.fields) || p in PoolsOf(PhaseOf(w, t));
    }
  }

  lemma OwnBefore(w: World, t: nat)
    requires PoolsApart(w)
    ensures OwnApart(w, t)
  {
    hide Held;
    NoPoolsResting(w, t);
  }

  lemma ApartStep(w: World, e: Event)
    requires PoolsApart(w) && Enabled(w, e)
    ensures PoolsApart(Next(w, e))
  {
    hide Next, Enabled, PoolsApart;
    if !HasThread(e) {
      ForeignKeepsPools(w, e);
    } else {
      PoolsMove(w, e);
      FieldsStayApart(w, e);
      OwnStaysApart(w, e);
      NoPoolsResting(w, e.thread);
      OthersApart(w, Next(w, e), e.thread);
    }
  }

  lemma NoPoolsResting(w: World, t: nat)
    ensures t in w.threads || PoolsOf(PhaseOf(w, t)) == {}
  {
  }

  lemma OthersApart(w: World, w': World, t: nat)
    requires PoolsApart(w) && w'.threads == w.threads[t := PhaseOf(w', t)] && w'.fields.built >= w.fields.built
    requires forall p | p in Held(w'.fields) + PoolsOf(PhaseOf(w', t)) + w'.shut ::
               p in Held(w.fields) + PoolsOf(PhaseOf(w, t)) + w.shut || p >= w.fields.built
    requires FieldsApart(w'.fields, w'.shut) && OwnApart(w', t)
    requires t in w.threads || PoolsOf(PhaseOf(w, t)) == {}
    ensures PoolsApart(w')
  {
    hide Held, PoolsOf, Pools;
    assert t in w'.threads && PhaseOf(w', t) == w'.threads[t];
    forall u, p | u in w'.threads && u != t && p in PoolsOf(w'.threads[u])
      ensures p !in Held(w'.fields) + PoolsOf(PhaseOf(w', t)) + w'.shut
    {
      assert u in w.threads && w'.threads[u] == w.threads[u] && p < w.fields.built;
      assert p !in Held(w.fields) + w.shut;
      assert p !in PoolsOf(PhaseOf(w, t));
    }
    forall u | u in w'.threads && u != t
      ensures PoolsOf(w'.threads[u]) !! Held(w'.fields) + w'.shut && PoolsOf(w'.threads[u]) !! PoolsOf(w'.threads[t])
    {
      assert PoolsOf(w'.threads[u]) !! Held(w'.fields) + PoolsOf(PhaseOf(w', t)) + w'.shut;
    }
  }

  lemma ForeignKeepsPools(w: World, e: Event)
    requires PoolsApart(w) && Enabled(w, e) && !HasThread(e)
    ensures PoolsApart(Next(w, e))
  {
  }

  lemma LostStep(w: World, e: Event)
    requires NothingLost(w) && PoolsApart(w) && Enabled(w, e)
    ensures NothingLost(Next(w, e))
  {
    var w' := Next(w, e);
    forall p: nat | p < w'.fields.built ensures PoolHeld(w', p) {
      PoolStep(w, e, p);
    }
    forall c: nat | c < w'.dialed ensures ConnHeld(w', c) {
      ConnStep(w, e, c);
    }
  }

  lemma PoolStep(w: World, e: Event, p: nat)
    requires NothingLost(w) && Enabled(w, e) && p < Next(w, e).fields.built
    ensures PoolHeld(Next(w, e), p)
  {
    var w' := Next(w, e);
    if p < w.fields.built {
      assert PoolHeld(w, p);
      if u :| u in w.threads && p in PoolsOf(w.threads[u]) {
        assert u in w'.threads && (p in PoolsOf(w'.threads[u]) || p in w'.shut);
      } else if HasThread(e) && e.thread in w'.threads {
        assert p in PoolsOf(w'.threads[e.thread]) || p in Held(w'.fields) || p in w'.shut;
      }
    }
  }

  lemma ConnStep(w: World, e: Event, c: nat)
    requires NothingLost(w) && Enabled(w, e) && c < Next(w, e).dialed
    ensures ConnHeld(Next(w, e), c)
  {
    var w' := Next(w, e);
    if c < w.dialed {
      assert ConnHeld(w, c);
    }
    if u :| u in w.threads && c in ConnsOf(w.threads[u]) {
      assert u in w'.threads && (c in ConnsOf(w'.threads[u]) || c in w'.hungUp || c in w'.fields.connections);
    } else if HasThread(e) && e.thread in w'.threads {
      assert c in ConnsOf(w'.threads[e.thread]) || c in w'.fields.connections || c in w'.hungUp
        || (c in w'.plain && w'.plain[c] !in w'.shut);
    }
  }

  ghost predicate Inv(w: World) {
    SealOk(w) && PoolsApart(w) && NothingLost(w)
  }

  lemma StartIsOk()
    ensures Inv(START)
  {
  }

  /** In every run of builders, dialers, closers and aborts. */
  lemma {:induction false} RunKeepsInv(w: World, events: seq<Event>)
    requires Inv(w) && Possible(w, events)
    ensures Inv(Run(w, events)) && (w.sealed ==> Run(w, events).sealed && Run(w, events).handed == w.handed)
    decreases |events|
  {
    hide Next, Enabled, SealOk, PoolsApart, NothingLost;
    if events != [] {
      SealStep(w, events[0]);
      ApartStep(w, events[0]);
      LostStep(w, events[0]);
      RunKeepsInv(Next(w, events[0]), events[1..]);
    }
  }

  /** Once a fenced client has been detached, it has no pool, tracks no connection and hands out none, ever again. */
  lemma FenceIsPermanent(before: seq<Event>, after: seq<Event>)
    requires Possible(START, before) && Run(START, before).sealed && Possible(Run(START, before), after)
    ensures Empty(Run(Run(START, before), after).fields)
    ensures Run(Run(START, before), after).handed == Run(START, before).handed
  {
    StartIsOk();
    RunKeepsInv(START, before);
    RunKeepsInv(Run(START, before), after);
  }

  /** When the closers are done, every pool ever built is shut and every connection ever dialed hung up. */
  lemma NothingOutlivesClose(w: World)
    requires Inv(w) && w.sealed
    requires forall t | t in w.threads :: PoolsOf(w.threads[t]) == {} && ConnsOf(w.threads[t]) == {}
    ensures forall p: nat | p < w.fields.built :: p in w.shut
    ensures forall c: nat | c < w.dialed :: c in w.hungUp
  {
    forall p: nat | p < w.fields.built ensures p in w.shut {
      assert PoolHeld(w, p);
    }
    forall c: nat | c < w.dialed ensures c in w.hungUp {
      assert ConnHeld(w, c);
    }
  }
}
