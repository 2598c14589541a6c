/** What every run of the in-process replay cache keeps: branch chains and no resurrection. */
module AntigravityRuns {
  import opened ByteStrings
  import opened EvictionOrder
  import opened AntigravityLocal

  /** One critical section. */
  datatype Event =
    | Get(key: string, now: int)
    | Cache(key: string, now: int, items: Items)
    | Replace(key: string, now: int, snapshot: Snapshot, items: Items)
    | DeleteIf(key: string, now: int, snapshot: Snapshot)
    | Delete(key: string, now: int)
    | Clear
    | Purge(now: int)

  /** A value some key took. */
  datatype Write = Write(key: string, branch: nat, items: Items)

  /** The store, the snapshots handed out so far, and every value ever written. */
  datatype World = World(store: Store, issued: set<(string, Snapshot)>, log: seq<Write>)

  const INITIAL: World := World(Store(map[], 0, 0, 0), {}, [])

  // ---------------------------------------------------------------- steps

  function WriteTo(w: World, key: string, now: int, items: Items, branch: nat, deleted: bool): World {
    var s := Written(w.store, key, now, items, branch, deleted);
    w.(store := s, log := w.log + [Write(key, s.entries[key].branch, items)])
  }

  function Evict(w: World, victims: set<string>): World {
    w.(store := Without(w.store, victims))
  }

  /** The event is allowed here: a conditional operation uses a snapshot this cache handed out for its key. */
  predicate Enabled(w: World, e: Event) {
    match e
    case Get(key, _) => key != ""
    case Delete(key, _) => key != ""
    case Replace(key, _, snapshot, _) => (key, snapshot) in w.issued
    case DeleteIf(key, _, snapshot) => (key, snapshot) in w.issued
    case _ => true
  }

  predicate Succeeds(normalize: Bytes -> Option<Bytes>, w: World, e: Event) {
    match e
    case Cache(key, _, items) => key != "" && Normalized(normalize, items).Some?
    case Replace(key, _, snapshot, items) =>
      && key != "" && Normalized(normalize, items).Some?
      && Admits(w.store, key, snapshot, Normalized(normalize, items).value)
    case DeleteIf(key, _, snapshot) => key != "" && Matches(w.store, key, snapshot)
    case _ => true
  }

  /** The write an event makes before eviction, if any. */
  function BeforeEviction(normalize: Bytes -> Option<Bytes>, w: World, e: Event): World
    requires Succeeds(normalize, w, e)
  {
    match e
    case Cache(key, now, items) => WriteTo(w, key, now, Normalized(normalize, items).value, NO_BRANCH, false)
    case Replace(key, now, snapshot, items) =>
      var normalized := Normalized(normalize, items).value;
      WriteTo(w, key, now, normalized, ReplaceBranch(w.store, key, snapshot, normalized), false)
    case DeleteIf(key, now, _) => WriteTo(w, key, now, [], NO_BRANCH, true)
    case Delete(key, now) => WriteTo(w, key, now, [], NO_BRANCH, true)
    case _ => w
  }

  ghost predicate Next(normalize: Bytes -> Option<Bytes>, w: World, e: Event, victims: set<string>, w': World) {
    Enabled(w, e) &&
    if !Succeeds(normalize, w, e) then w' == w
    else
      match e
      case Get(key, now) =>
        && ReadVictims(w.store, key, now, victims)
        && (GetWorldReads(w, key, now, victims); w' == Issue(GetWorld(w, key, now, victims), key))
      case Clear => w' == w.(store := w.store.(entries := map[], epoch := w.store.epoch + 1))
      case Purge(now) => w' == Evict(w, Purged(w.store, now))
      case _ =>
        var written := BeforeEviction(normalize, w, e);
        Victims(written.store.entries, Overfull(written.store), victims) && w' == Evict(written, victims)
  }

  function GetWorld(w: World, key: string, now: int, victims: set<string>): World {
    if key in w.store.entries && !Expired(w.store, key, now) then w.(store := Read(w.store, key, now, victims))
    else WriteTo(Evict(w.(store := Dropped(w.store, key, now)), victims), key, now, [], NO_BRANCH, true)
  }

  lemma GetWorldReads(w: World, key: string, now: int, victims: set<string>)
    ensures GetWorld(w, key, now, victims).store == Read(w.store, key, now, victims)
    ensures key in GetWorld(w, key, now, victims).store.entries
  {
  }

  function Issue(w: World, key: string): World
    requires key in w.store.entries
  {
    w.(issued := w.issued + {(key, SnapshotOf(w.store, key))})
  }

  /** A run: worlds and the events between them, each with the entries it evicted. */
  ghost predicate IsRun(normalize: Bytes -> Option<Bytes>, worlds: seq<World>, events: seq<(Event, set<string>)>) {
    && |worlds| == |events| + 1 && worlds[0] == INITIAL
    && forall i | 0 <= i < |events| :: Next(normalize, worlds[i], events[i].0, events[i].1, worlds[i + 1])
  }

  // ---------------------------------------------------------------- the invariant

  /** All values a key took on one branch are ordered by the prefix relation, oldest first. */
  ghost predicate Chain(log: seq<Write>) {
    forall i, j | 0 <= i < j < |log| && log[i].key == log[j].key && log[i].branch == log[j].branch ::
      log[i].items <= log[j].items
  }

  ghost predicate EntryKnown(w: World, key: string)
    requires key in w.store.entries
  {
    var e := w.store.entries[key];
    && e.revision <= w.store.revision && 1 <= e.branch <= w.store.branches
    && (e.deleted ==> e.items == [])
    && Write(key, e.branch, e.items) in w.log
    && forall i | 0 <= i < |w.log| && w.log[i].key == key && w.log[i].branch == e.branch :: w.log[i].items <= e.items
  }

  ghost predicate SnapshotKnown(s: Store, key: string, snapshot: Snapshot) {
    && snapshot.loaded && snapshot.found
    && snapshot.revision <= s.revision && 1 <= snapshot.branch <= s.branches
    && (key in s.entries && s.entries[key].revision == snapshot.revision ==>
          s.entries[key].branch == snapshot.branch && s.entries[key].items == snapshot.items)
  }

  ghost predicate Inv(w: World) {
    && (forall k | k in w.store.entries :: EntryKnown(w, k))
    && (forall p | p in w.issued :: SnapshotKnown(w.store, p.0, p.1))
    && (forall i | 0 <= i < |w.log| :: w.log[i].branch <= w.store.branches)
    && Chain(w.log)
  }

  lemma ChainGrows(w: World, key: string, branch: nat, items: Items)
    requires Inv(w)
    requires branch > w.store.branches ||
             (key in w.store.entries && w.store.entries[key].branch == branch && w.store.entries[key].items <= items)
    ensures forall i | 0 <= i < |w.log| && w.log[i].key == key && w.log[i].branch == branch :: w.log[i].items <= items
    ensures Chain(w.log + [Write(key, branch, items)])
  {
    if key in w.store.entries {
      assert EntryKnown(w, key);
    }
  }

  /** Writing on a fresh branch, or extending the current entry on its own branch, keeps the invariant. */
  lemma WriteKeepsInv(w: World, key: string, now: int, items: Items, branch: nat, deleted: bool)
    requires Inv(w) && (deleted ==> items == [])
    requires branch == NO_BRANCH ||
             (key in w.store.entries && w.store.entries[key].branch == branch && w.store.entries[key].items <= items)
    ensures Inv(WriteTo(w, key, now, items, branch, deleted))
  {
    hide Chain;
    var w' := WriteTo(w, key, now, items, branch, deleted);
    var b := w'.store.entries[key].branch;
    var n := |w.log|;
    ChainGrows(w, key, b, items);
    assert w'.log[n] == Write(key, b, items);
    forall k | k in w'.store.entries ensures EntryKnown(w', k) {
      if k != key {
        assert EntryKnown(w, k);
        var j :| 0 <= j < n && w.log[j] == Write(k, w.store.entries[k].branch, w.store.entries[k].items);
        assert w'.log[j] == w.log[j];
      }
    }
    forall p | p in w'.issued ensures SnapshotKnown(w'.store, p.0, p.1) {
      assert SnapshotKnown(w.store, p.0, p.1);
    }
  }

  lemma RemovalKeepsInv(w: World, keys: set<string>, epoch: nat)
    requires Inv(w)
    ensures Inv(w.(store := w.store.(entries := w.store.entries - keys, epoch := epoch)))
  {
    var w' := w.(store := w.store.(entries := w.store.entries - keys, epoch := epoch));
    forall k | k in w'.store.entries ensures EntryKnown(w', k) {
      assert EntryKnown(w, k);
    }
    forall p | p in w'.issued ensures SnapshotKnown(w'.store, p.0, p.1) {
      assert SnapshotKnown(w.store, p.0, p.1);
    }
  }

  lemma TouchKeepsInv(w: World, key: string, now: int)
    requires Inv(w) && key in w.store.entries
    ensures Inv(w.(store := w.store.(entries := w.store.entries[key := w.store.entries[key].(timestamp := now)])))
  {
    var w' := w.(store := w.store.(entries := w.store.entries[key := w.store.entries[key].(timestamp := now)]));
    forall k | k in w'.store.entries ensures EntryKnown(w', k) {
      assert EntryKnown(w, k);
    }
    forall p | p in w'.issued ensures SnapshotKnown(w'.store, p.0, p.1) {
      assert SnapshotKnown(w.store, p.0, p.1);
    }
  }

  lemma IssueKeepsInv(w: World, key: string)
    requires Inv(w) && key in w.store.entries
    ensures Inv(Issue(w, key))
  {
    assert EntryKnown(w, key);
    assert SnapshotKnown(w.store, key, SnapshotOf(w.store, key));
    forall k | k in w.store.entries ensures EntryKnown(Issue(w, key), k) {
      assert EntryKnown(w, k);
    }
  }

  lemma GetKeepsInv(w: World, key: string, now: int, victims: set<string>)
    requires Inv(w)
    ensures Inv(GetWorld(w, key, now, victims))
  {
    hide Inv;
    var s := w.store;
    if key in s.entries && !Expired(s, key, now) {
      TouchKeepsInv(w, key, now);
    } else {
      if Expired(s, key, now) {
        RemovalKeepsInv(w, {key}, s.epoch + 1);
        assert |{key}| == 1;
      }
      var dropped := w.(store := Dropped(s, key, now));
      assert Inv(dropped);
      RemovalKeepsInv(dropped, victims, dropped.store.epoch + |victims|);
      WriteKeepsInv(Evict(dropped, victims), key, now, [], NO_BRANCH, true);
    }
  }

  /** A conditional replace under the invariant writes on a fresh branch or extends the stored items. */
  lemma ReplaceExtends(normalize: Bytes -> Option<Bytes>, w: World, e: Event)
    requires Inv(w) && e.Replace? && Enabled(w, e) && Succeeds(normalize, w, e)
    ensures e.key in w.store.entries
    ensures var items := Normalized(normalize, e.items).value;
            var branch := ReplaceBranch(w.store, e.key, e.snapshot, items);
            branch == NO_BRANCH || (w.store.entries[e.key].branch == branch && w.store.entries[e.key].items <= items)
  {
    assert SnapshotKnown(w.store, e.key, e.snapshot);
  }

  lemma NextKeepsInv(normalize: Bytes -> Option<Bytes>, w: World, e: Event, victims: set<string>, w': World)
    requires Inv(w) && Next(normalize, w, e, victims, w')
    ensures Inv(w')
  {
    hide Inv, Normalized;
    if Succeeds(normalize, w, e) {
      match e
      case Get(key, now) =>
        GetKeepsInv(w, key, now, victims);
        IssueKeepsInv(GetWorld(w, key, now, victims), key);
      case Clear =>
        RemovalKeepsInv(w, w.store.entries.Keys, w.store.epoch + 1);
        assert w.store.entries - w.store.entries.Keys == map[];
      case Purge(now) =>
        RemovalKeepsInv(w, Purged(w.store, now), w.store.epoch + |Purged(w.store, now)|);
      case Replace(key, now, snapshot, items) =>
        ReplaceExtends(normalize, w, e);
        var normalized := Normalized(normalize, items).value;
        WriteKeepsInv(w, key, now, normalized, ReplaceBranch(w.store, key, snapshot, normalized), false);
        EvictKeepsInv(BeforeEviction(normalize, w, e), victims);
      case Cache(key, now, items) =>
        WriteKeepsInv(w, key, now, Normalized(normalize, items).value, NO_BRANCH, false);
        EvictKeepsInv(BeforeEviction(normalize, w, e), victims);
      case DeleteIf(key, now, _) =>
        WriteKeepsInv(w, key, now, [], NO_BRANCH, true);
        EvictKeepsInv(BeforeEviction(normalize, w, e), victims);
      case Delete(key, now) =>
        WriteKeepsInv(w, key, now, [], NO_BRANCH, true);
        EvictKeepsInv(BeforeEviction(normalize, w, e), victims);
    }
  }

  lemma EvictKeepsInv(w: World, victims: set<string>)
    requires Inv(w)
    ensures Inv(Evict(w, victims))
  {
    RemovalKeepsInv(w, victims, w.store.epoch + |victims|);
  }

  lemma {:induction false} RunKeepsInv(normalize: Bytes -> Option<Bytes>, worlds: seq<World>,
      events: seq<(Event, set<string>)>, i: nat)
    requires IsRun(normalize, worlds, events) && i < |worlds|
    ensures Inv(worlds[i])
  {
    hide Inv, Next;
    if i == 0 {
      InitialInv();
    } else {
      RunKeepsInv(normalize, worlds, events, i - 1);
      NextKeepsInv(normalize, worlds[i - 1], events[i - 1].0, events[i - 1].1, worlds[i]);
    }
  }

  lemma InitialInv()
    ensures Inv(INITIAL)
  {
  }

  // ---------------------------------------------------------------- main results

  /** In every run, the values one key takes on one branch only ever grow at the end. */
  lemma BranchesAreChains(normalize: Bytes -> Option<Bytes>, worlds: seq<World>, events: seq<(Event, set<string>)>,
      i: nat)
    requires IsRun(normalize, worlds, events) && i < |worlds|
    ensures Chain(worlds[i].log)
    ensures forall k | k in worlds[i].store.entries ::
              Write(k, worlds[i].store.entries[k].branch, worlds[i].store.entries[k].items) in worlds[i].log
  {
    RunKeepsInv(normalize, worlds, events, i);
    assert forall k | k in worlds[i].store.entries :: EntryKnown(worlds[i], k);
  }

  /**
   * In every run, a replace is accepted exactly when its key still holds the revision it read, or a
   * live entry of the same branch that its items extend. The eviction epoch never decides.
   */
  lemma ReplaceAcceptedIff(normalize: Bytes -> Option<Bytes>, worlds: seq<World>, events: seq<(Event, set<string>)>,
      i: nat)
    requires IsRun(normalize, worlds, events) && i < |events| && events[i].0.Replace?
    requires events[i].0.key != "" && Normalized(normalize, events[i].0.items).Some?
    ensures var e, s := events[i].0, worlds[i].store;
            var items := Normalized(normalize, e.items).value;
            Succeeds(normalize, worlds[i], e) <==>
              e.key in s.entries &&
              (s.entries[e.key].revision == e.snapshot.revision ||
               (!s.entries[e.key].deleted && s.entries[e.key].branch == e.snapshot.branch
                   && s.entries[e.key].items <= items))
  {
    RunKeepsInv(normalize, worlds, events, i);
    assert Next(normalize, worlds[i], events[i].0, events[i].1, worlds[i + 1]);
    assert SnapshotKnown(worlds[i].store, events[i].0.key, events[i].0.snapshot);
  }

  /** A replace accepted after someone else's write keeps all of that write and stays on its branch. */
  lemma ConcurrentTurnIsKept(normalize: Bytes -> Option<Bytes>, worlds: seq<World>,
      events: seq<(Event, set<string>)>, i: nat)
    requires IsRun(normalize, worlds, events) && i < |events| && events[i].0.Replace?
    requires Succeeds(normalize, worlds[i], events[i].0)
    ensures var e, before, written := events[i].0, worlds[i].store.entries,
              BeforeEviction(normalize, worlds[i], events[i].0).store.entries;
            && e.key in before && e.key in written && written[e.key].items == Normalized(normalize, e.items).value
            && (before[e.key].revision != e.snapshot.revision ==>
                  before[e.key].items <= written[e.key].items && written[e.key].branch == before[e.key].branch)
  {
    RunKeepsInv(normalize, worlds, events, i);
    assert Next(normalize, worlds[i], events[i].0, events[i].1, worlds[i + 1]);
    assert SnapshotKnown(worlds[i].store, events[i].0.key, events[i].0.snapshot);
  }

  /** The state a snapshot saw is gone for good: neither its revision nor its branch is stored. */
  ghost predicate Gone(s: Store, key: string, snapshot: Snapshot) {
    && snapshot.found && snapshot.revision <= s.revision && 1 <= snapshot.branch <= s.branches
    && (key in s.entries ==> s.entries[key].revision != snapshot.revision && s.entries[key].branch != snapshot.branch)
  }

  lemma GoneIsRejected(normalize: Bytes -> Option<Bytes>, w: World, e: Event)
    requires (e.Replace? || e.DeleteIf?) && Gone(w.store, e.key, e.snapshot)
    ensures !Succeeds(normalize, w, e)
  {
  }

  lemma WriteKeepsGone(w: World, k: string, now: int, items: Items, branch: nat, deleted: bool, key: string,
      snapshot: Snapshot)
    requires Gone(w.store, key, snapshot)
    requires branch == NO_BRANCH || (k in w.store.entries && w.store.entries[k].branch == branch)
    ensures Gone(WriteTo(w, k, now, items, branch, deleted).store, key, snapshot)
  {
  }

  lemma NextKeepsGone(normalize: Bytes -> Option<Bytes>, w: World, e: Event, victims: set<string>, w': World,
      key: string, snapshot: Snapshot)
    requires Inv(w) && Next(normalize, w, e, victims, w') && Gone(w.store, key, snapshot)
    ensures Gone(w'.store, key, snapshot)
  {
    hide Inv, Normalized, Victims, ReadVictims;
    if Succeeds(normalize, w, e) {
      match e
      case Get(k, now) =>
        if !(k in w.store.entries && !Expired(w.store, k, now)) {
          WriteKeepsGone(Evict(w.(store := Dropped(w.store, k, now)), victims), k, now, [], NO_BRANCH, true, key,
              snapshot);
        }
      case Replace(k, now, used, items) =>
        ReplaceExtends(normalize, w, e);
        var normalized := Normalized(normalize, items).value;
        WriteKeepsGone(w, k, now, normalized, ReplaceBranch(w.store, k, used, normalized), false, key, snapshot);
      case Cache(k, now, items) =>
        WriteKeepsGone(w, k, now, Normalized(normalize, items).value, NO_BRANCH, false, key, snapshot);
      case DeleteIf(k, now, _) =>
        WriteKeepsGone(w, k, now, [], NO_BRANCH, true, key, snapshot);
      case Delete(k, now) =>
        WriteKeepsGone(w, k, now, [], NO_BRANCH, true, key, snapshot);
      case Clear =>
      case Purge(_) =>
    }
  }

  /**
   * Events that end what an earlier snapshot of a key saw: whatever leaves the key absent, deletes, stores,
   * a read that drops an expired entry or finds none and reserves the key, and a replace on a fresh branch.
   */
  ghost predicate Ends(normalize: Bytes -> Option<Bytes>, w: World, e: Event, w': World, key: string) {
    || key !in w'.store.entries
    || ((e.Delete? || e.DeleteIf? || e.Cache?) && e.key == key && Succeeds(normalize, w, e))
    || (e.Get? && e.key == key && (key !in w.store.entries || Expired(w.store, key, e.now)))
    || (e.Replace? && e.key == key && Succeeds(normalize, w, e)
        && ReplaceBranch(w.store, key, e.snapshot, Normalized(normalize, e.items).value) == NO_BRANCH)
  }

  lemma EndingMakesGone(normalize: Bytes -> Option<Bytes>, w: World, e: Event, victims: set<string>, w': World,
      key: string, snapshot: Snapshot)
    requires Inv(w) && Next(normalize, w, e, victims, w') && (key, snapshot) in w.issued
    requires Ends(normalize, w, e, w', key)
    ensures Gone(w'.store, key, snapshot)
  {
    NextKeepsInv(normalize, w, e, victims, w');
    assert SnapshotKnown(w.store, key, snapshot);
    assert (key, snapshot) in w'.issued;
    assert SnapshotKnown(w'.store, key, snapshot);
  }

  lemma {:induction false} GoneStays(normalize: Bytes -> Option<Bytes>, worlds: seq<World>,
      events: seq<(Event, set<string>)>, i: nat, j: nat, key: string, snapshot: Snapshot)
    requires IsRun(normalize, worlds, events) && i <= j < |worlds| && Gone(worlds[i].store, key, snapshot)
    ensures Gone(worlds[j].store, key, snapshot)
    decreases j
  {
    hide Inv, Next, Gone;
    if i < j {
      GoneStays(normalize, worlds, events, i, j - 1, key, snapshot);
      RunKeepsInv(normalize, worlds, events, j - 1);
      NextKeepsGone(normalize, worlds[j - 1], events[j - 1].0, events[j - 1].1, worlds[j], key, snapshot);
    }
  }

  /**
   * No resurrection: once a key was deleted, overwritten off its branch, evicted, purged, cleared, or dropped
   * as expired after a snapshot was taken, no replace and no delete holding that snapshot ever succeeds again.
   */
  lemma NoResurrection(normalize: Bytes -> Option<Bytes>, worlds: seq<World>, events: seq<(Event, set<string>)>,
      i: nat, j: nat)
    requires IsRun(normalize, worlds, events) && i < j < |events|
    requires events[j].0.Replace? || events[j].0.DeleteIf?
    requires (events[j].0.key, events[j].0.snapshot) in worlds[i].issued
    requires Ends(normalize, worlds[i], events[i].0, worlds[i + 1], events[j].0.key)
    ensures !Succeeds(normalize, worlds[j], events[j].0)
  {
    hide Inv, Next, Gone, Ends;
    RunKeepsInv(normalize, worlds, events, i);
    EndingMakesGone(normalize, worlds[i], events[i].0, events[i].1, worlds[i + 1], events[j].0.key,
        events[j].0.snapshot);
    GoneStays(normalize, worlds, events, i + 1, j, events[j].0.key, events[j].0.snapshot);
    GoneIsRejected(normalize, worlds[j], events[j].0);
  }

  // ---------------------------------------------------------------- bounded size

  lemma SizeAfterRemoval(entries: map<string, Entry>, keys: set<string>)
    requires keys <= entries.Keys
    ensures |entries - keys| == |entries| - |keys|
  {
    assert (entries - keys).Keys == entries.Keys - keys;
  }

  lemma SizeAfterWrite(w: World, key: string, now: int, items: Items, branch: nat, deleted: bool)
    ensures |WriteTo(w, key, now, items, branch, deleted).store.entries| <= |w.store.entries| + 1
  {
    var after := WriteTo(w, key, now, items, branch, deleted).store.entries;
    assert after.Keys == w.store.entries.Keys + {key};
  }

  lemma SizeAfterEviction(w: World, full: bool, victims: set<string>)
    requires Victims(w.store.entries, full, victims)
    ensures |Evict(w, victims).store.entries|
              == |w.store.entries| - (if full then Min(EVICT_BATCH, |w.store.entries|) else 0)
  {
    assert Ages(w.store.entries).Keys == w.store.entries.Keys;
    assert |Ages(w.store.entries)| == |w.store.entries|;
    SizeAfterRemoval(w.store.entries, victims);
  }

  lemma SizeAfterPut(w: World, key: string, now: int, items: Items, branch: nat, deleted: bool, victims: set<string>)
    requires |w.store.entries| <= MAX_ENTRIES
    requires var written := WriteTo(w, key, now, items, branch, deleted).store;
             Victims(written.entries, Overfull(written), victims)
    ensures |Evict(WriteTo(w, key, now, items, branch, deleted), victims).store.entries| <= MAX_ENTRIES
  {
    hide Victims, Evict, WriteTo;
    var written := WriteTo(w, key, now, items, branch, deleted);
    SizeAfterWrite(w, key, now, items, branch, deleted);
    SizeAfterEviction(written, Overfull(written.store), victims);
  }

  lemma SizeAfterGet(w: World, key: string, now: int, victims: set<string>)
    requires |w.store.entries| <= MAX_ENTRIES && ReadVictims(w.store, key, now, victims)
    ensures |GetWorld(w, key, now, victims).store.entries| <= MAX_ENTRIES
  {
    hide Victims, WriteTo, Evict;
    if key in w.store.entries && !Expired(w.store, key, now) {
      var touched := w.store.entries[key := w.store.entries[key].(timestamp := now)];
      assert touched.Keys == w.store.entries.Keys;
    } else {
      var dropped := w.(store := Dropped(w.store, key, now));
      if Expired(w.store, key, now) {
        SizeAfterRemoval(w.store.entries, {key});
      }
      SizeAfterEviction(dropped, |dropped.store.entries| >= MAX_ENTRIES, victims);
      SizeAfterWrite(Evict(dropped, victims), key, now, [], NO_BRANCH, true);
    }
  }

  lemma NextKeepsSize(normalize: Bytes -> Option<Bytes>, w: World, e: Event, victims: set<string>, w': World)
    requires Next(normalize, w, e, victims, w') && |w.store.entries| <= MAX_ENTRIES
    ensures |w'.store.entries| <= MAX_ENTRIES
  {
    hide Normalized, Victims, ReadVictims, GetWorld, WriteTo, Matches, Descends;
    if Succeeds(normalize, w, e) {
      match e
      case Get(key, now) =>
        SizeAfterGet(w, key, now, victims);
      case Clear =>
      case Purge(now) =>
        SizeAfterRemoval(w.store.entries, Purged(w.store, now));
      case Cache(key, now, items) =>
        SizeAfterPut(w, key, now, Normalized(normalize, items).value, NO_BRANCH, false, victims);
      case Replace(key, now, snapshot, items) =>
        var normalized := Normalized(normalize, items).value;
        SizeAfterPut(w, key, now, normalized, ReplaceBranch(w.store, key, snapshot, normalized), false, victims);
      case DeleteIf(key, now, _) =>
        SizeAfterPut(w, key, now, [], NO_BRANCH, true, victims);
      case Delete(key, now) =>
        SizeAfterPut(w, key, now, [], NO_BRANCH, true, victims);
    }
  }

  /** No run ever holds more than the configured number of entries. */
  lemma {:induction false} RunIsBounded(normalize: Bytes -> Option<Bytes>, worlds: seq<World>,
      events: seq<(Event, set<string>)>, i: nat)
    requires IsRun(normalize, worlds, events) && i < |worlds|
    ensures |worlds[i].store.entries| <= MAX_ENTRIES
  {
    hide Next;
    if i > 0 {
      RunIsBounded(normalize, worlds, events, i - 1);
      NextKeepsSize(normalize, worlds[i - 1], events[i - 1].0, events[i - 1].1, worlds[i]);
    }
  }
}
