/** One winner per generation: what every run of the kimi store keeps. */
module KimiRuns {
  import opened ByteStrings
  import opened EvictionOrder
  import opened KimiLocal

  /** One critical section of the store. */
  datatype Event =
    | Get(key: string, now: int)
    | Cache(key: string, content: Bytes, now: int)
    | Replace(key: string, snapshot: Snapshot, content: Bytes, now: int)
    | DeleteIf(key: string, snapshot: Snapshot, now: int)
    | Delete(key: string)
    | Clear
    | Purge(now: int)

  /** The store, the snapshots handed out, and how often each was used with success. */
  datatype World = World(entries: Entries, generations: nat, issued: set<(string, nat)>, wins: multiset<(string, nat)>)

  const INITIAL: World := World(map[], 0, {}, multiset{})

  ghost predicate Enabled(w: World, e: Event) {
    match e
    case Get(key, _) => key != ""
    case Replace(key, s, _, _) => s == Snapshot(s.generation, true, true) && (key, s.generation) in w.issued
    case DeleteIf(key, s, _) => s == Snapshot(s.generation, true, true) && (key, s.generation) in w.issued
    case _ => true
  }

  /** Does the event write under a fresh generation? */
  ghost predicate Succeeds(valid: Bytes -> bool, w: World, e: Event) {
    match e
    case Cache(key, content, _) => key != "" && valid(content)
    case Replace(key, s, content, _) => key != "" && valid(content) && Current(w.entries, key, s)
    case DeleteIf(key, s, _) => key != "" && Current(w.entries, key, s)
    case Get(key, now) => !Live(w.entries, key, now)
    case _ => false
  }

  /** The entries an event leaves, given the fresh generation it may use: everything else stays or is evicted. */
  ghost predicate Next(valid: Bytes -> bool, w: World, e: Event, w': World) {
    && Enabled(w, e)
    && w.generations <= w'.generations
    && (forall k | k in w'.entries :: w'.entries[k].generation <= w'.generations)
    && (forall k | k in w'.entries ::
          || (k in w.entries && w'.entries[k].generation == w.entries[k].generation && !Written(valid, w, e, k))
          || (Written(valid, w, e, k) && w'.entries[k].generation > w.generations))
    && w'.wins == (if (e.Replace? || e.DeleteIf?) && Succeeds(valid, w, e)
                   then w.wins + multiset{(e.key, e.snapshot.generation)} else w.wins)
    && w'.issued
       == w.issued + if e.Get? && e.key in w'.entries then {(e.key, w'.entries[e.key].generation)} else {}
  }

  ghost predicate Written(valid: Bytes -> bool, w: World, e: Event, k: string) {
    (e.Get? || e.Cache? || e.Replace? || e.DeleteIf?) && e.key == k && Succeeds(valid, w, e)
  }

  // ---------------------------------------------------------------- the operations are such steps

  lemma StoreIsStep(valid: Bytes -> bool, w: World, e: Event, after: Entries, generations: nat,
      victims: set<string>, entry: Entry)
    requires Enabled(w, e) && Succeeds(valid, w, e) && (e.Cache? || e.Replace? || e.DeleteIf?)
    requires forall k | k in w.entries :: w.entries[k].generation <= w.generations
    requires entry.generation == generations > w.generations
    requires after == w.entries[e.key := entry] - victims
    ensures Next(valid, w, e, World(after, generations, w.issued,
              if e.Cache? then w.wins else w.wins + multiset{(e.key, e.snapshot.generation)}))
  {
  }

  /** A store, replace or delete that reports failure leaves everything as it was. */
  lemma FailureIsStep(valid: Bytes -> bool, w: World, e: Event, generations: nat)
    requires Enabled(w, e) && !Succeeds(valid, w, e) && (e.Cache? || e.Replace? || e.DeleteIf?)
    requires forall k | k in w.entries :: w.entries[k].generation <= w.generations
    requires generations >= w.generations
    ensures Next(valid, w, e, w.(generations := generations))
  {
  }

  /** What the contract of Get leaves: a live entry with a new time, or a reservation and what it spared. */
  lemma GetIsStep(valid: Bytes -> bool, w: World, key: string, now: int, after: Entries, generations: nat,
      victims: set<string>, reserved: Entry)
    requires key != "" && forall k | k in w.entries :: w.entries[k].generation <= w.generations
    requires generations >= w.generations && reserved.generation == generations
    requires Live(w.entries, key, now) ==> after == w.entries[key := w.entries[key].(timestamp := now)]
    requires !Live(w.entries, key, now) ==> generations > w.generations
    requires !Live(w.entries, key, now) ==> after == ((w.entries - {key})[key := reserved] - victims)[key := reserved]
    ensures key in after
    ensures Next(valid, w, Get(key, now), World(after, generations, w.issued + {(key, after[key].generation)}, w.wins))
  {
  }

  /** What the contracts of Delete, Clear and PurgeExpired leave is part of what was there. */
  lemma RemovalIsStep(valid: Bytes -> bool, w: World, e: Event, after: Entries)
    requires e.Delete? || e.Clear? || e.Purge?
    requires forall k | k in w.entries :: w.entries[k].generation <= w.generations
    requires e.Delete? ==> after == w.entries - {e.key}
    requires e.Clear? ==> after == map[]
    requires e.Purge? ==> after == map k | k in w.entries && e.now - w.entries[k].timestamp <= TTL :: w.entries[k]
    ensures Next(valid, w, e, w.(entries := after))
  {
  }

  // ---------------------------------------------------------------- one winner

  ghost predicate IsRun(valid: Bytes -> bool, worlds: seq<World>, events: seq<Event>) {
    && |worlds| == |events| + 1 && worlds[0] == INITIAL
    && forall i | 0 <= i < |events| :: Next(valid, worlds[i], events[i], worlds[i + 1])
  }

  ghost predicate Inv(w: World) {
    && (forall k | k in w.entries :: w.entries[k].generation <= w.generations)
    && (forall p | p in w.issued :: p.1 <= w.generations)
    && (forall p | p in w.wins :: p in w.issued && w.wins[p] == 1)
    && (forall p | p in w.wins :: p.0 in w.entries ==> w.entries[p.0].generation != p.1)
  }

  lemma NextKeepsInv(valid: Bytes -> bool, w: World, e: Event, w': World)
    requires Inv(w) && Next(valid, w, e, w')
    ensures Inv(w')
  {
    forall p | p in w'.wins ensures w'.wins[p] == 1 && (p.0 in w'.entries ==> w'.entries[p.0].generation != p.1) {
      if (e.Replace? || e.DeleteIf?) && Succeeds(valid, w, e) && p == (e.key, e.snapshot.generation) {
        assert e.key in w.entries && w.entries[e.key].generation == e.snapshot.generation;
        assert p !in w.wins;
      } else {
        assert p in w.wins;
      }
    }
  }

  lemma {:induction false} RunKeepsInv(valid: Bytes -> bool, worlds: seq<World>, events: seq<Event>, i: nat)
    requires IsRun(valid, worlds, events) && i < |worlds|
    ensures Inv(worlds[i])
  {
    hide Next;
    if i > 0 {
      hide Inv;
      RunKeepsInv(valid, worlds, events, i - 1);
      NextKeepsInv(valid, worlds[i - 1], events[i - 1], worlds[i]);
    }
  }

  /** Of all requests that read one generation of a key, at most one replace or delete ever succeeds. */
  lemma OneWinnerPerGeneration(valid: Bytes -> bool, worlds: seq<World>, events: seq<Event>, i: nat, j: nat)
    requires IsRun(valid, worlds, events) && i < j < |events|
    requires (events[i].Replace? || events[i].DeleteIf?) && (events[j].Replace? || events[j].DeleteIf?)
    requires events[i].key == events[j].key && events[i].snapshot.generation == events[j].snapshot.generation
    ensures !(Succeeds(valid, worlds[i], events[i]) && Succeeds(valid, worlds[j], events[j]))
  {
    var p := (events[i].key, events[i].snapshot.generation);
    assert Next(valid, worlds[i], events[i], worlds[i + 1]) && Next(valid, worlds[j], events[j], worlds[j + 1]);
    if Succeeds(valid, worlds[i], events[i]) {
      assert p in worlds[i + 1].wins;
      WinsGrow(valid, worlds, events, i + 1, j);
      RunKeepsInv(valid, worlds, events, j);
      assert p in worlds[j].wins;
    }
  }

  lemma {:induction false} WinsGrow(valid: Bytes -> bool, worlds: seq<World>, events: seq<Event>, i: nat, j: nat)
    requires IsRun(valid, worlds, events) && i <= j < |worlds|
    ensures worlds[i].wins <= worlds[j].wins
    decreases j
  {
    if i < j {
      WinsGrow(valid, worlds, events, i, j - 1);
      assert Next(valid, worlds[j - 1], events[j - 1], worlds[j]);
    }
  }
}
