/**
 * The steps of the in-process replay cache written out, and what a reader can count on
 * (internal/cache/antigravity_reasoning_replay_cache.go).
 */
module AntigravityLaws {
  import opened ByteStrings
  import opened EvictionOrder
  import opened ReplayItems
  import opened AntigravityLocal
  import opened AntigravityRuns

  /** 128 entries, or all of them, none younger than an entry that stays. */
  ghost predicate OldestGo(entries: map<string, Entry>, victims: set<string>) {
    && victims <= entries.Keys && |victims| == (if |entries| < 128 then |entries| else 128)
    && forall v, k | v in victims && k in entries && k !in victims :: entries[v].timestamp <= entries[k].timestamp
  }

  lemma VictimsIff(entries: map<string, Entry>, full: bool, victims: set<string>)
    ensures Victims(entries, full, victims) <==> if full then OldestGo(entries, victims) else victims == {}
  {
    var ages := Ages(entries);
    assert ages.Keys == entries.Keys;
    assert |ages| == |entries|;
    assert forall k | k in entries :: ages[k] == entries[k].timestamp;
    if AreOldest(ages, victims, 128) {
      forall v, k | v in victims && k in entries && k !in victims ensures entries[v].timestamp <= entries[k].timestamp {
        assert k in ages.Keys - victims;
        assert ages[v] <= ages[k];
      }
    }
  }

  /** Items are accepted when each alone normalizes or is dropped, within 4096 items and 16 MiB, and some are left. */
  lemma NormalizedIff(normalize: Bytes -> Option<Bytes>, items: Items, r: Items)
    ensures Normalized(normalize, items) == Some(r) <==>
            |items| <= 4096 && r == Kept(normalize, items) && TotalBytes(r) <= 16 * 1024 * 1024 && r != []
  {
  }

  lemma {:induction false} TotalBytesAppend(a: Items, b: Items)
    ensures TotalBytes(a + b) == TotalBytes(a) + TotalBytes(b)
    ensures forall x: Bytes :: TotalBytes([x]) == |x|
    decreases |b|
  {
    forall x: Bytes ensures TotalBytes([x]) == |x| {
      assert [x][..0] == [];
    }
    if b == [] {
      assert a + b == a;
    } else {
      TotalBytesAppend(a, b[..|b| - 1]);
      assert (a + b)[..|a + b| - 1] == a + b[..|b| - 1];
    }
  }

  // ---------------------------------------------------------------- reads

  /** An entry is live for an hour. */
  ghost predicate LiveAt(entries: map<string, Entry>, key: string, now: int) {
    key in entries && now - entries[key].timestamp <= 60 * 60 * 1_000_000_000
  }

  /**
   * A read of a live entry refreshes it, changes nothing else, and hands out its items and identity; any
   * other read makes room if the cache is full and leaves a tombstone under a new revision and branch.
   */
  lemma GetIs(normalize: Bytes -> Option<Bytes>, w: World, key: string, now: int, victims: set<string>, w': World)
    requires Next(normalize, w, Get(key, now), victims, w')
    ensures var s, s' := w.store, w'.store;
            && key in s'.entries
            && w'.issued == w.issued + {(key, Snapshot(if s'.entries[key].deleted then [] else s'.entries[key].items,
                 true, true, s'.entries[key].revision, s'.entries[key].branch, s'.epoch))}
    ensures LiveAt(w.store.entries, key, now) ==>
              var e := w.store.entries[key];
              w'.store
              == w.store.(entries := w.store.entries[key := Entry(e.items, now, e.revision, e.branch, e.deleted)])
    ensures !LiveAt(w.store.entries, key, now) ==>
              var s, s' := w.store, w'.store;
              var left := s.entries - {key};
              && (if |left| >= 10240 then OldestGo(left, victims) else victims == {})
              && s'.entries == (left - victims)[key := Entry([], now, s.revision + 1, s.branches + 1, true)]
              && s'.revision == s.revision + 1 && s'.branches == s.branches + 1
  {
    hide Victims;
    GetWorldReads(w, key, now, victims);
    if !LiveAt(w.store.entries, key, now) {
      var left := w.store.entries - {key};
      if key !in w.store.entries {
        assert left == w.store.entries;
      }
      VictimsIff(left, |left| >= 10240, victims);
    }
  }

  // ---------------------------------------------------------------- writes

  /** An entry stored under the next revision; past the bound the oldest go, the new one maybe with them. */
  ghost predicate StoredAs(s: Store, s': Store, victims: set<string>, key: string, e: Entry) {
    var put := s.entries[key := e];
    && (if |put| > 10240 then OldestGo(put, victims) else victims == {})
    && s'.entries == put - victims && s'.revision == s.revision + 1 == e.revision
  }

  lemma PutIs(w: World, key: string, now: int, items: Items, branch: nat, deleted: bool, victims: set<string>)
    requires var written := WriteTo(w, key, now, items, branch, deleted);
             Victims(written.store.entries, Overfull(written.store), victims)
    ensures var s' := Evict(WriteTo(w, key, now, items, branch, deleted), victims).store;
            var b := if branch == 0 then w.store.branches + 1 else branch;
            StoredAs(w.store, s', victims, key, Entry(items, now, w.store.revision + 1, b, deleted))
  {
    hide Victims, OldestGo;
    var written := WriteTo(w, key, now, items, branch, deleted).store;
    VictimsIff(written.entries, |written.entries| > 10240, victims);
  }

  /** A store that succeeds is on a new branch; one that cannot changes nothing. */
  lemma CacheIs(normalize: Bytes -> Option<Bytes>, w: World, key: string, now: int, input: Items, victims: set<string>,
      w': World)
    requires Next(normalize, w, Cache(key, now, input), victims, w')
    ensures if key != "" && Normalized(normalize, input).Some?
            then StoredAs(w.store, w'.store, victims, key,
                   Entry(Normalized(normalize, input).value, now, w.store.revision + 1, w.store.branches + 1, false))
            else w' == w
  {
    hide Normalized, Victims;
    if key != "" && Normalized(normalize, input).Some? {
      PutIs(w, key, now, Normalized(normalize, input).value, 0, false, victims);
    }
  }

  /**
   * A replace under the invariant of the runs: it succeeds when the revision is unchanged or the items
   * extend a live entry of the branch, and keeps the branch when they extend what the snapshot saw.
   */
  lemma ReplaceIs(normalize: Bytes -> Option<Bytes>, w: World, key: string, now: int, snapshot: Snapshot, input: Items,
      victims: set<string>, w': World)
    requires Inv(w) && Next(normalize, w, Replace(key, now, snapshot, input), victims, w')
    ensures Normalized(normalize, input).None? || key == "" ==> w' == w
    ensures Normalized(normalize, input).Some? && key != "" ==>
              var items := Normalized(normalize, input).value;
              var same := key in w.store.entries && w.store.entries[key].revision == snapshot.revision;
              var longer := && key in w.store.entries && !w.store.entries[key].deleted
                             && w.store.entries[key].branch == snapshot.branch && w.store.entries[key].items <= items;
              if same || longer
              then
                var branch := if same && !(snapshot.items <= items) then w.store.branches + 1 else snapshot.branch;
                StoredAs(w.store, w'.store, victims, key, Entry(items, now, w.store.revision + 1, branch, false))
              else w' == w
  {
    hide Normalized, Victims, StoredAs;
    assert SnapshotKnown(w.store, key, snapshot);
    if Normalized(normalize, input).Some? && key != "" {
      var items := Normalized(normalize, input).value;
      if Admits(w.store, key, snapshot, items) {
        PutIs(w, key, now, items, ReplaceBranch(w.store, key, snapshot, items), false, victims);
      }
    }
  }

  /** A conditional delete under the invariant of the runs: it succeeds exactly when the revision is unchanged. */
  lemma DeleteIfIs(normalize: Bytes -> Option<Bytes>, w: World, key: string, now: int, snapshot: Snapshot,
      victims: set<string>, w': World)
    requires Inv(w) && Next(normalize, w, DeleteIf(key, now, snapshot), victims, w')
    ensures if key != "" && key in w.store.entries && w.store.entries[key].revision == snapshot.revision
            then StoredAs(w.store, w'.store, victims, key,
                Entry([], now, w.store.revision + 1, w.store.branches + 1, true))
            else w' == w
  {
    hide Victims, StoredAs;
    assert SnapshotKnown(w.store, key, snapshot);
    if key != "" && Matches(w.store, key, snapshot) {
      PutIs(w, key, now, [], 0, true, victims);
    }
  }

  /** A delete leaves a tombstone; a clear leaves nothing; a purge leaves exactly the live entries. */
  lemma RemovalIs(normalize: Bytes -> Option<Bytes>, w: World, e: Event, victims: set<string>, w': World)
    requires Next(normalize, w, e, victims, w')
    ensures e.Delete? ==>
              StoredAs(w.store, w'.store, victims, e.key,
                Entry([], e.now, w.store.revision + 1, w.store.branches + 1, true))
    ensures e.Clear? ==> w'.store.entries == map[]
    ensures e.Purge? ==>
              w'.store.entries == map k | k in w.store.entries && LiveAt(w.store.entries, k, e.now) ::
                  w.store.entries[k]
  {
    hide Victims, StoredAs;
    if e.Delete? {
      PutIs(w, e.key, e.now, [], 0, true, victims);
    } else if e.Purge? {
      var live := map k | k in w.store.entries && LiveAt(w.store.entries, k, e.now) :: w.store.entries[k];
      assert live.Keys == w.store.entries.Keys - Purged(w.store, e.now);
    }
  }

  // ---------------------------------------------------------------- the operations are these steps

  /** What the contracts of the cache say of a stored entry is such a store. */
  lemma PutIsStored(s: Store, key: string, now: int, items: Items, branch: nat, deleted: bool, victims: set<string>)
    requires PutVictims(s, key, now, items, branch, deleted, victims)
    ensures var b := if branch == 0 then s.branches + 1 else branch;
            StoredAs(s, Put(s, key, now, items, branch, deleted, victims), victims, key,
                     Entry(items, now, s.revision + 1, b, deleted))
    ensures Put(s, key, now, items, branch, deleted, victims)
         == Evict(WriteTo(World(s, {}, []), key, now, items, branch, deleted), victims).store
  {
    PutIs(World(s, {}, []), key, now, items, branch, deleted, victims);
  }

  /** The results and the states the contracts of the writing operations give are those of a step. */
  lemma WriteIsStep(cache: ReplayCache, w: World, e: Event, victims: set<string>, s': Store)
    requires Enabled(w, e) && (e.Cache? || e.Replace? || e.DeleteIf? || e.Delete?) && (e.Replace? ==> e.snapshot.loaded)
    ensures e.Cache? ==>
              (Succeeds(cache.normalize, w, e) <==> e.key != "" && Normalized(cache.normalize, e.items).Some?)
    ensures e.Replace? ==> (Succeeds(cache.normalize, w, e) <==> cache.Replaces(w.store, e.key, e.snapshot, e.items))
    ensures e.DeleteIf? ==> (Succeeds(cache.normalize, w, e) <==> e.key != "" && Matches(w.store, e.key, e.snapshot))
    ensures Succeeds(cache.normalize, w, e) ==>
              var items := if e.Cache? || e.Replace? then Normalized(cache.normalize, e.items).value else [];
              var branch := if e.Replace? then ReplaceBranch(w.store, e.key, e.snapshot, items) else 0;
              var deleted := e.DeleteIf? || e.Delete?;
              PutVictims(w.store, e.key, e.now, items, branch, deleted, victims)
              && s' == Put(w.store, e.key, e.now, items, branch, deleted, victims) ==>
                exists w' :: Next(cache.normalize, w, e, victims, w') && w'.store == s' && w'.issued == w.issued
  {
    hide Normalized, Victims;
    if Succeeds(cache.normalize, w, e) {
      var w' := Evict(BeforeEviction(cache.normalize, w, e), victims);
      assert w'.issued == w.issued;
    }
  }

  lemma ReadIsStep(normalize: Bytes -> Option<Bytes>, w: World, key: string, now: int, victims: set<string>)
    requires key != "" && ReadVictims(w.store, key, now, victims)
    ensures key in Read(w.store, key, now, victims).entries
    ensures exists w' ::
              && Next(normalize, w, Get(key, now), victims, w') && w'.store == Read(w.store, key, now, victims)
              && w'.issued == w.issued + {(key, SnapshotOf(Read(w.store, key, now, victims), key))}
  {
    GetWorldReads(w, key, now, victims);
    var w' := Issue(GetWorld(w, key, now, victims), key);
    assert w'.store == Read(w.store, key, now, victims);
  }

  // ---------------------------------------------------------------- what a reader can count on

  predicate Touches(e: Event, key: string) {
    !e.Clear? && !e.Purge? && e.key == key
  }

  /** Other keys' events leave an entry as it is, as long as they leave it. */
  lemma OthersKeepEntry(normalize: Bytes -> Option<Bytes>, w: World, e: Event, victims: set<string>,
      w': World, key: string)
    requires Next(normalize, w, e, victims, w') && !Touches(e, key) && key in w'.store.entries
    ensures key in w.store.entries && w'.store.entries[key] == w.store.entries[key]
  {
    hide Normalized, Victims, ReadVictims;
    if e.Get? {
      GetWorldReads(w, e.key, e.now, victims);
    }
  }

  lemma {:induction false} EntryStays(normalize: Bytes -> Option<Bytes>, worlds: seq<World>,
      events: seq<(Event, set<string>)>, i: nat, j: nat, key: string)
    requires IsRun(normalize, worlds, events) && i <= j < |worlds|
    requires forall m | i <= m < j :: !Touches(events[m].0, key)
    requires forall m | i <= m <= j :: key in worlds[m].store.entries
    ensures worlds[j].store.entries[key] == worlds[i].store.entries[key]
    decreases j
  {
    hide Next;
    if i < j {
      EntryStays(normalize, worlds, events, i, j - 1, key);
      OthersKeepEntry(normalize, worlds[j - 1], events[j - 1].0, events[j - 1].1, worlds[j], key);
    }
  }

  /**
   * What was stored is read back: a read within the hour returns the stored items, as long as no other call
   * touched the key and no eviction or clear took it.
   */
  lemma CachedIsRead(normalize: Bytes -> Option<Bytes>, worlds: seq<World>,
      events: seq<(Event, set<string>)>, i: nat, j: nat)
    requires IsRun(normalize, worlds, events) && i < j < |events|
    requires events[i].0.Cache? && events[i].0.key != "" && Normalized(normalize, events[i].0.items).Some?
    requires events[j].0.Get? && events[j].0.key == events[i].0.key
    requires events[j].0.now - events[i].0.now <= 3_600_000_000_000
    requires forall m | i < m < j :: !Touches(events[m].0, events[i].0.key)
    requires forall m | i < m <= j :: events[i].0.key in worlds[m].store.entries
    ensures exists snapshot ::
              && (events[i].0.key, snapshot) in worlds[j + 1].issued && snapshot.found
              && snapshot.items == Normalized(normalize, events[i].0.items).value
              && snapshot.revision == worlds[i].store.revision + 1
  {
    hide Normalized, Next, StoredAs;
    var key, now := events[i].0.key, events[i].0.now;
    CacheIs(normalize, worlds[i], key, now, events[i].0.items, events[i].1, worlds[i + 1]);
    EntryStays(normalize, worlds, events, i + 1, j, key);
    GetIs(normalize, worlds[j], key, events[j].0.now, events[j].1, worlds[j + 1]);
    StoredEntry(worlds[i].store, worlds[i + 1].store, events[i].1, key,
                Entry(Normalized(normalize, events[i].0.items).value, now, worlds[i].store.revision + 1,
                      worlds[i].store.branches + 1, false));
    var e := worlds[j + 1].store.entries[key];
    var snapshot := Snapshot(e.items, true, true, e.revision, e.branch, worlds[j + 1].store.epoch);
    assert (key, snapshot) in worlds[j + 1].issued;
  }

  lemma StoredEntry(s: Store, s': Store, victims: set<string>, key: string, e: Entry)
    requires StoredAs(s, s', victims, key, e) && key in s'.entries
    ensures s'.entries[key] == e
  {
    hide OldestGo;
  }
}
