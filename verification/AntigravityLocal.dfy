/** The in-process replay cache of internal/cache/antigravity_reasoning_replay_cache.go. */
module AntigravityLocal {
  import opened ByteStrings
  import opened EvictionOrder
  import opened ReplayItems

  type Items = seq<Bytes>

  /** Nanoseconds. */
  const TTL: int := 3_600_000_000_000
  const MAX_ENTRIES: nat := 10240
  const EVICT_BATCH: nat := 128
  const MAX_ITEMS: nat := 4096
  const MAX_BYTES: nat := 0x100_0000

  /** Branch ids are drawn from a supply; 0 stands for the empty string. */
  const NO_BRANCH: nat := 0

  datatype Entry = Entry(items: Items, timestamp: int, revision: nat, branch: nat, deleted: bool)

  datatype Snapshot = Snapshot(items: Items, loaded: bool, found: bool, revision: nat, branch: nat, evictionEpoch: nat)

  /** What the mutex guards: entries, last revision, eviction epoch, and how many branch ids were drawn. */
  datatype Store = Store(entries: map<string, Entry>, revision: nat, epoch: nat, branches: nat)

  // ---------------------------------------------------------------- items

  function TotalBytes(items: Items): nat {
    if items == [] then 0 else TotalBytes(items[..|items| - 1]) + |items[|items| - 1]|
  }

  /** normalizeAntigravityReasoningReplayItems, over any normalizer of single items. */
  function Normalized(normalize: Bytes -> Option<Bytes>, items: Items): Option<Items> {
    var kept := Kept(normalize, items);
    if |items| > MAX_ITEMS || TotalBytes(kept) > MAX_BYTES || kept == [] then None else Some(kept)
  }

  lemma {:induction false} KeptGrows(normalize: Bytes -> Option<Bytes>, items: Items, i: nat)
    requires i <= |items|
    ensures TotalBytes(Kept(normalize, items[..i])) <= TotalBytes(Kept(normalize, items))
    ensures |Kept(normalize, items)| <= |items|
    decreases |items|
  {
    if items == [] || i == |items| {
      assert items[..i] == items;
      if items != [] {
        KeptGrows(normalize, items[..|items| - 1], 0);
      }
    } else {
      assert items[..|items| - 1][..i] == items[..i];
      KeptGrows(normalize, items[..|items| - 1], i);
    }
  }

  method NormalizeItems(normalize: Bytes -> Option<Bytes>, items: Items) returns (r: Option<Items>)
    ensures r == Normalized(normalize, items)
    ensures r.Some? ==> 0 < |r.value| <= MAX_ITEMS && TotalBytes(r.value) <= MAX_BYTES
  {
    KeptGrows(normalize, items, 0);
    if |items| > MAX_ITEMS {
      return None;
    }
    var normalized: Items := [];
    var totalBytes := 0;
    for i := 0 to |items|
      invariant normalized == Kept(normalize, items[..i]) && totalBytes == TotalBytes(normalized) <= MAX_BYTES
    {
      assert items[..i + 1][..i] == items[..i];
      var item := normalize(items[i]);
      if item.Some? {
        totalBytes := totalBytes + |item.value|;
        assert (normalized + [item.value])[..|normalized|] == normalized;
        if totalBytes > MAX_BYTES {
          KeptGrows(normalize, items, i + 1);
          return None;
        }
        normalized := normalized + [item.value];
      }
    }
    assert items[..|items|] == items;
    return if normalized == [] then None else Some(normalized);
  }

  /** antigravityReasoningReplayItemsPrefix. */
  method ItemsPrefix(prefix: Items, items: Items) returns (r: bool)
    ensures r <==> prefix <= items
  {
    if |prefix| > |items| {
      return false;
    }
    for index := 0 to |prefix|
      invariant prefix[..index] == items[..index]
    {
      if prefix[index] != items[index] {
        return false;
      }
    }
    return true;
  }

  // ---------------------------------------------------------------- one critical section each

  function Ages(entries: map<string, Entry>): map<string, int> {
    map k | k in entries :: entries[k].timestamp
  }

  /** evictOldestAntigravityReasoningReplayEntries(batch), when it is called. */
  ghost predicate Victims(entries: map<string, Entry>, full: bool, victims: set<string>) {
    if full then AreOldest(Ages(entries), victims, EVICT_BATCH) else victims == {}
  }

  function Without(s: Store, keys: set<string>): Store {
    s.(entries := s.entries - keys, epoch := s.epoch + |keys|)
  }

  /** Store an entry under the next revision, on a given branch or on a fresh one. */
  function Written(s: Store, key: string, now: int, items: Items, branch: nat, deleted: bool): Store {
    var b := if branch == NO_BRANCH then s.branches + 1 else branch;
    Store(s.entries[key := Entry(items, now, s.revision + 1, b, deleted)], s.revision + 1, s.epoch,
          if branch == NO_BRANCH then s.branches + 1 else s.branches)
  }

  predicate Overfull(s: Store) {
    |s.entries| > MAX_ENTRIES
  }

  /** Store an entry, then evict if the cache has grown past its bound. */
  function Put(s: Store, key: string, now: int, items: Items, branch: nat, deleted: bool, victims: set<string>): Store {
    Without(Written(s, key, now, items, branch, deleted), victims)
  }

  ghost predicate PutVictims(s: Store, key: string, now: int, items: Items, branch: nat, deleted: bool,
      victims: set<string>) {
    var w := Written(s, key, now, items, branch, deleted);
    Victims(w.entries, Overfull(w), victims)
  }

  function SnapshotOf(s: Store, key: string): Snapshot
    requires key in s.entries
  {
    var e := s.entries[key];
    Snapshot(if e.deleted then [] else e.items, true, true, e.revision, e.branch, s.epoch)
  }

  /** The snapshot of a request that read nothing. */
  const UNLOADED := Snapshot([], false, false, 0, NO_BRANCH, 0)

  predicate Expired(s: Store, key: string, now: int) {
    key in s.entries && now - s.entries[key].timestamp > TTL
  }

  /** The store in which a miss is reserved: without the expired entry, and below the bound. */
  function Dropped(s: Store, key: string, now: int): Store {
    if Expired(s, key, now) then Without(s, {key}) else s
  }

  /** A read: refresh a live entry, or fence a miss with a tombstone. */
  function Read(s: Store, key: string, now: int, victims: set<string>): Store {
    if key in s.entries && !Expired(s, key, now) then s.(entries := s.entries[key := s.entries[key].(timestamp := now)])
    else Written(Without(Dropped(s, key, now), victims), key, now, [], NO_BRANCH, true)
  }

  ghost predicate ReadVictims(s: Store, key: string, now: int, victims: set<string>) {
    if key in s.entries && !Expired(s, key, now) then victims == {}
    else
      var d := Dropped(s, key, now);
      Victims(d.entries, |d.entries| >= MAX_ENTRIES, victims)
  }

  predicate Matches(s: Store, key: string, snapshot: Snapshot) {
    var found := key in s.entries;
    found == snapshot.found
    && ((found && s.entries[key].revision == snapshot.revision) || (!found && snapshot.evictionEpoch == s.epoch))
  }

  predicate Descends(s: Store, key: string, snapshot: Snapshot, items: Items) {
    && key in s.entries && !s.entries[key].deleted && snapshot.branch != NO_BRANCH
    && s.entries[key].branch == snapshot.branch && s.entries[key].items <= items
  }

  /** The check of a conditional replace, under the lock. */
  predicate Admits(s: Store, key: string, snapshot: Snapshot, items: Items) {
    Matches(s, key, snapshot) || Descends(s, key, snapshot, items)
  }

  /** The branch a replace writes on; NO_BRANCH draws a fresh one. */
  function ReplaceBranch(s: Store, key: string, snapshot: Snapshot, items: Items): nat {
    if Matches(s, key, snapshot) && !(snapshot.items <= items) then NO_BRANCH else snapshot.branch
  }

  function Purged(s: Store, now: int): set<string> {
    set k | k in s.entries && now - s.entries[k].timestamp > TTL
  }

  class ReplayCache {
    const normalize: Bytes -> Option<Bytes>
    var entries: map<string, Entry>
    var nextRevision: nat
    var evictionEpoch: nat
    var branches: nat

    ghost function View(): Store
      reads this
    {
      Store(entries, nextRevision, evictionEpoch, branches)
    }

    constructor (normalize: Bytes -> Option<Bytes>)
      ensures this.normalize == normalize && View() == Store(map[], 0, 0, 0)
    {
      this.normalize := normalize;
      entries, nextRevision, evictionEpoch, branches := map[], 0, 0, 0;
    }

    method NewGeneration() returns (branch: nat)
      modifies this`branches
      ensures branch == branches == old(branches) + 1
    {
      branches := branches + 1;
      return branches;
    }

    method EvictOldest(count: nat) returns (victims: set<string>)
      modifies this`entries, this`evictionEpoch
      ensures AreOldest(Ages(old(entries)), victims, count)
      ensures View() == Without(old(View()), victims)
    {
      victims := OldestKeys(Ages(entries), count);
      entries := entries - victims;
      evictionEpoch := evictionEpoch + |victims|;
    }

    method Set(key: string, now: int, items: Items, branch: nat, deleted: bool) returns (ghost victims: set<string>)
      requires branch != NO_BRANCH
      modifies this
      ensures PutVictims(old(View()), key, now, items, branch, deleted, victims)
      ensures View() == Put(old(View()), key, now, items, branch, deleted, victims)
    {
      hide AreOldest, Ages;
      nextRevision := nextRevision + 1;
      entries := entries[key := Entry(items, now, nextRevision, branch, deleted)];
      assert View() == Written(old(View()), key, now, items, branch, deleted);
      victims := {};
      assert entries - victims == entries;
      if |entries| > MAX_ENTRIES {
        victims := EvictOldest(EVICT_BATCH);
      }
    }

    /** CacheAntigravityReasoningReplayItemsBestEffort. */
    method Cache(key: string, now: int, items: Items) returns (ok: bool, ghost victims: set<string>)
      modifies this
      ensures ok <==> key != "" && Normalized(normalize, items).Some?
      ensures !ok ==> View() == old(View())
      ensures ok ==> PutVictims(old(View()), key, now, Normalized(normalize, items).value, NO_BRANCH, false, victims)
      ensures ok ==> View() == Put(old(View()), key, now, Normalized(normalize, items).value, NO_BRANCH, false, victims)
    {
      hide AreOldest, Ages, Normalized;
      victims := {};
      var normalized := NormalizeItems(normalize, items);
      if key == "" || normalized.None? {
        return false, {};
      }
      var branch := NewGeneration();
      victims := Set(key, now, normalized.value, branch, false);
      return true, victims;
    }

    /** reserveAntigravityReasoningReplayAbsentLocked. */
    method ReserveAbsent(key: string, now: int) returns (snapshot: Snapshot, ghost victims: set<string>)
      modifies this
      ensures Victims(old(entries), |old(entries)| >= MAX_ENTRIES, victims)
      ensures View() == Written(Without(old(View()), victims), key, now, [], NO_BRANCH, true)
      ensures snapshot == SnapshotOf(View(), key)
    {
      hide AreOldest, Ages;
      victims := {};
      assert entries - victims == entries;
      if |entries| >= MAX_ENTRIES {
        victims := EvictOldest(EVICT_BATCH);
      }
      nextRevision := nextRevision + 1;
      var branch := NewGeneration();
      entries := entries[key := Entry([], now, nextRevision, branch, true)];
      snapshot := Snapshot([], true, true, nextRevision, branch, evictionEpoch);
    }

    /** GetAntigravityReasoningReplayItemsWithSnapshotRequired; an empty key reads nothing. */
    method Get(key: string, now: int) returns (items: Items, snapshot: Snapshot, found: bool,
        ghost victims: set<string>)
      modifies this
      ensures key == "" ==> View() == old(View()) && items == [] && snapshot == UNLOADED && !found
      ensures key != "" ==> ReadVictims(old(View()), key, now, victims)
      ensures key != "" ==> View() == Read(old(View()), key, now, victims)
      ensures key != "" ==> key in entries && snapshot == SnapshotOf(View(), key) && items == snapshot.items
      ensures key != "" ==> (found <==> !entries[key].deleted && entries[key].items != [])
    {
      if key == "" {
        return [], UNLOADED, false, {};
      }
      if key !in entries {
        snapshot, victims := ReserveAbsent(key, now);
        return [], snapshot, false, victims;
      }
      var entry := entries[key];
      if now - entry.timestamp > TTL {
        evictionEpoch := evictionEpoch + 1;
        entries := entries - {key};
        snapshot, victims := ReserveAbsent(key, now);
        return [], snapshot, false, victims;
      }
      entry := entry.(timestamp := now);
      entries := entries[key := entry];
      if entry.deleted || entry.items == [] {
        return [], Snapshot([], true, true, entry.revision, entry.branch, evictionEpoch), false, {};
      }
      return entry.items, Snapshot(entry.items, true, true, entry.revision, entry.branch, evictionEpoch), true, {};
    }

    /** When a replace writes; without a loaded snapshot it is a plain store of the normalized items. */
    ghost predicate Replaces(s: Store, key: string, snapshot: Snapshot, items: Items) {
      && key != ""
      && Normalized(normalize, items).Some?
      && var normalized := Normalized(normalize, items).value;
         if snapshot.loaded then Admits(s, key, snapshot, normalized) else Normalized(normalize, normalized).Some?
    }

    /** ReplaceAntigravityReasoningReplayItemsIfUnchanged. */
    method ReplaceIfUnchanged(key: string, now: int, snapshot: Snapshot, items: Items)
      returns (ok: bool, ghost victims: set<string>)
      modifies this
      ensures ok <==> Replaces(old(View()), key, snapshot, items)
      ensures !ok ==> View() == old(View())
      ensures ok && !snapshot.loaded ==>
        var normalized := Normalized(normalize, Normalized(normalize, items).value).value;
        && PutVictims(old(View()), key, now, normalized, NO_BRANCH, false, victims)
        && View() == Put(old(View()), key, now, normalized, NO_BRANCH, false, victims)
      ensures ok && snapshot.loaded ==>
        var normalized := Normalized(normalize, items).value;
        var branch := ReplaceBranch(old(View()), key, snapshot, normalized);
        && PutVictims(old(View()), key, now, normalized, branch, false, victims)
        && View() == Put(old(View()), key, now, normalized, branch, false, victims)
    {
      hide AreOldest, Ages, Normalized;
      victims := {};
      var normal := NormalizeItems(normalize, items);
      if key == "" || normal.None? {
        return false, {};
      }
      var normalized := normal.value;
      if !snapshot.loaded {
        ok, victims := Cache(key, now, normalized);
        return;
      }
      var found := key in entries;
      var matchesSnapshot := found == snapshot.found
        && ((found && entries[key].revision == snapshot.revision)
            || (!found && snapshot.evictionEpoch == evictionEpoch));
      var grows := false;
      if found {
        grows := ItemsPrefix(entries[key].items, normalized);
      }
      var isDescendant := found && !entries[key].deleted && snapshot.branch != NO_BRANCH
        && entries[key].branch == snapshot.branch && grows;
      if !matchesSnapshot && !isDescendant {
        return false, {};
      }
      var branch := snapshot.branch;
      var continues := ItemsPrefix(snapshot.items, normalized);
      if branch == NO_BRANCH || (matchesSnapshot && !continues) {
        branch := NewGeneration();
      }
      victims := Set(key, now, normalized, branch, false);
      return true, victims;
    }

    /** DeleteAntigravityReasoningReplayItemsIfUnchanged; without a loaded snapshot it deletes unconditionally. */
    method DeleteIfUnchanged(key: string, now: int, snapshot: Snapshot) returns (ok: bool, ghost victims: set<string>)
      modifies this
      ensures ok <==> key != "" && (snapshot.loaded ==> Matches(old(View()), key, snapshot))
      ensures !ok ==> View() == old(View())
      ensures ok ==> PutVictims(old(View()), key, now, [], NO_BRANCH, true, victims)
      ensures ok ==> View() == Put(old(View()), key, now, [], NO_BRANCH, true, victims)
    {
      hide AreOldest, Ages;
      victims := {};
      if key == "" {
        return false, {};
      }
      if !snapshot.loaded {
        victims := Delete(key, now);
        return true, victims;
      }
      var found := key in entries;
      if found != snapshot.found || (found && entries[key].revision != snapshot.revision)
         || (!found && snapshot.evictionEpoch != evictionEpoch) {
        return false, {};
      }
      var branch := NewGeneration();
      victims := Set(key, now, [], branch, true);
      return true, victims;
    }

    /** DeleteAntigravityReasoningReplayItemRequired. */
    method Delete(key: string, now: int) returns (ghost victims: set<string>)
      modifies this
      ensures key == "" ==> View() == old(View())
      ensures key != "" ==> PutVictims(old(View()), key, now, [], NO_BRANCH, true, victims)
      ensures key != "" ==> View() == Put(old(View()), key, now, [], NO_BRANCH, true, victims)
    {
      hide AreOldest, Ages;
      victims := {};
      if key == "" {
        return;
      }
      var branch := NewGeneration();
      victims := Set(key, now, [], branch, true);
    }

    /** ClearAntigravityReasoningReplayCache. */
    method Clear()
      modifies this`entries, this`evictionEpoch
      ensures View() == old(View()).(entries := map[], epoch := old(evictionEpoch) + 1)
    {
      entries := map[];
      evictionEpoch := evictionEpoch + 1;
    }

    /** purgeExpiredAntigravityReasoningReplayCache. */
    method PurgeExpired(now: int)
      modifies this`entries, this`evictionEpoch
      ensures View() == Without(old(View()), Purged(old(View()), now))
    {
      ghost var before := View();
      var pending := entries.Keys;
      ghost var gone: set<string> := {};
      while pending != {}
        invariant pending <= before.entries.Keys && gone <= before.entries.Keys && gone !! pending
        invariant entries.Keys == before.entries.Keys - gone
        invariant forall k | k in entries :: entries[k] == before.entries[k]
        invariant forall k | k in before.entries.Keys - pending ::
                    k in gone <==> now - before.entries[k].timestamp > TTL
        invariant evictionEpoch == before.epoch + |gone| && nextRevision == before.revision
        invariant branches == before.branches
        decreases pending
      {
        var key :| key in pending;
        if now - entries[key].timestamp > TTL {
          evictionEpoch := evictionEpoch + 1;
          entries := entries - {key};
          gone := gone + {key};
        }
        pending := pending - {key};
      }
      assert gone == Purged(before, now);
      assert entries == before.entries - gone;
    }
  }
}
