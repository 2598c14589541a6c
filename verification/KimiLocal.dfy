/** The in-process store of internal/cache/kimi_thinking_replay_cache.go, with its byte accounting. */
module KimiLocal {
  import opened ByteStrings
  import opened EvictionOrder

  const TTL: int := 3_600_000_000_000
  const MAX_ENTRIES: nat := 10240
  const EVICT_BATCH: nat := 128
  const MAX_ENTRY_BYTES: nat := 0x80_0000
  const MAX_TOTAL_BYTES: nat := 0x1000_0000

  /** Generations are drawn from a supply, as uuids are: no two are equal. */
  datatype Entry = Entry(content: Bytes, timestamp: int, generation: nat, deleted: bool)

  datatype Snapshot = Snapshot(generation: nat, loaded: bool, found: bool)

  type Entries = map<string, Entry>

  /** The sum of the stored content lengths. */
  ghost function Total(entries: Entries): nat
    decreases |entries|
  {
    if entries == map[] then 0
    else
      var k :| k in entries;
      Smaller(entries, {k});
      |entries[k].content| + Total(entries - {k})
  }

  lemma Smaller(entries: Entries, keys: set<string>)
    requires keys <= entries.Keys
    ensures |entries - keys| == |entries| - |keys|
  {
    assert (entries - keys).Keys == entries.Keys - keys;
  }

  lemma {:induction false} TotalWithout(entries: Entries, k: string)
    requires k in entries
    ensures Total(entries) == |entries[k].content| + Total(entries - {k})
    decreases |entries|
  {
    var first :| first in entries && Total(entries) == |entries[first].content| + Total(entries - {first});
    if first != k {
      Smaller(entries, {first});
      Smaller(entries, {k});
      TotalWithout(entries - {first}, k);
      TotalWithout(entries - {k}, first);
      assert entries - {first} - {k} == entries - {k} - {first};
    }
  }

  lemma TotalWith(entries: Entries, k: string, e: Entry)
    ensures Total(entries[k := e]) == |e.content| + Total(entries - {k})
  {
    TotalWithout(entries[k := e], k);
    assert entries[k := e] - {k} == entries - {k};
  }

  lemma MinusAbsent(entries: Entries, k: string)
    requires k !in entries
    ensures entries - {k} == entries
  {
  }

  lemma PutTotal(entries: Entries, k: string, e: Entry)
    ensures Total(entries[k := e]) == Total(entries) + |e.content| - if k in entries then |entries[k].content| else 0
  {
    hide Total;
    TotalWith(entries, k, e);
    if k in entries {
      TotalWithout(entries, k);
    } else {
      MinusAbsent(entries, k);
    }
  }

  lemma TotalOfNothing()
    ensures Total(map[]) == 0
  {
  }

  function Ages(entries: Entries): map<string, int> {
    map k | k in entries :: entries[k].timestamp
  }

  ghost predicate Within(entries: Entries) {
    |entries| <= MAX_ENTRIES && Total(entries) <= MAX_TOTAL_BYTES
  }

  /** The oldest entries are gone, so many whole batches of them, or all entries. */
  ghost predicate Batches(entries: Entries, victims: set<string>, rounds: nat) {
    AreOldest(Ages(entries), victims, rounds * EVICT_BATCH)
  }

  /** So many batches go, and the one before the last left the limits exceeded. */
  ghost predicate EnforcedIn(entries: Entries, victims: set<string>, rounds: nat) {
    && Batches(entries, victims, rounds)
    && Within(entries - victims)
    && (rounds > 0 ==> exists earlier ::
          earlier <= victims && Batches(entries, earlier, rounds - 1) && !Within(entries - earlier))
  }

  /**
   * What enforcing the limits removes: the oldest entries, in whole batches or all of them, and no batch
   * after the limits are met.
   */
  ghost predicate Enforced(entries: Entries, victims: set<string>) {
    exists rounds: nat :: EnforcedIn(entries, victims, rounds)
  }

  predicate Current(entries: Entries, key: string, snapshot: Snapshot) {
    (key in entries) == snapshot.found && (key in entries ==> entries[key].generation == snapshot.generation)
  }

  /** A conditional delete adds a tombstone for an absent key to a store that is full. */
  predicate PassesLimit(entries: Entries, key: string, snapshot: Snapshot) {
    key != "" && snapshot.loaded && !snapshot.found && key !in entries && |entries| == MAX_ENTRIES
  }

  predicate Live(entries: Entries, key: string, now: int) {
    key in entries && now - entries[key].timestamp <= TTL
  }

  lemma OldestInTwoRounds(entries: Entries, first: set<string>, second: set<string>)
    requires AreOldest(Ages(entries), first, |first|) && AreOldest(Ages(entries - first), second, |second|)
    ensures AreOldest(Ages(entries), first + second, |first + second|)
    ensures |first + second| == |first| + |second|
  {
    assert Ages(entries).Keys == entries.Keys && Ages(entries - first).Keys == entries.Keys - first;
    assert first !! second;
    SubsetSize(first + second, Ages(entries).Keys);
    forall v, k | v in first + second && k in Ages(entries).Keys - (first + second)
      ensures Ages(entries)[v] <= Ages(entries)[k]
    {
      if v in second {
        assert k in Ages(entries - first).Keys - second;
        assert Ages(entries - first)[v] <= Ages(entries - first)[k];
      }
    }
  }

  class ReplayCache {
    /** The JSON test of a content array. */
    const wellFormed: Bytes -> bool
    var entries: Entries
    var totalBytes: int
    var generations: nat

    ghost predicate Counted()
      reads this
    {
      totalBytes == Total(entries)
    }

    /** What every operation starts from and keeps. */
    ghost predicate Sound()
      reads this
    {
      Counted() && forall k | k in entries :: entries[k].generation <= generations
    }

    /** Sound and within the limits, which a conditional delete may pass. */
    ghost predicate Valid()
      reads this
    {
      Sound() && Within(entries)
    }

    constructor (wellFormed: Bytes -> bool)
      ensures this.wellFormed == wellFormed && entries == map[] && Valid()
    {
      this.wellFormed := wellFormed;
      entries, totalBytes, generations := map[], 0, 0;
      TotalOfNothing();
    }

    predicate ValidContent(content: Bytes) {
      0 < |content| <= MAX_ENTRY_BYTES && wellFormed(content)
    }

    method NewGeneration() returns (generation: nat)
      modifies this`generations
      ensures generation == generations == old(generations) + 1
    {
      generations := generations + 1;
      return generations;
    }

    /** evictOldestKimiThinkingReplayEntriesLocked. */
    method EvictOldest(count: nat) returns (victims: set<string>)
      requires Counted()
      modifies this`entries, this`totalBytes
      ensures Counted() && AreOldest(Ages(old(entries)), victims, count) && entries == old(entries) - victims
    {
      hide AreOldest, Total;
      ghost var before := entries;
      var oldest := OldestKeys(Ages(entries), count);
      assert oldest <= entries.Keys by { OldestAreKeys(entries, oldest, count); }
      victims := oldest;
      var pending := oldest;
      assert before - {} == before;
      while pending != {}
        invariant Counted() && pending <= oldest && entries == before - (oldest - pending)
        decreases pending
      {
        var key :| key in pending;
        assert key in entries;
        TotalWithout(entries, key);
        totalBytes := totalBytes - |entries[key].content|;
        entries := entries - {key};
        pending := pending - {key};
        assert entries == before - (oldest - pending);
      }
      assert oldest - {} == oldest;
    }

    /** enforceKimiThinkingReplayLimitsLocked: the loop ends, and never meets an empty map. */
    method EnforceLimits() returns (ghost victims: set<string>)
      requires Counted()
      modifies this`entries, this`totalBytes
      ensures Counted() && entries == old(entries) - victims && Enforced(old(entries), victims)
    {
      hide AreOldest, Total, Enforced, Evicting;
      ghost var before, rounds := entries, 0;
      victims := {};
      BeginEvicting(before);
      while |entries| > MAX_ENTRIES || totalBytes > MAX_TOTAL_BYTES
        invariant Counted() && entries == before - victims && Evicting(before, victims, rounds)
        decreases |entries|
      {
        NeverEmpty(entries);
        assert |entries| > 0;
        ghost var s := entries;
        var more := EvictOldest(EVICT_BATCH);
        EvictMore(before, victims, rounds, s, more);
        victims, rounds := victims + more, rounds + 1;
      }
      EndEvicting(before, victims, rounds);
    }

    /** storeKimiThinkingReplayLocal. */
    method Store(key: string, content: Bytes, generation: nat, deleted: bool, now: int)
      returns (ghost victims: set<string>)
      requires Sound() && generation <= generations
      modifies this`entries, this`totalBytes
      ensures Valid()
      ensures var put := old(entries)[key := Entry(content, now, generation, deleted)];
              Enforced(put, victims) && entries == put - victims
    {
      hide Total, Enforced, Within, AreOldest;
      var put := entries[key := Entry(content, now, generation, deleted)];
      PutTotal(entries, key, Entry(content, now, generation, deleted));
      if key in entries {
        totalBytes := totalBytes - |entries[key].content|;
      }
      totalBytes := totalBytes + |content|;
      entries := put;
      victims := EnforceLimits();
      EnforcedIsWithin(put, victims);
      assert forall k | k in put :: put[k].generation <= generations;
    }

    /** CacheKimiThinkingReplayBestEffort. */
    method Cache(key: string, content: Bytes, now: int) returns (ok: bool, ghost victims: set<string>)
      requires Sound()
      modifies this
      ensures Sound() && (ok ==> Valid()) && (ok <==> key != "" && ValidContent(content))
      ensures !ok ==> entries == old(entries)
      ensures ok ==> var put := old(entries)[key := Entry(content, now, generations, false)];
                     generations > old(generations) && Enforced(put, victims) && entries == put - victims
    {
      victims := {};
      if key == "" || !ValidContent(content) {
        return false, {};
      }
      var generation := NewGeneration();
      victims := Store(key, content, generation, false, now);
      return true, victims;
    }

    /**
     * GetKimiThinkingReplayWithSnapshotRequired; an empty key reads nothing and reserves nothing. What a
     * reservation evicts is gone, except that the key itself is put back. Limits that were met stay met.
     */
    method Get(key: string, now: int)
      returns (content: Bytes, snapshot: Snapshot, found: bool, ghost victims: set<string>)
      requires Sound()
      modifies this
      ensures Sound() && (old(Within(entries)) ==> Valid())
      ensures key == "" ==> entries == old(entries) && snapshot == Snapshot(0, false, false) && !found
      ensures key != "" ==> key in entries && snapshot == Snapshot(entries[key].generation, true, true)
      ensures found <==> key != "" && Live(old(entries), key, now) && !old(entries)[key].deleted
      ensures found ==> content == old(entries)[key].content
      ensures key != "" && Live(old(entries), key, now) ==>
                entries == old(entries)[key := old(entries)[key].(timestamp := now)]
      ensures key != "" && !Live(old(entries), key, now) ==>
                var reserved := Entry([], now, generations, true);
                var put := (old(entries) - {key})[key := reserved];
                generations > old(generations) && Enforced(put, victims) && entries == (put - victims)[key := reserved]
    {
      hide Total, Enforced, Within;
      victims := {};
      if key == "" {
        return [], Snapshot(0, false, false), false, {};
      }
      var entry: Entry;
      if key !in entries || now - entries[key].timestamp > TTL {
        if key in entries {
          TakenOut(entries, key);
          totalBytes := totalBytes - |entries[key].content|;
          entries := entries - {key};
        } else {
          MinusAbsent(entries, key);
        }
        entry, victims := ReserveAbsent(key, now);
      } else {
        entry := entries[key];
      }
      PutBack(entries, key, entry.(timestamp := now));
      entry := entry.(timestamp := now);
      entries := entries[key := entry];
      snapshot := Snapshot(entry.generation, true, true);
      found := !entry.deleted;
      content := if entry.deleted then [] else entry.content;
    }

    /** reserveKimiThinkingReplayLocalLocked. */
    method ReserveAbsent(key: string, now: int) returns (entry: Entry, ghost victims: set<string>)
      requires Sound() && key !in entries
      modifies this
      ensures Valid() && generations > old(generations) && entry == Entry([], now, generations, true)
      ensures var put := old(entries)[key := entry];
              Enforced(put, victims) && entries == put - victims
      ensures old(Within(entries)) && key !in entries ==> |entries| < MAX_ENTRIES
    {
      hide Total, Enforced;
      var generation := NewGeneration();
      entry := Entry([], now, generation, true);
      TotalWith(entries, key, entry);
      MinusAbsent(entries, key);
      ghost var put := entries[key := entry];
      assert put.Keys == entries.Keys + {key};
      entries := entries[key := entry];
      victims := EnforceLimits();
      EnforcedIsWithin(put, victims);
      if key in victims && |put| <= MAX_ENTRIES + 1 {
        BatchLeavesRoom(put, victims);
      }
    }

    /** ReplaceKimiThinkingReplayIfUnchanged; without a loaded snapshot it stores unconditionally. */
    method ReplaceIfUnchanged(key: string, snapshot: Snapshot, content: Bytes, now: int)
      returns (ok: bool, ghost victims: set<string>)
      requires Sound()
      modifies this
      ensures Sound() && (ok ==> Valid())
      ensures ok <==> key != "" && ValidContent(content) && (snapshot.loaded ==> Current(old(entries), key, snapshot))
      ensures !ok ==> entries == old(entries)
      ensures ok ==> var put := old(entries)[key := Entry(content, now, generations, false)];
                     generations > old(generations) && Enforced(put, victims) && entries == put - victims
    {
      victims := {};
      if key == "" || !ValidContent(content) {
        return false, {};
      }
      if !snapshot.loaded {
        ok, victims := Cache(key, content, now);
        return;
      }
      var generation := NewGeneration();
      if (key in entries) != snapshot.found || (key in entries && entries[key].generation != snapshot.generation) {
        return false, {};
      }
      victims := Store(key, content, generation, false, now);
      return true, victims;
    }

    /**
     * DeleteKimiThinkingReplayIfUnchanged; without a loaded snapshot it deletes unconditionally. Its
     * tombstone is stored without enforcing the limits, which matters only for an absent key in a full store.
     */
    method DeleteIfUnchanged(key: string, snapshot: Snapshot, now: int) returns (ok: bool)
      requires Sound()
      modifies this
      ensures Sound()
      ensures old(Within(entries)) ==> (Within(entries) <==> !PassesLimit(old(entries), key, snapshot))
      ensures ok <==> key != "" && (snapshot.loaded ==> Current(old(entries), key, snapshot))
      ensures !ok ==> entries == old(entries)
      ensures ok && !snapshot.loaded ==> entries == old(entries) - {key}
      ensures ok && snapshot.loaded ==>
                generations > old(generations) && entries == old(entries)[key := Entry([], now, generations, true)]
    {
      hide Total;
      if key == "" {
        return false;
      }
      if !snapshot.loaded {
        Delete(key);
        return true;
      }
      var generation := NewGeneration();
      if (key in entries) != snapshot.found || (key in entries && entries[key].generation != snapshot.generation) {
        return false;
      }
      PutTotal(entries, key, Entry([], now, generation, true));
      if key in entries {
        totalBytes := totalBytes - |entries[key].content|;
      }
      assert entries[key := Entry([], now, generation, true)].Keys == entries.Keys + {key};
      entries := entries[key := Entry([], now, generation, true)];
      return true;
    }

    /** DeleteKimiThinkingReplayRequired. */
    method Delete(key: string)
      requires Sound()
      modifies this`entries, this`totalBytes
      ensures Sound() && (old(Within(entries)) ==> Valid()) && entries == old(entries) - {key}
    {
      if key in entries {
        TotalWithout(entries, key);
        Smaller(entries, {key});
        totalBytes := totalBytes - |entries[key].content|;
        entries := entries - {key};
      } else {
        assert entries - {key} == entries;
      }
    }

    /** ClearKimiThinkingReplayCache. */
    method Clear()
      modifies this`entries, this`totalBytes
      ensures Valid() && entries == map[]
    {
      entries, totalBytes := map[], 0;
      TotalOfNothing();
    }

    /** purgeExpiredKimiThinkingReplayCache. */
    method PurgeExpired(now: int)
      requires Sound()
      modifies this`entries, this`totalBytes
      ensures Sound() && (old(Within(entries)) ==> Valid())
      ensures entries == map k | k in old(entries) && now - old(entries)[k].timestamp <= TTL :: old(entries)[k]
    {
      ghost var before := entries;
      var pending := entries.Keys;
      while pending != {}
        invariant Sound() && pending <= entries.Keys <= before.Keys && (Within(before) ==> Within(entries))
        invariant forall k | k in entries :: entries[k] == before[k]
        invariant forall k | k in before && k !in pending :: k in entries <==> now - before[k].timestamp <= TTL
        decreases pending
      {
        var key :| key in pending;
        if now - entries[key].timestamp > TTL {
          TotalWithout(entries, key);
          Smaller(entries, {key});
          totalBytes := totalBytes - |entries[key].content|;
          entries := entries - {key};
        }
        pending := pending - {key};
      }
    }
  }

  lemma OldestAreKeys(entries: Entries, victims: set<string>, count: nat)
    requires AreOldest(Ages(entries), victims, count)
    ensures victims <= entries.Keys
  {
  }

  lemma OldestAreSome(entries: Entries, victims: set<string>)
    requires AreOldest(Ages(entries), victims, EVICT_BATCH)
    ensures victims <= entries.Keys && |victims| == Min(EVICT_BATCH, |entries|)
    ensures AreOldest(Ages(entries), victims, |victims|)
  {
    assert Ages(entries).Keys == entries.Keys;
    assert |Ages(entries)| == |entries|;
  }

  /** What the enforcement loop has removed after some rounds. */
  ghost predicate Evicting(before: Entries, victims: set<string>, rounds: nat) {
    && Batches(before, victims, rounds)
    && (rounds > 0 ==> exists earlier ::
          earlier <= victims && Batches(before, earlier, rounds - 1) && !Within(before - earlier))
  }

  lemma BeginEvicting(before: Entries)
    ensures Evicting(before, {}, 0) && before - {} == before
  {
    assert before - {} == before;
  }

  lemma NeverEmpty(entries: Entries)
    requires !Within(entries)
    ensures |entries| > 0
  {
    TotalOfNothing();
    assert |entries| == 0 ==> entries == map[];
  }

  lemma EvictMore(before: Entries, victims: set<string>, rounds: nat, s: Entries, more: set<string>)
    requires Evicting(before, victims, rounds) && s == before - victims && !Within(s)
    requires AreOldest(Ages(s), more, EVICT_BATCH)
    ensures Evicting(before, victims + more, rounds + 1) && before - (victims + more) == s - more && |s - more| < |s|
  {
    hide AreOldest, Total, Within, Ages;
    BatchOf(before, victims, rounds);
    OldestAreSome(s, more);
    OldestInTwoRounds(before, victims, more);
    NeverEmpty(s);
    Smaller(s, more);
    Smaller(before, victims);
    MinusTwice(before, victims, more);
    OldestOfSize(before, victims + more, (rounds + 1) * EVICT_BATCH);
    assert victims <= victims + more && Batches(before, victims, rounds) && !Within(before - victims);
  }

  lemma BatchOf(entries: Entries, victims: set<string>, rounds: nat)
    requires Batches(entries, victims, rounds)
    ensures victims <= entries.Keys && |victims| == Min(rounds * EVICT_BATCH, |entries|)
    ensures AreOldest(Ages(entries), victims, |victims|)
  {
    assert Ages(entries).Keys == entries.Keys;
    assert |Ages(entries)| == |entries|;
  }

  lemma OldestOfSize(entries: Entries, victims: set<string>, count: nat)
    requires AreOldest(Ages(entries), victims, |victims|) && |victims| == Min(count, |entries|)
    ensures AreOldest(Ages(entries), victims, count)
  {
    assert Ages(entries).Keys == entries.Keys;
    assert |Ages(entries)| == |entries|;
  }

  lemma MinusTwice(m: Entries, a: set<string>, b: set<string>)
    ensures m - (a + b) == m - a - b
    ensures m - {} == m
  {
    assert m - {} == m;
    assert (m - (a + b)).Keys == (m - a - b).Keys;
  }

  lemma EndEvicting(before: Entries, victims: set<string>, rounds: nat)
    requires Evicting(before, victims, rounds) && Within(before - victims)
    ensures Enforced(before, victims)
  {
    hide Batches, Within;
    assert EnforcedIn(before, victims, rounds);
  }

  lemma EnforcedIsWithin(put: Entries, victims: set<string>)
    requires Enforced(put, victims)
    ensures Within(put - victims)
  {
    hide Batches, Within;
  }

  lemma BatchLeavesRoom(put: Entries, victims: set<string>)
    requires Enforced(put, victims) && victims != {} && |put| <= MAX_ENTRIES + 1
    ensures |put - victims| < MAX_ENTRIES
  {
    hide Total, Within, Batches, AreOldest;
    var rounds: nat :| EnforcedIn(put, victims, rounds);
    BatchOf(put, victims, rounds);
    Smaller(put, victims);
    assert |victims| > 0;
  }

  lemma TakenOut(entries: Entries, key: string)
    requires key in entries
    ensures Total(entries) == |entries[key].content| + Total(entries - {key})
    ensures Within(entries) ==> Within(entries - {key})
  {
    hide Total;
    TotalWithout(entries, key);
    Smaller(entries, {key});
  }

  lemma PutBack(entries: Entries, key: string, e: Entry)
    requires if key in entries then |entries[key].content| == |e.content| else e.content == []
    ensures Total(entries[key := e]) == Total(entries)
    ensures Within(entries) && (key in entries || |entries| < MAX_ENTRIES) ==> Within(entries[key := e])
  {
    hide Total;
    TotalWith(entries, key, e);
    if key in entries {
      TotalWithout(entries, key);
      assert entries[key := e].Keys == entries.Keys;
    } else {
      assert entries - {key} == entries;
      assert entries[key := e].Keys == entries.Keys + {key};
    }
  }
}
