/** The in-process form of the codex replay cache: internal/cache/codex_reasoning_replay_cache.go. */
module CodexLocal {
  import opened ByteStrings
  import opened CodexTurns
  import opened EvictionOrder
  import opened ReplayItems

  const TTL: int := 3_600_000_000_000
  const MAX_ENTRIES: nat := 10240
  const EVICT_BATCH: nat := 128

  datatype Entry = Entry(items: Items, timestamp: int)

  /** normalizeCodexReasoningReplayItems, over any normalizer of single items. */
  function Normalized(normalize: Bytes -> Option<Item>, raw: seq<Bytes>): Items {
    Trim(Kept(normalize, raw))
  }

  function Ages(entries: map<string, Entry>): map<string, int> {
    map k | k in entries :: entries[k].timestamp
  }

  ghost predicate Victims(entries: map<string, Entry>, victims: set<string>) {
    if |entries| > MAX_ENTRIES then AreOldest(Ages(entries), victims, EVICT_BATCH) else victims == {}
  }

  /** The items an append builds on: those of a live entry. */
  function Live(entries: map<string, Entry>, key: string, now: int): Items {
    if key in entries && now - entries[key].timestamp <= TTL then entries[key].items else []
  }

  class ReplayCache {
    const normalize: Bytes -> Option<Item>
    var entries: map<string, Entry>

    constructor (normalize: Bytes -> Option<Item>)
      ensures this.normalize == normalize && entries == map[]
    {
      this.normalize, entries := normalize, map[];
    }

    method NormalizeItems(raw: seq<Bytes>) returns (items: Items)
      ensures items == Normalized(normalize, raw)
    {
      var normalized: Items := [];
      for i := 0 to |raw|
        invariant normalized == Kept(normalize, raw[..i])
      {
        assert raw[..i + 1][..i] == raw[..i];
        var item := normalize(raw[i]);
        if item.Some? {
          normalized := normalized + [item.value];
        }
      }
      assert raw[..|raw|] == raw;
      items := TrimItems(normalized);
    }

    method Store(key: string, entry: Entry) returns (ghost victims: set<string>)
      modifies this
      ensures Victims(old(entries)[key := entry], victims) && entries == old(entries)[key := entry] - victims
    {
      entries := entries[key := entry];
      victims := {};
      assert entries - {} == entries;
      if |entries| > MAX_ENTRIES {
        var oldest := OldestKeys(Ages(entries), EVICT_BATCH);
        entries := entries - oldest;
        victims := oldest;
      }
    }

    /** CacheCodexReasoningReplayItemsBestEffort. */
    method Cache(key: string, now: int, raw: seq<Bytes>) returns (ok: bool, ghost victims: set<string>)
      modifies this
      ensures ok <==> key != "" && Normalized(normalize, raw) != []
      ensures !ok ==> entries == old(entries)
      ensures ok ==> var put := old(entries)[key := Entry(Normalized(normalize, raw), now)];
                     Victims(put, victims) && entries == put - victims
    {
      victims := {};
      var normalized := NormalizeItems(raw);
      if key == "" || normalized == [] {
        return false, {};
      }
      victims := Store(key, Entry(normalized, now));
      return true, victims;
    }

    /** AppendCodexReasoningReplayItemsBestEffort. */
    method Append(key: string, now: int, raw: seq<Bytes>) returns (ok: bool, ghost victims: set<string>)
      modifies this
      ensures ok <==> key != "" && Normalized(normalize, raw) != []
      ensures !ok ==> entries == old(entries)
      ensures ok ==> var items := Appended(Live(old(entries), key, now), Normalized(normalize, raw));
                     var put := old(entries)[key := Entry(items, now)];
                     Victims(put, victims) && entries == put - victims
    {
      victims := {};
      var normalized := NormalizeItems(raw);
      if key == "" || normalized == [] {
        return false, {};
      }
      var items: Items := [];
      if key in entries && now - entries[key].timestamp <= TTL {
        items := entries[key].items;
      }
      items := AppendTurn(items, normalized);
      victims := Store(key, Entry(items, now));
      return true, victims;
    }

    /** GetCodexReasoningReplayItemsRequired. */
    method Get(key: string, now: int) returns (items: Items, found: bool)
      modifies this
      ensures found <==> key in old(entries) && now - old(entries)[key].timestamp <= TTL
      ensures items == Live(old(entries), key, now)
      ensures entries == if found then old(entries)[key := Entry(items, now)] else old(entries) - {key}
    {
      if key !in entries {
        assert entries - {key} == entries;
        return [], false;
      }
      if now - entries[key].timestamp > TTL {
        entries := entries - {key};
        return [], false;
      }
      entries := entries[key := entries[key].(timestamp := now)];
      return entries[key].items, true;
    }

    /** DeleteCodexReasoningReplayItemRequired. */
    method Delete(key: string)
      modifies this
      ensures entries == old(entries) - {key}
    {
      entries := entries - {key};
    }
  }

  /** Past 10240 entries, 128 or all of them go, none younger than an entry that stays. */
  lemma VictimsIff(entries: map<string, Entry>, victims: set<string>)
    ensures Victims(entries, victims) <==>
            if |entries| <= 10240 then victims == {}
            else
              && victims <= entries.Keys && |victims| == 128
              && forall v, k | v in victims && k in entries && k !in victims ::
                  entries[v].timestamp <= entries[k].timestamp
  {
    AgesOf(entries);
    var ages := Ages(entries);
    assert forall k | k in entries :: ages[k] == entries[k].timestamp;
    if AreOldest(ages, victims, 128) {
      forall v, k | v in victims && k in entries && k !in victims ensures entries[v].timestamp <= entries[k].timestamp {
        assert k in ages.Keys - victims;
        assert ages[v] <= ages[k];
      }
    }
  }

  /** An entry is live for an hour; what is normalized is the longest part that fits of what was kept. */
  lemma LiveIs(entries: map<string, Entry>, key: string, now: int)
    ensures Live(entries, key, now)
         == if key in entries && now - entries[key].timestamp <= 60 * 60 * 1_000_000_000 then entries[key].items else []
  {
  }

  lemma NormalizedIs(normalize: Bytes -> Option<Item>, raw: seq<Bytes>)
    ensures Fits(Normalized(normalize, raw))
    ensures NoneFits(Kept(normalize, raw)) ==> Normalized(normalize, raw) == []
    ensures !NoneFits(Kept(normalize, raw)) ==>
              exists k: nat ::
                LongestFit(Kept(normalize, raw), k) && Normalized(normalize, raw) == Kept(normalize, raw)[k..]
  {
    hide NoneFits, LongestFit, Fits, Trim, Kept;
    TrimIsLongestFit(Kept(normalize, raw));
  }

  lemma AgesOf(entries: map<string, Entry>)
    ensures Ages(entries).Keys == entries.Keys && |Ages(entries)| == |entries|
  {
    assert Ages(entries).Keys == entries.Keys;
  }

  /** The keys of strictly older entries. */
  function OlderThan(entries: map<string, Entry>, key: string): set<string>
    requires key in entries
  {
    set k | k in entries && entries[k].timestamp < entries[key].timestamp
  }

  /** An entry is safe from the eviction that its own store causes, whichever of equally old ones go. */
  predicate SafeInStore(entries: map<string, Entry>, key: string)
    requires key in entries
  {
    |entries| <= 10240 || |OlderThan(entries, key)| >= 128
  }

  /**
   * A store keeps its own key, however ties between ages fall, exactly when the cache is within its bound
   * or a whole batch of other entries is older than the new one.
   */
  lemma StoreKeepsItsKeyIff(before: map<string, Entry>, key: string, entry: Entry)
    ensures var put := before[key := entry];
            (forall victims | Victims(put, victims) :: key !in victims) <==> SafeInStore(put, key)
  {
    var put := before[key := entry];
    AgesOf(put);
    if |put| > MAX_ENTRIES {
      forall victims ensures Victims(put, victims) <==> AreOldest(Ages(put), victims, EVICT_BATCH) {
      }
      assert OlderThan(put, key) == Older(Ages(put), key);
      hide AreOldest, Victims;
      StaysIff(Ages(put), key, EVICT_BATCH);
    }
  }

  /**
   * A turn appended in process is stored whole and last, or its id was stored already, unless the same
   * call evicted the key; and a key that is safe in the store is not evicted.
   */
  lemma LocalAppendIsStored(before: map<string, Entry>, after: map<string, Entry>, key: string, now: int,
      turn: Items, victims: set<string>)
    requires IsTurn(turn)
    requires var put := before[key := Entry(Appended(Live(before, key, now), turn), now)];
             Victims(put, victims) && after == put - victims
    ensures SafeInStore(before[key := Entry(Appended(Live(before, key, now), turn), now)], key) ==> key in after
    ensures key in after ==>
              var kept := after[key].items;
              var existing := if key in before && now - before[key].timestamp <= 3_600_000_000_000
                              then before[key].items else [];
              if existing != [] && existing[0].turn
                 && exists i | 0 <= i < |existing| :: existing[i].turn && existing[i].id == turn[0].id
              then kept == Trim(existing)
              else |turn| <= |kept| && kept[|kept| - |turn|..] == turn
  {
    hide SafeInStore, Victims, Appended;
    AppendedIsPresent(Live(before, key, now), turn);
    StoreKeepsItsKeyIff(before, key, Entry(Appended(Live(before, key, now), turn), now));
  }
}
