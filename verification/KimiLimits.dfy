/** What enforcing the limits of the kimi store costs a new entry: internal/cache/kimi_thinking_replay_cache.go. */
module KimiLimits {
  import opened ByteStrings
  import opened EvictionOrder
  import opened KimiLocal

  /** How many entries go before the last batch, when all of n entries go. */
  function BeforeLastBatch(n: nat): nat
    requires n > 0
  {
    (n - 1) / EVICT_BATCH * EVICT_BATCH
  }

  /** The limits are still exceeded when all but the last batch of entries are gone, these being the first to go. */
  ghost predicate TooBigWithout(put: Entries, earlier: set<string>)
    requires put != map[]
  {
    AreOldest(Ages(put), earlier, BeforeLastBatch(|put|)) && Total(put - earlier) > MAX_TOTAL_BYTES
  }

  /** They are, whichever of the oldest go first. */
  ghost predicate AlwaysTooBig(put: Entries)
    requires put != map[]
  {
    forall earlier | AreOldest(Ages(put), earlier, BeforeLastBatch(|put|)) :: Total(put - earlier) > MAX_TOTAL_BYTES
  }

  ghost predicate DistinctAges(entries: Entries) {
    forall k, l | k in entries && l in entries && entries[k].timestamp == entries[l].timestamp :: k == l
  }

  // ---- choosing the oldest ------------------------------------------------------------------------------

  lemma NotYounger(entries: Entries, victims: set<string>, count: nat, v: string, k: string)
    requires AreOldest(Ages(entries), victims, count) && v in victims && k in entries && k !in victims
    ensures v in entries && entries[v].timestamp <= entries[k].timestamp
  {
    assert Ages(entries).Keys == entries.Keys;
    assert Ages(entries)[v] <= Ages(entries)[k];
  }

  /** With distinct ages there is one way to choose the oldest. */
  lemma OldestAreUnique(entries: Entries, a: set<string>, b: set<string>, count: nat)
    requires DistinctAges(entries) && AreOldest(Ages(entries), a, count) && AreOldest(Ages(entries), b, count)
    ensures a == b
  {
    AllAmong(entries, a, b, count);
    AllAmong(entries, b, a, count);
  }

  lemma AllAmong(entries: Entries, a: set<string>, b: set<string>, count: nat)
    requires DistinctAges(entries) && AreOldest(Ages(entries), a, count) && AreOldest(Ages(entries), b, count)
    ensures a <= b
  {
    OldestAreKeys(entries, a, count);
    OldestAreKeys(entries, b, count);
    if x :| x in a && x !in b {
      SameSize(a, b, x);
      var y :| y in b && y !in a;
      NotYounger(entries, a, count, x, y);
      NotYounger(entries, b, count, y, x);
      assert false;
    }
  }

  lemma SameSize(a: set<string>, b: set<string>, x: string)
    requires |a| == |b| && x in a && x !in b
    ensures exists y :: y in b && y !in a
  {
    if forall y | y in b :: y in a {
      SubsetSize(b, a - {x});
      assert false;
    }
  }

  lemma TotalOfLess(entries: Entries, a: set<string>, b: set<string>)
    requires a <= b <= entries.Keys
    ensures Total(entries - b) <= Total(entries - a)
    decreases |b - a|
  {
    hide Total;
    if x :| x in b && x !in a {
      TotalWithout(entries - a, x);
      assert entries - a - {x} == entries - (a + {x});
      assert b - (a + {x}) < b - a;
      assert |b - a| == |b - (a + {x})| + 1 by {
        assert b - a == (b - (a + {x})) + {x};
      }
      TotalOfLess(entries, a + {x}, b);
    } else {
      assert a == b;
    }
  }

  // ---- the bounds, in numbers ---------------------------------------------------------------------------

  /** Entries for an hour, at most 10240 of them, 8 MiB each and 256 MiB in all; 128 go at a time. */
  lemma BoundsAre(cache: ReplayCache, entries: Entries, key: string, now: int, content: Bytes)
    ensures Live(entries, key, now) <==> key in entries && now - entries[key].timestamp <= 60 * 60 * 1_000_000_000
    ensures Within(entries) <==> |entries| <= 10240 && Total(entries) <= 256 * 1024 * 1024
    ensures cache.ValidContent(content) <==> 0 < |content| <= 8 * 1024 * 1024 && cache.wellFormed(content)
    ensures EVICT_BATCH == 128
  {
  }

  /** A snapshot is current when the key is still there, or still missing, and of the generation that was read. */
  lemma CurrentIff(entries: Entries, key: string, snapshot: Snapshot)
    ensures Current(entries, key, snapshot) <==>
            if snapshot.found then key in entries && entries[key].generation == snapshot.generation
            else key !in entries
  {
  }

  /** So many batches of entries, or all, none younger than an entry that stays. */
  lemma BatchesIff(entries: Entries, victims: set<string>, rounds: nat)
    ensures Batches(entries, victims, rounds) <==>
            && victims <= entries.Keys
            && |victims| == (if rounds * 128 < |entries| then rounds * 128 else |entries|)
            && forall v, k | v in victims && k in entries && k !in victims ::
                entries[v].timestamp <= entries[k].timestamp
  {
    var ages := Ages(entries);
    assert ages.Keys == entries.Keys;
    assert |ages| == |entries|;
    assert forall k | k in entries :: ages[k] == entries[k].timestamp;
    if AreOldest(ages, victims, rounds * 128) {
      forall v, k | v in victims && k in entries && k !in victims ensures entries[v].timestamp <= entries[k].timestamp {
        assert k in ages.Keys - victims;
        assert ages[v] <= ages[k];
      }
    }
  }

  // ---- when a store keeps nothing -----------------------------------------------------------------------

  lemma RoundsToEmpty(n: nat, rounds: nat)
    requires n > 0 && rounds > 0 && (rounds - 1) * EVICT_BATCH < n <= rounds * EVICT_BATCH
    ensures BeforeLastBatch(n) == (rounds - 1) * EVICT_BATCH
  {
    assert (n - 1) / EVICT_BATCH == rounds - 1;
  }

  lemma RoundsShort(n: nat, rounds: nat)
    requires n > 0 && rounds * EVICT_BATCH < n
    ensures rounds * EVICT_BATCH <= BeforeLastBatch(n) < n && n - BeforeLastBatch(n) <= EVICT_BATCH
  {
    assert rounds <= (n - 1) / EVICT_BATCH;
  }

  lemma NothingLeft(put: Entries, victims: set<string>)
    requires put - victims == map[] && victims <= put.Keys
    ensures victims == put.Keys && |victims| == |put|
  {
    forall k | k in put ensures k in victims {
      assert k !in put - victims;
    }
  }

  /** If enforcing the limits removes everything, it was because the last batch alone was too big. */
  lemma EmptiedWasTooBig(put: Entries, victims: set<string>)
    requires Enforced(put, victims) && put != map[] && put - victims == map[]
    ensures exists earlier :: TooBigWithout(put, earlier)
  {
    hide Total, AreOldest, Within, Ages, Batches, TooBigWithout;
    var rounds: nat :| EnforcedIn(put, victims, rounds);
    BatchOf(put, victims, rounds);
    NothingLeft(put, victims);
    var earlier :| earlier <= victims && Batches(put, earlier, rounds - 1) && !Within(put - earlier);
    BatchOf(put, earlier, rounds - 1);
    Smaller(put, earlier);
    NeverEmpty(put - earlier);
    RoundsToEmpty(|put|, rounds);
    LastWasTooBig(put, earlier, rounds);
  }

  lemma LastWasTooBig(put: Entries, earlier: set<string>, rounds: nat)
    requires rounds > 0 && put != map[] && Batches(put, earlier, rounds - 1) && !Within(put - earlier)
    requires |put - earlier| <= EVICT_BATCH && BeforeLastBatch(|put|) == (rounds - 1) * EVICT_BATCH
    ensures TooBigWithout(put, earlier)
  {
    hide Total, AreOldest;
  }

  /** If the last batch is too big whichever it is, everything goes. */
  lemma TooBigIsEmptied(put: Entries, victims: set<string>)
    requires Enforced(put, victims) && put != map[]
    requires AlwaysTooBig(put)
    ensures put - victims == map[]
  {
    hide Total, AreOldest;
    var rounds: nat :| EnforcedIn(put, victims, rounds);
    BatchOf(put, victims, rounds);
    if rounds * EVICT_BATCH < |put| {
      RoundsShort(|put|, rounds);
      var more := ExtendOldest(Ages(put), victims, BeforeLastBatch(|put|));
      OldestAreKeys(put, more, BeforeLastBatch(|put|));
      TotalOfLess(put, victims, more);
      assert false;
    }
    AllEvicted(put, victims);
  }

  /**
   * The exact condition, for entries of distinct age: a store leaves the cache empty, the new entry
   * included, exactly when what is left after all but the last batch went is still over the byte limit.
   */
  lemma StoreKeepsNothingIff(put: Entries, victims: set<string>, earlier: set<string>)
    requires Enforced(put, victims) && put != map[] && DistinctAges(put)
    requires AreOldest(Ages(put), earlier, BeforeLastBatch(|put|))
    ensures put - victims == map[] <==> Total(put - earlier) > MAX_TOTAL_BYTES
  {
    hide Total, AreOldest, Enforced;
    forall other | AreOldest(Ages(put), other, BeforeLastBatch(|put|)) ensures other == earlier {
      OldestAreUnique(put, other, earlier, BeforeLastBatch(|put|));
    }
    if put - victims == map[] {
      EmptiedWasTooBig(put, victims);
    }
    if Total(put - earlier) > MAX_TOTAL_BYTES {
      TooBigIsEmptied(put, victims);
    }
  }

  // ---- every choice of the oldest, and some -------------------------------------------------------------

  /** Whatever the ages: some enforcement empties the cache exactly when some choice of the oldest is too big. */
  lemma SomeEnforcementEmptiesIff(put: Entries)
    requires put != map[]
    ensures (exists victims :: Enforced(put, victims) && put - victims == map[])
       <==> (exists earlier :: TooBigWithout(put, earlier))
  {
    hide Enforced, TooBigWithout;
    forall victims | Enforced(put, victims) && put - victims == map[]
      ensures exists earlier :: TooBigWithout(put, earlier)
    {
      EmptiedWasTooBig(put, victims);
    }
    forall earlier | TooBigWithout(put, earlier)
      ensures exists victims :: Enforced(put, victims) && put - victims == map[]
    {
      EmptiesAfter(put, earlier);
    }
  }

  /** And every enforcement does exactly when every choice is. */
  lemma EveryEnforcementEmptiesIff(put: Entries)
    requires put != map[]
    ensures (forall victims | Enforced(put, victims) :: put - victims == map[])
       <==> AlwaysTooBig(put)
  {
    hide Enforced, AreOldest, Total;
    if AlwaysTooBig(put) {
      forall victims | Enforced(put, victims) ensures put - victims == map[] {
        TooBigIsEmptied(put, victims);
      }
    }
    forall earlier | AreOldest(Ages(put), earlier, BeforeLastBatch(|put|)) && Total(put - earlier) <= MAX_TOTAL_BYTES
      ensures exists victims :: Enforced(put, victims) && put - victims != map[]
    {
      var victims := StopsBefore(put, earlier);
    }
  }

  lemma EmptiesAfter(put: Entries, earlier: set<string>)
    requires put != map[] && TooBigWithout(put, earlier)
    ensures Enforced(put, put.Keys) && put - put.Keys == map[]
  {
    hide Total, AreOldest;
    var rounds := (|put| - 1) / EVICT_BATCH + 1;
    assert rounds * EVICT_BATCH >= |put| && (rounds - 1) * EVICT_BATCH == BeforeLastBatch(|put|);
    AllAreOldest(put, rounds * EVICT_BATCH);
    OldestAreKeys(put, earlier, BeforeLastBatch(|put|));
    assert put - put.Keys == map[];
    TotalOfNothing();
    assert earlier <= put.Keys && Batches(put, earlier, rounds - 1) && !Within(put - earlier);
    assert EnforcedIn(put, put.Keys, rounds);
  }

  lemma AllAreOldest(put: Entries, count: nat)
    requires count >= |put|
    ensures AreOldest(Ages(put), put.Keys, count)
  {
    assert Ages(put).Keys == put.Keys && |Ages(put)| == |put|;
  }

  lemma StopsBefore(put: Entries, earlier: set<string>) returns (victims: set<string>)
    requires put != map[] && AreOldest(Ages(put), earlier, BeforeLastBatch(|put|))
    requires Total(put - earlier) <= MAX_TOTAL_BYTES
    ensures Enforced(put, victims) && put - victims != map[]
  {
    hide Total, AreOldest, Enforced, Within;
    var rounds := (|put| - 1) / EVICT_BATCH;
    RoundsShort(|put|, rounds);
    BatchOf(put, earlier, rounds);
    Smaller(put, earlier);
    LastBatchIsWithin(put - earlier);
    victims := EnforcedAmong(put, earlier, rounds);
    SubsetSize(victims, earlier);
    if put - victims == map[] {
      EnforcedAreKeys(put, victims);
      NothingLeft(put, victims);
    }
  }

  lemma EnforcedAreKeys(put: Entries, victims: set<string>)
    requires Enforced(put, victims)
    ensures victims <= put.Keys
  {
    hide Batches, Within;
    var rounds: nat :| EnforcedIn(put, victims, rounds);
    BatchOf(put, victims, rounds);
  }

  lemma LastBatchIsWithin(entries: Entries)
    requires |entries| <= EVICT_BATCH && Total(entries) <= MAX_TOTAL_BYTES
    ensures Within(entries)
  {
    hide Total;
  }

  /** Where so many batches are enough, some enforcement stops with them or before. */
  lemma {:induction false} EnforcedAmong(put: Entries, victims: set<string>, rounds: nat) returns (fewer: set<string>)
    requires Batches(put, victims, rounds) && Within(put - victims) && rounds * EVICT_BATCH <= |put|
    ensures fewer <= victims && Enforced(put, fewer)
    decreases rounds
  {
    hide Total, AreOldest, Within, Batches;
    fewer := victims;
    if rounds == 0 {
      assert EnforcedIn(put, victims, 0);
    } else {
      BatchOf(put, victims, rounds);
      var earlier := ShrinkOldest(Ages(put), victims, (rounds - 1) * EVICT_BATCH);
      IsBatch(put, earlier, rounds - 1);
      if Within(put - earlier) {
        fewer := EnforcedAmong(put, earlier, rounds - 1);
      } else {
        assert EnforcedIn(put, victims, rounds);
      }
    }
  }

  lemma IsBatch(put: Entries, victims: set<string>, rounds: nat)
    requires AreOldest(Ages(put), victims, rounds * EVICT_BATCH)
    ensures Batches(put, victims, rounds)
  {
    hide AreOldest;
  }

  /** An entry newer than every other is lost exactly when everything is. */
  lemma NewestGoesLast(put: Entries, victims: set<string>, key: string)
    requires Enforced(put, victims) && key in put
    requires forall k | k in put && k != key :: put[k].timestamp < put[key].timestamp
    ensures key in put - victims <==> put - victims != map[]
  {
    hide Total, Within;
    var rounds: nat :| EnforcedIn(put, victims, rounds);
    BatchOf(put, victims, rounds);
    assert Ages(put).Keys == put.Keys;
    if key in victims {
      forall k | k in put ensures k in victims {
        if k !in victims {
          NotYounger(put, victims, |victims|, key, k);
          assert false;
        }
      }
    }
  }

  /** So a store under a newest time keeps its own entry exactly when the last batch fits. */
  lemma StoreKeepsItsEntryIff(before: Entries, key: string, e: Entry, victims: set<string>, earlier: set<string>)
    requires Enforced(before[key := e], victims) && DistinctAges(before[key := e])
    requires forall k | k in before && k != key :: before[k].timestamp < e.timestamp
    requires AreOldest(Ages(before[key := e]), earlier, BeforeLastBatch(|before[key := e]|))
    ensures key in before[key := e] - victims <==> Total(before[key := e] - earlier) <= MAX_TOTAL_BYTES
  {
    hide Total, AreOldest, Enforced;
    var put := before[key := e];
    assert key in put;
    NewestGoesLast(put, victims, key);
    StoreKeepsNothingIff(put, victims, earlier);
  }

  lemma AllEvicted(put: Entries, victims: set<string>)
    requires AreOldest(Ages(put), victims, |victims|) && |victims| >= |put|
    ensures put - victims == map[]
  {
    assert Ages(put).Keys == put.Keys;
    if k :| k in put.Keys - victims {
      SubsetSize(victims, put.Keys - {k});
    }
    assert put.Keys <= victims;
  }

  // ---- a store that loses everything --------------------------------------------------------------------

  function Name(n: nat): string {
    seq(n + 1, _ => 'k')
  }

  /** Content of the largest size an entry may have. */
  function Largest(): (content: Bytes)
    ensures |content| == MAX_ENTRY_BYTES
  {
    seq(MAX_ENTRY_BYTES, _ => 0)
  }

  /** Within the limits, nothing goes. */
  lemma WithinIsKept(put: Entries, victims: set<string>)
    requires Enforced(put, victims) && Within(put)
    ensures put - victims == put
  {
    hide Total, AreOldest;
    var rounds: nat :| EnforcedIn(put, victims, rounds);
    BatchOf(put, victims, rounds);
    assert put - {} == put;
    if rounds > 0 {
      var earlier :| earlier <= victims && Batches(put, earlier, rounds - 1) && !Within(put - earlier);
      TotalOfLess(put, {}, earlier);
      Smaller(put, earlier);
      assert false;
    }
    assert victims == {};
  }

  lemma NoneOldest(put: Entries, earlier: set<string>)
    requires AreOldest(Ages(put), earlier, 0)
    ensures put - earlier == put
  {
    assert earlier == {};
  }

  /** Any store over the byte limit with at most one batch of entries empties the cache. */
  lemma OneBatchGoes(put: Entries, victims: set<string>)
    requires Enforced(put, victims) && put != map[] && |put| <= EVICT_BATCH && Total(put) > MAX_TOTAL_BYTES
    ensures put - victims == map[]
  {
    hide Total, AreOldest, Enforced;
    assert BeforeLastBatch(|put|) == 0;
    forall earlier | AreOldest(Ages(put), earlier, BeforeLastBatch(|put|))
      ensures Total(put - earlier) > MAX_TOTAL_BYTES
    {
      NoneOldest(put, earlier);
    }
    TooBigIsEmptied(put, victims);
  }

  /** So many entries of the largest size. */
  ghost predicate Filled(entries: Entries, n: nat) {
    |entries| == n && Total(entries) == n * MAX_ENTRY_BYTES && forall k | k in entries :: |k| <= n
  }

  lemma OneMoreFilled(entries: Entries, n: nat, e: Entry)
    requires Filled(entries, n) && |e.content| == MAX_ENTRY_BYTES
    ensures Filled(entries[Name(n) := e], n + 1)
  {
    hide Total;
    PutTotal(entries, Name(n), e);
    assert entries[Name(n) := e].Keys == entries.Keys + {Name(n)};
  }

  /** Thirty-two entries of the largest size fit; the thirty-third, stored with success, leaves none. */
  method ThirtyThirdStoreLosesAll() returns (cache: ReplayCache, ok: bool)
    ensures fresh(cache) && cache.Valid() && ok && cache.entries == map[]
  {
    hide Total, Enforced, Largest, Name;
    cache := new ReplayCache(_ => true);
    TotalOfNothing();
    for i := 0 to 32
      invariant cache.Valid() && fresh(cache) && cache.ValidContent(Largest()) && Filled(cache.entries, i)
    {
      NameIsUsable(i);
      ghost var before := cache.entries;
      ghost var victims;
      ok, victims := cache.Cache(Name(i), Largest(), i);
      ghost var e := Entry(Largest(), i, cache.generations, false);
      OneMoreFilled(before, i, e);
      WithinIsKept(before[Name(i) := e], victims);
    }
    NameIsUsable(32);
    ghost var before := cache.entries;
    ghost var victims;
    ok, victims := cache.Cache(Name(32), Largest(), 32);
    ghost var e := Entry(Largest(), 32, cache.generations, false);
    OneMoreFilled(before, 32, e);
    OneBatchGoes(before[Name(32) := e], victims);
  }

  lemma NameIsUsable(n: nat)
    ensures Name(n) != ""
  {
  }

  // ---- a delete that passes the entry limit -------------------------------------------------------------

  function OneByte(): (content: Bytes)
    ensures |content| == 1
  {
    [0]
  }

  /** So many entries of one byte. */
  ghost predicate Counting(entries: Entries, n: nat) {
    |entries| == n && Total(entries) == n && forall k | k in entries :: |k| <= n
  }

  lemma OneMoreCounted(entries: Entries, n: nat, e: Entry)
    requires Counting(entries, n) && |e.content| == 1
    ensures Counting(entries[Name(n) := e], n + 1)
  {
    hide Total;
    PutTotal(entries, Name(n), e);
    assert entries[Name(n) := e].Keys == entries.Keys + {Name(n)};
  }

  lemma CountedIsWithin(entries: Entries, n: nat)
    requires Counting(entries, n) && n <= MAX_ENTRIES
    ensures Within(entries)
  {
    hide Total;
  }

  /** A full store, and the delete of an absent key by a request whose read saw nothing: one entry too many. */
  method DeletePassesTheLimit() returns (cache: ReplayCache, ok: bool)
    ensures fresh(cache) && cache.Sound() && ok && |cache.entries| == MAX_ENTRIES + 1
  {
    hide Total, Enforced, Name, OneByte, Within;
    cache := new ReplayCache(_ => true);
    TotalOfNothing();
    for i := 0 to MAX_ENTRIES
      invariant cache.Valid() && fresh(cache) && cache.ValidContent(OneByte()) && Counting(cache.entries, i)
    {
      NameIsUsable(i);
      ghost var before := cache.entries;
      ghost var victims;
      ok, victims := cache.Cache(Name(i), OneByte(), i);
      ghost var e := Entry(OneByte(), i, cache.generations, false);
      OneMoreCounted(before, i, e);
      CountedIsWithin(before[Name(i) := e], i + 1);
      WithinIsKept(before[Name(i) := e], victims);
    }
    NameIsUsable(MAX_ENTRIES);
    NameIsNew(cache.entries, MAX_ENTRIES);
    ghost var full := cache.entries;
    ok := cache.DeleteIfUnchanged(Name(MAX_ENTRIES), Snapshot(0, true, false), MAX_ENTRIES);
    assert cache.entries.Keys == full.Keys + {Name(MAX_ENTRIES)};
  }

  lemma NameIsNew(entries: Entries, n: nat)
    requires Counting(entries, n)
    ensures Name(n) !in entries
  {
    hide Total;
  }
}
