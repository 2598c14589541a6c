/** Choosing the oldest entries of a cache: the eviction step the replay caches share. */
module EvictionOrder {

  function Min(a: nat, b: nat): nat {
    if a < b then a else b
  }

  /**
   * victims are `count` keys, or all of them, none younger than a key that stays. Entries of equal age
   * may go in any order, as after an unstable sort.
   */
  ghost predicate AreOldest(age: map<string, int>, victims: set<string>, count: nat) {
    && victims <= age.Keys
    && |victims| == Min(count, |age|)
    && forall v, k | v in victims && k in age.Keys - victims :: age[v] <= age[k]
  }

  method OldestOf(age: map<string, int>, among: set<string>) returns (oldest: string)
    requires among != {} && among <= age.Keys
    ensures oldest in among && forall k | k in among :: age[oldest] <= age[k]
  {
    oldest :| oldest in among;
    var rest := among - {oldest};
    while rest != {}
      invariant rest <= among && oldest in among
      invariant forall k | k in among - rest :: age[oldest] <= age[k]
      decreases rest
    {
      var key :| key in rest;
      if age[key] < age[oldest] {
        oldest := key;
      }
      rest := rest - {key};
    }
  }

  /** The keys that evicting `count` entries removes, oldest first. */
  method OldestKeys(age: map<string, int>, count: nat) returns (victims: set<string>)
    ensures AreOldest(age, victims, count)
  {
    victims := {};
    var rest := age.Keys;
    while |victims| < count && rest != {}
      invariant victims <= age.Keys && rest == age.Keys - victims && |victims| <= Min(count, |age|)
      invariant |victims| + |rest| == |age|
      invariant forall v, k | v in victims && k in rest :: age[v] <= age[k]
      decreases rest
    {
      var key := OldestOf(age, rest);
      victims, rest := victims + {key}, rest - {key};
    }
    assert rest == {} ==> |victims| == |age|;
  }

  // ---- which choices there are --------------------------------------------------------------------------

  lemma {:induction false} SubsetSize(a: set<string>, b: set<string>)
    requires a <= b
    ensures |a| <= |b|
  {
    if a != {} {
      var x :| x in a;
      SubsetSize(a - {x}, b - {x});
    }
  }

  lemma {:induction false} Oldest(age: map<string, int>, among: set<string>) returns (oldest: string)
    requires among != {} && among <= age.Keys
    ensures oldest in among && forall k | k in among :: age[oldest] <= age[k]
    decreases among
  {
    oldest :| oldest in among;
    if among != {oldest} {
      var other := Oldest(age, among - {oldest});
      if age[other] < age[oldest] {
        oldest := other;
      }
    }
  }

  /** A choice of the oldest extends to one of more. */
  lemma {:induction false} ExtendOldest(age: map<string, int>, victims: set<string>, count: nat)
    returns (more: set<string>)
    requires AreOldest(age, victims, |victims|) && |victims| <= count
    ensures victims <= more && AreOldest(age, more, count)
    decreases count - |victims|
  {
    SubsetSize(victims, age.Keys);
    if |victims| == Min(count, |age|) {
      more := victims;
    } else {
      var rest := age.Keys - victims;
      assert rest != {} by {
        assert rest == {} ==> victims == age.Keys;
      }
      var next := Oldest(age, rest);
      more := ExtendOldest(age, victims + {next}, count);
    }
  }

  lemma {:induction false} Youngest(age: map<string, int>, among: set<string>) returns (youngest: string)
    requires among != {} && among <= age.Keys
    ensures youngest in among && forall k | k in among :: age[k] <= age[youngest]
    decreases among
  {
    youngest :| youngest in among;
    if among != {youngest} {
      var other := Youngest(age, among - {youngest});
      if age[youngest] < age[other] {
        youngest := other;
      }
    }
  }

  /** A choice of the oldest holds one of fewer. */
  lemma {:induction false} ShrinkOldest(age: map<string, int>, victims: set<string>, count: nat)
    returns (fewer: set<string>)
    requires AreOldest(age, victims, |victims|) && count <= |victims|
    ensures fewer <= victims && AreOldest(age, fewer, count)
    decreases |victims|
  {
    SubsetSize(victims, age.Keys);
    if |victims| == count {
      fewer := victims;
    } else {
      var last := Youngest(age, victims);
      fewer := ShrinkOldest(age, victims - {last}, count);
    }
  }

  function Older(age: map<string, int>, key: string): set<string>
    requires key in age
  {
    set k | k in age && age[k] < age[key]
  }

  /** A key stays whichever of the oldest go, exactly when enough others are strictly older. */
  lemma StaysIff(age: map<string, int>, key: string, count: nat)
    requires key in age
    ensures (forall victims | AreOldest(age, victims, count) :: key !in victims) <==> |Older(age, key)| >= count
  {
    if |Older(age, key)| < count {
      var victims := OldestWith(age, key, count);
    } else {
      forall victims | AreOldest(age, victims, count) ensures key !in victims {
        if key in victims {
          OlderGoFirst(age, key, victims, count);
          assert false;
        }
      }
    }
  }

  lemma OldestWith(age: map<string, int>, key: string, count: nat) returns (victims: set<string>)
    requires key in age && |Older(age, key)| < count
    ensures AreOldest(age, victims, count) && key in victims
  {
    var first := Older(age, key) + {key};
    SubsetSize(first, age.Keys);
    victims := ExtendOldest(age, first, count);
  }

  lemma OlderGoFirst(age: map<string, int>, key: string, victims: set<string>, count: nat)
    requires AreOldest(age, victims, count) && key in victims
    ensures key in age && |Older(age, key)| < count
  {
    var first := Older(age, key) + {key};
    assert first <= victims;
    SubsetSize(first, victims);
  }
}
