/** The bounded least-recently-used cache: internal/cache/bounded_lru.go. */
module BoundedLru {
  import opened ByteStrings

  // ---- what recency means -------------------------------------------------------------------------------

  function Without<K(==)>(keys: seq<K>, k: K): seq<K> {
    if keys == [] then []
    else if keys[0] == k then Without(keys[1..], k)
    else [keys[0]] + Without(keys[1..], k)
  }

  /** The distinct keys of a trace, each where it comes first. */
  function Distinct<K(==)>(trace: seq<K>): seq<K> {
    if trace == [] then [] else [trace[0]] + Without(Distinct(trace[1..]), trace[0])
  }

  function Take<K>(s: seq<K>, n: nat): seq<K> {
    if n == 0 || s == [] then [] else [s[0]] + Take(s[1..], n - 1)
  }

  predicate NoDuplicates<K(==)>(s: seq<K>) {
    s == [] || (s[0] !in s[1..] && NoDuplicates(s[1..]))
  }

  lemma {:induction false} InWithout<K>(s: seq<K>, k: K, x: K)
    ensures x in Without(s, k) <==> x in s && x != k
    decreases |s|
  {
    if s != [] {
      InWithout(s[1..], k, x);
    }
  }

  lemma {:induction false} WithoutMissing<K>(s: seq<K>, k: K)
    ensures k !in s ==> Without(s, k) == s
    decreases |s|
  {
    if s != [] {
      WithoutMissing(s[1..], k);
    }
  }

  lemma {:induction false} InTake<K>(s: seq<K>, n: nat, x: K)
    ensures x in Take(s, n) ==> x in s
    decreases |s|
  {
    if s != [] && n > 0 {
      InTake(s[1..], n - 1, x);
    }
  }

  lemma {:induction false} TakeIsPrefix<K>(s: seq<K>, n: nat)
    ensures Take(s, n) == if |s| <= n then s else s[..n]
    decreases |s|
  {
    if s != [] && n > 0 {
      TakeIsPrefix(s[1..], n - 1);
    }
  }

  lemma {:induction false} WithoutKeepsDistinct<K>(s: seq<K>, k: K)
    requires NoDuplicates(s)
    ensures NoDuplicates(Without(s, k))
    ensures |Without(s, k)| == if k in s then |s| - 1 else |s|
    decreases |s|
  {
    if s != [] {
      WithoutKeepsDistinct(s[1..], k);
      InWithout(s[1..], k, s[0]);
    }
  }

  lemma {:induction false} DistinctHasNoDuplicates<K>(trace: seq<K>)
    ensures NoDuplicates(Distinct(trace))
    decreases |trace|
  {
    if trace != [] {
      DistinctHasNoDuplicates(trace[1..]);
      WithoutKeepsDistinct(Distinct(trace[1..]), trace[0]);
      InWithout(Distinct(trace[1..]), trace[0], trace[0]);
    }
  }

  /** Where a key comes first in a trace. */
  function FirstAt<K(==)>(trace: seq<K>, x: K): (i: nat)
    requires x in trace
    ensures i < |trace| && trace[i] == x && x !in trace[..i]
  {
    if trace[0] == x then 0
    else
      assert trace == [trace[0]] + trace[1..];
      var i := FirstAt(trace[1..], x) + 1;
      assert trace[..i] == [trace[0]] + trace[1..][..i - 1];
      i
  }

  ghost predicate ByFirst<K>(trace: seq<K>, keys: seq<K>) {
    && (forall k | k in keys :: k in trace)
    && (forall i, j | 0 <= i < j < |keys| :: FirstAt(trace, keys[i]) < FirstAt(trace, keys[j]))
  }

  lemma ByFirstCons<K>(trace: seq<K>, head: K, keys: seq<K>)
    requires ByFirst(trace, keys) && head in trace
    requires forall k | k in keys :: FirstAt(trace, head) < FirstAt(trace, k)
    ensures ByFirst(trace, [head] + keys)
  {
    hide FirstAt;
    assert forall i | 1 <= i < |[head] + keys| :: ([head] + keys)[i] == keys[i - 1];
  }

  lemma ByFirstTail<K>(trace: seq<K>, keys: seq<K>)
    requires ByFirst(trace, keys) && keys != []
    ensures keys[0] in trace && ByFirst(trace, keys[1..])
    ensures forall k | k in keys[1..] :: FirstAt(trace, keys[0]) < FirstAt(trace, k)
  {
    hide FirstAt;
    var rest := keys[1..];
    assert forall i | 0 <= i < |rest| :: rest[i] == keys[i + 1];
  }

  lemma {:induction false} WithoutKeepsOrder<K>(trace: seq<K>, keys: seq<K>, x: K)
    requires ByFirst(trace, keys)
    ensures ByFirst(trace, Without(keys, x))
    decreases |keys|
  {
    hide FirstAt, ByFirst;
    if keys != [] {
      ByFirstTail(trace, keys);
      WithoutKeepsOrder(trace, keys[1..], x);
      var rest := Without(keys[1..], x);
      forall k ensures k in rest <==> k in keys[1..] && k != x {
        InWithout(keys[1..], x, k);
      }
      if keys[0] != x {
        InTrace(trace, keys[1..]);
        ByFirstCons(trace, keys[0], rest);
      }
    }
  }

  lemma InTrace<K>(trace: seq<K>, keys: seq<K>)
    requires ByFirst(trace, keys)
    ensures forall k | k in keys :: k in trace
  {
  }

  lemma FirstInCons<K>(head: K, trace: seq<K>, x: K)
    requires x in trace && x != head
    ensures FirstAt([head] + trace, x) == FirstAt(trace, x) + 1
  {
    assert ([head] + trace)[1..] == trace;
  }

  /** The distinct keys of a trace are its keys, ordered by where they come first: latest touched first. */
  lemma {:induction false} DistinctIs<K>(trace: seq<K>)
    ensures forall x :: x in Distinct(trace) <==> x in trace
    ensures ByFirst(trace, Distinct(trace))
    decreases |trace|
  {
    if trace != [] {
      var head, rest := trace[0], trace[1..];
      assert trace == [head] + rest;
      DistinctIs(rest);
      var keys := Without(Distinct(rest), head);
      forall x ensures x in keys <==> x in rest && x != head {
        InWithout(Distinct(rest), head, x);
      }
      WithoutKeepsOrder(rest, Distinct(rest), head);
      forall x | x in keys ensures FirstAt(trace, x) == FirstAt(rest, x) + 1 {
        FirstInCons(head, rest, x);
      }
      hide FirstAt, Without;
      assert FirstAt(trace, head) == 0;
    }
  }

  /** A prefix of the keys is all it takes to tell what removing one leaves in front. */
  lemma {:induction false} TakeWithout<K>(s: seq<K>, k: K, n: nat)
    requires NoDuplicates(s)
    ensures Take(Without(s, k), n) == Take(Without(Take(s, n + 1), k), n)
    decreases |s|
  {
    if s != [] {
      var rest := s[1..];
      if s[0] == k {
        InTake(rest, n, k);
        WithoutMissing(rest, k);
        WithoutMissing(Take(rest, n), k);
        TakeIsPrefix(rest, n);
        TakeIsPrefix(Take(rest, n), n);
      } else if n > 0 {
        TakeWithout(rest, k, n - 1);
      }
    }
  }

  /** Touching a key: the most recent keys follow from the most recent keys before. */
  lemma TouchIsLocal<K>(trace: seq<K>, k: K, capacity: nat)
    requires capacity >= 1
    ensures Take(Distinct([k] + trace), capacity) == Take([k] + Without(Take(Distinct(trace), capacity), k), capacity)
  {
    DistinctHasNoDuplicates(trace);
    TakeWithout(Distinct(trace), k, capacity - 1);
  }

  // ---- the cache ----------------------------------------------------------------------------------------

  datatype Entry<K, V> = Entry(key: K, value: V)

  function KeysOf<K, V>(order: seq<Entry<K, V>>): seq<K> {
    if order == [] then [] else [order[0].key] + KeysOf(order[1..])
  }

  function WithoutKey<K(==), V>(order: seq<Entry<K, V>>, k: K): seq<Entry<K, V>> {
    if order == [] then []
    else if order[0].key == k then WithoutKey(order[1..], k)
    else [order[0]] + WithoutKey(order[1..], k)
  }

  /** The map leads from exactly the keys of the list to their elements. */
  ghost predicate Indexes<K, V>(entries: map<K, Entry<K, V>>, order: seq<Entry<K, V>>) {
    && NoDuplicates(KeysOf(order))
    && (forall k | k in entries :: k in KeysOf(order))
    && (forall e | e in order :: e.key in entries && entries[e.key] == e)
  }

  lemma {:induction false} KeysOfAppend<K, V>(a: seq<Entry<K, V>>, b: seq<Entry<K, V>>)
    ensures KeysOf(a + b) == KeysOf(a) + KeysOf(b)
    decreases |a|
  {
    if a == [] {
      assert a + b == b;
    } else {
      assert (a + b)[1..] == a[1..] + b;
      KeysOfAppend(a[1..], b);
    }
  }

  lemma {:induction false} InKeysOf<K, V>(order: seq<Entry<K, V>>, k: K)
    ensures k in KeysOf(order) <==> exists e | e in order :: e.key == k
    decreases |order|
  {
    if order != [] {
      InKeysOf(order[1..], k);
      assert order == [order[0]] + order[1..];
    }
  }

  /** Taking an entry out of the list. */
  lemma {:induction false} TakenOut<K, V>(order: seq<Entry<K, V>>, e: Entry<K, V>)
    requires NoDuplicates(KeysOf(order)) && e in order
    ensures KeysOf(WithoutKey(order, e.key)) == Without(KeysOf(order), e.key)
    ensures multiset([e] + WithoutKey(order, e.key)) == multiset(order)
    decreases |order|
  {
    var rest := order[1..];
    assert order == [order[0]] + rest;
    if order[0].key == e.key {
      InKeysOf(rest, e.key);
      NotThere(rest, e.key);
      WithoutMissing(KeysOf(rest), e.key);
    } else {
      TakenOut(rest, e);
      assert multiset(order) == multiset{order[0]} + multiset(rest);
    }
  }

  lemma {:induction false} NotThere<K, V>(order: seq<Entry<K, V>>, k: K)
    requires k !in KeysOf(order)
    ensures WithoutKey(order, k) == order
    decreases |order|
  {
    if order != [] {
      NotThere(order[1..], k);
    }
  }

  lemma MovedToFront<K, V>(entries: map<K, Entry<K, V>>, order: seq<Entry<K, V>>, k: K)
    requires Indexes(entries, order) && k in entries
    ensures var moved := [entries[k]] + WithoutKey(order, k);
            && entries[k].key == k
            && entries[k] in order
            && Indexes(entries, moved)
            && KeysOf(moved) == [k] + Without(KeysOf(order), k)
            && |moved| == |order|
            && multiset(moved) == multiset(order)
  {
    InKeysOf(order, k);
    var e := entries[k];
    TakenOut(order, e);
    var moved := [e] + WithoutKey(order, k);
    assert moved[1..] == WithoutKey(order, k);
    assert |multiset(moved)| == |multiset(order)|;
    WithoutKeepsDistinct(KeysOf(order), k);
    InWithout(KeysOf(order), k, k);
    forall x | x in entries ensures x in KeysOf(moved) {
      InWithout(KeysOf(order), k, x);
    }
    assert forall x | x in moved :: x in multiset(moved);
  }

  lemma PushedFront<K, V>(entries: map<K, Entry<K, V>>, order: seq<Entry<K, V>>, e: Entry<K, V>)
    requires Indexes(entries, order) && e.key !in entries
    ensures Indexes(entries[e.key := e], [e] + order)
    ensures KeysOf([e] + order) == [e.key] + Without(KeysOf(order), e.key)
    ensures multiset([e] + order) == multiset{e} + multiset(order)
  {
    var pushed := [e] + order;
    assert pushed[1..] == order;
    InKeysOf(order, e.key);
    WithoutMissing(KeysOf(order), e.key);
  }

  lemma DroppedLast<K, V>(entries: map<K, Entry<K, V>>, order: seq<Entry<K, V>>)
    requires Indexes(entries, order) && order != []
    ensures var front, last := order[..|order| - 1], order[|order| - 1];
            Indexes(entries - {last.key}, front) && KeysOf(front) == Take(KeysOf(order), |order| - 1)
    ensures order[|order| - 1].key in entries
  {
    hide NoDuplicates, KeysOf, Take;
    var front, last := order[..|order| - 1], order[|order| - 1];
    assert order == front + [last];
    LastKey(front, last);
    SplitDistinct(KeysOf(front), last.key);
    LengthOfKeys(front);
    TakeIsPrefix(KeysOf(order), |order| - 1);
    assert KeysOf(order)[..|front|] == KeysOf(front);
    FrontIndexes(entries, front, last);
  }

  lemma FrontIndexes<K, V>(entries: map<K, Entry<K, V>>, front: seq<Entry<K, V>>, last: Entry<K, V>)
    requires Indexes(entries, front + [last]) && KeysOf(front + [last]) == KeysOf(front) + [last.key]
    requires NoDuplicates(KeysOf(front)) && last.key !in KeysOf(front)
    ensures Indexes(entries - {last.key}, front) && last.key in entries
  {
    hide NoDuplicates, KeysOf;
    assert last in front + [last];
    forall e | e in front ensures e.key != last.key && e in front + [last] {
      InKeysOf(front, e.key);
    }
  }

  lemma LastKey<K, V>(front: seq<Entry<K, V>>, last: Entry<K, V>)
    ensures KeysOf(front + [last]) == KeysOf(front) + [last.key]
  {
    KeysOfAppend(front, [last]);
    assert [last][1..] == [];
  }

  lemma {:induction false} SplitDistinct<K>(s: seq<K>, k: K)
    requires NoDuplicates(s + [k])
    ensures NoDuplicates(s) && k !in s
    decreases |s|
  {
    if s != [] {
      assert (s + [k])[1..] == s[1..] + [k];
      SplitDistinct(s[1..], k);
    }
  }

  lemma {:induction false} LengthOfKeys<K, V>(order: seq<Entry<K, V>>)
    ensures |KeysOf(order)| == |order|
    decreases |order|
  {
    if order != [] {
      LengthOfKeys(order[1..]);
    }
  }

  lemma {:induction false} IndexSize<K, V>(entries: map<K, Entry<K, V>>, order: seq<Entry<K, V>>)
    requires Indexes(entries, order)
    ensures |entries| == |order|
    decreases |order|
  {
    if order == [] {
      assert entries.Keys == {};
    } else {
      DroppedLast(entries, order);
      var last := order[|order| - 1];
      IndexSize(entries - {last.key}, order[..|order| - 1]);
      assert entries.Keys == (entries - {last.key}).Keys + {last.key};
    }
  }

  /** The list holds the first capacity distinct keys of the trace, in its order. */
  ghost predicate IsMostRecent<K, V>(order: seq<Entry<K, V>>, touched: seq<K>, capacity: nat) {
    |order| <= capacity && KeysOf(order) == Take(Distinct(touched), capacity)
  }

  /** Every entry created is in the list or was evicted, once. */
  ghost predicate Balanced<K, V>(created: multiset<Entry<K, V>>, evicted: multiset<Entry<K, V>>,
      order: seq<Entry<K, V>>) {
    created == evicted + multiset(order)
  }

  class Cache<K(==), V> {
    const capacity: nat
    var entries: map<K, Entry<K, V>>
    var order: seq<Entry<K, V>>
    /** Every key asked for and found or added, most recent first. */
    ghost var touched: seq<K>
    /** Every entry ever created, and those handed to onEvict. */
    ghost var created: multiset<Entry<K, V>>
    ghost var evicted: multiset<Entry<K, V>>

    ghost predicate Valid()
      reads this
    {
      && capacity >= 1
      && Indexes(entries, order)
      && IsMostRecent(order, touched, capacity)
      && Balanced(created, evicted, order)
    }

    constructor (capacity: int)
      ensures Valid() && entries == map[] && touched == [] && created == multiset{} && evicted == multiset{}
      ensures this.capacity == if capacity < 1 then 1 else capacity
    {
      this.capacity := if capacity < 1 then 1 else capacity;
      entries, order := map[], [];
      touched, created, evicted := [], multiset{}, multiset{};
    }

    /** Returns what is stored under the key, creating it first if need be; out is what goes to onEvict. */
    method GetOrAdd(key: K, create: () -> V) returns (value: V, out: Option<Entry<K, V>>)
      requires Valid()
      modifies this
      ensures Valid() && touched == [key] + old(touched)
      ensures key in old(entries) ==> value == old(entries)[key].value && out == None
      ensures key in old(entries) ==> entries == old(entries) && created == old(created) && evicted == old(evicted)
      ensures key !in old(entries) ==> value == create() && created == old(created) + multiset{Entry(key, value)}
      ensures key !in old(entries) ==>
                out == if |old(entries)| == capacity then Some(old(order)[|old(order)| - 1]) else None
      ensures key !in old(entries) ==>
                entries == if out.Some? then old(entries)[key := Entry(key, value)] - {out.value.key}
                           else old(entries)[key := Entry(key, value)]
      ensures evicted == old(evicted) + if out.Some? then multiset{out.value} else multiset{}
    {
      hide Indexes, IsMostRecent, Balanced, WithoutKey;
      out := None;
      if key in entries {
        Hit(entries, order, touched, key, capacity, created, evicted);
        touched := [key] + touched;
        value := entries[key].value;
        order := [entries[key]] + WithoutKey(order, key);
        return;
      }
      value := create();
      out := Add(key, value);
    }

    /** Pushes a new entry to the front, and drops the last one when the bound is crossed. */
    method Add(key: K, value: V) returns (out: Option<Entry<K, V>>)
      requires Valid() && key !in entries
      modifies this
      ensures Valid() && touched == [key] + old(touched) && created == old(created) + multiset{Entry(key, value)}
      ensures out == if |old(entries)| == capacity then Some(old(order)[|old(order)| - 1]) else None
      ensures entries == if out.Some? then old(entries)[key := Entry(key, value)] - {out.value.key}
                         else old(entries)[key := Entry(key, value)]
      ensures evicted == old(evicted) + if out.Some? then multiset{out.value} else multiset{}
    {
      hide Indexes, IsMostRecent, Balanced;
      var element := Entry(key, value);
      Miss(entries, order, touched, element, capacity);
      Balance(created, evicted, order, element);
      assert |order| == capacity ==> ([element] + order)[|order|] == order[|order| - 1];
      touched := [key] + touched;
      order := [element] + order;
      entries := entries[key := element];
      created := created + multiset{element};
      out := None;
      if |order| > capacity {
        var oldest := DropOldest();
        out := Some(oldest);
      }
    }

    /** The eviction: the back of the list leaves the list and the map. */
    method DropOldest() returns (oldest: Entry<K, V>)
      requires order != []
      modifies this`entries, this`order, this`evicted
      ensures oldest == old(order)[|old(order)| - 1] && order == old(order)[..|old(order)| - 1]
      ensures entries == old(entries) - {oldest.key} && evicted == old(evicted) + multiset{oldest}
    {
      oldest := order[|order| - 1];
      entries := entries - {oldest.key};
      order := order[..|order| - 1];
      evicted := evicted + multiset{oldest};
    }

    method Get(key: K) returns (found: Option<V>)
      requires Valid()
      modifies this
      ensures Valid() && entries == old(entries) && created == old(created) && evicted == old(evicted)
      ensures found == if key in entries then Some(entries[key].value) else None
      ensures touched == if key in entries then [key] + old(touched) else old(touched)
    {
      hide Indexes, IsMostRecent, Balanced, WithoutKey;
      if key in entries {
        Hit(entries, order, touched, key, capacity, created, evicted);
        touched := [key] + touched;
        found := Some(entries[key].value);
        order := [entries[key]] + WithoutKey(order, key);
      } else {
        found := None;
      }
    }

    method Len() returns (n: nat)
      requires Valid()
      ensures n == |KeysOf(order)| && n <= capacity
    {
      IndexSize(entries, order);
      LengthOfKeys(order);
      n := |entries|;
    }
  }

  lemma Hit<K, V>(entries: map<K, Entry<K, V>>, order: seq<Entry<K, V>>, touched: seq<K>, key: K, capacity: nat,
                  created: multiset<Entry<K, V>>, evicted: multiset<Entry<K, V>>)
    requires Indexes(entries, order) && capacity >= 1 && IsMostRecent(order, touched, capacity)
    requires Balanced(created, evicted, order) && key in entries
    ensures var moved := [entries[key]] + WithoutKey(order, key);
            && Indexes(entries, moved)
            && IsMostRecent(moved, [key] + touched, capacity)
            && Balanced(created, evicted, moved)
  {
    hide Indexes, Distinct, KeysOf, WithoutKey, Without, NoDuplicates, Take;
    Retouched(entries, order, touched, key, capacity);
    MovedToFront(entries, order, key);
  }

  lemma Miss<K, V>(entries: map<K, Entry<K, V>>, order: seq<Entry<K, V>>, touched: seq<K>, e: Entry<K, V>,
      capacity: nat)
    requires Indexes(entries, order) && capacity >= 1 && IsMostRecent(order, touched, capacity)
    requires e.key !in entries
    ensures |entries| == |order| <= capacity
    ensures |order| < capacity ==>
              Indexes(entries[e.key := e], [e] + order) && IsMostRecent([e] + order, [e.key] + touched, capacity)
    ensures |order| == capacity ==>
              var last, front := order[|order| - 1], ([e] + order)[..|order|];
              Indexes(entries[e.key := e] - {last.key}, front) && IsMostRecent(front, [e.key] + touched, capacity)
  {
    hide Indexes, Distinct, KeysOf, WithoutKey, Without, NoDuplicates, Take;
    IndexSize(entries, order);
    Retouched(entries, order, touched, e.key, capacity);
    PushedFront(entries, order, e);
    DroppedLast(entries[e.key := e], [e] + order);
  }

  lemma Balance<K, V>(created: multiset<Entry<K, V>>, evicted: multiset<Entry<K, V>>, order: seq<Entry<K, V>>,
      e: Entry<K, V>)
    requires Balanced(created, evicted, order)
    ensures Balanced(created + multiset{e}, evicted, [e] + order)
    ensures order != [] ==>
              Balanced(created + multiset{e}, evicted + multiset{order[|order| - 1]}, ([e] + order)[..|order|])
  {
    if order != [] {
      assert [e] + order == ([e] + order)[..|order|] + [order[|order| - 1]];
    }
  }

  /** What one touch makes of the recency order, in terms of the list alone. */
  lemma Retouched<K, V>(entries: map<K, Entry<K, V>>, order: seq<Entry<K, V>>, touched: seq<K>, key: K, capacity: nat)
    requires Indexes(entries, order) && capacity >= 1 && |order| <= capacity
    requires KeysOf(order) == Take(Distinct(touched), capacity)
    ensures Take(Distinct([key] + touched), capacity) == Take([key] + Without(KeysOf(order), key), capacity)
    ensures key in entries || |order| < capacity ==>
              Take([key] + Without(KeysOf(order), key), capacity) == [key] + Without(KeysOf(order), key)
  {
    TouchIsLocal(touched, key, capacity);
    LengthOfKeys(order);
    WithoutKeepsDistinct(KeysOf(order), key);
    TakeIsPrefix([key] + Without(KeysOf(order), key), capacity);
  }
}
