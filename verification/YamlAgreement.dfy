/** What merging a generated configuration into a file's tree promises: internal/config/config_yaml.go. */
module YamlAgreement {
  import opened ByteStrings
  import opened YamlNodes
  import opened YamlMerge
  import opened YamlDefaults

  ghost predicate DistinctKeys(content: seq<Node>) {
    forall i, j | 0 <= i < j < Pairs(content) :: KeyAt(content, i) != KeyAt(content, j)
  }

  /** A tree as rendering a configuration produces it. */
  ghost predicate Generated(s: Node) {
    match s.kind
    case Scalar => s.content == []
    case Sequence => forall i | 0 <= i < |s.content| :: Generated(s.content[i])
    case Mapping =>
      && |s.content| % 2 == 0
      && DistinctKeys(s.content)
      && (forall i | 0 <= i < |s.content| :: Generated(s.content[i]))
    case _ => false
  }

  /** A tree as parsing a file produces it: every key has a value. */
  ghost predicate Parsed(d: Node) {
    && (d.kind == Mapping ==> |d.content| % 2 == 0)
    && (forall i | 0 <= i < |d.content| :: Parsed(d.content[i]))
  }

  /** A list element holds no key the generated one lacks. */
  ghost predicate NoStrayKeys(d: seq<Node>, s: seq<Node>) {
    forall i | 0 <= i < Pairs(d) :: HasTrimmed(s, TrimSpace(KeyAt(d, i)))
  }

  ghost predicate HasTrimmed(s: seq<Node>, trimmed: Bytes) {
    exists j | 0 <= j < Pairs(s) :: TrimSpace(KeyAt(s, j)) == trimmed
  }

  /**
   * The file's node d says what the generated node s says. A key may be missing only when its value says
   * nothing or, inside a list element, when the key is blank; a null may stand for an empty list.
   */
  ghost predicate Agrees(path: Path, element: bool, d: Node, s: Node)
    decreases s, 0
  {
    match s.kind
    case Scalar => d.kind == Scalar && d.tag == s.tag && d.value == s.value
    case Sequence =>
      || (d.kind == Scalar && d.tag == Ascii("!!null") && s.content == [])
      || (&& d.kind == Sequence
          && |d.content| == |s.content|
          && forall i | 0 <= i < |s.content| :: Agrees(path, true, d.content[i], s.content[i]))
    case Mapping =>
      && d.kind == Mapping
      && (element ==> NoStrayKeys(d.content, s.content))
      && forall j | 0 <= j < Pairs(s.content) ::
           EntryAgrees(path, element, Lookup(d.content, KeyAt(s.content, j)), KeyAt(s.content, j),
               ValueAt(s.content, j))
    case _ => false
  }

  ghost predicate EntryAgrees(path: Path, element: bool, found: Option<Node>, key: Bytes, v: Node)
    decreases v, 1
  {
    match found
    case Some(d) => Agrees(path + [key], false, d, v)
    case None => SaysNothing(path + [key], v) || (element && TrimSpace(key) == [])
  }

  // ---- pairs as a map -----------------------------------------------------------------------------------

  lemma UpdatedLookup(content: seq<Node>, j: nat, v: Node, key: Bytes)
    requires j < Pairs(content) && FindPair(content, KeyAt(content, j)) == j
    ensures Lookup(content[2 * j + 1 := v], key) == if key == KeyAt(content, j) then Some(v) else Lookup(content, key)
  {
    var c := content[2 * j + 1 := v];
    assert forall m | 0 <= m < Pairs(content) :: KeyAt(c, m) == KeyAt(content, m);
    SameFind(content, c, key);
  }

  lemma SameFind(a: seq<Node>, b: seq<Node>, key: Bytes)
    requires Pairs(a) == Pairs(b) && forall m | 0 <= m < Pairs(a) :: KeyAt(a, m) == KeyAt(b, m)
    ensures FindPair(a, key) == FindPair(b, key)
  {
    var i, j := FindPair(a, key), FindPair(b, key);
    assert i >= 0 ==> KeyAt(b, i) == key;
    assert j >= 0 ==> KeyAt(a, j) == key;
  }

  lemma AppendedLookup(content: seq<Node>, k: Node, v: Node, key: Bytes)
    requires |content| % 2 == 0
    ensures Pairs(content + [k, v]) == Pairs(content) + 1
    ensures forall m | 0 <= m < Pairs(content) :: KeyAt(content + [k, v], m) == KeyAt(content, m)
              && ValueAt(content + [k, v], m) == ValueAt(content, m)
    ensures KeyAt(content + [k, v], Pairs(content)) == k.value && ValueAt(content + [k, v], Pairs(content)) == v
    ensures Lookup(content + [k, v], key) ==
            if Lookup(content, key).Some? then Lookup(content, key) else if key == k.value then Some(v) else None
  {
    var c := content + [k, v];
    assert KeyAt(c, Pairs(content)) == k.value;
    var i, j := FindPair(content, key), FindPair(c, key);
    assert i >= 0 ==> KeyAt(c, i) == key;
    assert 0 <= j < Pairs(content) ==> KeyAt(content, j) == key;
  }

  lemma LookupAt(content: seq<Node>, j: nat)
    requires j < Pairs(content) && DistinctKeys(content)
    ensures FindPair(content, KeyAt(content, j)) == j
    ensures Lookup(content, KeyAt(content, j)) == Some(ValueAt(content, j))
  {
    var i := FindPair(content, KeyAt(content, j));
    assert i >= 0;
  }

  /** What merging a generated value into what the file holds under its key leaves there. */
  function MergedEntry(lower: Bytes -> Bytes, found: Option<Node>, v: Node, path: Path): Option<Node> {
    match found
    case Some(d) => Some(Merged(lower, d, v, path))
    case None => if SaysNothing(path, v) then None else Some(Pruned(path, v))
  }

  /** The key nodes of a mapping. */
  function Keys(content: seq<Node>): seq<Node> {
    seq(Pairs(content), j requires 0 <= j < Pairs(content) => content[2 * j])
  }

  /** The k-th generated pair is new to this content and worth adding. */
  predicate IsAdded(content: seq<Node>, s: Node, path: Path, k: nat)
    requires 0 < k <= Pairs(s.content)
  {
    var key := KeyAt(s.content, k - 1);
    Lookup(content, key) == None && !SaysNothing(path + [key], ValueAt(s.content, k - 1))
  }

  /** The key nodes the first k generated pairs add to a file that holds this content. */
  function AddedKeys(content: seq<Node>, s: Node, path: Path, k: nat): seq<Node>
    requires k <= Pairs(s.content)
  {
    if k == 0 then []
    else AddedKeys(content, s, path, k - 1) + if IsAdded(content, s, path, k) then [s.content[2 * k - 2]] else []
  }

  /** One generated pair changes only what its own key holds, and adds its key at most at the end. */
  lemma MergeStep(lower: Bytes -> Bytes, content: seq<Node>, s: Node, path: Path, k: nat, key: Bytes,
                  front: seq<Node>, after: seq<Node>)
    requires 0 < k <= Pairs(s.content)
    requires front == MergedPairs(lower, content, s, path, k - 1) && |front| % 2 == 0
    requires after == MergedPairs(lower, content, s, path, k)
    ensures |after| % 2 == 0
    ensures Lookup(after, key) ==
            if key != KeyAt(s.content, k - 1) then Lookup(front, key)
            else MergedEntry(lower, Lookup(front, key), ValueAt(s.content, k - 1), path + [key])
    ensures Keys(after) == Keys(front) + if IsAdded(front, s, path, k) then [s.content[2 * k - 2]] else []
  {
    hide Merged, Pruned, AddsNothing, SaysNothing, FindPair;
    var sk, v := s.content[2 * k - 2], s.content[2 * k - 1];
    AddsNothingIff(path + [sk.value], v);
    var j := FindPair(front, sk.value);
    if j >= 0 {
      UpdatedLookup(front, j, Merged(lower, front[2 * j + 1], v, path + [sk.value]), key);
    } else if !AddsNothing(path + [sk.value], v) {
      AppendedLookup(front, sk, Pruned(path + [sk.value], v), key);
    }
  }

  /** The pairs merged so far: a key among them holds its merged value, any other key what it held. */
  lemma {:induction false} MergedLookup(lower: Bytes -> Bytes, content: seq<Node>, s: Node, path: Path, k: nat,
      key: Bytes)
    requires k <= Pairs(s.content) && |content| % 2 == 0 && DistinctKeys(s.content)
    ensures |MergedPairs(lower, content, s, path, k)| % 2 == 0
    ensures forall j | 0 <= j < k && KeyAt(s.content, j) == key :: Lookup(MergedPairs(lower, content, s, path, k), key)
              == MergedEntry(lower, Lookup(content, key), ValueAt(s.content, j), path + [key])
    ensures (forall j | 0 <= j < k :: KeyAt(s.content, j) != key) ==>
              Lookup(MergedPairs(lower, content, s, path, k), key) == Lookup(content, key)
    decreases k
  {
    hide MergedEntry, Lookup;
    if k > 0 {
      MergedLookup(lower, content, s, path, k - 1, key);
      var front := MergedPairs(lower, content, s, path, k - 1);
      MergeStep(lower, content, s, path, k, key, front, MergedPairs(lower, content, s, path, k));
    }
  }

  /** The file keeps its keys in their order; the new ones follow in the generated order. */
  lemma {:induction false} MergedKeys(lower: Bytes -> Bytes, content: seq<Node>, s: Node, path: Path, k: nat)
    requires k <= Pairs(s.content) && |content| % 2 == 0 && DistinctKeys(s.content)
    ensures Keys(MergedPairs(lower, content, s, path, k)) == Keys(content) + AddedKeys(content, s, path, k)
    decreases k
  {
    hide MergedEntry, Lookup, Keys, MergedPairs, SaysNothing;
    if k == 0 {
      MergedNoPairs(lower, content, s, path);
    } else {
      var sk := KeyAt(s.content, k - 1);
      MergedKeys(lower, content, s, path, k - 1);
      MergedLookup(lower, content, s, path, k - 1, sk);
      var front := MergedPairs(lower, content, s, path, k - 1);
      MergeStep(lower, content, s, path, k, sk, front, MergedPairs(lower, content, s, path, k));
    }
  }

  lemma MergedNoPairs(lower: Bytes -> Bytes, content: seq<Node>, s: Node, path: Path)
    ensures MergedPairs(lower, content, s, path, 0) == content
  {
  }

  // ---- pruning ------------------------------------------------------------------------------------------

  /** Pruning never turns a default into something worth adding. */
  lemma {:induction false} PrunedDefault(path: Path, at: Path, v: Node)
    ensures IsZero(v) ==> IsZero(Pruned(path, v))
    ensures IsDefault(at, v) ==> IsDefault(at, Pruned(path, v))
    ensures StaysOut(path, v) ==> AddsNothing(path, v)
    decreases v, 1
  {
    if v.kind == Sequence {
      forall i | 0 <= i < |v.content| ensures IsZero(v.content[i]) ==> IsZero(Pruned(path, v.content[i])) {
        PrunedDefault(path, at, v.content[i]);
      }
    } else if v.kind == Mapping {
      PrunedZeroPairs(path, v, Pairs(v.content));
    }
  }

  lemma {:induction false} PrunedZeroPairs(path: Path, n: Node, k: nat)
    requires k <= Pairs(n.content)
    ensures |PrunedPairs(path, n, k)| % 2 == 0
    ensures IsZero(n) && n.kind == Mapping ==>
              forall j | 0 <= j < Pairs(PrunedPairs(path, n, k)) :: IsZero(ValueAt(PrunedPairs(path, n, k), j))
    decreases n, 0, k
  {
    hide IsDefault;
    if k > 0 {
      PrunedZeroPairs(path, n, k - 1);
      var front := PrunedPairs(path, n, k - 1);
      var key, v := n.content[2 * k - 2], n.content[2 * k - 1];
      var p := path + [key.value];
      if !StaysOut(p, v) {
        PrunedDefault(p, p, v);
        AppendedLookup(front, key, Pruned(p, v), key.value);
        assert v == ValueAt(n.content, k - 1);
      }
    }
  }

  function PrunedEntry(path: Path, v: Node): Option<Node> {
    if LeftOut(path, v) then None else Some(Pruned(path, v))
  }

  lemma {:induction false} PrunedLookup(path: Path, n: Node, k: nat, key: Bytes)
    requires k <= Pairs(n.content) && DistinctKeys(n.content)
    ensures |PrunedPairs(path, n, k)| % 2 == 0 && NoStrayKeys(PrunedPairs(path, n, k), n.content)
    ensures forall j | 0 <= j < k && KeyAt(n.content, j) == key ::
              Lookup(PrunedPairs(path, n, k), key) == PrunedEntry(path + [key], ValueAt(n.content, j))
    ensures (forall j | 0 <= j < k :: KeyAt(n.content, j) != key) ==> Lookup(PrunedPairs(path, n, k), key) == None
    decreases k
  {
    hide Pruned, StaysOut, LeftOut, FindPair, TrimSpace;
    if k > 0 {
      PrunedLookup(path, n, k - 1, key);
      var front := PrunedPairs(path, n, k - 1);
      var sk, v := n.content[2 * k - 2], n.content[2 * k - 1];
      assert sk.value == KeyAt(n.content, k - 1) && v == ValueAt(n.content, k - 1);
      StaysOutIff(path + [sk.value], v);
      if !StaysOut(path + [sk.value], v) {
        AppendedLookup(front, sk, Pruned(path + [sk.value], v), key);
        StrayAppended(front, sk, Pruned(path + [sk.value], v), n.content, k - 1);
      }
    } else {
      NothingHeld(key);
    }
  }

  lemma NothingHeld(key: Bytes)
    ensures Lookup([], key) == None
  {
  }

  lemma StrayAppended(front: seq<Node>, k: Node, v: Node, s: seq<Node>, j: nat)
    requires NoStrayKeys(front, s) && |front| % 2 == 0 && j < Pairs(s) && KeyAt(s, j) == k.value
    ensures NoStrayKeys(front + [k, v], s)
  {
    hide TrimSpace, FindPair;
    AppendedLookup(front, k, v, k.value);
    assert HasTrimmed(s, TrimSpace(k.value)) by {
      assert TrimSpace(KeyAt(s, j)) == TrimSpace(k.value);
    }
  }

  /** A generated tree agrees with itself, and so does what pruning leaves of it. */
  lemma {:induction false} SelfAgrees(path: Path, element: bool, s: Node)
    requires Generated(s)
    ensures Agrees(path, element, s, s)
    decreases s, 1
  {
    match s.kind
    case Sequence =>
      forall i | 0 <= i < |s.content| ensures Agrees(path, true, s.content[i], s.content[i]) {
        SelfAgrees(path, true, s.content[i]);
      }
    case Mapping => MappingAgreesWithItself(path, element, s);
    case Scalar =>
  }

  lemma {:induction false} MappingAgreesWithItself(path: Path, element: bool, s: Node)
    requires Generated(s) && s.kind == Mapping
    ensures Agrees(path, element, s, s)
    decreases s, 0
  {
    hide FindPair, TrimSpace, SaysNothing, Lookup, Generated;
    GeneratedMapping(s);
    assert NoStrayKeys(s.content, s.content);
    forall j | 0 <= j < Pairs(s.content)
      ensures EntryAgrees(path, element, Lookup(s.content, KeyAt(s.content, j)), KeyAt(s.content, j),
                ValueAt(s.content, j))
    {
      LookupAt(s.content, j);
      SelfAgrees(path + [KeyAt(s.content, j)], false, ValueAt(s.content, j));
    }
  }

  lemma {:induction false} PrunedAgrees(path: Path, element: bool, s: Node)
    requires Generated(s)
    ensures Agrees(path, element, Pruned(path, s), s)
    decreases s
  {
    match s.kind
    case Sequence =>
      forall i | 0 <= i < |s.content| ensures Agrees(path, true, Pruned(path, s.content[i]), s.content[i]) {
        PrunedAgrees(path, true, s.content[i]);
      }
    case Mapping =>
      var n := Pairs(s.content);
      PrunedLookup(path, s, n, []);
      forall j | 0 <= j < n
        ensures EntryAgrees(path, element, Lookup(PrunedPairs(path, s, n), KeyAt(s.content, j)), KeyAt(s.content, j),
                  ValueAt(s.content, j))
      {
        var key, v := KeyAt(s.content, j), ValueAt(s.content, j);
        PrunedLookup(path, s, n, key);
        PrunedAgrees(path + [key], false, v);
        PrunedDefault(path + [key], path + [key], v);
        StaysOutIff(path + [key], v);
        AddsNothingIff(path + [key], v);
      }
    case Scalar =>
  }

  // ---- list elements ------------------------------------------------------------------------------------

  lemma {:induction false} KeptLookup(content: seq<Node>, keep: set<Bytes>, k: nat, key: Bytes)
    requires k <= Pairs(content)
    ensures TrimSpace(key) !in keep ==> Lookup(KeptPairs(content, keep, k), key) == None
    ensures TrimSpace(key) in keep ==> Lookup(KeptPairs(content, keep, k), key) == Lookup(content[..2 * k], key)
    decreases k
  {
    hide TrimSpace, FindPair, Lookup;
    if k == 0 {
      NothingHeld(key);
      assert content[..0] == [];
    } else {
      KeptLookup(content, keep, k - 1, key);
      var front := KeptPairs(content, keep, k - 1);
      var sk, v := content[2 * k - 2], content[2 * k - 1];
      assert content[..2 * k] == content[..2 * (k - 1)] + [sk, v];
      AppendedLookup(content[..2 * (k - 1)], sk, v, key);
      AppendedLookup(front, sk, v, key);
    }
  }

  lemma {:induction false} KeptAreKept(content: seq<Node>, keep: set<Bytes>, k: nat)
    requires k <= Pairs(content)
    ensures forall i | 0 <= i < Pairs(KeptPairs(content, keep, k)) ::
              TrimSpace(KeyAt(KeptPairs(content, keep, k), i)) in keep
    decreases k
  {
    hide TrimSpace, Lookup;
    if k > 0 {
      KeptAreKept(content, keep, k - 1);
      AppendedLookup(KeptPairs(content, keep, k - 1), content[2 * k - 2], content[2 * k - 1], []);
    }
  }

  lemma NoneStray(kept: seq<Node>, s: seq<Node>)
    requires forall i | 0 <= i < Pairs(kept) :: TrimSpace(KeyAt(kept, i)) in KeepSet(s)
    ensures NoStrayKeys(kept, s)
  {
    hide TrimSpace;
    forall i | 0 <= i < Pairs(kept) ensures HasTrimmed(s, TrimSpace(KeyAt(kept, i))) {
      assert TrimSpace(KeyAt(kept, i)) in KeepSet(s);
    }
  }

  /** Keeping only the generated keys loses nothing held under one of them unless it is blank. */
  lemma OnlyKeysLookup(d: Node, s: Node, key: Bytes)
    requires |d.content| % 2 == 0
    ensures NoStrayKeys(OnlyKeysOf(d, s).content, s.content)
    ensures |OnlyKeysOf(d, s).content| % 2 == 0
    ensures TrimSpace(key) in KeepSet(s.content) ==> Lookup(OnlyKeysOf(d, s).content, key) == Lookup(d.content, key)
    ensures TrimSpace(key) !in KeepSet(s.content) ==> Lookup(OnlyKeysOf(d, s).content, key) == None
  {
    hide TrimSpace, FindPair, Lookup, KeptPairs;
    var n := Pairs(d.content);
    assert d.content[2 * n..] == [] && d.content[..2 * n] == d.content;
    KeptLookup(d.content, KeepSet(s.content), n, key);
    var kept := KeptPairs(d.content, KeepSet(s.content), n);
    assert OnlyKeysOf(d, s).content == kept;
    KeptAreKept(d.content, KeepSet(s.content), n);
    NoneStray(kept, s.content);
    assert NoStrayKeys(kept, s.content);
  }

  // ---- the theorem --------------------------------------------------------------------------------------

  /**
   * After merging, the file's tree agrees with the generated one, whatever the file held: every key has the
   * generated tag and value, sequences have the generated length and agree element by element.
   */
  lemma {:induction false} MergedAgrees(lower: Bytes -> Bytes, d: Node, s: Node, path: Path)
    requires Generated(s) && Parsed(d)
    ensures Agrees(path, false, Merged(lower, d, s, path), s)
    ensures Merged(lower, d, s, path).kind == Mapping ==> |Merged(lower, d, s, path).content| % 2 == 0
    decreases s, 1
  {
    match s.kind
    case Mapping => MergedMappingAgrees(lower, d, s, path);
    case Sequence => MergedSequenceAgrees(lower, d, s, path);
    case Scalar =>
  }

  lemma {:induction false} GeneratedIsParsed(s: Node)
    requires Generated(s)
    ensures Parsed(s)
    decreases s
  {
    forall i | 0 <= i < |s.content| ensures Parsed(s.content[i]) {
      GeneratedIsParsed(s.content[i]);
    }
  }

  lemma {:induction false} MergedMappingAgrees(lower: Bytes -> Bytes, d: Node, s: Node, path: Path)
    requires Generated(s) && Parsed(d) && s.kind == Mapping
    ensures Agrees(path, false, Merged(lower, d, s, path), s)
    ensures |Merged(lower, d, s, path).content| % 2 == 0
    decreases s, 0
  {
    hide Pruned, SaysNothing, MergedPairs, FindPair, Generated;
    ghost var base := MappingBase(d, s).content;
    var n := Pairs(s.content);
    GeneratedMapping(s);
    assert |base| % 2 == 0 && forall i | 0 <= i < |base| :: Parsed(base[i]);
    MergedLookup(lower, base, s, path, n, []);
    forall j | 0 <= j < n
      ensures EntryAgrees(path, false, Lookup(MergedPairs(lower, base, s, path, n), KeyAt(s.content, j)),
                KeyAt(s.content, j), ValueAt(s.content, j))
    {
      var key, v := KeyAt(s.content, j), ValueAt(s.content, j);
      MergedLookup(lower, base, s, path, n, key);
      if Lookup(base, key).Some? {
        MergedAgrees(lower, Lookup(base, key).value, v, path + [key]);
      } else {
        PrunedAgrees(path + [key], false, v);
      }
    }
  }

  lemma GeneratedMapping(s: Node)
    requires Generated(s) && s.kind == Mapping
    ensures Parsed(s) && DistinctKeys(s.content) && |s.content| % 2 == 0
    ensures forall i | 0 <= i < |s.content| :: Generated(s.content[i])
  {
    GeneratedIsParsed(s);
  }

  lemma {:induction false} MergedSequenceAgrees(lower: Bytes -> Bytes, d: Node, s: Node, path: Path)
    requires Generated(s) && Parsed(d) && s.kind == Sequence
    ensures Agrees(path, false, Merged(lower, d, s, path), s)
    decreases s, 0
  {
    hide Matched, Chosen;
    NamesAre();
    if !StaysNull(d, s) {
      var base := SequenceBase(d).content;
      var chosen := Chosen(lower, base, s.content, |s.content|);
      var after := Merged(lower, d, s, path).content;
      forall i | 0 <= i < |s.content| ensures Agrees(path, true, after[i], s.content[i]) {
        if chosen[i] < 0 {
          SelfAgrees(path, true, s.content[i]);
        } else {
          MergedAgrees(lower, base[chosen[i]], s.content[i], path);
          ElementAgrees(path, Merged(lower, base[chosen[i]], s.content[i], path), s.content[i]);
          assert after[i] == MergedElement(lower, base[chosen[i]], s.content[i], path);
        }
      }
    }
  }

  lemma ElementAgrees(path: Path, m: Node, s: Node)
    requires Agrees(path, false, m, s) && (m.kind == Mapping ==> |m.content| % 2 == 0)
    ensures Agrees(path, true, if m.kind == Mapping && s.kind == Mapping then OnlyKeysOf(m, s) else m, s)
  {
    hide OnlyKeysOf, FindPair, TrimSpace, SaysNothing, Lookup;
    if s.kind == Mapping {
      OnlyKeysLookup(m, s, []);
      OnlyKeysKind(m, s);
      forall j | 0 <= j < Pairs(s.content)
        ensures EntryAgrees(path, true, Lookup(OnlyKeysOf(m, s).content, KeyAt(s.content, j)), KeyAt(s.content, j),
                  ValueAt(s.content, j))
      {
        var key, v := KeyAt(s.content, j), ValueAt(s.content, j);
        assert EntryAgrees(path, false, Lookup(m.content, key), key, v);
        OnlyKeysLookup(m, s, key);
      }
    }
  }

  lemma OnlyKeysKind(d: Node, s: Node)
    ensures OnlyKeysOf(d, s) == d.(content := OnlyKeysOf(d, s).content)
  {
  }

  /** A null stays in place of an empty list. */
  lemma NullStays(lower: Bytes -> Bytes, d: Node, s: Node, path: Path)
    requires d.kind == Scalar && d.tag == Ascii("!!null") && s.kind == Sequence && s.content == []
    ensures Merged(lower, d, s, path) == d
  {
    NamesAre();
  }
}
