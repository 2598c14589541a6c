/** Saving the same configuration twice: internal/config/config_yaml.go. */
module YamlTwice {
  import opened ByteStrings
  import opened YamlNodes
  import opened YamlMerge
  import opened YamlDefaults
  import opened YamlAgreement
  import opened YamlUnchanged

  // ---- lists whose elements keep their places -----------------------------------------------------------

  /** The k-th new element finds the k-th old one, when the ones before it found theirs. */
  ghost predicate PlaceKept(lower: Bytes -> Bytes, original: seq<Node>, k: nat, target: Node)
    requires k < |original|
  {
    || Identified(lower, original[k], target)
    || (SameStructure(original[k], target) && forall m | k < m < |original| :: !Identified(lower, original[m], target))
  }

  ghost predicate InOrder(chosen: seq<int>) {
    forall i | 0 <= i < |chosen| :: chosen[i] == i
  }

  /** A list is matched element by element exactly when each one keeps its place. */
  lemma {:induction false} MatchedInOrderIff(lower: Bytes -> Bytes, original: seq<Node>, targets: seq<Node>, n: nat)
    requires n <= |targets| == |original|
    ensures InOrder(Chosen(lower, original, targets, n))
       <==> forall k | 0 <= k < n :: PlaceKept(lower, original, k, targets[k])
    decreases n
  {
    hide Matched, PlaceKept, InOrder;
    if n == 0 {
      InOrderGrows([], 0);
    } else {
      MatchedInOrderIff(lower, original, targets, n - 1);
      var front := Chosen(lower, original, targets, n - 1);
      InOrderGrows(front, Matched(lower, original, front, targets[n - 1]));
      if InOrder(front) {
        MatchedHereIff(lower, original, front, targets[n - 1], n - 1);
      }
    }
  }

  lemma InOrderGrows(front: seq<int>, last: int)
    ensures front == [] ==> InOrder(front)
    ensures InOrder(front + [last]) <==> InOrder(front) && last == |front|
    ensures InOrder(front) ==> |front| !in front && (forall m | 0 <= m < |front| :: m in front)
    ensures InOrder(front) ==> forall m | m in front :: m < |front|
  {
    var all := front + [last];
    assert all[|front|] == last && all[..|front|] == front;
    if InOrder(all) {
      forall i | 0 <= i < |front| ensures front[i] == i {
        assert all[i] == i;
      }
    }
    if InOrder(front) {
      forall m | 0 <= m < |front| ensures m in front {
        assert front[m] == m;
      }
    }
  }

  lemma MatchedHereIff(lower: Bytes -> Bytes, original: seq<Node>, taken: seq<int>, target: Node, k: nat)
    requires k < |original| && k !in taken && (forall m | 0 <= m < k :: m in taken)
    requires forall m | m in taken :: m < k
    ensures Matched(lower, original, taken, target) == k <==> PlaceKept(lower, original, k, target)
  {
    hide Identified, SameStructure;
    var identified := FirstWhere(original, taken, n => Identified(lower, n, target), 0);
    if identified >= 0 {
      assert Identified(lower, original[identified], target);
    }
  }

  /** Every list of the file that the configuration has too keeps its elements in their places. */
  ghost predicate InPlace(lower: Bytes -> Bytes, d: Node, s: Node)
    decreases s
  {
    match s.kind
    case Mapping =>
      forall j | 0 <= j < Pairs(s.content) && Lookup(d.content, KeyAt(s.content, j)).Some? ::
        InPlace(lower, Lookup(d.content, KeyAt(s.content, j)).value, ValueAt(s.content, j))
    case Sequence =>
      || StaysNull(d, s)
      || (&& |d.content| == |s.content|
          && (forall i | 0 <= i < |s.content| :: PlaceKept(lower, d.content, i, s.content[i]))
          && (forall i | 0 <= i < |s.content| :: InPlace(lower, d.content[i], s.content[i])))
    case _ => true
  }

  // ---- a tree that agrees and is in place ---------------------------------------------------------------

  /** What a pair has nothing to do to. */
  ghost predicate PairIsSettled(lower: Bytes -> Bytes, content: seq<Node>, key: Bytes, v: Node, path: Path) {
    match Lookup(content, key)
    case None => AddsNothing(path + [key], v)
    case Some(d) => Fixed(lower, d, v, path + [key])
  }

  lemma {:induction false} SettledPairs(lower: Bytes -> Bytes, content: seq<Node>, s: Node, path: Path, k: nat)
    requires k <= Pairs(s.content)
    requires forall j | 0 <= j < k :: PairIsSettled(lower, content, KeyAt(s.content, j), ValueAt(s.content, j), path)
    ensures MergedPairs(lower, content, s, path, k) == content
    decreases k
  {
    hide Merged, AddsNothing, Pruned;
    if k > 0 {
      SettledPairs(lower, content, s, path, k - 1);
      var key, v := s.content[2 * k - 2], s.content[2 * k - 1];
      assert key.value == KeyAt(s.content, k - 1) && v == ValueAt(s.content, k - 1);
      assert PairIsSettled(lower, content, key.value, v, path);
    }
  }

  /** A tree that agrees with the configuration, its lists in place, is left alone by merging. */
  lemma {:induction false} SettledFile(lower: Bytes -> Bytes, d: Node, s: Node, path: Path)
    requires Generated(s) && NoBlankKeys(false, s) && Agrees(path, false, d, s) && InPlace(lower, d, s)
    ensures Merged(lower, d, s, path) == d
    decreases s, 2
  {
    match s.kind
    case Mapping => SettledMapping(lower, d, s, path, false);
    case Sequence => SettledSequence(lower, d, s, path);
    case Scalar =>
  }

  lemma {:induction false} SettledMapping(lower: Bytes -> Bytes, d: Node, s: Node, path: Path, element: bool)
    requires Generated(s) && NoBlankKeys(element, s) && Agrees(path, element, d, s) && InPlace(lower, d, s)
    requires s.kind == Mapping
    ensures Merged(lower, d, s, path) == d
    decreases s, 0
  {
    hide Generated, Agrees, InPlace, NoBlankKeys, MergedPairs, PairIsSettled;
    GeneratedMapping(s);
    AgreesMapping(path, element, d, s);
    var n := Pairs(s.content);
    forall j | 0 <= j < n
      ensures PairIsSettled(lower, d.content, KeyAt(s.content, j), ValueAt(s.content, j), path)
    {
      SettledPair(lower, d, s, path, element, j);
    }
    SettledPairs(lower, d.content, s, path, n);
  }

  lemma AgreesMapping(path: Path, element: bool, d: Node, s: Node)
    requires Agrees(path, element, d, s) && s.kind == Mapping
    ensures d.kind == Mapping && (element ==> NoStrayKeys(d.content, s.content))
    ensures forall j | 0 <= j < Pairs(s.content) ::
              EntryAgrees(path, element, Lookup(d.content, KeyAt(s.content, j)), KeyAt(s.content, j),
                  ValueAt(s.content, j))
  {
    hide EntryAgrees, Lookup, NoStrayKeys;
  }

  lemma {:induction false} SettledPair(lower: Bytes -> Bytes, d: Node, s: Node, path: Path, element: bool, j: nat)
    requires s.kind == Mapping && j < Pairs(s.content) && Generated(ValueAt(s.content, j))
    requires NoBlankKeys(element, s) && InPlace(lower, d, s)
    requires EntryAgrees(path, element, Lookup(d.content, KeyAt(s.content, j)), KeyAt(s.content, j),
              ValueAt(s.content, j))
    ensures PairIsSettled(lower, d.content, KeyAt(s.content, j), ValueAt(s.content, j), path)
    decreases ValueAt(s.content, j), 3
  {
    hide Generated, Agrees, Lookup, AddsNothing, SaysNothing, TrimSpace, Merged;
    var key, v := KeyAt(s.content, j), ValueAt(s.content, j);
    AddsNothingIff(path + [key], v);
    match Lookup(d.content, key)
    case None =>
    case Some(held) => SettledFile(lower, held, v, path + [key]);
  }

  lemma {:induction false} SettledSequence(lower: Bytes -> Bytes, d: Node, s: Node, path: Path)
    requires Generated(s) && NoBlankKeys(false, s) && Agrees(path, false, d, s) && InPlace(lower, d, s)
    requires s.kind == Sequence
    ensures Merged(lower, d, s, path) == d
    decreases s, 0
  {
    hide MergedElement, Chosen, PlaceKept;
    if !StaysNull(d, s) {
      MatchedInOrderIff(lower, d.content, s.content, |s.content|);
      forall i | 0 <= i < |s.content| ensures MergedElement(lower, d.content[i], s.content[i], path) == d.content[i] {
        SettledElement(lower, d.content[i], s.content[i], path);
      }
      assert Merged(lower, d, s, path).content == d.content;
    }
  }

  lemma {:induction false} SettledElement(lower: Bytes -> Bytes, d: Node, s: Node, path: Path)
    requires Generated(s) && NoBlankKeys(true, s) && Agrees(path, true, d, s) && InPlace(lower, d, s)
    ensures MergedElement(lower, d, s, path) == d
    decreases s, 3
  {
    hide Merged, OnlyKeysOf, Generated, InPlace;
    if s.kind == Mapping {
      SettledMapping(lower, d, s, path, true);
      SettledKeys(d, s);
    } else {
      SettledFile(lower, d, s, path);
    }
  }

  lemma SettledKeys(d: Node, s: Node)
    requires NoStrayKeys(d.content, s.content)
    requires forall j | 0 <= j < Pairs(s.content) :: TrimSpace(KeyAt(s.content, j)) != []
    ensures OnlyKeysOf(d, s) == d
  {
    hide TrimSpace;
    var keep, n := KeepSet(s.content), Pairs(d.content);
    forall i | 0 <= i < n ensures TrimSpace(KeyAt(d.content, i)) in keep {
      assert HasTrimmed(s.content, TrimSpace(KeyAt(d.content, i)));
    }
    KeptAll(d.content, keep, n);
    assert d.content[..2 * n] + d.content[2 * n..] == d.content;
  }

  /** The next save matches every list, at every depth, element by element in order. */
  ghost predicate NothingMoves(lower: Bytes -> Bytes, d: Node, s: Node)
    decreases s
  {
    match s.kind
    case Mapping =>
      forall j | 0 <= j < Pairs(s.content) && Lookup(d.content, KeyAt(s.content, j)).Some? ::
        NothingMoves(lower, Lookup(d.content, KeyAt(s.content, j)).value, ValueAt(s.content, j))
    case Sequence =>
      || StaysNull(d, s)
      || (&& |d.content| == |s.content|
          && InOrder(Chosen(lower, d.content, s.content, |s.content|))
          && (forall i | 0 <= i < |s.content| :: NothingMoves(lower, d.content[i], s.content[i])))
    case _ => true
  }

  lemma {:induction false} NothingMovesIff(lower: Bytes -> Bytes, d: Node, s: Node)
    ensures NothingMoves(lower, d, s) <==> InPlace(lower, d, s)
    decreases s
  {
    hide Chosen, PlaceKept, InOrder, Lookup;
    match s.kind
    case Mapping =>
      forall j | 0 <= j < Pairs(s.content) && Lookup(d.content, KeyAt(s.content, j)).Some?
        ensures NothingMoves(lower, Lookup(d.content, KeyAt(s.content, j)).value, ValueAt(s.content, j))
           <==> InPlace(lower, Lookup(d.content, KeyAt(s.content, j)).value, ValueAt(s.content, j))
      {
        NothingMovesIff(lower, Lookup(d.content, KeyAt(s.content, j)).value, ValueAt(s.content, j));
      }
    case Sequence =>
      if |d.content| == |s.content| {
        MatchedInOrderIff(lower, d.content, s.content, |s.content|);
        forall i | 0 <= i < |s.content|
          ensures NothingMoves(lower, d.content[i], s.content[i]) <==> InPlace(lower, d.content[i], s.content[i])
        {
          NothingMovesIff(lower, d.content[i], s.content[i]);
        }
      }
    case _ =>
  }

  /**
   * Whatever the file held: a second save changes nothing and moves no list element exactly when each
   * element the first save left can be told from those after it.
   */
  lemma SavedAgainIff(lower: Bytes -> Bytes, d: Node, s: Node, path: Path)
    requires Generated(s) && Parsed(d) && NoBlankKeys(false, s)
    ensures var once := Merged(lower, d, s, path);
            Merged(lower, once, s, path) == once && NothingMoves(lower, once, s) <==> InPlace(lower, once, s)
  {
    hide Merged, InPlace, NothingMoves, Agrees;
    var once := Merged(lower, d, s, path);
    MergedAgrees(lower, d, s, path);
    NothingMovesIff(lower, once, s);
    if InPlace(lower, once, s) {
      SettledFile(lower, once, s, path);
    }
  }

  // ---- configurations that settle at once ---------------------------------------------------------------

  predicate Folds(lower: Bytes -> Bytes, key: Bytes, name: Bytes) {
    lower(TrimSpace(key)) == lower(name)
  }

  /** At most one pair goes by this name, and its value is a scalar. */
  ghost predicate Sole(lower: Bytes -> Bytes, content: seq<Node>, name: Bytes) {
    && (forall i, j | 0 <= i < j < Pairs(content) && Folds(lower, KeyAt(content, i), name) ::
          !Folds(lower, KeyAt(content, j), name))
    && (forall i | 0 <= i < Pairs(content) && Folds(lower, KeyAt(content, i), name) ::
          ValueAt(content, i).kind == Scalar)
  }

  /** A list element is identified by its t-th identity key, whose value no merge leaves out. */
  ghost predicate Anchored(lower: Bytes -> Bytes, path: Path, content: seq<Node>, t: nat) {
    && IdentifiedByKey(lower, content, t)
    && (forall u | 0 <= u <= t :: Sole(lower, content, IDENTITY_KEYS[u]))
    && (forall j | 0 <= j < Pairs(content) && Folds(lower, KeyAt(content, j), IDENTITY_KEYS[t]) ::
          !SaysNothing(path + [KeyAt(content, j)], ValueAt(content, j)))
  }

  /** Every list element is a scalar or an anchored mapping. */
  ghost predicate Named(lower: Bytes -> Bytes, path: Path, s: Node)
    decreases s
  {
    match s.kind
    case Mapping =>
      forall j | 0 <= j < Pairs(s.content) :: Named(lower, path + [KeyAt(s.content, j)], ValueAt(s.content, j))
    case Sequence =>
      forall i | 0 <= i < |s.content| ::
        && (s.content[i].kind == Scalar
            || (s.content[i].kind == Mapping && exists t: nat :: Anchored(lower, path, s.content[i].content, t)))
        && Named(lower, path, s.content[i])
    case _ => true
  }

  /** Every key has a value, and no key begins or ends in white space. */
  ghost predicate Plain(n: Node) {
    && (n.kind == Mapping ==> |n.content| % 2 == 0 && PlainKeys(n.content))
    && (forall i | 0 <= i < |n.content| :: Plain(n.content[i]))
  }

  ghost predicate PlainKeys(content: seq<Node>) {
    forall j | 0 <= j < Pairs(content) :: TrimSpace(KeyAt(content, j)) == KeyAt(content, j)
  }

  // ---- an anchored element keeps its identity

  lemma {:induction false} NoneFolds(lower: Bytes -> Bytes, content: seq<Node>, name: Bytes, j: nat)
    requires forall i | j <= i < Pairs(content) :: !Folds(lower, KeyAt(content, i), name)
    ensures ScalarFrom(lower, content, name, j) == []
    decreases Pairs(content) - j
  {
    hide TrimSpace;
    if j < Pairs(content) {
      NoneFolds(lower, content, name, j + 1);
    }
  }

  lemma {:induction false} FirstFolds(lower: Bytes -> Bytes, content: seq<Node>, name: Bytes, j: nat, i: nat)
    requires j <= i < Pairs(content) && Folds(lower, KeyAt(content, i), name) && ValueAt(content, i).kind == Scalar
    requires forall m | j <= m < i :: !Folds(lower, KeyAt(content, m), name)
    ensures ScalarFrom(lower, content, name, j) == TrimSpace(ValueAt(content, i).value)
    decreases i - j
  {
    hide TrimSpace;
    if j < i {
      FirstFolds(lower, content, name, j + 1, i);
    }
  }

  ghost predicate SubKeys(d: seq<Node>, s: seq<Node>) {
    forall i | 0 <= i < Pairs(d) :: HasKey(s, KeyAt(d, i))
  }

  ghost predicate HasKey(content: seq<Node>, key: Bytes) {
    exists j | 0 <= j < Pairs(content) :: KeyAt(content, j) == key
  }

  lemma PlainSubKeys(d: seq<Node>, s: seq<Node>)
    requires NoStrayKeys(d, s) && PlainKeys(d) && PlainKeys(s)
    ensures SubKeys(d, s)
  {
    hide TrimSpace;
    forall i | 0 <= i < Pairs(d) ensures HasKey(s, KeyAt(d, i)) {
      assert HasTrimmed(s, TrimSpace(KeyAt(d, i)));
      var j :| 0 <= j < Pairs(s) && TrimSpace(KeyAt(s, j)) == TrimSpace(KeyAt(d, i));
      assert KeyAt(s, j) == KeyAt(d, i);
    }
  }

  /** Under a sole name the element holds what the configuration says, or nothing. */
  lemma SoleScalar(lower: Bytes -> Bytes, path: Path, d: Node, s: Node, name: Bytes)
    requires Agrees(path, true, d, s) && s.kind == Mapping && Sole(lower, s.content, name)
    requires SubKeys(d.content, s.content)
    ensures (forall i | 0 <= i < Pairs(s.content) :: !Folds(lower, KeyAt(s.content, i), name)) ==>
              ScalarFrom(lower, d.content, name, 0) == ScalarFrom(lower, s.content, name, 0) == []
    ensures forall i | 0 <= i < Pairs(s.content) && Folds(lower, KeyAt(s.content, i), name) ::
              ScalarFrom(lower, d.content, name, 0)
              == if Lookup(d.content, KeyAt(s.content, i)).Some? then ScalarFrom(lower, s.content, name, 0) else []
  {
    hide Agrees, TrimSpace, ScalarFrom, Lookup, EntryAgrees, Folds, SubKeys;
    AgreesMapping(path, true, d, s);
    if forall i | 0 <= i < Pairs(s.content) :: !Folds(lower, KeyAt(s.content, i), name) {
      SubKeysFold(lower, d.content, s.content, name);
      NoneFolds(lower, d.content, name, 0);
      NoneFolds(lower, s.content, name, 0);
    }
    forall i | 0 <= i < Pairs(s.content) && Folds(lower, KeyAt(s.content, i), name)
      ensures ScalarFrom(lower, d.content, name, 0)
           == if Lookup(d.content, KeyAt(s.content, i)).Some? then ScalarFrom(lower, s.content, name, 0) else []
    {
      FirstFolds(lower, s.content, name, 0, i);
      SoleKey(lower, d.content, s.content, name, i);
      SoleLookup(lower, path, d.content, s, name, i);
    }
  }

  lemma SubKeysFold(lower: Bytes -> Bytes, d: seq<Node>, s: seq<Node>, name: Bytes)
    requires SubKeys(d, s) && forall i | 0 <= i < Pairs(s) :: !Folds(lower, KeyAt(s, i), name)
    ensures forall i | 0 <= i < Pairs(d) :: !Folds(lower, KeyAt(d, i), name)
  {
    hide Folds;
    forall i | 0 <= i < Pairs(d) ensures !Folds(lower, KeyAt(d, i), name) {
      assert HasKey(s, KeyAt(d, i));
      var j :| 0 <= j < Pairs(s) && KeyAt(s, j) == KeyAt(d, i);
      assert !Folds(lower, KeyAt(s, j), name);
    }
  }

  lemma SoleKey(lower: Bytes -> Bytes, d: seq<Node>, s: seq<Node>, name: Bytes, i: nat)
    requires SubKeys(d, s) && Sole(lower, s, name) && i < Pairs(s) && Folds(lower, KeyAt(s, i), name)
    ensures forall m | 0 <= m < Pairs(d) :: Folds(lower, KeyAt(d, m), name) <==> KeyAt(d, m) == KeyAt(s, i)
  {
    hide Folds;
    forall m | 0 <= m < Pairs(d) ensures Folds(lower, KeyAt(d, m), name) <==> KeyAt(d, m) == KeyAt(s, i) {
      assert HasKey(s, KeyAt(d, m));
      var j :| 0 <= j < Pairs(s) && KeyAt(s, j) == KeyAt(d, m);
      if Folds(lower, KeyAt(d, m), name) {
        assert Folds(lower, KeyAt(s, j), name);
        assert !(i < j) && !(j < i);
      }
    }
  }

  lemma SoleLookup(lower: Bytes -> Bytes, path: Path, d: seq<Node>, s: Node, name: Bytes, i: nat)
    requires i < Pairs(s.content) && Folds(lower, KeyAt(s.content, i), name) && ValueAt(s.content, i).kind == Scalar
    requires forall m | 0 <= m < Pairs(d) :: Folds(lower, KeyAt(d, m), name) <==> KeyAt(d, m) == KeyAt(s.content, i)
    requires EntryAgrees(path, true, Lookup(d, KeyAt(s.content, i)), KeyAt(s.content, i), ValueAt(s.content, i))
    ensures ScalarFrom(lower, d, name, 0)
         == if Lookup(d, KeyAt(s.content, i)).Some? then TrimSpace(ValueAt(s.content, i).value) else []
  {
    hide TrimSpace, ScalarFrom, Folds, SaysNothing;
    var j := FindPair(d, KeyAt(s.content, i));
    if j >= 0 {
      FirstFolds(lower, d, name, 0, j);
    } else {
      NoneFolds(lower, d, name, 0);
    }
  }

  /** An anchored element that agrees, its keys plain, is identified as the configuration says. */
  lemma AnchoredIsIdentified(lower: Bytes -> Bytes, path: Path, d: Node, s: Node, t: nat)
    requires Agrees(path, true, d, s) && s.kind == Mapping && Anchored(lower, path, s.content, t)
    requires SubKeys(d.content, s.content)
    requires forall j | 0 <= j < Pairs(s.content) :: TrimSpace(KeyAt(s.content, j)) != []
    ensures Identified(lower, d, s)
  {
    hide Agrees, TrimSpace, ScalarFrom, Lookup, EntryAgrees, Folds, SubKeys, Sole, IdentityByKey, IdentityByPair;
    AgreesMapping(path, true, d, s);
    forall u | 0 <= u <= t
      ensures ScalarFrom(lower, d.content, IDENTITY_KEYS[u], 0) == ScalarFrom(lower, s.content, IDENTITY_KEYS[u], 0)
    {
      AnchoredScalar(lower, path, d, s, t, u);
    }
    FirstKeyFound(lower, d.content, t, 0);
    FirstKeyFound(lower, s.content, t, 0);
  }

  lemma AnchoredScalar(lower: Bytes -> Bytes, path: Path, d: Node, s: Node, t: nat, u: nat)
    requires Agrees(path, true, d, s) && s.kind == Mapping && Anchored(lower, path, s.content, t) && u <= t
    requires SubKeys(d.content, s.content)
    requires forall j | 0 <= j < Pairs(s.content) :: TrimSpace(KeyAt(s.content, j)) != []
    ensures ScalarFrom(lower, d.content, IDENTITY_KEYS[u], 0) == ScalarFrom(lower, s.content, IDENTITY_KEYS[u], 0)
  {
    hide Agrees, TrimSpace, ScalarFrom, Lookup, Folds, SubKeys, Sole, SaysNothing;
    AgreesMapping(path, true, d, s);
    SoleScalar(lower, path, d, s, IDENTITY_KEYS[u]);
    if i :| 0 <= i < Pairs(s.content) && Folds(lower, KeyAt(s.content, i), IDENTITY_KEYS[u]) {
      if u == t {
        assert EntryAgrees(path, true, Lookup(d.content, KeyAt(s.content, i)), KeyAt(s.content, i),
            ValueAt(s.content, i));
        assert !SaysNothing(path + [KeyAt(s.content, i)], ValueAt(s.content, i));
      }
    }
  }

  /** In a named configuration every list is in place once the file agrees with it. */
  lemma {:induction false} NamedIsInPlace(lower: Bytes -> Bytes, d: Node, s: Node, path: Path, element: bool)
    requires Agrees(path, element, d, s) && NoBlankKeys(element, s) && Named(lower, path, s) && Plain(d) && Plain(s)
    ensures InPlace(lower, d, s)
    decreases s
  {
    match s.kind
    case Mapping => NamedMapping(lower, d, s, path, element);
    case Sequence =>
      if !StaysNull(d, s) {
        forall i | 0 <= i < |s.content|
          ensures PlaceKept(lower, d.content, i, s.content[i]) && InPlace(lower, d.content[i], s.content[i])
        {
          NamedIsInPlace(lower, d.content[i], s.content[i], path, true);
          NamedElement(lower, d.content, i, s.content[i], path);
        }
      }
    case _ =>
  }

  lemma {:induction false} NamedMapping(lower: Bytes -> Bytes, d: Node, s: Node, path: Path, element: bool)
    requires Agrees(path, element, d, s) && NoBlankKeys(element, s) && Named(lower, path, s) && Plain(d) && Plain(s)
    requires s.kind == Mapping
    ensures InPlace(lower, d, s)
    decreases s, 0
  {
    hide Agrees, TrimSpace, Lookup, SaysNothing;
    AgreesMapping(path, element, d, s);
    forall j | 0 <= j < Pairs(s.content) && Lookup(d.content, KeyAt(s.content, j)).Some?
      ensures InPlace(lower, Lookup(d.content, KeyAt(s.content, j)).value, ValueAt(s.content, j))
    {
      var key, v := KeyAt(s.content, j), ValueAt(s.content, j);
      var held := Lookup(d.content, key).value;
      HeldIsPart(d.content, key);
      assert EntryAgrees(path, element, Some(held), key, v);
      assert Named(lower, path + [key], v) && NoBlankKeys(false, v) && Plain(v);
      NamedIsInPlace(lower, held, v, path + [key], false);
    }
  }

  lemma HeldIsPart(content: seq<Node>, key: Bytes)
    requires Lookup(content, key).Some?
    ensures exists i :: 0 <= i < |content| && Lookup(content, key).value == content[i]
  {
    var j := FindPair(content, key);
    assert Lookup(content, key).value == content[2 * j + 1];
  }

  lemma NamedElement(lower: Bytes -> Bytes, original: seq<Node>, k: nat, s: Node, path: Path)
    requires k < |original| && Agrees(path, true, original[k], s) && NoBlankKeys(true, s)
    requires Plain(original[k]) && Plain(s)
    requires s.kind == Scalar || (s.kind == Mapping && exists t: nat :: Anchored(lower, path, s.content, t))
    ensures PlaceKept(lower, original, k, s)
  {
    hide TrimSpace, Anchored, Identity;
    if s.kind == Mapping {
      hide Agrees, Identified, SameStructure;
      var t: nat :| Anchored(lower, path, s.content, t);
      AgreesMapping(path, true, original[k], s);
      PlainSubKeys(original[k].content, s.content);
      AnchoredIsIdentified(lower, path, original[k], s, t);
    }
  }

  // ---- keys stay plain

  lemma PlainPair(content: seq<Node>, key: Node, v: Node)
    requires |content| % 2 == 0 && PlainKeys(content) && TrimSpace(key.value) == key.value
    ensures |content + [key, v]| % 2 == 0 && PlainKeys(content + [key, v])
  {
    hide TrimSpace;
    AppendedLookup(content, key, v, key.value);
  }

  lemma PlainUpdate(content: seq<Node>, j: nat, v: Node)
    requires PlainKeys(content) && j < Pairs(content)
    ensures PlainKeys(content[2 * j + 1 := v])
  {
    hide TrimSpace;
    var c := content[2 * j + 1 := v];
    assert forall m | 0 <= m < Pairs(c) :: KeyAt(c, m) == KeyAt(content, m);
  }

  ghost predicate AllPlain(content: seq<Node>) {
    forall i | 0 <= i < |content| :: Plain(content[i])
  }

  lemma {:induction false} PrunedIsPlain(path: Path, n: Node)
    requires Plain(n)
    ensures Plain(Pruned(path, n))
    decreases n, 1
  {
    hide TrimSpace, PrunedPairs;
    match n.kind
    case Mapping => PrunedPairsPlain(path, n, Pairs(n.content));
    case Sequence =>
      forall i | 0 <= i < |n.content| ensures Plain(Pruned(path, n.content[i])) {
        PrunedIsPlain(path, n.content[i]);
      }
    case _ =>
  }

  lemma {:induction false} PrunedPairsPlain(path: Path, n: Node, k: nat)
    requires Plain(n) && n.kind == Mapping && k <= Pairs(n.content)
    ensures var c := PrunedPairs(path, n, k); |c| % 2 == 0 && PlainKeys(c) && AllPlain(c)
    decreases n, 0, k
  {
    hide TrimSpace, Pruned, StaysOut, PlainKeys;
    if k == 0 {
      NothingIsPlain();
    } else {
      PrunedPairsPlain(path, n, k - 1);
      var key, v := n.content[2 * k - 2], n.content[2 * k - 1];
      KeyIsPlain(n.content, k - 1);
      PrunedIsPlain(path + [key.value], v);
      PlainPair(PrunedPairs(path, n, k - 1), key, Pruned(path + [key.value], v));
    }
  }

  lemma NothingIsPlain()
    ensures PlainKeys([]) && AllPlain([])
  {
  }

  lemma KeyIsPlain(content: seq<Node>, j: nat)
    requires PlainKeys(content) && j < Pairs(content)
    ensures TrimSpace(content[2 * j].value) == content[2 * j].value
  {
    hide TrimSpace;
    assert KeyAt(content, j) == content[2 * j].value;
  }

  /** Merging brings in no key that was in neither tree. */
  lemma {:induction false} MergedIsPlain(lower: Bytes -> Bytes, d: Node, s: Node, path: Path)
    requires Plain(d) && Plain(s)
    ensures Plain(Merged(lower, d, s, path))
    decreases s, 2
  {
    hide TrimSpace, MergedPairs, MergedElement, Chosen, PlainKeys;
    match s.kind
    case Mapping => MergedPairsPlain(lower, MappingBase(d, s).content, s, path, Pairs(s.content));
    case Sequence =>
      if !StaysNull(d, s) {
        var base := SequenceBase(d).content;
        var chosen := Chosen(lower, base, s.content, |s.content|);
        forall i | 0 <= i < |s.content| && chosen[i] >= 0
          ensures Plain(MergedElement(lower, base[chosen[i]], s.content[i], path))
        {
          ElementIsPlain(lower, base[chosen[i]], s.content[i], path);
        }
      }
    case _ =>
  }

  lemma {:induction false} MergedPairsPlain(lower: Bytes -> Bytes, content: seq<Node>, s: Node, path: Path, k: nat)
    requires |content| % 2 == 0 && PlainKeys(content) && AllPlain(content)
    requires Plain(s) && s.kind == Mapping && k <= Pairs(s.content)
    ensures var c := MergedPairs(lower, content, s, path, k); |c| % 2 == 0 && PlainKeys(c) && AllPlain(c)
    decreases s, 0, k
  {
    hide TrimSpace, Merged, Pruned, FindPair, AddsNothing, PlainKeys;
    if k > 0 {
      MergedPairsPlain(lower, content, s, path, k - 1);
      var front := MergedPairs(lower, content, s, path, k - 1);
      var key, v := s.content[2 * k - 2], s.content[2 * k - 1];
      KeyIsPlain(s.content, k - 1);
      var j := FindPair(front, key.value);
      if j >= 0 {
        MergedIsPlain(lower, front[2 * j + 1], v, path + [key.value]);
        PlainUpdate(front, j, Merged(lower, front[2 * j + 1], v, path + [key.value]));
      } else {
        PrunedIsPlain(path + [key.value], v);
        PlainPair(front, key, Pruned(path + [key.value], v));
      }
    }
  }

  lemma {:induction false} ElementIsPlain(lower: Bytes -> Bytes, d: Node, s: Node, path: Path)
    requires Plain(d) && Plain(s)
    ensures Plain(MergedElement(lower, d, s, path))
    decreases s, 3
  {
    hide TrimSpace, Merged, PlainKeys, KeptPairs;
    MergedIsPlain(lower, d, s, path);
    var m := Merged(lower, d, s, path);
    if m.kind == Mapping && s.kind == Mapping {
      KeptIsPlain(m.content, KeepSet(s.content), Pairs(m.content));
      var kept := KeptPairs(m.content, KeepSet(s.content), Pairs(m.content));
      assert m.content[2 * Pairs(m.content)..] == [] && kept + [] == kept;
    }
  }

  lemma {:induction false} KeptIsPlain(content: seq<Node>, keep: set<Bytes>, k: nat)
    requires PlainKeys(content) && AllPlain(content) && k <= Pairs(content)
    ensures var c := KeptPairs(content, keep, k); |c| % 2 == 0 && PlainKeys(c) && AllPlain(c)
    decreases k
  {
    hide TrimSpace, PlainKeys;
    if k == 0 {
      NothingIsPlain();
    } else {
      KeptIsPlain(content, keep, k - 1);
      KeyIsPlain(content, k - 1);
      PlainPair(KeptPairs(content, keep, k - 1), content[2 * k - 2], content[2 * k - 1]);
    }
  }

  lemma {:induction false} PlainIsParsed(n: Node)
    requires Plain(n)
    ensures Parsed(n)
    decreases n
  {
    hide TrimSpace, PlainKeys;
    forall i | 0 <= i < |n.content| ensures Parsed(n.content[i]) {
      PlainIsParsed(n.content[i]);
    }
  }

  /**
   * Saving twice is saving once for every file with plain keys, when each list element of the configuration
   * is a scalar or is identified by a value that no merge leaves out, and none has a blank key.
   */
  lemma SavingTwice(lower: Bytes -> Bytes, d: Node, s: Node, path: Path)
    requires Generated(s) && NoBlankKeys(false, s) && Named(lower, path, s) && Plain(s) && Plain(d)
    ensures Merged(lower, Merged(lower, d, s, path), s, path) == Merged(lower, d, s, path)
  {
    hide Merged, InPlace, Agrees, Named, NoBlankKeys, Plain, Generated;
    PlainIsParsed(d);
    MergedAgrees(lower, d, s, path);
    MergedIsPlain(lower, d, s, path);
    NamedIsInPlace(lower, Merged(lower, d, s, path), s, path, false);
    SavedAgainIff(lower, d, s, path);
  }

  // ---- a configuration that takes two saves -------------------------------------------------------------

  const RULES: Node := Node(Scalar, TAG_STR, Ascii("rules"), [], [])
  const ID_KEY: Node := Node(Scalar, TAG_STR, Ascii("id"), [], [])
  const NAME_KEY: Node := Node(Scalar, TAG_STR, Ascii("name"), [], [])
  const ZERO: Node := Node(Scalar, TAG_INT, Ascii("0"), [], [])
  const X: Node := Node(Scalar, TAG_STR, Ascii("x"), [], [])

  function MapOf(content: seq<Node>): Node {
    Node(Mapping, Ascii("!!map"), [], [], content)
  }

  function RulesOf(rule: Node): Node {
    MapOf([RULES, ListOf(rule)])
  }

  function FullRule(): Node {
    MapOf([ID_KEY, ZERO, NAME_KEY, X])
  }

  function ShortRule(): Node {
    MapOf([NAME_KEY, X])
  }

  /**
   * Without the condition a second save may differ: a new list element loses an identity key of default
   * value to pruning, is not recognized by the next save, and is replaced by the full one.
   */
  lemma DefaultIdentityTakesTwo(lower: Bytes -> Bytes)
    ensures Generated(RulesOf(FullRule())) && NoBlankKeys(false, RulesOf(FullRule()))
    ensures Merged(lower, MapOf([]), RulesOf(FullRule()), []) == RulesOf(ShortRule())
    ensures Merged(lower, RulesOf(ShortRule()), RulesOf(FullRule()), []) == RulesOf(FullRule()) != RulesOf(ShortRule())
  {
    var full, short := RulesOf(FullRule()), RulesOf(ShortRule());
    RulesAreGenerated();
    FirstSave();
    SecondSave(lower);
    hide Pruned, Merged, AddsNothing;
    assert Pairs(full.content) == 1 && full.content[0] == RULES && full.content[1] == ListOf(FullRule());
    assert [] + [RULES.value] == [RULES.value];
    OnePair(lower, [], full);
    assert FindPair([], RULES.value) == -1;
    assert [] + [RULES, ListOf(ShortRule())] == [RULES, ListOf(ShortRule())];
    OnePair(lower, short.content, full);
    assert FindPair(short.content, RULES.value) == 0 by {
      assert KeyAt(short.content, 0) == RULES.value;
    }
    MergedMaps(lower, MapOf([]), full);
    MergedMaps(lower, short, full);
  }

  lemma MergedMaps(lower: Bytes -> Bytes, d: Node, s: Node)
    requires d.kind == Mapping && s.kind == Mapping
    ensures Merged(lower, d, s, []) == d.(content := MergedPairs(lower, d.content, s, [], Pairs(s.content)))
  {
    hide MergedPairs;
  }

  lemma OnePair(lower: Bytes -> Bytes, content: seq<Node>, s: Node)
    requires Pairs(s.content) == 1
    ensures MergedPairs(lower, content, s, [], 1) == MergedPair(lower, content, s.content[0], s.content[1], [])
  {
    hide MergedPair;
    assert MergedPairs(lower, content, s, [], 0) == content;
  }

  lemma RulesAreGenerated()
    ensures Generated(RulesOf(FullRule())) && NoBlankKeys(false, RulesOf(FullRule()))
    ensures RulesOf(FullRule()) != RulesOf(ShortRule())
  {
    hide TrimSpace, FullRule, ShortRule;
    RuleIsGenerated();
    ListIsGenerated(FullRule());
    var full, short := RulesOf(FullRule()), RulesOf(ShortRule());
    assert Pairs(full.content) == 1 && ValueAt(full.content, 0) == ListOf(FullRule());
    assert full.content[1].content[0] == FullRule() && short.content[1].content[0] == ShortRule();
    RulesDiffer();
  }

  lemma ListIsGenerated(rule: Node)
    requires Generated(rule) && NoBlankKeys(true, rule)
    ensures Generated(ListOf(rule)) && NoBlankKeys(false, ListOf(rule))
  {
    hide TrimSpace;
  }

  lemma RulesDiffer()
    ensures FullRule() != ShortRule()
  {
    assert |FullRule().content| != |ShortRule().content|;
  }

  lemma RuleIsGenerated()
    ensures Generated(FullRule()) && NoBlankKeys(true, FullRule())
  {
    hide TrimSpace;
    var content := FullRule().content;
    NothingToTrim(ID_KEY.value);
    NothingToTrim(NAME_KEY.value);
    assert Pairs(content) == 2 && KeyAt(content, 0) == ID_KEY.value && KeyAt(content, 1) == NAME_KEY.value;
    assert ValueAt(content, 0) == ZERO && ValueAt(content, 1) == X;
    assert |ID_KEY.value| == 2 && |NAME_KEY.value| == 4;
  }

  lemma NothingToTrim(s: Bytes)
    requires s != [] && 33 <= s[0] < 127 && 33 <= s[|s| - 1] < 127
    ensures TrimSpace(s) == s
  {
    assert SpaceAtEnd(s) == 0 && SpaceAtStart(s) == 0;
  }

  lemma FirstSave()
    ensures Pruned([RULES.value], ListOf(FullRule())) == ListOf(ShortRule())
    ensures !AddsNothing([RULES.value], ListOf(FullRule()))
  {
    ListPruned([RULES.value]);
    ShortIsWorthAdding();
    hide Pruned, FullRule, IsZero;
    assert !IsDefault([RULES.value], ListOf(ShortRule()));
  }

  lemma ListPruned(path: Path)
    requires path == [RULES.value]
    ensures Pruned(path, ListOf(FullRule())) == ListOf(ShortRule())
  {
    hide PrunedPairs, FullRule, ShortRule;
    RulePruned();
    assert Pruned(path, ListOf(FullRule())).content == [ShortRule()];
  }

  lemma ShortIsWorthAdding()
    ensures !IsZero(ListOf(ShortRule()))
  {
    assert ValueAt(ShortRule().content, 0) == X;
    NameStays([]);
    assert !IsZero(ShortRule());
    assert ListOf(ShortRule()).content[0] == ShortRule();
  }

  lemma RulePruned()
    ensures Pruned([RULES.value], FullRule()) == ShortRule()
  {
    var rule := FullRule();
    var path := [RULES.value];
    assert |WEIGHT| == 6 && |ID_KEY.value| == 2;
    assert (path + [ID_KEY.value])[1] == ID_KEY.value;
    assert IsZero(ZERO);
    assert StaysOut(path + [ID_KEY.value], ZERO);
    assert PrunedPairs(path, rule, 0) == [];
    assert PrunedPairs(path, rule, 1) == [];
    NameStays(path + [NAME_KEY.value]);
    assert PrunedPairs(path, rule, 2) == [NAME_KEY, X];
  }

  lemma NameStays(path: Path)
    ensures !StaysOut(path, X) && Pruned(path, X) == X
  {
    assert |X.value| == 1 && |DEFAULT_PPROF_ADDR| > 1 && |DEFAULT_PANEL_REPOSITORY| > 1;
    assert |DEFAULT_PLUGINS_DIR| > 1 && |DEFAULT_STRATEGY| > 1;
    assert TAG_STR != TAG_INT by {
      assert TAG_STR[2] != TAG_INT[2];
    }
  }

  lemma SecondSave(lower: Bytes -> Bytes)
    ensures Merged(lower, ListOf(ShortRule()), ListOf(FullRule()), [RULES.value]) == ListOf(FullRule())
  {
    hide Identified, SameStructure;
    NotRecognized(lower);
    var original, targets := [ShortRule()], [FullRule()];
    assert Matched(lower, original, [], FullRule()) == -1;
    assert Chosen(lower, original, targets, 0) == [];
    assert Chosen(lower, original, targets, 1) == [-1];
  }

  lemma NotRecognized(lower: Bytes -> Bytes)
    ensures !Identified(lower, ShortRule(), FullRule()) && !SameStructure(ShortRule(), FullRule())
  {
    hide IdentityByKey, IdentityByPair, TrimSpace;
    NothingToTrim(ZERO.value);
    var full := FullRule().content;
    assert KeyAt(full, 0) == ID_KEY.value == IDENTITY_KEYS[0] && ValueAt(full, 0) == ZERO;
    NothingToTrim(ID_KEY.value);
    assert ScalarFrom(lower, full, IDENTITY_KEYS[0], 0) == ZERO.value;
    assert IdentifiedByKey(lower, full, 0);
    FirstKeyFound(lower, full, 0, 0);
    assert IDENTITY_KEYS[0] + EQUALS + ZERO.value != [];
    ShortIdentity(lower);
    var id := Identity(lower, full);
    assert id[|id| - 1] == ZERO.value[0] != X.value[0];
  }

  /** Whichever key identifies the short rule, the identity ends in its only value. */
  lemma ShortIdentity(lower: Bytes -> Bytes)
    ensures var id := Identity(lower, ShortRule().content); id != [] && id[|id| - 1] == X.value[0]
  {
    hide TrimSpace;
    var short := ShortRule().content;
    NothingToTrim(X.value);
    assert Pairs(short) == 1 && ValueAt(short, 0) == X;
    ShortByKey(lower, 0);
  }

  lemma {:induction false} ShortByKey(lower: Bytes -> Bytes, k: nat)
    ensures var id := IdentityByKey(lower, ShortRule().content, k); id != [] ==> id[|id| - 1] == X.value[0]
    decreases |IDENTITY_KEYS| - k
  {
    hide TrimSpace;
    if k < |IDENTITY_KEYS| {
      ShortByKey(lower, k + 1);
      var short := ShortRule().content;
      NothingToTrim(X.value);
      assert Pairs(short) == 1 && ValueAt(short, 0) == X;
      assert ScalarFrom(lower, short, IDENTITY_KEYS[k], 1) == [];
    }
  }
}
