/** Lists under merging, and saving a configuration the file already holds: internal/config/config_yaml.go. */
module YamlUnchanged {
  import opened ByteStrings
  import opened YamlNodes
  import opened YamlMerge
  import opened YamlDefaults
  import opened YamlAgreement

  predicate IsMatch(lower: Bytes -> Bytes, was: Node, target: Node) {
    Identified(lower, was, target) || SameStructure(was, target)
  }

  /**
   * No old element is reused twice; a reused one carries the identity of the new one or its structure; and
   * a new element goes without only when every old one is taken before or has neither.
   */
  lemma {:induction false} EachElementOnce(lower: Bytes -> Bytes, original: seq<Node>, targets: seq<Node>, k: nat,
      i: nat)
    requires i < k <= |targets|
    ensures var chosen := Chosen(lower, original, targets, k);
            && (forall j | i < j < k :: chosen[i] < 0 || chosen[i] != chosen[j])
            && (chosen[i] >= 0 ==> IsMatch(lower, original[chosen[i]], targets[i]))
            && (forall m | 0 <= m < |original| && chosen[i] < 0 && m !in chosen[..i] ::
                  !IsMatch(lower, original[m], targets[i]))
    decreases k
  {
    hide Identified, SameStructure;
    var front := Chosen(lower, original, targets, k - 1);
    var chosen := Chosen(lower, original, targets, k);
    assert chosen[..k - 1] == front;
    if i < k - 1 {
      EachElementOnce(lower, original, targets, k - 1, i);
      assert chosen[i] == front[i] && chosen[..i] == front[..i];
    }
  }

  /** The file already holds what the configuration says, whatever its comments. */
  ghost predicate SameContent(d: Node, s: Node) {
    && d.kind == s.kind
    && d.value == s.value
    && (d.kind == Scalar ==> d.tag == s.tag)
    && |d.content| == |s.content|
    && (forall i | 0 <= i < |d.content| :: SameContent(d.content[i], s.content[i]))
  }

  /** No mapping that is a list element has a blank key. */
  ghost predicate NoBlankKeys(element: bool, s: Node)
    decreases s
  {
    match s.kind
    case Mapping =>
      && (element ==> forall j | 0 <= j < Pairs(s.content) :: TrimSpace(KeyAt(s.content, j)) != [])
      && (forall j | 0 <= j < Pairs(s.content) :: NoBlankKeys(false, ValueAt(s.content, j)))
    case Sequence => forall i | 0 <= i < |s.content| :: NoBlankKeys(true, s.content[i])
    case _ => true
  }

  lemma {:induction false} SameContentSameStructure(d: Node, s: Node)
    requires SameContent(d, s)
    ensures SameStructure(d, s)
    decreases d
  {
    forall i | 0 <= i < |d.content| ensures SameStructure(d.content[i], s.content[i]) {
      SameContentSameStructure(d.content[i], s.content[i]);
    }
  }

  ghost predicate SamePairs(d: seq<Node>, s: seq<Node>) {
    && Pairs(d) == Pairs(s)
    && (forall j | 0 <= j < Pairs(d) :: KeyAt(d, j) == KeyAt(s, j) && SameContent(ValueAt(d, j), ValueAt(s, j)))
  }

  lemma PairsOfSameContent(d: Node, s: Node)
    requires SameContent(d, s)
    ensures SamePairs(d.content, s.content)
  {
  }

  lemma {:induction false} SameScalarFrom(lower: Bytes -> Bytes, d: seq<Node>, s: seq<Node>, key: Bytes, j: nat)
    requires SamePairs(d, s)
    ensures ScalarFrom(lower, d, key, j) == ScalarFrom(lower, s, key, j)
    decreases Pairs(d) - j
  {
    hide TrimSpace;
    if j < Pairs(d) {
      SameScalarFrom(lower, d, s, key, j + 1);
    }
  }

  lemma {:induction false} SameIdentityByKey(lower: Bytes -> Bytes, d: seq<Node>, s: seq<Node>, k: nat)
    requires SamePairs(d, s)
    ensures IdentityByKey(lower, d, k) == IdentityByKey(lower, s, k)
    decreases |IDENTITY_KEYS| - k
  {
    hide ScalarFrom;
    if k < |IDENTITY_KEYS| {
      SameScalarFrom(lower, d, s, IDENTITY_KEYS[k], 0);
      SameIdentityByKey(lower, d, s, k + 1);
    }
  }

  lemma {:induction false} SameIdentityByPair(lower: Bytes -> Bytes, d: seq<Node>, s: seq<Node>, j: nat)
    requires SamePairs(d, s)
    ensures IdentityByPair(lower, d, j) == IdentityByPair(lower, s, j)
    decreases Pairs(d) - j
  {
    hide TrimSpace;
    if j < Pairs(d) {
      SameIdentityByPair(lower, d, s, j + 1);
    }
  }

  lemma SameIdentity(lower: Bytes -> Bytes, d: Node, s: Node)
    requires SameContent(d, s)
    ensures Identity(lower, d.content) == Identity(lower, s.content)
  {
    hide IdentityByKey, IdentityByPair;
    PairsOfSameContent(d, s);
    SameIdentityByKey(lower, d.content, s.content, 0);
    SameIdentityByPair(lower, d.content, s.content, 0);
  }

  /** An element carries the target's identity or none does, when the element says the same as the target. */
  lemma IdentifiedBySame(lower: Bytes -> Bytes, was: Node, d: Node, s: Node)
    requires SameContent(d, s)
    ensures Identified(lower, was, s) ==> Identified(lower, d, s)
  {
    hide Identity, TrimSpace;
    SameIdentity(lower, d, s);
  }

  lemma InIota(front: seq<int>)
    requires front == seq(|front|, i => i)
    ensures |front| !in front && forall m | 0 <= m < |front| :: m in front
  {
    assert forall m | 0 <= m < |front| :: front[m] == m;
    forall m | 0 <= m < |front| ensures m in front {
      assert front[m] == m;
    }
  }

  /** Each element of a list the file already holds is matched with itself. */
  lemma {:induction false} ChosenInPlace(lower: Bytes -> Bytes, d: seq<Node>, s: seq<Node>, k: nat)
    requires |d| == |s| && forall i | 0 <= i < |d| :: SameContent(d[i], s[i])
    requires k <= |s|
    ensures Chosen(lower, d, s, k) == seq(k, i => i)
    decreases k
  {
    hide Matched, SameContent;
    if k > 0 {
      ChosenInPlace(lower, d, s, k - 1);
      InIota(Chosen(lower, d, s, k - 1));
      MatchedWithItself(lower, d, Chosen(lower, d, s, k - 1), s[k - 1], k - 1);
    }
  }

  lemma MatchedWithItself(lower: Bytes -> Bytes, d: seq<Node>, taken: seq<int>, target: Node, k: nat)
    requires k < |d| && k !in taken && forall m | 0 <= m < k :: m in taken
    requires SameContent(d[k], target)
    ensures Matched(lower, d, taken, target) == k
  {
    hide Identified, SameStructure, SameContent, Matched;
    SameContentSameStructure(d[k], target);
    forall m | 0 <= m < |d| ensures Identified(lower, d[m], target) ==> Identified(lower, d[k], target) {
      IdentifiedBySame(lower, d[m], d[k], target);
    }
    MatchedInPlace(lower, d, taken, target, k);
  }

  lemma MatchedInPlace(lower: Bytes -> Bytes, d: seq<Node>, taken: seq<int>, target: Node, k: nat)
    requires k < |d| && k !in taken && forall m | 0 <= m < k :: m in taken
    requires SameStructure(d[k], target)
    requires forall m | 0 <= m < |d| :: Identified(lower, d[m], target) ==> Identified(lower, d[k], target)
    ensures Matched(lower, d, taken, target) == k
  {
    hide Identified, SameStructure;
    var identified := FirstWhere(d, taken, n => Identified(lower, n, target), 0);
    if identified >= 0 {
      assert Identified(lower, d[identified], target);
    }
  }

  // ---- nothing to save ----------------------------------------------------------------------------------

  lemma {:induction false} KeptAll(content: seq<Node>, keep: set<Bytes>, k: nat)
    requires k <= Pairs(content)
    ensures |KeptPairs(content, keep, k)| == 2 * k <==> forall j | 0 <= j < k :: TrimSpace(KeyAt(content, j)) in keep
    ensures |KeptPairs(content, keep, k)| == 2 * k ==> KeptPairs(content, keep, k) == content[..2 * k]
    decreases k
  {
    hide TrimSpace;
    if k > 0 {
      KeptAll(content, keep, k - 1);
      assert content[..2 * k] == content[..2 * (k - 1)] + [content[2 * k - 2], content[2 * k - 1]];
    }
  }

  /** Keeping only the generated keys changes nothing exactly when none of them is blank. */
  lemma OnlyKeysUnchanged(d: Node, s: Node)
    requires Pairs(d.content) == Pairs(s.content) && |d.content| % 2 == 0
    requires forall j | 0 <= j < Pairs(d.content) :: KeyAt(d.content, j) == KeyAt(s.content, j)
    ensures |OnlyKeysOf(d, s).content| == |d.content| <==>
            forall j | 0 <= j < Pairs(s.content) :: TrimSpace(KeyAt(s.content, j)) != []
    ensures |OnlyKeysOf(d, s).content| == |d.content| ==> OnlyKeysOf(d, s) == d
  {
    hide TrimSpace;
    var n := Pairs(d.content);
    var keep := KeepSet(s.content);
    KeptAll(d.content, keep, n);
    forall j | 0 <= j < n
      ensures TrimSpace(KeyAt(d.content, j)) in keep <==> TrimSpace(KeyAt(s.content, j)) != []
    {
      assert KeyAt(d.content, j) == KeyAt(s.content, j);
    }
    assert d.content[2 * n..] == [] && d.content[..2 * n] == d.content;
  }

  /** A value that merging leaves alone. */
  ghost predicate Fixed(lower: Bytes -> Bytes, d: Node, s: Node, path: Path) {
    Merged(lower, d, s, path) == d
  }

  lemma SameKeysDistinct(content: seq<Node>, s: seq<Node>)
    requires DistinctKeys(s) && SamePairs(content, s)
    ensures DistinctKeys(content)
  {
    hide SameContent;
  }

  lemma {:induction false} FixedPairs(lower: Bytes -> Bytes, content: seq<Node>, s: Node, path: Path, k: nat)
    requires k <= Pairs(s.content) && DistinctKeys(s.content) && SamePairs(content, s.content)
    requires forall j | 0 <= j < k ::
               Fixed(lower, ValueAt(content, j), ValueAt(s.content, j), path + [KeyAt(s.content, j)])
    ensures MergedPairs(lower, content, s, path, k) == content
    decreases k
  {
    hide Merged, SameContent, FindPair, Lookup, DistinctKeys, Pruned, AddsNothing;
    if k > 0 {
      FixedPairs(lower, content, s, path, k - 1);
      SameKeysDistinct(content, s.content);
      LookupAt(content, k - 1);
      assert KeyAt(content, k - 1) == KeyAt(s.content, k - 1);
      assert content[2 * k - 1] == ValueAt(content, k - 1);
    }
  }

  /** Merging a configuration into a file that already holds it changes no node, given no blank list keys. */
  lemma {:induction false} UnchangedFile(lower: Bytes -> Bytes, d: Node, s: Node, path: Path)
    requires Generated(s) && SameContent(d, s)
    ensures Merged(lower, d, s, path) == d <==> NoBlankKeys(false, s)
    decreases s, 2
  {
    match s.kind
    case Mapping => UnchangedMapping(lower, d, s, path);
    case Sequence => UnchangedSequence(lower, d, s, path);
    case Scalar =>
  }

  /** A list element that has one pair, with the empty key: a rule such as `"": x` in a list of matches. */
  function BlankRule(content: seq<Node>): Node {
    Node(Mapping, Ascii("!!map"), [], [], content)
  }

  function BlankPair(): seq<Node> {
    [Node(Scalar, TAG_STR, [], [], []), Node(Scalar, TAG_STR, Ascii("x"), [], [])]
  }

  function ListOf(element: Node): Node {
    Node(Sequence, TAG_SEQ, [], [], [element])
  }

  /** Such a list is not kept: saving the very configuration that was loaded drops the pair. */
  lemma BlankKeyIsLost(lower: Bytes -> Bytes, path: Path)
    ensures var list := ListOf(BlankRule(BlankPair()));
            && Generated(list) && SameContent(list, list)
            && Merged(lower, list, list, path) == ListOf(BlankRule([])) != list
  {
    hide Identified, SameStructure, TrimSpace, MergedElement, BlankPair;
    var rule := BlankRule(BlankPair());
    BlankListIsGenerated();
    SameAsItself(rule);
    MatchedWithItself(lower, [rule], [], rule, 0);
    OneChosen(lower, rule);
    BlankRuleMerged(lower, path);
  }

  lemma BlankListIsGenerated()
    ensures var list := ListOf(BlankRule(BlankPair()));
            Generated(list) && SameContent(list, list) && BlankPair() != []
  {
    SameAsItself(ListOf(BlankRule(BlankPair())));
  }

  lemma OneChosen(lower: Bytes -> Bytes, rule: Node)
    requires Matched(lower, [rule], [], rule) == 0
    ensures Chosen(lower, [rule], [rule], 1) == [0]
  {
    hide Matched;
    assert Chosen(lower, [rule], [rule], 0) == [];
  }

  lemma SameAsItself(s: Node)
    ensures SameContent(s, s)
  {
  }

  lemma BlankRuleMerged(lower: Bytes -> Bytes, path: Path)
    ensures MergedElement(lower, BlankRule(BlankPair()), BlankRule(BlankPair()), path) == BlankRule([])
  {
    var rule := BlankRule(BlankPair());
    var key := rule.content[0];
    assert Pairs(rule.content) == 1 && KeyAt(rule.content, 0) == [];
    assert FindPair(rule.content, key.value) == 0;
    assert MergedPairs(lower, rule.content, rule, path, 0) == rule.content;
    assert MergedPair(lower, rule.content, key, rule.content[1], path) == rule.content;
    assert MergedPairs(lower, rule.content, rule, path, 1) == rule.content;
    assert Merged(lower, rule, rule, path) == rule;
    assert TrimSpace([]) == [];
    assert KeepSet(rule.content) == {};
    assert KeptPairs(rule.content, {}, 0) == [];
    assert KeptPairs(rule.content, {}, 1) == [];
    assert rule.content[2..] == [];
    assert OnlyKeysOf(rule, rule).content == [];
  }

  lemma {:induction false} UnchangedMapping(lower: Bytes -> Bytes, d: Node, s: Node, path: Path)
    requires Generated(s) && SameContent(d, s) && s.kind == Mapping
    ensures Merged(lower, d, s, path) == d <==> NoBlankKeys(false, s)
    ensures Pairs(Merged(lower, d, s, path).content) == Pairs(s.content)
    ensures |Merged(lower, d, s, path).content| % 2 == 0 && Merged(lower, d, s, path).kind == Mapping
    ensures forall j | 0 <= j < Pairs(s.content) :: KeyAt(Merged(lower, d, s, path).content, j) == KeyAt(s.content, j)
    decreases s, 0
  {
    hide MergedPairs, Generated, SameContent, SaysNothing;
    GeneratedMapping(s);
    PairsOfSameContent(d, s);
    SameShape(d, s);
    var n := Pairs(s.content);
    var after := MergedPairs(lower, d.content, s, path, n);
    forall j | 0 <= j < n
      ensures Fixed(lower, ValueAt(d.content, j), ValueAt(s.content, j), path + [KeyAt(s.content, j)])
         <==> NoBlankKeys(false, ValueAt(s.content, j))
    {
      UnchangedFile(lower, ValueAt(d.content, j), ValueAt(s.content, j), path + [KeyAt(s.content, j)]);
    }
    if forall j | 0 <= j < n ::
      Fixed(lower, ValueAt(d.content, j), ValueAt(s.content, j), path + [KeyAt(s.content, j)])
    {
      FixedPairs(lower, d.content, s, path, n);
    }
    forall j | 0 <= j < n && after == d.content
      ensures Fixed(lower, ValueAt(d.content, j), ValueAt(s.content, j), path + [KeyAt(s.content, j)])
    {
      SameKeysDistinct(d.content, s.content);
      LookupAt(d.content, j);
      MergedLookup(lower, d.content, s, path, n, KeyAt(s.content, j));
    }
    SameKeysAfter(lower, d, s, path);
  }

  lemma SameShape(d: Node, s: Node)
    requires SameContent(d, s)
    ensures d.kind == s.kind && |d.content| == |s.content|
    ensures forall i | 0 <= i < |d.content| :: SameContent(d.content[i], s.content[i])
  {
  }

  lemma SameKeysAfter(lower: Bytes -> Bytes, d: Node, s: Node, path: Path)
    requires DistinctKeys(s.content) && |d.content| % 2 == 0 && SamePairs(d.content, s.content)
    ensures var after := MergedPairs(lower, d.content, s, path, Pairs(s.content));
            && |after| % 2 == 0 && Pairs(after) == Pairs(s.content)
            && (forall j | 0 <= j < Pairs(s.content) :: KeyAt(after, j) == KeyAt(s.content, j))
  {
    hide MergedPairs, SameContent, SaysNothing, MergedEntry;
    var n := Pairs(s.content);
    var after := MergedPairs(lower, d.content, s, path, n);
    MergedKeys(lower, d.content, s, path, n);
    MergedLookup(lower, d.content, s, path, n, []);
    NothingAdded(d.content, s, path, n);
    assert |Keys(after)| == |Keys(d.content)|;
    forall j | 0 <= j < n ensures KeyAt(after, j) == KeyAt(s.content, j) {
      assert Keys(after)[j] == Keys(d.content)[j];
      assert KeyAt(d.content, j) == KeyAt(s.content, j);
    }
  }

  lemma {:induction false} NothingAdded(content: seq<Node>, s: Node, path: Path, k: nat)
    requires k <= Pairs(s.content) && DistinctKeys(s.content) && SamePairs(content, s.content)
    ensures AddedKeys(content, s, path, k) == []
    decreases k
  {
    hide SaysNothing, SameContent;
    if k > 0 {
      NothingAdded(content, s, path, k - 1);
      SameKeysDistinct(content, s.content);
      LookupAt(content, k - 1);
      assert KeyAt(content, k - 1) == KeyAt(s.content, k - 1);
    }
  }

  lemma {:induction false} UnchangedSequence(lower: Bytes -> Bytes, d: Node, s: Node, path: Path)
    requires Generated(s) && SameContent(d, s) && s.kind == Sequence
    ensures Merged(lower, d, s, path) == d <==> NoBlankKeys(false, s)
    decreases s, 0
  {
    hide Generated, SameContent, MergedElement, Chosen;
    SameShape(d, s);
    ChosenInPlace(lower, d.content, s.content, |s.content|);
    var after := Merged(lower, d, s, path).content;
    forall i | 0 <= i < |s.content| ensures after[i] == d.content[i] <==> NoBlankKeys(true, s.content[i]) {
      GeneratedElement(s, i);
      UnchangedElement(lower, d.content[i], s.content[i], path);
      assert after[i] == MergedElement(lower, d.content[i], s.content[i], path);
    }
    assert |after| == |d.content|;
    assert after == d.content <==> forall i | 0 <= i < |s.content| :: after[i] == d.content[i];
  }

  lemma GeneratedElement(s: Node, i: nat)
    requires Generated(s) && s.kind == Sequence && i < |s.content|
    ensures Generated(s.content[i])
  {
  }

  lemma {:induction false} UnchangedElement(lower: Bytes -> Bytes, d: Node, s: Node, path: Path)
    requires Generated(s) && SameContent(d, s)
    ensures MergedElement(lower, d, s, path) == d <==> NoBlankKeys(true, s)
    decreases s, 3
  {
    hide Merged, OnlyKeysOf, TrimSpace;
    UnchangedFile(lower, d, s, path);
    if s.kind == Mapping {
      UnchangedMapping(lower, d, s, path);
      OnlyKeysUnchanged(Merged(lower, d, s, path), s);
      OnlyKeysKind(Merged(lower, d, s, path), s);
    }
  }

  // ---- what a new mapping is worth ----------------------------------------------------------------------

  /** A pair that pruning drops, or keeps with a zero value: an explicit weight of 0. */
  predicate CountsForNothing(path: Path, n: Node, j: nat)
    requires j < Pairs(n.content)
  {
    var p := path + [KeyAt(n.content, j)];
    StaysOut(p, ValueAt(n.content, j)) || IsZero(Pruned(p, ValueAt(n.content, j)))
  }

  lemma {:induction false} ZeroPairs(path: Path, n: Node, k: nat)
    requires k <= Pairs(n.content)
    ensures |PrunedPairs(path, n, k)| % 2 == 0
    ensures AllZero(PrunedPairs(path, n, k)) <==> forall j | 0 <= j < k :: CountsForNothing(path, n, j)
    decreases k
  {
    hide Pruned, IsZero, IsDefault, AllZero;
    NoneZero();
    if k > 0 {
      ZeroPairs(path, n, k - 1);
      var front := PrunedPairs(path, n, k - 1);
      var key, v := n.content[2 * k - 2], n.content[2 * k - 1];
      var p := path + [key.value];
      if !StaysOut(p, v) {
        AllZeroAppended(front, key, Pruned(p, v));
      }
      assert v == ValueAt(n.content, k - 1) && key.value == KeyAt(n.content, k - 1);
      assert CountsForNothing(path, n, k - 1) <==> StaysOut(p, v) || IsZero(Pruned(p, v));
    }
  }

  predicate AllZero(content: seq<Node>) {
    forall j | 0 <= j < Pairs(content) :: IsZero(ValueAt(content, j))
  }

  lemma NoneZero()
    ensures AllZero([])
  {
  }

  lemma AllZeroAppended(front: seq<Node>, key: Node, v: Node)
    requires |front| % 2 == 0
    ensures |front + [key, v]| % 2 == 0
    ensures AllZero(front + [key, v]) <==> AllZero(front) && IsZero(v)
  {
    hide IsZero;
    var c := front + [key, v];
    AppendedLookup(front, key, v, key.value);
    assert forall j | 0 <= j < Pairs(front) :: ValueAt(c, j) == ValueAt(front, j);
    assert ValueAt(c, Pairs(front)) == v;
  }

  /**
   * A mapping the file lacks is added exactly when some pair of it survives pruning with a value that is
   * not zero; an explicit weight of 0, which pruning keeps, does not count.
   */
  lemma NewMappingIsAdded(path: Path, n: Node)
    requires n.kind == Mapping
    ensures AddsNothing(path, n) <==> forall j | 0 <= j < Pairs(n.content) :: CountsForNothing(path, n, j)
  {
    hide CountsForNothing, PrunedPairs;
    ZeroPairs(path, n, Pairs(n.content));
  }

  /** So an explicit weight of 0 alone in a new mapping is lost, though pruning would keep it. */
  lemma LoneZeroWeightIsLost(path: Path)
    ensures var zero := Node(Scalar, TAG_INT, Ascii("0"), [], []);
            var n := Node(Mapping, [], [], [], [Node(Scalar, TAG_STR, WEIGHT, [], []), zero]);
            AddsNothing(path, n) && !StaysOut(path + [WEIGHT], zero)
  {
    var zero := Node(Scalar, TAG_INT, Ascii("0"), [], []);
    var n := Node(Mapping, [], [], [], [Node(Scalar, TAG_STR, WEIGHT, [], []), zero]);
    assert Pairs(n.content) == 1 && KeyAt(n.content, 0) == WEIGHT && ValueAt(n.content, 0) == zero;
    NewMappingIsAdded(path, n);
  }
}
