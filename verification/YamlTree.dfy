/** Saving a configuration in place, node by node: the merge of internal/config/config_yaml.go on mutable trees. */
module YamlTree {
  import opened ByteStrings
  import opened YamlNodes
  import opened YamlMerge
  import YamlUnchanged

  /** A node of a tree: nothing is shared below it. */
  class TreeNode {
    var kind: Kind
    var tag: Bytes
    var value: Bytes
    const notes: Bytes
    var content: seq<TreeNode>
    ghost var repr: set<TreeNode>
    ghost var tree: Node

    /** The node owns its children, their subtrees are apart, and tree is what it all amounts to. */
    ghost predicate Valid()
      reads this, repr
      decreases repr, 0
    {
      && this in repr
      && (forall c | c in content :: c in repr)
      && Foot(content) <= repr - {this}
      && ValidList(content)
      && tree == Node(kind, tag, value, notes, Trees(content))
    }

    constructor (kind: Kind, tag: Bytes, value: Bytes, notes: Bytes)
      ensures Valid() && tree == Node(kind, tag, value, notes, []) && repr == {this}
    {
      this.kind, this.tag, this.value, this.notes, this.content := kind, tag, value, notes, [];
      repr, tree := {this}, Node(kind, tag, value, notes, []);
    }

    /** The node and what is below it, as a value. */
    function Snapshot(): (t: Node)
      requires Valid()
      reads this, repr
      ensures t == tree
      decreases repr, 0
    {
      Node(kind, tag, value, notes, SnapshotAll(content))
    }

    /** Makes the node another kind of scalar or collection, with the children it has. */
    method SetFace(kind: Kind, tag: Bytes, value: Bytes)
      requires Valid()
      modifies this
      ensures Valid() && repr == old(repr) && content == old(content)
      ensures this.kind == kind && this.tag == tag && this.value == value
      ensures tree == old(tree).(kind := kind, tag := tag, value := value)
      ensures ValidList(content) && Foot(content) == old(Foot(content)) && Trees(content) == old(Trees(content))
    {
      hide ValidList, Foot, Trees;
      AllInFoot(content);
      this.kind, this.tag, this.value := kind, tag, value;
      tree := tree.(kind := kind, tag := tag, value := value);
    }

    /** Gives the node other children. */
    method SetContent(items: seq<TreeNode>)
      requires ValidList(items) && this !in Foot(items)
      modifies this
      ensures Valid() && content == items && repr == {this} + Foot(items)
      ensures kind == old(kind) && tag == old(tag) && value == old(value)
      ensures tree == Node(old(kind), old(tag), old(value), notes, Trees(items))
      ensures ValidList(items) && Foot(items) == old(Foot(items)) && Trees(items) == old(Trees(items))
    {
      hide ValidList, Foot, Trees;
      AllInFoot(items);
      content := items;
      repr := {this} + Foot(items);
      tree := Node(kind, tag, value, notes, Trees(items));
    }
  }

  ghost function Trees(ns: seq<TreeNode>): (trees: seq<Node>)
    reads ns
    ensures |trees| == |ns| && forall i | 0 <= i < |ns| :: trees[i] == ns[i].tree
  {
    if ns == [] then [] else Trees(ns[..|ns| - 1]) + [ns[|ns| - 1].tree]
  }

  /** Every node of the trees in a list. */
  ghost function Foot(ns: seq<TreeNode>): set<TreeNode>
    reads ns
  {
    if ns == [] then {} else Foot(ns[..|ns| - 1]) + ns[|ns| - 1].repr
  }

  /** The trees of a list are valid and apart. */
  ghost predicate ValidList(ns: seq<TreeNode>)
    reads ns, Foot(ns)
    decreases Foot(ns), |ns| + 1
  {
    ns == [] || (
      var front, last := ns[..|ns| - 1], ns[|ns| - 1];
      ValidList(front) && last.Valid() && Foot(front) !! last.repr
    )
  }

  lemma {:induction false} AllInFoot(ns: seq<TreeNode>)
    requires ValidList(ns)
    ensures forall i | 0 <= i < |ns| :: ns[i].Valid() && ns[i] in Foot(ns) && ns[i].repr <= Foot(ns)
    ensures forall n | n in ns :: n in Foot(ns)
    decreases |ns|
  {
    if ns != [] {
      var front := ns[..|ns| - 1];
      AllInFoot(front);
      assert forall i | 0 <= i < |front| :: ns[i] == front[i];
    }
  }

  lemma {:induction false} ListAppend(a: seq<TreeNode>, b: seq<TreeNode>)
    ensures Foot(a + b) == Foot(a) + Foot(b)
    ensures Trees(a + b) == Trees(a) + Trees(b)
    ensures ValidList(a + b) <==> ValidList(a) && ValidList(b) && Foot(a) !! Foot(b)
    decreases |b|
  {
    if b == [] {
      assert a + b == a;
    } else {
      var front := b[..|b| - 1];
      assert (a + b)[..|a + b| - 1] == a + front && (a + b)[|a + b| - 1] == b[|b| - 1];
      ListAppend(a, front);
    }
  }

  function SnapshotAll(ns: seq<TreeNode>): (trees: seq<Node>)
    requires ValidList(ns)
    reads ns, Foot(ns)
    ensures trees == Trees(ns)
    decreases Foot(ns), |ns| + 1
  {
    if ns == [] then [] else SnapshotAll(ns[..|ns| - 1]) + [ns[|ns| - 1].Snapshot()]
  }

  lemma ListPush(ns: seq<TreeNode>, n: TreeNode)
    requires ValidList(ns) && n.Valid() && Foot(ns) !! n.repr
    ensures ValidList(ns + [n]) && Foot(ns + [n]) == Foot(ns) + n.repr && Trees(ns + [n]) == Trees(ns) + [n.tree]
  {
    hide TreeNode.Valid;
    assert (ns + [n])[..|ns|] == ns;
  }

  lemma EmptyList()
    ensures ValidList([]) && Foot([]) == {} && Trees([]) == []
  {
  }

  lemma {:induction false} FootIsAllocated(ns: seq<TreeNode>)
    ensures forall o | o in Foot(ns) :: allocated(o)
    decreases |ns|
  {
    if ns != [] {
      FootIsAllocated(ns[..|ns| - 1]);
    }
  }

  /** What it takes to see that changing other nodes leaves a list alone. */
  lemma Settled(ns: seq<TreeNode>)
    requires ValidList(ns)
    ensures forall o | o in Foot(ns) :: allocated(o)
    ensures forall n | n in ns :: n in Foot(ns)
  {
    hide ValidList, Foot;
    FootIsAllocated(ns);
    AllInFoot(ns);
  }

  lemma ContentIsValid(n: TreeNode)
    requires n.Valid()
    ensures ValidList(n.content) && n in n.repr && Foot(n.content) <= n.repr - {n}
    ensures n.tree == Node(n.kind, n.tag, n.value, n.notes, Trees(n.content))
  {
  }

  lemma ChildIsValid(ns: seq<TreeNode>, k: nat)
    requires ValidList(ns) && k < |ns|
    ensures ns[k].Valid() && ns[k].repr <= Foot(ns) && ns[k] in ns[k].repr && Trees(ns)[k] == ns[k].tree
  {
    hide ValidList, Foot;
    AllInFoot(ns);
  }

  /** deepCopyNode on a tree. */
  method DeepCopy(n: TreeNode) returns (cp: TreeNode)
    requires n.Valid()
    ensures cp.Valid() && fresh(cp.repr) && cp.tree == n.tree
    decreases n.repr, 0
  {
    hide TreeNode.Valid, ValidList, Foot, Trees;
    ContentIsValid(n);
    var items := CopyAll(n.content);
    FootIsAllocated(items);
    cp := new TreeNode(n.kind, n.tag, n.value, n.notes);
    cp.SetContent(items);
  }

  method CopyAll(ns: seq<TreeNode>) returns (items: seq<TreeNode>)
    requires ValidList(ns)
    ensures ValidList(items) && fresh(Foot(items)) && Trees(items) == Trees(ns)
    decreases Foot(ns), 1
  {
    hide TreeNode.Valid, ValidList, Foot, Trees;
    items := [];
    EmptyList();
    for i := 0 to |ns|
      invariant ValidList(items) && fresh(Foot(items)) && Trees(items) == Trees(ns)[..i]
      invariant ValidList(ns) && Trees(ns) == old(Trees(ns)) && Foot(ns) == old(Foot(ns))
    {
      FootIsAllocated(items);
      Settled(ns);
      ChildIsValid(ns, i);
      var c := DeepCopy(ns[i]);
      ListPush(items, c);
      items := items + [c];
    }
  }

  /** copyNodeShallow */
  method Overwrite(d: TreeNode, s: TreeNode)
    requires d.Valid() && s.Valid() && d.repr !! s.repr
    modifies d
    ensures d.Valid() && fresh(d.repr - old(d.repr)) && d.tree == Overwritten(old(d.tree), s.tree)
  {
    hide TreeNode.Valid, ValidList, Foot, Trees;
    ContentIsValid(d);
    ContentIsValid(s);
    var items := CopyAll(s.content);
    Settled(items);
    assert d !in Foot(items) && d !in items;
    d.SetFace(s.kind, s.tag, s.value);
    d.SetContent(items);
  }

  /** A list is its first element and the rest, apart from each other. */
  lemma Uncons(ns: seq<TreeNode>, i: nat)
    requires i < |ns| && ValidList(ns[i..])
    ensures ns[i].Valid() && ValidList(ns[i + 1..]) && ns[i].repr !! Foot(ns[i + 1..])
    ensures Foot(ns[i..]) == ns[i].repr + Foot(ns[i + 1..])
    ensures Trees(ns[i..]) == [ns[i].tree] + Trees(ns[i + 1..])
  {
    hide TreeNode.Valid;
    assert ns[i..] == [ns[i]] + ns[i + 1..];
    assert [ns[i]][..0] == [];
    ListAppend([ns[i]], ns[i + 1..]);
  }

  // ---- removing keys ------------------------------------------------------------------------------------

  /** Leaving two neighbours out of a list. */
  lemma DropPair(ns: seq<TreeNode>, i: nat)
    requires ValidList(ns) && i + 1 < |ns|
    ensures var left := ns[..i] + ns[i + 2..];
            && ValidList(left) && Foot(left) <= Foot(ns)
            && Trees(left) == Trees(ns)[..i] + Trees(ns)[i + 2..]
  {
    hide TreeNode.Valid, ValidList, Foot, Trees;
    var a, p, b := ns[..i], ns[i..i + 2], ns[i + 2..];
    assert ns == a + (p + b);
    ListAppend(a, p + b);
    ListAppend(p, b);
    ListAppend(a, b);
    assert Trees(ns)[..i] == Trees(a);
    assert Trees(ns)[i + 2..] == Trees(b);
  }

  /** One more pair looked at, with k of them behind. */
  lemma KeptStep(t: seq<Node>, keep: set<Bytes>, k: nat, trees: seq<Node>, i: nat)
    requires k < Pairs(t) && i == |KeptPairs(t, keep, k)|
    requires trees == KeptPairs(t, keep, k) + t[2 * k..]
    ensures |trees| - i == |t| - 2 * k && trees[i] == t[2 * k]
    ensures TrimSpace(trees[i].value) in keep ==>
              i + 2 == |KeptPairs(t, keep, k + 1)| && trees == KeptPairs(t, keep, k + 1) + t[2 * (k + 1)..]
    ensures TrimSpace(trees[i].value) !in keep ==>
              && i == |KeptPairs(t, keep, k + 1)|
              && trees[..i] + trees[i + 2..] == KeptPairs(t, keep, k + 1) + t[2 * (k + 1)..]
  {
    hide TrimSpace;
    assert t[2 * k..] == [t[2 * k], t[2 * k + 1]] + t[2 * (k + 1)..];
  }

  /** The loop of pruneMissingMapKeys over the pairs of a mapping. */
  method WithoutMissing(ns: seq<TreeNode>, keep: set<Bytes>) returns (items: seq<TreeNode>)
    requires ValidList(ns)
    ensures ValidList(items) && Foot(items) <= Foot(ns)
    ensures var n := Pairs(Trees(ns)); Trees(items) == KeptPairs(Trees(ns), keep, n) + Trees(ns)[2 * n..]
  {
    hide TreeNode.Valid, ValidList, Foot, Trees, TrimSpace, KeptPairs;
    items := ns;
    ghost var t := Trees(ns);
    ghost var k := 0;
    var i := 0;
    assert t[0..] == t && KeptPairs(t, keep, 0) == [] by {
      NoneKept(t, keep);
    }
    while i + 1 < |items|
      invariant 2 * k <= |t| && i == |KeptPairs(t, keep, k)| && |items| - i == |t| - 2 * k
      invariant ValidList(items) && Foot(items) <= Foot(ns)
      invariant Trees(items) == KeptPairs(t, keep, k) + t[2 * k..]
      decreases |items| - i
    {
      KeptStep(t, keep, k, Trees(items), i);
      ChildIsValid(items, i);
      ContentIsValid(items[i]);
      if TrimSpace(items[i].value) !in keep {
        DropPair(items, i);
        items := items[..i] + items[i + 2..];
      } else {
        i := i + 2;
      }
      k := k + 1;
    }
  }

  lemma NoneKept(content: seq<Node>, keep: set<Bytes>)
    ensures KeptPairs(content, keep, 0) == []
  {
  }

  /** pruneMissingMapKeys */
  method RemoveMissing(d: TreeNode, s: TreeNode)
    requires d.Valid() && s.Valid() && s.repr !! d.repr
    modifies d
    ensures d.Valid() && d.repr <= old(d.repr)
    ensures d.tree
         == if old(d.kind) == Mapping && s.kind == Mapping then OnlyKeysOf(old(d.tree), s.tree) else old(d.tree)
  {
    hide TreeNode.Valid, ValidList, Foot, Trees, TrimSpace, KeptPairs;
    if d.kind != Mapping || s.kind != Mapping {
      return;
    }
    ContentIsValid(d);
    var items := WithoutMissing(d.content, KeepSet(s.Snapshot().content));
    d.SetContent(items);
  }

  // ---- pruning defaults ---------------------------------------------------------------------------------

  function PrunedAll(path: Path, trees: seq<Node>): seq<Node> {
    seq(|trees|, i requires 0 <= i < |trees| => Pruned(path, trees[i]))
  }

  lemma PrunedAllNext(path: Path, trees: seq<Node>)
    ensures PrunedAll(path, []) == []
    ensures forall i | 0 <= i < |trees| ::
              PrunedAll(path, trees[..i + 1]) == PrunedAll(path, trees[..i]) + [Pruned(path, trees[i])]
  {
    hide Pruned;
  }

  /** pruneKnownDefaultsInNewNode */
  method Prune(n: TreeNode, path: Path)
    requires n.Valid()
    modifies n.repr
    ensures n.Valid() && n.repr <= old(n.repr) && n.tree == Pruned(path, old(n.tree))
    decreases n.repr, 2
  {
    hide TreeNode.Valid, ValidList, Foot, Trees, PrunedPairs;
    ContentIsValid(n);
    if n.kind == Mapping {
      var filtered := PrunePairs(n.content, path, n.tree);
      n.SetContent(filtered);
    } else if n.kind == Sequence {
      PruneItems(n.content, path);
      n.SetContent(n.content);
    }
  }

  /** The value of one pair of a new mapping; keep is false when the pair is dropped. */
  method PruneValue(v: TreeNode, path: Path) returns (keep: bool)
    requires v.Valid()
    modifies v.repr
    ensures keep <==> !StaysOut(path, old(v.tree))
    ensures keep ==> v.Valid() && v.repr <= old(v.repr) && v.tree == Pruned(path, old(v.tree))
    decreases v.repr, 3, 0
  {
    hide TreeNode.Valid, ValidList, Foot, Trees, IsDefault, Pruned;
    if IsDefault(path, v.Snapshot()) {
      return false;
    }
    Prune(v, path);
    ContentIsValid(v);
    keep := !((v.kind == Mapping || v.kind == Sequence) && |v.content| == 0);
  }

  /** One pair of a new mapping, after those that stay. */
  method PrunePair(filtered: seq<TreeNode>, key: TreeNode, v: TreeNode, path: Path) returns (more: seq<TreeNode>)
    requires ValidList(filtered) && key.Valid() && v.Valid()
    requires Foot(filtered) !! key.repr + v.repr && key.repr !! v.repr
    modifies v.repr
    ensures ValidList(more) && Foot(more) <= old(Foot(filtered) + key.repr + v.repr)
    ensures Trees(more)
         == old(Trees(filtered)) + if StaysOut(path, old(v.tree)) then [] else [key.tree, Pruned(path, old(v.tree))]
    ensures key.tree == old(key.tree)
    decreases v.repr, 3, 1
  {
    hide TreeNode.Valid, ValidList, Foot, Trees, StaysOut, Pruned;
    Settled(filtered);
    ContentIsValid(key);
    var keep := PruneValue(v, path);
    more := filtered;
    if keep {
      ListPush(filtered, key);
      ListPush(filtered + [key], v);
      more := filtered + [key] + [v];
    }
  }

  /** The next pair of a new mapping; what follows it stays as it is. */
  method PruneFirst(filtered: seq<TreeNode>, ns: seq<TreeNode>, path: Path) returns (more: seq<TreeNode>)
    requires |ns| >= 2 && ValidList(ns) && ValidList(filtered) && Foot(filtered) !! Foot(ns)
    modifies Foot(ns)
    ensures ValidList(more) && ValidList(ns[2..]) && Foot(more) !! Foot(ns[2..])
    ensures Foot(more) + Foot(ns[2..]) <= old(Foot(filtered) + Foot(ns)) && Trees(ns[2..]) == old(Trees(ns))[2..]
    ensures var key, v := old(Trees(ns))[0], old(Trees(ns))[1];
            Trees(more) == old(Trees(filtered))
              + if StaysOut(path + [key.value], v) then [] else [key, Pruned(path + [key.value], v)]
    decreases Foot(ns), 3, 2
  {
    hide TreeNode.Valid, ValidList, Foot, Trees, StaysOut, Pruned;
    UnconsPair(ns);
    Settled(ns[2..]);
    ContentIsValid(ns[0]);
    more := PrunePair(filtered, ns[0], ns[1], path + [ns[0].value]);
  }

  method PrunePairs(ns: seq<TreeNode>, path: Path, ghost t: Node) returns (filtered: seq<TreeNode>)
    requires ValidList(ns) && t.content == Trees(ns)
    modifies Foot(ns)
    ensures ValidList(filtered) && Foot(filtered) <= old(Foot(ns))
    ensures Trees(filtered) == PrunedPairs(path, t, Pairs(t.content))
    decreases Foot(ns), 4
  {
    hide TreeNode.Valid, ValidList, Foot, Trees, StaysOut, Pruned, PrunedPairs;
    filtered := [];
    EmptyList();
    PrunedNone(path, t);
    var rest := ns;
    ghost var k := 0;
    while |rest| >= 2
      invariant 2 * k + |rest| == |ns| && Trees(rest) == t.content[2 * k..]
      invariant ValidList(rest) && ValidList(filtered) && Foot(filtered) !! Foot(rest)
      invariant Foot(filtered) + Foot(rest) <= old(Foot(ns))
      invariant Trees(filtered) == PrunedPairs(path, t, k)
    {
      PrunedNext(path, t, k);
      filtered := PruneFirst(filtered, rest, path);
      rest := rest[2..];
      k := k + 1;
    }
  }

  lemma PrunedNone(path: Path, t: Node)
    ensures PrunedPairs(path, t, 0) == []
  {
  }

  lemma PrunedNext(path: Path, t: Node, k: nat)
    requires k < Pairs(t.content)
    ensures var key, v := t.content[2 * k], t.content[2 * k + 1];
            PrunedPairs(path, t, k + 1) == PrunedPairs(path, t, k)
              + if StaysOut(path + [key.value], v) then [] else [key, Pruned(path + [key.value], v)]
  {
    hide Pruned, StaysOut;
  }

  lemma UnconsPair(ns: seq<TreeNode>)
    requires |ns| >= 2 && ValidList(ns)
    ensures ns[0].Valid() && ns[1].Valid() && ValidList(ns[2..])
    ensures ns[0].repr !! ns[1].repr && ns[0].repr + ns[1].repr !! Foot(ns[2..])
    ensures Foot(ns) == ns[0].repr + ns[1].repr + Foot(ns[2..])
    ensures Trees(ns) == [ns[0].tree, ns[1].tree] + Trees(ns[2..])
  {
    hide TreeNode.Valid, ValidList, Foot, Trees;
    assert ns[0..] == ns;
    Uncons(ns, 0);
    Uncons(ns, 1);
    FirstTwo(ns[0].repr, ns[1].repr, Foot(ns[2..]), ns[0].tree, ns[1].tree, Trees(ns[2..]));
  }

  lemma FirstTwo(a: set<TreeNode>, b: set<TreeNode>, rest: set<TreeNode>, s: Node, t: Node, others: seq<Node>)
    ensures a + (b + rest) == a + b + rest
    ensures a !! b + rest && b !! rest ==> a !! b && a + b !! rest
    ensures [s] + ([t] + others) == [s, t] + others
  {
  }

  /** The next list element; those before it and after it stay as they are. */
  method PruneOne(front: seq<TreeNode>, n: TreeNode, rest: seq<TreeNode>, path: Path)
    requires ValidList(front) && n.Valid() && ValidList(rest)
    requires Foot(front) !! n.repr + Foot(rest) && n.repr !! Foot(rest)
    modifies n.repr
    ensures ValidList(front + [n]) && Foot(front + [n]) <= old(Foot(front) + n.repr)
    ensures Trees(front + [n]) == old(Trees(front)) + [Pruned(path, old(n.tree))]
    ensures ValidList(rest) && Foot(rest) == old(Foot(rest)) && Trees(rest) == old(Trees(rest))
    decreases n.repr, 3
  {
    hide TreeNode.Valid, ValidList, Foot, Trees, Pruned;
    Settled(front);
    Settled(rest);
    Prune(n, path);
    ListPush(front, n);
  }

  method PruneItems(ns: seq<TreeNode>, path: Path)
    requires ValidList(ns)
    modifies Foot(ns)
    ensures ValidList(ns) && Foot(ns) <= old(Foot(ns)) && Trees(ns) == PrunedAll(path, old(Trees(ns)))
    decreases Foot(ns), 4
  {
    hide TreeNode.Valid, ValidList, Foot, Trees, Pruned, PrunedAll;
    EmptyList();
    ghost var t := Trees(ns);
    PrunedAllNext(path, t);
    assert ns[0..] == ns && t[0..] == t && ns[..0] == [];
    for i := 0 to |ns|
      invariant ValidList(ns[..i]) && Foot(ns[..i]) <= old(Foot(ns)) && Trees(ns[..i]) == PrunedAll(path, t[..i])
      invariant ValidList(ns[i..]) && Foot(ns[i..]) <= old(Foot(ns)) && Trees(ns[i..]) == t[i..]
      invariant Foot(ns[..i]) !! Foot(ns[i..])
    {
      Uncons(ns, i);
      PruneOne(ns[..i], ns[i], ns[i + 1..], path);
      assert ns[..i + 1] == ns[..i] + [ns[i]];
    }
    assert ns[..|ns|] == ns && t[..|ns|] == t;
  }

  // ---- matching list elements ---------------------------------------------------------------------------

  /** The loops of matchSequenceElement; taken lists the elements whose flag is set. */
  method MatchElement(lower: Bytes -> Bytes, original: seq<Node>, used: seq<bool>, target: Node, ghost taken: seq<int>)
    returns (r: int)
    requires |used| == |original| && forall m | 0 <= m < |used| :: used[m] <==> m in taken
    ensures r == Matched(lower, original, taken, target)
  {
    hide Identified, SameStructure;
    var i := 0;
    while i < |original|
      invariant 0 <= i <= |original|
      invariant forall m | 0 <= m < i :: m in taken || !Identified(lower, original[m], target)
    {
      if !used[i] && Identified(lower, original[i], target) {
        return i;
      }
      i := i + 1;
    }
    i := 0;
    while i < |original|
      invariant 0 <= i <= |original|
      invariant forall m | 0 <= m < i :: m in taken || !SameStructure(original[m], target)
    {
      if !used[i] && SameStructure(original[i], target) {
        return i;
      }
      i := i + 1;
    }
    return -1;
  }

  /** reorderSequenceForMerge: for each new element the old one to reuse, or -1. */
  method Reorder(lower: Bytes -> Bytes, original: seq<Node>, targets: seq<Node>) returns (chosen: seq<int>)
    ensures chosen == Chosen(lower, original, targets, |targets|)
  {
    hide Matched;
    chosen := [];
    var used := seq(|original|, _ => false);
    for i := 0 to |targets|
      invariant chosen == Chosen(lower, original, targets, i)
      invariant |used| == |original| && forall m | 0 <= m < |used| :: used[m] <==> m in chosen
    {
      var r := MatchElement(lower, original, used, targets[i], chosen);
      if r >= 0 {
        used := used[r := true];
      }
      chosen := chosen + [r];
    }
  }

  /** findMapKeyIndex */
  method FindIndex(ns: seq<TreeNode>, key: Bytes) returns (j: int)
    requires ValidList(ns)
    ensures j == FindPair(Trees(ns), key)
  {
    hide TreeNode.Valid, ValidList, Foot, Trees;
    j := 0;
    while 2 * j + 1 < |ns|
      invariant 0 <= 2 * j <= |ns|
      invariant ValidList(ns)
      invariant forall m | 0 <= m < j :: KeyAt(Trees(ns), m) != key
    {
      ChildIsValid(ns, 2 * j);
      ContentIsValid(ns[2 * j]);
      assert ns[2 * j].value == KeyAt(Trees(ns), j);
      if ns[2 * j].value == key {
        return;
      }
      j := j + 1;
    }
    j := -1;
  }

  // ---- merging ------------------------------------------------------------------------------------------

  /** Three parts of a list are valid and apart. */
  ghost predicate Apart(a: seq<TreeNode>, c: TreeNode, b: seq<TreeNode>)
    reads a, c, b, Foot(a), c.repr, Foot(b)
  {
    && ValidList(a)
    && c.Valid()
    && ValidList(b)
    && Foot(a) !! c.repr
    && Foot(a) !! Foot(b)
    && c.repr !! Foot(b)
  }

  lemma SplitAt<T>(ns: seq<T>, i: nat)
    requires i < |ns|
    ensures ns == ns[..i] + [ns[i]] + ns[i + 1..]
  {
  }

  /** A list around one of its elements. */
  lemma Around(ns: seq<TreeNode>, i: nat)
    requires i < |ns|
    ensures ValidList(ns) <==> Apart(ns[..i], ns[i], ns[i + 1..])
    ensures Foot(ns) == Foot(ns[..i]) + ns[i].repr + Foot(ns[i + 1..])
    ensures Trees(ns) == Trees(ns[..i]) + [ns[i].tree] + Trees(ns[i + 1..])
  {
    hide TreeNode.Valid, ValidList, Foot, Trees, Apart;
    SplitAt(ns, i);
    AroundParts(ns[..i], ns[i], ns[i + 1..]);
  }

  lemma AroundParts(a: seq<TreeNode>, c: TreeNode, b: seq<TreeNode>)
    ensures ValidList(a + [c] + b) <==> Apart(a, c, b)
    ensures Foot(a + [c] + b) == Foot(a) + c.repr + Foot(b)
    ensures Trees(a + [c] + b) == Trees(a) + [c.tree] + Trees(b)
  {
    hide TreeNode.Valid, ValidList, Foot, Trees;
    ListAppend(a, [c]);
    ListAppend(a + [c], b);
    JustOne(c);
  }

  lemma JustOne(n: TreeNode)
    ensures ValidList([n]) <==> n.Valid()
    ensures Foot([n]) == n.repr && Trees([n]) == [n.tree]
  {
    hide TreeNode.Valid;
    assert [n][..0] == [];
  }

  /** Merges into the i-th tree of a list. */
  method MergeChild(lower: Bytes -> Bytes, ns: seq<TreeNode>, i: nat, v: TreeNode, path: Path)
    returns (ghost added: set<TreeNode>)
    requires ValidList(ns) && i < |ns| && v.Valid() && Foot(ns) !! v.repr
    modifies Foot(ns)
    ensures ValidList(ns) && fresh(added) && Foot(ns) <= old(Foot(ns)) + added
    ensures Trees(ns) == old(Trees(ns))[i := Merged(lower, old(Trees(ns))[i], v.tree, path)]
    decreases v.repr, 3
  {
    hide TreeNode.Valid, ValidList, Foot, Trees, Merged;
    ghost var a, b := ns[..i], ns[i + 1..];
    var c := ns[i];
    Around(ns, i);
    Settled(a);
    Settled(b);
    ghost var t, r := c.tree, c.repr;
    MergeNode(lower, c, v, path);
    added := c.repr - r;
    Around(ns, i);
    UpdatedAt(Trees(a), t, c.tree, Trees(b));
  }

  /** Merges into the i-th child of d. */
  method MergeAt(lower: Bytes -> Bytes, d: TreeNode, i: nat, v: TreeNode, path: Path)
    requires d.Valid() && v.Valid() && d.repr !! v.repr && i < |d.content|
    modifies d.repr
    ensures d.Valid() && fresh(d.repr - old(d.repr)) && d.content == old(d.content) && d.kind == old(d.kind)
    ensures i < |old(d.tree).content| &&
            var merged := Merged(lower, old(d.tree).content[i], v.tree, path);
            d.tree == old(d.tree).(content := old(d.tree).content[i := merged])
    decreases v.repr, 4
  {
    hide TreeNode.Valid, ValidList, Foot, Trees, Merged;
    ContentIsValid(d);
    ghost var added := MergeChild(lower, d.content, i, v, path);
    d.SetContent(d.content);
  }

  lemma UpdatedAt<T>(a: seq<T>, c: T, x: T, b: seq<T>)
    ensures (a + [c] + b)[|a| := x] == a + [x] + b
  {
  }

  /** Adds a copy of a pair the mapping lacks, unless pruning leaves a known default. */
  method AddPair(d: TreeNode, key: TreeNode, v: TreeNode, path: Path)
    requires d.Valid() && key.Valid() && v.Valid() && d.repr !! key.repr + v.repr
    modifies d
    ensures d.Valid() && fresh(d.repr - old(d.repr)) && old(d.content) <= d.content && d.kind == old(d.kind)
    ensures d.tree == if AddsNothing(path, v.tree) then old(d.tree)
                      else old(d.tree).(content := old(d.tree).content + [key.tree, Pruned(path, v.tree)])
  {
    hide TreeNode.Valid, ValidList, Foot, Trees, Pruned, IsDefault;
    var candidate := DeepCopy(v);
    Prune(candidate, path);
    if !IsDefault(path, candidate.Snapshot()) {
      var k := DeepCopy(key);
      ContentIsValid(d);
      Settled(d.content);
      ListPush(d.content, k);
      ListPush(d.content + [k], candidate);
      d.SetContent(d.content + [k] + [candidate]);
    }
  }

  method MergePair(lower: Bytes -> Bytes, d: TreeNode, key: TreeNode, v: TreeNode, path: Path)
    requires d.Valid() && key.Valid() && v.Valid() && d.repr !! key.repr + v.repr
    modifies d.repr
    ensures d.Valid() && fresh(d.repr - old(d.repr)) && old(d.content) <= d.content && d.kind == old(d.kind)
    ensures d.tree == old(d.tree).(content := MergedPair(lower, old(d.tree).content, key.tree, v.tree, path))
    decreases v.repr, 5
  {
    hide TreeNode.Valid, ValidList, Foot, Trees, Merged, Pruned, AddsNothing, FindPair;
    ContentIsValid(d);
    ContentIsValid(key);
    var j := FindIndex(d.content, key.value);
    if j >= 0 {
      MergeAt(lower, d, 2 * j + 1, v, path + [key.value]);
    } else {
      AddPair(d, key, v, path + [key.value]);
    }
  }

  /**
   * mergeMappingPreserve: the mapping keeps its key and value nodes, in their order, and new ones follow.
   * Unless both are mappings, the destination takes over what the source is.
   */
  method MergeMapping(lower: Bytes -> Bytes, d: TreeNode, s: TreeNode, path: Path)
    requires d.Valid() && s.Valid() && d.repr !! s.repr
    modifies d.repr
    ensures d.Valid() && fresh(d.repr - old(d.repr))
    ensures old(d.kind) == Mapping && s.kind == Mapping ==>
              old(d.content) <= d.content && d.tree == Merged(lower, old(d.tree), s.tree, path)
    ensures old(d.kind) != Mapping || s.kind != Mapping ==> d.tree == Overwritten(old(d.tree), s.tree)
    decreases s.repr, 1
  {
    hide TreeNode.Valid, ValidList, Foot, Trees, MergedPairs, MergedPair;
    ghost var t := d.tree;
    ContentIsValid(d);
    ContentIsValid(s);
    if d.kind != Mapping || s.kind != Mapping {
      Overwrite(d, s);
      return;
    }
    MergedNone(lower, t, s.tree, path);
    var k := 0;
    while 2 * k + 1 < |s.content|
      invariant k <= Pairs(s.tree.content)
      invariant d.Valid() && d.kind == Mapping && fresh(d.repr - old(d.repr)) && old(d.content) <= d.content
      invariant d.tree == t.(content := MergedPairs(lower, t.content, s.tree, path, k))
    {
      ContentIsValid(s);
      ChildIsValid(s.content, 2 * k);
      ChildIsValid(s.content, 2 * k + 1);
      MergedNext(lower, t, s.tree, path, k);
      MergePair(lower, d, s.content[2 * k], s.content[2 * k + 1], path);
      k := k + 1;
    }
  }

  lemma MergedNone(lower: Bytes -> Bytes, t: Node, s: Node, path: Path)
    ensures t.(content := MergedPairs(lower, t.content, s, path, 0)) == t
    ensures t.kind == Mapping && s.kind == Mapping ==>
              Merged(lower, t, s, path) == t.(content := MergedPairs(lower, t.content, s, path, Pairs(s.content)))
  {
  }

  lemma MergedNext(lower: Bytes -> Bytes, t: Node, s: Node, path: Path, k: nat)
    requires k < Pairs(s.content)
    ensures MergedPairs(lower, t.content, s, path, k + 1)
         == MergedPair(lower, MergedPairs(lower, t.content, s, path, k), s.content[2 * k], s.content[2 * k + 1], path)
  {
    hide MergedPair;
  }

  /** One matched list element, with the keys the configuration dropped removed. */
  method MergeElement(lower: Bytes -> Bytes, d: TreeNode, s: TreeNode, path: Path)
    requires d.Valid() && s.Valid() && d.repr !! s.repr
    modifies d.repr
    ensures d.Valid() && fresh(d.repr - old(d.repr)) && d.tree == MergedElement(lower, old(d.tree), s.tree, path)
    decreases s.repr, 3
  {
    hide TreeNode.Valid, ValidList, Foot, Trees, Merged, OnlyKeysOf;
    ContentIsValid(s);
    MergeNode(lower, d, s, path);
    ContentIsValid(d);
    RemoveMissing(d, s);
  }

  /** The new element at one place of a list: a reused old one, or a copy. */
  method MergeItem(lower: Bytes -> Bytes, was: TreeNode?, s: TreeNode, path: Path) returns (item: TreeNode)
    requires s.Valid() && (was != null ==> was.Valid() && was.repr !! s.repr)
    modifies if was == null then {} else was.repr
    ensures item.Valid() && if was == null then fresh(item.repr) else fresh(item.repr - old(was.repr))
    ensures if was == null then fresh(item) else item == was
    ensures item.tree == if was == null then s.tree else MergedElement(lower, old(was.tree), s.tree, path)
    decreases s.repr, 4
  {
    hide TreeNode.Valid, ValidList, Foot, Trees, MergedElement;
    if was == null {
      item := DeepCopy(s);
      ContentIsValid(item);
    } else {
      item := was;
      MergeElement(lower, item, s, path);
    }
  }

  function MergedItem(lower: Bytes -> Bytes, original: seq<Node>, chosen: int, s: Node, path: Path): Node
    requires chosen < |original|
  {
    if chosen < 0 then s else MergedElement(lower, original[chosen], s, path)
  }

  ghost function Reprs(ns: seq<TreeNode>): (reprs: seq<set<TreeNode>>)
    reads ns
    ensures |reprs| == |ns| && forall i | 0 <= i < |ns| :: reprs[i] == ns[i].repr
  {
    if ns == [] then [] else Reprs(ns[..|ns| - 1]) + [ns[|ns| - 1].repr]
  }

  lemma {:induction false} PairwiseApart(ns: seq<TreeNode>)
    requires ValidList(ns)
    ensures forall i, j | 0 <= i < j < |ns| :: Reprs(ns)[i] !! Reprs(ns)[j]
    ensures forall i | 0 <= i < |ns| :: ns[i].Valid() && Trees(ns)[i] == ns[i].tree && Reprs(ns)[i] <= Foot(ns)
    decreases |ns|
  {
    AllInFoot(ns);
    if ns != [] {
      var front := ns[..|ns| - 1];
      PairwiseApart(front);
      AllInFoot(front);
      assert forall i | 0 <= i < |front| :: ns[i] == front[i];
    }
  }

  ghost predicate AllApart(reprs: seq<set<TreeNode>>) {
    forall i, j | 0 <= i < j < |reprs| :: reprs[i] !! reprs[j]
  }

  predicate Within(chosen: seq<int>, n: nat) {
    forall i | 0 <= i < |chosen| :: chosen[i] < n
  }

  /** No element is chosen twice. */
  ghost predicate EachOnce(chosen: seq<int>) {
    forall i, j | 0 <= i < j < |chosen| :: chosen[i] < 0 || chosen[i] != chosen[j]
  }

  /** Each place with a chosen element holds that very node. */
  ghost predicate Reused(original: seq<TreeNode>, chosen: seq<int>, items: seq<TreeNode>) {
    && |items| <= |chosen|
    && Within(chosen, |original|)
    && (forall i | 0 <= i < |items| && chosen[i] >= 0 :: items[i] == original[chosen[i]])
  }

  lemma NoneReused(original: seq<TreeNode>, chosen: seq<int>)
    requires Within(chosen, |original|)
    ensures Reused(original, chosen, [])
  {
  }

  lemma ReuseNext(original: seq<TreeNode>, chosen: seq<int>, items: seq<TreeNode>, item: TreeNode)
    requires Reused(original, chosen, items) && |items| < |chosen|
    requires chosen[|items|] >= 0 ==> item == original[chosen[|items|]]
    ensures Reused(original, chosen, items + [item])
  {
  }

  /** The nodes of the old elements, among the first k, that no place has taken yet. */
  ghost function WaitingIn(original: seq<TreeNode>, reprs: seq<set<TreeNode>>, taken: seq<int>,
      k: nat): (waiting: set<TreeNode>)
    requires |reprs| == |original| && k <= |original|
    ensures forall m | 0 <= m < k && m !in taken :: original[m] in waiting && reprs[m] <= waiting
  {
    if k == 0 then {}
    else WaitingIn(original, reprs, taken, k - 1) + if k - 1 in taken then {} else reprs[k - 1] + {original[k - 1]}
  }

  ghost function Waiting(original: seq<TreeNode>, reprs: seq<set<TreeNode>>, taken: seq<int>): (waiting: set<TreeNode>)
    requires |reprs| == |original|
    ensures forall m | 0 <= m < |original| && m !in taken :: original[m] in waiting && reprs[m] <= waiting
  {
    WaitingIn(original, reprs, taken, |original|)
  }

  lemma {:induction false} WaitingLess(original: seq<TreeNode>, reprs: seq<set<TreeNode>>, taken: seq<int>, c: int,
      k: nat)
    requires |reprs| == |original| && k <= |original| && c < |original|
    requires AllApart(reprs)
    requires forall m | 0 <= m < |original| && m !in taken :: original[m] in reprs[m]
    ensures WaitingIn(original, reprs, taken + [c], k) <= WaitingIn(original, reprs, taken, k)
    ensures c >= 0 ==> reprs[c] !! WaitingIn(original, reprs, taken + [c], k)
    decreases k
  {
    if k > 0 {
      WaitingLess(original, reprs, taken, c, k - 1);
    }
  }

  lemma {:induction false} WaitingUnion(original: seq<TreeNode>, reprs: seq<set<TreeNode>>, taken: seq<int>,
      all: set<TreeNode>, k: nat)
    requires |reprs| == |original| && k <= |original|
    requires forall m | 0 <= m < |original| && m !in taken :: original[m] in all && reprs[m] <= all
    ensures WaitingIn(original, reprs, taken, k) <= all
    decreases k
  {
    if k > 0 {
      WaitingUnion(original, reprs, taken, all, k - 1);
    }
  }

  lemma {:induction false} WaitingIsAllocated(original: seq<TreeNode>, reprs: seq<set<TreeNode>>, taken: seq<int>,
      k: nat)
    requires |reprs| == |original| && k <= |original|
    ensures forall o | o in WaitingIn(original, reprs, taken, k) :: allocated(o)
    decreases k
  {
    if k > 0 {
      WaitingIsAllocated(original, reprs, taken, k - 1);
    }
  }

  /** The old elements not taken yet are as they were. */
  ghost predicate Untouched(original: seq<TreeNode>, reprs: seq<set<TreeNode>>, trees: seq<Node>, taken: seq<int>)
    requires |reprs| == |trees| == |original|
    reads Waiting(original, reprs, taken)
  {
    forall m | 0 <= m < |original| && m !in taken ::
      original[m].repr == reprs[m] && original[m].Valid() && original[m].tree == trees[m]
  }

  lemma AllUntouched(original: seq<TreeNode>)
    requires ValidList(original)
    ensures Untouched(original, Reprs(original), Trees(original), [])
    ensures Waiting(original, Reprs(original), []) <= Foot(original)
    ensures AllApart(Reprs(original))
  {
    hide TreeNode.Valid, ValidList, Foot, Trees, Reprs;
    PairwiseApart(original);
    AllInFoot(original);
    WaitingUnion(original, Reprs(original), [], Foot(original), |original|);
  }

  lemma Take(original: seq<TreeNode>, reprs: seq<set<TreeNode>>, trees: seq<Node>, taken: seq<int>, c: int)
    requires |reprs| == |trees| == |original| && Untouched(original, reprs, trees, taken)
    requires AllApart(reprs)
    requires c !in taken || c < 0
    requires c < |original|
    ensures Untouched(original, reprs, trees, taken + [c])
    ensures Waiting(original, reprs, taken + [c]) <= Waiting(original, reprs, taken)
    ensures forall o | o in Waiting(original, reprs, taken) :: allocated(o)
    ensures c >= 0 ==> original[c].Valid() && original[c].repr == reprs[c] && original[c].tree == trees[c]
    ensures c >= 0 ==> reprs[c] <= Waiting(original, reprs, taken) && reprs[c] !! Waiting(original, reprs, taken + [c])
  {
    hide TreeNode.Valid, WaitingIn;
    forall m | 0 <= m < |original| && m !in taken ensures original[m] in reprs[m] {
      ContentIsValid(original[m]);
    }
    WaitingLess(original, reprs, taken, c, |original|);
    WaitingIsAllocated(original, reprs, taken, |original|);
  }

  function MergedPrefix(lower: Bytes -> Bytes, original: seq<Node>, chosen: seq<int>, targets: seq<Node>,
      path: Path, k: nat): (r: seq<Node>)
    requires k <= |chosen| == |targets| && Within(chosen, |original|)
    ensures |r| == k && forall i | 0 <= i < k :: r[i] == MergedItem(lower, original, chosen[i], targets[i], path)
  {
    if k == 0 then []
    else
      var last := MergedItem(lower, original, chosen[k - 1], targets[k - 1], path);
      MergedPrefix(lower, original, chosen, targets, path, k - 1) + [last]
  }

  /** Fills the next place of a list, with old element c if that is one. */
  method NextItem(lower: Bytes -> Bytes, original: seq<TreeNode>, ghost reprs: seq<set<TreeNode>>,
      ghost trees: seq<Node>,
                  ghost taken: seq<int>, c: int, s: TreeNode, path: Path, items: seq<TreeNode>)
    returns (more: seq<TreeNode>, ghost added: set<TreeNode>)
    requires |reprs| == |trees| == |original| && c < |original| && (c !in taken || c < 0)
    requires AllApart(reprs)
    requires Untouched(original, reprs, trees, taken) && ValidList(items) && s.Valid()
    requires Foot(items) !! Waiting(original, reprs, taken) && s.repr !! Waiting(original, reprs, taken)
    modifies if c < 0 then {} else original[c].repr
    ensures Untouched(original, reprs, trees, taken + [c]) && ValidList(more)
    ensures Waiting(original, reprs, taken + [c]) <= Waiting(original, reprs, taken)
    ensures Foot(more) !! Waiting(original, reprs, taken + [c])
    ensures fresh(added) && Foot(more) <= old(Foot(items)) + Waiting(original, reprs, taken) + added
    ensures Trees(more) == old(Trees(items)) + [MergedItem(lower, trees, c, old(s.tree), path)]
    ensures |more| == |items| + 1 && more == items + [more[|items|]]
    ensures c >= 0 ==> more[|items|] == original[c]
    decreases s.repr, 5
  {
    hide TreeNode.Valid, ValidList, Foot, Trees, Waiting, Untouched, MergedElement;
    Settled(items);
    ContentIsValid(s);
    Take(original, reprs, trees, taken, c);
    var was: TreeNode? := null;
    if c >= 0 {
      was := original[c];
    }
    var item := MergeItem(lower, was, s, path);
    ListPush(items, item);
    more := items + [item];
    added := item.repr - if c < 0 then {} else reprs[c];
  }

  /** The loop of mergeNodePreserve over the elements of a list: each old node serves at most once. */
  method MergeItems(lower: Bytes -> Bytes, original: seq<TreeNode>, chosen: seq<int>, targets: seq<TreeNode>,
      path: Path)
    returns (items: seq<TreeNode>)
    requires ValidList(original) && ValidList(targets) && Foot(original) !! Foot(targets)
    requires |chosen| == |targets| && Within(chosen, |original|) && EachOnce(chosen)
    modifies Foot(original)
    ensures ValidList(items) && fresh(Foot(items) - old(Foot(original))) && |items| == |targets|
    ensures Trees(items) == MergedPrefix(lower, old(Trees(original)), chosen, old(Trees(targets)), path, |chosen|)
    ensures Reused(original, chosen, items)
    decreases Foot(targets), 6
  {
    hide TreeNode.Valid, ValidList, Foot, Trees, Reprs, Waiting, Untouched, MergedItem, AllApart, EachOnce, Reused;
    items := [];
    EmptyList();
    NoneReused(original, chosen);
    AllUntouched(original);
    ghost var foot, trees, reprs, news := Foot(original), Trees(original), Reprs(original), Trees(targets);
    ghost var added: set<TreeNode> := {};
    assert chosen[..0] == [];
    for i := 0 to |targets|
      invariant |items| == i && ValidList(items) && fresh(added) && Foot(items) <= foot + added
      invariant ValidList(targets) && Foot(targets) == old(Foot(targets)) && Trees(targets) == news
      invariant Untouched(original, reprs, trees, chosen[..i])
      invariant Foot(items) !! Waiting(original, reprs, chosen[..i]) && Waiting(original, reprs, chosen[..i]) <= foot
      invariant Trees(items) == MergedPrefix(lower, trees, chosen, news, path, i)
      invariant Reused(original, chosen, items)
    {
      Settled(targets);
      ChildIsValid(targets, i);
      NotTaken(chosen, i);
      WaitsInside(original, reprs, trees, chosen[..i], chosen[i], foot);
      ghost var before := items;
      ghost var more: set<TreeNode>;
      items, more := NextItem(lower, original, reprs, trees, chosen[..i], chosen[i], targets[i], path, items);
      added := added + more;
      ReuseNext(original, chosen, before, items[i]);
    }
  }

  lemma WaitsInside(original: seq<TreeNode>, reprs: seq<set<TreeNode>>, trees: seq<Node>, taken: seq<int>, c: int,
      foot: set<TreeNode>)
    requires |reprs| == |trees| == |original| && Untouched(original, reprs, trees, taken)
    requires c < |original| && (c !in taken || c < 0) && Waiting(original, reprs, taken) <= foot
    ensures c >= 0 ==> original[c].repr <= foot
  {
    hide Waiting;
  }

  lemma NotTaken(chosen: seq<int>, i: nat)
    requires i < |chosen| && EachOnce(chosen)
    ensures chosen[..i + 1] == chosen[..i] + [chosen[i]]
    ensures chosen[i] !in chosen[..i] || chosen[i] < 0
  {
  }

  /** The old node at each place of a merged list, if one is reused there. */
  ghost predicate Reuses(lower: Bytes -> Bytes, was: seq<TreeNode>, now: seq<TreeNode>, t: Node, s: Node) {
    && |was| == |t.content|
    && |now| == |s.content|
    && var chosen := Chosen(lower, t.content, s.content, |s.content|);
       Reused(was, chosen, now)
  }

  /** Merging a sequence: its new elements are old nodes where one matches, and copies elsewhere. */
  method MergeSequence(lower: Bytes -> Bytes, d: TreeNode, s: TreeNode, path: Path)
    requires d.Valid() && s.Valid() && d.repr !! s.repr && s.kind == Sequence
    modifies d.repr
    ensures d.Valid() && fresh(d.repr - old(d.repr)) && d.tree == Merged(lower, old(d.tree), s.tree, path)
    ensures old(d.kind) == Sequence ==> Reuses(lower, old(d.content), d.content, old(d.tree), s.tree)
    decreases s.repr, 1
  {
    hide TreeNode.Valid, ValidList, Foot, Trees, Chosen, Merged, MergedElement;
    ContentIsValid(d);
    ContentIsValid(s);
    ghost var t := d.tree;
    if d.kind == Scalar && d.tag == TAG_NULL && |s.content| == 0 {
      MergedNull(lower, t, s.tree, path);
      return;
    }
    if d.kind != Sequence {
      EmptyList();
      d.SetFace(Sequence, TAG_SEQ, d.value);
      d.SetContent([]);
    }
    MergeElements(lower, d, s, path);
    MergedList(lower, t, s.tree, path);
  }

  lemma MergedNull(lower: Bytes -> Bytes, t: Node, s: Node, path: Path)
    requires s.kind == Sequence && t.kind == Scalar && t.tag == TAG_NULL && s.content == []
    ensures Merged(lower, t, s, path) == t
  {
  }

  function MergedItems(lower: Bytes -> Bytes, original: seq<Node>, s: Node, path: Path): seq<Node> {
    var chosen := Chosen(lower, original, s.content, |s.content|);
    seq(|s.content|, i requires 0 <= i < |s.content| => MergedItem(lower, original, chosen[i], s.content[i], path))
  }

  lemma PrefixIsAll(lower: Bytes -> Bytes, original: seq<Node>, s: Node, path: Path)
    ensures var chosen := Chosen(lower, original, s.content, |s.content|);
            MergedPrefix(lower, original, chosen, s.content, path, |chosen|) == MergedItems(lower, original, s, path)
  {
    hide Chosen, MergedItem;
  }

  lemma MergedList(lower: Bytes -> Bytes, t: Node, s: Node, path: Path)
    requires s.kind == Sequence && !StaysNull(t, s)
    ensures Merged(lower, t, s, path)
              == SequenceBase(t).(content := MergedItems(lower, SequenceBase(t).content, s, path))
  {
    hide Chosen, MergedElement;
  }

  method MergeElements(lower: Bytes -> Bytes, d: TreeNode, s: TreeNode, path: Path)
    requires d.Valid() && s.Valid() && d.repr !! s.repr
    modifies d.repr
    ensures d.Valid() && fresh(d.repr - old(d.repr))
    ensures d.tree == old(d.tree).(content := MergedItems(lower, old(d.tree).content, s.tree, path))
    ensures Reuses(lower, old(d.content), d.content, old(d.tree), s.tree)
    decreases s.repr, 0
  {
    hide TreeNode.Valid, ValidList, Foot, Trees, Chosen, MergedItem, MergedItems, MergedPrefix, EachOnce, Reused,
        Within;
    ContentIsValid(d);
    ContentIsValid(s);
    ghost var t := d.tree;
    var chosen := Reorder(lower, SnapshotAll(d.content), SnapshotAll(s.content));
    ChosenOnce(lower, t.content, s.tree.content);
    var items := MergeItems(lower, d.content, chosen, s.content, path);
    d.SetContent(items);
    PrefixIsAll(lower, t.content, s.tree, path);
  }

  lemma ChosenOnce(lower: Bytes -> Bytes, original: seq<Node>, targets: seq<Node>)
    ensures var chosen := Chosen(lower, original, targets, |targets|);
            Within(chosen, |original|) && EachOnce(chosen)
  {
    hide Chosen;
    forall i | 0 <= i < |targets|
      ensures var chosen := Chosen(lower, original, targets, |targets|);
              forall j | i < j < |chosen| :: chosen[i] < 0 || chosen[i] != chosen[j]
    {
      YamlUnchanged.EachElementOnce(lower, original, targets, |targets|, i);
    }
  }

  /** mergeNodePreserve: what it leaves behind is the merged tree, in the node it was given. */
  method MergeNode(lower: Bytes -> Bytes, d: TreeNode, s: TreeNode, path: Path)
    requires d.Valid() && s.Valid() && d.repr !! s.repr
    modifies d.repr
    ensures d.Valid() && fresh(d.repr - old(d.repr)) && d.tree == Merged(lower, old(d.tree), s.tree, path)
    decreases s.repr, 2
  {
    hide TreeNode.Valid, ValidList, Foot, Trees, Chosen, MergedElement, MergedPairs;
    ContentIsValid(d);
    ContentIsValid(s);
    match s.kind {
      case Mapping =>
        if d.kind != Mapping {
          Overwrite(d, s);
          ContentIsValid(d);
        }
        MergeMapping(lower, d, s, path);
      case Sequence => MergeSequence(lower, d, s, path);
      case Scalar => d.SetFace(s.kind, s.tag, s.value);
      case Document => Overwrite(d, s);
      case Unset =>
    }
  }
}
