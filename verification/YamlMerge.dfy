/** The tree that merging a generated configuration into the file's tree leaves behind. */
module YamlMerge {
  import opened ByteStrings
  import opened YamlNodes

  /** The first element from i on that is not taken and satisfies the test, or -1. */
  function FirstWhere(original: seq<Node>, taken: seq<int>, test: Node -> bool, i: nat): (r: int)
    ensures -1 <= r < |original| && (r >= 0 ==> r >= i && r !in taken && test(original[r]))
    ensures forall m | i <= m < |original| && (r < 0 || m < r) :: m in taken || !test(original[m])
    decreases |original| - i
  {
    if i >= |original| then -1
    else if i !in taken && test(original[i]) then i
    else FirstWhere(original, taken, test, i + 1)
  }

  /** matchSequenceElement */
  function Matched(lower: Bytes -> Bytes, original: seq<Node>, taken: seq<int>, target: Node): (r: int)
    ensures -1 <= r < |original| && (r >= 0 ==> r !in taken)
    ensures r >= 0 ==> Identified(lower, original[r], target) || SameStructure(original[r], target)
  {
    var identified := FirstWhere(original, taken, n => Identified(lower, n, target), 0);
    if identified >= 0 then identified else FirstWhere(original, taken, n => SameStructure(n, target), 0)
  }

  /** The old element reused for each of the first k new ones, or -1: reorderSequenceForMerge. */
  function Chosen(lower: Bytes -> Bytes, original: seq<Node>, targets: seq<Node>, k: nat): (chosen: seq<int>)
    requires k <= |targets|
    ensures |chosen| == k && forall i | 0 <= i < k :: -1 <= chosen[i] < |original|
  {
    if k == 0 then []
    else
      var front := Chosen(lower, original, targets, k - 1);
      front + [Matched(lower, original, front, targets[k - 1])]
  }

  /** copyNodeShallow */
  function Overwritten(d: Node, s: Node): Node {
    d.(kind := s.kind, tag := s.tag, value := s.value, content := s.content)
  }

  /** An explicit null stays in place of an empty list. */
  predicate StaysNull(d: Node, s: Node) {
    d.kind == Scalar && d.tag == TAG_NULL && s.content == []
  }

  /** The node whose content a mapping, or a sequence, is merged into. */
  function MappingBase(d: Node, s: Node): Node {
    if d.kind == Mapping then d else Overwritten(d, s)
  }

  function SequenceBase(d: Node): Node {
    if d.kind == Sequence then d else d.(kind := Sequence, tag := TAG_SEQ, content := [])
  }

  /** mergeNodePreserve, and with two mappings mergeMappingPreserve. */
  function Merged(lower: Bytes -> Bytes, d: Node, s: Node, path: Path): Node
    decreases s, |s.content| + 1
  {
    match s.kind
    case Mapping =>
      var base := MappingBase(d, s);
      base.(content := MergedPairs(lower, base.content, s, path, Pairs(s.content)))
    case Sequence =>
      if StaysNull(d, s) then d
      else
        var base := SequenceBase(d);
        var chosen := Chosen(lower, base.content, s.content, |s.content|);
        base.(content := seq(|s.content|, i requires 0 <= i < |s.content| =>
          if chosen[i] < 0 then s.content[i]
          else MergedElement(lower, base.content[chosen[i]], s.content[i], path)))
    case Scalar => d.(kind := Scalar, tag := s.tag, value := s.value)
    case Document => Overwritten(d, s)
    case Unset => d
  }

  /** A list element that is reused loses the keys the generated one does not have. */
  function MergedElement(lower: Bytes -> Bytes, d: Node, s: Node, path: Path): Node
    decreases s, |s.content| + 2
  {
    var m := Merged(lower, d, s, path);
    if m.kind == Mapping && s.kind == Mapping then OnlyKeysOf(m, s) else m
  }

  /** The content after merging the first k generated pairs into it. */
  function MergedPairs(lower: Bytes -> Bytes, content: seq<Node>, s: Node, path: Path, k: nat): seq<Node>
    requires k <= Pairs(s.content)
    decreases s, k
  {
    if k == 0 then content
    else
      var front := MergedPairs(lower, content, s, path, k - 1);
      MergedPair(lower, front, s.content[2 * k - 2], s.content[2 * k - 1], path)
  }

  /** The content after merging one generated pair into it. */
  function MergedPair(lower: Bytes -> Bytes, content: seq<Node>, key: Node, v: Node, path: Path): seq<Node>
    decreases v, |v.content| + 2
  {
    var j := FindPair(content, key.value);
    if j >= 0 then content[2 * j + 1 := Merged(lower, content[2 * j + 1], v, path + [key.value])]
    else if AddsNothing(path + [key.value], v) then content
    else content + [key, Pruned(path + [key.value], v)]
  }

  /** A key the file lacks is not added when what pruning leaves of its value is a known default. */
  predicate AddsNothing(path: Path, v: Node) {
    IsDefault(path, Pruned(path, v))
  }
}
