/** Copying a node graph that may share nodes or be cyclic: deepCopyNodeSeen in internal/config/config_yaml.go. */
module YamlGraph {
  import opened YamlNodes
  import opened ByteStrings

  datatype Face = Face(kind: Kind, tag: Bytes, value: Bytes, notes: Bytes)

  class GraphNode {
    var face: Face
    var target: GraphNode?
    var content: seq<GraphNode?>

    constructor (face: Face, content: seq<GraphNode?>)
      ensures this.face == face && target == null && this.content == content
    {
      this.face, target, this.content := face, null, content;
    }
  }

  /** No edge leaves the set. */
  ghost predicate Closed(nodes: set<GraphNode>)
    reads nodes
  {
    forall n | n in nodes ::
      && (n.target != null ==> n.target in nodes)
      && (forall i | 0 <= i < |n.content| && n.content[i] != null :: n.content[i] in nodes)
  }

  /** Where the copies of a node's edge leads. */
  ghost predicate MapsTo(copies: map<GraphNode, GraphNode>, n: GraphNode?, cp: GraphNode?) {
    if n == null then cp == null else n in copies && cp == copies[n]
  }

  /** The copy carries the face of the original, and its edges lead to the copies of the original's. */
  ghost predicate Mirrored(copies: map<GraphNode, GraphNode>, n: GraphNode)
    requires n in copies
    reads n, copies[n]
  {
    var cp := copies[n];
    && cp.face == n.face
    && MapsTo(copies, n.target, cp.target)
    && |cp.content| == |n.content|
    && (forall i | 0 <= i < |n.content| :: MapsTo(copies, n.content[i], cp.content[i]))
  }

  ghost predicate Injective(copies: map<GraphNode, GraphNode>) {
    forall a, b | a in copies && b in copies && copies[a] == copies[b] :: a == b
  }

  ghost predicate Extends(before: map<GraphNode, GraphNode>, after: map<GraphNode, GraphNode>) {
    before.Keys <= after.Keys && forall k | k in before :: after[k] == before[k]
  }

  lemma MapsToGrows(before: map<GraphNode, GraphNode>, after: map<GraphNode, GraphNode>, n: GraphNode?, cp: GraphNode?)
    requires Extends(before, after) && MapsTo(before, n, cp)
    ensures MapsTo(after, n, cp)
  {
  }

  ghost function Images(copies: map<GraphNode, GraphNode>, finished: set<GraphNode>): (images: set<GraphNode>)
    requires finished <= copies.Keys
    ensures images <= copies.Values
  {
    set k | k in finished :: copies[k]
  }

  lemma NotAmongImages(copies: map<GraphNode, GraphNode>, nodes: set<GraphNode>, finished: set<GraphNode>, n: GraphNode)
    requires finished <= copies.Keys && Sound(copies, nodes) && n in copies && n !in finished
    ensures copies[n] !in Images(copies, finished) && copies[n] !in finished
  {
    assert forall k | k in finished :: k != n && copies[k] != copies[n];
    assert copies[n] in copies.Values;
  }

  /** Every finished node is mirrored by its copy. */
  ghost predicate AllMirrored(copies: map<GraphNode, GraphNode>, finished: set<GraphNode>)
    requires finished <= copies.Keys
    reads finished, Images(copies, finished)
  {
    forall k | k in finished :: Mirrored(copies, k)
  }

  /** Copies lie outside the graph, and no two nodes share one. */
  ghost predicate Sound(copies: map<GraphNode, GraphNode>, nodes: set<GraphNode>) {
    copies.Keys <= nodes && copies.Values !! nodes && Injective(copies)
  }

  lemma AllMirroredGrows(before: map<GraphNode, GraphNode>, after: map<GraphNode, GraphNode>, finished: set<GraphNode>)
    requires Extends(before, after) && finished <= before.Keys && AllMirrored(before, finished)
    ensures AllMirrored(after, finished)
  {
    forall k | k in finished ensures Mirrored(after, k) {
      assert Mirrored(before, k);
    }
  }

  lemma EdgesGrow(before: map<GraphNode, GraphNode>, after: map<GraphNode, GraphNode>,
                  ns: seq<GraphNode?>, cs: seq<GraphNode?>, k: nat)
    requires Extends(before, after) && k <= |ns| == |cs|
    requires forall j | 0 <= j < k :: MapsTo(before, ns[j], cs[j])
    ensures forall j | 0 <= j < k :: MapsTo(after, ns[j], cs[j])
  {
  }

  lemma KnownMaps(copies: map<GraphNode, GraphNode>, n: GraphNode?)
    requires n == null || n in copies
    ensures MapsTo(copies, n, if n == null then null else copies[n])
  {
  }

  lemma LastMirrored(copies: map<GraphNode, GraphNode>, n: GraphNode, finished: set<GraphNode>)
    requires n in copies && finished <= copies.Keys && AllMirrored(copies, finished)
    requires copies[n].face == n.face && MapsTo(copies, n.target, copies[n].target)
    requires |copies[n].content| == |n.content|
    requires forall j | 0 <= j < |n.content| :: MapsTo(copies, n.content[j], copies[n].content[j])
    ensures AllMirrored(copies, finished + {n})
  {
  }

  lemma OneMore(copies: map<GraphNode, GraphNode>, n: GraphNode, c: GraphNode, nodes: set<GraphNode>)
    requires Sound(copies, nodes) && n in nodes && n !in copies && c !in nodes && c !in copies.Values
    ensures Sound(copies[n := c], nodes)
    ensures Extends(copies, copies[n := c])
  {
    var more := copies[n := c];
    assert more.Values <= copies.Values + {c};
    forall x | x in copies ensures copies[x] != c {
      assert copies[x] in copies.Values;
    }
  }

  /** What is known while copying: the finished nodes are mirrored, the others met are being copied. */
  ghost predicate Copying(copies: map<GraphNode, GraphNode>, nodes: set<GraphNode>, finished: set<GraphNode>)
    requires finished <= copies.Keys
    reads finished, Images(copies, finished)
  {
    Sound(copies, nodes) && AllMirrored(copies, finished)
  }

  /** Nodes met since then count as finished. */
  ghost function Finished(seen: map<GraphNode, GraphNode>, met: map<GraphNode, GraphNode>,
      finished: set<GraphNode>): set<GraphNode> {
    finished + (met.Keys - seen.Keys)
  }

  method NewCopy(n: GraphNode, seen: map<GraphNode, GraphNode>, ghost nodes: set<GraphNode>,
      ghost finished: set<GraphNode>)
    returns (c: GraphNode, met: map<GraphNode, GraphNode>)
    requires finished <= seen.Keys && Copying(seen, nodes, finished) && n in nodes && n !in seen
    ensures fresh(c) && c.face == n.face && c.target == null && |c.content| == |n.content|
    ensures met == seen[n := c] && Extends(seen, met) && Copying(met, nodes, finished) && MapsTo(met, null, null)
  {
    hide Mirrored, AllMirrored, MapsTo, Sound, Images;
    c := new GraphNode(n.face, seq(|n.content|, _ => null));
    OneMore(seen, n, c, nodes);
    assert c !in finished && c !in Images(seen, finished);
    AllMirroredGrows(seen, seen[n := c], finished);
    met := seen[n := c];
    KnownMaps(met, null);
  }

  /**
   * Copies what n reaches and was not met before, into fresh nodes, and changes nothing else. nodes is any
   * set that n does not reach out of; the nodes of it not yet met are what the recursion uses up.
   */
  method DeepCopySeen(n: GraphNode?, seen: map<GraphNode, GraphNode>,
                      ghost nodes: set<GraphNode>, ghost finished: set<GraphNode>)
    returns (cp: GraphNode?, met: map<GraphNode, GraphNode>)
    requires Closed(nodes) && finished <= seen.Keys && Copying(seen, nodes, finished)
    requires n != null ==> n in nodes
    ensures Extends(seen, met) && MapsTo(met, n, cp)
    ensures Copying(met, nodes, Finished(seen, met, finished))
    ensures forall k | k in met && k !in seen :: fresh(met[k])
    decreases nodes - seen.Keys, 1
  {
    hide Mirrored, AllMirrored, MapsTo, Sound, Images;
    if n == null || n in seen {
      KnownMaps(seen, n);
      assert Finished(seen, seen, finished) == finished;
      return if n == null then null else seen[n], seen;
    }
    var c;
    c, met := NewCopy(n, seen, nodes, finished);
    ghost var first := met;
    assert n in nodes - seen.Keys && n !in nodes - met.Keys;
    ghost var done := finished;
    if n.target != null {
      var t;
      t, met := DeepCopySeen(n.target, met, nodes, done);
      done := Finished(first, met, finished);
      NotAmongImages(met, nodes, done, n);
      c.target := t;
    }
    ghost var before := met;
    met := CopyContent(n, c, met, nodes, done);
    MapsToGrows(before, met, n.target, c.target);
    done := Finished(before, met, done);
    LastMirrored(met, n, done);
    assert done + {n} == Finished(seen, met, finished);
    KnownMaps(met, n);
    cp := c;
  }

  method CopyContent(n: GraphNode, c: GraphNode, seen: map<GraphNode, GraphNode>,
                     ghost nodes: set<GraphNode>, ghost finished: set<GraphNode>)
    returns (met: map<GraphNode, GraphNode>)
    requires Closed(nodes) && finished <= seen.Keys && Copying(seen, nodes, finished)
    requires n in nodes && n in seen && seen[n] == c && n !in finished && c !in nodes
    requires |c.content| == |n.content|
    modifies c
    ensures c.face == old(c.face) && c.target == old(c.target)
    ensures Extends(seen, met) && Copying(met, nodes, Finished(seen, met, finished))
    ensures forall k | k in met && k !in seen :: fresh(met[k])
    ensures |c.content| == |n.content|
    ensures forall j | 0 <= j < |n.content| :: MapsTo(met, n.content[j], c.content[j])
    decreases nodes - seen.Keys, 2
  {
    hide Mirrored, AllMirrored, MapsTo, Sound, Images;
    met := seen;
    ghost var done := finished;
    assert done == Finished(seen, met, finished);
    for i := 0 to |n.content|
      invariant Extends(seen, met) && done == Finished(seen, met, finished)
      invariant Copying(met, nodes, done)
      invariant forall k | k in met && k !in seen :: fresh(met[k])
      invariant c.face == old(c.face) && c.target == old(c.target) && |c.content| == |n.content|
      invariant forall j | 0 <= j < i :: MapsTo(met, n.content[j], c.content[j])
    {
      ghost var before := met;
      var child;
      child, met := DeepCopySeen(n.content[i], met, nodes, done);
      EdgesGrow(before, met, n.content, c.content, i);
      assert Finished(before, met, done) == Finished(seen, met, finished);
      done := Finished(seen, met, finished);
      NotAmongImages(met, nodes, done, n);
      c.content := c.content[i := child];
    }
  }

  /** A copy of everything n reaches: the same graph again, node for node and edge for edge. */
  ghost predicate IsCopy(copies: map<GraphNode, GraphNode>)
    reads copies.Keys, copies.Values
  {
    && Injective(copies)
    && Closed(copies.Keys)
    && Closed(copies.Values)
    && copies.Keys !! copies.Values
    && (forall k | k in copies.Keys :: Mirrored(copies, k))
  }

  lemma MirroredIsCopy(copies: map<GraphNode, GraphNode>, nodes: set<GraphNode>)
    requires Sound(copies, nodes) && AllMirrored(copies, copies.Keys)
    ensures IsCopy(copies)
  {
    forall k | k in copies.Keys ensures Mirrored(copies, k) {
    }
    forall c | c in copies.Values
      ensures c.target != null ==> c.target in copies.Values
      ensures forall i | 0 <= i < |c.content| && c.content[i] != null :: c.content[i] in copies.Values
    {
      var k :| k in copies && copies[k] == c;
      assert Mirrored(copies, k);
      forall i | 0 <= i < |c.content| && c.content[i] != null ensures c.content[i] in copies.Values {
        assert MapsTo(copies, k.content[i], c.content[i]);
      }
    }
    forall k | k in copies.Keys
      ensures k.target != null ==> k.target in copies.Keys
      ensures forall i | 0 <= i < |k.content| && k.content[i] != null :: k.content[i] in copies.Keys
    {
      assert Mirrored(copies, k);
      forall i | 0 <= i < |k.content| && k.content[i] != null ensures k.content[i] in copies.Keys {
        assert MapsTo(copies, k.content[i], copies[k].content[i]);
      }
    }
  }

  /** deepCopyNode: what is copied is the part of the graph that n reaches, within any set it cannot leave. */
  method DeepCopy(n: GraphNode, ghost nodes: set<GraphNode>) returns (cp: GraphNode,
      ghost copies: map<GraphNode, GraphNode>)
    requires Closed(nodes) && n in nodes
    ensures n in copies && cp == copies[n] && IsCopy(copies) && copies.Keys <= nodes
    ensures forall k | k in copies :: fresh(copies[k])
  {
    hide Mirrored, AllMirrored;
    NothingCopied(nodes);
    var c, met := DeepCopySeen(n, map[], nodes, {});
    assert Finished(map[], met, {}) == met.Keys;
    MirroredIsCopy(met, nodes);
    cp, copies := c, met;
  }

  lemma NothingCopied(nodes: set<GraphNode>)
    ensures Copying(map[], nodes, {})
  {
  }

  /** What a reader sees from a node down to some depth. */
  datatype Unfolding = Cut | Absent | Branch(face: Face, target: Unfolding, content: seq<Unfolding>)

  ghost function Unfold(n: GraphNode?, nodes: set<GraphNode>, depth: nat): Unfolding
    requires Closed(nodes) && (n != null ==> n in nodes)
    reads nodes
    decreases depth, 0
  {
    if n == null then Absent
    else if depth == 0 then Cut
    else Branch(n.face, Unfold(n.target, nodes, depth - 1), UnfoldAll(n.content, nodes, depth - 1))
  }

  ghost function UnfoldAll(children: seq<GraphNode?>, nodes: set<GraphNode>, depth: nat): seq<Unfolding>
    requires Closed(nodes) && forall i | 0 <= i < |children| && children[i] != null :: children[i] in nodes
    reads nodes
    decreases depth, |children| + 1
  {
    if children == [] then [] else [Unfold(children[0], nodes, depth)] + UnfoldAll(children[1..], nodes, depth)
  }

  /** No reader can tell the copy from the original, however deep it looks and whatever cycles there are. */
  lemma {:induction false} CopyUnfoldsAlike(copies: map<GraphNode, GraphNode>, n: GraphNode?, c: GraphNode?, depth: nat)
    requires IsCopy(copies) && MapsTo(copies, n, c)
    ensures Unfold(n, copies.Keys, depth) == Unfold(c, copies.Values, depth)
    decreases depth, 0
  {
    if n != null && depth > 0 {
      assert Mirrored(copies, n);
      CopyUnfoldsAlike(copies, n.target, c.target, depth - 1);
      ChildrenUnfoldAlike(copies, n.content, c.content, depth - 1);
    }
  }

  lemma {:induction false} ChildrenUnfoldAlike(copies: map<GraphNode, GraphNode>,
                                               ns: seq<GraphNode?>, cs: seq<GraphNode?>, depth: nat)
    requires IsCopy(copies) && |ns| == |cs| && forall i | 0 <= i < |ns| :: MapsTo(copies, ns[i], cs[i])
    ensures forall i | 0 <= i < |ns| && ns[i] != null :: ns[i] in copies.Keys
    ensures forall i | 0 <= i < |cs| && cs[i] != null :: cs[i] in copies.Values
    ensures UnfoldAll(ns, copies.Keys, depth) == UnfoldAll(cs, copies.Values, depth)
    decreases depth, |ns| + 1
  {
    if ns != [] {
      CopyUnfoldsAlike(copies, ns[0], cs[0], depth);
      ChildrenUnfoldAlike(copies, ns[1..], cs[1..], depth);
    }
  }
}
