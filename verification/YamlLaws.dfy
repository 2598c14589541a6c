/** What a save adds, and what makes list elements match, written out: internal/config/config_yaml.go. */
module YamlLaws {
  import opened ByteStrings
  import opened YamlNodes
  import opened YamlMerge
  import opened YamlDefaults
  import opened YamlAgreement

  // ---------------------------------------------------------------- new keys

  lemma NewKeyIff(lower: Bytes -> Bytes, d: Node, s: Node, path: Path, j: nat)
    requires d.kind == Mapping && s.kind == Mapping && Parsed(d) && Generated(s) && j < Pairs(s.content)
    requires forall m | 0 <= m < Pairs(d.content) :: KeyAt(d.content, m) != KeyAt(s.content, j)
    ensures Lookup(Merged(lower, d, s, path).content, KeyAt(s.content, j))
         == if SaysNothing(path + [KeyAt(s.content, j)], ValueAt(s.content, j)) then None
            else Some(Pruned(path + [KeyAt(s.content, j)], ValueAt(s.content, j)))
  {
    hide MergedPairs, SaysNothing, Pruned, Generated;
    GeneratedMapping(s);
    MergedLookup(lower, d.content, s, path, Pairs(s.content), KeyAt(s.content, j));
  }

  /**
   * A scalar under a key the file lacks is saved, as it is, unless it has no content or is what the program
   * assumes anyway; an integer weight is always saved.
   */
  lemma NewScalarIff(lower: Bytes -> Bytes, d: Node, s: Node, path: Path, j: nat)
    requires d.kind == Mapping && s.kind == Mapping && Parsed(d) && Generated(s) && j < Pairs(s.content)
    requires forall m | 0 <= m < Pairs(d.content) :: KeyAt(d.content, m) != KeyAt(s.content, j)
    requires ValueAt(s.content, j).kind == Scalar
    ensures var key, v := KeyAt(s.content, j), ValueAt(s.content, j);
            Lookup(Merged(lower, d, s, path).content, key)
              == if !(key == Ascii("weight") && v.tag == Ascii("!!int")) && (NoContent(v) || Assumed(path + [key], v))
                 then None else Some(v)
  {
    hide Merged, Lookup, NoContent, Assumed, Generated;
    NewKeyIff(lower, d, s, path, j);
  }

  /** A list under a key the file lacks is left out exactly when all its elements are hollow once pruned. */
  lemma NewListIff(lower: Bytes -> Bytes, d: Node, s: Node, path: Path, j: nat)
    requires d.kind == Mapping && s.kind == Mapping && Parsed(d) && Generated(s) && j < Pairs(s.content)
    requires forall m | 0 <= m < Pairs(d.content) :: KeyAt(d.content, m) != KeyAt(s.content, j)
    requires ValueAt(s.content, j).kind == Sequence
    ensures var key, v := KeyAt(s.content, j), ValueAt(s.content, j);
            var held := Lookup(Merged(lower, d, s, path).content, key);
            && (held.None? <==> forall i | 0 <= i < |v.content| :: HollowWhenPruned(path + [key], v.content[i]))
            && (held.Some? ==> held.value.kind == Sequence && |held.value.content| == |v.content|)
  {
    hide Merged, Lookup, Generated;
    NewKeyIff(lower, d, s, path, j);
  }

  // ---------------------------------------------------------------- identities

  /** The keys that identify a list element, strongest first. */
  lemma IdentityKeysAre()
    ensures |IDENTITY_KEYS| == 9
    ensures IDENTITY_KEYS[0] == Ascii("id") && IDENTITY_KEYS[1] == Ascii("name") && IDENTITY_KEYS[2] == Ascii("alias")
    ensures IDENTITY_KEYS[3] == Ascii("api-key") && IDENTITY_KEYS[4] == Ascii("api_key")
    ensures IDENTITY_KEYS[5] == Ascii("apikey") && IDENTITY_KEYS[6] == Ascii("key")
    ensures IDENTITY_KEYS[7] == Ascii("provider") && IDENTITY_KEYS[8] == Ascii("model")
  {
  }

  /** Pair i is the first scalar under this name, in whatever case and spacing. */
  ghost predicate FirstUnder(lower: Bytes -> Bytes, content: seq<Node>, name: Bytes, i: nat) {
    && i < Pairs(content) && ValueAt(content, i).kind == Scalar && lower(TrimSpace(KeyAt(content, i))) == lower(name)
    && forall m | 0 <= m < i :: ValueAt(content, m).kind != Scalar || lower(TrimSpace(KeyAt(content, m))) != lower(name)
  }

  /** The text under a name. */
  ghost predicate TextUnder(lower: Bytes -> Bytes, content: seq<Node>, name: Bytes, text: Bytes) {
    || (exists i: nat :: FirstUnder(lower, content, name, i) && text == TrimSpace(ValueAt(content, i).value))
    || (text == [] && forall i: nat :: !FirstUnder(lower, content, name, i))
  }

  lemma {:induction false} ScalarFromFound(lower: Bytes -> Bytes, content: seq<Node>, name: Bytes, j: nat, i: nat)
    requires j <= i < Pairs(content) && ValueAt(content, i).kind == Scalar
    requires lower(TrimSpace(KeyAt(content, i))) == lower(name)
    requires forall m | j <= m < i ::
               ValueAt(content, m).kind != Scalar || lower(TrimSpace(KeyAt(content, m))) != lower(name)
    ensures ScalarFrom(lower, content, name, j) == TrimSpace(ValueAt(content, i).value)
    decreases i - j
  {
    hide TrimSpace;
    if j < i {
      ScalarFromFound(lower, content, name, j + 1, i);
    }
  }

  lemma {:induction false} ScalarFromNone(lower: Bytes -> Bytes, content: seq<Node>, name: Bytes, j: nat)
    requires forall m | j <= m < Pairs(content) ::
               ValueAt(content, m).kind != Scalar || lower(TrimSpace(KeyAt(content, m))) != lower(name)
    ensures ScalarFrom(lower, content, name, j) == []
    decreases Pairs(content) - j
  {
    hide TrimSpace;
    if j < Pairs(content) {
      ScalarFromNone(lower, content, name, j + 1);
    }
  }

  lemma {:induction false} FirstOrNone(lower: Bytes -> Bytes, content: seq<Node>, name: Bytes, j: nat) returns (i: nat)
    requires j <= Pairs(content)
    requires forall m | 0 <= m < j ::
               ValueAt(content, m).kind != Scalar || lower(TrimSpace(KeyAt(content, m))) != lower(name)
    ensures FirstUnder(lower, content, name, i) ||
            forall m | 0 <= m < Pairs(content) ::
              ValueAt(content, m).kind != Scalar || lower(TrimSpace(KeyAt(content, m))) != lower(name)
    decreases Pairs(content) - j
  {
    hide TrimSpace;
    i := j;
    if j < Pairs(content)
       && !(ValueAt(content, j).kind == Scalar && lower(TrimSpace(KeyAt(content, j))) == lower(name)) {
      i := FirstOrNone(lower, content, name, j + 1);
    }
  }

  lemma ScalarFromIff(lower: Bytes -> Bytes, content: seq<Node>, name: Bytes, text: Bytes)
    ensures ScalarFrom(lower, content, name, 0) == text <==> TextUnder(lower, content, name, text)
  {
    hide ScalarFrom, TrimSpace;
    forall i: nat | FirstUnder(lower, content, name, i)
      ensures ScalarFrom(lower, content, name, 0) == TrimSpace(ValueAt(content, i).value)
    {
      ScalarFromFound(lower, content, name, 0, i);
    }
    var i := FirstOrNone(lower, content, name, 0);
    if !FirstUnder(lower, content, name, i) {
      ScalarFromNone(lower, content, name, 0);
    }
  }

  /** Name k is the first of the nine under which the element has a text, this one. */
  ghost predicate NamedAs(lower: Bytes -> Bytes, content: seq<Node>, k: nat, text: Bytes) {
    && k < |IDENTITY_KEYS| && text != [] && TextUnder(lower, content, IDENTITY_KEYS[k], text)
    && forall i | 0 <= i < k :: TextUnder(lower, content, IDENTITY_KEYS[i], [])
  }

  ghost predicate Nameless(lower: Bytes -> Bytes, content: seq<Node>) {
    forall i | 0 <= i < |IDENTITY_KEYS| :: TextUnder(lower, content, IDENTITY_KEYS[i], [])
  }

  /** Pair i is the first scalar that is not blank. */
  ghost predicate FirstText(content: seq<Node>, i: nat) {
    && i < Pairs(content) && ValueAt(content, i).kind == Scalar && TrimSpace(ValueAt(content, i).value) != []
    && forall m | 0 <= m < i :: ValueAt(content, m).kind != Scalar || TrimSpace(ValueAt(content, m).value) == []
  }

  lemma NamedIs(lower: Bytes -> Bytes, content: seq<Node>, k: nat, text: Bytes)
    requires NamedAs(lower, content, k, text)
    ensures Identity(lower, content) == IDENTITY_KEYS[k] + Ascii("=") + text
  {
    hide ScalarFrom, TextUnder, IdentityByKey, IdentityByPair;
    forall i | 0 <= i < k ensures ScalarFrom(lower, content, IDENTITY_KEYS[i], 0) == [] {
      ScalarFromIff(lower, content, IDENTITY_KEYS[i], []);
    }
    ScalarFromIff(lower, content, IDENTITY_KEYS[k], text);
    FirstKeyFound(lower, content, k, 0);
  }

  lemma {:induction false} NamelessByKey(lower: Bytes -> Bytes, content: seq<Node>, k: nat)
    requires Nameless(lower, content)
    ensures IdentityByKey(lower, content, k) == []
    decreases |IDENTITY_KEYS| - k
  {
    hide ScalarFrom, TextUnder;
    if k < |IDENTITY_KEYS| {
      ScalarFromIff(lower, content, IDENTITY_KEYS[k], []);
      NamelessByKey(lower, content, k + 1);
    }
  }

  lemma {:induction false} FirstTextByPair(lower: Bytes -> Bytes, content: seq<Node>, j: nat, i: nat)
    requires j <= i && FirstText(content, i)
    ensures IdentityByPair(lower, content, j)
         == lower(TrimSpace(KeyAt(content, i))) + Ascii("=") + TrimSpace(ValueAt(content, i).value)
    decreases i - j
  {
    hide TrimSpace;
    if j < i {
      FirstTextByPair(lower, content, j + 1, i);
    }
  }

  lemma {:induction false} NoTextByPair(lower: Bytes -> Bytes, content: seq<Node>, j: nat)
    requires forall m | j <= m < Pairs(content) ::
               ValueAt(content, m).kind != Scalar || TrimSpace(ValueAt(content, m).value) == []
    ensures IdentityByPair(lower, content, j) == []
    decreases Pairs(content) - j
  {
    hide TrimSpace;
    if j < Pairs(content) {
      NoTextByPair(lower, content, j + 1);
    }
  }

  /**
   * The identity of a list element: its first identity name and the text under it; without one its first
   * scalar pair that is not blank; without that none.
   */
  lemma IdentityIs(lower: Bytes -> Bytes, content: seq<Node>)
    ensures forall k: nat, text | NamedAs(lower, content, k, text) ::
              Identity(lower, content) == IDENTITY_KEYS[k] + Ascii("=") + text
    ensures Nameless(lower, content) ==> forall i: nat | FirstText(content, i) ::
              Identity(lower, content)
              == lower(TrimSpace(KeyAt(content, i))) + Ascii("=") + TrimSpace(ValueAt(content, i).value)
    ensures Nameless(lower, content) && (forall i | 0 <= i < Pairs(content) ::
              ValueAt(content, i).kind != Scalar || TrimSpace(ValueAt(content, i).value) == []) ==>
                Identity(lower, content) == []
  {
    hide TextUnder, Nameless, IdentityByKey, IdentityByPair, TrimSpace;
    forall k: nat, text | NamedAs(lower, content, k, text)
      ensures Identity(lower, content) == IDENTITY_KEYS[k] + Ascii("=") + text
    {
      NamedIs(lower, content, k, text);
    }
    if Nameless(lower, content) {
      NamelessByKey(lower, content, 0);
      forall i: nat | FirstText(content, i)
        ensures IdentityByPair(lower, content, 0)
             == lower(TrimSpace(KeyAt(content, i))) + Ascii("=") + TrimSpace(ValueAt(content, i).value)
      {
        FirstTextByPair(lower, content, 0, i);
      }
      if forall i | 0 <= i < Pairs(content) ::
        ValueAt(content, i).kind != Scalar || TrimSpace(ValueAt(content, i).value) == []
      {
        NoTextByPair(lower, content, 0);
      }
    }
  }

  /** Elements match by identity when both are mappings with the same one, or scalars with the same text. */
  lemma IdentifiedIff(lower: Bytes -> Bytes, was: Node, target: Node)
    ensures Identified(lower, was, target) <==>
            || (target.kind == Mapping && was.kind == Mapping && Identity(lower, target.content) != []
                && Identity(lower, was.content) == Identity(lower, target.content))
            || (target.kind == Scalar && was.kind == Scalar && TrimSpace(target.value) != []
                && TrimSpace(was.value) == TrimSpace(target.value))
  {
    hide Identity, TrimSpace;
  }

  // ---------------------------------------------------------------- structure

  /** A tree without tags, comments and the spaces around its texts. */
  datatype Shape = Leaf(kind: Kind, text: Bytes) | Branch(kind: Kind, parts: seq<Shape>)

  function ShapeOf(n: Node): Shape {
    if n.kind == Mapping || n.kind == Sequence
    then Branch(n.kind, seq(|n.content|, i requires 0 <= i < |n.content| => ShapeOf(n.content[i])))
    else Leaf(n.kind, TrimSpace(n.value))
  }

  /** Two parsed trees are structurally equal exactly when they have the same shape. */
  lemma {:induction false} SameStructureIff(a: Node, b: Node)
    requires Parsed(a) && Parsed(b)
    ensures SameStructure(a, b) <==> ShapeOf(a) == ShapeOf(b)
    decreases a
  {
    hide TrimSpace;
    if a.kind == b.kind && (a.kind == Mapping || a.kind == Sequence) {
      if |a.content| == |b.content| {
        forall i | 0 <= i < |a.content|
          ensures SameStructure(a.content[i], b.content[i]) <==> ShapeOf(a.content[i]) == ShapeOf(b.content[i])
        {
          SameStructureIff(a.content[i], b.content[i]);
        }
        PartsIff(a, b);
      } else {
        assert |ShapeOf(a).parts| != |ShapeOf(b).parts|;
      }
    }
  }

  lemma PartsIff(a: Node, b: Node)
    requires a.kind == b.kind && (a.kind == Mapping || a.kind == Sequence) && |a.content| == |b.content|
    ensures ShapeOf(a) == ShapeOf(b)
       <==> forall i | 0 <= i < |a.content| :: ShapeOf(a.content[i]) == ShapeOf(b.content[i])
  {
    var p, q := ShapeOf(a).parts, ShapeOf(b).parts;
    assert forall i | 0 <= i < |a.content| :: p[i] == ShapeOf(a.content[i]) && q[i] == ShapeOf(b.content[i]);
    if forall i | 0 <= i < |a.content| :: ShapeOf(a.content[i]) == ShapeOf(b.content[i]) {
      assert p == q;
    }
  }

  // ---------------------------------------------------------------- comments

  /** A save keeps the comments, style and position of every node it does not add. */
  lemma MergedKeepsNotes(lower: Bytes -> Bytes, d: Node, s: Node, path: Path)
    ensures Merged(lower, d, s, path).notes == d.notes
    ensures MergedElement(lower, d, s, path).notes == d.notes
  {
    hide MergedPairs, Chosen, KeptPairs;
  }

  /** In a list each reused element keeps its notes in its new place, and each other one is a copy. */
  lemma ListKeepsNotes(lower: Bytes -> Bytes, d: Node, s: Node, path: Path)
    requires d.kind == Sequence && s.kind == Sequence
    ensures var after, chosen := Merged(lower, d, s, path).content, Chosen(lower, d.content, s.content, |s.content|);
            && |after| == |s.content|
            && forall i | 0 <= i < |s.content| ::
                 if chosen[i] < 0 then after[i] == s.content[i] else after[i].notes == d.content[chosen[i]].notes
  {
    hide Chosen, MergedElement;
    var chosen := Chosen(lower, d.content, s.content, |s.content|);
    forall i | 0 <= i < |s.content| && chosen[i] >= 0
      ensures MergedElement(lower, d.content[chosen[i]], s.content[i], path).notes == d.content[chosen[i]].notes
    {
      MergedKeepsNotes(lower, d.content[chosen[i]], s.content[i], path);
    }
  }
}
