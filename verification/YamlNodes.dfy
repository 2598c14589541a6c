/** YAML trees and the pure tests that saving a configuration rests on: internal/config/config_yaml.go. */
module YamlNodes {
  import opened ByteStrings

  datatype Kind = Unset | Document | Sequence | Mapping | Scalar

  /**
   * A node of an alias-free tree. The content of a mapping alternates keys and values. notes stands for
   * everything merging never looks at: comments, style, anchor and position.
   */
  datatype Node = Node(kind: Kind, tag: Bytes, value: Bytes, notes: Bytes, content: seq<Node>)

  type Path = seq<Bytes>

  const TAG_STR: Bytes := Ascii("!!str")
  const TAG_INT: Bytes := Ascii("!!int")
  const TAG_FLOAT: Bytes := Ascii("!!float")
  const TAG_BOOL: Bytes := Ascii("!!bool")
  const TAG_NULL: Bytes := Ascii("!!null")
  const TAG_SEQ: Bytes := Ascii("!!seq")

  const WEIGHT: Bytes := Ascii("weight")
  const PPROF_ADDR: Bytes := Ascii("pprof.addr")
  const DEFAULT_PPROF_ADDR: Bytes := Ascii("127.0.0.1:8316")
  const PANEL_REPOSITORY: Bytes := Ascii("remote-management.panel-github-repository")
  const DEFAULT_PANEL_REPOSITORY: Bytes :=
    Ascii("https://github.com/router-for-me/") + Ascii("Cli-Proxy-API-Management-Center")
  const PLUGINS_DIR: Bytes := Ascii("plugins.dir")
  const DEFAULT_PLUGINS_DIR: Bytes := Ascii("plugins")
  const ROUTING_STRATEGY: Bytes := Ascii("routing.strategy")
  const DEFAULT_STRATEGY: Bytes := Ascii("round-robin")
  const ERROR_LOGS: Bytes := Ascii("error-logs-max-files")
  const DEFAULT_ERROR_LOGS: Bytes := Ascii("10")

  const IDENTITY_KEYS: seq<Bytes> := [
    Ascii("id"), Ascii("name"), Ascii("alias"), Ascii("api-key"), Ascii("api_key"), Ascii("apikey"),
    Ascii("key"), Ascii("provider"), Ascii("model")
  ]

  const EQUALS: Bytes := Ascii("=")

  /** The number of key/value pairs of a mapping's content. */
  function Pairs(content: seq<Node>): nat {
    |content| / 2
  }

  function KeyAt(content: seq<Node>, j: nat): Bytes
    requires j < Pairs(content)
  {
    content[2 * j].value
  }

  function ValueAt(content: seq<Node>, j: nat): Node
    requires j < Pairs(content)
  {
    content[2 * j + 1]
  }

  /** The first pair with this key from pair j on, or -1. */
  function FindFrom(content: seq<Node>, key: Bytes, j: nat): (i: int)
    ensures -1 <= i < Pairs(content) && (i >= 0 ==> i >= j && KeyAt(content, i) == key)
    ensures forall m | j <= m < Pairs(content) && (i < 0 || m < i) :: KeyAt(content, m) != key
    decreases |content| - 2 * j
  {
    if j >= Pairs(content) then -1
    else if KeyAt(content, j) == key then j
    else FindFrom(content, key, j + 1)
  }

  /** findMapKeyIndex, counted in pairs. */
  function FindPair(content: seq<Node>, key: Bytes): (i: int)
    ensures -1 <= i < Pairs(content) && (i >= 0 ==> KeyAt(content, i) == key)
    ensures forall m | 0 <= m < Pairs(content) && (i < 0 || m < i) :: KeyAt(content, m) != key
  {
    FindFrom(content, key, 0)
  }

  /** The value the file holds under a key. */
  function Lookup(content: seq<Node>, key: Bytes): Option<Node> {
    var j := FindPair(content, key);
    if j < 0 then None else Some(ValueAt(content, j))
  }

  /** isZeroValueNode */
  predicate IsZero(n: Node) {
    match n.kind
    case Scalar =>
      if n.tag == TAG_BOOL then n.value == Ascii("false")
      else if n.tag == TAG_INT || n.tag == TAG_FLOAT then n.value == Ascii("0") || n.value == Ascii("0.0")
      else if n.tag == TAG_STR then n.value == []
      else n.tag == TAG_NULL
    case Sequence => forall i | 0 <= i < |n.content| :: IsZero(n.content[i])
    case Mapping => forall j | 0 <= j < Pairs(n.content) :: IsZero(ValueAt(n.content, j))
    case _ => false
  }

  /** strings.Join(path, ".") */
  function Dotted(path: Path): Bytes {
    if path == [] then []
    else if |path| == 1 then path[0]
    else Dotted(path[..|path| - 1]) + Ascii(".") + path[|path| - 1]
  }

  predicate IsDefaultString(full: Bytes, value: Bytes) {
    || (full == PPROF_ADDR && value == DEFAULT_PPROF_ADDR)
    || (full == PANEL_REPOSITORY && value == DEFAULT_PANEL_REPOSITORY)
    || (full == PLUGINS_DIR && value == DEFAULT_PLUGINS_DIR)
    || (full == ROUTING_STRATEGY && value == DEFAULT_STRATEGY)
  }

  /** isKnownDefaultValue */
  predicate IsDefault(path: Path, n: Node) {
    if path != [] && path[|path| - 1] == WEIGHT && n.kind == Scalar && n.tag == TAG_INT then false
    else if IsZero(n) then true
    else if path == [] || n.kind != Scalar then false
    else if n.tag == TAG_STR then IsDefaultString(Dotted(path), n.value)
    else n.tag == TAG_INT && Dotted(path) == ERROR_LOGS && n.value == DEFAULT_ERROR_LOGS
  }

  predicate IsEmptyCollection(n: Node) {
    (n.kind == Mapping || n.kind == Sequence) && n.content == []
  }

  /** pruneKnownDefaultsInNewNode */
  function Pruned(path: Path, n: Node): Node
    decreases n, |n.content| + 1
  {
    match n.kind
    case Mapping => n.(content := PrunedPairs(path, n, Pairs(n.content)))
    case Sequence => n.(content := seq(|n.content|, i requires 0 <= i < |n.content| => Pruned(path, n.content[i])))
    case _ => n
  }

  /** What is left of the first k pairs of mapping n. */
  function PrunedPairs(path: Path, n: Node, k: nat): seq<Node>
    requires k <= Pairs(n.content)
    decreases n, k
  {
    if k == 0 then []
    else
      var front := PrunedPairs(path, n, k - 1);
      var key, v := n.content[2 * k - 2], n.content[2 * k - 1];
      if StaysOut(path + [key.value], v) then front
      else front + [key, Pruned(path + [key.value], v)]
  }

  /** A pair with this value is dropped from a new mapping. */
  predicate StaysOut(path: Path, v: Node)
    decreases v, |v.content| + 2
  {
    IsDefault(path, v) || IsEmptyCollection(Pruned(path, v))
  }

  /** nodesStructurallyEqual */
  predicate SameStructure(a: Node, b: Node) {
    && a.kind == b.kind
    && match a.kind
       case Mapping =>
         && |a.content| == |b.content|
         && (forall i | 0 <= i < 2 * Pairs(a.content) :: SameStructure(a.content[i], b.content[i]))
       case Sequence =>
         && |a.content| == |b.content|
         && (forall i | 0 <= i < |a.content| :: SameStructure(a.content[i], b.content[i]))
       case _ => TrimSpace(a.value) == TrimSpace(b.value)
  }

  /** mappingScalarValue from pair j on. */
  function ScalarFrom(lower: Bytes -> Bytes, content: seq<Node>, key: Bytes, j: nat): Bytes
    decreases |content| - 2 * j
  {
    if j >= Pairs(content) then []
    else if ValueAt(content, j).kind == Scalar && lower(TrimSpace(KeyAt(content, j))) == lower(key) then
      TrimSpace(ValueAt(content, j).value)
    else ScalarFrom(lower, content, key, j + 1)
  }

  /** The first identity key with a value, from IDENTITY_KEYS[k] on. */
  function IdentityByKey(lower: Bytes -> Bytes, content: seq<Node>, k: nat): Bytes
    decreases |IDENTITY_KEYS| - k
  {
    if k >= |IDENTITY_KEYS| then []
    else
      var v := ScalarFrom(lower, content, IDENTITY_KEYS[k], 0);
      if v != [] then IDENTITY_KEYS[k] + EQUALS + v else IdentityByKey(lower, content, k + 1)
  }

  /** The first pair with a scalar value that is not blank, from pair j on. */
  function IdentityByPair(lower: Bytes -> Bytes, content: seq<Node>, j: nat): Bytes
    decreases |content| - 2 * j
  {
    if j >= Pairs(content) then []
    else
      var v := TrimSpace(ValueAt(content, j).value);
      if ValueAt(content, j).kind == Scalar && v != [] then lower(TrimSpace(KeyAt(content, j))) + EQUALS + v
      else IdentityByPair(lower, content, j + 1)
  }

  /** sequenceElementIdentity of a mapping. */
  function Identity(lower: Bytes -> Bytes, content: seq<Node>): Bytes {
    var byKey := IdentityByKey(lower, content, 0);
    if byKey != [] then byKey else IdentityByPair(lower, content, 0)
  }

  /** Does this old element carry the identity, or the scalar value, of the target? */
  predicate Identified(lower: Bytes -> Bytes, was: Node, target: Node) {
    match target.kind
    case Mapping =>
      var id := Identity(lower, target.content);
      id != [] && was.kind == Mapping && Identity(lower, was.content) == id
    case Scalar =>
      var v := TrimSpace(target.value);
      v != [] && was.kind == Scalar && TrimSpace(was.value) == v
    case _ => false
  }

  /** The trimmed keys that are not blank. */
  function KeepSet(content: seq<Node>): set<Bytes> {
    set j | 0 <= j < Pairs(content) && TrimSpace(KeyAt(content, j)) != [] :: TrimSpace(KeyAt(content, j))
  }

  /** What is left of the first k pairs when only keys in keep stay. */
  function KeptPairs(content: seq<Node>, keep: set<Bytes>, k: nat): (kept: seq<Node>)
    requires k <= Pairs(content)
    ensures |kept| <= 2 * k && |kept| % 2 == 0
  {
    if k == 0 then []
    else
      var front := KeptPairs(content, keep, k - 1);
      if TrimSpace(KeyAt(content, k - 1)) in keep then front + [content[2 * k - 2], content[2 * k - 1]] else front
  }

  /** pruneMissingMapKeys on two mappings. */
  function OnlyKeysOf(d: Node, s: Node): Node {
    var n := Pairs(d.content);
    d.(content := KeptPairs(d.content, KeepSet(s.content), n) + d.content[2 * n..])
  }

  // ---- what the tests decide ----------------------------------------------------------------------------

  /** The k-th identity key is the first one with a value. */
  ghost predicate IdentifiedByKey(lower: Bytes -> Bytes, content: seq<Node>, k: nat) {
    && k < |IDENTITY_KEYS|
    && ScalarFrom(lower, content, IDENTITY_KEYS[k], 0) != []
    && (forall i | 0 <= i < k :: ScalarFrom(lower, content, IDENTITY_KEYS[i], 0) == [])
  }

  lemma {:induction false} FirstKeyFound(lower: Bytes -> Bytes, content: seq<Node>, k: nat, from: nat)
    requires IdentifiedByKey(lower, content, k) && from <= k
    ensures IdentityByKey(lower, content, from) == IDENTITY_KEYS[k] + EQUALS
              + ScalarFrom(lower, content, IDENTITY_KEYS[k], 0)
    decreases k - from
  {
    hide ScalarFrom;
    if from < k {
      FirstKeyFound(lower, content, k, from + 1);
    }
  }

  lemma KeysHoldNoEquals(k: nat)
    requires k < |IDENTITY_KEYS|
    ensures EQUALS[0] !in IDENTITY_KEYS[k]
  {
  }

  lemma SplitAtEquals(a: Bytes, v: Bytes, b: Bytes, w: Bytes)
    requires EQUALS[0] !in a && EQUALS[0] !in b && a + EQUALS + v == b + EQUALS + w
    ensures a == b && v == w
  {
    var s := a + EQUALS + v;
    assert s[..|a|] == a && s[|a|] == EQUALS[0];
    assert s[..|b|] == b && s[|b|] == EQUALS[0];
    IndexOfByteIs(s, EQUALS[0], |a|);
    IndexOfByteIs(s, EQUALS[0], |b|);
    assert s[|a| + 1..] == v && s[|b| + 1..] == w;
  }

  /** Two elements with an identity key match exactly when their first such keys and the values agree. */
  lemma FirstIdentityKeyDecides(lower: Bytes -> Bytes, was: seq<Node>, target: seq<Node>, j: nat, k: nat)
    requires IdentifiedByKey(lower, was, j) && IdentifiedByKey(lower, target, k)
    ensures Identity(lower, was) == Identity(lower, target) <==>
            j == k && ScalarFrom(lower, was, IDENTITY_KEYS[j], 0) == ScalarFrom(lower, target, IDENTITY_KEYS[k], 0)
  {
    hide ScalarFrom, IdentityByKey, IdentityByPair;
    var v, w := ScalarFrom(lower, was, IDENTITY_KEYS[j], 0), ScalarFrom(lower, target, IDENTITY_KEYS[k], 0);
    FirstKeyFound(lower, was, j, 0);
    FirstKeyFound(lower, target, k, 0);
    KeysHoldNoEquals(j);
    KeysHoldNoEquals(k);
    if Identity(lower, was) == Identity(lower, target) {
      SplitAtEquals(IDENTITY_KEYS[j], v, IDENTITY_KEYS[k], w);
      IdentityKeysDiffer(j, k);
    }
  }

  lemma IdentityKeysDiffer(j: nat, k: nat)
    requires j < |IDENTITY_KEYS| && k < |IDENTITY_KEYS| && IDENTITY_KEYS[j] == IDENTITY_KEYS[k]
    ensures j == k
  {
    assert |IDENTITY_KEYS[0]| == 2 && |IDENTITY_KEYS[1]| == 4 && |IDENTITY_KEYS[2]| == 5;
    assert |IDENTITY_KEYS[3]| == 7 && |IDENTITY_KEYS[4]| == 7 && |IDENTITY_KEYS[5]| == 6;
    assert |IDENTITY_KEYS[6]| == 3 && |IDENTITY_KEYS[7]| == 8 && |IDENTITY_KEYS[8]| == 5;
    assert IDENTITY_KEYS[2][0] == 97 && IDENTITY_KEYS[8][0] == 109;
    assert IDENTITY_KEYS[3][3] == 45 && IDENTITY_KEYS[4][3] == 95;
  }
}
