/** Which values a save leaves out, written out: internal/config/config_yaml.go. */
module YamlDefaults {
  import opened ByteStrings
  import opened YamlNodes
  import opened YamlMerge

  /** strings.Join, from the front. */
  function JoinedBy(path: Path, dot: Bytes): Bytes {
    if path == [] then []
    else if |path| == 1 then path[0]
    else path[0] + dot + JoinedBy(path[1..], dot)
  }

  lemma {:induction false} DottedIsJoined(path: Path)
    ensures Dotted(path) == JoinedBy(path, Ascii("."))
    decreases |path|
  {
    if |path| == 2 {
      assert path[..1][0] == path[0] && path[1..][0] == path[1];
      assert Dotted(path[..1]) == path[0];
    } else if |path| > 2 {
      DottedIsJoined(path[..|path| - 1]);
      JoinedLast(path, Ascii("."));
    }
  }

  lemma {:induction false} JoinedLast(path: Path, dot: Bytes)
    requires |path| >= 2
    ensures JoinedBy(path, dot) == JoinedBy(path[..|path| - 1], dot) + dot + path[|path| - 1]
    decreases |path|
  {
    var front := path[..|path| - 1];
    if |path| == 2 {
      assert path[1..][0] == path[1];
    } else {
      JoinedLast(path[1..], dot);
      assert path[1..][..|path[1..]| - 1] == front[1..];
    }
  }

  // ---------------------------------------------------------------- the list

  /** A scalar without content. */
  predicate NoContent(v: Node) {
    || (v.tag == Ascii("!!bool") && v.value == Ascii("false"))
    || (v.tag == Ascii("!!int") && (v.value == Ascii("0") || v.value == Ascii("0.0")))
    || (v.tag == Ascii("!!float") && (v.value == Ascii("0") || v.value == Ascii("0.0")))
    || (v.tag == Ascii("!!str") && v.value == Ascii(""))
    || v.tag == Ascii("!!null")
  }

  const AT_PPROF: Bytes := Ascii("pprof.addr")
  const AT_PANEL: Bytes := Ascii("remote-management.panel-github-repository")
  const AT_PLUGINS: Bytes := Ascii("plugins.dir")
  const AT_STRATEGY: Bytes := Ascii("routing.strategy")
  const AT_LOGS: Bytes := Ascii("error-logs-max-files")
  const PPROF: Bytes := Ascii("127.0.0.1:8316")
  const PANEL: Bytes := Ascii("https://github.com/router-for-me/") + Ascii("Cli-Proxy-API-Management-Center")
  const PLUGINS: Bytes := Ascii("plugins")
  const STRATEGY: Bytes := Ascii("round-robin")
  const LOGS: Bytes := Ascii("10")

  /** A value the program assumes when the key is missing. */
  predicate Assumed(path: Path, v: Node) {
    var full := JoinedBy(path, Ascii("."));
    || (v.tag == Ascii("!!str") && full == AT_PPROF && v.value == PPROF)
    || (v.tag == Ascii("!!str") && full == AT_PANEL && v.value == PANEL)
    || (v.tag == Ascii("!!str") && full == AT_PLUGINS && v.value == PLUGINS)
    || (v.tag == Ascii("!!str") && full == AT_STRATEGY && v.value == STRATEGY)
    || (v.tag == Ascii("!!int") && full == AT_LOGS && v.value == LOGS)
  }

  /** An integer weight is always written. */
  predicate IsWeight(path: Path, v: Node) {
    path != [] && path[|path| - 1] == Ascii("weight") && v.tag == Ascii("!!int")
  }

  predicate ScalarSaysNothing(path: Path, v: Node) {
    path != [] && !IsWeight(path, v) && (NoContent(v) || Assumed(path, v))
  }

  /** Nothing but scalars without content in it. */
  predicate Hollow(v: Node) {
    match v.kind
    case Scalar => NoContent(v)
    case Sequence => forall i | 0 <= i < |v.content| :: Hollow(v.content[i])
    case Mapping => forall j | 0 <= j < Pairs(v.content) :: Hollow(ValueAt(v.content, j))
    case _ => false
  }

  /** A pair with this value is left out of a new mapping. */
  predicate LeftOut(path: Path, v: Node)
    decreases v
  {
    match v.kind
    case Scalar => ScalarSaysNothing(path, v)
    case Sequence => Hollow(v)
    case Mapping =>
      Hollow(v) || forall j | 0 <= j < Pairs(v.content) :: LeftOut(path + [KeyAt(v.content, j)], ValueAt(v.content, j))
    case _ => false
  }

  /** Once the pairs that are left out are gone, nothing is left but scalars without content. */
  predicate HollowWhenPruned(path: Path, v: Node)
    decreases v
  {
    match v.kind
    case Scalar => NoContent(v)
    case Sequence => forall i | 0 <= i < |v.content| :: HollowWhenPruned(path, v.content[i])
    case Mapping =>
      forall j | 0 <= j < Pairs(v.content) ::
        || LeftOut(path + [KeyAt(v.content, j)], ValueAt(v.content, j))
        || HollowWhenPruned(path + [KeyAt(v.content, j)], ValueAt(v.content, j))
    case _ => false
  }

  /** A key with this value is not added to a file that lacks it. */
  predicate SaysNothing(path: Path, v: Node) {
    if v.kind == Scalar then ScalarSaysNothing(path, v) else HollowWhenPruned(path, v)
  }

  // ---------------------------------------------------------------- the code goes by the list

  lemma NamesAre()
    ensures TAG_STR == Ascii("!!str") && TAG_INT == Ascii("!!int") && TAG_FLOAT == Ascii("!!float")
    ensures TAG_BOOL == Ascii("!!bool") && TAG_NULL == Ascii("!!null") && WEIGHT == Ascii("weight")
    ensures TAG_STR != TAG_INT && TAG_STR != TAG_FLOAT && TAG_STR != TAG_BOOL && TAG_STR != TAG_NULL
    ensures TAG_INT != TAG_FLOAT && TAG_INT != TAG_BOOL && TAG_INT != TAG_NULL
    ensures TAG_FLOAT != TAG_BOOL && TAG_FLOAT != TAG_NULL && TAG_BOOL != TAG_NULL
    ensures Ascii("") == []
  {
    assert |TAG_STR| == 5 && |TAG_INT| == 5 && |TAG_FLOAT| == 7 && |TAG_BOOL| == 6 && |TAG_NULL| == 6;
    assert TAG_STR[2] == 115 && TAG_INT[2] == 105 && TAG_BOOL[2] == 98 && TAG_NULL[2] == 110;
  }

  lemma PathsAre()
    ensures PPROF_ADDR == AT_PPROF && PLUGINS_DIR == AT_PLUGINS && ROUTING_STRATEGY == AT_STRATEGY
    ensures PANEL_REPOSITORY == AT_PANEL && ERROR_LOGS == AT_LOGS
  {
  }

  lemma DefaultsAre()
    ensures DEFAULT_PPROF_ADDR == PPROF && DEFAULT_PANEL_REPOSITORY == PANEL && DEFAULT_PLUGINS_DIR == PLUGINS
    ensures DEFAULT_STRATEGY == STRATEGY && DEFAULT_ERROR_LOGS == LOGS
  {
  }

  lemma ZeroScalarIff(v: Node)
    requires v.kind == Scalar
    ensures IsZero(v) <==> NoContent(v)
  {
    NamesAre();
  }

  lemma {:induction false} ZeroIff(v: Node)
    ensures IsZero(v) <==> Hollow(v)
    decreases v
  {
    hide NoContent;
    match v.kind
    case Scalar => ZeroScalarIff(v);
    case Sequence =>
      forall i | 0 <= i < |v.content| ensures IsZero(v.content[i]) <==> Hollow(v.content[i]) {
        ZeroIff(v.content[i]);
      }
    case Mapping =>
      forall j | 0 <= j < Pairs(v.content) ensures IsZero(ValueAt(v.content, j)) <==> Hollow(ValueAt(v.content, j)) {
        ZeroIff(ValueAt(v.content, j));
      }
    case _ =>
  }

  lemma AssumedIff(path: Path, v: Node)
    requires path != []
    ensures Assumed(path, v) <==>
            if v.tag == TAG_STR then IsDefaultString(Dotted(path), v.value)
            else v.tag == TAG_INT && Dotted(path) == ERROR_LOGS && v.value == DEFAULT_ERROR_LOGS
  {
    hide Dotted, JoinedBy;
    NamesAre();
    PathsAre();
    DefaultsAre();
    DottedIsJoined(path);
  }

  lemma DefaultScalarIff(path: Path, v: Node)
    requires path != [] && v.kind == Scalar
    ensures IsDefault(path, v) <==> ScalarSaysNothing(path, v)
  {
    hide Dotted, Assumed, NoContent;
    NamesAre();
    ZeroScalarIff(v);
    AssumedIff(path, v);
    hide IsZero;
  }

  lemma DefaultIff(path: Path, v: Node)
    requires path != []
    ensures IsDefault(path, v) <==> if v.kind == Scalar then ScalarSaysNothing(path, v) else Hollow(v)
  {
    hide IsZero, Hollow, ScalarSaysNothing;
    if v.kind == Scalar {
      DefaultScalarIff(path, v);
    } else {
      ZeroIff(v);
    }
  }

  lemma {:induction false} PrunedNothingLeft(path: Path, n: Node, k: nat)
    requires k <= Pairs(n.content)
    ensures PrunedPairs(path, n, k) == [] <==> forall j | 0 <= j < k ::
              StaysOut(path + [KeyAt(n.content, j)], ValueAt(n.content, j))
    decreases k
  {
    hide StaysOut, Pruned;
    if k > 0 {
      PrunedNothingLeft(path, n, k - 1);
      assert n.content[2 * k - 2].value == KeyAt(n.content, k - 1) && n.content[2 * k - 1] == ValueAt(n.content, k - 1);
    }
  }

  /** A pair stays out of a new mapping exactly when the list says so. */
  lemma {:induction false} StaysOutIff(path: Path, v: Node)
    requires path != []
    ensures StaysOut(path, v) <==> LeftOut(path, v)
    decreases v
  {
    hide IsDefault, Hollow, ScalarSaysNothing, PrunedPairs;
    DefaultIff(path, v);
    match v.kind
    case Mapping =>
      PrunedNothingLeft(path, v, Pairs(v.content));
      forall j | 0 <= j < Pairs(v.content)
        ensures StaysOut(path + [KeyAt(v.content, j)], ValueAt(v.content, j))
           <==> LeftOut(path + [KeyAt(v.content, j)], ValueAt(v.content, j))
      {
        StaysOutIff(path + [KeyAt(v.content, j)], ValueAt(v.content, j));
      }
    case Sequence => HollowKinds(v);
    case _ => HollowKinds(v);
  }

  lemma HollowKinds(v: Node)
    ensures v.kind == Sequence && v.content == [] ==> Hollow(v)
    ensures v.kind == Document || v.kind == Unset ==> !Hollow(v)
  {
  }

  lemma {:induction false} HollowPairsIff(path: Path, n: Node, k: nat)
    requires k <= Pairs(n.content)
    requires forall j | 0 <= j < k ::
               IsZero(Pruned(path + [KeyAt(n.content, j)], ValueAt(n.content, j)))
               <==> HollowWhenPruned(path + [KeyAt(n.content, j)], ValueAt(n.content, j))
    ensures |PrunedPairs(path, n, k)| % 2 == 0
    ensures (forall i | 0 <= i < Pairs(PrunedPairs(path, n, k)) :: IsZero(ValueAt(PrunedPairs(path, n, k), i))) <==>
            forall j | 0 <= j < k ::
              || LeftOut(path + [KeyAt(n.content, j)], ValueAt(n.content, j))
              || HollowWhenPruned(path + [KeyAt(n.content, j)], ValueAt(n.content, j))
    decreases k
  {
    hide StaysOut, Pruned, LeftOut, IsZero, HollowWhenPruned;
    if k > 0 {
      HollowPairsIff(path, n, k - 1);
      var key, v := n.content[2 * k - 2], n.content[2 * k - 1];
      assert key.value == KeyAt(n.content, k - 1) && v == ValueAt(n.content, k - 1);
      StaysOutIff(path + [key.value], v);
      if !StaysOut(path + [key.value], v) {
        OnePairMore(PrunedPairs(path, n, k - 1), key, Pruned(path + [key.value], v));
      }
    }
  }

  lemma OnePairMore(front: seq<Node>, key: Node, v: Node)
    requires |front| % 2 == 0
    ensures |front + [key, v]| % 2 == 0
    ensures (forall i | 0 <= i < Pairs(front + [key, v]) :: IsZero(ValueAt(front + [key, v], i)))
       <==> (forall i | 0 <= i < Pairs(front) :: IsZero(ValueAt(front, i))) && IsZero(v)
  {
    hide IsZero;
    var c := front + [key, v];
    assert Pairs(c) == Pairs(front) + 1 && ValueAt(c, Pairs(front)) == v;
    assert forall i | 0 <= i < Pairs(front) :: ValueAt(c, i) == ValueAt(front, i);
  }

  lemma {:induction false} HollowIff(path: Path, v: Node)
    ensures IsZero(Pruned(path, v)) <==> HollowWhenPruned(path, v)
    decreases v
  {
    hide PrunedPairs, LeftOut, NoContent;
    match v.kind
    case Scalar => ZeroScalarIff(v);
    case Sequence =>
      var left := Pruned(path, v);
      forall i | 0 <= i < |v.content| ensures IsZero(left.content[i]) <==> HollowWhenPruned(path, v.content[i]) {
        HollowIff(path, v.content[i]);
      }
    case Mapping =>
      forall j | 0 <= j < Pairs(v.content)
        ensures IsZero(Pruned(path + [KeyAt(v.content, j)], ValueAt(v.content, j)))
           <==> HollowWhenPruned(path + [KeyAt(v.content, j)], ValueAt(v.content, j))
      {
        HollowIff(path + [KeyAt(v.content, j)], ValueAt(v.content, j));
      }
      HollowPairsIff(path, v, Pairs(v.content));
    case _ =>
  }

  /** A key that is new to the file is not added exactly when the list says its value says nothing. */
  lemma AddsNothingIff(path: Path, v: Node)
    requires path != []
    ensures AddsNothing(path, v) <==> SaysNothing(path, v)
  {
    hide IsZero, HollowWhenPruned, ScalarSaysNothing, PrunedPairs, Hollow;
    var left := Pruned(path, v);
    DefaultIff(path, left);
    ZeroIff(left);
    HollowIff(path, v);
  }
}
