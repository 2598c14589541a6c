/** The turn list of internal/cache/codex_reasoning_replay_cache.go: trimming and appending. */
module CodexTurns {
  import opened ByteStrings

  /** A normalized replay item: a turn marker with its id, or anything else, and its bytes. */
  datatype Item = Item(turn: bool, id: string, bytes: Bytes)

  type Items = seq<Item>

  const MAX_TURNS: nat := 256
  const MAX_BYTES: nat := 0x100_0000

  function TotalBytes(items: Items): nat {
    if items == [] then 0 else TotalBytes(items[..|items| - 1]) + |items[|items| - 1].bytes|
  }

  /** The head of the list and every later marker start a turn. */
  predicate IsStart(items: Items, k: nat) {
    k == 0 || (k < |items| && items[k].turn)
  }

  /** How many turns start in the list; an empty list counts as one. */
  function TurnStarts(items: Items): (starts: seq<nat>)
    ensures |starts| >= 1 && starts[0] == 0
  {
    if |items| <= 1 then [0]
    else TurnStarts(items[..|items| - 1]) + if items[|items| - 1].turn then [|items| - 1] else []
  }

  predicate Fits(items: Items) {
    |TurnStarts(items)| <= MAX_TURNS && TotalBytes(items) <= MAX_BYTES
  }

  /** The first marker after the head, or the length. */
  function NextStart(items: Items): (n: nat)
    ensures n <= |items| && (items != [] ==> n > 0)
    ensures n < |items| ==> items[n].turn
    ensures forall i | 0 < i < n :: !items[i].turn
  {
    if |items| <= 1 then |items|
    else
      var n := NextStart(items[..|items| - 1]);
      if n < |items| - 1 || items[|items| - 1].turn then n else |items|
  }

  lemma {:induction false} TotalBytesAppend(a: Items, b: Items)
    ensures TotalBytes(a + b) == TotalBytes(a) + TotalBytes(b)
    ensures forall item: Item :: TotalBytes([item]) == |item.bytes|
    decreases |b|
  {
    forall item: Item ensures TotalBytes([item]) == |item.bytes| {
      assert [item][..0] == [];
    }
    if b == [] {
      assert a + b == a;
    } else {
      TotalBytesAppend(a, b[..|b| - 1]);
      assert (a + b)[..|a + b| - 1] == a + b[..|b| - 1];
    }
  }

  /** The places after the head where a marker stands. */
  function Markers(items: Items): set<int> {
    set k | 0 < k < |items| && items[k].turn
  }

  lemma {:induction false} StartsAreMarkers(items: Items)
    ensures |TurnStarts(items)| == 1 + |Markers(items)|
    decreases |items|
  {
    if |items| > 1 {
      var front, last := items[..|items| - 1], |items| - 1;
      StartsAreMarkers(front);
      assert Markers(items) == Markers(front) + if items[last].turn then {last} else {};
    } else {
      assert Markers(items) == {};
    }
  }

  /** At most 256 turns and 16 MiB. */
  lemma FitsIff(items: Items)
    ensures Fits(items) <==> |Markers(items)| < 256 && TotalBytes(items) <= 16 * 1024 * 1024
  {
    StartsAreMarkers(items);
  }

  /** Dropping whole turns from the front until the rest fits. */
  function Trim(items: Items): Items
    decreases |items|
  {
    if Fits(items) then items
    else
      NothingFits();
      var n := NextStart(items);
      if n == |items| then [] else Trim(items[n..])
  }

  lemma NothingFits()
    ensures Fits([])
  {
  }

  // ---------------------------------------------------------------- the loop

  lemma {:induction false} StartsOf(items: Items)
    ensures |TurnStarts(items)| > 1 <==> NextStart(items) < |items|
    ensures |TurnStarts(items)| > 1 ==> TurnStarts(items)[1] == NextStart(items)
  {
    if |items| > 1 {
      StartsOf(items[..|items| - 1]);
    }
  }

  /** trimCodexReasoningReplayItems. */
  method TrimItems(list: Items) returns (items: Items)
    ensures items == Trim(list)
  {
    items := list;
    while true
      invariant Trim(items) == Trim(list)
      decreases |items|
    {
      var turnStarts: seq<nat> := [0];
      var totalBytes := 0;
      for index := 0 to |items|
        invariant totalBytes == TotalBytes(items[..index]) && turnStarts == TurnStarts(items[..index])
      {
        assert items[..index + 1][..index] == items[..index];
        totalBytes := totalBytes + |items[index].bytes|;
        if index > 0 && items[index].turn {
          turnStarts := turnStarts + [index];
        }
      }
      assert items[..|items|] == items;
      if |turnStarts| <= MAX_TURNS && totalBytes <= MAX_BYTES {
        return items;
      }
      StartsOf(items);
      NothingFits();
      if |turnStarts| <= 1 {
        return [];
      }
      items := items[turnStarts[1]..];
    }
  }

  // ---------------------------------------------------------------- what the loop computes

  lemma {:induction false} PrefixCosts(x: Items, y: Items)
    ensures TotalBytes(x) <= TotalBytes(x + y)
    ensures |TurnStarts(x)| <= |TurnStarts(x + y)|
  {
    if y == [] {
      assert x + y == x;
    } else {
      PrefixCosts(x, y[..|y| - 1]);
      assert (x + y)[..|x + y| - 1] == x + y[..|y| - 1];
    }
  }

  lemma PrefixFits(x: Items, y: Items)
    requires Fits(x + y)
    ensures Fits(x)
  {
    PrefixCosts(x, y);
  }

  /** No turn starts strictly between the head and the next start. */
  lemma StartAfterNext(items: Items, j: nat)
    requires IsStart(items, j) && j > 0
    ensures NextStart(items) <= j && NextStart(items) < |items|
    ensures IsStart(items[NextStart(items)..], j - NextStart(items))
  {
  }

  /** The longest suffix of whole turns that meets both bounds starts at k. */
  ghost predicate LongestFit(items: Items, k: nat) {
    && k <= |items| && IsStart(items, k) && Fits(items[k..])
    && forall j: nat | j < k && IsStart(items, j) :: !Fits(items[j..])
  }

  ghost predicate NoneFits(items: Items) {
    forall j: nat | j <= |items| && IsStart(items, j) :: !Fits(items[j..])
  }

  lemma StartsInRest(items: Items, j: nat)
    requires j <= |items| && IsStart(items, j) && j > 0 && NextStart(items) < |items|
    ensures var n := NextStart(items);
            n <= j && IsStart(items[n..], j - n) && items[n..][j - n..] == items[j..]
  {
    StartAfterNext(items, j);
  }

  lemma DropTwice(items: Items, n: nat, k: nat)
    requires n + k <= |items|
    ensures items[n..][k..] == items[n + k..]
  {
  }

  lemma NextIsStart(items: Items)
    requires NextStart(items) < |items|
    ensures items[NextStart(items)].turn
  {
  }

  lemma StartInWhole(items: Items, k: nat)
    requires NextStart(items) < |items| && IsStart(items[NextStart(items)..], k)
    ensures IsStart(items, NextStart(items) + k)
  {
    hide NextStart, IsStart;
    NextIsStart(items);
    StartInTail(items, NextStart(items), k);
  }

  lemma StartInTail(items: Items, n: nat, k: nat)
    requires n < |items| && items[n].turn && IsStart(items[n..], k)
    ensures IsStart(items, n + k)
  {
    if k > 0 {
      assert items[n..][k] == items[n + k];
    }
  }

  lemma LongestFitInRest(items: Items, k: nat)
    requires !Fits(items) && NextStart(items) < |items| && LongestFit(items[NextStart(items)..], k)
    ensures LongestFit(items, NextStart(items) + k) && items[NextStart(items)..][k..] == items[NextStart(items) + k..]
  {
    hide Fits, NextStart, IsStart;
    var n := NextStart(items);
    var rest := items[n..];
    DropTwice(items, n, k);
    StartInWhole(items, k);
    assert items[0..] == items;
    forall j: nat | j < n + k && IsStart(items, j) ensures !Fits(items[j..]) {
      if j > 0 {
        StartsInRest(items, j);
        assert !Fits(rest[j - n..]);
      }
    }
  }

  lemma NoneFitsInRest(items: Items)
    requires !Fits(items) && (NextStart(items) < |items| ==> NoneFits(items[NextStart(items)..]))
    ensures NoneFits(items)
  {
    hide Fits;
    assert items[0..] == items;
    forall j: nat | j <= |items| && IsStart(items, j) ensures !Fits(items[j..]) {
      if j > 0 {
        StartAfterNext(items, j);
        StartsInRest(items, j);
      }
    }
  }

  /** Where trimming cuts, or -1 when it drops everything. */
  lemma {:induction false} TrimCut(items: Items) returns (k: int)
    ensures k >= 0 ==> LongestFit(items, k) && Trim(items) == items[k..]
    ensures k < 0 ==> NoneFits(items) && Trim(items) == []
    decreases |items|
  {
    hide Fits, LongestFit, NoneFits, Trim, NextStart;
    NothingFits();
    TrimOne(items);
    var n := NextStart(items);
    if Fits(items) {
      k := 0;
      FitsAtHead(items);
    } else if n == |items| {
      k := -1;
      NoneFitsInRest(items);
    } else {
      NextIsLater(items);
      k := TrimCut(items[n..]);
      if k >= 0 {
        LongestFitInRest(items, k);
        k := n + k;
      } else {
        NoneFitsInRest(items);
      }
    }
  }

  lemma FitsAtHead(items: Items)
    requires Fits(items)
    ensures LongestFit(items, 0) && items[0..] == items
  {
    assert items[0..] == items;
  }

  /**
   * Trimming yields the longest suffix that starts at the head or at a marker and meets both bounds;
   * when no such suffix exists it yields nothing. Either way the result meets the bounds.
   */
  lemma TrimIsLongestFit(items: Items)
    ensures Fits(Trim(items))
    ensures !NoneFits(items) ==> exists k: nat :: LongestFit(items, k) && Trim(items) == items[k..]
    ensures NoneFits(items) ==> Trim(items) == []
  {
    hide NoneFits;
    NothingFits();
    var k := TrimCut(items);
    if k >= 0 {
      FitIsNotNone(items, k);
    }
  }

  lemma FitIsNotNone(items: Items, k: nat)
    requires LongestFit(items, k)
    ensures !NoneFits(items)
  {
  }

  lemma TrimOfRest(items: Items, n: nat)
    requires !Fits(items) && n == NextStart(items) < |items|
    ensures Trim(items) == Trim(items[n..])
  {
  }

  /** A list that fits stays; trimming is idempotent. */
  lemma TrimIsIdempotent(items: Items)
    ensures Trim(Trim(items)) == Trim(items)
  {
    TrimIsLongestFit(items);
  }

  lemma {:induction false} NextStartOfAppend(x: Items, y: Items)
    requires x != []
    ensures NextStart(x + y) == if NextStart(x) < |x| then NextStart(x)
                                else if y != [] && y[0].turn then |x|
                                else |x| + NextStart(y)
  {
    var n := NextStart(x + y);
    var m := NextStart(x);
    assert forall i | 0 <= i < |x| :: (x + y)[i] == x[i];
    assert forall i | 0 <= i < |y| :: (x + y)[|x| + i] == y[i];
    if m < |x| {
      assert (x + y)[m].turn;
      assert !(n < m) && !(m < n);
    } else if y != [] && y[0].turn {
      assert (x + y)[|x|].turn;
    } else {
      var k := NextStart(y);
      if k < |y| {
        assert (x + y)[|x| + k].turn;
      }
      assert forall i | 0 < i < k :: !y[i].turn;
      forall i | 0 < i < |x| + k ensures !(x + y)[i].turn {
        if i >= |x| {
          assert (x + y)[i] == y[i - |x|];
        }
      }
    }
  }

  /**
   * The law the append log rests on, with its exact condition: trimming before appending loses nothing
   * unless everything before was dropped and what is appended fits but does not start a turn of its own.
   */
  lemma {:induction false} TrimThenAppend(x: Items, y: Items)
    ensures Trim(Trim(x) + y) == Trim(x + y) <==>
            y == [] || y[0].turn || x == [] || Trim(x) != [] || !Fits(y)
    decreases |x|
  {
    hide Fits;
    NothingFits();
    if Fits(x) {
      if x == [] {
        assert Trim(x) == x;
      }
    } else {
      if Fits(x + y) {
        PrefixFits(x, y);
        assert false;
      }
      var n := NextStart(x);
      NextStartOfAppend(x, y);
      if n < |x| {
        TrimOfRest(x, n);
        TrimOfRest(x + y, n);
        assert (x + y)[n..] == x[n..] + y;
        TrimThenAppend(x[n..], y);
      } else {
        assert Trim(x) == [];
        assert [] + y == y;
        AppendedTail(x, y);
      }
    }
  }

  /**
   * An input at which the law fails: one turn over the byte bound, then an item of the same turn. Trimming
   * first leaves a list that starts with a bare item; trimming the whole leaves nothing.
   */
  lemma TrimmingFirstShows()
    ensures var big, item := Item(true, "turn", seq(MAX_BYTES + 1, _ => 0)), Item(false, "", []);
            Trim(Trim([big]) + [item]) == [item] && Trim([big] + [item]) == []
  {
    var big, item := Item(true, "turn", seq(MAX_BYTES + 1, _ => 0)), Item(false, "", []);
    var both := [big] + [item];
    assert [big][..0] == [] && both[..1] == [big] && [item][..0] == [];
    assert TotalBytes([big]) > MAX_BYTES && TotalBytes(both) > MAX_BYTES;
    assert NextStart([big]) == 1 && NextStart(both) == 2;
    assert Fits([item]);
    assert Trim([big]) == [] && [] + [item] == [item];
  }

  lemma AppendedTail(x: Items, y: Items)
    requires x != [] && !Fits(x + y) && NextStart(x) == |x|
    ensures Trim(y) == Trim(x + y) <==> y == [] || y[0].turn || !Fits(y)
  {
    hide Fits, NextStart, Trim;
    NextStartOfAppend(x, y);
    if y == [] {
      assert x + y == x;
      OneTurnTooMany(x);
      TrimOfNothing();
    } else if y[0].turn {
      TrimOfRest(x + y, |x|);
      assert (x + y)[|x|..] == y;
    } else {
      AppendedPart(x, y);
    }
  }

  lemma OneTurnTooMany(x: Items)
    requires !Fits(x) && NextStart(x) == |x|
    ensures Trim(x) == []
  {
  }

  lemma TrimOfNothing()
    ensures Trim([]) == []
  {
  }

  /** What continues a turn goes with it; on its own it stays if it fits. */
  lemma AppendedPart(x: Items, y: Items)
    requires x != [] && y != [] && !y[0].turn && !Fits(x + y) && NextStart(x + y) == |x| + NextStart(y)
    ensures Trim(y) == Trim(x + y) <==> !Fits(y)
  {
    hide Fits, NextStart, Trim;
    var m := NextStart(y);
    NextIsLater(y);
    if m < |y| {
      TrimOfRest(x + y, |x| + m);
      assert (x + y)[|x| + m..] == y[m..];
      TrimIsSuffix(y[m..]);
    } else {
      OneTurnTooMany(x + y);
    }
    TrimOne(y);
  }

  lemma TrimOne(y: Items)
    ensures Fits(y) ==> Trim(y) == y
    ensures !Fits(y) && NextStart(y) == |y| ==> Trim(y) == []
    ensures !Fits(y) && NextStart(y) < |y| ==> Trim(y) == Trim(y[NextStart(y)..])
  {
    hide Fits;
  }

  lemma NextIsLater(items: Items)
    requires items != []
    ensures 0 < NextStart(items) <= |items|
  {
  }

  lemma {:induction false} TrimIsSuffix(items: Items)
    ensures |Trim(items)| <= |items|
    decreases |items|
  {
    NothingFits();
    var n := NextStart(items);
    if !Fits(items) && n < |items| {
      TrimIsSuffix(items[n..]);
    }
  }

  // ---------------------------------------------------------------- appending a turn

  predicate HasTurn(items: Items, id: string) {
    exists i | 0 <= i < |items| :: items[i].turn && items[i].id == id
  }

  /** The part of the stored list that an append builds on. */
  function Base(existing: Items): Items {
    if existing != [] && !existing[0].turn then [] else existing
  }

  function TurnId(turn: Items): string {
    if turn != [] && turn[0].turn then turn[0].id else ""
  }

  /** What appendCodexReasoningReplayTurn returns. */
  function Appended(existing: Items, turn: Items): Items {
    if TurnId(turn) != "" && HasTurn(Base(existing), TurnId(turn)) then Trim(Base(existing))
    else Trim(Base(existing) + turn)
  }

  /** A list that begins with a turn and holds one with this id already. */
  lemma AppendedIs(existing: Items, turn: Items)
    ensures var base := if existing != [] && !existing[0].turn then [] else existing;
            var stored := && turn != [] && turn[0].turn && turn[0].id != ""
                          && exists i | 0 <= i < |base| :: base[i].turn && base[i].id == turn[0].id;
            Appended(existing, turn) == Trim(if stored then base else base + turn)
  {
    hide Trim;
  }

  /**
   * appendCodexReasoningReplayTurn: a list that does not begin with a turn is dropped, a turn whose id is
   * stored leaves the list, and any other is put at its end; then the list is trimmed.
   */
  method AppendTurn(existing: Items, turn: Items) returns (items: Items)
    ensures items == Appended(existing, turn)
    ensures var base := if existing != [] && !existing[0].turn then [] else existing;
            var stored := && turn != [] && turn[0].turn && turn[0].id != ""
                          && exists i | 0 <= i < |base| :: base[i].turn && base[i].id == turn[0].id;
            items == Trim(if stored then base else base + turn)
  {
    hide Trim;
    AppendedIs(existing, turn);
    var base := existing;
    if |base| > 0 && !base[0].turn {
      base := [];
    }
    var turnID := "";
    if |turn| > 0 && turn[0].turn {
      turnID := turn[0].id;
    }
    if turnID != "" {
      for i := 0 to |base|
        invariant !HasTurn(base[..i], turnID)
      {
        if base[i].turn && base[i].id == turnID {
          items := TrimItems(base);
          return;
        }
      }
      assert base[..|base|] == base;
    }
    items := TrimItems(base + turn);
  }

  /** A completed turn as the cache receives it: normalized, trimmed, and led by its own marker. */
  ghost predicate IsTurn(turn: Items) {
    turn != [] && turn[0].turn && turn[0].id != "" && Fits(turn)
  }

  /**
   * Right after an append the turn is there, whole and last, unless the list begins with a turn and holds
   * one with the same id already.
   */
  lemma AppendedIsPresent(existing: Items, turn: Items)
    requires IsTurn(turn)
    ensures var r := Appended(existing, turn);
            if existing != [] && existing[0].turn
               && exists i | 0 <= i < |existing| :: existing[i].turn && existing[i].id == turn[0].id
            then r == Trim(existing)
            else |turn| <= |r| && r[|r| - |turn|..] == turn && r[0].turn
  {
    hide Fits;
    var base := Base(existing);
    if !HasTurn(base, turn[0].id) {
      var all := base + turn;
      assert all[|base|..] == turn && IsStart(all, |base|);
      hide Trim;
      var k := TrimCut(all);
      assert 0 <= k <= |base|;
      assert all[k..][|all[k..]| - |turn|..] == turn;
      assert all[k].turn;
    }
  }

  /** Appending a turn whose id is stored changes nothing. */
  lemma AppendingAgainChangesNothing(existing: Items, turn: Items)
    requires IsTurn(turn) && Trim(existing) == existing && (existing != [] ==> existing[0].turn)
    requires exists i | 0 <= i < |existing| :: existing[i].turn && existing[i].id == turn[0].id
    ensures Appended(existing, turn) == existing
  {
  }
}
