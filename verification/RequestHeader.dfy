/** Reordering the header block of one HTTP/1.1 request: internal/httpwire/ordered_conn.go. */
module RequestHeader {
  import opened ByteStrings
  import opened StableOrder

  /**
   * What the connection is configured with. `fold` is the canonical form that strings.EqualFold
   * compares; `order` is the caller's RequestHeaderOrder. Both are arbitrary functions.
   */
  datatype Rules = Rules(fold: Bytes -> Bytes, order: (Bytes, Bytes) -> seq<Bytes>)

  datatype Framing = Framing(contentLength: nat, chunked: bool)

  datatype Ordered = Ordered(bytes: Bytes, framing: Framing)

  const CONTENT_LENGTH: Bytes := Ascii("Content-Length")
  const TRANSFER_ENCODING: Bytes := Ascii("Transfer-Encoding")
  const CHUNKED: Bytes := Ascii("chunked")

  // ---------------------------------------------------------------- lines

  /** bytes.Split on CRLF. */
  function SplitLines(s: Bytes): (lines: seq<Bytes>)
    ensures |lines| >= 1
    decreases |s|
  {
    var i := IndexOf(s, CRLF);
    if i < 0 then [s] else [s[..i]] + SplitLines(s[i + 2..])
  }

  /** Every line followed by CRLF. */
  function JoinLines(lines: seq<Bytes>): Bytes {
    if lines == [] then [] else lines[0] + CRLF + JoinLines(lines[1..])
  }

  ghost predicate IsLine(line: Bytes) {
    forall i :: !At(line, CRLF, i)
  }

  ghost predicate AreLines(lines: seq<Bytes>) {
    forall i | 0 <= i < |lines| :: IsLine(lines[i])
  }

  /** The wire form of a header block: its lines and the blank line that ends it. */
  function Block(lines: seq<Bytes>): Bytes {
    JoinLines(lines) + CRLF
  }

  lemma JoinCons(line: Bytes, rest: seq<Bytes>)
    ensures JoinLines([line] + rest) == line + CRLF + JoinLines(rest)
  {
    assert ([line] + rest)[1..] == rest;
  }

  lemma BeforeFirstCrlf(s: Bytes, i: nat)
    requires i <= |s| && forall j | 0 <= j < i :: !At(s, CRLF, j)
    ensures IsLine(s[..i])
  {
    forall j ensures !At(s[..i], CRLF, j) {
      AtInPrefix(s, i, CRLF, j);
    }
  }

  lemma {:induction false} SplitThenJoin(s: Bytes)
    ensures JoinLines(SplitLines(s)) == s + CRLF
    ensures AreLines(SplitLines(s))
    decreases |s|
  {
    hide JoinLines, At, IsLine, IndexOf;
    var i := IndexOf(s, CRLF);
    if i < 0 {
      JoinCons(s, []);
      JoinNothing();
      BeforeFirstCrlf(s, |s|);
      assert s[..|s|] == s && [s] + [] == [s];
    } else {
      AtFits(s, CRLF, i);
      BeforeFirstCrlf(s, i);
      SplitThenJoin(s[i + 2..]);
      JoinCons(s[..i], SplitLines(s[i + 2..]));
      assert s == s[..i] + CRLF + s[i + 2..];
    }
  }

  lemma JoinNothing()
    ensures JoinLines([]) == []
  {
  }

  lemma AtFits(s: Bytes, pattern: Bytes, i: int)
    requires At(s, pattern, i)
    ensures 0 <= i && i + |pattern| <= |s| && s[i..i + |pattern|] == pattern
  {
  }

  lemma CrlfAt(s: Bytes, i: int)
    ensures At(s, CRLF, i) <==> 0 <= i <= |s| - 2 && s[i] == CR && s[i + 1] == LF
  {
    if 0 <= i <= |s| - 2 {
      assert s[i..i + 2] == [s[i], s[i + 1]];
    }
  }

  lemma BlankLineAt(s: Bytes, i: int)
    ensures At(s, CRLFCRLF, i) <==> At(s, CRLF, i) && At(s, CRLF, i + 2)
  {
    CrlfAt(s, i);
    CrlfAt(s, i + 2);
    if 0 <= i <= |s| - 4 {
      assert s[i..i + 4] == [s[i], s[i + 1], s[i + 2], s[i + 3]];
    }
  }

  /** Where CRLF can occur in a line that is followed by CRLF and anything else. */
  lemma CrlfAfterLine(line: Bytes, rest: Bytes, i: int)
    requires IsLine(line)
    ensures At(line + CRLF + rest, CRLF, i) <==> i == |line| || At(rest, CRLF, i - |line| - 2)
  {
    hide At;
    CrlfAt(line + CRLF + rest, i);
    CrlfAt(line, i);
    CrlfAt(rest, i - |line| - 2);
  }

  lemma FirstCrlf(line: Bytes, rest: Bytes)
    requires IsLine(line)
    ensures IndexOf(line + CRLF + rest, CRLF) == |line|
  {
    forall j | 0 <= j <= |line| ensures At(line + CRLF + rest, CRLF, j) <==> j == |line| {
      CrlfAfterLine(line, rest, j);
    }
    IndexOfIs(line + CRLF + rest, CRLF, |line|);
  }

  lemma SplitCons(line: Bytes, rest: Bytes)
    requires IsLine(line)
    ensures SplitLines(line + CRLF + rest) == [line] + SplitLines(rest)
  {
    hide IsLine, IndexOf;
    FirstCrlf(line, rest);
    assert (line + CRLF + rest)[..|line|] == line;
    assert (line + CRLF + rest)[|line| + 2..] == rest;
  }

  lemma SplitOne(line: Bytes)
    requires IsLine(line)
    ensures SplitLines(line) == [line]
  {
    assert IndexOf(line, CRLF) < 0;
  }

  lemma {:induction false} JoinThenSplit(lines: seq<Bytes>)
    requires |lines| >= 1 && AreLines(lines)
    ensures |JoinLines(lines)| >= 2
    ensures SplitLines(JoinLines(lines)[..|JoinLines(lines)| - 2]) == lines
  {
    hide JoinLines, SplitLines, IsLine;
    assert lines == [lines[0]] + lines[1..];
    JoinCons(lines[0], lines[1..]);
    var all := JoinLines(lines);
    if |lines| == 1 {
      JoinNothing();
      SplitOne(lines[0]);
      assert lines[1..] == [];
      assert all[..|all| - 2] == lines[0];
    } else {
      JoinThenSplit(lines[1..]);
      var tail := JoinLines(lines[1..]);
      assert all[..|all| - 2] == lines[0] + CRLF + tail[..|tail| - 2];
      SplitCons(lines[0], tail[..|tail| - 2]);
    }
  }

  /** A header block ends at its first blank line. */
  ghost predicate EndsAtTerminator(h: Bytes) {
    At(h, CRLFCRLF, |h| - 4) && forall i | 0 <= i < |h| - 4 :: !At(h, CRLFCRLF, i)
  }

  lemma TerminatorInTail(line: Bytes, tail: Bytes, i: int)
    requires IsLine(line) && 0 <= i
    ensures At(line + CRLF + tail, CRLFCRLF, i) <==>
            (i == |line| && At(tail, CRLF, 0)) || At(tail, CRLFCRLF, i - |line| - 2)
  {
    hide At, IsLine;
    BlankLineAt(line + CRLF + tail, i);
    CrlfAfterLine(line, tail, i);
    CrlfAfterLine(line, tail, i + 2);
    BlankLineAt(tail, i - |line| - 2);
    CrlfAt(tail, i - |line| - 2);
    CrlfAt(tail, i - |line|);
  }

  /** Where a blank line can sit in the wire form of some lines. */
  lemma TerminatorsOfBlock(lines: seq<Bytes>, i: int)
    requires |lines| >= 1 && AreLines(lines) && 0 <= i
    ensures |lines| == 1 ==> (At(Block(lines), CRLFCRLF, i) <==> i == |lines[0]|)
    ensures |lines| > 1 ==> (At(Block(lines), CRLFCRLF, i) <==>
      (i == |lines[0]| && lines[1] == []) || At(Block(lines[1..]), CRLFCRLF, i - |lines[0]| - 2))
  {
    var tail := Block(lines[1..]);
    assert Block(lines) == lines[0] + CRLF + tail;
    TerminatorInTail(lines[0], tail, i);
    if |lines| == 1 {
      assert tail == CRLF;
      assert At(tail, CRLF, 0);
    } else {
      var rest := lines[1..];
      assert tail == rest[0] + CRLF + Block(rest[1..]);
      CrlfAfterLine(rest[0], Block(rest[1..]), 0);
    }
  }

  lemma {:induction false} NoBlankLineEndsBlock(lines: seq<Bytes>, i: int)
    requires |lines| >= 1 && AreLines(lines) && forall j | 1 <= j < |lines| :: lines[j] != []
    requires 0 <= i < |Block(lines)| - 4
    ensures !At(Block(lines), CRLFCRLF, i)
  {
    TerminatorsOfBlock(lines, i);
    if |lines| == 1 {
      assert JoinLines(lines[1..]) == [];
    } else if i >= |lines[0]| + 2 {
      NoBlankLineEndsBlock(lines[1..], i - |lines[0]| - 2);
    }
  }

  lemma {:induction false} BlankLineEndsEarly(lines: seq<Bytes>, j: nat) returns (i: nat)
    requires AreLines(lines) && 1 <= j < |lines| && lines[j] == []
    ensures i < |Block(lines)| - 4 && At(Block(lines), CRLFCRLF, i)
  {
    BlockEnds(lines[1..]);
    assert Block(lines) == lines[0] + CRLF + Block(lines[1..]);
    if j == 1 {
      i := |lines[0]|;
    } else {
      i := BlankLineEndsEarly(lines[1..], j - 1);
      i := i + |lines[0]| + 2;
    }
    TerminatorsOfBlock(lines, i);
  }

  /** The wire form of lines ends at its first blank line exactly when no line after the first is blank. */
  lemma TerminatorIffNoBlankLine(lines: seq<Bytes>)
    requires |lines| >= 1 && AreLines(lines)
    ensures EndsAtTerminator(Block(lines)) <==> forall j | 1 <= j < |lines| :: lines[j] != []
  {
    BlockEnds(lines);
    if j :| 1 <= j < |lines| && lines[j] == [] {
      var i := BlankLineEndsEarly(lines, j);
    } else {
      forall i | 0 <= i < |Block(lines)| - 4 ensures !At(Block(lines), CRLFCRLF, i) {
        NoBlankLineEndsBlock(lines, i);
      }
    }
  }

  lemma {:induction false} BlockEnds(lines: seq<Bytes>)
    requires |lines| >= 1
    ensures |Block(lines)| >= 4 && At(Block(lines), CRLFCRLF, |Block(lines)| - 4)
  {
    var h := Block(lines);
    if |lines| == 1 {
      assert JoinLines(lines[1..]) == [];
      assert h == lines[0] + CRLFCRLF;
    } else {
      BlockEnds(lines[1..]);
      assert h == lines[0] + CRLF + Block(lines[1..]);
    }
  }

  /** A complete header block is the wire form of its own lines. */
  lemma BlockOfLines(h: Bytes)
    requires |h| >= 4 && At(h, CRLFCRLF, |h| - 4)
    ensures AreLines(SplitLines(h[..|h| - 4]))
    ensures Block(SplitLines(h[..|h| - 4])) == h
  {
    SplitThenJoin(h[..|h| - 4]);
    AtFits(h, CRLFCRLF, |h| - 4);
    assert CRLFCRLF == CRLF + CRLF;
    assert h == h[..|h| - 4] + h[|h| - 4..|h| - 4 + 4];
  }

  /** The wire form of lines splits back into them. */
  lemma LinesOfBlock(lines: seq<Bytes>)
    requires |lines| >= 1 && AreLines(lines)
    ensures |Block(lines)| >= 4
    ensures SplitLines(Block(lines)[..|Block(lines)| - 4]) == lines
  {
    JoinThenSplit(lines);
    var all := JoinLines(lines);
    assert Block(lines)[..|Block(lines)| - 4] == all[..|all| - 2];
  }

  // ---------------------------------------------------------------- order

  /** headerLineNamed: the text before the first colon is non-empty and folds like name. */
  predicate Named(rules: Rules, line: Bytes, name: Bytes) {
    var colon := IndexOfByte(line, COLON);
    colon > 0 && rules.fold(line[..colon]) == rules.fold(name)
  }

  /** The first desired name a line carries, or |names| for an unlisted line. */
  function Rank(rules: Rules, names: seq<Bytes>, line: Bytes): (r: nat)
    ensures r <= |names|
  {
    if names == [] || Named(rules, line, names[0]) then 0 else 1 + Rank(rules, names[1..], line)
  }

  lemma {:induction false} RankIsFirstMatch(rules: Rules, names: seq<Bytes>, line: Bytes)
    ensures Rank(rules, names, line) < |names| ==> Named(rules, line, names[Rank(rules, names, line)])
    ensures forall k | 0 <= k < Rank(rules, names, line) :: !Named(rules, line, names[k])
  {
    if names != [] && !Named(rules, line, names[0]) {
      RankIsFirstMatch(rules, names[1..], line);
      assert forall k | 1 <= k < |names| :: names[k] == names[1..][k - 1];
    }
  }

  function RankOf(rules: Rules, names: seq<Bytes>): Bytes -> nat {
    (line: Bytes) => Rank(rules, names, line)
  }

  function NamedBy(rules: Rules, name: Bytes): Bytes -> bool {
    (line: Bytes) => Named(rules, line, name)
  }

  /** Header lines as the connection sends them: by rank, each rank in arrival order. */
  function Reordered(rules: Rules, names: seq<Bytes>, lines: seq<Bytes>): seq<Bytes> {
    PickBelow(RankOf(rules, names), lines, |names| + 1)
  }

  /** The lines carrying one name, in their own order. */
  function LinesNamed(rules: Rules, lines: seq<Bytes>, name: Bytes): seq<Bytes> {
    Filter(NamedBy(rules, name), lines)
  }

  /** No header line is lost, invented or repeated. */
  lemma ReorderedIsPermutation(rules: Rules, names: seq<Bytes>, lines: seq<Bytes>)
    ensures multiset(Reordered(rules, names, lines)) == multiset(lines)
  {
    PickBelowIsPermutation(RankOf(rules, names), lines, |names| + 1);
  }

  /** Lines that were reordered once stay where they are. */
  lemma ReorderedIsIdempotent(rules: Rules, names: seq<Bytes>, lines: seq<Bytes>)
    ensures Reordered(rules, names, Reordered(rules, names, lines)) == Reordered(rules, names, lines)
  {
    PickBelowIsIdempotent(RankOf(rules, names), lines, |names| + 1);
  }

  /** Listed names come first, in the order asked for; unlisted lines, of rank |names|, come last in their order. */
  lemma ReorderedIsSorted(rules: Rules, names: seq<Bytes>, lines: seq<Bytes>)
    ensures forall i, j | 0 <= i < j < |Reordered(rules, names, lines)| ::
      Rank(rules, names, Reordered(rules, names, lines)[i]) <= Rank(rules, names, Reordered(rules, names, lines)[j])
    ensures Pick(RankOf(rules, names), Reordered(rules, names, lines), |names|)
              == Pick(RankOf(rules, names), lines, |names|)
  {
    var key := RankOf(rules, names);
    PickBelowIsSorted(key, lines, |names| + 1);
    assert forall i | 0 <= i < |Reordered(rules, names, lines)| ::
      key(Reordered(rules, names, lines)[i]) == Rank(rules, names, Reordered(rules, names, lines)[i]);
    PickOfPickBelow(key, lines, |names| + 1, |names|);
  }

  /** Two lines with equal names have the same rank. */
  lemma {:induction false} EqualNamesEqualRank(rules: Rules, names: seq<Bytes>, a: Bytes, b: Bytes, name: Bytes)
    requires Named(rules, a, name) && Named(rules, b, name)
    ensures Rank(rules, names, a) == Rank(rules, names, b)
  {
    if names != [] {
      EqualNamesEqualRank(rules, names[1..], a, b, name);
    }
  }

  /** For every header name, listed or not, the lines carrying it keep their relative order. */
  lemma EqualNamesKeepOrder(rules: Rules, names: seq<Bytes>, lines: seq<Bytes>, name: Bytes)
    ensures LinesNamed(rules, Reordered(rules, names, lines), name) == LinesNamed(rules, lines, name)
  {
    var key, p := RankOf(rules, names), NamedBy(rules, name);
    var q: nat := 0;
    if first :| first in lines && p(first) {
      q := key(first);
      forall l | l in lines && p(l) ensures key(l) == q {
        EqualNamesEqualRank(rules, names, l, first, name);
      }
    }
    FilterOfPickBelow(key, p, lines, |names| + 1, q);
  }

  lemma {:induction false} JoinAppend(a: seq<Bytes>, b: seq<Bytes>)
    ensures JoinLines(a + b) == JoinLines(a) + JoinLines(b)
  {
    if a == [] {
      assert a + b == b;
    } else {
      assert (a + b)[1..] == a[1..] + b;
      JoinAppend(a[1..], b);
    }
  }

  lemma LengthWithLine(before: seq<Bytes>, line: Bytes, after: seq<Bytes>)
    ensures |JoinLines(before + ([line] + after))| == |JoinLines(before + after)| + |line| + 2
  {
    hide JoinLines;
    JoinAppend(before, [line] + after);
    JoinAppend(before, after);
    JoinCons(line, after);
  }

  lemma TakeOut(a: seq<Bytes>, b: seq<Bytes>) returns (i: nat)
    requires a != [] && multiset(a) == multiset(b)
    ensures i < |b| && b[i] == a[0] && multiset(a[1..]) == multiset(b[..i] + b[i + 1..])
  {
    assert a[0] in multiset(a);
    i :| i < |b| && b[i] == a[0];
    assert b == b[..i] + [b[i]] + b[i + 1..];
    assert a == [a[0]] + a[1..];
    assert multiset(b) == multiset(b[..i] + b[i + 1..]) + multiset{a[0]};
    assert multiset(a) == multiset(a[1..]) + multiset{a[0]};
    assert multiset(a[1..]) == multiset(a) - multiset{a[0]};
  }

  /** The wire length of lines depends only on which lines they are. */
  lemma {:induction false} JoinLength(a: seq<Bytes>, b: seq<Bytes>)
    requires multiset(a) == multiset(b)
    ensures |JoinLines(a)| == |JoinLines(b)|
  {
    hide JoinLines;
    if a == [] {
      assert |multiset(b)| == |multiset(a)|;
    } else {
      var i := TakeOut(a, b);
      JoinLength(a[1..], b[..i] + b[i + 1..]);
      LengthWithLine(b[..i], b[i], b[i + 1..]);
      assert b == b[..i] + ([b[i]] + b[i + 1..]);
      LengthWithLine([], a[0], a[1..]);
      assert a == [] + ([a[0]] + a[1..]) && a[1..] == [] + a[1..];
    }
  }

  // ---------------------------------------------------------------- framing

  function LineValue(line: Bytes): Bytes {
    var colon := IndexOfByte(line, COLON);
    if colon < 0 then [] else line[colon + 1..]
  }

  /** requestContentLength: the first Content-Length line decides; anything but a positive number is 0. */
  function ContentLength(rules: Rules, lines: seq<Bytes>): nat {
    if lines == [] then 0
    else if !Named(rules, lines[0], CONTENT_LENGTH) then ContentLength(rules, lines[1..])
    else
      match ParseInt(TrimSpace(LineValue(lines[0])), 10)
      case Some(length) => if length > 0 then length else 0
      case None => 0
  }

  predicate AnyIsChunked(rules: Rules, codings: seq<Bytes>) {
    codings != [] && (rules.fold(TrimSpace(codings[0])) == rules.fold(CHUNKED) || AnyIsChunked(rules, codings[1..]))
  }

  /** requestUsesChunkedEncoding: some coding of some Transfer-Encoding line is "chunked". */
  predicate UsesChunked(rules: Rules, lines: seq<Bytes>) {
    lines != [] &&
    ((Named(rules, lines[0], TRANSFER_ENCODING) && AnyIsChunked(rules, SplitOn(LineValue(lines[0]), COMMA)))
     || UsesChunked(rules, lines[1..]))
  }

  function FramingOf(rules: Rules, lines: seq<Bytes>): Framing {
    Framing(ContentLength(rules, lines), UsesChunked(rules, lines))
  }

  lemma {:induction false} ContentLengthByName(rules: Rules, lines: seq<Bytes>)
    ensures ContentLength(rules, lines) == ContentLength(rules, LinesNamed(rules, lines, CONTENT_LENGTH))
  {
    if lines != [] {
      ContentLengthByName(rules, lines[1..]);
      var p, rest := NamedBy(rules, CONTENT_LENGTH), LinesNamed(rules, lines[1..], CONTENT_LENGTH);
      assert LinesNamed(rules, lines, CONTENT_LENGTH) == if p(lines[0]) then [lines[0]] + rest else rest;
    }
  }

  lemma {:induction false} UsesChunkedByName(rules: Rules, lines: seq<Bytes>)
    ensures UsesChunked(rules, lines) == UsesChunked(rules, LinesNamed(rules, lines, TRANSFER_ENCODING))
  {
    if lines != [] {
      UsesChunkedByName(rules, lines[1..]);
      var p, rest := NamedBy(rules, TRANSFER_ENCODING), LinesNamed(rules, lines[1..], TRANSFER_ENCODING);
      assert LinesNamed(rules, lines, TRANSFER_ENCODING) == if p(lines[0]) then [lines[0]] + rest else rest;
      if p(lines[0]) {
        assert ([lines[0]] + rest)[1..] == rest;
      }
    }
  }

  /** Reordering never changes how the body is delimited. */
  lemma ReorderedKeepsFraming(rules: Rules, names: seq<Bytes>, lines: seq<Bytes>)
    ensures FramingOf(rules, Reordered(rules, names, lines)) == FramingOf(rules, lines)
  {
    EqualNamesKeepOrder(rules, names, lines, CONTENT_LENGTH);
    EqualNamesKeepOrder(rules, names, lines, TRANSFER_ENCODING);
    ContentLengthByName(rules, lines);
    ContentLengthByName(rules, Reordered(rules, names, lines));
    UsesChunkedByName(rules, lines);
    UsesChunkedByName(rules, Reordered(rules, names, lines));
  }

  // ---------------------------------------------------------------- one block

  /** strings.SplitN(line, " ", 3), when it yields three parts: method and target. */
  function RequestTarget(line: Bytes): Option<(Bytes, Bytes)> {
    var first := IndexOfByte(line, SPACE);
    if first < 0 then None
    else
      var rest := line[first + 1..];
      var second := IndexOfByte(rest, SPACE);
      if second < 0 then None else Some((line[..first], rest[..second]))
  }

  /** The names asked for, or none when the first line is not a request line. */
  function Desired(rules: Rules, requestLine: Bytes): seq<Bytes> {
    match RequestTarget(requestLine)
    case Some((m, target)) => rules.order(m, target)
    case None => []
  }

  /** What orderRequestHeader returns for a complete header block. */
  function OrderHeader(rules: Rules, header: Bytes): Ordered
    requires |header| >= 4
  {
    var lines := SplitLines(header[..|header| - 4]);
    var names := Desired(rules, lines[0]);
    var bytes := if names == [] then header else Block([lines[0]] + Reordered(rules, names, lines[1..]));
    Ordered(bytes, FramingOf(rules, lines[1..]))
  }

  lemma HeaderIsBlock(header: Bytes)
    requires EndsAtTerminator(header) && |header| >= 4
    ensures var lines := SplitLines(header[..|header| - 4]);
            AreLines(lines) && Block(lines) == header && EndsAtTerminator(Block(lines))
  {
    BlockOfLines(header);
  }

  /** A block whose later lines are reordered is again one block of the same length. */
  lemma ReorderedBlock(rules: Rules, names: seq<Bytes>, before: seq<Bytes>)
    requires |before| >= 1 && AreLines(before) && EndsAtTerminator(Block(before))
    ensures var after := [before[0]] + Reordered(rules, names, before[1..]);
            AreLines(after) && EndsAtTerminator(Block(after)) && |Block(after)| == |Block(before)|
  {
    var tail := Reordered(rules, names, before[1..]);
    var after := [before[0]] + tail;
    ReorderedIsPermutation(rules, names, before[1..]);
    JoinLength(tail, before[1..]);
    TerminatorIffNoBlankLine(before);
    forall j | 1 <= j < |after| ensures IsLine(after[j]) && after[j] != [] {
      assert after[j] == tail[j - 1] && tail[j - 1] in multiset(before[1..]);
      var i :| 0 <= i < |before[1..]| && before[1..][i] == after[j];
      assert before[i + 1] == after[j];
    }
    TerminatorIffNoBlankLine(after);
    assert after[1..] == tail;
    assert JoinLines(after) == before[0] + CRLF + JoinLines(tail);
  }

  /**
   * The rewritten block keeps the request line, holds the same header lines in rank order, has the
   * same length and ends at the same terminator; rewriting it again changes nothing, framing included.
   */
  lemma OrderHeaderPreservesMeaning(rules: Rules, header: Bytes)
    requires EndsAtTerminator(header) && |header| >= 4
    ensures var sent := OrderHeader(rules, header).bytes;
            var before := SplitLines(header[..|header| - 4]);
            && |sent| == |header|
            && EndsAtTerminator(sent)
            && OrderHeader(rules, sent) == OrderHeader(rules, header)
            && var after := SplitLines(sent[..|sent| - 4]);
               && after[0] == before[0]
               && multiset(after[1..]) == multiset(before[1..])
               && forall name :: LinesNamed(rules, after[1..], name) == LinesNamed(rules, before[1..], name)
  {
    hide SplitLines, Block, At, LinesNamed, Reordered, Desired, FramingOf, EndsAtTerminator, AreLines;
    var before := SplitLines(header[..|header| - 4]);
    var names := Desired(rules, before[0]);
    HeaderIsBlock(header);
    if names != [] {
      var after := [before[0]] + Reordered(rules, names, before[1..]);
      ReorderedBlock(rules, names, before);
      LinesOfBlock(after);
      assert after[1..] == Reordered(rules, names, before[1..]);
      ReorderedIsIdempotent(rules, names, before[1..]);
      ReorderedKeepsFraming(rules, names, before[1..]);
      ReorderedIsPermutation(rules, names, before[1..]);
      forall name ensures LinesNamed(rules, after[1..], name) == LinesNamed(rules, before[1..], name) {
        EqualNamesKeepOrder(rules, names, before[1..], name);
      }
    }
  }

  // ---------------------------------------------------------------- the algorithm

  lemma RankFrom(rules: Rules, names: seq<Bytes>, line: Bytes, k: nat)
    requires k < |names| && Rank(rules, names, line) >= k
    ensures Named(rules, line, names[k]) <==> Rank(rules, names, line) == k
  {
    RankIsFirstMatch(rules, names, line);
  }

  /** One pass for one desired name: append its unused lines and mark them used. */
  method TakeNamed(rules: Rules, desired: seq<Bytes>, k: nat, headerLines: seq<Bytes>, used: array<bool>)
    returns (taken: seq<Bytes>)
    requires k < |desired| && used.Length == |headerLines|
    requires forall i | 0 <= i < used.Length :: used[i] <==> RankOf(rules, desired)(headerLines[i]) < k
    modifies used
    ensures taken == Pick(RankOf(rules, desired), headerLines, k)
    ensures forall i | 0 <= i < used.Length :: used[i] <==> RankOf(rules, desired)(headerLines[i]) < k + 1
  {
    ghost var key := RankOf(rules, desired);
    taken := [];
    for index := 0 to |headerLines|
      invariant taken == Pick(key, headerLines[..index], k)
      invariant forall i | 0 <= i < used.Length :: used[i] <==> key(headerLines[i]) < (if i < index then k + 1 else k)
    {
      PickSnoc(key, headerLines, index, k);
      if !used[index] {
        RankFrom(rules, desired, headerLines[index], k);
        if Named(rules, headerLines[index], desired[k]) {
          taken := taken + [headerLines[index]];
          used[index] := true;
        }
      }
    }
    assert headerLines[..|headerLines|] == headerLines;
  }

  /** The line selection of orderRequestHeader, with its table of used lines. */
  method SelectLines(rules: Rules, desired: seq<Bytes>, headerLines: seq<Bytes>) returns (orderedLines: seq<Bytes>)
    ensures orderedLines == Reordered(rules, desired, headerLines)
  {
    ghost var key := RankOf(rules, desired);
    var used := new bool[|headerLines|](_ => false);
    orderedLines := [];
    for k := 0 to |desired|
      invariant orderedLines == PickBelow(key, headerLines, k)
      invariant forall i | 0 <= i < used.Length :: used[i] <==> key(headerLines[i]) < k
    {
      var taken := TakeNamed(rules, desired, k, headerLines, used);
      orderedLines := orderedLines + taken;
    }
    ghost var listed := orderedLines;
    for index := 0 to |headerLines|
      invariant orderedLines == listed + Pick(key, headerLines[..index], |desired|)
      invariant forall i | 0 <= i < used.Length :: used[i] <==> key(headerLines[i]) < |desired|
    {
      PickSnoc(key, headerLines, index, |desired|);
      assert key(headerLines[index]) == Rank(rules, desired, headerLines[index]);
      if !used[index] {
        orderedLines := orderedLines + [headerLines[index]];
      }
    }
    assert headerLines[..|headerLines|] == headerLines;
  }

  /** orderRequestHeader. */
  method OrderRequestHeader(rules: Rules, header: Bytes) returns (output: Bytes, framing: Framing)
    requires |header| >= 4 && At(header, CRLFCRLF, |header| - 4)
    ensures Ordered(output, framing) == OrderHeader(rules, header)
  {
    var lines := SplitLines(header[..|header| - 4]);
    framing := FramingOf(rules, lines[1..]);
    var desired := Desired(rules, lines[0]);
    if desired == [] {
      return header, framing;
    }
    var headerLines := SelectLines(rules, desired, lines[1..]);
    var orderedLines := [lines[0]] + headerLines;
    output := [];
    for k := 0 to |orderedLines|
      invariant output == JoinLines(orderedLines[..k])
    {
      output := output + orderedLines[k] + CRLF;
      assert orderedLines[..k + 1] == orderedLines[..k] + [orderedLines[k]];
      JoinAppend(orderedLines[..k], [orderedLines[k]]);
      assert JoinLines([orderedLines[k]]) == orderedLines[k] + CRLF + JoinLines([]);
    }
    assert orderedLines[..|orderedLines|] == orderedLines;
    output := output + CRLF;
  }
}
