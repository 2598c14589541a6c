/**
 * What a request header says, in terms of the bytes of its lines, and that framing and reordering go by
 * it: internal/httpwire/ordered_conn.go.
 */
module RequestMeaning {
  import opened ByteStrings
  import opened TextLaws
  import opened StableOrder
  import opened RequestHeader

  // ---------------------------------------------------------------- fields

  /** name, colon, value; the name is what precedes the first colon and compares equal. */
  ghost predicate Field(rules: Rules, line: Bytes, name: Bytes, value: Bytes) {
    exists n: Bytes ::
      && n != [] && Ascii(":")[0] !in n && rules.fold(n) == rules.fold(name)
      && line == n + Ascii(":") + value
  }

  ghost predicate HasName(rules: Rules, line: Bytes, name: Bytes) {
    exists value :: Field(rules, line, name, value)
  }

  lemma FieldAt(rules: Rules, line: Bytes, name: Bytes, value: Bytes)
    requires Field(rules, line, name, value)
    ensures Named(rules, line, name) && LineValue(line) == value
  {
    var n: Bytes :|
      n != [] && Ascii(":")[0] !in n && rules.fold(n) == rules.fold(name) && line == n + Ascii(":") + value;
    assert Ascii(":")[0] == COLON;
    assert line[|n|] == COLON && line[..|n|] == n && line[|n| + 1..] == value;
    IndexOfByteIs(line, COLON, |n|);
  }

  lemma NamedField(rules: Rules, line: Bytes, name: Bytes)
    requires Named(rules, line, name)
    ensures Field(rules, line, name, LineValue(line))
  {
    var colon := IndexOfByte(line, COLON);
    var n := line[..colon];
    assert Ascii(":") == [COLON];
    assert line == n + Ascii(":") + line[colon + 1..];
  }

  lemma NamedIff(rules: Rules, line: Bytes, name: Bytes)
    ensures Named(rules, line, name) <==> HasName(rules, line, name)
  {
    hide Named, Field;
    if Named(rules, line, name) {
      NamedField(rules, line, name);
    }
    if value :| Field(rules, line, name, value) {
      FieldAt(rules, line, name, value);
    }
  }

  // ---------------------------------------------------------------- lengths

  /** The text of a positive 64-bit number, white space around it aside. */
  ghost predicate IsLength(value: Bytes, n: nat) {
    0 < n < 0x8000_0000_0000_0000 && exists core :: IsCore(value, core) && WritesInt(core, 10, n)
  }

  /** The i-th line is the first Content-Length, with this value. */
  ghost predicate FirstLength(rules: Rules, lines: seq<Bytes>, i: nat, value: Bytes) {
    && i < |lines| && Field(rules, lines[i], Ascii("Content-Length"), value)
    && forall j | 0 <= j < i :: !HasName(rules, lines[j], Ascii("Content-Length"))
  }

  /** The first Content-Length line gives this length. */
  ghost predicate Announces(rules: Rules, lines: seq<Bytes>, n: nat) {
    exists i: nat, value :: FirstLength(rules, lines, i, value) && IsLength(value, n)
  }

  lemma LengthIff(value: Bytes, n: nat)
    requires n > 0
    ensures ParseInt(TrimSpace(value), 10) == Some(n) <==> IsLength(value, n)
  {
    hide ParseInt, TrimSpace, IsCore, WritesInt;
    TrimSpaceIff(value, TrimSpace(value));
    ParseIntIff(TrimSpace(value), 10, n);
    if IsLength(value, n) {
      var core :| IsCore(value, core) && WritesInt(core, 10, n);
      TrimSpaceIff(value, core);
    }
  }

  /** A number between blanks is such a text. */
  lemma PlainLength(a: Bytes, n: nat, b: Bytes)
    requires Blank(a) && Blank(b) && 0 < n < 0x8000_0000_0000_0000
    ensures IsLength(a + Numeral(n, 10) + b, n)
  {
    hide Blank, IsSpace, Utf8, Numeral;
    var core := Numeral(n, 10);
    NumeralIsWritten(n);
    NumeralIsSolid(n);
    assert IsCore(a + core + b, core);
    assert WritesInt(core, 10, n);
  }

  lemma {:induction false} NumeralIsSolid(n: nat)
    ensures !StartsBlank(Numeral(n, 10)) && !EndsBlank(Numeral(n, 10))
    ensures forall i | 0 <= i < |Numeral(n, 10)| :: 48 <= Numeral(n, 10)[i] <= 57
  {
    hide IsSpace;
    var text := Numeral(n, 10);
    DecimalBytes(n);
    StartIff(text);
    EndIff(text);
  }

  /** The length the connection goes by is the one the first Content-Length line gives, and 0 if none does. */
  lemma {:induction false} ContentLengthIff(rules: Rules, lines: seq<Bytes>, n: nat)
    requires n > 0
    ensures ContentLength(rules, lines) == n <==> Announces(rules, lines, n)
    decreases |lines|
  {
    hide Named, Field, HasName, ParseInt, TrimSpace, LineValue, IsLength;
    LengthNames();
    if lines != [] {
      var name := Ascii("Content-Length");
      NamedIff(rules, lines[0], name);
      if !Named(rules, lines[0], name) {
        ContentLengthIff(rules, lines[1..], n);
        AnnouncedLater(rules, lines, n);
      } else {
        NamedField(rules, lines[0], name);
        LengthIff(LineValue(lines[0]), n);
        AnnouncedFirst(rules, lines, LineValue(lines[0]), n);
      }
    }
  }

  lemma LengthNames()
    ensures CONTENT_LENGTH == Ascii("Content-Length") && TRANSFER_ENCODING == Ascii("Transfer-Encoding")
    ensures CHUNKED == Ascii("chunked")
  {
  }

  lemma FieldHasName(rules: Rules, line: Bytes, name: Bytes, value: Bytes)
    requires Field(rules, line, name, value)
    ensures HasName(rules, line, name)
  {
    hide Field;
  }

  lemma AnnouncedLater(rules: Rules, lines: seq<Bytes>, n: nat)
    requires lines != [] && !HasName(rules, lines[0], Ascii("Content-Length"))
    ensures Announces(rules, lines, n) <==> Announces(rules, lines[1..], n)
  {
    hide Field, HasName, IsLength;
    if Announces(rules, lines, n) {
      var i: nat, value :| FirstLength(rules, lines, i, value) && IsLength(value, n);
      FieldHasName(rules, lines[i], Ascii("Content-Length"), value);
      assert FirstLength(rules, lines[1..], i - 1, value);
    }
    if Announces(rules, lines[1..], n) {
      var i: nat, value :| FirstLength(rules, lines[1..], i, value) && IsLength(value, n);
      assert FirstLength(rules, lines, i + 1, value);
    }
  }

  lemma AnnouncedFirst(rules: Rules, lines: seq<Bytes>, value: Bytes, n: nat)
    requires lines != [] && Field(rules, lines[0], Ascii("Content-Length"), value)
    ensures Announces(rules, lines, n) <==> IsLength(value, n)
  {
    hide IsLength, HasName, Field, Named;
    var name := Ascii("Content-Length");
    FieldHasName(rules, lines[0], name, value);
    FieldAt(rules, lines[0], name, value);
    if Announces(rules, lines, n) {
      var i: nat, v :| FirstLength(rules, lines, i, v) && IsLength(v, n);
      assert i == 0;
      FieldAt(rules, lines[0], name, v);
    }
    if IsLength(value, n) {
      assert FirstLength(rules, lines, 0, value);
    }
  }

  // ---------------------------------------------------------------- codings

  /** A part of a Transfer-Encoding line, white space around it aside, says chunked. */
  ghost predicate SaysChunked(rules: Rules, value: Bytes) {
    exists part :: IsPart(value, Ascii(",")[0], part) && PartIsChunked(rules, part)
  }

  ghost predicate PartIsChunked(rules: Rules, part: Bytes) {
    exists core :: IsCore(part, core) && rules.fold(core) == rules.fold(Ascii("chunked"))
  }

  ghost predicate LineSaysChunked(rules: Rules, line: Bytes) {
    exists value :: Field(rules, line, Ascii("Transfer-Encoding"), value) && SaysChunked(rules, value)
  }

  ghost predicate AnnouncesChunked(rules: Rules, lines: seq<Bytes>) {
    exists i | 0 <= i < |lines| :: LineSaysChunked(rules, lines[i])
  }

  lemma {:induction false} AnyIsChunkedIff(rules: Rules, codings: seq<Bytes>)
    ensures AnyIsChunked(rules, codings) <==> exists part :: part in codings && PartIsChunked(rules, part)
    decreases |codings|
  {
    hide TrimSpace, IsCore, PartIsChunked;
    if codings != [] {
      AnyIsChunkedIff(rules, codings[1..]);
      PartIff(rules, codings[0]);
      assert codings == [codings[0]] + codings[1..];
      if AnyIsChunked(rules, codings) {
        if PartIsChunked(rules, codings[0]) {
          assert codings[0] in codings;
        }
      }
    }
  }

  lemma PartIff(rules: Rules, part: Bytes)
    ensures rules.fold(TrimSpace(part)) == rules.fold(CHUNKED) <==> PartIsChunked(rules, part)
  {
    hide TrimSpace, IsCore;
    LengthNames();
    TrimSpaceIff(part, TrimSpace(part));
    if PartIsChunked(rules, part) {
      var core :| IsCore(part, core) && rules.fold(core) == rules.fold(Ascii("chunked"));
      TrimSpaceIff(part, core);
    }
  }

  lemma LineChunkedIff(rules: Rules, line: Bytes)
    ensures Named(rules, line, TRANSFER_ENCODING) && AnyIsChunked(rules, SplitOn(LineValue(line), COMMA))
       <==> LineSaysChunked(rules, line)
  {
    hide Named, Field, LineValue, AnyIsChunked, SplitOn, PartIsChunked, IsPart;
    LengthNames();
    assert Ascii(",")[0] == COMMA;
    var value := LineValue(line);
    AnyIsChunkedIff(rules, SplitOn(value, COMMA));
    forall part ensures part in SplitOn(value, COMMA) <==> IsPart(value, COMMA, part) {
      SplitOnIff(value, COMMA, part);
    }
    if Named(rules, line, TRANSFER_ENCODING) {
      NamedField(rules, line, TRANSFER_ENCODING);
    }
    if LineSaysChunked(rules, line) {
      var v :| Field(rules, line, Ascii("Transfer-Encoding"), v) && SaysChunked(rules, v);
      FieldAt(rules, line, TRANSFER_ENCODING, v);
    }
  }

  /** The body is taken as chunked exactly when some Transfer-Encoding line says so. */
  lemma {:induction false} UsesChunkedIff(rules: Rules, lines: seq<Bytes>)
    ensures UsesChunked(rules, lines) <==> AnnouncesChunked(rules, lines)
    decreases |lines|
  {
    hide Named, LineValue, AnyIsChunked, SplitOn, LineSaysChunked;
    if lines != [] {
      UsesChunkedIff(rules, lines[1..]);
      LineChunkedIff(rules, lines[0]);
      assert forall i | 1 <= i < |lines| :: lines[i] == lines[1..][i - 1];
      if AnnouncesChunked(rules, lines[1..]) {
        var i :| 0 <= i < |lines[1..]| && LineSaysChunked(rules, lines[1..][i]);
        assert LineSaysChunked(rules, lines[i + 1]);
      }
    }
  }

  // ---------------------------------------------------------------- request lines

  /** The method and the target of a request line: what precedes the first and the second space. */
  ghost predicate HasTarget(line: Bytes, m: Bytes, target: Bytes) {
    && Ascii(" ")[0] !in m && Ascii(" ")[0] !in target
    && exists rest :: line == m + Ascii(" ") + target + Ascii(" ") + rest
  }

  lemma CutAt(line: Bytes, a: Bytes, b: byte, rest: Bytes)
    requires line == a + [b] + rest && b !in a
    ensures IndexOfByte(line, b) == |a| && line[..|a|] == a && line[|a| + 1..] == rest
  {
    assert line[|a|] == b && line[..|a|] == a && line[|a| + 1..] == rest;
    IndexOfByteIs(line, b, |a|);
  }

  lemma TargetRead(line: Bytes, m: Bytes, target: Bytes, rest: Bytes)
    requires SPACE !in m && SPACE !in target && line == m + [SPACE] + target + [SPACE] + rest
    ensures RequestTarget(line) == Some((m, target))
  {
    hide IndexOfByte;
    var after := target + [SPACE] + rest;
    assert line == m + [SPACE] + after;
    CutAt(line, m, SPACE, after);
    CutAt(after, target, SPACE, rest);
  }

  lemma TargetWritten(line: Bytes, m: Bytes, target: Bytes)
    requires RequestTarget(line) == Some((m, target))
    ensures HasTarget(line, m, target)
  {
    hide IndexOfByte;
    var after := line[|m| + 1..];
    assert line == m + [SPACE] + after;
    var rest := after[|target| + 1..];
    assert after == target + [SPACE] + rest;
    assert Ascii(" ") == [SPACE];
    assert line == m + Ascii(" ") + target + Ascii(" ") + rest;
  }

  lemma TargetIff(line: Bytes, m: Bytes, target: Bytes)
    ensures RequestTarget(line) == Some((m, target)) <==> HasTarget(line, m, target)
  {
    hide RequestTarget;
    assert Ascii(" ") == [SPACE];
    if HasTarget(line, m, target) {
      var rest :| line == m + Ascii(" ") + target + Ascii(" ") + rest;
      TargetRead(line, m, target, rest);
    }
    if RequestTarget(line) == Some((m, target)) {
      TargetWritten(line, m, target);
    }
  }

  // ---------------------------------------------------------------- the rewritten block

  /** What is asked for the request line, if it is one. */
  ghost predicate Asked(rules: Rules, line: Bytes, names: seq<Bytes>) {
    || (exists m, target :: HasTarget(line, m, target) && names == rules.order(m, target))
    || (names == [] && forall m, target :: !HasTarget(line, m, target))
  }

  lemma DesiredIff(rules: Rules, line: Bytes, names: seq<Bytes>)
    ensures Desired(rules, line) == names <==> Asked(rules, line, names)
  {
    hide RequestTarget, HasTarget;
    forall m, target ensures RequestTarget(line) == Some((m, target)) <==> HasTarget(line, m, target) {
      TargetIff(line, m, target);
    }
    match RequestTarget(line)
    case Some((m, target)) => assert HasTarget(line, m, target);
    case None =>
  }

  /** No line goes before one whose name is asked for earlier. */
  ghost predicate InAskedOrder(rules: Rules, names: seq<Bytes>, lines: seq<Bytes>) {
    forall i, j, k | 0 <= i < j < |lines| && 0 <= k < |names| && HasName(rules, lines[j], names[k]) ::
      exists p :: 0 <= p <= k && HasName(rules, lines[i], names[p])
  }

  /** No name that is asked for is the line's. */
  ghost function UnlistedBy(rules: Rules, names: seq<Bytes>): Bytes -> bool {
    (line: Bytes) => forall k | 0 <= k < |names| :: !HasName(rules, line, names[k])
  }

  /** Lines nobody asked for keep their order. */
  lemma UnlistedKeepOrder(rules: Rules, names: seq<Bytes>, lines: seq<Bytes>)
    ensures Filter(UnlistedBy(rules, names), Reordered(rules, names, lines)) == Filter(UnlistedBy(rules, names), lines)
  {
    hide Named, HasName, Rank;
    var key, p := RankOf(rules, names), UnlistedBy(rules, names);
    forall line | line in lines && p(line) ensures key(line) == |names| {
      RankIsFirstMatch(rules, names, line);
      if Rank(rules, names, line) < |names| {
        NamedIff(rules, line, names[Rank(rules, names, line)]);
      }
    }
    FilterOfPickBelow(key, p, lines, |names| + 1, |names|);
  }

  lemma ReorderedInAskedOrder(rules: Rules, names: seq<Bytes>, lines: seq<Bytes>)
    ensures InAskedOrder(rules, names, Reordered(rules, names, lines))
  {
    hide Named, HasName, Rank, Reordered;
    ReorderedIsSorted(rules, names, lines);
    var sorted := Reordered(rules, names, lines);
    forall i, j, k | 0 <= i < j < |sorted| && 0 <= k < |names| && HasName(rules, sorted[j], names[k])
      ensures exists p :: 0 <= p <= k && HasName(rules, sorted[i], names[p])
    {
      NamedIff(rules, sorted[j], names[k]);
      RankIsFirstMatch(rules, names, sorted[j]);
      RankIsFirstMatch(rules, names, sorted[i]);
      var p := Rank(rules, names, sorted[i]);
      assert p <= Rank(rules, names, sorted[j]) <= k;
      NamedIff(rules, sorted[i], names[p]);
    }
  }

  /**
   * The framing of a complete header is what its lines announce, and its lines go out in the order asked
   * for its method and target; without an order, or a request line, the block goes out as it came.
   */
  lemma HeaderIsOrdered(rules: Rules, header: Bytes)
    requires EndsAtTerminator(header) && |header| >= 4
    ensures var before, ordered := SplitLines(header[..|header| - 4]), OrderHeader(rules, header);
            && (forall n: nat | n > 0 :: ordered.framing.contentLength == n <==> Announces(rules, before[1..], n))
            && (ordered.framing.chunked <==> AnnouncesChunked(rules, before[1..]))
    ensures var before, sent := SplitLines(header[..|header| - 4]), OrderHeader(rules, header).bytes;
            && |sent| >= 4
            && forall names | Asked(rules, before[0], names) ::
                 if names == [] then sent == header
                 else
                   var after := SplitLines(sent[..|sent| - 4]);
                   && InAskedOrder(rules, names, after[1..])
                   && Filter(UnlistedBy(rules, names), after[1..]) == Filter(UnlistedBy(rules, names), before[1..])
  {
    hide SplitLines, Block, Announces, AnnouncesChunked, ContentLength, UsesChunked, At, AreLines, Desired, Asked;
    hide Reordered, InAskedOrder, EndsAtTerminator, UnlistedBy;
    var before := SplitLines(header[..|header| - 4]);
    forall n: nat | n > 0 ensures ContentLength(rules, before[1..]) == n <==> Announces(rules, before[1..], n) {
      ContentLengthIff(rules, before[1..], n);
    }
    UsesChunkedIff(rules, before[1..]);
    OrderHeaderPreservesMeaning(rules, header);
    var desired := Desired(rules, before[0]);
    forall names | Asked(rules, before[0], names) ensures names == desired {
      DesiredIff(rules, before[0], names);
    }
    if desired != [] {
      HeaderIsBlock(header);
      ReorderedBlock(rules, desired, before);
      var after := [before[0]] + Reordered(rules, desired, before[1..]);
      LinesOfBlock(after);
      assert after[1..] == Reordered(rules, desired, before[1..]);
      ReorderedInAskedOrder(rules, desired, before[1..]);
      UnlistedKeepOrder(rules, desired, before[1..]);
    }
  }
}
