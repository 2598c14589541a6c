/** The chunked-body tracker of internal/httpwire/ordered_conn.go, and the encodings of RFC 9112, section 7.1. */
module ChunkedBody {
  import opened ByteStrings
  import opened TextLaws
  import opened RequestHeader

  const MAX_BUFFERED: nat := 0x10_0000

  datatype Phase = ReadingSize | ReadingData | ReadingDataCRLF | ReadingTrailers

  datatype Tracker = Tracker(phase: Phase, line: Bytes, dataRemaining: nat, crlfPosition: nat, trailers: Bytes)
  {
    predicate Valid() {
      && (phase.ReadingData? ==> dataRemaining > 0)
      && (phase.ReadingDataCRLF? ==> crlfPosition < 2)
    }
  }

  datatype Outcome = More | Completed | Malformed

  /** The effect of some input: bytes taken, the tracker after them, and whether the body ended. */
  datatype Consumption = Consumption(count: nat, tracker: Tracker, outcome: Outcome)

  const NEW_TRACKER: Tracker := Tracker(ReadingSize, [], 0, 0, [])

  predicate EndsWith(s: Bytes, suffix: Bytes) {
    |suffix| <= |s| && s[|s| - |suffix|..] == suffix
  }

  /** The text of a chunk-size line before any extension. */
  function SizeText(line: Bytes): Bytes {
    var text := TrimSpace(line);
    var extension := IndexOfByte(text, SEMICOLON);
    if extension >= 0 then TrimSpace(text[..extension]) else text
  }

  /** The number on a chunk-size line; None when it does not parse or is negative. */
  function ChunkSize(line: Bytes): Option<nat> {
    match ParseInt(SizeText(line), 16)
    case Some(v) => if v >= 0 then Some(v) else None
    case None => None
  }

  /** One input byte. */
  function Feed(t: Tracker, b: byte): (r: Consumption)
    requires t.Valid()
    ensures r.tracker.Valid()
    ensures !r.outcome.Malformed? ==> r.count == 1
  {
    match t.phase
    case ReadingSize =>
      var line := t.line + [b];
      if |line| > MAX_BUFFERED then Consumption(1, t.(line := line), Malformed)
      else if !EndsWith(line, CRLF) then Consumption(1, t.(line := line), More)
      else
        (match ChunkSize(line[..|line| - 2])
         case None => Consumption(1, t.(line := line), Malformed)
         case Some(size) =>
           if size == 0 then Consumption(1, t.(line := [], phase := ReadingTrailers), More)
           else Consumption(1, t.(line := [], dataRemaining := size, phase := ReadingData), More))
    case ReadingData =>
      if t.dataRemaining == 1 then
        Consumption(1, t.(dataRemaining := 0, crlfPosition := 0, phase := ReadingDataCRLF), More)
      else Consumption(1, t.(dataRemaining := t.dataRemaining - 1), More)
    case ReadingDataCRLF =>
      if b != CRLF[t.crlfPosition] then Consumption(0, t, Malformed)
      else
        var phase := if t.crlfPosition == 1 then ReadingSize else ReadingDataCRLF;
        Consumption(1, t.(crlfPosition := t.crlfPosition + 1, phase := phase), More)
    case ReadingTrailers =>
      var trailers := t.trailers + [b];
      Consumption(1, t.(trailers := trailers),
                  if |trailers| > MAX_BUFFERED then Malformed
                  else if trailers == CRLF || EndsWith(trailers, CRLFCRLF) then Completed
                  else More)
  }

  /** Input byte by byte, until it runs out or the body ends or breaks. */
  function Consume(t: Tracker, data: Bytes): (r: Consumption)
    requires t.Valid()
    ensures r.tracker.Valid() && r.count <= |data|
    ensures r.outcome.More? ==> r.count == |data|
    ensures data != [] && !r.outcome.Malformed? ==> r.count > 0
    decreases data
  {
    if data == [] then Consumption(0, t, More)
    else
      var first := Feed(t, data[0]);
      if !first.outcome.More? then first else Later(1, Consume(first.tracker, data[1..]))
  }

  function Later(n: nat, c: Consumption): Consumption {
    c.(count := n + c.count)
  }

  /** Consuming in pieces composes: a first piece that leaves the body open changes nothing. */
  lemma {:induction false} ConsumeComposes(t: Tracker, a: Bytes, b: Bytes)
    requires t.Valid()
    ensures var first := Consume(t, a);
            Consume(t, a + b) == if first.outcome.More? then Later(|a|, Consume(first.tracker, b)) else first
    decreases a
  {
    hide Feed;
    if a == [] {
      assert a + b == b;
    } else {
      assert (a + b)[0] == a[0] && (a + b)[1..] == a[1..] + b;
      ConsumeComposes(Feed(t, a[0]).tracker, a[1..], b);
    }
  }

  /** A body is self-delimiting: no strict prefix of a completed encoding completes or is malformed. */
  lemma NoPrefixEnds(t: Tracker, data: Bytes, k: nat)
    requires t.Valid() && k < Consume(t, data).count && Consume(t, data).outcome.Completed?
    ensures Consume(t, data[..k]).outcome.More?
  {
    hide Feed, Consume;
    ConsumeComposes(t, data[..k], data[k..]);
    assert data == data[..k] + data[k..];
  }

  // ---------------------------------------------------------------- the tracker object

  lemma {:induction false} ConsumeData(t: Tracker, data: Bytes, k: nat)
    requires t.Valid() && t.phase.ReadingData? && 0 < k <= |data| && k <= t.dataRemaining
    ensures var after := if k == t.dataRemaining
                         then t.(dataRemaining := 0, crlfPosition := 0, phase := ReadingDataCRLF)
                         else t.(dataRemaining := t.dataRemaining - k);
            after.Valid() && Consume(t, data) == Later(k, Consume(after, data[k..]))
    decreases k
  {
    if k > 1 {
      ConsumeData(Feed(t, data[0]).tracker, data[1..], k - 1);
      assert data[1..][k - 1..] == data[k..];
    }
  }

  /** chunkedRequestTracker. */
  class ChunkedRequestTracker {
    var phase: Phase
    var line: Bytes
    var dataRemaining: nat
    var crlfPosition: nat
    var trailers: Bytes

    ghost function View(): Tracker
      reads this
    {
      Tracker(phase, line, dataRemaining, crlfPosition, trailers)
    }

    constructor ()
      ensures View() == NEW_TRACKER
    {
      phase, line, dataRemaining, crlfPosition, trailers := ReadingSize, [], 0, 0, [];
    }

    method Clone() returns (cloned: ChunkedRequestTracker)
      ensures fresh(cloned) && cloned.View() == View()
    {
      cloned := new ChunkedRequestTracker();
      cloned.phase, cloned.line, cloned.dataRemaining := phase, line, dataRemaining;
      cloned.crlfPosition, cloned.trailers := crlfPosition, trailers;
    }

    /** The chunkedReadingSize case of consume. */
    method ReadSizeByte(b: byte) returns (failed: bool)
      requires phase.ReadingSize?
      modifies this
      ensures Feed(old(View()), b) == Consumption(1, View(), if failed then Malformed else More)
    {
      line := line + [b];
      if |line| > MAX_BUFFERED {
        return true;
      }
      if |line| < 2 || line[|line| - 2..] != CRLF {
        return false;
      }
      var size := ChunkSize(line[..|line| - 2]);
      if size.None? {
        return true;
      }
      line := [];
      if size.value == 0 {
        phase := ReadingTrailers;
        return false;
      }
      dataRemaining := size.value;
      phase := ReadingData;
      return false;
    }

    /** The chunkedReadingData case of consume. */
    method ReadDataBytes(data: Bytes) returns (chunkBytes: nat)
      requires phase.ReadingData? && View().Valid() && data != []
      modifies this
      ensures 0 < chunkBytes <= |data| && View().Valid()
      ensures Consume(old(View()), data) == Later(chunkBytes, Consume(View(), data[chunkBytes..]))
    {
      chunkBytes := if |data| < dataRemaining then |data| else dataRemaining;
      ConsumeData(View(), data, chunkBytes);
      dataRemaining := dataRemaining - chunkBytes;
      if dataRemaining == 0 {
        crlfPosition := 0;
        phase := ReadingDataCRLF;
      }
    }

    /** The chunkedReadingDataCRLF case of consume. */
    method ReadTerminatorByte(b: byte) returns (failed: bool)
      requires phase.ReadingDataCRLF? && View().Valid()
      modifies this
      ensures Feed(old(View()), b) == if failed then Consumption(0, View(), Malformed) else Consumption(1, View(), More)
    {
      if b != CRLF[crlfPosition] {
        return true;
      }
      crlfPosition := crlfPosition + 1;
      if crlfPosition == |CRLF| {
        phase := ReadingSize;
      }
      return false;
    }

    /** The chunkedReadingTrailers case of consume. */
    method ReadTrailerByte(b: byte) returns (completed: bool, failed: bool)
      requires phase.ReadingTrailers?
      modifies this
      ensures Feed(old(View()), b)
           == Consumption(1, View(), if failed then Malformed else if completed then Completed else More)
    {
      trailers := trailers + [b];
      if |trailers| > MAX_BUFFERED {
        return false, true;
      }
      return trailers == CRLF || (|trailers| >= 4 && trailers[|trailers| - 4..] == CRLFCRLF), false;
    }

    /** consume. */
    method ConsumeBytes(data: Bytes) returns (consumed: nat, completed: bool, failed: bool)
      requires View().Valid()
      modifies this
      ensures Consumption(consumed, View(), if failed then Malformed else if completed then Completed else More)
           == Consume(old(View()), data)
    {
      hide Feed, Consume;
      consumed := 0;
      assert data[0..] == data;
      while consumed < |data|
        invariant consumed <= |data| && View().Valid()
        invariant Consume(old(View()), data) == Later(consumed, Consume(View(), data[consumed..]))
      {
        ghost var t := View();
        ConsumeUnfolds(t, data, consumed);
        match phase
        case ReadingSize =>
          failed := ReadSizeByte(data[consumed]);
          consumed := consumed + 1;
          if failed {
            return consumed, false, true;
          }
        case ReadingData =>
          var chunkBytes := ReadDataBytes(data[consumed..]);
          assert data[consumed..][chunkBytes..] == data[consumed + chunkBytes..];
          consumed := consumed + chunkBytes;
        case ReadingDataCRLF =>
          failed := ReadTerminatorByte(data[consumed]);
          if failed {
            return consumed, false, true;
          }
          consumed := consumed + 1;
        case ReadingTrailers =>
          completed, failed := ReadTrailerByte(data[consumed]);
          consumed := consumed + 1;
          if failed || completed {
            return consumed, completed, failed;
          }
      }
      ConsumeNothing(View());
      assert data[consumed..] == [];
      return consumed, false, false;
    }
  }

  lemma ConsumeNothing(t: Tracker)
    requires t.Valid()
    ensures Consume(t, []) == Consumption(0, t, More)
  {
  }

  lemma ConsumeUnfolds(t: Tracker, data: Bytes, i: nat)
    requires t.Valid() && i < |data|
    ensures var first := Feed(t, data[i]);
            Consume(t, data[i..])
              == if !first.outcome.More? then first else Later(1, Consume(first.tracker, data[i + 1..]))
  {
    hide Feed;
    assert data[i..][1..] == data[i + 1..];
  }

  // ---------------------------------------------------------------- encodings

  /** One chunk as a sender writes it: size in hexadecimal, extension text, data. */
  datatype Chunk = Chunk(size: Bytes, extension: Bytes, data: Bytes)

  datatype Body = Body(chunks: seq<Chunk>, lastSize: Bytes, lastExtension: Bytes, trailers: seq<Bytes>)

  predicate IsBlank(s: Bytes) {
    forall i | 0 <= i < |s| :: s[i] == 32 || s[i] == 9
  }

  /** Optional blanks, then nothing or a semicolon and text without CRLF. */
  ghost predicate IsExtension(extension: Bytes) {
    IsLine(extension) &&
    exists n | 0 <= n <= |extension| :: IsBlank(extension[..n]) && (n == |extension| || extension[n] == SEMICOLON)
  }

  ghost predicate IsSizeLine(size: Bytes, extension: Bytes, value: nat) {
    && Writes(size, 16, value) && value < 0x8000_0000_0000_0000
    && IsExtension(extension)
    && |size| + |extension| + 2 <= 0x10_0000
  }

  ghost predicate IsBody(body: Body) {
    && (forall c | c in body.chunks :: c.data != [] && IsSizeLine(c.size, c.extension, |c.data|))
    && IsSizeLine(body.lastSize, body.lastExtension, 0)
    && AreLines(body.trailers) && (forall l | l in body.trailers :: l != [])
    && |Block(body.trailers)| <= 0x10_0000
  }

  function SizeLine(size: Bytes, extension: Bytes): Bytes {
    size + extension + CRLF
  }

  function EncodeChunks(chunks: seq<Chunk>): Bytes {
    if chunks == [] then []
    else SizeLine(chunks[0].size, chunks[0].extension) + chunks[0].data + CRLF + EncodeChunks(chunks[1..])
  }

  function Encode(body: Body): Bytes {
    EncodeChunks(body.chunks) + SizeLine(body.lastSize, body.lastExtension) + Block(body.trailers)
  }

  /** A byte that neither begins nor ends any white space. */
  predicate IsSolid(b: byte) {
    33 <= b < 128
  }

  lemma NothingToTrimRight(s: Bytes)
    requires s != [] && IsSolid(s[|s| - 1])
    ensures TrimRight(s) == s
  {
    assert SpaceAtEnd(s) == 0;
  }

  lemma NothingToTrimLeft(s: Bytes)
    requires s != [] && IsSolid(s[0])
    ensures TrimLeft(s) == s
  {
    assert SpaceAtStart(s) == 0;
  }

  lemma DigitsAreSolid(size: Bytes)
    requires AllDigits(size, 16)
    ensures forall i | 0 <= i < |size| ::
              IsSolid(size[i]) && size[i] != SEMICOLON && size[i] != CR && size[i] != 43 && size[i] != 45
  {
    forall i | 0 <= i < |size|
      ensures IsSolid(size[i]) && size[i] != SEMICOLON && size[i] != CR && size[i] != 43 && size[i] != 45
    {
      assert DigitValue(size[i]) < 16;
    }
  }

  lemma {:induction false} BlanksTrimmed(size: Bytes, blanks: Bytes)
    requires size != [] && IsSolid(size[|size| - 1]) && IsBlank(blanks)
    ensures TrimRight(size + blanks) == size
  {
    if blanks == [] {
      assert size + blanks == size;
      NothingToTrimRight(size);
    } else {
      var s := size + blanks;
      assert SpaceAtEnd(s) == 1;
      assert s[..|s| - 1] == size + blanks[..|blanks| - 1];
      BlanksTrimmed(size, blanks[..|blanks| - 1]);
    }
  }

  lemma SizeTextOfLine(size: Bytes, blanks: Bytes, rest: Bytes)
    requires size != [] && IsSolid(size[0]) && IsSolid(size[|size| - 1]) && IsBlank(blanks)
    requires SEMICOLON !in size && (rest == [] || rest[0] == SEMICOLON)
    ensures SizeText(size + blanks + rest) == size
  {
    hide TrimRight, TrimLeft, IndexOfByte;
    var front := size + blanks;
    var line := front + rest;
    NothingToTrimLeft(line);
    NothingToTrimLeft(front);
    BlanksTrimmed(size, blanks);
    if rest == [] {
      assert line == front;
      IndexOfByteNone(size, SEMICOLON);
    } else {
      assert line[|front|] == SEMICOLON && line[..|front|] == front;
      SemicolonKept(line, |front|);
    }
  }

  lemma SizeParses(size: Bytes, extension: Bytes, value: nat)
    requires IsSizeLine(size, extension, value)
    ensures size != [] && IsSolid(size[0]) && IsSolid(size[|size| - 1]) && SEMICOLON !in size
    ensures ParseInt(size, 16) == Some(value)
  {
    hide Value, IsExtension, Writes, Lower, Numeral;
    DigitsIff(size, 16, value);
    DigitsAreSolid(size);
  }

  /** The tracker reads the size a sender wrote, whatever extension follows it. */
  lemma ChunkSizeOfLine(size: Bytes, extension: Bytes, value: nat)
    requires IsSizeLine(size, extension, value)
    ensures ChunkSize(size + extension) == Some(value)
  {
    hide ParseInt, SizeText, Value, AllDigits, IsLine, IsSolid, Writes;
    SizeParses(size, extension, value);
    var n :| 0 <= n <= |extension| && IsBlank(extension[..n]) && (n == |extension| || extension[n] == SEMICOLON);
    SizeTextOfLine(size, extension[..n], extension[n..]);
    assert size + extension[..n] + extension[n..] == size + extension;
  }

  lemma LineGrows(text: Bytes, j: nat)
    requires IsLine(text) && j < |text|
    ensures !EndsWith(text[..j + 1], CRLF) && text[..j] + [text[j]] == text[..j + 1]
  {
    if j >= 1 {
      CrlfAt(text, j - 1);
      assert text[..j + 1][j - 1..] == [text[j - 1], text[j]];
    }
  }

  /** A size line is collected as long as it has no end and keeps within the limit. */
  lemma {:induction false} ConsumeOpenLine(t: Tracker, text: Bytes, j: nat, rest: Bytes)
    requires t.phase.ReadingSize? && j <= |text| <= 0x10_0000 && IsLine(text) && t.line == text[..j]
    ensures Consume(t, text[j..] + rest) == Later(|text| - j, Consume(t.(line := text), rest))
    decreases |text| - j
  {
    hide IsLine, ChunkSize, EndsWith;
    if j == |text| {
      assert text[j..] + rest == rest && text[..j] == text;
    } else {
      var input := text[j..] + rest;
      LineGrows(text, j);
      assert input[0] == text[j] && input[1..] == text[j + 1..] + rest;
      ConsumeOpenLine(t.(line := text[..j + 1]), text, j + 1, rest);
    }
  }

  /** A size line that says no size is refused at its end. */
  lemma BadSizeIsRefused(text: Bytes, rest: Bytes)
    requires IsLine(text + [CR]) && |text| + 2 <= 0x10_0000
    requires forall v: nat | v < 0x8000_0000_0000_0000 :: !SaysSize(text, v)
    ensures var r := Consume(NEW_TRACKER, text + CRLF + rest); r.outcome.Malformed? && r.count == |text| + 2
  {
    hide IsLine, ChunkSize, SaysSize;
    var open := text + [CR];
    assert open[0..] == open && open[..0] == [];
    ConsumeOpenLine(NEW_TRACKER, open, 0, [LF] + rest);
    assert text + CRLF + rest == open + ([LF] + rest);
    var line := open + [LF];
    assert EndsWith(line, CRLF) && line[..|line| - 2] == text;
    if ChunkSize(text).Some? {
      ChunkSizeIff(text, ChunkSize(text).value);
    }
    assert ([LF] + rest)[0] == LF;
  }

  /** A size line over the limit is refused at the first byte that is too many. */
  lemma LongSizeIsRefused(text: Bytes, b: byte, rest: Bytes)
    requires IsLine(text) && |text| == 0x10_0000
    ensures var r := Consume(NEW_TRACKER, text + [b] + rest); r.outcome.Malformed? && r.count == 0x10_0001
  {
    hide IsLine, ChunkSize;
    assert text[0..] == text && text[..0] == [];
    ConsumeOpenLine(NEW_TRACKER, text, 0, [b] + rest);
    assert text + [b] + rest == text + ([b] + rest);
    assert ([b] + rest)[0] == b;
  }

  ghost predicate OpenTrailers(text: Bytes) {
    forall k | 0 < k <= |text| :: text[..k] != CRLF && !EndsWith(text[..k], CRLFCRLF)
  }

  lemma {:induction false} ConsumeOpenTrailers(t: Tracker, text: Bytes, j: nat, rest: Bytes)
    requires t.phase.ReadingTrailers? && j <= |text| <= 0x10_0000 && OpenTrailers(text) && t.trailers == text[..j]
    ensures Consume(t, text[j..] + rest) == Later(|text| - j, Consume(t.(trailers := text), rest))
    decreases |text| - j
  {
    hide EndsWith;
    if j == |text| {
      assert text[j..] + rest == rest && text[..j] == text;
    } else {
      var input := text[j..] + rest;
      assert text[..j] + [text[j]] == text[..j + 1];
      assert input[0] == text[j] && input[1..] == text[j + 1..] + rest;
      ConsumeOpenTrailers(t.(trailers := text[..j + 1]), text, j + 1, rest);
    }
  }

  /** Trailers over the limit are refused at the first byte that is too many. */
  lemma LongTrailersAreRefused(t: Tracker, text: Bytes, b: byte, rest: Bytes)
    requires t.phase.ReadingTrailers? && t.trailers == [] && OpenTrailers(text) && |text| == 0x10_0000
    ensures var r := Consume(t, text + [b] + rest); r.outcome.Malformed? && r.count == 0x10_0001
  {
    hide OpenTrailers;
    assert text[0..] == text && text[..0] == [];
    ConsumeOpenTrailers(t, text, 0, [b] + rest);
    assert text + [b] + rest == text + ([b] + rest);
    assert ([b] + rest)[0] == b;
  }

  /** What a chunk-size line says: a number up to a semicolon, white space around it aside. */
  ghost predicate SaysSize(line: Bytes, v: int) {
    exists text, front, size: Bytes ::
      && IsCore(line, text)
      && Ascii(";")[0] !in front && (front == text || exists rest :: text == front + Ascii(";") + rest)
      && IsCore(front, size) && WritesInt(size, 16, v)
  }

  lemma SizeTextIff(line: Bytes, size: Bytes)
    ensures SizeText(line) == size <==>
            exists text, front: Bytes ::
              && IsCore(line, text)
              && Ascii(";")[0] !in front && (front == text || exists rest :: text == front + Ascii(";") + rest)
              && IsCore(front, size)
  {
    hide TrimSpace, IsCore, IndexOfByte;
    assert Ascii(";") == [SEMICOLON];
    var t := TrimSpace(line);
    TrimSpaceIff(line, t);
    var f := Front(t);
    TrimSpaceIff(f, TrimSpace(f));
    FrontIff(t, f);
    SizeTextIs(line);
    forall text, front: Bytes, s: Bytes | IsCore(line, text) && IsCore(front, s)
      && Ascii(";")[0] !in front && (front == text || exists rest :: text == front + Ascii(";") + rest)
      ensures s == SizeText(line)
    {
      TrimSpaceIff(line, text);
      FrontIff(t, front);
      TrimSpaceIff(front, s);
    }
  }

  function Front(text: Bytes): Bytes {
    var i := IndexOfByte(text, SEMICOLON);
    if i >= 0 then text[..i] else text
  }

  lemma FrontIff(text: Bytes, front: Bytes)
    ensures front == Front(text) <==>
            SEMICOLON !in front && (front == text || exists rest :: text == front + [SEMICOLON] + rest)
  {
    var i := IndexOfByte(text, SEMICOLON);
    if i >= 0 {
      assert text == text[..i] + [SEMICOLON] + text[i + 1..];
    }
    if rest :| text == front + [SEMICOLON] + rest {
      if SEMICOLON !in front {
        assert text[|front|] == SEMICOLON && text[..|front|] == front;
        IndexOfByteIs(text, SEMICOLON, |front|);
      }
    }
  }

  lemma {:induction false} CoreOfCore(s: Bytes)
    ensures TrimSpace(TrimSpace(s)) == TrimSpace(s)
  {
    hide TrimSpace, Blank, StartsBlank, EndsBlank;
    var t := TrimSpace(s);
    TrimSpaceIff(s, t);
    NothingIsBlank();
    assert t == [] + t + [];
    TrimSpaceIff(t, t);
  }

  lemma SizeTextIs(line: Bytes)
    ensures SizeText(line) == TrimSpace(Front(TrimSpace(line)))
  {
    hide TrimSpace, IndexOfByte;
    CoreOfCore(line);
  }

  /** The size the tracker takes from a line is the non-negative 64-bit number the line says. */
  lemma ChunkSizeIff(line: Bytes, v: nat)
    ensures ChunkSize(line) == Some(v) <==> SaysSize(line, v) && v < 0x8000_0000_0000_0000
  {
    hide SizeText, ParseInt, IsCore, WritesInt;
    ParseIntIff(SizeText(line), 16, v);
    SizeTextIff(line, SizeText(line));
    if SaysSize(line, v) {
      var text, front, size: Bytes :|
        && IsCore(line, text)
        && Ascii(";")[0] !in front && (front == text || exists rest :: text == front + Ascii(";") + rest)
        && IsCore(front, size) && WritesInt(size, 16, v);
      SizeTextIff(line, size);
    }
  }

  lemma SemicolonKept(line: Bytes, at: nat)
    requires at < |line| && line[at] == SEMICOLON && SEMICOLON !in line[..at]
    ensures IndexOfByte(TrimRight(line), SEMICOLON) == at && TrimRight(line)[..at] == line[..at]
  {
    var text := TrimRight(line);
    assert |text| > at;
    assert text[..at] == line[..at];
    IndexOfByteIs(text, SEMICOLON, at);
  }

  lemma IndexOfByteNone(s: Bytes, b: byte)
    requires b !in s
    ensures IndexOfByte(s, b) == -1
  {
  }

  ghost predicate AtSize(t: Tracker) {
    t.phase.ReadingSize? && t.line == [] && t.trailers == []
  }

  /** A size line, read from position j of it to its end. */
  lemma {:induction false} ConsumeSizeLine(t: Tracker, size: Bytes, extension: Bytes, value: nat, j: nat, rest: Bytes)
    requires IsSizeLine(size, extension, value)
    requires t.Valid() && t.phase.ReadingSize? && j < |SizeLine(size, extension)|
    requires t.line == SizeLine(size, extension)[..j]
    ensures var whole := SizeLine(size, extension);
            var after := if value == 0 then t.(line := [], phase := ReadingTrailers)
                         else t.(line := [], dataRemaining := value, phase := ReadingData);
            after.Valid() && Consume(t, whole[j..] + rest) == Later(|whole| - j, Consume(after, rest))
    decreases |SizeLine(size, extension)| - j
  {
    hide ChunkSize, IsSizeLine;
    SizeLineFits(size, extension, value);
    var whole := SizeLine(size, extension);
    var text := size + extension;
    var input := whole[j..] + rest;
    var line := t.line + [input[0]];
    assert line == whole[..j + 1];
    SizeLineIsLine(size, extension, value);
    assert input[1..] == whole[j + 1..] + rest;
    if j + 1 == |whole| {
      assert line == whole;
      assert EndsWith(line, CRLF);
      assert line[..|line| - 2] == text;
      ChunkSizeOfLine(size, extension, value);
      assert whole[j + 1..] + rest == rest;
    } else {
      if j >= 1 {
        CrlfAfterLine(text, [], j - 1);
        assert text + CRLF + [] == whole;
        assert line[j - 1..] == whole[j - 1..j + 1];
        assert !At(whole, CRLF, j - 1);
      }
      assert !EndsWith(line, CRLF);
      ConsumeSizeLine(t.(line := line), size, extension, value, j + 1, rest);
    }
  }

  lemma SizeLineFits(size: Bytes, extension: Bytes, value: nat)
    requires IsSizeLine(size, extension, value)
    ensures |SizeLine(size, extension)| <= MAX_BUFFERED
  {
  }

  lemma SizeLineIsLine(size: Bytes, extension: Bytes, value: nat)
    requires IsSizeLine(size, extension, value)
    ensures IsLine(size + extension)
  {
    var text := size + extension;
    DigitsIff(size, 16, value);
    DigitsAreSolid(size);
    forall i ensures !At(text, CRLF, i) {
      if 0 <= i <= |text| - 2 {
        if i < |size| {
          assert text[i..i + 2][0] == text[i] == size[i];
        } else {
          assert !At(extension, CRLF, i - |size|);
          assert text[i..i + 2] == extension[i - |size|..i - |size| + 2];
        }
      }
    }
  }

  lemma ConsumeChunk(t: Tracker, c: Chunk, tail: Bytes)
    requires t.Valid() && AtSize(t) && c.data != [] && IsSizeLine(c.size, c.extension, |c.data|)
    ensures var after := t.(dataRemaining := 0, crlfPosition := 2);
            var wire := SizeLine(c.size, c.extension) + c.data + CRLF;
            AtSize(after) && Consume(t, wire + tail) == Later(|wire|, Consume(after, tail))
  {
    hide Consume, IsSizeLine;
    SizeLineFits(c.size, c.extension, |c.data|);
    var line := SizeLine(c.size, c.extension);
    assert line + c.data + CRLF + tail == line[0..] + (c.data + CRLF + tail);
    ConsumeSizeLine(t, c.size, c.extension, |c.data|, 0, c.data + CRLF + tail);
    var inData := t.(line := [], dataRemaining := |c.data|, phase := ReadingData);
    ConsumeData(inData, c.data + CRLF + tail, |c.data|);
    assert (c.data + CRLF + tail)[|c.data|..] == CRLF + tail;
    ConsumeCrlf(inData.(dataRemaining := 0, crlfPosition := 0, phase := ReadingDataCRLF), tail);
  }

  lemma {:induction false} ConsumeChunks(t: Tracker, chunks: seq<Chunk>, rest: Bytes) returns (after: Tracker)
    requires t.Valid() && AtSize(t)
    requires forall c | c in chunks :: c.data != [] && IsSizeLine(c.size, c.extension, |c.data|)
    ensures after.Valid() && AtSize(after)
    ensures Consume(t, EncodeChunks(chunks) + rest) == Later(|EncodeChunks(chunks)|, Consume(after, rest))
    decreases chunks
  {
    after := t;
    if chunks == [] {
      assert EncodeChunks(chunks) + rest == rest;
    } else {
      var wire := SizeLine(chunks[0].size, chunks[0].extension) + chunks[0].data + CRLF;
      assert EncodeChunks(chunks) + rest == wire + (EncodeChunks(chunks[1..]) + rest);
      ConsumeChunk(t, chunks[0], EncodeChunks(chunks[1..]) + rest);
      after := ConsumeChunks(t.(dataRemaining := 0, crlfPosition := 2), chunks[1..], rest);
    }
  }

  lemma ConsumeCrlf(t: Tracker, rest: Bytes)
    requires t.phase.ReadingDataCRLF? && t.crlfPosition == 0
    ensures Consume(t, CRLF + rest) == Later(2, Consume(t.(crlfPosition := 2, phase := ReadingSize), rest))
  {
    assert (CRLF + rest)[1..] == [LF] + rest;
    assert ([LF] + rest)[1..] == rest;
  }

  /** A trailer section, read from position j of it to its end. */
  lemma {:induction false} ConsumeTrailers(t: Tracker, trailers: seq<Bytes>, j: nat, rest: Bytes)
    requires AreLines(trailers) && (forall l | l in trailers :: l != []) && |Block(trailers)| <= MAX_BUFFERED
    requires t.phase.ReadingTrailers? && j < |Block(trailers)| && t.trailers == Block(trailers)[..j]
    ensures var r := Consume(t, Block(trailers)[j..] + rest);
            r.outcome.Completed? && r.count == |Block(trailers)| - j
    decreases |Block(trailers)| - j
  {
    var whole := Block(trailers);
    var input := whole[j..] + rest;
    var seen := t.trailers + [input[0]];
    assert seen == whole[..j + 1];
    TrailersEnd(trailers, j + 1);
    if j + 1 == |whole| {
      assert seen == whole;
    } else {
      assert input[1..] == whole[j + 1..] + rest;
      ConsumeTrailers(t.(trailers := seen), trailers, j + 1, rest);
    }
  }

  lemma TrailersEnd(trailers: seq<Bytes>, k: nat)
    requires AreLines(trailers) && (forall l | l in trailers :: l != [])
    requires 0 < k <= |Block(trailers)|
    ensures var seen := Block(trailers)[..k];
            (seen == CRLF || EndsWith(seen, CRLFCRLF)) <==> k == |Block(trailers)|
  {
    var whole := Block(trailers);
    var seen := whole[..k];
    if trailers == [] {
      assert whole == CRLF;
    } else {
      assert forall j | 0 <= j < |trailers| :: trailers[j] in trailers;
      TerminatorIffNoBlankLine(trailers);
      BlockEnds(trailers);
      assert whole == trailers[0] + CRLF + Block(trailers[1..]);
      CrlfAfterLine(trailers[0], Block(trailers[1..]), 0);
      assert !At(whole, CRLF, 0);
      assert k == 2 ==> seen == whole[0..2];
      if k >= 4 {
        var i := k - 4;
        assert seen[i..] == whole[i..i + 4];
        assert At(whole, CRLFCRLF, i) <==> whole[i..i + 4] == CRLFCRLF;
      }
    }
  }

  lemma NonEmptyParts(body: Body)
    ensures |SizeLine(body.lastSize, body.lastExtension)| > 0 && |Block(body.trailers)| > 0
  {
  }

  /**
   * RFC 9112, section 7.1: whatever follows it, an encoded body is taken exactly to its end and
   * completes there, and no strict prefix completes or is rejected.
   */
  lemma EncodingIsTakenExactly(body: Body, rest: Bytes)
    requires IsBody(body)
    ensures Consume(NEW_TRACKER, Encode(body) + rest).count == |Encode(body)|
    ensures Consume(NEW_TRACKER, Encode(body) + rest).outcome.Completed?
    ensures forall k: nat | k < |Encode(body)| :: Consume(NEW_TRACKER, Encode(body)[..k]).outcome.More?
  {
    hide Consume, EncodeChunks, SizeLine, Block, IsSizeLine;
    var last := SizeLine(body.lastSize, body.lastExtension);
    var trailers := Block(body.trailers);
    assert |last| > 0 && |trailers| > 0 by {
      NonEmptyParts(body);
    }
    forall more ensures Consume(NEW_TRACKER, Encode(body) + more).count == |Encode(body)|
                     && Consume(NEW_TRACKER, Encode(body) + more).outcome.Completed?
    {
      assert Encode(body) + more == EncodeChunks(body.chunks) + (last + (trailers + more));
      var t := ConsumeChunks(NEW_TRACKER, body.chunks, last + (trailers + more));
      assert last[0..] == last && trailers[0..] == trailers;
      ConsumeSizeLine(t, body.lastSize, body.lastExtension, 0, 0, trailers + more);
      ConsumeTrailers(t.(line := [], phase := ReadingTrailers), body.trailers, 0, more);
    }
    assert Encode(body) + [] == Encode(body);
    forall k: nat | k < |Encode(body)| ensures Consume(NEW_TRACKER, Encode(body)[..k]).outcome.More? {
      NoPrefixEnds(NEW_TRACKER, Encode(body), k);
    }
  }
}
