/**
 * The Redis serialization protocol as both ends speak it: internal/home/certificate.go and
 * internal/api/redis_queue_protocol.go.
 */
module Resp {
  import opened ByteStrings
  import opened TextLaws

  const STAR: byte := 42
  const DOLLAR: byte := 36
  const PLUS: byte := 43
  const MINUS: byte := 45
  const COLON_BYTE: byte := 58

  // ---- numbers ------------------------------------------------------------------------------------------

  /** strconv.Itoa */
  function Itoa(n: int): Bytes {
    if n < 0 then [MINUS] + Numeral(-n, 10) else Numeral(n, 10)
  }

  /** Every int survives the trip through its decimal text. */
  lemma AtoiOfItoa(n: int)
    requires -MAX_INT64 - 1 <= n <= MAX_INT64
    ensures ParseInt(Itoa(n), 10) == Some(n)
  {
    hide Numeral, Writes, ParseInt;
    var m := if n < 0 then -n else n;
    NumeralIsWritten(m);
    if n < 0 {
      assert Itoa(n)[1..] == Numeral(m, 10);
      assert Ascii("-") <= Itoa(n);
    }
    ParseIntIff(Itoa(n), 10, n);
  }

  lemma ItoaIsPlain(n: int)
    ensures LF !in Itoa(n) && CR !in Itoa(n) && Itoa(n) != []
    ensures forall i | 0 <= i < |Itoa(n)| :: 33 <= Itoa(n)[i] <= 57
  {
    hide Numeral;
    DecimalBytes(if n < 0 then -n else n);
  }

  // ---- writing ------------------------------------------------------------------------------------------

  /** A bulk string; None is the nil one. */
  function Bulk(payload: Option<Bytes>): Bytes {
    match payload
    case None => [DOLLAR, MINUS, 49, CR, LF]
    case Some(bytes) => [DOLLAR] + Itoa(|bytes|) + CRLF + bytes + CRLF
  }

  function Bulks(items: seq<Option<Bytes>>): Bytes {
    if items == [] then [] else Bulk(items[0]) + Bulks(items[1..])
  }

  function Array(items: seq<Option<Bytes>>): Bytes {
    [STAR] + Itoa(|items|) + CRLF + Bulks(items)
  }

  function Present(args: seq<Bytes>): seq<Option<Bytes>> {
    seq(|args|, i requires 0 <= i < |args| => Some(args[i]))
  }

  /** What encodeRESPArray makes of a command. */
  function Command(args: seq<Bytes>): Bytes {
    Array(Present(args))
  }

  // ---- reading ------------------------------------------------------------------------------------------

  /**
   * The largest number of bytes the run-time system allocates at once. Asking for more, or for a size
   * that does not fit an int, panics.
   */
  type Room = n: nat | n <= MAX_INT64

  /** The size of a string in a slice: a pointer and a length. */
  const STRING_SIZE: nat := 16

  /** Eof: the input ends first. TooLong stands for the panic of an allocation that is too large. */
  datatype Error = Eof | Protocol | TooLong | Nil | Refused(message: Bytes)

  datatype Outcome<T> = Done(value: T, rest: Bytes) | Failed(error: Error)

  /** readRESPLine */
  function ReadLine(s: Bytes): Outcome<Bytes> {
    var i := IndexOfByte(s, LF);
    if i < 0 then Failed(Eof)
    else if i > 0 && s[i - 1] == CR then Done(s[..i - 1], s[i + 1..])
    else Done(s[..i], s[i + 1..])
  }

  /** readRESPBulkString: a nil bulk string reads as the empty one. */
  function ReadBulk(room: Room, s: Bytes): Outcome<Bytes> {
    match ReadLine(s)
    case Failed(e) => Failed(e)
    case Done(line, rest) =>
      match ParseInt(line, 10)
      case None => Failed(Protocol)
      case Some(length) =>
        if length < 0 then Done([], rest)
        else if length + 2 > room then Failed(TooLong)
        else if |rest| < length + 2 then Failed(Eof)
        else if rest[length] != CR || rest[length + 1] != LF then Failed(Protocol)
        else Done(rest[..length], rest[length + 2..])
  }

  /** readRESPString */
  function ReadString(room: Room, s: Bytes): Outcome<Bytes> {
    if s == [] then Failed(Eof)
    else if s[0] == DOLLAR then ReadBulk(room, s[1..])
    else if s[0] == PLUS || s[0] == COLON_BYTE then ReadLine(s[1..])
    else Failed(Protocol)
  }

  /** The loop of readRESPArray. */
  function ReadStrings(room: Room, s: Bytes, count: nat): Outcome<seq<Bytes>>
    decreases count
  {
    if count == 0 then Done([], s)
    else
      match ReadString(room, s)
      case Failed(e) => Failed(e)
      case Done(first, rest) =>
        match ReadStrings(room, rest, count - 1)
        case Failed(e) => Failed(e)
        case Done(others, last) => Done([first] + others, last)
  }

  /** readRESPArray */
  function ReadArray(room: Room, s: Bytes): Outcome<seq<Bytes>> {
    if s == [] then Failed(Eof)
    else if s[0] != STAR then Failed(Protocol)
    else
      match ReadLine(s[1..])
      case Failed(e) => Failed(e)
      case Done(line, rest) =>
        match ParseInt(line, 10)
        case None => Failed(Protocol)
        case Some(count) =>
          if count < 0 then Failed(Protocol)
          else if count * STRING_SIZE > room then Failed(TooLong)
          else ReadStrings(room, rest, count)
  }

  /** readRESPBulk of the certificate client: the reply to one request. */
  function ReadReply(room: Room, s: Bytes): Outcome<Bytes> {
    if s == [] then Failed(Eof)
    else if s[0] != DOLLAR && s[0] != MINUS then Failed(Protocol)
    else
      var i := IndexOfByte(s[1..], LF);
      if i < 0 then Failed(Eof)
      else
        var line, rest := TrimSpace(s[1..i + 2]), s[i + 2..];
        if s[0] == MINUS then Failed(Refused(line))
        else
          match ParseInt(line, 10)
          case None => Failed(Protocol)
          case Some(size) =>
            if size < 0 then Failed(Nil)
            else if size + 2 > room then Failed(TooLong)
            else if |rest| < size + 2 then Failed(Eof)
            else Done(rest[..size], rest[size + 2..])
  }

  // ---- round trips --------------------------------------------------------------------------------------

  lemma LineRead(line: Bytes, rest: Bytes)
    requires LF !in line
    ensures ReadLine(line + CRLF + rest) == Done(line, rest)
  {
    var s := line + CRLF + rest;
    assert s[|line|] == CR && s[|line| + 1] == LF;
    assert s[..|line| + 1] == line + [CR];
    IndexOfByteIs(s, LF, |line| + 1);
    assert s[..|line|] == line && s[|line| + 2..] == rest;
  }

  /** A simple string comes back exactly when it holds no line feed. */
  lemma SimpleStringRoundTrip(room: Room, value: Bytes, rest: Bytes)
    ensures ReadString(room, [PLUS] + value + CRLF + rest) == Done(value, rest) <==> LF !in value
  {
    var s := [PLUS] + value + CRLF + rest;
    assert s[1..] == value + CRLF + rest;
    if LF !in value {
      LineRead(value, rest);
    } else {
      var i := IndexOfByte(value, LF);
      var t := value + CRLF + rest;
      assert t[i] == LF && t[..i] == value[..i];
      IndexOfByteIs(t, LF, i);
    }
  }

  function OrEmpty(item: Option<Bytes>): Bytes {
    match item
    case None => []
    case Some(bytes) => bytes
  }

  /** There is room for the payload and the line end after it. */
  predicate Sized(room: Room, item: Option<Bytes>) {
    item.Some? ==> |item.value| + 2 <= room
  }

  /** A slice as the language has them: its length is an int. */
  ghost predicate IsPayload(item: Option<Bytes>) {
    |OrEmpty(item)| <= MAX_INT64
  }

  lemma BulkRead(room: Room, item: Option<Bytes>, rest: Bytes)
    requires IsPayload(item)
    ensures ReadString(room, Bulk(item) + rest)
         == if Sized(room, item) then Done(OrEmpty(item), rest) else Failed(TooLong)
  {
    match item
    case None =>
      var minusOne: Bytes := [MINUS, 49];
      assert Itoa(-1) == minusOne;
      AtoiOfItoa(-1);
      assert (Bulk(item) + rest)[1..] == minusOne + CRLF + rest;
      LineRead(minusOne, rest);
    case Some(bytes) => PayloadRead(room, bytes, rest);
  }

  lemma PayloadRead(room: Room, bytes: Bytes, rest: Bytes)
    requires |bytes| <= MAX_INT64
    ensures ReadString(room, Bulk(Some(bytes)) + rest)
         == if |bytes| + 2 <= room then Done(bytes, rest) else Failed(TooLong)
  {
    hide Itoa, ParseInt, IndexOfByte, ReadLine;
    var size := Itoa(|bytes|);
    ItoaIsPlain(|bytes|);
    AtoiOfItoa(|bytes|);
    var after := bytes + CRLF + rest;
    assert (Bulk(Some(bytes)) + rest)[1..] == size + CRLF + after;
    LineRead(size, after);
    PayloadTaken(bytes, rest);
  }

  lemma PayloadTaken(bytes: Bytes, rest: Bytes)
    ensures var after := bytes + CRLF + rest;
            && after[|bytes|] == CR && after[|bytes| + 1] == LF
            && after[..|bytes|] == bytes && after[|bytes| + 2..] == rest
  {
  }

  /** The arguments of an array as they come back. */
  function Received(items: seq<Option<Bytes>>): seq<Bytes> {
    seq(|items|, i requires 0 <= i < |items| => OrEmpty(items[i]))
  }

  predicate AllSized(room: Room, items: seq<Option<Bytes>>) {
    forall i | 0 <= i < |items| :: Sized(room, items[i])
  }

  ghost predicate ArePayloads(items: seq<Option<Bytes>>) {
    |items| <= MAX_INT64 && forall i | 0 <= i < |items| :: IsPayload(items[i])
  }

  lemma AllSizedUnfolds(room: Room, items: seq<Option<Bytes>>)
    requires items != []
    ensures AllSized(room, items) <==> Sized(room, items[0]) && AllSized(room, items[1..])
  {
    hide Sized;
    forall i | 0 < i < |items| ensures items[i] == items[1..][i - 1] {
    }
  }

  lemma {:induction false} BulksRead(room: Room, items: seq<Option<Bytes>>, rest: Bytes)
    requires ArePayloads(items)
    ensures ReadStrings(room, Bulks(items) + rest, |items|)
         == if AllSized(room, items) then Done(Received(items), rest) else Failed(TooLong)
    decreases |items|
  {
    hide Bulk, ReadString, AllSized, Sized;
    if items == [] {
      assert Bulks(items) + rest == rest;
      NoneToSize(room);
      assert Received(items) == [];
    } else {
      AllSizedUnfolds(room, items);
      var after := Bulks(items[1..]) + rest;
      assert Bulks(items) + rest == Bulk(items[0]) + after;
      BulkRead(room, items[0], after);
      BulksRead(room, items[1..], rest);
      assert Received(items) == [OrEmpty(items[0])] + Received(items[1..]);
    }
  }

  lemma NoneToSize(room: Room)
    ensures AllSized(room, [])
  {
  }

  /** The reader can make the slice of arguments, and each argument. */
  predicate Fits(room: Room, items: seq<Option<Bytes>>) {
    |items| * STRING_SIZE <= room && AllSized(room, items)
  }

  /**
   * An array of bulk strings comes back argument for argument, and what follows it is left unread,
   * exactly when every allocation for it is possible.
   */
  lemma ArrayRoundTrip(room: Room, items: seq<Option<Bytes>>, rest: Bytes)
    requires ArePayloads(items)
    ensures ReadArray(room, Array(items) + rest)
         == if Fits(room, items) then Done(Received(items), rest) else Failed(TooLong)
  {
    hide Itoa, ParseInt, Bulks, ReadLine, ReadStrings, AllSized, ArePayloads;
    var size, after := Itoa(|items|), Bulks(items) + rest;
    assert |items| <= MAX_INT64 by {
      CountIsInt(items);
    }
    ItoaIsPlain(|items|);
    AtoiOfItoa(|items|);
    assert (Array(items) + rest)[1..] == size + CRLF + after;
    LineRead(size, after);
    BulksRead(room, items, rest);
  }

  lemma CountIsInt(items: seq<Option<Bytes>>)
    requires ArePayloads(items)
    ensures |items| <= MAX_INT64
  {
  }

  // ---- streams of commands ------------------------------------------------------------------------------

  type Args = seq<Bytes>

  /** The reader can make the slice of arguments, and each argument with the line end after it. */
  predicate Receivable(room: Room, args: Args) {
    |args| * STRING_SIZE <= room && forall i | 0 <= i < |args| :: |args[i]| + 2 <= room
  }

  /** Slices as the language has them: their lengths are ints. */
  ghost predicate IsCommand(args: Args) {
    |args| <= MAX_INT64 && forall i | 0 <= i < |args| :: |args[i]| <= MAX_INT64
  }

  function Stream(commands: seq<Args>): Bytes {
    if commands == [] then [] else Command(commands[0]) + Stream(commands[1..])
  }

  /** Reading n commands, one after another. */
  function ReadCommands(room: Room, s: Bytes, n: nat): Outcome<seq<Args>>
    decreases n
  {
    if n == 0 then Done([], s)
    else
      match ReadArray(room, s)
      case Failed(e) => Failed(e)
      case Done(first, rest) =>
        match ReadCommands(room, rest, n - 1)
        case Failed(e) => Failed(e)
        case Done(others, last) => Done([first] + others, last)
  }

  lemma CommandRoundTrip(room: Room, args: Args, rest: Bytes)
    requires IsCommand(args)
    ensures ReadArray(room, Command(args) + rest)
         == if Receivable(room, args) then Done(args, rest) else Failed(TooLong)
  {
    hide Array, ReadArray;
    ArrayRoundTrip(room, Present(args), rest);
    assert Received(Present(args)) == args;
    forall i | 0 <= i < |args| ensures Sized(room, Present(args)[i]) <==> |args[i]| + 2 <= room {
    }
  }

  predicate AllReceivable(room: Room, commands: seq<Args>) {
    forall i | 0 <= i < |commands| :: Receivable(room, commands[i])
  }

  lemma AllReceivableUnfolds(room: Room, commands: seq<Args>)
    ensures commands == [] ==> AllReceivable(room, commands)
    ensures commands != [] ==>
              (AllReceivable(room, commands) <==> Receivable(room, commands[0]) && AllReceivable(room, commands[1..]))
  {
    hide Receivable;
    forall i | 0 < i < |commands| ensures commands[i] == commands[1..][i - 1] {
    }
  }

  /**
   * Commands written back to back, with any bytes in their arguments, are read back as they were exactly
   * when every allocation for them is possible.
   */
  lemma {:induction false} StreamRoundTrip(room: Room, commands: seq<Args>, rest: Bytes)
    requires forall i | 0 <= i < |commands| :: IsCommand(commands[i])
    ensures ReadCommands(room, Stream(commands) + rest, |commands|)
         == if AllReceivable(room, commands) then Done(commands, rest) else Failed(TooLong)
    decreases |commands|
  {
    hide Command, ReadArray, AllReceivable, Receivable;
    AllReceivableUnfolds(room, commands);
    if commands == [] {
      assert Stream(commands) + rest == rest;
    } else {
      var after := Stream(commands[1..]) + rest;
      assert Stream(commands) + rest == Command(commands[0]) + after;
      CommandRoundTrip(room, commands[0], after);
      StreamRoundTrip(room, commands[1..], rest);
      assert commands == [commands[0]] + commands[1..];
    }
  }

  // ---- what is refused ----------------------------------------------------------------------------------

  /** A line ends at its line feed, and a carriage return before that is not part of it. */
  lemma BareLine(line: Bytes, rest: Bytes)
    requires LF !in line && (line == [] || line[|line| - 1] != CR)
    ensures ReadLine(line + [LF] + rest) == Done(line, rest)
  {
    var s := line + [LF] + rest;
    assert s[|line|] == LF && s[..|line|] == line;
    IndexOfByteIs(s, LF, |line|);
    assert s[|line| + 1..] == rest;
  }

  /** What each reader refuses by its first byte. */
  lemma UnknownPrefix(room: Room, s: Bytes)
    requires s != []
    ensures s[0] !in Ascii("$+:") ==> ReadString(room, s) == Failed(Protocol)
    ensures s[0] !in Ascii("*") ==> ReadArray(room, s) == Failed(Protocol)
    ensures s[0] !in Ascii("$-") ==> ReadReply(room, s) == Failed(Protocol)
  {
    assert Ascii("$+:") == [DOLLAR, PLUS, COLON_BYTE] && Ascii("*") == [STAR] && Ascii("$-") == [DOLLAR, MINUS];
  }

  /** An integer reads like a simple string. */
  lemma IntegerRead(room: Room, n: int, rest: Bytes)
    ensures ReadString(room, Ascii(":") + Itoa(n) + CRLF + rest) == Done(Itoa(n), rest)
  {
    hide Itoa, ReadLine;
    ItoaIsPlain(n);
    assert Ascii(":") == [COLON_BYTE];
    assert (Ascii(":") + Itoa(n) + CRLF + rest)[1..] == Itoa(n) + CRLF + rest;
    LineRead(Itoa(n), rest);
  }

  /** A length or a count that is no 64-bit number. */
  ghost predicate NoNumber(line: Bytes) {
    forall v: int | -0x8000_0000_0000_0000 <= v < 0x8000_0000_0000_0000 :: !WritesInt(line, 10, v)
  }

  lemma NoNumberParsed(line: Bytes)
    requires NoNumber(line)
    ensures ParseInt(line, 10) == None
  {
    hide ParseInt, WritesInt;
    match ParseInt(line, 10)
    case Some(v) => ParseIntIff(line, 10, v);
    case None =>
  }

  /** Lengths and counts that are no numbers, and negative counts, are protocol errors; a negative length is nil. */
  lemma BadNumbers(room: Room, line: Bytes, rest: Bytes)
    requires LF !in line
    ensures NoNumber(line) ==> ReadString(room, Ascii("$") + line + CRLF + rest) == Failed(Protocol)
    ensures NoNumber(line) ==> ReadArray(room, Ascii("*") + line + CRLF + rest) == Failed(Protocol)
    ensures forall v: int | -0x8000_0000_0000_0000 <= v < 0 && WritesInt(line, 10, v) ::
              && ReadString(room, Ascii("$") + line + CRLF + rest) == Done([], rest)
              && ReadArray(room, Ascii("*") + line + CRLF + rest) == Failed(Protocol)
  {
    hide ParseInt, WritesInt, ReadLine, ReadStrings;
    assert Ascii("$") == [DOLLAR] && Ascii("*") == [STAR];
    assert (Ascii("$") + line + CRLF + rest)[1..] == line + CRLF + rest;
    assert (Ascii("*") + line + CRLF + rest)[1..] == line + CRLF + rest;
    LineRead(line, rest);
    if NoNumber(line) {
      NoNumberParsed(line);
    }
    forall v: int | -0x8000_0000_0000_0000 <= v < 0 && WritesInt(line, 10, v) ensures ParseInt(line, 10) == Some(v) {
      ParseIntIff(line, 10, v);
    }
  }

  /** A bulk string whose payload is not followed by a line end is a protocol error. */
  lemma BadBulkEnd(room: Room, bytes: Bytes, end: Bytes, rest: Bytes)
    requires |end| == 2 && end != CRLF && |bytes| + 2 <= room
    ensures ReadString(room, Ascii("$") + Itoa(|bytes|) + CRLF + bytes + end + rest) == Failed(Protocol)
  {
    hide Itoa, ParseInt, ReadLine;
    var s := Ascii("$") + Itoa(|bytes|) + CRLF + bytes + end + rest;
    var after := bytes + end + rest;
    assert Ascii("$") == [DOLLAR];
    assert s[1..] == Itoa(|bytes|) + CRLF + after;
    ItoaIsPlain(|bytes|);
    AtoiOfItoa(|bytes|);
    LineRead(Itoa(|bytes|), after);
    assert after[|bytes|] == end[0] && after[|bytes| + 1] == end[1];
    assert end == [end[0], end[1]];
  }

  /** An error reply is an error with its text, white space around it aside. */
  lemma RefusalRead(room: Room, text: Bytes, core: Bytes, rest: Bytes)
    requires LF !in text && IsCore(text + [LF], core)
    ensures ReadReply(room, Ascii("-") + text + [LF] + rest) == Failed(Refused(core))
  {
    hide TrimSpace, IsCore;
    var s := Ascii("-") + text + [LF] + rest;
    assert Ascii("-") == [MINUS];
    assert s[0] == MINUS && s[1..] == text + [LF] + rest;
    assert s[1..][|text|] == LF && s[1..][..|text|] == text;
    IndexOfByteIs(s[1..], LF, |text|);
    assert s[1..|text| + 2] == text + [LF];
    TrimSpaceIff(text + [LF], core);
  }

  // ---- cut input ----------------------------------------------------------------------------------------

  lemma NoLineYet(s: Bytes)
    requires LF !in s
    ensures ReadLine(s) == Failed(Eof)
  {
  }

  /** A bulk string cut anywhere is a wait for more input, never a value or a protocol error. */
  lemma CutBulk(room: Room, item: Option<Bytes>, k: nat)
    requires Sized(room, item) && k < |Bulk(item)|
    ensures ReadString(room, Bulk(item)[..k]) == Failed(Eof)
  {
    var cut := Bulk(item)[..k];
    if k > 0 {
      match item
      case None => NoLineYet(cut[1..]);
      case Some(bytes) => CutPayload(room, bytes, k);
    }
  }

  lemma CutPayload(room: Room, bytes: Bytes, k: nat)
    requires |bytes| + 2 <= room && 0 < k < |Bulk(Some(bytes))|
    ensures ReadString(room, Bulk(Some(bytes))[..k]) == Failed(Eof)
  {
    hide Itoa, ParseInt, ReadLine;
    var whole, size := Bulk(Some(bytes)), Itoa(|bytes|);
    var cut := whole[..k];
    var head := [DOLLAR] + size + CRLF;
    ItoaIsPlain(|bytes|);
    if k < |head| {
      assert cut == head[..k];
      assert forall i | 0 <= i < |head| - 1 :: head[i] != LF;
      NoLineYet(cut[1..]);
    } else {
      var left := (bytes + CRLF)[..k - |head|];
      assert whole == head + (bytes + CRLF);
      assert cut == head + left;
      assert cut[1..] == size + CRLF + left;
      AtoiOfItoa(|bytes|);
      LineRead(size, left);
    }
  }

  lemma {:induction false} CutBulks(room: Room, items: seq<Option<Bytes>>, k: nat)
    requires k < |Bulks(items)| && AllSized(room, items)
    ensures ReadStrings(room, Bulks(items)[..k], |items|) == Failed(Eof)
    decreases |items|
  {
    hide Bulk, ReadString;
    var first, others := Bulk(items[0]), Bulks(items[1..]);
    var cut := Bulks(items)[..k];
    if k < |first| {
      assert cut == first[..k];
      CutBulk(room, items[0], k);
    } else {
      assert cut == first + others[..k - |first|];
      BulkRead(room, items[0], others[..k - |first|]);
      CutBulks(room, items[1..], k - |first|);
    }
  }

  /** No strict prefix of a command reads as a command or as an error: the reader only waits. */
  lemma CutCommand(room: Room, items: seq<Option<Bytes>>, k: nat)
    requires Fits(room, items) && k < |Array(items)|
    ensures ReadArray(room, Array(items)[..k]) == Failed(Eof)
  {
    hide Itoa, ParseInt, ReadLine, Bulks, ReadStrings;
    if k > 0 {
      var size := Itoa(|items|);
      var head, cut := [STAR] + size + CRLF, Array(items)[..k];
      ItoaIsPlain(|items|);
      if k < |head| {
        assert cut == head[..k];
        assert forall i | 0 <= i < |head| - 1 :: head[i] != LF;
        NoLineYet(cut[1..]);
      } else {
        var left := Bulks(items)[..k - |head|];
        assert cut == head + left;
        assert cut[1..] == size + CRLF + left;
        AtoiOfItoa(|items|);
        LineRead(size, left);
        CutBulks(room, items, k - |head|);
      }
    }
  }

  // ---- replies ------------------------------------------------------------------------------------------

  lemma SpaceTrimmed(s: Bytes, b: byte)
    requires IsSpace1(b)
    ensures TrimRight(s + [b]) == TrimRight(s)
  {
    assert (s + [b])[..|s|] == s;
  }

  lemma NumberTrimmed(text: Bytes)
    requires text != [] && forall i | 0 <= i < |text| :: 33 <= text[i] <= 57
    ensures TrimSpace(text + CRLF) == text
  {
    hide TrimRight;
    assert SpaceAtStart(text + CRLF) == 0;
    assert text + CRLF == text + [CR] + [LF];
    SpaceTrimmed(text + [CR], LF);
    SpaceTrimmed(text, CR);
    SolidEnd(text);
  }

  lemma SolidEnd(text: Bytes)
    requires text != [] && 33 <= text[|text| - 1] <= 57
    ensures TrimRight(text) == text
  {
    assert SpaceAtEnd(text) == 0;
  }

  lemma ReplyLine(size: Bytes, after: Bytes)
    requires size != [] && LF !in size && forall i | 0 <= i < |size| :: 33 <= size[i] <= 57
    ensures var s := [DOLLAR] + size + CRLF + after;
            && IndexOfByte(s[1..], LF) == |size| + 1
            && TrimSpace(s[1..|size| + 3]) == size
            && s[|size| + 3..] == after
  {
    hide TrimSpace;
    var s := [DOLLAR] + size + CRLF + after;
    var t := s[1..];
    assert t[|size| + 1] == LF && t[..|size| + 1] == size + [CR];
    IndexOfByteIs(t, LF, |size| + 1);
    assert s[1..|size| + 3] == size + CRLF;
    NumberTrimmed(size);
  }

  lemma ReplySize(room: Room, n: int, after: Bytes)
    requires -1 <= n <= MAX_INT64
    ensures ReadReply(room, [DOLLAR] + Itoa(n) + CRLF + after) == if n < 0 then Failed(Nil)
            else if n + 2 > room then Failed(TooLong)
            else if |after| < n + 2 then Failed(Eof) else Done(after[..n], after[n + 2..])
  {
    hide Itoa, ParseInt, TrimSpace, IndexOfByte;
    ItoaIsPlain(n);
    AtoiOfItoa(n);
    ReplyLine(Itoa(n), after);
  }

  lemma BulkParts(item: Option<Bytes>, rest: Bytes)
    ensures item.None? ==> Bulk(item) + rest == [DOLLAR] + Itoa(-1) + CRLF + rest
    ensures item.Some? ==> Bulk(item) + rest == [DOLLAR] + Itoa(|item.value|) + CRLF + (item.value + CRLF + rest)
  {
    hide Itoa;
    MinusOne();
  }

  /** The certificate client reads the payload the server wrote, and takes a nil reply for an error. */
  lemma ReplyRoundTrip(room: Room, item: Option<Bytes>, rest: Bytes)
    requires IsPayload(item)
    ensures item.Some? ==>
              ReadReply(room, Bulk(item) + rest)
              == if Sized(room, item) then Done(item.value, rest) else Failed(TooLong)
    ensures item.None? ==> ReadReply(room, Bulk(item) + rest) == Failed(Nil)
  {
    hide Itoa, ReadReply, Bulk;
    BulkParts(item, rest);
    match item
    case None => ReplySize(room, -1, rest);
    case Some(bytes) =>
      ReplySize(room, |bytes|, bytes + CRLF + rest);
      PayloadTaken(bytes, rest);
  }

  lemma MinusOne()
    ensures Itoa(-1) == [MINUS, 49]
  {
  }

  // ---- the reader and the writer ------------------------------------------------------------------------

  lemma LineOf(s: Bytes)
    ensures var i := IndexOfByte(s, LF);
            && (i >= 0 ==> s[..i + 1][..i] == s[..i])
            && (i > 0 ==> s[..i][i - 1] == s[i - 1] && s[..i][..i - 1] == s[..i - 1])
  {
  }

  /** The input a reader has not taken yet. */
  class Reader {
    const room: Room
    var unread: Bytes

    constructor (input: Bytes, room: Room)
      ensures unread == input && this.room == room
    {
      unread, this.room := input, room;
    }

    /** What an operation left behind, against what it should have read. */
    ghost predicate Left<T>(was: Bytes, expected: Outcome<T>, result: Outcome<T>)
      reads this
    {
      && (expected.Done? ==> result == expected && unread == expected.rest)
      && (expected.Failed? ==> result == expected)
    }

    /** reader.ReadString of a line feed; None is the end of the input. */
    method TakeLine() returns (line: Option<Bytes>)
      modifies this
      ensures var i := IndexOfByte(old(unread), LF);
              if i < 0 then line == None && unread == []
              else line == Some(old(unread)[..i + 1]) && unread == old(unread)[i + 1..]
    {
      var i := IndexOfByte(unread, LF);
      if i < 0 {
        unread := [];
        return None;
      }
      line := Some(unread[..i + 1]);
      unread := unread[i + 1..];
    }

    method NextLine() returns (result: Outcome<Bytes>)
      modifies this
      ensures Left(old(unread), ReadLine(old(unread)), result)
    {
      var taken := TakeLine();
      if taken.None? {
        return Failed(Eof);
      }
      var line := taken.value[..|taken.value| - 1];
      LineOf(old(unread));
      if line != [] && line[|line| - 1] == CR {
        line := line[..|line| - 1];
      }
      result := Done(line, unread);
    }

    method NextBulk() returns (result: Outcome<Bytes>)
      modifies this
      ensures Left(old(unread), ReadBulk(room, old(unread)), result)
    {
      hide ReadLine, ParseInt;
      var line := NextLine();
      if line.Failed? {
        return Failed(line.error);
      }
      var length := ParseInt(line.value, 10);
      if length.None? {
        return Failed(Protocol);
      }
      if length.value < 0 {
        return Done([], unread);
      }
      if length.value + 2 > room {
        return Failed(TooLong);
      }
      var n: nat := length.value;
      if |unread| < n + 2 {
        unread := [];
        return Failed(Eof);
      }
      var buf := unread[..n + 2];
      unread := unread[n + 2..];
      if buf[n] != CR || buf[n + 1] != LF {
        return Failed(Protocol);
      }
      assert buf[..n] == line.rest[..n];
      result := Done(buf[..n], unread);
    }

    method NextString() returns (result: Outcome<Bytes>)
      modifies this
      ensures Left(old(unread), ReadString(room, old(unread)), result)
    {
      hide ReadLine, ReadBulk;
      if unread == [] {
        return Failed(Eof);
      }
      var prefix := unread[0];
      unread := unread[1..];
      if prefix == DOLLAR {
        result := NextBulk();
      } else if prefix == PLUS || prefix == COLON_BYTE {
        result := NextLine();
      } else {
        result := Failed(Protocol);
      }
    }

    method NextArray() returns (result: Outcome<seq<Bytes>>)
      modifies this
      ensures Left(old(unread), ReadArray(room, old(unread)), result)
    {
      hide ReadLine, ParseInt, ReadString;
      if unread == [] {
        return Failed(Eof);
      }
      var prefix := unread[0];
      unread := unread[1..];
      if prefix != STAR {
        return Failed(Protocol);
      }
      var line := NextLine();
      if line.Failed? {
        return Failed(line.error);
      }
      var count := ParseInt(line.value, 10);
      if count.None? || count.value < 0 {
        return Failed(Protocol);
      }
      if count.value * STRING_SIZE > room {
        return Failed(TooLong);
      }
      ghost var expected := ReadStrings(room, unread, count.value);
      var args: seq<Bytes> := [];
      JoinedNone(expected);
      for i := 0 to count.value
        invariant Joined(args, ReadStrings(room, unread, count.value - i)) == expected
      {
        JoinNext(room, args, unread, count.value - i);
        var value := NextString();
        if value.Failed? {
          return Failed(value.error);
        }
        args := args + [value.value];
      }
      assert args + [] == args;
      result := Done(args, unread);
    }
  }

  /** Arguments read so far, before those still to read. */
  ghost function Joined(args: seq<Bytes>, others: Outcome<seq<Bytes>>): Outcome<seq<Bytes>> {
    match others
    case Failed(e) => Failed(e)
    case Done(values, rest) => Done(args + values, rest)
  }

  lemma JoinedNone(others: Outcome<seq<Bytes>>)
    ensures Joined([], others) == others
  {
    if others.Done? {
      assert [] + others.value == others.value;
    }
  }

  lemma JoinNext(room: Room, args: seq<Bytes>, s: Bytes, n: nat)
    requires n > 0
    ensures Joined(args, ReadStrings(room, s, n)) == match ReadString(room, s)
              case Failed(e) => Failed(e)
              case Done(value, rest) => Joined(args + [value], ReadStrings(room, rest, n - 1))
  {
    hide ReadString;
    match ReadString(room, s)
    case Failed(_) =>
    case Done(value, rest) =>
      match ReadStrings(room, rest, n - 1)
      case Failed(_) =>
      case Done(others, _) => assert args + ([value] + others) == args + [value] + others;
  }

  class Writer {
    var buffer: Bytes

    constructor ()
      ensures buffer == []
    {
      buffer := [];
    }

    method Write(bytes: Bytes)
      modifies this
      ensures buffer == old(buffer) + bytes
    {
      buffer := buffer + bytes;
    }

    /** writeRedisBulkString */
    method WriteBulk(payload: Option<Bytes>)
      modifies this
      ensures buffer == old(buffer) + Bulk(payload)
    {
      if payload.None? {
        Write([DOLLAR, MINUS, 49, CR, LF]);
        return;
      }
      Write([DOLLAR] + Itoa(|payload.value|) + CRLF);
      Write(payload.value);
      Write(CRLF);
    }

    /** writeRedisArrayOfBulkStrings */
    method WriteArray(items: seq<Option<Bytes>>)
      modifies this
      ensures buffer == old(buffer) + Array(items)
    {
      hide Bulk, Itoa, Bulks;
      Write([STAR] + Itoa(|items|) + CRLF);
      ghost var head := buffer;
      NoBulks(items);
      for i := 0 to |items|
        invariant buffer == head + Bulks(items[..i])
      {
        OneMoreBulk(items, i);
        WriteBulk(items[i]);
      }
      assert items[..|items|] == items;
    }

    /** encodeRESPArray */
    method WriteCommand(args: seq<Bytes>)
      modifies this
      ensures buffer == old(buffer) + Command(args)
    {
      hide Bulk, Itoa, Bulks;
      var items := Present(args);
      NoBulks(items);
      Write([STAR]);
      Write(Itoa(|args|));
      Write(CRLF);
      ghost var head := buffer;
      for i := 0 to |args|
        invariant buffer == head + Bulks(items[..i])
      {
        OneMoreBulk(items, i);
        ghost var before := buffer;
        Write([DOLLAR]);
        Write(Itoa(|args[i]|));
        Write(CRLF);
        Write(args[i]);
        Write(CRLF);
        BulkInPieces(before, args[i]);
      }
      assert items[..|items|] == items;
    }
  }

  lemma NoBulks(items: seq<Option<Bytes>>)
    ensures items[..0] == [] && Bulks(items[..0]) == []
  {
  }

  lemma BulkInPieces(before: Bytes, bytes: Bytes)
    ensures before + [DOLLAR] + Itoa(|bytes|) + CRLF + bytes + CRLF == before + Bulk(Some(bytes))
  {
  }

  lemma {:induction false} BulksAppend(a: seq<Option<Bytes>>, b: Option<Bytes>)
    ensures Bulks(a + [b]) == Bulks(a) + Bulk(b)
    decreases |a|
  {
    hide Bulk;
    if a == [] {
      assert a + [b] == [b] && [b][1..] == [];
    } else {
      assert (a + [b])[1..] == a[1..] + [b];
      BulksAppend(a[1..], b);
    }
  }

  lemma OneMoreBulk(items: seq<Option<Bytes>>, i: nat)
    requires i < |items|
    ensures Bulks(items[..i + 1]) == Bulks(items[..i]) + Bulk(items[i])
  {
    hide Bulk;
    assert items[..i + 1] == items[..i] + [items[i]];
    BulksAppend(items[..i], items[i]);
  }
}
