/** Byte strings and the few Go library operations on them that the wire code relies on. */
module ByteStrings {

  newtype byte = b: int | 0 <= b < 256

  type Bytes = seq<byte>

  datatype Option<+T> = None | Some(value: T)

  const CR: byte := 13
  const LF: byte := 10
  const SPACE: byte := 32
  const COLON: byte := 58
  const SEMICOLON: byte := 59
  const COMMA: byte := 44

  const CRLF: Bytes := [CR, LF]
  const CRLFCRLF: Bytes := [CR, LF, CR, LF]

  /** The bytes of an ASCII literal. */
  function Ascii(s: string): (bytes: Bytes)
    requires forall i | 0 <= i < |s| :: s[i] as int < 128
    ensures |bytes| == |s|
    ensures forall i | 0 <= i < |s| :: bytes[i] as int == s[i] as int
  {
    seq(|s|, i requires 0 <= i < |s| => s[i] as int as byte)
  }

  /** pattern occurs in s at position i. */
  ghost predicate At(s: Bytes, pattern: Bytes, i: int) {
    0 <= i <= |s| - |pattern| && s[i..i + |pattern|] == pattern
  }

  predicate StartsWith(s: Bytes, pattern: Bytes) {
    |pattern| <= |s| && s[..|pattern|] == pattern
  }

  /** bytes.Index: the first occurrence, or -1. */
  function IndexOf(s: Bytes, pattern: Bytes): (r: int)
    ensures -1 <= r <= |s|
    ensures r >= 0 ==> At(s, pattern, r)
    ensures forall j | 0 <= j && (r < 0 || j < r) :: !At(s, pattern, j)
    decreases |s|
  {
    if StartsWith(s, pattern) then 0
    else if s == [] then -1
    else
      var rest := IndexOf(s[1..], pattern);
      AtInTail(s, pattern);
      if rest < 0 then -1 else rest + 1
  }

  lemma AtInTail(s: Bytes, pattern: Bytes)
    requires s != []
    ensures At(s, pattern, 0) <==> StartsWith(s, pattern)
    ensures forall j | 1 <= j :: At(s, pattern, j) <==> At(s[1..], pattern, j - 1)
  {
    forall j | 1 <= j ensures At(s, pattern, j) <==> At(s[1..], pattern, j - 1) {
      var n := |pattern|;
      if j <= |s| - n {
        var there, here := s[j..j + n], s[1..][j - 1..j - 1 + n];
        assert forall k | 0 <= k < n :: there[k] == s[j + k] && here[k] == s[j + k];
        assert there == here;
      }
    }
  }

  lemma AtInPrefix(s: Bytes, k: nat, pattern: Bytes, i: int)
    requires k <= |s|
    ensures At(s[..k], pattern, i) <==> At(s, pattern, i) && i + |pattern| <= k
  {
    if 0 <= i && i + |pattern| <= k {
      assert s[..k][i..i + |pattern|] == s[i..i + |pattern|];
    }
  }

  lemma IndexOfIs(s: Bytes, pattern: Bytes, i: int)
    requires At(s, pattern, i)
    requires forall j | 0 <= j < i :: !At(s, pattern, j)
    ensures IndexOf(s, pattern) == i
  {
  }

  /** bytes.IndexByte. */
  function IndexOfByte(s: Bytes, b: byte): (r: int)
    ensures -1 <= r < |s|
    ensures r >= 0 ==> s[r] == b && b !in s[..r]
    ensures r < 0 ==> b !in s
  {
    if s == [] then -1
    else if s[0] == b then 0
    else
      var rest := IndexOfByte(s[1..], b);
      if rest < 0 then -1 else rest + 1
  }

  lemma IndexOfByteIs(s: Bytes, b: byte, i: nat)
    requires i < |s| && s[i] == b && b !in s[..i]
    ensures IndexOfByte(s, b) == i
  {
    var r := IndexOfByte(s, b);
    assert b in s;
    forall k | 0 <= k < i ensures s[k] != b {
      assert s[..i][k] == s[k];
    }
    forall k | 0 <= k < r ensures s[k] != b {
      assert s[..r][k] == s[k];
    }
  }

  /** strings.Split on one byte. */
  function SplitOn(s: Bytes, b: byte): (parts: seq<Bytes>)
    ensures |parts| >= 1
  {
    var i := IndexOfByte(s, b);
    if i < 0 then [s] else [s[..i]] + SplitOn(s[i + 1..], b)
  }

  /** unicode.IsSpace for a one-byte code point. */
  predicate IsSpace1(b: byte) {
    9 <= b <= 13 || b == 32
  }

  /** unicode.IsSpace for the two-byte encoding of a code point. */
  predicate IsSpace2(a: byte, b: byte) {
    a == 0xC2 && (b == 0x85 || b == 0xA0)
  }

  /** unicode.IsSpace for the three-byte encoding of a code point. */
  predicate IsSpace3(a: byte, b: byte, c: byte) {
    || (a == 0xE1 && b == 0x9A && c == 0x80)
    || (a == 0xE2 && b == 0x80 && (0x80 <= c <= 0x8A || c == 0xA8 || c == 0xA9 || c == 0xAF))
    || (a == 0xE2 && b == 0x81 && c == 0x9F)
    || (a == 0xE3 && b == 0x80 && c == 0x80)
  }

  /** The length of the white-space code point that s begins with, or 0. */
  function SpaceAtStart(s: Bytes): (n: nat)
    ensures n <= |s|
  {
    if |s| >= 1 && IsSpace1(s[0]) then 1
    else if |s| >= 2 && IsSpace2(s[0], s[1]) then 2
    else if |s| >= 3 && IsSpace3(s[0], s[1], s[2]) then 3
    else 0
  }

  /** The length of the white-space code point that s ends with, or 0. */
  function SpaceAtEnd(s: Bytes): (n: nat)
    ensures n <= |s|
    ensures forall i | |s| - n <= i < |s| :: s[i] != SEMICOLON
  {
    var k := |s|;
    if k >= 1 && IsSpace1(s[k - 1]) then 1
    else if k >= 2 && IsSpace2(s[k - 2], s[k - 1]) then 2
    else if k >= 3 && IsSpace3(s[k - 3], s[k - 2], s[k - 1]) then 3
    else 0
  }

  function TrimLeft(s: Bytes): Bytes {
    var n := SpaceAtStart(s);
    if n == 0 then s else TrimLeft(s[n..])
  }

  function TrimRight(s: Bytes): (r: Bytes)
    ensures |r| <= |s| && r == s[..|r|]
    ensures forall i | |r| <= i < |s| :: s[i] != SEMICOLON
  {
    var n := SpaceAtEnd(s);
    if n == 0 then s else TrimRight(s[..|s| - n])
  }

  /** strings.TrimSpace. */
  function TrimSpace(s: Bytes): Bytes {
    TrimRight(TrimLeft(s))
  }

  /** The value of one digit as strconv reads it, or 99. */
  function DigitValue(b: byte): (d: nat)
    ensures d < 36 || d == 99
  {
    if 48 <= b <= 57 then b as int - 48
    else if 65 <= b <= 90 then b as int - 55
    else if 97 <= b <= 122 then b as int - 87
    else 99
  }

  predicate AllDigits(s: Bytes, base: nat) {
    forall i | 0 <= i < |s| :: DigitValue(s[i]) < base
  }

  /** The number a run of digits denotes. */
  function Value(s: Bytes, base: nat): nat {
    if s == [] then 0 else Value(s[..|s| - 1], base) * base + DigitValue(s[|s| - 1])
  }

  const MAX_INT64: int := 0x7FFF_FFFF_FFFF_FFFF

  /** strconv.ParseInt(text, base, 64) for bases 10 and 16; None is any parse error. */
  function ParseInt(text: Bytes, base: nat): Option<int> {
    if text == [] then None
    else
      var signed := text[0] == 43 || text[0] == 45;
      var digits := if signed then text[1..] else text;
      if digits == [] || !AllDigits(digits, base) then None
      else
        var v: int := Value(digits, base);
        if text[0] == 45 then (if v <= MAX_INT64 + 1 then Some(-v) else None)
        else if v <= MAX_INT64 then Some(v)
        else None
  }
}
