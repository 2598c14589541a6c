/** What the text operations compute, told from the numbers and code points that are written. */
module TextLaws {
  import opened ByteStrings

  // ---------------------------------------------------------------- numerals

  const DIGITS: Bytes := Ascii("0123456789abcdef")

  /** The shortest text of a number. */
  function Numeral(n: nat, base: nat): (text: Bytes)
    requires 2 <= base <= 16
    ensures text != []
    decreases n
  {
    (if n < base then [] else Numeral(n / base, base)) + [DIGITS[n % base]]
  }

  function Zeros(k: nat): Bytes {
    seq(k, _ => 48)
  }

  function LowerByte(b: byte): byte {
    if 65 <= b <= 90 then b + 32 else b
  }

  function Lower(s: Bytes): Bytes {
    seq(|s|, i requires 0 <= i < |s| => LowerByte(s[i]))
  }

  /** Leading zeros and letters of either case do not matter. */
  ghost predicate Writes(text: Bytes, base: nat, n: nat)
    requires 2 <= base <= 16
  {
    exists k: nat :: Lower(text) == Zeros(k) + Numeral(n, base)
  }

  lemma DigitBytes(d: nat)
    requires d < 16
    ensures DIGITS[d] as int == if d < 10 then 48 + d else 87 + d
  {
    var text := "0123456789abcdef";
    assert DIGITS[d] as int == text[d] as int;
    if d < 8 {
      assert text[..8] == "01234567";
    }
  }

  lemma DigitOf(b: byte, base: nat)
    requires base == 10 || base == 16
    ensures DigitValue(b) < base <==> exists d: nat :: d < base && LowerByte(b) == DIGITS[d]
    ensures forall d: nat | d < base && LowerByte(b) == DIGITS[d] :: DigitValue(b) == d
    ensures DigitValue(b) < base ==> LowerByte(b) == DIGITS[DigitValue(b)]
  {
    forall d: nat | d < 16 ensures DIGITS[d] as int == if d < 10 then 48 + d else 87 + d {
      DigitBytes(d);
    }
    if DigitValue(b) < base {
      assert LowerByte(b) as int == DIGITS[DigitValue(b)] as int;
    }
  }

  lemma LowerSnoc(s: Bytes)
    requires s != []
    ensures Lower(s) == Lower(s[..|s| - 1]) + [LowerByte(s[|s| - 1])]
  {
  }

  lemma ZerosSnoc(k: nat)
    ensures Zeros(k + 1) == Zeros(k) + [48]
  {
  }

  lemma AllDigitsSnoc(s: Bytes, base: nat)
    requires s != []
    ensures AllDigits(s, base) <==> AllDigits(s[..|s| - 1], base) && DigitValue(s[|s| - 1]) < base
  {
    hide DigitValue;
    var front := s[..|s| - 1];
    if AllDigits(front, base) && DigitValue(s[|s| - 1]) < base {
      forall i | 0 <= i < |s| ensures DigitValue(s[i]) < base {
        if i < |front| {
          assert front[i] == s[i];
        }
      }
    }
  }

  lemma NumeralSnoc(m: nat, d: nat, base: nat)
    requires (base == 10 || base == 16) && d < base
    ensures Numeral(m * base + d, base) == (if m == 0 then [] else Numeral(m, base)) + [DIGITS[d]]
  {
    var n := m * base + d;
    assert n / base == m && n % base == d;
  }

  lemma {:induction false} DigitsAreNumeral(s: Bytes, base: nat) returns (k: nat)
    requires (base == 10 || base == 16) && s != [] && AllDigits(s, base)
    ensures Lower(s) == Zeros(k) + Numeral(Value(s, base), base)
    decreases |s|
  {
    hide DigitValue, Numeral, Zeros, Lower, AllDigits;
    var front, last := s[..|s| - 1], s[|s| - 1];
    AllDigitsSnoc(s, base);
    LowerSnoc(s);
    DigitOf(last, base);
    var d := DigitValue(last);
    if front == [] {
      k := 0;
      NumeralSnoc(0, d, base);
      NoZeros();
      assert Lower(front) == [] by { LowerOfNothing(); }
      assert Value(s, base) == d;
    } else {
      var j := DigitsAreNumeral(front, base);
      var m := Value(front, base);
      NumeralSnoc(m, d, base);
      if m == 0 {
        k := j + 1;
        NumeralSnoc(0, 0, base);
        DigitBytes(0);
        ZerosSnoc(j);
      } else {
        k := j;
      }
    }
  }

  lemma NoZeros()
    ensures Zeros(0) == []
  {
  }

  lemma LowerOfNothing()
    ensures Lower([]) == []
  {
  }

  lemma {:induction false} ZerosAreDigits(s: Bytes, base: nat)
    requires (base == 10 || base == 16) && Lower(s) == Zeros(|s|)
    ensures AllDigits(s, base) && Value(s, base) == 0
    decreases |s|
  {
    if s != [] {
      LowerSnoc(s);
      ZerosSnoc(|s| - 1);
      assert Lower(s)[|s| - 1] == 48 && Lower(s)[..|s| - 1] == Lower(s[..|s| - 1]);
      assert Zeros(|s|)[..|s| - 1] == Zeros(|s| - 1);
      ZerosAreDigits(s[..|s| - 1], base);
      AllDigitsSnoc(s, base);
    }
  }

  lemma {:induction false} NumeralIsDigits(s: Bytes, base: nat, k: nat, n: nat)
    requires (base == 10 || base == 16) && Lower(s) == Zeros(k) + Numeral(n, base)
    ensures s != [] && AllDigits(s, base) && Value(s, base) == n
    decreases |s|
  {
    hide DigitValue, AllDigits, Zeros, Lower, Numeral, LowerByte;
    LowerLength(s);
    ZerosLength(k);
    var front, last := s[..|s| - 1], s[|s| - 1];
    LastDigit(s, base, k, n);
    DigitOf(last, base);
    if n < base {
      LowerLength(front);
      ZerosAreDigits(front, base);
    } else {
      NumeralIsDigits(front, base, k, n / base);
    }
    AllDigitsSnoc(s, base);
    DivMod(n, base);
  }

  lemma LastDigit(s: Bytes, base: nat, k: nat, n: nat)
    requires (base == 10 || base == 16) && s != [] && Lower(s) == Zeros(k) + Numeral(n, base)
    ensures LowerByte(s[|s| - 1]) == DIGITS[n % base]
    ensures Lower(s[..|s| - 1]) == Zeros(k) + if n < base then [] else Numeral(n / base, base)
    ensures n < base ==> Lower(s[..|s| - 1]) == Zeros(k)
  {
    hide Zeros, Lower, LowerByte;
    LowerSnoc(s);
    var before := if n < base then [] else Numeral(n / base, base);
    assert Zeros(k) + Numeral(n, base) == (Zeros(k) + before) + [DIGITS[n % base]];
    EqualEnds(Lower(s[..|s| - 1]), LowerByte(s[|s| - 1]), Zeros(k) + before, DIGITS[n % base]);
    assert Zeros(k) + [] == Zeros(k);
  }

  lemma DivMod(n: nat, base: nat)
    requires base == 10 || base == 16
    ensures n / base * base + n % base == n
  {
  }

  lemma LowerLength(s: Bytes)
    ensures |Lower(s)| == |s|
  {
  }

  lemma ZerosLength(k: nat)
    ensures |Zeros(k)| == k
  {
  }

  lemma EqualEnds(a: Bytes, x: byte, b: Bytes, y: byte)
    requires a + [x] == b + [y]
    ensures a == b && x == y
  {
    assert (a + [x])[..|a|] == a && (b + [y])[..|b|] == b;
    assert (a + [x])[|a|] == x && (b + [y])[|b|] == y;
  }

  /** A run of digits is a numeral, and its value the number written. */
  lemma DigitsIff(s: Bytes, base: nat, n: nat)
    requires base == 10 || base == 16
    ensures s != [] && AllDigits(s, base) && Value(s, base) == n <==> Writes(s, base, n)
  {
    hide Value, AllDigits, Lower, Zeros, Numeral;
    if s != [] && AllDigits(s, base) && Value(s, base) == n {
      var k := DigitsAreNumeral(s, base);
    }
    if Writes(s, base, n) {
      var k: nat :| Lower(s) == Zeros(k) + Numeral(n, base);
      NumeralIsDigits(s, base, k, n);
    }
  }

  /** The text of an integer: a sign or none, and a numeral. */
  ghost predicate WritesInt(text: Bytes, base: nat, v: int)
    requires 2 <= base <= 16
  {
    || (v >= 0 && Writes(text, base, v))
    || (v >= 0 && Ascii("+") <= text && Writes(text[1..], base, v))
    || (v <= 0 && Ascii("-") <= text && Writes(text[1..], base, -v))
  }

  /** strconv.ParseInt reads exactly the 64-bit integers that are written. */
  lemma ParseIntIff(text: Bytes, base: nat, v: int)
    requires base == 10 || base == 16
    ensures ParseInt(text, base) == Some(v)
       <==> WritesInt(text, base, v) && -0x8000_0000_0000_0000 <= v < 0x8000_0000_0000_0000
  {
    hide Value, AllDigits, Writes;
    assert Ascii("+")[0] == 43 && Ascii("-")[0] == 45;
    assert Ascii("+") <= text <==> text != [] && text[0] == 43;
    assert Ascii("-") <= text <==> text != [] && text[0] == 45;
    var m := if v < 0 then -v else v;
    DigitsIff(text, base, m);
    if text != [] {
      DigitsIff(text[1..], base, m);
      if text[0] == 43 || text[0] == 45 {
        SignIsNoDigit(text, base);
      }
    }
  }

  lemma SignIsNoDigit(text: Bytes, base: nat)
    requires (base == 10 || base == 16) && text != [] && (text[0] == 43 || text[0] == 45)
    ensures !AllDigits(text, base)
  {
    assert DigitValue(text[0]) == 99;
  }

  lemma {:induction false} DecimalBytes(n: nat)
    ensures forall i | 0 <= i < |Numeral(n, 10)| :: 48 <= Numeral(n, 10)[i] <= 57
    decreases n
  {
    DigitBytes(n % 10);
    if n >= 10 {
      DecimalBytes(n / 10);
    }
  }

  lemma NumeralIsWritten(n: nat)
    ensures Writes(Numeral(n, 10), 10, n)
  {
    hide Numeral;
    DecimalBytes(n);
    var text := Numeral(n, 10);
    assert Lower(text) == text;
    assert Lower(text) == Zeros(0) + text;
  }

  // ---------------------------------------------------------------- white space

  /** The code points that Unicode calls white space. */
  ghost predicate IsSpace(c: nat) {
    || 0x09 <= c <= 0x0D || c == 0x20 || c == 0x85 || c == 0xA0 || c == 0x1680
    || 0x2000 <= c <= 0x200A || c == 0x2028 || c == 0x2029 || c == 0x202F || c == 0x205F || c == 0x3000
  }

  /** The UTF-8 form of a code point below 0x10000. */
  function Utf8(c: nat): (bytes: Bytes)
    ensures bytes != []
  {
    if c < 0x80 then [c as byte]
    else if c < 0x800 then [(0xC0 + c / 0x40) as byte, (0x80 + c % 0x40) as byte]
    else [(0xE0 + c / 0x1000 % 0x10) as byte, (0x80 + c / 0x40 % 0x40) as byte, (0x80 + c % 0x40) as byte]
  }

  ghost predicate AreSpaces(codes: seq<nat>) {
    forall i | 0 <= i < |codes| :: IsSpace(codes[i])
  }

  ghost function Text(codes: seq<nat>): Bytes
    requires AreSpaces(codes)
  {
    if codes == [] then [] else Utf8(codes[0]) + Text(codes[1..])
  }

  ghost predicate Blank(s: Bytes) {
    exists codes :: AreSpaces(codes) && Text(codes) == s
  }

  ghost predicate StartsBlank(s: Bytes) {
    exists c: nat :: IsSpace(c) && Utf8(c) <= s
  }

  ghost predicate EndsBlank(s: Bytes) {
    exists c: nat :: IsSpace(c) && EndsIn(s, Utf8(c))
  }

  predicate EndsIn(s: Bytes, suffix: Bytes) {
    |suffix| <= |s| && s[|s| - |suffix|..] == suffix
  }

  /** The text without the white space around it. */
  ghost predicate IsCore(s: Bytes, core: Bytes) {
    !StartsBlank(core) && !EndsBlank(core) && exists a, b :: Blank(a) && Blank(b) && s == a + core + b
  }

  lemma SpaceForms(c: nat)
    requires IsSpace(c)
    ensures var w := Utf8(c);
            || (|w| == 1 && IsSpace1(w[0]))
            || (|w| == 2 && IsSpace2(w[0], w[1]))
            || (|w| == 3 && IsSpace3(w[0], w[1], w[2]))
    ensures forall i | 1 <= i < |Utf8(c)| :: 0x80 <= Utf8(c)[i] < 0xC0
    ensures Utf8(c)[0] < 0x80 || Utf8(c)[0] >= 0xC0
  {
    if 0x2000 <= c <= 0x200A {
      assert c / 0x1000 % 0x10 == 2 && c / 0x40 % 0x40 == 0 && c % 0x40 == c - 0x2000;
    }
  }

  lemma FormOfSpace(w: Bytes) returns (c: nat)
    requires || (|w| == 1 && IsSpace1(w[0]))
             || (|w| == 2 && IsSpace2(w[0], w[1]))
             || (|w| == 3 && IsSpace3(w[0], w[1], w[2]))
    ensures IsSpace(c) && Utf8(c) == w
  {
    if |w| == 1 {
      c := w[0] as int;
    } else if |w| == 2 {
      c := w[1] as int;
    } else if w[0] == 0xE1 {
      c := 0x1680;
    } else if w[0] == 0xE3 {
      c := 0x3000;
    } else if w[1] == 0x80 {
      c := 0x2000 + (w[2] as int - 0x80);
    } else {
      c := 0x205F;
    }
  }

  lemma StartIff(s: Bytes)
    ensures StartsBlank(s) <==> SpaceAtStart(s) > 0
    ensures forall c: nat | IsSpace(c) && Utf8(c) <= s :: SpaceAtStart(s) == |Utf8(c)|
  {
    hide IsSpace, Utf8;
    forall c: nat | IsSpace(c) && Utf8(c) <= s ensures SpaceAtStart(s) == |Utf8(c)| {
      SpaceForms(c);
      StartIs(s, Utf8(c));
    }
    var n := SpaceAtStart(s);
    if n > 0 {
      var c := FormOfSpace(s[..n]);
      assert Utf8(c) <= s;
    }
  }

  lemma StartIs(s: Bytes, w: Bytes)
    requires w <= s
    requires || (|w| == 1 && IsSpace1(w[0]))
             || (|w| == 2 && IsSpace2(w[0], w[1]))
             || (|w| == 3 && IsSpace3(w[0], w[1], w[2]))
    ensures SpaceAtStart(s) == |w|
  {
    assert forall i | 0 <= i < |w| :: w[i] == s[i];
  }

  lemma EndIff(s: Bytes)
    ensures EndsBlank(s) <==> SpaceAtEnd(s) > 0
    ensures forall c: nat | IsSpace(c) && EndsIn(s, Utf8(c)) :: SpaceAtEnd(s) == |Utf8(c)|
  {
    hide IsSpace, Utf8;
    forall c: nat | IsSpace(c) && EndsIn(s, Utf8(c)) ensures SpaceAtEnd(s) == |Utf8(c)| {
      SpaceForms(c);
      EndIs(s, Utf8(c));
    }
    var n := SpaceAtEnd(s);
    if n > 0 {
      var c := FormOfSpace(s[|s| - n..]);
      assert EndsIn(s, Utf8(c));
    }
  }

  lemma EndIs(s: Bytes, w: Bytes)
    requires EndsIn(s, w)
    requires || (|w| == 1 && IsSpace1(w[0]))
             || (|w| == 2 && IsSpace2(w[0], w[1]))
             || (|w| == 3 && IsSpace3(w[0], w[1], w[2]))
    ensures SpaceAtEnd(s) == |w|
  {
    assert forall i | 0 <= i < |w| :: w[i] == s[|s| - |w| + i];
  }

  lemma {:induction false} TextAppend(a: seq<nat>, b: seq<nat>)
    requires AreSpaces(a) && AreSpaces(b)
    ensures AreSpaces(a + b) && Text(a + b) == Text(a) + Text(b)
    decreases |a|
  {
    hide Utf8, IsSpace;
    if a == [] {
      assert a + b == b;
    } else {
      assert (a + b)[1..] == a[1..] + b;
      TextAppend(a[1..], b);
    }
  }

  lemma OneSpace(c: nat)
    requires IsSpace(c)
    ensures AreSpaces([c]) && Text([c]) == Utf8(c)
  {
    assert [c][1..] == [];
  }

  /** Stripping from the left. */
  lemma {:induction false} LeftCore(s: Bytes) returns (codes: seq<nat>)
    ensures AreSpaces(codes) && s == Text(codes) + TrimLeft(s) && !StartsBlank(TrimLeft(s))
    decreases |s|
  {
    hide IsSpace, Utf8, SpaceAtStart, StartsBlank;
    StartIff(s);
    var n := SpaceAtStart(s);
    if n == 0 {
      codes := [];
    } else {
      var c: nat := StartCode(s);
      var rest := LeftCore(s[n..]);
      codes := [c] + rest;
      OneSpace(c);
      TextAppend([c], rest);
      assert s == s[..n] + s[n..];
    }
  }

  lemma StartCode(s: Bytes) returns (c: nat)
    requires SpaceAtStart(s) > 0
    ensures IsSpace(c) && Utf8(c) == s[..SpaceAtStart(s)]
  {
    hide IsSpace, Utf8;
    c := FormOfSpace(s[..SpaceAtStart(s)]);
  }

  lemma EndCode(s: Bytes) returns (c: nat)
    requires SpaceAtEnd(s) > 0
    ensures IsSpace(c) && Utf8(c) == s[|s| - SpaceAtEnd(s)..]
  {
    hide IsSpace, Utf8;
    c := FormOfSpace(s[|s| - SpaceAtEnd(s)..]);
  }

  /** Stripping from the right. */
  lemma {:induction false} RightCore(s: Bytes) returns (codes: seq<nat>)
    ensures AreSpaces(codes) && s == TrimRight(s) + Text(codes) && !EndsBlank(TrimRight(s))
    decreases |s|
  {
    hide IsSpace, Utf8, SpaceAtEnd, EndsBlank, TrimRight, Text, AreSpaces;
    TrimRightUnfolds(s);
    var n := SpaceAtEnd(s);
    if n == 0 {
      codes := [];
      TextOfNothing();
      assert s + [] == s;
      NoEnd(s);
    } else {
      var c: nat := EndCode(s);
      var front := s[..|s| - n];
      var rest := RightCore(front);
      codes := rest + [c];
      OneSpace(c);
      TextAppend(rest, [c]);
      assert s == front + s[|s| - n..];
      Regroup(TrimRight(front), Text(rest), Utf8(c));
    }
  }

  lemma NoEnd(s: Bytes)
    requires SpaceAtEnd(s) == 0
    ensures !EndsBlank(s)
  {
    hide SpaceAtEnd, EndsBlank, Utf8, IsSpace;
    EndIff(s);
  }

  lemma Regroup(a: Bytes, b: Bytes, c: Bytes)
    ensures a + b + c == a + (b + c)
  {
  }

  lemma TrimRightUnfolds(s: Bytes)
    ensures TrimRight(s) == if SpaceAtEnd(s) == 0 then s else TrimRight(s[..|s| - SpaceAtEnd(s)])
  {
    hide SpaceAtEnd;
  }

  lemma PrefixStartsBlank(t: Bytes, u: Bytes)
    requires t <= u && StartsBlank(t)
    ensures StartsBlank(u)
  {
    hide IsSpace, Utf8;
    var c: nat :| IsSpace(c) && Utf8(c) <= t;
    assert Utf8(c) <= u;
  }

  lemma TrimIsCore(s: Bytes)
    ensures IsCore(s, TrimSpace(s))
  {
    hide TrimLeft, TrimRight, Text, AreSpaces, StartsBlank, EndsBlank;
    var u := TrimLeft(s);
    var t := TrimRight(u);
    var left := LeftCore(s);
    var right := RightCore(u);
    if StartsBlank(t) {
      PrefixStartsBlank(t, u);
      assert false;
    }
    assert s == Text(left) + t + Text(right);
    assert Blank(Text(left)) && Blank(Text(right));
  }

  /** Blanks on the left are all stripped, when what follows does not begin with one. */
  lemma {:induction false} StripLeft(codes: seq<nat>, rest: Bytes)
    requires AreSpaces(codes) && !StartsBlank(rest)
    ensures TrimLeft(Text(codes) + rest) == rest
    decreases |codes|
  {
    hide IsSpace, Utf8, SpaceAtStart, StartsBlank;
    var s := Text(codes) + rest;
    StartIff(s);
    if codes == [] {
      assert s == rest;
    } else {
      var w := Utf8(codes[0]);
      assert s == w + (Text(codes[1..]) + rest);
      assert w <= s && s[|w|..] == Text(codes[1..]) + rest;
      StripLeft(codes[1..], rest);
    }
  }

  lemma {:induction false} StripRight(rest: Bytes, codes: seq<nat>)
    requires AreSpaces(codes) && !EndsBlank(rest)
    ensures TrimRight(rest + Text(codes)) == rest
    decreases |codes|
  {
    hide IsSpace, Utf8, SpaceAtEnd, EndsBlank, TrimRight, EndsIn;
    var s := rest + Text(codes);
    EndIff(s);
    TrimRightUnfolds(s);
    if codes == [] {
      assert s == rest;
    } else {
      var front, c := codes[..|codes| - 1], codes[|codes| - 1];
      assert codes == front + [c];
      TextAppend(front, [c]);
      OneSpace(c);
      Regroup(rest, Text(front), Utf8(c));
      EndsWithIt(rest + Text(front), Utf8(c));
      StripRight(rest, front);
    }
  }

  lemma EndsWithIt(a: Bytes, w: Bytes)
    ensures EndsIn(a + w, w) && (a + w)[..|a + w| - |w|] == a
  {
  }

  lemma FirstOfText(codes: seq<nat>)
    requires AreSpaces(codes) && codes != []
    ensures Text(codes) != [] && (Text(codes)[0] < 0x80 || Text(codes)[0] >= 0xC0)
  {
    hide IsSpace, Utf8;
    SpaceForms(codes[0]);
  }

  lemma NotAcross(core: Bytes, tail: Bytes, w: Bytes)
    requires core != [] && (tail == [] || tail[0] < 0x80 || tail[0] >= 0xC0)
    requires !(w <= core) && forall i | 1 <= i < |w| :: 0x80 <= w[i] < 0xC0
    ensures !(w <= core + tail)
  {
    var s := core + tail;
    if |w| <= |core| {
      assert s[..|w|] == core[..|w|];
    } else if tail == [] {
      assert s == core;
    } else {
      assert s[|core|] == tail[0];
    }
  }

  /** What does not begin with white space does not when more white space follows it. */
  lemma StillNoStart(core: Bytes, codes: seq<nat>)
    requires AreSpaces(codes) && core != [] && !StartsBlank(core)
    ensures !StartsBlank(core + Text(codes))
  {
    hide IsSpace, Utf8, Text, AreSpaces;
    TextOfNothing();
    if codes != [] {
      FirstOfText(codes);
    }
    forall c: nat | IsSpace(c) ensures !(Utf8(c) <= core + Text(codes)) {
      SpaceForms(c);
      NotAcross(core, Text(codes), Utf8(c));
    }
  }

  lemma TextOfNothing()
    ensures AreSpaces([]) && Text([]) == []
  {
  }

  lemma NothingIsBlank()
    ensures Blank([])
  {
    TextOfNothing();
    var none: seq<nat> := [];
    assert AreSpaces(none) && Text(none) == [];
  }

  lemma NothingHasNoBlank()
    ensures !StartsBlank([]) && !EndsBlank([])
  {
    hide IsSpace, Utf8;
  }

  lemma CoreIsTrim(s: Bytes, core: Bytes)
    requires IsCore(s, core)
    ensures TrimSpace(s) == core
  {
    hide TrimLeft, TrimRight, Text, AreSpaces, StartsBlank, EndsBlank;
    var a, b :| Blank(a) && Blank(b) && s == a + core + b;
    var left :| AreSpaces(left) && Text(left) == a;
    var right :| AreSpaces(right) && Text(right) == b;
    NothingHasNoBlank();
    if core == [] {
      TextAppend(left, right);
      assert s == Text(left + right) + [];
      StripLeft(left + right, []);
      TextOfNothing();
      StripRight([], []);
      assert [] + Text([]) == [];
    } else {
      StillNoStart(core, right);
      assert s == Text(left) + (core + Text(right));
      StripLeft(left, core + Text(right));
      StripRight(core, right);
    }
  }

  /** strings.TrimSpace takes off all the white space around a text, and nothing else. */
  lemma TrimSpaceIff(s: Bytes, core: Bytes)
    ensures TrimSpace(s) == core <==> IsCore(s, core)
  {
    hide TrimSpace, IsCore;
    TrimIsCore(s);
    if IsCore(s, core) {
      CoreIsTrim(s, core);
    }
  }

  // ---------------------------------------------------------------- parts

  /** The bytes from i to j are a part: separators or ends around it, and no separator in it. */
  ghost predicate PartAt(s: Bytes, separator: byte, part: Bytes, i: nat, j: nat) {
    && i <= j <= |s| && s[i..j] == part && separator !in part
    && (i == 0 || s[i - 1] == separator)
    && (j == |s| || s[j] == separator)
  }

  ghost predicate IsPart(s: Bytes, separator: byte, part: Bytes) {
    exists i: nat, j: nat :: PartAt(s, separator, part, i, j)
  }

  /** strings.Split yields exactly the parts between separators. */
  lemma {:induction false} SplitOnIff(s: Bytes, separator: byte, part: Bytes)
    ensures part in SplitOn(s, separator) <==> IsPart(s, separator, part)
    decreases |s|
  {
    hide IsPart;
    var n := IndexOfByte(s, separator);
    if n < 0 {
      WholeIsPart(s, separator, part);
    } else {
      SplitOnIff(s[n + 1..], separator, part);
      FirstPartIff(s, separator, n, part);
      assert SplitOn(s, separator) == [s[..n]] + SplitOn(s[n + 1..], separator);
    }
  }

  lemma WholeIsPart(s: Bytes, separator: byte, part: Bytes)
    requires separator !in s
    ensures IsPart(s, separator, part) <==> part == s
  {
    assert s[0..|s|] == s;
    if part == s {
      assert PartAt(s, separator, part, 0, |s|);
    }
  }

  lemma FirstPartIff(s: Bytes, separator: byte, n: nat, part: Bytes)
    requires n < |s| && s[n] == separator && separator !in s[..n]
    ensures IsPart(s, separator, part) <==> part == s[..n] || IsPart(s[n + 1..], separator, part)
  {
    hide PartAt;
    if i: nat, j: nat :| PartAt(s, separator, part, i, j) {
      PartIsFirstOrLater(s, separator, n, part, i, j);
    }
    if part == s[..n] {
      FirstIsPart(s, separator, n);
    }
    var rest := s[n + 1..];
    if i: nat, j: nat :| PartAt(rest, separator, part, i, j) {
      LaterIsPart(s, separator, n, part, i, j);
    }
  }

  lemma FirstIsPart(s: Bytes, separator: byte, n: nat)
    requires n < |s| && s[n] == separator && separator !in s[..n]
    ensures PartAt(s, separator, s[..n], 0, n)
  {
    assert s[0..n] == s[..n];
  }

  lemma LaterIsPart(s: Bytes, separator: byte, n: nat, part: Bytes, i: nat, j: nat)
    requires n < |s| && s[n] == separator && PartAt(s[n + 1..], separator, part, i, j)
    ensures PartAt(s, separator, part, n + 1 + i, n + 1 + j)
  {
    assert s[n + 1..][i..j] == s[n + 1 + i..n + 1 + j];
  }

  lemma Absent(s: Bytes, b: byte)
    requires b !in s
    ensures forall k | 0 <= k < |s| :: s[k] != b
  {
  }

  lemma PartIsFirstOrLater(s: Bytes, separator: byte, n: nat, part: Bytes, i: nat, j: nat)
    requires n < |s| && s[n] == separator && separator !in s[..n] && PartAt(s, separator, part, i, j)
    ensures part == s[..n] || (n < i <= j && PartAt(s[n + 1..], separator, part, i - n - 1, j - n - 1))
  {
    Absent(s[..n], separator);
    Absent(part, separator);
    assert forall k | 0 <= k < n :: s[..n][k] == s[k];
    assert forall k | 0 <= k < j - i :: part[k] == s[i + k];
    if i <= n {
      assert i == 0;
      assert j == n;
    } else {
      assert s[n + 1..][i - n - 1..j - n - 1] == s[i..j];
    }
  }
}
