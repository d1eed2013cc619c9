/**
 Escaping and unescaping of JSON strings in src/Libs/cJSON/cJSON.c: print_string_ptr, parse_string and
 utf16_literal_to_utf8. A C string is a sequence of byte-valued characters without a NUL.
 */
module JsonString {
  import opened Sequences
  import opened Options

  const NUL := '\0'
  const QUOTE := '\"'
  const BACKSLASH := '\\'
  const BACKSPACE := 8 as char
  const FORMFEED := 12 as char

  /** The outcome of parsing something at an offset: what it was and the offset behind it. */
  datatype Parsed<+T> = Failed | Parsed(value: T, offset: nat)

  // ---- Printing ----

  function HexDigit(v: nat): (c: char)
    requires v < 16
  {
    if v < 10 then ('0' as int + v) as char else ('a' as int + v - 10) as char
  }

  /** The escape sequence print_string_ptr writes for one character. */
  function EscapeChar(c: char): (e: string) {
    if c == QUOTE then [BACKSLASH, QUOTE]
    else if c == BACKSLASH then [BACKSLASH, BACKSLASH]
    else if c == BACKSPACE then [BACKSLASH, 'b']
    else if c == FORMFEED then [BACKSLASH, 'f']
    else if c == '\n' then [BACKSLASH, 'n']
    else if c == '\r' then [BACKSLASH, 'r']
    else if c == '\t' then [BACKSLASH, 't']
    else if c as int < 32 then [BACKSLASH, 'u', '0', '0', HexDigit(c as int / 16), HexDigit(c as int % 16)]
    else [c]
  }

  function Escape(s: string): (e: string) {
    if s == [] then [] else EscapeChar(s[0]) + Escape(s[1..])
  }

  function PrintString(s: string): (t: string)
    ensures |t| >= 2 && t[0] == QUOTE && t[|t| - 1] == QUOTE
  {
    [QUOTE] + (Escape(s) + [QUOTE])
  }

  lemma {:induction false} EscapeAppend(a: string, b: string)
    ensures Escape(a + b) == Escape(a) + Escape(b)
  {
    hide EscapeChar;
    if a == [] {
      assert a + b == b;
    } else {
      EscapeAppend(a[1..], b);
      assert (a + b)[1..] == a[1..] + b;
      assert Escape(a + b) == EscapeChar(a[0]) + (Escape(a[1..]) + Escape(b));
    }
  }

  /** What the first pass of print_string_ptr adds for a character beyond the character itself. */
  function ExtraChars(c: char): nat {
    if c == QUOTE || c == BACKSLASH || c == BACKSPACE || c == FORMFEED || c == '\n' || c == '\r' || c == '\t'
    then 1
    else if c as int < 32 then 5 else 0
  }

  /** The characters of printed text: none is a NUL, and control characters never appear. */
  predicate Visible(s: string) {
    forall i :: 0 <= i < |s| ==> s[i] as int >= 32
  }

  lemma {:induction false} EscapeIsVisible(s: string)
    ensures Visible(Escape(s))
  {
    if s != [] {
      EscapeIsVisible(s[1..]);
    }
  }

  // ---- \u escapes: section 7 of RFC 8259, and UTF-8 as in section 3 of RFC 3629 ----

  predicate IsHex(c: char) {
    '0' <= c <= '9' || 'A' <= c <= 'F' || 'a' <= c <= 'f'
  }

  function HexValue(c: char): (v: nat)
    requires IsHex(c)
    ensures v < 16
  {
    if '0' <= c <= '9' then c as int - '0' as int
    else if 'A' <= c <= 'F' then 10 + c as int - 'A' as int
    else 10 + c as int - 'a' as int
  }

  predicate AllHex(s: string) {
    forall i :: 0 <= i < |s| ==> IsHex(s[i])
  }

  /** The value of four hexadecimal digits; zero when one of them is none, which the callers accept. */
  function ParseHex4(s: string): (h: nat)
    requires |s| == 4
    ensures h < 0x10000
  {
    if AllHex(s) then ((HexValue(s[0]) * 16 + HexValue(s[1])) * 16 + HexValue(s[2])) * 16 + HexValue(s[3])
    else 0
  }

  predicate LeadingSurrogate(code: nat) { 0xD800 <= code <= 0xDBFF }
  predicate TrailingSurrogate(code: nat) { 0xDC00 <= code <= 0xDFFF }

  function ByteChar(b: nat): (c: char)
    requires b < 256
    ensures c as int == b
  {
    b as char
  }

  /**
   The UTF-8 form of a code point. `0x80 + x % 64` is `(x | 0x80) & 0xBF` cut to a byte, and adding the
   mark of the first byte is or-ing it, as MasksAreRemainders shows.
   */
  function Utf8(cp: nat): (bytes: string)
    requires cp <= 0x10FFFF
    ensures 1 <= |bytes| <= 4
  {
    if cp < 0x80 then [ByteChar(cp)]
    else if cp < 0x800 then [ByteChar(0xC0 + cp / 64), ByteChar(0x80 + cp % 64)]
    else if cp < 0x10000 then
      [ByteChar(0xE0 + cp / 64 / 64), ByteChar(0x80 + cp / 64 % 64), ByteChar(0x80 + cp % 64)]
    else
      [ByteChar(0xF0 + cp / 64 / 64 / 64), ByteChar(0x80 + cp / 64 / 64 % 64),
       ByteChar(0x80 + cp / 64 % 64), ByteChar(0x80 + cp % 64)]
  }

  lemma MasksAreRemainders(x: bv32)
    ensures ((x | 0x80) & 0xBF) & 0xFF == 0x80 + x % 64
    ensures x >> 6 == x / 64
    ensures x & 0x3FF == x % 1024
    ensures x < 0x20 ==> (x | 0xC0) & 0xFF == 0xC0 + x
    ensures x < 0x10 ==> (x | 0xE0) & 0xFF == 0xE0 + x
    ensures x < 0x08 ==> (x | 0xF0) & 0xFF == 0xF0 + x
  {
  }

  predicate IsContinuation(c: char) { 0x80 <= c as int <= 0xBF }

  /** The code point a well-formed UTF-8 sequence stands for; shortest forms only, no surrogates. */
  function DecodeUtf8(b: string): Option<nat> {
    if |b| == 1 && b[0] as int < 0x80 then Some(b[0] as int)
    else if |b| == 2 && 0xC2 <= b[0] as int <= 0xDF && IsContinuation(b[1]) then
      Some((b[0] as int - 0xC0) * 64 + (b[1] as int - 0x80))
    else if |b| == 3 && 0xE0 <= b[0] as int <= 0xEF && IsContinuation(b[1]) && IsContinuation(b[2]) then
      var cp := ((b[0] as int - 0xE0) * 64 + (b[1] as int - 0x80)) * 64 + (b[2] as int - 0x80);
      if cp < 0x800 || 0xD800 <= cp <= 0xDFFF then None else Some(cp)
    else if |b| == 4 && 0xF0 <= b[0] as int <= 0xF4 && IsContinuation(b[1]) && IsContinuation(b[2])
            && IsContinuation(b[3]) then
      var cp := (((b[0] as int - 0xF0) * 64 + (b[1] as int - 0x80)) * 64 + (b[2] as int - 0x80)) * 64
                + (b[3] as int - 0x80);
      if cp < 0x10000 || cp > 0x10FFFF then None else Some(cp)
    else None
  }

  lemma Utf8RoundTrip(cp: nat)
    requires cp <= 0x10FFFF && !LeadingSurrogate(cp) && !TrailingSurrogate(cp)
    ensures DecodeUtf8(Utf8(cp)) == Some(cp)
  {
  }

  /** How many characters of the input a \u escape takes and which bytes it yields. */
  datatype Literal = Literal(length: nat, bytes: string)

  /** utf16_literal_to_utf8 on the input at `i`, which must not read at or behind `end`. */
  function UnicodeEscape(content: string, i: nat, end: nat): (r: Option<Literal>)
    requires i < end < |content|
    ensures r.Some? ==> (r.value.length == 6 && |r.value.bytes| <= 3)
                        || (r.value.length == 12 && |r.value.bytes| == 4)
    ensures r.Some? ==> i + r.value.length <= end
  {
    if end - i < 6 then None
    else
      var first := ParseHex4(content[i + 2..i + 6]);
      if TrailingSurrogate(first) then None
      else if LeadingSurrogate(first) then
        if end - (i + 6) < 6 || content[i + 6] != BACKSLASH || content[i + 7] != 'u' then None
        else
          var second := ParseHex4(content[i + 8..i + 12]);
          if !TrailingSurrogate(second) then None
          else Some(Literal(12, Utf8(0x10000 + first % 1024 * 1024 + second % 1024)))
      else Some(Literal(6, Utf8(first)))
  }

  const LOWER_DIGITS := "0123456789abcdef"
  const UPPER_DIGITS := "0123456789ABCDEF"

  /** The hexadecimal digit of value `v`, in either case. */
  predicate IsDigitOf(c: char, v: nat)
    requires v < 16
  {
    c == LOWER_DIGITS[v] || c == UPPER_DIGITS[v]
  }

  ghost function DigitValue(c: char): Option<nat> {
    if exists v: nat :: v < 16 && IsDigitOf(c, v) then
      var v: nat :| v < 16 && IsDigitOf(c, v);
      Some(v)
    else None
  }

  lemma DigitOf(c: char, v: nat)
    requires v < 16
    ensures IsDigitOf(c, v) ==> IsHex(c) && HexValue(c) == v
    ensures IsHex(c) && HexValue(c) == v ==> IsDigitOf(c, v)
    ensures HexDigit(v) == LOWER_DIGITS[v]
  {
  }

  /** The digit values the code uses are the positions in the two rows of digits. */
  lemma HexValueIsDigitValue(c: char)
    ensures DigitValue(c) == if IsHex(c) then Some(HexValue(c)) else None
  {
    if IsHex(c) {
      DigitOf(c, HexValue(c));
    }
    if DigitValue(c).Some? {
      DigitOf(c, DigitValue(c).value);
    }
    hide IsDigitOf, IsHex, HexValue;
  }

  /** The code unit that four hexadecimal digits stand for by section 7 of RFC 8259; other text stands for none. */
  ghost function CodeUnit(s: string): (unit: Option<nat>)
    requires |s| == 4
  {
    if forall i :: 0 <= i < 4 ==> DigitValue(s[i]).Some? then
      Some(DigitValue(s[0]).value * 4096 + DigitValue(s[1]).value * 256 + DigitValue(s[2]).value * 16 + DigitValue(s[3]).value)
    else None
  }

  /** The code reads units as they are meant; for text that stands for none it takes zero. */
  lemma ParseHex4IsCodeUnit(s: string)
    requires |s| == 4
    ensures CodeUnit(s).Some? <==> AllHex(s)
    ensures ParseHex4(s) == if CodeUnit(s).Some? then CodeUnit(s).value else 0
  {
    forall i | 0 <= i < 4
      ensures DigitValue(s[i]) == if IsHex(s[i]) then Some(HexValue(s[i])) else None
    {
      HexValueIsDigitValue(s[i]);
    }
    hide DigitValue, IsHex, HexValue;
  }

  /**
   A \u escape whose unit is no surrogate half yields the code point of its four digits if and only if they
   are hexadecimal digits. The code accepts any other four characters too, and yields a NUL for them.
   */
  lemma SingleEscapeMeansItsCodePoint(content: string, i: nat, end: nat)
    requires i + 6 <= end < |content|
    ensures var digits := content[i + 2..i + 6];
            var unit, r := CodeUnit(digits), UnicodeEscape(content, i, end);
            && (unit == None ==> r == Some(Literal(6, [NUL])))
            && (unit.Some? && 0xDC00 <= unit.value <= 0xDFFF ==> r == None)
            && ((unit.Some? ==> unit.value < 0xD800 || 0xDFFF < unit.value) ==>
                  r.Some? && r.value.length == 6 && (DecodeUtf8(r.value.bytes) == unit <==> AllHex(digits)))
  {
    var digits := content[i + 2..i + 6];
    var code := ParseHex4(digits);
    ParseHex4IsCodeUnit(digits);
    hide CodeUnit, AllHex, DecodeUtf8;
    if CodeUnit(digits).Some? {
      if !TrailingSurrogate(code) && !LeadingSurrogate(code) {
        Utf8RoundTrip(code);
      }
    } else {
      Utf8RoundTrip(0);
    }
  }

  lemma SurrogateBits(high: nat, low: nat)
    requires LeadingSurrogate(high) && TrailingSurrogate(low)
    ensures high % 1024 == high - 0xD800 && low % 1024 == low - 0xDC00
  {
  }

  lemma HalvesAreJoined(content: string, i: nat, end: nat)
    requires i + 12 <= end < |content| && 0xD800 <= ParseHex4(content[i + 2..i + 6]) <= 0xDBFF
    ensures var high, low := ParseHex4(content[i + 2..i + 6]), ParseHex4(content[i + 8..i + 12]);
            var r := UnicodeEscape(content, i, end);
            if content[i + 6] == '\\' && content[i + 7] == 'u' && 0xDC00 <= low <= 0xDFFF then
              r.Some? && r.value.length == 12 &&
              DecodeUtf8(r.value.bytes) == Some(0x10000 + (high - 0xD800) * 0x400 + (low - 0xDC00))
            else r == None
  {
    var high, low := ParseHex4(content[i + 2..i + 6]), ParseHex4(content[i + 8..i + 12]);
    hide ParseHex4, DecodeUtf8;
    if TrailingSurrogate(low) {
      SurrogateBits(high, low);
      Utf8RoundTrip(0x10000 + (high - 0xD800) * 0x400 + (low - 0xDC00));
    }
  }

  /** A surrogate pair yields the code point the two halves stand for, and a lone half is refused. */
  lemma PairEscapeMeansItsCodePoint(content: string, i: nat, end: nat)
    requires i + 12 <= end < |content|
    requires CodeUnit(content[i + 2..i + 6]).Some? && 0xD800 <= CodeUnit(content[i + 2..i + 6]).value <= 0xDBFF
    ensures var high, low := CodeUnit(content[i + 2..i + 6]).value, CodeUnit(content[i + 8..i + 12]);
            var r := UnicodeEscape(content, i, end);
            if content[i + 6] == '\\' && content[i + 7] == 'u' && low.Some? && 0xDC00 <= low.value <= 0xDFFF then
              r.Some? && r.value.length == 12 &&
              DecodeUtf8(r.value.bytes) == Some(0x10000 + (high - 0xD800) * 0x400 + (low.value - 0xDC00))
            else r == None
  {
    hide *;
    ParseHex4IsCodeUnit(content[i + 2..i + 6]);
    ParseHex4IsCodeUnit(content[i + 8..i + 12]);
    HalvesAreJoined(content, i, end);
  }

  // ---- Parsing ----

  /** First pass of parse_string: the position of the closing quote, skipping escaped characters. */
  function FindEnd(content: string, i: nat): (r: Option<nat>)
    ensures r.Some? ==> i <= r.value < |content| && content[r.value] == QUOTE
    decreases |content| - i
  {
    if i >= |content| then None
    else if content[i] == QUOTE then Some(i)
    else if content[i] == BACKSLASH then
      if i + 1 >= |content| then None else FindEnd(content, i + 2)
    else FindEnd(content, i + 1)
  }

  /** How many backslashes the first pass skips between `i` and `end`. */
  function Skipped(content: string, i: nat, end: nat): (n: nat)
    requires FindEnd(content, i) == Some(end)
    ensures 2 * n <= end - i
    decreases |content| - i
  {
    if i == end then 0
    else if content[i] == BACKSLASH then 1 + Skipped(content, i + 2, end)
    else Skipped(content, i + 1, end)
  }

  /** The character a two-character escape stands for, if it is one. */
  function SimpleEscape(c: char): Option<char> {
    if c == 'b' then Some(BACKSPACE)
    else if c == 'f' then Some(FORMFEED)
    else if c == 'n' then Some('\n')
    else if c == 'r' then Some('\r')
    else if c == 't' then Some('\t')
    else if c == QUOTE || c == BACKSLASH || c == '/' then Some(c)
    else None
  }

  /** One round of the second pass of parse_string: characters consumed and bytes produced. */
  function NextPiece(content: string, i: nat, end: nat): (r: Option<Literal>)
    requires i < end < |content|
    ensures r.Some? ==> 1 <= r.value.length && i + r.value.length <= end + 1
  {
    if content[i] != BACKSLASH then Some(Literal(1, [content[i]]))
    else if content[i + 1] == 'u' then UnicodeEscape(content, i, end)
    else match SimpleEscape(content[i + 1])
      case None => None
      case Some(c) => Some(Literal(2, [c]))
  }

  /** Second pass of parse_string: everything between `i` and `end`, unescaped. */
  function Unescape(content: string, i: nat, end: nat): Option<string>
    requires end < |content|
    decreases end - i
  {
    if i >= end then Some([])
    else match NextPiece(content, i, end)
      case None => None
      case Some(piece) =>
        match Unescape(content, i + piece.length, end)
        case None => None
        case Some(rest) => Some(piece.bytes + rest)
  }

  /** A char array read as a C string: everything before the first NUL. */
  function CString(s: string): (r: string)
    ensures |r| <= |s| && r == s[..|r|]
    ensures NUL !in r
    ensures |r| < |s| ==> s[|r|] == NUL
  {
    if s == [] || s[0] == NUL then [] else [s[0]] + CString(s[1..])
  }

  lemma CStringIsIdentity(s: string)
    requires NUL !in s
    ensures CString(s) == s
  {
    assert |CString(s)| == |s|;
  }

  lemma {:induction false} CStringOf(memory: string, text: string)
    requires |text| < |memory| && memory[..|text|] == text && memory[|text|] == NUL && NUL !in text
    ensures CString(memory) == text
    decreases |text|
  {
    if text != [] {
      assert memory[0] == memory[..|text|][0] == text[0];
      assert memory[1..][..|text| - 1] == memory[..|text|][1..] == text[1..];
      CStringOf(memory[1..], text[1..]);
    }
  }

  /** parse_string at `offset`. */
  function ParseString(content: string, offset: nat): (r: Parsed<string>)
    requires offset < |content|
    ensures r.Parsed? ==> offset + 1 < r.offset <= |content|
  {
    if content[offset] != QUOTE then Failed
    else match FindEnd(content, offset + 1)
      case None => Failed
      case Some(end) =>
        match Unescape(content, offset + 1, end)
        case None => Failed
        case Some(output) => Parsed(CString(output), end + 1)
  }

  /**
   A \u escape at `i` without four hexadecimal digits cuts the string short: whatever the second pass has
   yielded `before` it is all that a reader of the C string sees.
   */
  lemma BadDigitsCutString(content: string, offset: nat, i: nat, end: nat, before: string, behind: string)
    requires offset < |content| && content[offset] == QUOTE && FindEnd(content, offset + 1) == Some(end)
    requires i + 6 <= end && content[i] == BACKSLASH && content[i + 1] == 'u' && !AllHex(content[i + 2..i + 6])
    requires Unescape(content, i, end) == Some(behind)
    requires Unescape(content, offset + 1, end) == Some(before + behind) && NUL !in before
    ensures ParseString(content, offset) == Parsed(before, end + 1)
  {
    SingleEscapeMeansItsCodePoint(content, i, end);
    assert NextPiece(content, i, end) == Some(Literal(6, [NUL]));
    assert behind != [] && behind[0] == NUL;
    hide Unescape, FindEnd, UnicodeEscape, NextPiece;
    CStringOf(before + behind, before);
  }

  /** The text "a\uZZZZb" in quotes is accepted and yields "a". */
  lemma BadDigitsAreAccepted()
    ensures ParseString([QUOTE, 'a', BACKSLASH, 'u', 'Z', 'Z', 'Z', 'Z', 'b', QUOTE], 0) == Parsed("a", 10)
  {
    var content := [QUOTE, 'a', BACKSLASH, 'u', 'Z', 'Z', 'Z', 'Z', 'b', QUOTE];
    assert FindEnd(content, 8) == Some(9);
    assert FindEnd(content, 6) == FindEnd(content, 7) == FindEnd(content, 8);
    assert FindEnd(content, 4) == FindEnd(content, 5) == FindEnd(content, 6);
    assert FindEnd(content, 1) == FindEnd(content, 2) == FindEnd(content, 4);
    assert content[4..8] == ['Z', 'Z', 'Z', 'Z'] && !IsHex(content[4..8][0]);
    hide FindEnd, UnicodeEscape, ParseString;
    SingleEscapeMeansItsCodePoint(content, 2, 9);
    assert Unescape(content, 9, 9) == Some([]);
    assert NextPiece(content, 8, 9) == Some(Literal(1, ['b'])) && ['b'] + [] == ['b'];
    assert Unescape(content, 8, 9) == Some(['b']);
    assert Unescape(content, 2, 9) == Some([NUL] + ['b']);
    assert Unescape(content, 1, 9) == Some("a" + ([NUL] + ['b']));
    BadDigitsCutString(content, 0, 2, 9, "a", [NUL] + ['b']);
  }

  // ---- Round trip ----

  /** `part` stands in `content` at position `i`. */
  predicate At(content: string, i: nat, part: string) {
    i + |part| <= |content| && forall k :: 0 <= k < |part| ==> content[i + k] == part[k]
  }

  lemma AtIndex(content: string, i: nat, part: string, k: nat)
    requires At(content, i, part) && k < |part|
    ensures i + |part| <= |content| && content[i + k] == part[k]
  {
  }

  lemma AtSplit(content: string, i: nat, a: string, b: string)
    requires At(content, i, a + b)
    ensures At(content, i, a) && At(content, i + |a|, b)
    ensures i + |a| + |b| <= |content|
  {
    forall k | 0 <= k < |a|
      ensures content[i + k] == a[k]
    {
      assert (a + b)[k] == a[k];
    }
    forall k | 0 <= k < |b|
      ensures content[i + |a| + k] == b[k]
    {
      assert (a + b)[|a| + k] == b[k];
    }
  }

  /** The first pass steps over the escape sequence of one character. */
  lemma FindEndSkipsChar(content: string, i: nat, c: char)
    requires At(content, i, EscapeChar(c)) && i + |EscapeChar(c)| < |content|
    ensures FindEnd(content, i) == FindEnd(content, i + |EscapeChar(c)|)
  {
    var e := EscapeChar(c);
    forall k | 0 <= k < |e|
      ensures content[i + k] == e[k]
    {
      AtIndex(content, i, e, k);
    }
    assert content[i + 0] == e[0] && (|e| > 1 ==> content[i + 1] == e[1]);
    if |e| == 6 {
      assert content[i + 2] == e[2] && content[i + 3] == e[3] && content[i + 4] == e[4] && content[i + 5] == e[5];
      assert content[i + 2] == '0' && content[i + 3] == '0';
      assert FindEnd(content, i) == FindEnd(content, i + 2) == FindEnd(content, i + 3) == FindEnd(content, i + 4);
      assert FindEnd(content, i + 4) == FindEnd(content, i + 5) == FindEnd(content, i + 6);
    }
  }

  lemma FindEndAtQuote(content: string, i: nat)
    requires i < |content| && content[i] == QUOTE
    ensures FindEnd(content, i) == Some(i)
  {
  }

  lemma {:induction false} FindEndOfPrinted(content: string, i: nat, s: string)
    requires At(content, i, Escape(s) + [QUOTE])
    ensures FindEnd(content, i) == Some(i + |Escape(s)|)
    decreases |s|
  {
    hide *;
    EscapeStep(s);
    if s == [] {
      NothingAdded([QUOTE]);
      AtIndex(content, i, [QUOTE], 0);
      FindEndAtQuote(content, i);
    } else {
      var head, tail := EscapeChar(s[0]), Escape(s[1..]) + [QUOTE];
      Assoc(head, Escape(s[1..]), [QUOTE]);
      AtSplit(content, i, head, tail);
      FindEndSkipsChar(content, i, s[0]);
      FindEndOfPrinted(content, i + |head|, s[1..]);
    }
  }

  /** The second pass turns the escape sequence of one character back into it. */
  lemma PieceOfChar(content: string, i: nat, end: nat, c: char)
    requires At(content, i, EscapeChar(c)) && i + |EscapeChar(c)| <= end < |content|
    ensures NextPiece(content, i, end) == Some(Literal(|EscapeChar(c)|, [c]))
  {
    var e := EscapeChar(c);
    forall k | 0 <= k < |e|
      ensures content[i + k] == e[k]
    {
      AtIndex(content, i, e, k);
    }
    assert content[i + 0] == e[0] && (|e| > 1 ==> content[i + 1] == e[1]);
    if |e| == 6 {
      assert content[i + 2] == e[2] && content[i + 3] == e[3] && content[i + 4] == e[4] && content[i + 5] == e[5];
      var v := c as int;
      var hex := content[i + 2..i + 6];
      assert hex == ['0', '0', HexDigit(v / 16), HexDigit(v % 16)];
      assert HexValue(HexDigit(v / 16)) == v / 16 && HexValue(HexDigit(v % 16)) == v % 16;
      assert ParseHex4(hex) == v;
      assert Utf8(v) == [c];
    }
  }

  lemma UnescapeStep(content: string, i: nat, end: nat, c: char, length: nat, rest: string)
    requires i < end < |content| && NextPiece(content, i, end) == Some(Literal(length, [c]))
    requires Unescape(content, i + length, end) == Some(rest)
    ensures Unescape(content, i, end) == Some([c] + rest)
  {
    hide NextPiece;
  }

  lemma EscapeStep(s: string)
    ensures s == [] ==> Escape(s) == []
    ensures s != [] ==> Escape(s) == EscapeChar(s[0]) + Escape(s[1..]) && s == [s[0]] + s[1..]
    ensures s != [] ==> |Escape(s)| == |EscapeChar(s[0])| + |Escape(s[1..])|
  {
  }

  lemma UnescapeNothing(content: string, i: nat)
    requires i < |content|
    ensures Unescape(content, i, i) == Some([])
  {
  }

  lemma {:induction false} UnescapeOfPrinted(content: string, i: nat, s: string)
    requires At(content, i, Escape(s)) && i + |Escape(s)| < |content|
    ensures Unescape(content, i, i + |Escape(s)|) == Some(s)
    decreases |s|
  {
    hide *;
    EscapeStep(s);
    if s == [] {
      UnescapeNothing(content, i);
    } else {
      var head, tail := EscapeChar(s[0]), Escape(s[1..]);
      var end := i + |head| + |tail|;
      AtSplit(content, i, head, tail);
      PieceOfChar(content, i, end, s[0]);
      UnescapeOfPrinted(content, i + |head|, s[1..]);
      EscapeIsNonEmpty(s[0]);
      UnescapeStep(content, i, end, s[0], |head|, s[1..]);
    }
  }

  lemma EscapeIsNonEmpty(c: char)
    ensures EscapeChar(c) != []
  {
  }

  /** What the two passes say about the text behind an opening quote, together. */
  lemma ParseStringOfPasses(content: string, offset: nat, end: nat, s: string)
    requires offset < |content| && content[offset] == QUOTE && NUL !in s
    requires FindEnd(content, offset + 1) == Some(end) && Unescape(content, offset + 1, end) == Some(s)
    ensures ParseString(content, offset) == Parsed(s, end + 1)
  {
    CStringIsIdentity(s);
  }

  lemma PrintStringIs(s: string)
    ensures PrintString(s) == [QUOTE] + (Escape(s) + [QUOTE]) && |PrintString(s)| == |Escape(s)| + 2
  {
    hide Escape;
  }

  /** Parsing a printed C string gives the string back and stops right behind the closing quote. */
  lemma StringRoundTrip(content: string, offset: nat, s: string)
    requires NUL !in s && At(content, offset, PrintString(s))
    ensures ParseString(content, offset) == Parsed(s, offset + |PrintString(s)|)
  {
    hide *;
    PrintStringIs(s);
    AtSplit(content, offset, [QUOTE], Escape(s) + [QUOTE]);
    AtIndex(content, offset, [QUOTE], 0);
    AtSplit(content, offset + 1, Escape(s), [QUOTE]);
    FindEndOfPrinted(content, offset + 1, s);
    UnescapeOfPrinted(content, offset + 1, s);
    ParseStringOfPasses(content, offset, offset + 1 + |Escape(s)|, s);
  }

  // ---- Sizes ----

  function Extra(s: string): nat {
    if s == [] then 0 else ExtraChars(s[0]) + Extra(s[1..])
  }

  /** The length counted by the printer's first pass is the length its second pass writes. */
  lemma {:induction false} CountedLengthIsWritten(s: string)
    ensures |Escape(s)| == |s| + Extra(s)
    ensures Extra(s) == 0 ==> Escape(s) == s
  {
    if s != [] {
      CountedLengthIsWritten(s[1..]);
      assert s == [s[0]] + s[1..];
    }
  }

  /**
   Output space the second pass still has from position `i` on, when the first pass stands at `j`. The
   two passes can be one character apart, since a \u escape may end in the middle of an escaped pair.
   */
  function Room(content: string, i: nat, j: nat, end: nat): int
    requires FindEnd(content, j) == Some(end)
  {
    end + 1 - i - Skipped(content, j, end)
  }

  predicate InStep(content: string, i: nat, j: nat, end: nat) {
    FindEnd(content, j) == Some(end) && if i <= end then j == i || j == i + 1 else i == end + 1 && j == end
  }

  lemma RoomIsNonNegative(content: string, i: nat, j: nat, end: nat)
    requires InStep(content, i, j, end)
    ensures Room(content, i, j, end) >= 0
  {
  }

  /** The first pass, moved on from `j` until it has reached `target`. */
  lemma {:induction false} Catch(content: string, j: nat, target: nat, end: nat) returns (j': nat)
    requires FindEnd(content, j) == Some(end) && j <= target <= end
    ensures FindEnd(content, j') == Some(end) && target <= j' <= target + 1 && j' <= end
    ensures 2 * (Skipped(content, j, end) - Skipped(content, j', end)) <= j' - j
    decreases target - j
  {
    if j == target {
      j' := j;
    } else if content[j] == BACKSLASH && j + 1 == target {
      j' := j + 2;
    } else {
      j' := Catch(content, if content[j] == BACKSLASH then j + 2 else j + 1, target, end);
    }
  }

  /** Each round of the second pass produces no more than the space it gives up. */
  lemma RoomStep(content: string, i: nat, j: nat, end: nat) returns (j': nat)
    requires InStep(content, i, j, end) && i < end && NextPiece(content, i, end).Some?
    ensures var piece := NextPiece(content, i, end).value;
            && InStep(content, i + piece.length, j', end)
            && |piece.bytes| + Room(content, i + piece.length, j', end) <= Room(content, i, j, end)
  {
    var piece := NextPiece(content, i, end).value;
    var next := i + piece.length;
    if piece.length == 1 {
      j' := i + 1;
      if j == i {
        assert Skipped(content, j, end) == Skipped(content, j', end);
      }
    } else if piece.length == 2 && j == i {
      j' := i + 2;
      assert Skipped(content, j, end) == 1 + Skipped(content, j', end);
    } else if next > end {
      j' := end;
    } else {
      j' := Catch(content, j, next, end);
    }
  }

  lemma InStepIs(content: string, i: nat, j: nat, end: nat)
    requires InStep(content, i, j, end)
    ensures end < |content| && FindEnd(content, j) == Some(end)
  {
  }

  lemma UnescapeIs(content: string, i: nat, end: nat)
    requires end < |content|
    ensures i >= end ==> Unescape(content, i, end) == Some([])
    ensures i < end && Unescape(content, i, end).Some? ==>
              var piece := NextPiece(content, i, end);
              && piece.Some? && Unescape(content, i + piece.value.length, end).Some?
              && |Unescape(content, i, end).value| ==
                 |piece.value.bytes| + |Unescape(content, i + piece.value.length, end).value|
  {
    hide NextPiece;
  }

  /** parse_string never writes more than the allocation_length it computed, for any accepted input. */
  lemma {:induction false} AllocationBoundsOutput(content: string, i: nat, j: nat, end: nat)
    requires InStep(content, i, j, end) && Unescape(content, i, end).Some?
    ensures |Unescape(content, i, end).value| <= Room(content, i, j, end)
    decreases end - i
  {
    hide *;
    if i >= end {
      RoomIsNonNegative(content, i, j, end);
      InStepIs(content, i, j, end);
      UnescapeIs(content, i, end);
    } else {
      InStepIs(content, i, j, end);
      UnescapeIs(content, i, end);
      var j' := RoomStep(content, i, j, end);
      AllocationBoundsOutput(content, i + NextPiece(content, i, end).value.length, j', end);
    }
  }
}
