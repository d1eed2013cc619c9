/**
 Texts by the grammar of RFC 8259, and what they mean, apart from the code: strings with every kind of escape,
 numbers with fraction and exponent, and any white space the grammar allows. The parser of
 src/Libs/cJSON/cJSON.c accepts all of them as what they mean, within its limits, and the printer writes them.
 */
module JsonGrammar {
  import opened Sequences
  import opened Options
  import opened JsonString
  import opened JsonText
  import opened JsonRoundTrip

  // ---- Strings: section 7 ----

  /** One of the letters below. */
  type Letter = k: nat | k < 8

  /** One character of a string: as it is, or escaped by a letter, by a code unit or by a surrogate pair. */
  datatype Piece = Plainly(c: char) | Short(letter: Letter) | Unit(digits: string) | Pair(high: string, low: string)

  /** The letters that follow a backslash, and the characters they stand for. */
  const LETTERS := "bfnrt\"\\/"
  const MEANINGS := [8 as char, 12 as char, 10 as char, 13 as char, 9 as char, 34 as char, 92 as char, 47 as char]

  ghost predicate IsUnit(digits: string, low: nat, high: nat) {
    |digits| == 4 && CodeUnit(digits).Some? && low <= CodeUnit(digits).value <= high
  }

  ghost predicate IsPiece(p: Piece) {
    match p
    case Plainly(c) => c != '\"' && c != '\\'
    case Short(_) => true
    case Unit(digits) => IsUnit(digits, 0, 0xD7FF) || IsUnit(digits, 0xE000, 0xFFFF)
    case Pair(high, low) => IsUnit(high, 0xD800, 0xDBFF) && IsUnit(low, 0xDC00, 0xDFFF)
  }

  /** RFC 8259 wants control characters escaped; the parser takes them as they are. */
  ghost predicate AreEscaped(ps: seq<Piece>) {
    forall i :: 0 <= i < |ps| ==> match ps[i] case Plainly(c) => c as int >= 32 case _ => true
  }

  ghost function Spelled(p: Piece): string {
    match p
    case Plainly(c) => [c]
    case Short(letter) => ['\\', LETTERS[letter]]
    case Unit(digits) => "\\u" + digits
    case Pair(high, low) => "\\u" + high + "\\u" + low
  }

  /** The bytes a piece means: a character, or the UTF-8 form of a code point. */
  ghost predicate Means(p: Piece, bytes: string)
    requires IsPiece(p)
  {
    match p
    case Plainly(c) => bytes == [c]
    case Short(letter) => bytes == [MEANINGS[letter]]
    case Unit(digits) => DecodeUtf8(bytes) == CodeUnit(digits)
    case Pair(high, low) =>
      DecodeUtf8(bytes) == Some(0x10000 + (CodeUnit(high).value - 0xD800) * 0x400 + (CodeUnit(low).value - 0xDC00))
  }

  ghost predicate ArePieces(ps: seq<Piece>) {
    forall i :: 0 <= i < |ps| ==> IsPiece(ps[i])
  }

  ghost function SpellPieces(ps: seq<Piece>): string {
    if ps == [] then [] else Spelled(ps[0]) + SpellPieces(ps[1..])
  }

  ghost predicate MeanTogether(ps: seq<Piece>, bytes: string)
    requires ArePieces(ps)
  {
    if ps == [] then bytes == []
    else exists k: nat :: k <= |bytes| && Means(ps[0], bytes[..k]) && MeanTogether(ps[1..], bytes[k..])
  }

  /** A string of the grammar and the bytes it means. */
  ghost predicate IsString(ps: seq<Piece>, bytes: string) {
    ArePieces(ps) && MeanTogether(ps, bytes)
  }

  ghost function SpellString(ps: seq<Piece>): string {
    ['\"'] + (SpellPieces(ps) + ['\"'])
  }

  /** The code points have one UTF-8 form only. */
  lemma DecodingIsInjective(a: string, b: string)
    requires DecodeUtf8(a).Some? && DecodeUtf8(a) == DecodeUtf8(b)
    ensures a == b
  {
    var cp := DecodeUtf8(a).value;
    DecodedIsForm(a);
    DecodedIsForm(b);
    hide DecodeUtf8, Utf8;
  }

  lemma Sextets(x: int, y: int)
    ensures x >= 0 && 0 <= y < 64 ==> (x * 64 + y) / 64 == x && (x * 64 + y) % 64 == y
  {
  }

  lemma FourBytes(b: string)
    requires |b| == 4 && DecodeUtf8(b).Some?
    ensures DecodeUtf8(b).value <= 0x10FFFF && b == Utf8(DecodeUtf8(b).value)
  {
    var x, y, z, w := b[0] as int - 0xF0, b[1] as int - 0x80, b[2] as int - 0x80, b[3] as int - 0x80;
    Sextets(x, y);
    Sextets(x * 64 + y, z);
    Sextets((x * 64 + y) * 64 + z, w);
  }

  lemma DecodedIsForm(b: string)
    requires DecodeUtf8(b).Some?
    ensures DecodeUtf8(b).value <= 0x10FFFF && b == Utf8(DecodeUtf8(b).value)
  {
    var n := |b|;
    if n == 2 {
      Sextets(b[0] as int - 0xC0, b[1] as int - 0x80);
    } else if n == 3 {
      Sextets(b[0] as int - 0xE0, b[1] as int - 0x80);
      Sextets((b[0] as int - 0xE0) * 64 + (b[1] as int - 0x80), b[2] as int - 0x80);
    } else if n == 4 {
      FourBytes(b);
    }
  }

  lemma LetterIs(letter: Letter)
    ensures LETTERS[letter] != 'u' && SimpleEscape(LETTERS[letter]) == Some(MEANINGS[letter])
  {
  }

  /** The range of a text at its place. */
  lemma AtRange(content: string, i: nat, text: string, j: nat, k: nat)
    requires At(content, i, text) && j <= k <= |text|
    ensures i + |text| <= |content| && content[i + j..i + k] == text[j..k]
  {
    forall m | j <= m < k
      ensures content[i + m] == text[m]
    {
      AtIndex(content, i, text, m);
    }
    if text != [] {
      AtIndex(content, i, text, |text| - 1);
    }
  }

  /** One round of the second pass on a piece yields what it means, and nothing else means the same piece. */
  lemma PieceIsRead(p: Piece, content: string, i: nat, end: nat)
    requires IsPiece(p) && At(content, i, Spelled(p)) && i + |Spelled(p)| <= end < |content|
    ensures Spelled(p) != []
    ensures var r := NextPiece(content, i, end);
            && r.Some? && r.value.length == |Spelled(p)| && Means(p, r.value.bytes)
            && forall b :: Means(p, b) ==> b == r.value.bytes
  {
    AtIndex(content, i, Spelled(p), 0);
    match p
    case Plainly(c) =>
    case Short(letter) =>
      AtIndex(content, i, Spelled(p), 1);
      LetterIs(letter);
    case Unit(digits) =>
      AtIndex(content, i, Spelled(p), 1);
      UnitIsRead(digits, content, i, end);
    case Pair(high, low) =>
      AtIndex(content, i, Spelled(p), 1);
      PairIsRead(high, low, content, i, end);
  }

  lemma UnitText(digits: string)
    requires |digits| == 4
    ensures var text := "\\u" + digits;
            |text| == 6 && text[0] == '\\' && text[1] == 'u' && text[2..6] == digits
  {
  }

  lemma PairText(high: string, low: string)
    requires |high| == 4 && |low| == 4
    ensures var text := "\\u" + high + "\\u" + low;
            && |text| == 12 && text[2..6] == high && text[6] == '\\' && text[7] == 'u' && text[8..12] == low
            && text == ("\\u" + high) + ("\\u" + low)
  {
  }

  /** What a unit and a pair are and mean, in terms of their code units. */
  lemma UnitsAre(high: string, low: string)
    ensures IsPiece(Unit(high)) ==>
              && |high| == 4 && CodeUnit(high).Some?
              && (0 <= CodeUnit(high).value <= 0xD7FF || 0xE000 <= CodeUnit(high).value <= 0xFFFF)
    ensures IsPiece(Pair(high, low)) ==>
              && |high| == 4 && CodeUnit(high).Some? && 0xD800 <= CodeUnit(high).value <= 0xDBFF
              && |low| == 4 && CodeUnit(low).Some? && 0xDC00 <= CodeUnit(low).value <= 0xDFFF
    ensures IsPiece(Pair(high, low)) ==>
              forall b :: Means(Pair(high, low), b) <==>
                DecodeUtf8(b) == Some(0x10000 + (CodeUnit(high).value - 0xD800) * 0x400 + (CodeUnit(low).value - 0xDC00))
  {
    hide CodeUnit, DecodeUtf8;
  }

  /** Two texts that decode to the same code point are the same. */
  lemma OnlyForm(a: string, cp: nat)
    requires DecodeUtf8(a) == Some(cp)
    ensures forall b :: DecodeUtf8(b) == Some(cp) ==> b == a
  {
    hide DecodeUtf8;
    forall b | DecodeUtf8(b) == Some(cp)
      ensures b == a
    {
      DecodingIsInjective(a, b);
    }
  }

  lemma UnitIsRead(digits: string, content: string, i: nat, end: nat)
    requires IsPiece(Unit(digits)) && At(content, i, "\\u" + digits) && i + 6 <= end < |content|
    ensures var r := UnicodeEscape(content, i, end);
            && r.Some? && r.value.length == 6 && DecodeUtf8(r.value.bytes) == CodeUnit(digits)
            && forall b :: DecodeUtf8(b) == CodeUnit(digits) ==> b == r.value.bytes
  {
    hide *;
    UnitsAre(digits, digits);
    UnitText(digits);
    AtRange(content, i, "\\u" + digits, 2, 6);
    SingleEscapeMeansItsCodePoint(content, i, end);
    ParseHex4IsCodeUnit(digits);
    OnlyForm(UnicodeEscape(content, i, end).value.bytes, CodeUnit(digits).value);
  }

  lemma PairIsRead(high: string, low: string, content: string, i: nat, end: nat)
    requires IsPiece(Pair(high, low)) && At(content, i, "\\u" + high + "\\u" + low) && i + 12 <= end < |content|
    ensures var r := UnicodeEscape(content, i, end);
            && r.Some? && r.value.length == 12 && Means(Pair(high, low), r.value.bytes)
            && forall b :: Means(Pair(high, low), b) ==> b == r.value.bytes
  {
    hide *;
    var text := "\\u" + high + "\\u" + low;
    UnitsAre(high, low);
    PairText(high, low);
    AtRange(content, i, text, 2, 6);
    AtRange(content, i, text, 8, 12);
    AtIndex(content, i, text, 6);
    AtIndex(content, i, text, 7);
    PairEscapeMeansItsCodePoint(content, i, end);
    OnlyForm(UnicodeEscape(content, i, end).value.bytes,
             0x10000 + (CodeUnit(high).value - 0xD800) * 0x400 + (CodeUnit(low).value - 0xDC00));
  }

  lemma {:induction false} SkipUnmarked(content: string, i: nat, n: nat)
    requires i + n <= |content| && forall k :: i <= k < i + n ==> content[k] != '\"' && content[k] != '\\'
    ensures FindEnd(content, i) == FindEnd(content, i + n)
    decreases n
  {
    if n > 0 {
      SkipUnmarked(content, i + 1, n - 1);
    }
  }

  lemma DigitsAreUnmarked(digits: string)
    requires |digits| == 4 && CodeUnit(digits).Some?
    ensures forall k :: 0 <= k < 4 ==> digits[k] != '\"' && digits[k] != '\\'
  {
    ParseHex4IsCodeUnit(digits);
    hide CodeUnit;
  }

  /** The first pass steps over a backslash with its letter, and over the digits of a unit. */
  lemma UnitIsSkipped(digits: string, content: string, i: nat)
    requires |digits| == 4 && CodeUnit(digits).Some? && At(content, i, "\\u" + digits)
    ensures FindEnd(content, i) == FindEnd(content, i + 6)
  {
    var text := "\\u" + digits;
    AtRange(content, i, text, 0, 6);
    AtIndex(content, i, text, 0);
    DigitsAreUnmarked(digits);
    forall k | i + 2 <= k < i + 6
      ensures content[k] != '\"' && content[k] != '\\'
    {
      AtIndex(content, i, text, k - i);
      assert text[k - i] == digits[k - i - 2];
    }
    SkipUnmarked(content, i + 2, 4);
    hide CodeUnit, At;
  }

  lemma PairIsSkipped(high: string, low: string, content: string, i: nat)
    requires |high| == 4 && CodeUnit(high).Some? && |low| == 4 && CodeUnit(low).Some?
    requires At(content, i, "\\u" + high + "\\u" + low)
    ensures FindEnd(content, i) == FindEnd(content, i + 12)
  {
    hide *;
    PairText(high, low);
    UnitText(high);
    AtSplit(content, i, "\\u" + high, "\\u" + low);
    UnitIsSkipped(high, content, i);
    UnitIsSkipped(low, content, i + 6);
  }

  lemma ShortIsSkipped(letter: Letter, content: string, i: nat)
    requires At(content, i, ['\\', LETTERS[letter]])
    ensures FindEnd(content, i) == FindEnd(content, i + 2)
  {
    AtIndex(content, i, ['\\', LETTERS[letter]], 0);
    AtIndex(content, i, ['\\', LETTERS[letter]], 1);
  }

  lemma PlainIsSkipped(c: char, content: string, i: nat)
    requires c != '\"' && c != '\\' && At(content, i, [c])
    ensures FindEnd(content, i) == FindEnd(content, i + 1)
  {
    AtIndex(content, i, [c], 0);
  }

  /** What a piece is and is spelled as, case by case. */
  lemma PieceIs(p: Piece)
    requires IsPiece(p)
    ensures p.Plainly? ==> p.c != '\"' && p.c != '\\' && Spelled(p) == [p.c]
    ensures p.Short? ==> Spelled(p) == ['\\', LETTERS[p.letter]]
    ensures p.Unit? ==> |p.digits| == 4 && CodeUnit(p.digits).Some? && Spelled(p) == "\\u" + p.digits
    ensures p.Pair? ==>
              && |p.high| == 4 && CodeUnit(p.high).Some? && |p.low| == 4 && CodeUnit(p.low).Some?
              && Spelled(p) == "\\u" + p.high + "\\u" + p.low
  {
    hide CodeUnit;
  }

  lemma PieceIsSkipped(p: Piece, content: string, i: nat)
    requires IsPiece(p) && At(content, i, Spelled(p))
    ensures FindEnd(content, i) == FindEnd(content, i + |Spelled(p)|)
  {
    hide *;
    PieceIs(p);
    match p
    case Plainly(c) =>
      PlainIsSkipped(c, content, i);
    case Short(letter) =>
      ShortIsSkipped(letter, content, i);
    case Unit(digits) =>
      UnitText(digits);
      UnitIsSkipped(digits, content, i);
    case Pair(high, low) =>
      PairText(high, low);
      PairIsSkipped(high, low, content, i);
  }

  lemma PiecesAre(ps: seq<Piece>)
    requires ArePieces(ps)
    ensures ps == [] ==> SpellPieces(ps) == []
    ensures ps != [] ==>
              && IsPiece(ps[0]) && ArePieces(ps[1..]) && SpellPieces(ps) == Spelled(ps[0]) + SpellPieces(ps[1..])
              && |SpellPieces(ps)| == |Spelled(ps[0])| + |SpellPieces(ps[1..])|
  {
    hide IsPiece, Spelled;
  }

  lemma EndsHere(content: string, i: nat)
    requires i < |content| && content[i] == '\"'
    ensures FindEnd(content, i) == Some(i)
  {
  }

  lemma {:induction false} FindEndOfPieces(ps: seq<Piece>, content: string, i: nat)
    requires ArePieces(ps) && At(content, i, SpellPieces(ps) + ['\"'])
    ensures FindEnd(content, i) == Some(i + |SpellPieces(ps)|)
    decreases ps
  {
    hide *;
    PiecesAre(ps);
    if ps == [] {
      NothingAdded(['\"']);
      AtIndex(content, i, ['\"'], 0);
      EndsHere(content, i);
    } else {
      var first, rest := Spelled(ps[0]), SpellPieces(ps[1..]);
      Assoc(first, rest, ['\"']);
      AtSplit(content, i, first, rest + ['\"']);
      PieceIsSkipped(ps[0], content, i);
      FindEndOfPieces(ps[1..], content, i + |first|);
    }
  }

  lemma MeaningOfFirst(ps: seq<Piece>, s: string) returns (k: nat)
    requires ArePieces(ps) && MeanTogether(ps, s)
    ensures k <= |s| && (ps == [] ==> s == [])
    ensures ps != [] ==> IsPiece(ps[0]) && ArePieces(ps[1..]) && Means(ps[0], s[..k]) && MeanTogether(ps[1..], s[k..])
  {
    hide Means, IsPiece;
    k := 0;
    if ps != [] {
      k :| k <= |s| && Means(ps[0], s[..k]) && MeanTogether(ps[1..], s[k..]);
    }
  }

  lemma UnescapeOnce(content: string, i: nat, end: nat, bytes: string, length: nat, rest: string)
    requires i < end < |content| && NextPiece(content, i, end) == Some(Literal(length, bytes))
    requires Unescape(content, i + length, end) == Some(rest)
    ensures Unescape(content, i, end) == Some(bytes + rest)
  {
    hide NextPiece;
  }

  lemma {:induction false} UnescapeOfPieces(ps: seq<Piece>, s: string, content: string, i: nat)
    requires ArePieces(ps) && MeanTogether(ps, s)
    requires At(content, i, SpellPieces(ps)) && i + |SpellPieces(ps)| < |content|
    ensures Unescape(content, i, i + |SpellPieces(ps)|) == Some(s)
    decreases ps
  {
    hide *;
    PiecesAre(ps);
    var k := MeaningOfFirst(ps, s);
    if ps == [] {
      UnescapeNothing(content, i);
    } else {
      var first, rest := Spelled(ps[0]), SpellPieces(ps[1..]);
      var end := i + |first| + |rest|;
      AtSplit(content, i, first, rest);
      PieceIsRead(ps[0], content, i, end);
      UnescapeOfPieces(ps[1..], s[k..], content, i + |first|);
      UnescapeOnce(content, i, end, s[..k], |first|, s[k..]);
      assert s == s[..k] + s[k..];
    }
  }

  /** Every string of the grammar, raw control characters included, is read as the bytes it means, up to a NUL. */
  lemma StringIsRead(ps: seq<Piece>, bytes: string, content: string, i: nat)
    requires IsString(ps, bytes) && At(content, i, SpellString(ps))
    ensures i < |content| && ParseString(content, i) == Parsed(CString(bytes), i + |SpellString(ps)|)
  {
    hide *;
    StringParts(ps, bytes);
    var text := SpellPieces(ps);
    AtSplit(content, i, ['\"'], text + ['\"']);
    AtIndex(content, i, ['\"'], 0);
    AtSplit(content, i + 1, text, ['\"']);
    AtIndex(content, i + 1 + |text|, ['\"'], 0);
    FindEndOfPieces(ps, content, i + 1);
    UnescapeOfPieces(ps, bytes, content, i + 1);
    StringOfPasses(content, i, i + 1 + |text|, bytes);
  }

  lemma StringOfPasses(content: string, i: nat, end: nat, bytes: string)
    requires i < |content| && content[i] == '\"'
    requires FindEnd(content, i + 1) == Some(end) && Unescape(content, i + 1, end) == Some(bytes)
    ensures ParseString(content, i) == Parsed(CString(bytes), end + 1)
  {
    hide FindEnd, Unescape, CString;
  }

  lemma StringParts(ps: seq<Piece>, bytes: string)
    requires IsString(ps, bytes)
    ensures ArePieces(ps) && MeanTogether(ps, bytes)
    ensures SpellString(ps) == ['\"'] + (SpellPieces(ps) + ['\"']) && |SpellString(ps)| == |SpellPieces(ps)| + 2
  {
  }

  // ---- Printed strings are strings of the grammar ----

  /** The digits of the unit for a control character. */
  ghost function LowDigits(v: nat): string
    requires v < 32
  {
    ['0', '0', LOWER_DIGITS[v / 16], LOWER_DIGITS[v % 16]]
  }

  ghost function LetterOf(c: char): Option<Letter> {
    if c == MEANINGS[0] then Some(0) else if c == MEANINGS[1] then Some(1) else if c == MEANINGS[2] then Some(2)
    else if c == MEANINGS[3] then Some(3) else if c == MEANINGS[4] then Some(4) else if c == MEANINGS[5] then Some(5)
    else if c == MEANINGS[6] then Some(6) else None
  }

  ghost function PieceOf(c: char): Piece {
    match LetterOf(c)
    case Some(letter) => Short(letter)
    case None => if c as int < 32 then Unit(LowDigits(c as int)) else Plainly(c)
  }

  ghost function PiecesOf(s: string): seq<Piece> {
    if s == [] then [] else [PieceOf(s[0])] + PiecesOf(s[1..])
  }

  lemma LowerDigitIs(v: nat)
    requires v < 16
    ensures IsHex(LOWER_DIGITS[v]) && HexValue(LOWER_DIGITS[v]) == v
  {
    DigitOf(LOWER_DIGITS[v], v);
    hide IsHex, HexValue;
  }

  lemma LowDigitsAre(v: nat)
    requires v < 32
    ensures v / 16 < 2 && v == v / 16 * 16 + v % 16
    ensures var digits := LowDigits(v);
            && |digits| == 4 && digits[0] == digits[1] == LOWER_DIGITS[0]
            && digits[2] == LOWER_DIGITS[v / 16] && digits[3] == LOWER_DIGITS[v % 16]
  {
  }

  lemma LowUnit(v: nat)
    requires v < 32
    ensures |LowDigits(v)| == 4 && CodeUnit(LowDigits(v)) == Some(v)
  {
    hide *;
    LowDigitsAre(v);
    LowerDigitIs(0);
    LowerDigitIs(v / 16);
    LowerDigitIs(v % 16);
    LowUnitOfDigits(LowDigits(v), v / 16, v % 16);
  }

  lemma LowUnitOfDigits(digits: string, x: nat, y: nat)
    requires |digits| == 4 && x < 2 && y < 16
    requires forall i :: 0 <= i < 4 ==> IsHex(digits[i])
    requires HexValue(digits[0]) == 0 && HexValue(digits[1]) == 0
    requires HexValue(digits[2]) == x && HexValue(digits[3]) == y
    ensures CodeUnit(digits) == Some(x * 16 + y)
  {
    ParseHex4IsCodeUnit(digits);
    hide CodeUnit, IsHex, HexValue;
  }

  lemma LetterOfIs(c: char)
    ensures match LetterOf(c)
            case Some(letter) => letter < 7 && EscapeChar(c) == ['\\', LETTERS[letter]] && MEANINGS[letter] == c
            case None => c != '\"' && c != '\\' && (c as int >= 32 ==> EscapeChar(c) == [c])
    ensures LetterOf(c).None? && c as int < 32 ==>
              EscapeChar(c) == ['\\', 'u', '0', '0', HexDigit(c as int / 16), HexDigit(c as int % 16)]
  {
  }

  lemma LowEscape(c: char)
    requires c as int < 32 && LetterOf(c).None?
    ensures EscapeChar(c) == "\\u" + LowDigits(c as int)
  {
    LetterOfIs(c);
    DigitOf('0', c as int / 16);
    DigitOf('0', c as int % 16);
    hide EscapeChar, HexDigit, LetterOf, IsHex, HexValue, IsDigitOf;
  }

  /** The piece of a character is a piece, is what print_string_ptr writes for it, and means it. */
  lemma PieceOfIsPrinted(c: char)
    ensures var p := PieceOf(c);
            && IsPiece(p) && Spelled(p) == EscapeChar(c) && Means(p, [c])
            && (p.Plainly? ==> p.c as int >= 32)
  {
    LetterOfIs(c);
    hide CodeUnit, LowDigits, LetterOf, EscapeChar;
    if LetterOf(c).None? && c as int < 32 {
      LowUnit(c as int);
      LowEscape(c);
    }
  }

  lemma PiecesStep(s: string)
    ensures s == [] ==> PiecesOf(s) == [] && Escape(s) == []
    ensures s != [] ==>
              && |PiecesOf(s)| == 1 + |PiecesOf(s[1..])| && PiecesOf(s)[0] == PieceOf(s[0])
              && PiecesOf(s)[1..] == PiecesOf(s[1..])
              && Escape(s) == EscapeChar(s[0]) + Escape(s[1..])
  {
    hide PieceOf, EscapeChar;
  }

  lemma PiecesAreJoined(ps: seq<Piece>, bytes: string)
    requires ps != [] && bytes != [] && IsPiece(ps[0]) && Means(ps[0], [bytes[0]])
    requires ArePieces(ps[1..]) && MeanTogether(ps[1..], bytes[1..])
    ensures ArePieces(ps) && MeanTogether(ps, bytes) && SpellPieces(ps) == Spelled(ps[0]) + SpellPieces(ps[1..])
  {
    hide IsPiece, Means, Spelled;
    assert ps == [ps[0]] + ps[1..];
    assert bytes[..1] == [bytes[0]];
  }

  lemma NoPieces()
    ensures ArePieces([]) && MeanTogether([], []) && SpellPieces([]) == []
  {
  }

  lemma {:induction false} EscapeIsSpelled(s: string)
    ensures ArePieces(PiecesOf(s)) && MeanTogether(PiecesOf(s), s) && SpellPieces(PiecesOf(s)) == Escape(s)
  {
    hide *;
    PiecesStep(s);
    if s == [] {
      NoPieces();
    } else {
      EscapeIsSpelled(s[1..]);
      PieceOfIsPrinted(s[0]);
      PiecesAreJoined(PiecesOf(s), s);
    }
  }

  lemma {:induction false} ControlsAreEscaped(s: string)
    ensures AreEscaped(PiecesOf(s))
  {
    if s != [] {
      PiecesStep(s);
      PieceOfIsPrinted(s[0]);
      ControlsAreEscaped(s[1..]);
      hide PieceOf, PiecesOf, IsPiece, Means, Spelled;
      assert PiecesOf(s) == [PiecesOf(s)[0]] + PiecesOf(s)[1..];
    }
  }

  /** What the printer writes for a string is a string of the grammar that means it. */
  lemma PrintedStringIsSpelled(s: string)
    ensures IsString(PiecesOf(s), s) && AreEscaped(PiecesOf(s)) && SpellString(PiecesOf(s)) == PrintString(s)
  {
    EscapeIsSpelled(s);
    ControlsAreEscaped(s);
    hide ArePieces, AreEscaped, MeanTogether, SpellPieces, Escape, PiecesOf;
  }
}
