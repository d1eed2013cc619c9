/**
 JSON texts as syntax trees with all their white space, in two grammars: that of RFC 8259, and the wider one
 that the parser of src/Libs/cJSON/cJSON.c follows. The parser reads every text of either as its value, exactly
 within the nesting limit, and all the printer writes is a text of RFC 8259. JsonLanguage shows that the wider
 grammar is all the parser accepts.
 */
module JsonSyntax {
  import opened Sequences
  import opened Options
  import opened JsonString
  import opened JsonText
  import opened JsonRoundTrip
  import opened JsonGrammar

  // ---- The grammar ----

  /** A number of section 6 of RFC 8259: digits, and where present a point with digits and an exponent. */
  datatype NumberText = NumberText(negative: bool, whole: string, fraction: string, exponent: string)

  datatype Syntax =
    | NullWord
    | FalseWord
    | TrueWord
    | Number(text: string, number: real)
    | Text(text: string, content: string)
    | List(gap: string, elements: seq<Element>)
    | Record(gap: string, entries: seq<Entry>)

  /** An element of an array with the white space around it. */
  datatype Element = Element(before: string, value: Syntax, behind: string)

  /** A member of an object with the white space around its key and its value. */
  datatype Entry = Entry(before: string, key: string, name: string, behindKey: string,
                         beforeValue: string, value: Syntax, behind: string)

  /** White space of section 2; the parser takes all characters up to the blank for white space. */
  ghost predicate IsBlank(w: string, strict: bool) {
    forall i :: 0 <= i < |w| ==>
      if strict then w[i] == ' ' || w[i] == '\t' || w[i] == '\n' || w[i] == '\r' else w[i] as int <= 32
  }

  ghost predicate AreDigits(s: string) {
    forall i :: 0 <= i < |s| ==> '0' <= s[i] <= '9'
  }

  ghost predicate IsExponent(s: string) {
    && |s| >= 2 && (s[0] == 'e' || s[0] == 'E')
    && (AreDigits(s[1..]) || (|s| >= 3 && (s[1] == '+' || s[1] == '-') && AreDigits(s[2..])))
  }

  ghost predicate IsNumber(n: NumberText) {
    && n.whole != [] && AreDigits(n.whole) && (n.whole[0] == '0' ==> |n.whole| == 1)
    && (n.fraction == [] || (|n.fraction| >= 2 && n.fraction[0] == '.' && AreDigits(n.fraction[1..])))
    && (n.exponent == [] || IsExponent(n.exponent))
  }

  ghost function SpellNumber(n: NumberText): string {
    (if n.negative then "-" else "") + n.whole + n.fraction + n.exponent
  }

  /** What parse_number takes whole: characters it copies, all of which strtod uses. */
  ghost predicate TakenWhole(c: LibC, text: string) {
    && text != [] && (text[0] == '-' || '0' <= text[0] <= '9')
    && (forall k :: 0 <= k < |text| ==> IsNumberChar(text[k]))
    && c.strtod(text).1 == |text|
  }

  /** A number and its value; one longer than parse_number copies is in neither grammar. */
  ghost predicate IsNumberOf(c: LibC, text: string, value: real, strict: bool) {
    && |text| <= 63 && c.strtod(text).0 == value
    && if strict then exists n :: IsNumber(n) && SpellNumber(n) == text else TakenWhole(c, text)
  }

  /** A string in quotes, and the C string it means: a \u0000 ends it. */
  ghost predicate IsTextOf(text: string, content: string, strict: bool) {
    if strict then
      exists ps, bytes :: IsString(ps, bytes) && AreEscaped(ps) && SpellString(ps) == text && CString(bytes) == content
    else text != [] && ParseString(text, 0) == Parsed(content, |text|)
  }

  /** A text of RFC 8259, or of the wider grammar. */
  ghost predicate IsSyntax(c: LibC, t: Syntax, strict: bool)
    decreases t
  {
    match t
    case Number(text, value) => IsNumberOf(c, text, value, strict)
    case Text(text, content) => IsTextOf(text, content, strict)
    case List(gap, elements) =>
      IsBlank(gap, strict) && forall i :: 0 <= i < |elements| ==> IsElement(c, elements[i], strict)
    case Record(gap, entries) =>
      IsBlank(gap, strict) && forall i :: 0 <= i < |entries| ==> IsEntry(c, entries[i], strict)
    case _ => true
  }

  ghost predicate IsElement(c: LibC, e: Element, strict: bool)
    decreases e
  {
    IsBlank(e.before, strict) && IsSyntax(c, e.value, strict) && IsBlank(e.behind, strict)
  }

  ghost predicate IsEntry(c: LibC, e: Entry, strict: bool)
    decreases e
  {
    && IsBlank(e.before, strict) && IsTextOf(e.key, e.name, strict) && IsBlank(e.behindKey, strict)
    && IsBlank(e.beforeValue, strict) && IsSyntax(c, e.value, strict) && IsBlank(e.behind, strict)
  }

  ghost predicate AreElements(c: LibC, elements: seq<Element>, strict: bool) {
    forall i :: 0 <= i < |elements| ==> IsElement(c, elements[i], strict)
  }

  ghost predicate AreEntries(c: LibC, entries: seq<Entry>, strict: bool) {
    forall i :: 0 <= i < |entries| ==> IsEntry(c, entries[i], strict)
  }

  ghost function Spell(t: Syntax): string
    decreases t
  {
    match t
    case NullWord => "null"
    case FalseWord => "false"
    case TrueWord => "true"
    case Number(text, _) => text
    case Text(text, _) => text
    case List(gap, elements) => "[" + if elements == [] then gap + "]" else SpellElements(elements)
    case Record(gap, entries) => "{" + if entries == [] then gap + "}" else SpellEntries(entries)
  }

  /** The elements of an array with commas between them, up to and including the closing bracket. */
  ghost function SpellElements(elements: seq<Element>): string
    requires elements != []
    decreases elements
  {
    var e := elements[0];
    e.before + (Spell(e.value) + (e.behind + if |elements| == 1 then "]" else "," + SpellElements(elements[1..])))
  }

  /** The members of an object with commas between them, up to and including the closing brace. */
  ghost function SpellEntries(entries: seq<Entry>): string
    requires entries != []
    decreases entries
  {
    var e := entries[0];
    e.before + (e.key + (e.behindKey + (":" + (e.beforeValue +
    (Spell(e.value) + (e.behind + if |entries| == 1 then "}" else "," + SpellEntries(entries[1..])))))))
  }

  ghost function ValueOf(t: Syntax): Json
    decreases t
  {
    match t
    case NullWord => JNull
    case FalseWord => JFalse
    case TrueWord => JTrue
    case Number(_, value) => JNumber(value)
    case Text(_, content) => JString(content)
    case List(gap, elements) => JArray(ValuesOf(elements))
    case Record(gap, entries) => JObject(MembersOf(entries))
  }

  ghost function ValuesOf(elements: seq<Element>): seq<Json>
    decreases elements
  {
    if elements == [] then [] else [ValueOf(elements[0].value)] + ValuesOf(elements[1..])
  }

  ghost function MembersOf(entries: seq<Entry>): seq<Member>
    decreases entries
  {
    if entries == [] then [] else [Member(entries[0].name, ValueOf(entries[0].value))] + MembersOf(entries[1..])
  }

  /** strtod takes every number of RFC 8259 whole. */
  ghost predicate TakesNumbers(c: LibC) {
    forall n :: IsNumber(n) && |SpellNumber(n)| <= 63 ==> c.strtod(SpellNumber(n)).1 == |SpellNumber(n)|
  }

  // ---- RFC 8259 is part of the wider grammar ----

  lemma BlankIsBlank(w: string, strict: bool)
    requires IsBlank(w, strict)
    ensures IsBlank(w, false)
  {
  }

  lemma StrictNumber(c: LibC, text: string, value: real)
    requires TakesNumbers(c) && IsNumberOf(c, text, value, true)
    ensures IsNumberOf(c, text, value, false)
  {
    var n :| IsNumber(n) && SpellNumber(n) == text;
    NumberIs(n);
    hide IsNumber, SpellNumber;
  }

  lemma StrictText(text: string, content: string)
    requires IsTextOf(text, content, true)
    ensures IsTextOf(text, content, false)
  {
    var ps, bytes :| IsString(ps, bytes) && SpellString(ps) == text && CString(bytes) == content;
    hide *;
    AtStart(text);
    StringIsRead(ps, bytes, text, 0);
    WiderText(text, content);
  }

  lemma AtStart(text: string)
    ensures At(text, 0, text)
  {
  }

  lemma WiderText(text: string, content: string)
    requires text != [] && ParseString(text, 0) == Parsed(content, |text|)
    ensures IsTextOf(text, content, false)
  {
    hide ParseString;
  }

  lemma {:induction false} StrictIsWider(c: LibC, t: Syntax)
    requires TakesNumbers(c) && IsSyntax(c, t, true)
    ensures IsSyntax(c, t, false)
    decreases t
  {
    hide TakesNumbers, IsNumberOf, IsTextOf, IsBlank;
    match t
    case Number(text, value) =>
      StrictNumber(c, text, value);
    case Text(text, content) =>
      StrictText(text, content);
    case List(gap, elements) =>
      BlankIsBlank(gap, true);
      forall i | 0 <= i < |elements|
        ensures IsElement(c, elements[i], false)
      {
        var e := elements[i];
        assert IsElement(c, e, true);
        BlankIsBlank(e.before, true);
        BlankIsBlank(e.behind, true);
        StrictIsWider(c, e.value);
      }
    case Record(gap, entries) =>
      BlankIsBlank(gap, true);
      forall i | 0 <= i < |entries|
        ensures IsEntry(c, entries[i], false)
      {
        var e := entries[i];
        assert IsEntry(c, e, true);
        StrictEntry(c, e);
        StrictIsWider(c, e.value);
      }
    case _ =>
  }

  lemma StrictEntry(c: LibC, e: Entry)
    requires IsEntry(c, e, true)
    ensures IsBlank(e.before, false) && IsTextOf(e.key, e.name, false) && IsBlank(e.behindKey, false)
    ensures IsBlank(e.beforeValue, false) && IsSyntax(c, e.value, true) && IsBlank(e.behind, false)
  {
    hide IsTextOf, IsBlank, IsSyntax;
    BlankIsBlank(e.before, true);
    BlankIsBlank(e.behindKey, true);
    BlankIsBlank(e.beforeValue, true);
    BlankIsBlank(e.behind, true);
    StrictText(e.key, e.name);
  }

  // ---- Every text of the grammar is read as its value ----

  lemma BlankIs(w: string)
    requires IsBlank(w, false)
    ensures forall k :: 0 <= k < |w| ==> w[k] as int <= 32 && !IsNumberChar(w[k])
  {
  }

  lemma {:induction false} ExponentIs(s: string)
    requires IsExponent(s)
    ensures forall k :: 0 <= k < |s| ==> IsNumberChar(s[k])
  {
    forall k | 0 <= k < |s|
      ensures IsNumberChar(s[k])
    {
      if k == 0 {
      } else if AreDigits(s[1..]) {
        assert s[k] == s[1..][k - 1];
      } else if k > 1 {
        assert s[k] == s[2..][k - 2];
      }
    }
  }

  lemma FractionIs(s: string)
    requires |s| >= 2 && s[0] == '.' && AreDigits(s[1..])
    ensures forall k :: 0 <= k < |s| ==> IsNumberChar(s[k])
  {
    forall k | 0 < k < |s|
      ensures IsNumberChar(s[k])
    {
      assert s[k] == s[1..][k - 1];
    }
  }

  lemma NumberIs(n: NumberText)
    requires IsNumber(n)
    ensures var text := SpellNumber(n);
            && text != [] && (text[0] == '-' || '0' <= text[0] <= '9')
            && forall k :: 0 <= k < |text| ==> IsNumberChar(text[k])
  {
    if n.fraction != [] {
      FractionIs(n.fraction);
    }
    if n.exponent != [] {
      ExponentIs(n.exponent);
    }
    hide IsExponent;
  }

  lemma SpellStarts(c: LibC, t: Syntax)
    requires IsSyntax(c, t, false)
    ensures var text := Spell(t);
            text != [] && 32 < text[0] as int < 0x80 && text[0] != ']' && text[0] != '}'
  {
    hide SpellElements, SpellEntries, CString, FindEnd, Unescape;
  }

  lemma WordIsRead(c: LibC, t: Syntax, content: string, i: nat, depth: nat)
    requires (t.NullWord? || t.FalseWord? || t.TrueWord?) && At(content, i, Spell(t))
    ensures ParseValue(c, content, i, depth) == Parsed(ValueOf(t), i + |Spell(t)|)
  {
    AtIndex(content, i, Spell(t), 0);
    NoKeyword(content, i);
  }

  /** parse_number takes such a number whole when nothing behind it could continue it. */
  lemma NumberIsRead(c: LibC, text: string, value: real, content: string, i: nat, depth: nat)
    requires IsNumberOf(c, text, value, false)
    requires At(content, i, text) && Delimited(content, i + |text|)
    ensures ParseValue(c, content, i, depth) == Parsed(JNumber(value), i + |text|)
  {
    AtIndex(content, i, text, 0);
    TokenOfRun(content, i, text, 63);
    assert c.strtod(text) == (value, |text|);
    hide *;
    NumberStep(c, content, i, depth, text, value);
  }

  /** A longer number is cut behind its first 63 characters, or inside them. */
  lemma LongNumberIsCut(c: LibC, n: NumberText, content: string, i: nat, depth: nat)
    requires IsNumber(n) && |SpellNumber(n)| > 63 && At(content, i, SpellNumber(n))
    ensures ParseValue(c, content, i, depth).Parsed? ==>
              ParseValue(c, content, i, depth).offset <= i + 63 < i + |SpellNumber(n)|
  {
    var text := SpellNumber(n);
    NumberIs(n);
    AtIndex(content, i, text, 0);
    NoKeyword(content, i);
    hide IsNumber, SpellNumber, At, NumberToken, ParseString, ParseArray, ParseObject;
  }

  // What the two passes of parse_string do depends on the text of the string alone.

  /** From `x` in one text and from `y` in the other on, `n` characters are the same. */
  predicate Agree(a: string, x: nat, b: string, y: nat, n: nat) {
    x + n <= |a| && y + n <= |b| && a[x..x + n] == b[y..y + n]
  }

  lemma AgreeBehind(a: string, x: nat, b: string, y: nat, n: nat, k: nat)
    requires Agree(a, x, b, y, n) && k <= n
    ensures Agree(a, x + k, b, y + k, n - k) && (k < n ==> a[x + k] == b[y + k])
  {
    assert a[x + k..x + n] == a[x..x + n][k..];
    assert b[y + k..y + n] == b[y..y + n][k..];
    if k < n {
      assert a[x + k] == a[x..x + n][k] && b[y + k] == b[y..y + n][k];
    }
  }

  lemma FindEndIs(content: string, i: nat)
    requires i < |content|
    ensures content[i] == QUOTE ==> FindEnd(content, i) == Some(i)
    ensures content[i] == BACKSLASH ==>
              FindEnd(content, i) == if i + 1 < |content| then FindEnd(content, i + 2) else None
    ensures content[i] != QUOTE && content[i] != BACKSLASH ==> FindEnd(content, i) == FindEnd(content, i + 1)
    ensures FindEnd(content, i).Some? ==> content[i] == QUOTE || FindEnd(content, i).value > i
    ensures content[i] == BACKSLASH && FindEnd(content, i).Some? ==> FindEnd(content, i).value >= i + 2
  {
  }

  lemma {:induction false} SameEnd(a: string, x: nat, b: string, y: nat, n: nat, m: nat)
    requires Agree(a, x, b, y, n) && m < n && FindEnd(a, x) == Some(x + m)
    ensures FindEnd(b, y) == Some(y + m)
    decreases m
  {
    hide *;
    AgreeIs(a, x, b, y, n);
    AgreeBehind(a, x, b, y, n, 0);
    FindEndIs(a, x);
    FindEndIs(b, y);
    if a[x] == BACKSLASH {
      AgreeBehind(a, x, b, y, n, 2);
      SameEnd(a, x + 2, b, y + 2, n - 2, m - 2);
    } else if a[x] != QUOTE {
      AgreeBehind(a, x, b, y, n, 1);
      SameEnd(a, x + 1, b, y + 1, n - 1, m - 1);
    }
  }

  lemma SliceOfSlice(s: string, x: nat, n: nat, j: nat, k: nat)
    requires j <= k <= n && x + n <= |s|
    ensures s[x + j..x + k] == s[x..x + n][j..k]
  {
    var u, v := s[x + j..x + k], s[x..x + n][j..k];
    forall i | 0 <= i < |u|
      ensures u[i] == v[i]
    {
    }
  }

  lemma SameRange(a: string, x: nat, b: string, y: nat, n: nat, j: nat, k: nat)
    requires Agree(a, x, b, y, n) && j <= k <= n
    ensures a[x + j..x + k] == b[y + j..y + k]
  {
    SliceOfSlice(a, x, n, j, k);
    SliceOfSlice(b, y, n, j, k);
  }

  lemma SameEscape(a: string, x: nat, b: string, y: nat, m: nat)
    requires Agree(a, x, b, y, m + 1) && 0 < m && x + m < |a| && y + m < |b|
    ensures UnicodeEscape(a, x, x + m) == UnicodeEscape(b, y, y + m)
  {
    hide Agree, ParseHex4, Utf8;
    if m >= 6 {
      SameRange(a, x, b, y, m + 1, 2, 6);
    }
    if m >= 12 {
      SameRange(a, x, b, y, m + 1, 8, 12);
      AgreeBehind(a, x, b, y, m + 1, 6);
      AgreeBehind(a, x, b, y, m + 1, 7);
    }
  }

  /** What one round yields, by the first two characters and what the escape yields. */
  function PieceBy(first: char, second: char, escape: Option<Literal>): Option<Literal> {
    if first != BACKSLASH then Some(Literal(1, [first]))
    else if second == 'u' then escape
    else match SimpleEscape(second)
      case None => None
      case Some(c) => Some(Literal(2, [c]))
  }

  lemma NextPieceIs(content: string, i: nat, end: nat)
    requires i < end < |content|
    ensures NextPiece(content, i, end) == PieceBy(content[i], content[i + 1], UnicodeEscape(content, i, end))
  {
    hide UnicodeEscape, SimpleEscape;
  }

  lemma SamePiece(a: string, x: nat, b: string, y: nat, m: nat)
    requires Agree(a, x, b, y, m + 1) && 0 < m && x + m < |a| && y + m < |b|
    ensures NextPiece(a, x, x + m) == NextPiece(b, y, y + m)
  {
    hide *;
    AgreeBehind(a, x, b, y, m + 1, 0);
    AgreeBehind(a, x, b, y, m + 1, 1);
    SameEscape(a, x, b, y, m);
    NextPieceIs(a, x, x + m);
    NextPieceIs(b, y, y + m);
  }

  lemma {:induction false} SameUnescape(a: string, x: nat, b: string, y: nat, m: int)
    requires x + m >= 0 && y + m >= 0 && x + m < |a| && y + m < |b|
    requires m >= 0 ==> Agree(a, x, b, y, m + 1)
    ensures Unescape(a, x, x + m) == Unescape(b, y, y + m)
    decreases m
  {
    hide Agree, NextPiece;
    if m > 0 {
      SamePiece(a, x, b, y, m);
      var piece := NextPiece(a, x, x + m);
      if piece.Some? {
        var n := piece.value.length;
        if n <= m {
          AgreeBehind(a, x, b, y, m + 1, n);
        }
        SameUnescape(a, x + n, b, y + n, m - n);
      }
    }
  }

  /** What a string that was read consists of. */
  lemma ReadStringIs(content: string, i: nat, s: string, next: nat)
    requires i < |content| && ParseString(content, i) == Parsed(s, next)
    ensures i + 2 <= next <= |content| && content[i] == '\"' && FindEnd(content, i + 1) == Some((next - 1) as nat)
    ensures Unescape(content, i + 1, next - 1).Some? && s == CString(Unescape(content, i + 1, next - 1).value)
  {
    hide FindEnd, Unescape, CString;
  }

  /** A string is read the same wherever its text stands. */
  lemma SameString(a: string, x: nat, b: string, y: nat, n: nat, s: string)
    requires Agree(a, x, b, y, n) && x < |a| && y < |b| && ParseString(a, x) == Parsed(s, x + n)
    ensures ParseString(b, y) == Parsed(s, y + n)
  {
    hide *;
    ReadStringIs(a, x, s, x + n);
    AgreeIs(a, x, b, y, n);
    AgreeBehind(a, x, b, y, n, 0);
    AgreeBehind(a, x, b, y, n, 1);
    SameEnd(a, x + 1, b, y + 1, n - 1, n - 2);
    SameUnescape(a, x + 1, b, y + 1, n - 2);
    StringOfPasses(b, y, y + n - 1, Unescape(b, y + 1, y + n - 1).value);
  }

  lemma AgreeIs(a: string, x: nat, b: string, y: nat, n: nat)
    requires Agree(a, x, b, y, n)
    ensures x + n <= |a| && y + n <= |b|
  {
  }

  lemma TextAgrees(content: string, i: nat, text: string)
    requires At(content, i, text)
    ensures Agree(text, 0, content, i, |text|)
  {
  }

  lemma TextStands(text: string, value: string, content: string, i: nat)
    requires IsTextOf(text, value, false) && At(content, i, text)
    ensures text != [] && text[0] == '\"' && i < |content| && content[i] == '\"'
    ensures ParseString(content, i) == Parsed(value, i + |text|)
  {
    AtIndex(content, i, text, 0);
    TextAgrees(content, i, text);
    SameString(text, 0, content, i, |text|, value);
    hide FindEnd, Unescape, CString;
  }

  lemma TextIsRead(c: LibC, text: string, value: string, content: string, i: nat, depth: nat)
    requires IsTextOf(text, value, false) && At(content, i, text)
    ensures ParseValue(c, content, i, depth) == Parsed(JString(value), i + |text|)
  {
    hide *;
    TextStands(text, value, content, i);
    Dispatch(c, content, i, depth);
    QuoteIs();
  }

  lemma QuoteIs()
    ensures QUOTE == '\"'
  {
  }

  /** White space, a text, white space and a mark, each at its place. */
  lemma PartsAt(content: string, i: nat, before: string, text: string, behind: string, mark: char, rest: string)
    requires IsBlank(before, false) && IsBlank(behind, false) && text != [] && text[0] as int > 32
    requires mark as int > 32 && !IsNumberChar(mark)
    requires At(content, i, before + (text + (behind + ([mark] + rest))))
    ensures i < |content| && SkipWhitespace(content, i) == i + |before|
    ensures At(content, i + |before|, text)
    ensures var next := i + |before| + |text| + |behind|;
            && Delimited(content, next - |behind|) && SkipWhitespace(content, next - |behind|) == next
            && Marked(content, next, mark) && At(content, next + 1, rest)
  {
    hide SkipWhitespace, At, IsBlank, IsNumberChar;
    BlankIs(before);
    BlankIs(behind);
    var tail := behind + ([mark] + rest);
    AppendStarts(text, tail);
    SkipLayout(content, i, before, text + tail);
    AtIndex(content, i, before + (text + tail), 0);
    AtSplit(content, i + |before|, text, tail);
    AppendStarts([mark], rest);
    SkipLayout(content, i + |before| + |text|, behind, [mark] + rest);
    MarkedAt(content, i + |before| + |text| + |behind|, [mark] + rest);
    AtSplit(content, i + |before| + |text| + |behind|, [mark], rest);
    AtIndex(content, i + |before| + |text|, tail, 0);
    assert tail[0] == mark || (behind != [] && tail[0] == behind[0]);
  }

  /** What follows the white space behind an element: its mark, and the other elements if there are any. */
  ghost function RestOfElements(elements: seq<Element>): string
    requires elements != []
  {
    if |elements| == 1 then [] else SpellElements(elements[1..])
  }

  ghost function ElementMark(elements: seq<Element>): char {
    if |elements| == 1 then ']' else ','
  }

  lemma ElementsAre(c: LibC, elements: seq<Element>)
    requires elements != [] && AreElements(c, elements, false)
    ensures var e, rest := elements[0], RestOfElements(elements);
            && IsBlank(e.before, false) && IsSyntax(c, e.value, false) && IsBlank(e.behind, false)
            && SpellElements(elements) ==
               e.before + (Spell(e.value) + (e.behind + ([ElementMark(elements)] + rest)))
            && |SpellElements(elements)| == |e.before| + |Spell(e.value)| + |e.behind| + 1 + |rest|
    ensures AreElements(c, elements[1..], false)
    ensures |elements| > 1 ==> RestOfElements(elements) == SpellElements(elements[1..])
    ensures |elements| == 1 ==> RestOfElements(elements) == []
  {
    hide Spell, IsBlank, IsSyntax;
    NothingAdded([']']);
  }

  /** The loop of parse_array skips the white space before the first element itself. */
  lemma ItemsFromSkip(c: LibC, content: string, i: nat, first: nat, depth: nat)
    requires SkipWhitespace(content, i) == first && SkipWhitespace(content, first) == first
    ensures ParseItems(c, content, i, depth) == ParseItems(c, content, first, depth)
  {
    hide ParseValue, SkipRun;
  }

  lemma ValuesStep(elements: seq<Element>)
    requires elements != []
    ensures var vs := ValuesOf(elements);
            && |vs| == |elements| && vs[0] == ValueOf(elements[0].value) && vs[1..] == ValuesOf(elements[1..])
  {
    hide ValueOf;
    if |elements| > 1 {
      ValuesStep(elements[1..]);
    }
  }

  lemma {:induction false} ElementsAreRead(
      c: LibC, elements: seq<Element>, content: string, i: nat, depth: nat)
    requires elements != [] && AreElements(c, elements, false)
    requires At(content, i, SpellElements(elements)) && depth <= NESTING_LIMIT
    ensures var vs := ValuesOf(elements);
            ParseItems(c, content, i, depth) ==
            Within(depth, NestingOfItems(vs), vs, i + |SpellElements(elements)|)
    decreases elements, 0
  {
    hide *;
    var e, rest, mark := elements[0], RestOfElements(elements), ElementMark(elements);
    var start := i + |e.before|;
    var behind := start + |Spell(e.value)|;
    var next := behind + |e.behind|;
    ElementsAre(c, elements);
    MarkOfElements(elements);
    SpellStarts(c, e.value);
    PartsAt(content, i, e.before, Spell(e.value), e.behind, mark, rest);
    ValueIsRead(c, e.value, content, start, depth);
    ValuesStep(elements);
    if |elements| > 1 {
      ElementsAreRead(c, elements[1..], content, next + 1, depth);
    }
    CombineItems(c, content, i, start, depth, ValuesOf(elements), behind, next, next + 1 + |rest|);
  }

  lemma MarkOfElements(elements: seq<Element>)
    ensures var mark := ElementMark(elements);
            mark as int > 32 && !IsNumberChar(mark) && mark == if |elements| == 1 then ']' else ','
  {
  }

  lemma FirstOfElements(c: LibC, elements: seq<Element>, content: string, i: nat)
    requires elements != [] && AreElements(c, elements, false)
    requires At(content, i, SpellElements(elements))
    ensures var first := SkipWhitespace(content, i);
            first < |content| && content[first] != ']' && SkipWhitespace(content, first) == first
  {
    hide *;
    var e := elements[0];
    ElementsAre(c, elements);
    MarkOfElements(elements);
    SpellStarts(c, e.value);
    PartsAt(content, i, e.before, Spell(e.value), e.behind, ElementMark(elements), RestOfElements(elements));
    AtIndex(content, i + |e.before|, Spell(e.value), 0);
    SkipTo(content, i + |e.before|, i + |e.before|);
  }

  lemma ListText(gap: string, elements: seq<Element>, content: string, i: nat)
    requires At(content, i, Spell(List(gap, elements)))
    ensures i < |content| && content[i] == '['
    ensures At(content, i + 1, if elements == [] then gap + "]" else SpellElements(elements))
    ensures |Spell(List(gap, elements))| == 1 + if elements == [] then |gap| + 1 else |SpellElements(elements)|
  {
    var rest := if elements == [] then gap + "]" else SpellElements(elements);
    AtSplit(content, i, "[", rest);
    AtIndex(content, i, "[", 0);
    hide SpellElements, At;
  }

  lemma EmptyList()
    ensures ValuesOf([]) == [] && NestingOfItems([]) == 0 && MembersOf([]) == [] && NestingOfMembers([]) == 0
  {
  }

  lemma WithinList(c: LibC, content: string, i: nat, depth: nat, first: nat, vs: seq<Json>, end: nat)
    requires i < |content| && SkipWhitespace(content, i + 1) == first < |content| && depth <= NESTING_LIMIT
    requires content[first] == ']' ==> vs == [] && NestingOfItems(vs) == 0 && end == first + 1
    requires content[first] != ']' && depth < NESTING_LIMIT ==>
               ParseItems(c, content, first, depth + 1) == Within(depth + 1, NestingOfItems(vs), vs, end)
    ensures ParseArray(c, content, i, depth) == Within(depth, 1 + NestingOfItems(vs), JArray(vs), end)
  {
    ParseArrayStep(c, content, i, depth, first);
    hide ParseArray, ParseItems, SkipWhitespace, NestingOfItems;
  }

  lemma {:induction false} ListIsRead(
      c: LibC, gap: string, elements: seq<Element>, content: string, i: nat, depth: nat)
    requires IsBlank(gap, false) && AreElements(c, elements, false)
    requires At(content, i, Spell(List(gap, elements))) && depth <= NESTING_LIMIT
    ensures var vs := ValuesOf(elements);
            i < |content| && content[i] == '[' &&
            ParseArray(c, content, i, depth) ==
            Within(depth, 1 + NestingOfItems(vs), JArray(vs), i + |Spell(List(gap, elements))|)
    decreases elements, 1
  {
    hide *;
    ListText(gap, elements, content, i);
    var end := i + |Spell(List(gap, elements))|;
    if elements == [] {
      BlankIs(gap);
      EmptyList();
      SkipLayout(content, i + 1, gap, "]");
      AtIndex(content, i + 1 + |gap|, "]", 0);
      WithinList(c, content, i, depth, i + 1 + |gap|, [], end);
    } else {
      var first := SkipWhitespace(content, i + 1);
      FirstOfElements(c, elements, content, i + 1);
      if depth < NESTING_LIMIT {
        ElementsAreRead(c, elements, content, i + 1, depth + 1);
        ItemsFromSkip(c, content, i + 1, first, depth + 1);
      }
      WithinList(c, content, i, depth, first, ValuesOf(elements), end);
    }
  }

  // ---- The members of an object ----

  ghost function RestOfEntries(entries: seq<Entry>): string
    requires entries != []
  {
    if |entries| == 1 then [] else SpellEntries(entries[1..])
  }

  ghost function EntryMark(entries: seq<Entry>): char {
    if |entries| == 1 then '}' else ','
  }

  lemma MarkOfEntries(entries: seq<Entry>)
    ensures var mark := EntryMark(entries);
            mark as int > 32 && !IsNumberChar(mark) && mark == if |entries| == 1 then '}' else ','
  {
  }

  /** What stands behind the colon of the first member. */
  ghost function BehindColon(entries: seq<Entry>): string
    requires entries != []
  {
    var e := entries[0];
    e.beforeValue + (Spell(e.value) + (e.behind + ([EntryMark(entries)] + RestOfEntries(entries))))
  }

  lemma EntriesAre(c: LibC, entries: seq<Entry>)
    requires entries != [] && AreEntries(c, entries, false)
    ensures var e := entries[0];
            && IsBlank(e.before, false) && IsTextOf(e.key, e.name, false) && IsBlank(e.behindKey, false)
            && IsBlank(e.beforeValue, false) && IsSyntax(c, e.value, false) && IsBlank(e.behind, false)
            && SpellEntries(entries) ==
               e.before + (e.key + (e.behindKey + ([':'] + BehindColon(entries))))
    ensures var e := entries[0];
            |SpellEntries(entries)| == |e.before| + |e.key| + |e.behindKey| + 1 + |BehindColon(entries)|
    ensures AreEntries(c, entries[1..], false)
  {
    hide Spell, IsBlank, IsSyntax, IsTextOf;
    NothingAdded(['}']);
  }

  lemma BehindColonIs(entries: seq<Entry>)
    requires entries != []
    ensures var e, rest := entries[0], RestOfEntries(entries);
            && BehindColon(entries) ==
               e.beforeValue + (Spell(e.value) + (e.behind + ([EntryMark(entries)] + rest)))
            && |BehindColon(entries)| == |e.beforeValue| + |Spell(e.value)| + |e.behind| + 1 + |rest|
    ensures |entries| > 1 ==> RestOfEntries(entries) == SpellEntries(entries[1..])
    ensures |entries| == 1 ==> RestOfEntries(entries) == []
  {
    hide Spell, SpellEntries, EntryMark;
  }

  lemma ColonIsMark()
    ensures ':' as int > 32 && !IsNumberChar(':')
  {
  }

  lemma TextIs(text: string, value: string)
    requires IsTextOf(text, value, false)
    ensures text != [] && text[0] == '\"' && text[0] as int > 32
  {
    hide FindEnd, Unescape, CString;
  }

  /** The key of the first member is read up to its colon. */
  lemma KeyIsRead(c: LibC, entries: seq<Entry>, content: string, i: nat)
    requires entries != [] && AreEntries(c, entries, false)
    requires At(content, i, SpellEntries(entries))
    ensures var e := entries[0];
            var start := i + |e.before|;
            var behindKey := start + |e.key|;
            var colon := behindKey + |e.behindKey|;
            && i < |content| && SkipWhitespace(content, i) == start < |content| && content[start] == '\"'
            && ParseString(content, start) == Parsed(e.name, behindKey)
            && SkipWhitespace(content, behindKey) == colon && Marked(content, colon, ':')
            && At(content, colon + 1, BehindColon(entries))
  {
    hide *;
    var e := entries[0];
    var start := i + |e.before|;
    EntriesAre(c, entries);
    TextIs(e.key, e.name);
    ColonIsMark();
    PartsAt(content, i, e.before, e.key, e.behindKey, ':', BehindColon(entries));
    TextStands(e.key, e.name, content, start);
  }

  lemma MembersStep(entries: seq<Entry>)
    requires entries != []
    ensures var ms := MembersOf(entries);
            && |ms| == |entries| && ms[0] == Member(entries[0].name, ValueOf(entries[0].value))
            && ms[1..] == MembersOf(entries[1..])
  {
    hide ValueOf;
    if |entries| > 1 {
      MembersStep(entries[1..]);
    }
  }

  lemma {:induction false} EntriesAreRead(
      c: LibC, entries: seq<Entry>, content: string, i: nat, depth: nat)
    requires entries != [] && AreEntries(c, entries, false)
    requires At(content, i, SpellEntries(entries)) && depth <= NESTING_LIMIT
    ensures var ms := MembersOf(entries);
            ParseMembers(c, content, i, depth) ==
            Within(depth, NestingOfMembers(ms), ms, i + |SpellEntries(entries)|)
    decreases entries, 0
  {
    hide *;
    var e, rest, mark, ms := entries[0], RestOfEntries(entries), EntryMark(entries), MembersOf(entries);
    var start := i + |e.before|;
    var behindKey := start + |e.key|;
    var colon := behindKey + |e.behindKey|;
    var valueAt := colon + 1 + |e.beforeValue|;
    var behind := valueAt + |Spell(e.value)|;
    var next := behind + |e.behind|;
    EntriesAre(c, entries);
    BehindColonIs(entries);
    MarkOfEntries(entries);
    KeyIsRead(c, entries, content, i);
    SpellStarts(c, e.value);
    PartsAt(content, colon + 1, e.beforeValue, Spell(e.value), e.behind, mark, rest);
    ValueIsRead(c, e.value, content, valueAt, depth);
    MembersStep(entries);
    var nesting := Nesting(ms[0].value);
    ParseMemberStep(c, content, start, depth, ms[0], behindKey, colon, valueAt, nesting, behind);
    if |entries| > 1 {
      EntriesAreRead(c, entries[1..], content, next + 1, depth);
    }
    CombineMembers(c, content, i, start, depth, ms, behind, next, next + 1 + |rest|);
  }

  lemma MembersFromSkip(c: LibC, content: string, i: nat, first: nat, depth: nat)
    requires i < |content| && SkipWhitespace(content, i) == first < |content|
    requires SkipWhitespace(content, first) == first
    ensures ParseMembers(c, content, i, depth) == ParseMembers(c, content, first, depth)
  {
    hide ParseMember, SkipRun;
  }

  lemma RecordText(gap: string, entries: seq<Entry>, content: string, i: nat)
    requires At(content, i, Spell(Record(gap, entries)))
    ensures i < |content| && content[i] == '{'
    ensures At(content, i + 1, if entries == [] then gap + "}" else SpellEntries(entries))
    ensures |Spell(Record(gap, entries))| == 1 + if entries == [] then |gap| + 1 else |SpellEntries(entries)|
  {
    var rest := if entries == [] then gap + "}" else SpellEntries(entries);
    AtSplit(content, i, "{", rest);
    AtIndex(content, i, "{", 0);
    hide SpellEntries, At;
  }

  lemma {:induction false} RecordIsRead(
      c: LibC, gap: string, entries: seq<Entry>, content: string, i: nat, depth: nat)
    requires IsBlank(gap, false) && AreEntries(c, entries, false)
    requires At(content, i, Spell(Record(gap, entries))) && depth <= NESTING_LIMIT
    ensures var ms := MembersOf(entries);
            i < |content| && content[i] == '{' &&
            ParseObject(c, content, i, depth) ==
            Within(depth, 1 + NestingOfMembers(ms), JObject(ms), i + |Spell(Record(gap, entries))|)
    decreases entries, 1
  {
    hide *;
    RecordText(gap, entries, content, i);
    var end := i + |Spell(Record(gap, entries))|;
    if entries == [] {
      BlankIs(gap);
      EmptyList();
      SkipLayout(content, i + 1, gap, "}");
      AtIndex(content, i + 1 + |gap|, "}", 0);
      ObjectOfMembers(c, content, i, depth, [], i + 1 + |gap|, end);
    } else {
      var first := SkipWhitespace(content, i + 1);
      KeyIsRead(c, entries, content, i + 1);
      SkipTo(content, first, first);
      MembersStep(entries);
      if depth < NESTING_LIMIT {
        EntriesAreRead(c, entries, content, i + 1, depth + 1);
        MembersFromSkip(c, content, i + 1, first, depth + 1);
      }
      ObjectOfMembers(c, content, i, depth, MembersOf(entries), first, end);
    }
  }

  /** What a syntax tree is made of, and how deep its value is nested. */
  lemma SyntaxIs(c: LibC, t: Syntax, strict: bool)
    requires IsSyntax(c, t, strict)
    ensures t.Number? ==> IsNumberOf(c, t.text, t.number, strict)
    ensures t.Text? ==> IsTextOf(t.text, t.content, strict)
    ensures t.List? ==> IsBlank(t.gap, strict) && AreElements(c, t.elements, strict)
    ensures t.Record? ==> IsBlank(t.gap, strict) && AreEntries(c, t.entries, strict)
  {
    hide IsNumberOf, IsTextOf, IsBlank, IsElement, IsEntry;
  }

  lemma ValueIs(t: Syntax)
    ensures t.Number? ==> Spell(t) == t.text && ValueOf(t) == JNumber(t.number)
    ensures t.Text? ==> Spell(t) == t.text && ValueOf(t) == JString(t.content)
    ensures t.List? ==>
              ValueOf(t) == JArray(ValuesOf(t.elements)) && t == List(t.gap, t.elements) &&
              Nesting(ValueOf(t)) == 1 + NestingOfItems(ValuesOf(t.elements))
    ensures t.Record? ==>
              ValueOf(t) == JObject(MembersOf(t.entries)) && t == Record(t.gap, t.entries) &&
              Nesting(ValueOf(t)) == 1 + NestingOfMembers(MembersOf(t.entries))
    ensures !t.List? && !t.Record? ==> Nesting(ValueOf(t)) == 0
  {
    hide ValuesOf, MembersOf, NestingOfItems, NestingOfMembers;
  }

  /** Every text of the grammar is read as its value wherever it stands, exactly within the nesting limit. */
  lemma {:induction false} ValueIsRead(c: LibC, t: Syntax, content: string, i: nat, depth: nat)
    requires IsSyntax(c, t, false) && depth <= NESTING_LIMIT
    requires At(content, i, Spell(t)) && Delimited(content, i + |Spell(t)|)
    ensures ParseValue(c, content, i, depth) ==
            Within(depth, Nesting(ValueOf(t)), ValueOf(t), i + |Spell(t)|)
    decreases t
  {
    hide *;
    SyntaxIs(c, t, false);
    ValueIs(t);
    WithinNothing(depth, ValueOf(t), i + |Spell(t)|);
    match t
    case Number(text, value) =>
      NumberIsRead(c, text, value, content, i, depth);
    case Text(text, value) =>
      TextIsRead(c, text, value, content, i, depth);
    case List(gap, elements) =>
      ListIsRead(c, gap, elements, content, i, depth);
      Dispatch(c, content, i, depth);
    case Record(gap, entries) =>
      RecordIsRead(c, gap, entries, content, i, depth);
      Dispatch(c, content, i, depth);
    case _ =>
      WordIsRead(c, t, content, i, depth);
  }

  lemma WithinNothing<T>(depth: nat, value: T, end: nat)
    requires depth <= NESTING_LIMIT
    ensures Within(depth, 0, value, end) == Parsed(value, end)
  {
  }

  /** A document: white space around a value, and a byte order mark before it or not. */
  ghost function SpellDocument(marked: bool, before: string, t: Syntax, behind: string): string {
    (if marked then BYTE_ORDER_MARK else []) + (before + (Spell(t) + behind))
  }

  lemma NotMarked(text: string)
    requires text != [] && text[0] as int < 0x80
    ensures !At(text + [NUL], 0, BYTE_ORDER_MARK)
  {
    assert (text + [NUL])[0] == text[0];
    if At(text + [NUL], 0, BYTE_ORDER_MARK) {
      AtIndex(text + [NUL], 0, BYTE_ORDER_MARK, 0);
    }
  }

  /** Where the parts of a document stand in the memory that holds it with its terminating NUL. */
  lemma DocumentAt(c: LibC, marked: bool, before: string, t: Syntax, behind: string)
    requires IsBlank(before, false) && IsSyntax(c, t, false)
    ensures var content := SpellDocument(marked, before, t, behind) + [NUL];
            && |content| > 1 && (marked ==> |content| > 4)
            && (At(content, 0, BYTE_ORDER_MARK) <==> marked)
            && At(content, if marked then 3 else 0, before + (Spell(t) + behind))
            && |content| == (if marked then 3 else 0) + |before| + |Spell(t)| + |behind| + 1
            && content[|content| - 1] == NUL
  {
    SpellStarts(c, t);
    BlankIs(before);
    hide Spell, IsSyntax, IsBlank;
    var text := before + (Spell(t) + behind);
    assert text[0] == (before + Spell(t))[0];
    if !marked {
      NothingAdded(text);
      NotMarked(text);
    }
  }

  /** Behind the value only white space and the terminating NUL are left. */
  lemma NulBehind(content: string, i: nat, behind: string)
    requires IsBlank(behind, false) && At(content, i, behind) && |content| == i + |behind| + 1
    requires content[|content| - 1] == NUL
    ensures SkipWhitespace(content, i) == |content| - 1 && Delimited(content, i)
  {
    BlankIs(behind);
    if behind != [] {
      AtIndex(content, i, behind, 0);
    }
    forall k | i <= k < |content|
      ensures content[k] as int <= 32
    {
      if k < |content| - 1 {
        AtIndex(content, i, behind, k - i);
      }
    }
    AllBlank(content, i);
  }

  lemma {:induction false} AllBlank(content: string, i: nat)
    requires i <= |content| && forall k :: i <= k < |content| ==> content[k] as int <= 32
    ensures SkipRun(content, i) == |content|
    decreases |content| - i
  {
    if i < |content| {
      AllBlank(content, i + 1);
    }
  }

  lemma DocumentStep(c: LibC, text: string, requireNullTerminated: bool, start: nat, first: nat, nesting: nat,
                     t: Json, end: nat)
    requires start == (if 4 < |text + [NUL]| && At(text + [NUL], 0, BYTE_ORDER_MARK) then 3 else 0)
    requires SkipWhitespace(text + [NUL], start) == first
    requires ParseValue(c, text + [NUL], first, 0) == Within(0, nesting, t, end)
    requires SkipWhitespace(text + [NUL], end) == |text|
    ensures ParseDocument(c, text, requireNullTerminated) ==
            if nesting > NESTING_LIMIT then Failed else Parsed(t, if requireNullTerminated then |text| else end)
  {
    hide ParseValue, SkipWhitespace, At;
  }

  /**
   Every document of the grammar is accepted as its value, exactly within the nesting limit, whether a
   terminating NUL is demanded or not.
   */
  lemma DocumentIsRead(
      c: LibC, marked: bool, before: string, t: Syntax, behind: string, requireNullTerminated: bool)
    requires IsBlank(before, false) && IsSyntax(c, t, false) && IsBlank(behind, false)
    ensures var text := SpellDocument(marked, before, t, behind);
            |behind| <= |text| &&
            ParseDocument(c, text, requireNullTerminated) ==
            if Nesting(ValueOf(t)) > NESTING_LIMIT then Failed
            else Parsed(ValueOf(t), if requireNullTerminated then |text| else |text| - |behind|)
  {
    hide *;
    var text := SpellDocument(marked, before, t, behind);
    var content := text + [NUL];
    var start := if marked then 3 else 0;
    var first := start + |before|;
    var end := first + |Spell(t)|;
    DocumentAt(c, marked, before, t, behind);
    SpellStarts(c, t);
    BlankIs(before);
    AppendStarts(Spell(t), behind);
    SkipLayout(content, start, before, Spell(t) + behind);
    AtSplit(content, first, Spell(t), behind);
    NulBehind(content, end, behind);
    ValueIsRead(c, t, content, first, 0);
    DocumentStep(c, text, requireNullTerminated, start, first, Nesting(ValueOf(t)), ValueOf(t), end);
  }

  /** Every document of RFC 8259 is accepted as its value, exactly within the nesting limit. */
  lemma StandardDocumentIsRead(
      c: LibC, marked: bool, before: string, t: Syntax, behind: string, requireNullTerminated: bool)
    requires TakesNumbers(c) && IsBlank(before, true) && IsSyntax(c, t, true) && IsBlank(behind, true)
    ensures var text := SpellDocument(marked, before, t, behind);
            |behind| <= |text| &&
            ParseDocument(c, text, requireNullTerminated) ==
            if Nesting(ValueOf(t)) > NESTING_LIMIT then Failed
            else Parsed(ValueOf(t), if requireNullTerminated then |text| else |text| - |behind|)
  {
    hide *;
    BlankIsBlank(before, true);
    BlankIsBlank(behind, true);
    StrictIsWider(c, t);
    DocumentIsRead(c, marked, before, t, behind, requireNullTerminated);
  }

  // ---- What is printed is a text of the grammar ----

  ghost function NumberOf(n: int): NumberText {
    NumberText(n < 0, Digits(if n < 0 then -n else n), [], [])
  }

  ghost function TreeOf(t: Json, fmt: bool, depth: nat): Syntax
    decreases t
  {
    match t
    case JNull => NullWord
    case JFalse => FalseWord
    case JTrue => TrueWord
    case JNumber(d) => Number(SpellNumber(NumberOf(d.Floor)), d)
    case JString(s) => Text(SpellString(PiecesOf(s)), s)
    case JArray(items) => List([], ElementsOf(items, fmt, depth + 1, []))
    case JObject(members) =>
      Record(if members == [] then Newline(fmt) + Indent(fmt, depth) else [], EntriesOf(members, fmt, depth + 1))
  }

  ghost function ElementsOf(items: seq<Json>, fmt: bool, depth: nat, before: string): seq<Element>
    decreases items
  {
    if items == [] then []
    else [Element(before, TreeOf(items[0], fmt, depth), [])] +
         ElementsOf(items[1..], fmt, depth, if fmt then " " else [])
  }

  ghost function EntriesOf(members: seq<Member>, fmt: bool, depth: nat): seq<Entry>
    requires depth > 0
    decreases members
  {
    if members == [] then []
    else [Entry(Newline(fmt) + Indent(fmt, depth), SpellString(PiecesOf(members[0].key)), members[0].key, [],
                if fmt then "\t" else [], TreeOf(members[0].value, fmt, depth),
                if |members| == 1 then Newline(fmt) + Indent(fmt, depth - 1) else [])] +
         EntriesOf(members[1..], fmt, depth)
  }

  lemma {:induction false} NoLeadingZero(n: nat)
    ensures Digits(n)[0] == '0' ==> n == 0 && |Digits(n)| == 1
  {
    if n >= 10 {
      NoLeadingZero(n / 10);
    }
  }

  lemma NumberOfIsPrinted(n: int)
    requires INT_MIN <= n <= INT_MAX
    ensures IsNumber(NumberOf(n)) && SpellNumber(NumberOf(n)) == Decimal(n) && |Decimal(n)| <= 63
  {
    NoLeadingZero(if n < 0 then -n else n);
    DecimalIsShort(n);
  }

  ghost predicate IsSpelled(c: LibC, t: Json, tree: Syntax, text: string) {
    IsSyntax(c, tree, true) && Spell(tree) == text && ValueOf(tree) == t
  }

  /** A 32-bit integer is printed as a number of the grammar with its value. */
  lemma NumberIsSpelled(c: LibC, d: real, fmt: bool, depth: nat)
    requires IsInt32(d) && ReadsIntegers(c)
    ensures IsSpelled(c, JNumber(d), TreeOf(JNumber(d), fmt, depth), PrintNumber(c, d))
  {
    var n := d.Floor;
    assert PrintNumber(c, d) == Decimal(n) && n as real == d;
    hide *;
    NumberOfIsPrinted(n);
    TreeOfLeaf(JNumber(d), fmt, depth);
    DecimalIsShort(n);
    DecimalReadsBack(n);
    IntegerIsRead(c, n);
    NumberTreeIs(c, d, NumberOf(n), Decimal(n));
  }

  lemma TreeOfLeaf(t: Json, fmt: bool, depth: nat)
    ensures t.JNumber? ==> TreeOf(t, fmt, depth) == Number(SpellNumber(NumberOf(t.value.Floor)), t.value)
    ensures t.JString? ==> TreeOf(t, fmt, depth) == Text(SpellString(PiecesOf(t.text)), t.text)
  {
    hide NumberOf, SpellNumber, SpellString, PiecesOf;
  }

  lemma IntegerIsRead(c: LibC, n: int)
    requires ReadsIntegers(c) && IsIntegerText(Decimal(n)) && |Decimal(n)| <= 11 && ReadInteger(Decimal(n)) == n
    ensures c.strtod(Decimal(n)).0 == n as real
  {
    hide Decimal, IsIntegerText, ReadInteger;
  }

  lemma NumberTreeIs(c: LibC, d: real, number: NumberText, text: string)
    requires IsNumber(number) && SpellNumber(number) == text && |text| <= 63 && c.strtod(text).0 == d
    ensures IsSpelled(c, JNumber(d), Number(text, d), text)
  {
    hide IsNumber, SpellNumber;
  }

  lemma TextOfIs(s: string)
    requires NUL !in s
    ensures IsTextOf(PrintString(s), s, true) && SpellString(PiecesOf(s)) == PrintString(s)
  {
    PrintedStringIsSpelled(s);
    CStringIsIdentity(s);
    hide IsString, AreEscaped, SpellString, PiecesOf, PrintString, CString;
  }

  lemma StringIsSpelled(c: LibC, s: string, fmt: bool, depth: nat)
    requires NUL !in s
    ensures IsSpelled(c, JString(s), TreeOf(JString(s), fmt, depth), PrintString(s))
  {
    TextOfIs(s);
    TreeOfLeaf(JString(s), fmt, depth);
    hide IsTextOf, SpellString, PiecesOf, PrintString, TreeOf;
  }

  lemma LayoutIsBlank(fmt: bool, depth: nat)
    ensures IsBlank(Newline(fmt) + Indent(fmt, depth), true) && IsBlank([], true) && IsBlank(if fmt then " " else [], true)
    ensures IsBlank(if fmt then "\t" else [], true)
  {
  }

  /** The list of elements, the text it is spelled as and the values it means. */
  ghost predicate AreSpelled(c: LibC, items: seq<Json>, elements: seq<Element>, text: string) {
    && |elements| == |items| && AreElements(c, elements, true)
    && (elements != [] ==> SpellElements(elements) == text)
    && ValuesOf(elements) == items
  }

  lemma ConsElements(c: LibC, e: Element, elements: seq<Element>)
    requires IsElement(c, e, true) && AreElements(c, elements, true)
    ensures var all := [e] + elements;
            && |all| == 1 + |elements| && all[0] == e && all[1..] == elements
            && AreElements(c, all, true)
  {
    hide IsElement;
  }

  lemma ElementIs(c: LibC, item: Json, e: Element, text: string)
    requires IsBlank(e.before, true) && e.behind == [] && IsSpelled(c, item, e.value, text)
    ensures IsElement(c, e, true) && Spell(e.value) == text && ValueOf(e.value) == item
  {
    hide IsSyntax, Spell, ValueOf;
  }

  lemma SpelledIs(c: LibC, items: seq<Json>, elements: seq<Element>, text: string)
    ensures AreSpelled(c, items, elements, text) <==>
            && |elements| == |items| && AreElements(c, elements, true)
            && (elements != [] ==> SpellElements(elements) == text)
            && ValuesOf(elements) == items
  {
    hide IsElement, SpellElements, ValuesOf;
  }

  lemma FirstElementSpelled(all: seq<Element>)
    requires all != [] && all[0].behind == []
    ensures SpellElements(all) ==
            all[0].before + (Spell(all[0].value) + if |all| == 1 then "]" else "," + SpellElements(all[1..]))
  {
    hide Spell;
    NothingAdded(if |all| == 1 then "]" else "," + SpellElements(all[1..]));
  }

  /** A first element and the others, put together. */
  lemma MoreSpelled(c: LibC, items: seq<Json>, e: Element, elements: seq<Element>, first: string, rest: string)
    requires items != [] && IsBlank(e.before, true) && e.behind == [] && IsSpelled(c, items[0], e.value, first)
    requires AreSpelled(c, items[1..], elements, rest)
    ensures AreSpelled(c, items, [e] + elements, e.before + (first + if |items| == 1 then "]" else "," + rest))
  {
    hide *;
    var all := [e] + elements;
    ElementIs(c, items[0], e, first);
    SpelledIs(c, items[1..], elements, rest);
    ConsElements(c, e, elements);
    FirstElementSpelled(all);
    ValuesStep(all);
    assert items == [items[0]] + items[1..];
    assert ValuesOf(all) == [ValuesOf(all)[0]] + ValuesOf(all)[1..];
    SpelledIs(c, items, all, e.before + (first + if |items| == 1 then "]" else "," + rest));
  }

  lemma ElementsOfIs(items: seq<Json>, fmt: bool, depth: nat, before: string)
    ensures ElementsOf(items, fmt, depth, before) ==
            if items == [] then []
            else [Element(before, TreeOf(items[0], fmt, depth), [])] +
                 ElementsOf(items[1..], fmt, depth, if fmt then " " else [])
  {
    hide TreeOf;
  }

  lemma SeparatorParts(c: LibC, items: seq<Json>, fmt: bool, depth: nat)
    requires |items| > 1
    ensures PrintItems(c, items, fmt, depth) ==
            Print(c, items[0], fmt, depth) +
            ("," + ((if fmt then " " else []) + PrintItems(c, items[1..], fmt, depth)))
  {
    hide Print;
    var rest := PrintItems(c, items[1..], fmt, depth);
    assert Separator(fmt) == "," + if fmt then " " else [];
    Assoc(",", if fmt then " " else [], rest);
  }

  lemma NothingSpelled(c: LibC, text: string)
    ensures AreSpelled(c, [], [], text)
  {
  }

  lemma {:induction false} ItemsAreSpelled(c: LibC, items: seq<Json>, fmt: bool, depth: nat, before: string)
    requires ReadsIntegers(c)
    requires (forall k :: 0 <= k < |items| ==> Plain(items[k])) && IsBlank(before, true)
    ensures AreSpelled(c, items, ElementsOf(items, fmt, depth, before), before + PrintItems(c, items, fmt, depth))
    decreases items, 0
  {
    hide *;
    ElementsOfIs(items, fmt, depth, before);
    if items == [] {
      NothingSpelled(c, before + PrintItems(c, items, fmt, depth));
    } else {
      var gap := if fmt then " " else [];
      LayoutIsBlank(fmt, depth);
      PrintIsSpelled(c, items[0], fmt, depth);
      ItemsAreSpelled(c, items[1..], fmt, depth, gap);
      PrintItemsParts(c, items, fmt, depth);
      if |items| > 1 {
        SeparatorParts(c, items, fmt, depth);
      }
      MoreSpelled(c, items, Element(before, TreeOf(items[0], fmt, depth), []),
                  ElementsOf(items[1..], fmt, depth, gap), Print(c, items[0], fmt, depth),
                  gap + PrintItems(c, items[1..], fmt, depth));
    }
  }

  // The same for the members of an object.

  ghost predicate AreSpelledMembers(c: LibC, members: seq<Member>, entries: seq<Entry>, text: string) {
    && |entries| == |members| && AreEntries(c, entries, true)
    && (entries != [] ==> SpellEntries(entries) == text)
    && MembersOf(entries) == members
  }

  lemma SpelledMembersIs(c: LibC, members: seq<Member>, entries: seq<Entry>, text: string)
    ensures AreSpelledMembers(c, members, entries, text) <==>
            && |entries| == |members| && AreEntries(c, entries, true)
            && (entries != [] ==> SpellEntries(entries) == text)
            && MembersOf(entries) == members
  {
    hide IsEntry, SpellEntries, MembersOf;
  }

  lemma ConsEntries(c: LibC, e: Entry, entries: seq<Entry>)
    requires IsEntry(c, e, true) && AreEntries(c, entries, true)
    ensures var all := [e] + entries;
            && |all| == 1 + |entries| && all[0] == e && all[1..] == entries
            && AreEntries(c, all, true)
  {
    hide IsEntry;
  }

  lemma EntryIs(c: LibC, member: Member, e: Entry, text: string)
    requires IsBlank(e.before, true) && e.behindKey == [] && IsBlank(e.beforeValue, true) && IsBlank(e.behind, true)
    requires IsTextOf(e.key, e.name, true) && e.name == member.key
    requires IsSpelled(c, member.value, e.value, text)
    ensures IsEntry(c, e, true) && Spell(e.value) == text
    ensures Member(e.name, ValueOf(e.value)) == member
  {
    hide IsSyntax, IsTextOf, Spell, ValueOf;
  }

  lemma FirstEntrySpelled(all: seq<Entry>)
    requires all != [] && all[0].behindKey == []
    ensures var e := all[0];
            SpellEntries(all) ==
            e.before + (e.key + (":" + (e.beforeValue +
            (Spell(e.value) + (e.behind + if |all| == 1 then "}" else "," + SpellEntries(all[1..]))))))
  {
    hide Spell, SpellString;
    var e := all[0];
    var tail := ":" + (e.beforeValue +
                (Spell(e.value) + (e.behind + if |all| == 1 then "}" else "," + SpellEntries(all[1..]))));
    NothingAdded(tail);
  }

  lemma EntriesOfIs(members: seq<Member>, fmt: bool, depth: nat)
    requires depth > 0
    ensures EntriesOf(members, fmt, depth) ==
            if members == [] then []
            else [EntryOf(members, fmt, depth)] + EntriesOf(members[1..], fmt, depth)
  {
    hide TreeOf, PiecesOf, SpellString, Newline, Indent;
  }

  ghost function EntryOf(members: seq<Member>, fmt: bool, depth: nat): Entry
    requires depth > 0 && members != []
  {
    Entry(Newline(fmt) + Indent(fmt, depth), SpellString(PiecesOf(members[0].key)), members[0].key, [],
          if fmt then "\t" else [], TreeOf(members[0].value, fmt, depth),
          if |members| == 1 then Newline(fmt) + Indent(fmt, depth - 1) else [])
  }

  /** The text of the members with the layout before the first of them, in the grammar's order. */
  lemma MemberTextParts(c: LibC, members: seq<Member>, fmt: bool, depth: nat)
    requires depth > 0 && members != []
    ensures var e := EntryOf(members, fmt, depth);
            Newline(fmt) + PrintMembers(c, members, fmt, depth) ==
            e.before + (PrintString(members[0].key) + (":" + (e.beforeValue +
            (Print(c, members[0].value, fmt, depth) +
             (e.behind + if |members| == 1 then "}"
                         else "," + (Newline(fmt) + PrintMembers(c, members[1..], fmt, depth)))))))
  {
    hide *;
    PrintMembersIs(c, members, fmt, depth);
    EntryGaps(members, fmt, depth);
    var key, value := PrintString(members[0].key), Print(c, members[0].value, fmt, depth);
    var rest := PrintMembers(c, members[1..], fmt, depth);
    var e := EntryOf(members, fmt, depth);
    var tail := Comma(|members| == 1) + (Newline(fmt) + rest);
    if |members| == 1 {
      PrintMembersIs(c, members[1..], fmt, depth);
      NothingAdded(Newline(fmt) + rest);
      Assoc(Newline(fmt), Indent(fmt, depth - 1), "}");
    } else {
      NothingAdded(tail);
    }
    Assoc(":", e.beforeValue, value + tail);
    Assoc(Newline(fmt), Indent(fmt, depth), key + (Colon(fmt) + (value + tail)));
  }

  lemma PrintMembersIs(c: LibC, members: seq<Member>, fmt: bool, depth: nat)
    requires depth > 0
    ensures members == [] ==> PrintMembers(c, members, fmt, depth) == Indent(fmt, depth - 1) + "}"
    ensures members != [] ==>
              PrintMembers(c, members, fmt, depth) ==
              Indent(fmt, depth) + (PrintString(members[0].key) + (Colon(fmt) +
              (Print(c, members[0].value, fmt, depth) + (Comma(|members| == 1) + (Newline(fmt) +
              PrintMembers(c, members[1..], fmt, depth))))))
  {
    hide Print, PrintString, Indent, Colon, Newline, Comma;
  }

  lemma EntryGaps(members: seq<Member>, fmt: bool, depth: nat)
    requires depth > 0 && members != []
    ensures var e := EntryOf(members, fmt, depth);
            && e.before == Newline(fmt) + Indent(fmt, depth) && e.behindKey == []
            && e.beforeValue == (if fmt then "\t" else []) && ":" + e.beforeValue == Colon(fmt)
            && e.behind == (if |members| == 1 then Newline(fmt) + Indent(fmt, depth - 1) else [])
            && e.key == SpellString(PiecesOf(members[0].key)) && e.name == members[0].key
            && e.value == TreeOf(members[0].value, fmt, depth)
            && Comma(|members| == 1) == (if |members| == 1 then [] else ",")
    ensures |members| == 1 ==> members[1..] == []
  {
    hide TreeOf, PiecesOf, SpellString, Newline, Indent;
  }

  lemma {:induction false} MembersAreSpelled(c: LibC, members: seq<Member>, fmt: bool, depth: nat)
    requires ReadsIntegers(c)
    requires depth > 0 && forall k :: 0 <= k < |members| ==> NUL !in members[k].key && Plain(members[k].value)
    ensures AreSpelledMembers(c, members, EntriesOf(members, fmt, depth),
                              Newline(fmt) + PrintMembers(c, members, fmt, depth))
    decreases members, 0
  {
    hide *;
    var text := Newline(fmt) + PrintMembers(c, members, fmt, depth);
    var all := EntriesOf(members, fmt, depth);
    EntriesOfIs(members, fmt, depth);
    SpelledMembersIs(c, members, all, text);
    if members == [] {
      NoEntries(c);
    } else {
      var e, rest := EntryOf(members, fmt, depth), EntriesOf(members[1..], fmt, depth);
      var restText := Newline(fmt) + PrintMembers(c, members[1..], fmt, depth);
      MembersAreSpelled(c, members[1..], fmt, depth);
      SpelledMembersIs(c, members[1..], rest, restText);
      PrintIsSpelled(c, members[0].value, fmt, depth);
      TextOfIs(members[0].key);
      EntryGaps(members, fmt, depth);
      LayoutIsBlank(fmt, depth);
      LayoutIsBlank(fmt, depth - 1);
      EntryIs(c, members[0], e, Print(c, members[0].value, fmt, depth));
      ConsEntries(c, e, rest);
      FirstEntrySpelled(all);
      MemberTextParts(c, members, fmt, depth);
      MembersStep(all);
      assert members == [members[0]] + members[1..];
      assert MembersOf(all) == [MembersOf(all)[0]] + MembersOf(all)[1..];
    }
  }

  lemma NoEntries(c: LibC)
    ensures MembersOf([]) == [] && AreEntries(c, [], true)
  {
  }

  lemma TreeOfIs(c: LibC, t: Json, fmt: bool, depth: nat)
    ensures t.JArray? ==>
              && TreeOf(t, fmt, depth) == List([], ElementsOf(t.items, fmt, depth + 1, []))
              && Print(c, t, fmt, depth) == "[" + PrintItems(c, t.items, fmt, depth + 1)
              && (t.items == [] ==> PrintItems(c, t.items, fmt, depth + 1) == "]")
    ensures t.JObject? ==>
              && TreeOf(t, fmt, depth) ==
                 Record(if t.members == [] then Newline(fmt) + Indent(fmt, depth) else [],
                        EntriesOf(t.members, fmt, depth + 1))
              && Print(c, t, fmt, depth) == "{" + (Newline(fmt) + PrintMembers(c, t.members, fmt, depth + 1))
  {
    hide ElementsOf, EntriesOf, PrintMembers, Newline, Indent;
  }

  lemma ListIs(c: LibC, t: Json, items: seq<Json>, gap: string, elements: seq<Element>, text: string)
    requires t == JArray(items) && IsBlank(gap, true) && AreElements(c, elements, true)
    requires text == if elements == [] then gap + "]" else SpellElements(elements)
    requires ValuesOf(elements) == items
    ensures IsSpelled(c, t, List(gap, elements), "[" + text)
  {
    hide IsBlank, IsElement, SpellElements, ValuesOf;
  }

  lemma RecordIs(c: LibC, t: Json, members: seq<Member>, gap: string, entries: seq<Entry>, text: string)
    requires t == JObject(members) && IsBlank(gap, true) && AreEntries(c, entries, true)
    requires text == if entries == [] then gap + "}" else SpellEntries(entries)
    requires MembersOf(entries) == members
    ensures IsSpelled(c, t, Record(gap, entries), "{" + text)
  {
    hide IsBlank, IsEntry, SpellEntries, MembersOf;
  }

  lemma ListIsSpelled(c: LibC, items: seq<Json>, fmt: bool, depth: nat)
    requires AreSpelled(c, items, ElementsOf(items, fmt, depth + 1, []), [] + PrintItems(c, items, fmt, depth + 1))
    ensures IsSpelled(c, JArray(items), TreeOf(JArray(items), fmt, depth), Print(c, JArray(items), fmt, depth))
  {
    hide *;
    var elements, text := ElementsOf(items, fmt, depth + 1, []), PrintItems(c, items, fmt, depth + 1);
    NothingAdded(text);
    NothingAdded("]");
    SpelledIs(c, items, elements, text);
    TreeOfIs(c, JArray(items), fmt, depth);
    LayoutIsBlank(fmt, depth);
    ListIs(c, JArray(items), items, [], elements, text);
  }

  lemma RecordIsSpelled(c: LibC, members: seq<Member>, fmt: bool, depth: nat)
    requires AreSpelledMembers(c, members, EntriesOf(members, fmt, depth + 1),
                               Newline(fmt) + PrintMembers(c, members, fmt, depth + 1))
    ensures IsSpelled(c, JObject(members), TreeOf(JObject(members), fmt, depth), Print(c, JObject(members), fmt, depth))
  {
    hide *;
    var entries, text := EntriesOf(members, fmt, depth + 1), Newline(fmt) + PrintMembers(c, members, fmt, depth + 1);
    var gap := if members == [] then Newline(fmt) + Indent(fmt, depth) else [];
    SpelledMembersIs(c, members, entries, text);
    LayoutIsBlank(fmt, depth);
    PrintMembersIs(c, members, fmt, depth + 1);
    Assoc(Newline(fmt), Indent(fmt, depth), "}");
    TreeOfIs(c, JObject(members), fmt, depth);
    RecordIs(c, JObject(members), members, gap, entries, text);
  }

  lemma WordIsSpelled(c: LibC, t: Json, fmt: bool, depth: nat)
    requires t.JNull? || t.JFalse? || t.JTrue?
    ensures IsSpelled(c, t, TreeOf(t, fmt, depth), Print(c, t, fmt, depth))
  {
    
  }

  lemma PlainIs(c: LibC, t: Json, fmt: bool, depth: nat)
    requires Plain(t)
    ensures t.JNumber? ==> IsInt32(t.value) && Print(c, t, fmt, depth) == PrintNumber(c, t.value)
    ensures t.JString? ==> NUL !in t.text && Print(c, t, fmt, depth) == PrintString(t.text)
    ensures t.JArray? ==> forall k :: 0 <= k < |t.items| ==> Plain(t.items[k])
    ensures t.JObject? ==> forall k :: 0 <= k < |t.members| ==> NUL !in t.members[k].key && Plain(t.members[k].value)
  {
    hide PrintNumber, PrintString, IsInt32;
  }

  /**
   What the printer writes for a tree of plain values is a text of RFC 8259, formatted or not, and it means the
   tree.
   */
  lemma {:induction false} PrintIsSpelled(c: LibC, t: Json, fmt: bool, depth: nat)
    requires ReadsIntegers(c)
    requires Plain(t)
    ensures IsSpelled(c, t, TreeOf(t, fmt, depth), Print(c, t, fmt, depth))
    decreases t
  {
    hide *;
    PlainIs(c, t, fmt, depth);
    match t
    case JNumber(d) =>
      NumberIsSpelled(c, d, fmt, depth);
    case JString(s) =>
      StringIsSpelled(c, s, fmt, depth);
    case JArray(items) =>
      LayoutIsBlank(fmt, depth);
      ItemsAreSpelled(c, items, fmt, depth + 1, []);
      ListIsSpelled(c, items, fmt, depth);
    case JObject(members) =>
      MembersAreSpelled(c, members, fmt, depth + 1);
      RecordIsSpelled(c, members, fmt, depth);
    case _ =>
      WordIsSpelled(c, t, fmt, depth);
  }
}
