/** Parsing what was printed gives the tree back, exactly for trees within the nesting limit. */
module JsonRoundTrip {
  import opened Sequences
  import opened JsonString
  import opened JsonText

  // ---- Numbers ----

  lemma {:induction false} DigitsAreFew(n: nat, limit: nat, k: nat)
    requires n < limit && k >= 1
    requires limit == PowerOfTen(k)
    ensures |Digits(n)| <= k
    decreases k
  {
    if n >= 10 {
      DigitsAreFew(n / 10, PowerOfTen(k - 1), k - 1);
    }
  }

  function PowerOfTen(k: nat): (p: nat)
    ensures p >= 1
  {
    if k == 0 then 1 else 10 * PowerOfTen(k - 1)
  }

  lemma DecimalIsShort(n: int)
    requires INT_MIN <= n <= INT_MAX
    ensures |Decimal(n)| <= 11
  {
    var m := if n < 0 then -n else n;
    assert PowerOfTen(5) == 100000;
    assert PowerOfTen(10) == 10000000000;
    DigitsAreFew(m, PowerOfTen(10), 10);
  }

  lemma {:induction false} DigitsReadBack(n: nat)
    ensures ReadDigits(Digits(n)) == n
  {
    if n >= 10 {
      DigitsReadBack(n / 10);
      assert Digits(n)[..|Digits(n)| - 1] == Digits(n / 10);
    } else {
      assert Digits(n)[..0] == [];
    }
  }

  /** Reading the digits of a printed integer gives the integer. */
  lemma DecimalReadsBack(n: int)
    ensures IsIntegerText(Decimal(n)) && ReadInteger(Decimal(n)) == n
  {
    if n < 0 {
      DigitsReadBack(-n);
      assert Decimal(n)[1..] == Digits(-n);
    } else {
      DigitsReadBack(n);
    }
  }

  lemma {:induction false} TokenOfRun(content: string, i: nat, run: string, limit: nat)
    requires At(content, i, run) && |run| <= limit
    requires forall k :: 0 <= k < |run| ==> IsNumberChar(run[k])
    requires i + |run| < |content| && !IsNumberChar(content[i + |run|])
    ensures NumberToken(content, i, limit) == run
    decreases limit
  {
    if run != [] {
      assert run == [run[0]] + run[1..];
      AtIndex(content, i, run, 0);
      AtSplit(content, i, [run[0]], run[1..]);
      TokenOfRun(content, i + 1, run[1..], limit - 1);
    }
  }

  // ---- Whitespace ----

  lemma {:induction false} SkipTo(content: string, i: nat, j: nat)
    requires i <= j < |content| && content[j] as int > 32
    requires forall k :: i <= k < j ==> content[k] as int <= 32
    ensures SkipRun(content, i) == j && SkipWhitespace(content, i) == j
    decreases j - i
  {
    if i < j {
      SkipTo(content, i + 1, j);
    }
  }

  /** Blank layout followed by printed text is skipped exactly. */
  lemma SkipLayout(content: string, i: nat, layout: string, text: string)
    requires At(content, i, layout + text) && text != [] && text[0] as int > 32
    requires forall k :: 0 <= k < |layout| ==> layout[k] as int <= 32
    ensures SkipWhitespace(content, i) == i + |layout| && At(content, i + |layout|, text)
  {
    AtSplit(content, i, layout, text);
    AtIndex(content, i + |layout|, text, 0);
    forall k | i <= k < i + |layout|
      ensures content[k] as int <= 32
    {
      AtIndex(content, i, layout, k - i);
    }
    SkipTo(content, i, i + |layout|);
  }

  // ---- The round trip ----

  /** The character behind a printed value exists and cannot continue a number. */
  predicate Delimited(content: string, i: nat) {
    i < |content| && !IsNumberChar(content[i])
  }

  lemma PrintStarts(c: LibC, t: Json, fmt: bool, depth: nat)
    requires Plain(t)
    ensures var p := Print(c, t, fmt, depth);
            p != [] && p[0] as int > 32 && p[0] != ']' && p[0] as int < 0x80
  {
  }

  /** parse_value at a number whose characters strtod takes whole. */
  lemma NumberStep(c: LibC, content: string, i: nat, depth: nat, text: string, d: real)
    requires i < |content| && text != [] && content[i] == text[0] && (text[0] == '-' || '0' <= text[0] <= '9')
    requires NumberToken(content, i, 63) == text && c.strtod(text) == (d, |text|)
    ensures ParseValue(c, content, i, depth) == Parsed(JNumber(d), i + |text|)
  {
    NoKeyword(content, i);
    hide At, ParseString, ParseArray, ParseObject, NumberToken;
  }

  lemma NumberParses(c: LibC, d: real, content: string, i: nat, depth: nat)
    requires ReadsIntegers(c) && IsInt32(d)
    requires At(content, i, PrintNumber(c, d)) && Delimited(content, i + |PrintNumber(c, d)|)
    ensures ParseValue(c, content, i, depth) == Parsed(JNumber(d), i + |PrintNumber(c, d)|)
  {
    var text := Decimal(d.Floor);
    assert PrintNumber(c, d) == text;
    DecimalIsShort(d.Floor);
    DecimalReadsBack(d.Floor);
    AtIndex(content, i, text, 0);
    TokenOfRun(content, i, text, 63);
    assert c.strtod(text) == (d, |text|);
    hide *;
    NumberStep(c, content, i, depth, text, d);
  }

  /** Only one of the branches of parse_value fits what stands at `i`. */
  lemma NoKeyword(content: string, i: nat)
    requires i < |content|
    ensures content[i] != 'n' ==> !At(content, i, "null")
    ensures content[i] != 'f' ==> !At(content, i, "false")
    ensures content[i] != 't' ==> !At(content, i, "true")
  {
    if At(content, i, "null") {
      AtIndex(content, i, "null", 0);
    }
    if At(content, i, "false") {
      AtIndex(content, i, "false", 0);
    }
    if At(content, i, "true") {
      AtIndex(content, i, "true", 0);
    }
  }

  function Within<T>(depth: nat, nesting: nat, value: T, end: nat): Parsed<T> {
    if depth + nesting <= NESTING_LIMIT then Parsed(value, end) else Failed
  }

  lemma KeywordParses(c: LibC, t: Json, fmt: bool, printDepth: nat, content: string, i: nat, depth: nat)
    requires t.JNull? || t.JFalse? || t.JTrue?
    requires At(content, i, Print(c, t, fmt, printDepth))
    ensures ParseValue(c, content, i, depth) == Parsed(t, i + |Print(c, t, fmt, printDepth)|)
  {
    AtIndex(content, i, Print(c, t, fmt, printDepth), 0);
    NoKeyword(content, i);
  }

  /** The branch of parse_value is chosen by one character. */
  lemma Dispatch(c: LibC, content: string, i: nat, depth: nat)
    requires i < |content|
    ensures content[i] == QUOTE ==>
              ParseValue(c, content, i, depth) ==
              match ParseString(content, i)
              case Failed => Failed
              case Parsed(s, next) => Parsed(JString(s), next)
    ensures content[i] == '[' ==> ParseValue(c, content, i, depth) == ParseArray(c, content, i, depth)
    ensures content[i] == '{' ==> ParseValue(c, content, i, depth) == ParseObject(c, content, i, depth)
  {
    hide ParseString, ParseArray, ParseObject, ParseNumber;
    NoKeyword(content, i);
  }

  lemma StringParses(c: LibC, s: string, content: string, i: nat, depth: nat)
    requires NUL !in s && At(content, i, PrintString(s))
    ensures ParseValue(c, content, i, depth) == Parsed(JString(s), i + |PrintString(s)|)
  {
    AtIndex(content, i, PrintString(s), 0);
    hide ParseString, ParseValue, At;
    Dispatch(c, content, i, depth);
    StringRoundTrip(content, i, s);
  }

  /** parse_value undoes print_value wherever the printed text stands, exactly within the nesting limit. */
  lemma {:induction false} ValueParses(
      c: LibC, t: Json, fmt: bool, printDepth: nat, content: string, i: nat, depth: nat)
    requires ReadsIntegers(c) && Plain(t) && depth <= NESTING_LIMIT
    requires At(content, i, Print(c, t, fmt, printDepth))
    requires Delimited(content, i + |Print(c, t, fmt, printDepth)|)
    ensures ParseValue(c, content, i, depth) ==
            Within(depth, Nesting(t), t, i + |Print(c, t, fmt, printDepth)|)
    decreases t
  {
    hide ParseValue, ParseArray, ParseObject, PrintItems, PrintMembers, At, ReadsIntegers, PrintNumber;
    match t
    case JNumber(d) =>
      NumberParses(c, d, content, i, depth);
    case JString(s) =>
      StringParses(c, s, content, i, depth);
    case JArray(items) =>
      var rest := PrintItems(c, items, fmt, printDepth + 1);
      AtSplit(content, i, "[", rest);
      AtIndex(content, i, "[", 0);
      Dispatch(c, content, i, depth);
      ArrayParses(c, items, fmt, printDepth + 1, content, i, depth);
    case JObject(members) =>
      var rest := Newline(fmt) + PrintMembers(c, members, fmt, printDepth + 1);
      AtSplit(content, i, "{", rest);
      AtIndex(content, i, "{", 0);
      Dispatch(c, content, i, depth);
      ObjectParses(c, members, fmt, printDepth + 1, content, i, depth);
    case _ =>
      KeywordParses(c, t, fmt, printDepth, content, i, depth);
  }

  /** `mark` stands at `i` and is no blank. */
  predicate Marked(content: string, i: nat, mark: char) {
    i < |content| && content[i] == mark && SkipWhitespace(content, i) == i
  }

  lemma MarkedIs(content: string, i: nat, mark: char)
    requires Marked(content, i, mark)
    ensures i < |content| && content[i] == mark && SkipWhitespace(content, i) == i
  {
    hide SkipWhitespace;
  }

  lemma MarkedAt(content: string, i: nat, text: string)
    requires At(content, i, text) && text != [] && text[0] as int > 32
    ensures Marked(content, i, text[0]) && content[i] == text[0]
  {
    AtIndex(content, i, text, 0);
    SkipTo(content, i, i);
  }

  /** parse_array up to its first element. */
  lemma ParseArrayStep(c: LibC, content: string, i: nat, depth: nat, first: nat)
    requires i < |content| && SkipWhitespace(content, i + 1) == first < |content|
    ensures depth >= NESTING_LIMIT ==> ParseArray(c, content, i, depth) == Failed
    ensures depth < NESTING_LIMIT && content[first] == ']' ==>
              ParseArray(c, content, i, depth) == Parsed(JArray([]), first + 1)
    ensures depth < NESTING_LIMIT && content[first] != ']' ==>
              ParseArray(c, content, i, depth) ==
              match ParseItems(c, content, first, depth + 1)
              case Failed => Failed
              case Parsed(items, next) => Parsed(JArray(items), next)
  {
    hide ParseItems, SkipRun;
  }

  lemma ItemsStart(c: LibC, items: seq<Json>, fmt: bool, printDepth: nat)
    requires forall k :: 0 <= k < |items| ==> Plain(items[k])
    ensures var text := PrintItems(c, items, fmt, printDepth);
            text != [] && text[0] as int > 32 && (text[0] == ']' <==> items == [])
    ensures items == [] ==> |PrintItems(c, items, fmt, printDepth)| == 1 && NestingOfItems(items) == 0
  {
    if items != [] {
      PrintStarts(c, items[0], fmt, printDepth);
    }
  }

  lemma {:induction false} ArrayParses(
      c: LibC, items: seq<Json>, fmt: bool, printDepth: nat, content: string, i: nat, depth: nat)
    requires ReadsIntegers(c) && (forall k :: 0 <= k < |items| ==> Plain(items[k]))
    requires i < |content| && At(content, i + 1, PrintItems(c, items, fmt, printDepth))
    requires depth <= NESTING_LIMIT
    ensures ParseArray(c, content, i, depth) ==
            Within(depth, 1 + NestingOfItems(items), JArray(items),
                   i + 1 + |PrintItems(c, items, fmt, printDepth)|)
    decreases items, 1
  {
    hide PrintItems, ParseArray, ParseItems, At, SkipWhitespace, ReadsIntegers, Nesting, NestingOfItems;
    var text := PrintItems(c, items, fmt, printDepth);
    ItemsStart(c, items, fmt, printDepth);
    MarkedAt(content, i + 1, text);
    ParseArrayStep(c, content, i, depth, i + 1);
    if items != [] && depth < NESTING_LIMIT {
      assert [] + text == text;
      ItemsParse(c, items, fmt, printDepth, content, i + 1, [], depth + 1);
    }
  }

  lemma AppendStarts(text: string, rest: string)
    requires text != []
    ensures text + rest != [] && (text + rest)[0] == text[0]
  {
  }

  /** Blank layout, a value and what closes or continues the list, each at its place. */
  lemma ItemParts(content: string, i: nat, layout: string, first: string, tail: string)
    requires first != [] && first[0] as int > 32
    requires forall k :: 0 <= k < |layout| ==> layout[k] as int <= 32
    requires At(content, i, layout + (first + tail))
    ensures SkipWhitespace(content, i) == i + |layout|
    ensures At(content, i + |layout|, first) && At(content, i + |layout| + |first|, tail)
  {
    hide SkipWhitespace, At;
    AppendStarts(first, tail);
    SkipLayout(content, i, layout, first + tail);
    AtSplit(content, i + |layout|, first, tail);
  }

  lemma OneItemText(c: LibC, item: Json, fmt: bool, printDepth: nat, content: string, i: nat, layout: string)
    requires Plain(item) && (forall k :: 0 <= k < |layout| ==> layout[k] as int <= 32)
    requires At(content, i, layout + (Print(c, item, fmt, printDepth) + "]"))
    ensures var start, first := i + |layout|, Print(c, item, fmt, printDepth);
            && SkipWhitespace(content, i) == start && At(content, start, first)
            && Marked(content, start + |first|, ']') && Delimited(content, start + |first|)
  {
    PrintStarts(c, item, fmt, printDepth);
    hide Print, SkipWhitespace, At;
    var first := Print(c, item, fmt, printDepth);
    ItemParts(content, i, layout, first, "]");
    MarkedAt(content, i + |layout| + |first|, "]");
  }

  lemma SeparatorIs(fmt: bool)
    ensures Separator(fmt) != [] && Separator(fmt)[0] == ','
  {
  }

  lemma MoreItemsText(
      c: LibC, item: Json, rest: string, fmt: bool, printDepth: nat, content: string, i: nat, layout: string)
    requires Plain(item) && (forall k :: 0 <= k < |layout| ==> layout[k] as int <= 32)
    requires At(content, i, layout + (Print(c, item, fmt, printDepth) + (Separator(fmt) + rest)))
    ensures var start, first := i + |layout|, Print(c, item, fmt, printDepth);
            && SkipWhitespace(content, i) == start && At(content, start, first)
            && Marked(content, start + |first|, ',') && Delimited(content, start + |first|)
            && At(content, start + |first| + 1, Separator(fmt)[1..] + rest)
  {
    hide *;
    var first := Print(c, item, fmt, printDepth);
    PrintStarts(c, item, fmt, printDepth);
    SeparatorIs(fmt);
    ItemParts(content, i, layout, first, Separator(fmt) + rest);
    CommaText(content, i + |layout| + |first|, Separator(fmt), rest);
  }

  lemma CommaText(content: string, i: nat, separator: string, rest: string)
    requires At(content, i, separator + rest) && separator != [] && separator[0] == ','
    ensures Marked(content, i, ',') && At(content, i + 1, separator[1..] + rest) && Delimited(content, i)
    ensures SkipWhitespace(content, i) == i
  {
    assert separator + rest == [','] + (separator[1..] + rest);
    AtSplit(content, i, [','], separator[1..] + rest);
    MarkedAt(content, i, [',']);
  }

  /** How parse_array goes on behind one element. */
  lemma ParseItemsStep(c: LibC, content: string, i: nat, depth: nat, item: Json, behind: nat, next: nat)
    requires ParseValue(c, content, SkipWhitespace(content, i), depth) == Parsed(item, behind)
    requires SkipWhitespace(content, behind) == next
    ensures Marked(content, next, ']') ==> ParseItems(c, content, i, depth) == Parsed([item], next + 1)
    ensures Marked(content, next, ',') ==>
              ParseItems(c, content, i, depth) ==
              match ParseItems(c, content, next + 1, depth)
              case Failed => Failed
              case Parsed(items, end) => Parsed([item] + items, end)
  {
    hide ParseValue, SkipRun;
  }

  /** The results for the first element and for the others give the result for the list. */
  lemma CombineItems(
      c: LibC, content: string, i: nat, start: nat, depth: nat, items: seq<Json>, behind: nat, next: nat, end: nat)
    requires items != [] && SkipWhitespace(content, i) == start
    requires ParseValue(c, content, start, depth) == Within(depth, Nesting(items[0]), items[0], behind)
    requires SkipWhitespace(content, behind) == next
    requires |items| == 1 ==> Marked(content, next, ']') && end == next + 1
    requires |items| > 1 ==>
               Marked(content, next, ',') &&
               ParseItems(c, content, next + 1, depth) ==
               Within(depth, NestingOfItems(items[1..]), items[1..], end)
    ensures ParseItems(c, content, i, depth) == Within(depth, NestingOfItems(items), items, end)
  {
    assert items == [items[0]] + items[1..];
    if depth + Nesting(items[0]) <= NESTING_LIMIT {
      hide ParseItems, ParseValue, SkipWhitespace, Nesting;
      ParseItemsStep(c, content, i, depth, items[0], behind, next);
      assert |items| == 1 ==> items[1..] == [] && items == [items[0]];
    } else {
      hide ParseValue, SkipWhitespace, Nesting;
      assert NestingOfItems(items) >= Nesting(items[0]);
    }
  }

  lemma LengthOfItems(c: LibC, items: seq<Json>, fmt: bool, depth: nat)
    requires items != []
    ensures |PrintItems(c, items, fmt, depth)| ==
            |Print(c, items[0], fmt, depth)| +
            if |items| == 1 then 1 else |Separator(fmt)| + |PrintItems(c, items[1..], fmt, depth)|
  {
  }

  lemma OneElementText(
      c: LibC, items: seq<Json>, fmt: bool, printDepth: nat, content: string, i: nat, layout: string)
    requires |items| == 1 && Plain(items[0]) && (forall k :: 0 <= k < |layout| ==> layout[k] as int <= 32)
    requires At(content, i, layout + PrintItems(c, items, fmt, printDepth))
    ensures var start, first := i + |layout|, Print(c, items[0], fmt, printDepth);
            && SkipWhitespace(content, i) == start && At(content, start, first)
            && Marked(content, start + |first|, ']') && Delimited(content, start + |first|)
  {
    PrintItemsParts(c, items, fmt, printDepth);
    hide *;
    OneItemText(c, items[0], fmt, printDepth, content, i, layout);
  }

  lemma MoreElementsText(
      c: LibC, items: seq<Json>, fmt: bool, printDepth: nat, content: string, i: nat, layout: string)
    requires |items| > 1 && Plain(items[0]) && (forall k :: 0 <= k < |layout| ==> layout[k] as int <= 32)
    requires At(content, i, layout + PrintItems(c, items, fmt, printDepth))
    ensures var start, first := i + |layout|, Print(c, items[0], fmt, printDepth);
            && SkipWhitespace(content, i) == start && At(content, start, first)
            && Marked(content, start + |first|, ',') && Delimited(content, start + |first|)
            && At(content, start + |first| + 1, Separator(fmt)[1..] + PrintItems(c, items[1..], fmt, printDepth))
  {
    PrintItemsParts(c, items, fmt, printDepth);
    hide *;
    MoreItemsText(c, items[0], PrintItems(c, items[1..], fmt, printDepth), fmt, printDepth, content, i, layout);
  }

  /** The text of an element list: the first element, the mark behind it and, if there are more, their text. */
  lemma FirstElementText(
      c: LibC, items: seq<Json>, fmt: bool, printDepth: nat, content: string, i: nat, layout: string)
    requires items != [] && Plain(items[0]) && (forall k :: 0 <= k < |layout| ==> layout[k] as int <= 32)
    requires At(content, i, layout + PrintItems(c, items, fmt, printDepth))
    ensures var start, first := i + |layout|, Print(c, items[0], fmt, printDepth);
            && SkipWhitespace(content, i) == start && At(content, start, first) && Delimited(content, start + |first|)
            && Marked(content, start + |first|, if |items| == 1 then ']' else ',')
            && (|items| > 1 ==>
                  At(content, start + |first| + 1, Separator(fmt)[1..] + PrintItems(c, items[1..], fmt, printDepth)))
  {
    hide *;
    if |items| == 1 {
      OneElementText(c, items, fmt, printDepth, content, i, layout);
    } else {
      MoreElementsText(c, items, fmt, printDepth, content, i, layout);
    }
  }

  lemma PrintItemsParts(c: LibC, items: seq<Json>, fmt: bool, depth: nat)
    requires items != []
    ensures PrintItems(c, items, fmt, depth) ==
            Print(c, items[0], fmt, depth) +
            if |items| == 1 then "]" else Separator(fmt) + PrintItems(c, items[1..], fmt, depth)
  {
    hide Print, Separator;
  }

  lemma SeparatorIsBlank(fmt: bool)
    ensures Separator(fmt) != [] && forall k :: 0 <= k < |Separator(fmt)[1..]| ==> Separator(fmt)[1..][k] as int <= 32
  {
  }

  lemma {:induction false} ItemsParse(
      c: LibC, items: seq<Json>, fmt: bool, printDepth: nat, content: string, i: nat, layout: string, depth: nat)
    requires ReadsIntegers(c) && items != [] && (forall k :: 0 <= k < |items| ==> Plain(items[k]))
    requires depth <= NESTING_LIMIT && (forall k :: 0 <= k < |layout| ==> layout[k] as int <= 32)
    requires At(content, i, layout + PrintItems(c, items, fmt, printDepth))
    ensures ParseItems(c, content, i, depth) ==
            Within(depth, NestingOfItems(items), items,
                   i + |layout| + |PrintItems(c, items, fmt, printDepth)|)
    decreases items, 0
  {
    hide *;
    var start := i + |layout|;
    var next := start + |Print(c, items[0], fmt, printDepth)|;
    var end := start + |PrintItems(c, items, fmt, printDepth)|;
    LengthOfItems(c, items, fmt, printDepth);
    FirstElementText(c, items, fmt, printDepth, content, i, layout);
    ValueParses(c, items[0], fmt, printDepth, content, start, depth);
    if |items| > 1 {
      SeparatorIsBlank(fmt);
      ItemsParse(c, items[1..], fmt, printDepth, content, next + 1, Separator(fmt)[1..], depth);
    }
    MarkedIs(content, next, if |items| == 1 then ']' else ',');
    CombineItems(c, content, i, start, depth, items, next, next, end);
  }

  /** parse_object up to its first member. */
  lemma ParseObjectStep(c: LibC, content: string, i: nat, depth: nat, first: nat)
    requires i < |content| && SkipWhitespace(content, i + 1) == first < |content|
    ensures depth >= NESTING_LIMIT ==> ParseObject(c, content, i, depth) == Failed
    ensures depth < NESTING_LIMIT && content[first] == '}' ==>
              ParseObject(c, content, i, depth) == Parsed(JObject([]), first + 1)
    ensures depth < NESTING_LIMIT && content[first] != '}' ==>
              ParseObject(c, content, i, depth) ==
              match ParseMembers(c, content, first, depth + 1)
              case Failed => Failed
              case Parsed(members, next) => Parsed(JObject(members), next)
  {
    hide ParseMembers, SkipRun;
  }

  lemma EmptyObjectText(c: LibC, fmt: bool, printDepth: nat)
    requires printDepth > 0
    ensures Newline(fmt) + PrintMembers(c, [], fmt, printDepth) ==
            (Newline(fmt) + Indent(fmt, printDepth - 1)) + "}"
  {
  }

  /** The text of an object behind its opening brace, split before the first thing that is no blank. */
  function ObjectLayout(members: seq<Member>, fmt: bool, depth: nat): string
    requires depth > 0
  {
    Newline(fmt) + Indent(fmt, if members == [] then depth - 1 else depth)
  }

  function ObjectBody(c: LibC, members: seq<Member>, fmt: bool, depth: nat): (body: string)
    requires depth > 0
    ensures body != [] && body[0] == (if members == [] then '}' else '\"') && (members == [] ==> |body| == 1)
    ensures members != [] ==> [] + MemberBody(c, members, fmt, depth) == body
  {
    if members == [] then "}" else MemberBody(c, members, fmt, depth)
  }

  lemma ObjectParts(c: LibC, members: seq<Member>, fmt: bool, depth: nat)
    requires depth > 0
    ensures ObjectLayout(members, fmt, depth) == Newline(fmt) + Indent(fmt, if members == [] then depth - 1 else depth)
    ensures ObjectBody(c, members, fmt, depth) == if members == [] then "}" else MemberBody(c, members, fmt, depth)
    ensures forall k :: 0 <= k < |ObjectLayout(members, fmt, depth)| ==>
              ObjectLayout(members, fmt, depth)[k] as int <= 32
  {
    GapIsBlank(fmt, if members == [] then depth - 1 else depth);
    hide Newline, Indent, MemberBody;
  }

  lemma ObjectTextSplits(c: LibC, members: seq<Member>, fmt: bool, depth: nat)
    requires depth > 0
    ensures var layout, body := ObjectLayout(members, fmt, depth), ObjectBody(c, members, fmt, depth);
            && Newline(fmt) + PrintMembers(c, members, fmt, depth) == layout + body
            && |Newline(fmt) + PrintMembers(c, members, fmt, depth)| == |layout| + |body|
            && forall k :: 0 <= k < |layout| ==> layout[k] as int <= 32
  {
    hide *;
    ObjectParts(c, members, fmt, depth);
    if members == [] {
      EmptyObjectText(c, fmt, depth);
    } else {
      Assoc(Newline(fmt), Indent(fmt, depth), MemberBody(c, members, fmt, depth));
    }
    Border(ObjectLayout(members, fmt, depth), ObjectBody(c, members, fmt, depth));
  }

  lemma {:induction false} ObjectParses(
      c: LibC, members: seq<Member>, fmt: bool, printDepth: nat, content: string, i: nat, depth: nat)
    requires ReadsIntegers(c) && printDepth > 0 && i < |content| && depth <= NESTING_LIMIT
    requires forall k :: 0 <= k < |members| ==> NUL !in members[k].key && Plain(members[k].value)
    requires At(content, i + 1, Newline(fmt) + PrintMembers(c, members, fmt, printDepth))
    ensures ParseObject(c, content, i, depth) ==
            Within(depth, 1 + NestingOfMembers(members), JObject(members),
                   i + 1 + |Newline(fmt) + PrintMembers(c, members, fmt, printDepth)|)
    decreases members, 1
  {
    hide *;
    var layout, body := ObjectLayout(members, fmt, printDepth), ObjectBody(c, members, fmt, printDepth);
    var first := i + 1 + |layout|;
    ObjectTextSplits(c, members, fmt, printDepth);
    SkipLayout(content, i + 1, layout, body);
    MarkedAt(content, first, body);
    if members != [] && depth < NESTING_LIMIT {
      MembersParse(c, members, fmt, printDepth, content, first, [], depth + 1);
    }
    ObjectOfMembers(c, content, i, depth, members, first, first + |body|);
  }

  /** The result for the members gives the result for the object. */
  lemma ObjectOfMembers(
      c: LibC, content: string, i: nat, depth: nat, members: seq<Member>, first: nat, end: nat)
    requires i < |content| && SkipWhitespace(content, i + 1) == first < |content| && depth <= NESTING_LIMIT
    requires content[first] == if members == [] then '}' else '\"'
    requires members == [] ==> end == first + 1
    requires members != [] && depth < NESTING_LIMIT ==>
               ParseMembers(c, content, first, depth + 1) == Within(depth + 1, NestingOfMembers(members), members, end)
    ensures ParseObject(c, content, i, depth) == Within(depth, 1 + NestingOfMembers(members), JObject(members), end)
  {
    ParseObjectStep(c, content, i, depth, first);
    hide ParseObject, ParseMembers, SkipWhitespace, Nesting;
  }

  /** A printed member list without its first indentation. */
  function MemberBody(c: LibC, members: seq<Member>, fmt: bool, depth: nat): (body: string)
    requires depth > 0 && members != []
    ensures PrintMembers(c, members, fmt, depth) == Indent(fmt, depth) + body
    ensures body != [] && body[0] == QUOTE
  {
    PrintString(members[0].key) + (Colon(fmt) +
    (Print(c, members[0].value, fmt, depth) + (Comma(|members| == 1) + (Newline(fmt) +
    PrintMembers(c, members[1..], fmt, depth)))))
  }

  lemma ColonIs(fmt: bool)
    ensures Colon(fmt) == ":" || Colon(fmt) == ":\t"
  {
  }

  /** The key and the colon of a printed member are parsed, up to the start of its value. */
  lemma KeyParses(content: string, i: nat, key: string, fmt: bool, text: string)
    requires NUL !in key && text != [] && text[0] as int > 32
    requires At(content, i, PrintString(key) + (Colon(fmt) + text))
    ensures var colon := i + |PrintString(key)|;
            && ParseString(content, i) == Parsed(key, colon) && Marked(content, colon, ':')
            && SkipWhitespace(content, colon + 1) == colon + |Colon(fmt)|
            && At(content, colon + |Colon(fmt)|, text)
  {
    hide *;
    ColonIs(fmt);
    AtSplit(content, i, PrintString(key), Colon(fmt) + text);
    StringRoundTrip(content, i, key);
    ColonText(content, i + |PrintString(key)|, Colon(fmt), text);
  }

  lemma ColonText(content: string, i: nat, colon: string, text: string)
    requires At(content, i, colon + text) && (colon == ":" || colon == ":\t")
    requires text != [] && text[0] as int > 32
    ensures Marked(content, i, ':')
    ensures SkipWhitespace(content, i + 1) == i + |colon| && At(content, i + |colon|, text)
  {
    assert colon + text == ":" + (colon[1..] + text);
    AtSplit(content, i, ":", colon[1..] + text);
    MarkedAt(content, i, ":");
    SkipLayout(content, i + 1, colon[1..], text);
  }

  /** What follows the value of a printed member. */
  function BehindValue(c: LibC, members: seq<Member>, fmt: bool, depth: nat): string
    requires depth > 0 && members != []
  {
    Comma(|members| == 1) + (Newline(fmt) + PrintMembers(c, members[1..], fmt, depth))
  }

  /** Behind the last value of an object only layout comes before the closing brace. */
  lemma LastMemberText(c: LibC, members: seq<Member>, fmt: bool, printDepth: nat, content: string, i: nat)
    requires printDepth > 0 && |members| == 1
    requires At(content, i, BehindValue(c, members, fmt, printDepth))
    ensures Delimited(content, i)
    ensures var brace := i + |BehindValue(c, members, fmt, printDepth)| - 1;
            Marked(content, brace, '}') && SkipWhitespace(content, i) == brace
  {
    var layout := Newline(fmt) + Indent(fmt, printDepth - 1);
    assert members[1..] == [];
    assert BehindValue(c, members, fmt, printDepth) == layout + "}";
    SkipLayout(content, i, layout, "}");
    MarkedAt(content, i + |layout|, "}");
    AtIndex(content, i, layout + "}", 0);
  }

  /** Behind any other value comes a comma, and then layout before the next key. */
  lemma NextMemberText(c: LibC, members: seq<Member>, fmt: bool, printDepth: nat, content: string, i: nat)
    requires printDepth > 0 && |members| > 1
    requires At(content, i, BehindValue(c, members, fmt, printDepth))
    ensures Delimited(content, i) && Marked(content, i, ',') && SkipWhitespace(content, i) == i
    ensures var gap := Newline(fmt) + Indent(fmt, printDepth);
            && (forall k :: 0 <= k < |gap| ==> gap[k] as int <= 32)
            && At(content, i + 1, gap + MemberBody(c, members[1..], fmt, printDepth))
  {
    GapIsBlank(fmt, printDepth);
    BehindNext(c, members, fmt, printDepth);
    hide *;
    CommaText(content, i, ",", Newline(fmt) + Indent(fmt, printDepth) + MemberBody(c, members[1..], fmt, printDepth));
  }

  lemma GapIsBlank(fmt: bool, printDepth: nat)
    ensures var gap := Newline(fmt) + Indent(fmt, printDepth);
            forall k :: 0 <= k < |gap| ==> gap[k] as int <= 32
  {
  }

  lemma BehindNext(c: LibC, members: seq<Member>, fmt: bool, depth: nat)
    requires depth > 0 && |members| > 1
    ensures BehindValue(c, members, fmt, depth) ==
            "," + (Newline(fmt) + Indent(fmt, depth) + MemberBody(c, members[1..], fmt, depth))
    ensures ","[1..] + (Newline(fmt) + Indent(fmt, depth) + MemberBody(c, members[1..], fmt, depth)) ==
            Newline(fmt) + Indent(fmt, depth) + MemberBody(c, members[1..], fmt, depth)
  {
    hide PrintMembers, Newline, Indent, MemberBody;
    var body := MemberBody(c, members[1..], fmt, depth);
    assert Newline(fmt) + (Indent(fmt, depth) + body) == Newline(fmt) + Indent(fmt, depth) + body;
  }

  /** How parse_object goes on behind one member. */
  lemma ParseMembersStep(c: LibC, content: string, i: nat, depth: nat, member: Member, behind: nat, next: nat)
    requires i < |content|
    requires ParseMember(c, content, SkipWhitespace(content, i), depth) == Parsed(member, behind)
    requires SkipWhitespace(content, behind) == next
    ensures Marked(content, next, '}') ==> ParseMembers(c, content, i, depth) == Parsed([member], next + 1)
    ensures Marked(content, next, ',') ==>
              ParseMembers(c, content, i, depth) ==
              match ParseMembers(c, content, next + 1, depth)
              case Failed => Failed
              case Parsed(members, end) => Parsed([member] + members, end)
  {
    hide ParseMember, SkipRun;
  }

  lemma ParseMemberStep(
      c: LibC, content: string, i: nat, depth: nat, member: Member, behindKey: nat, colon: nat, valueAt: nat,
      nesting: nat, behind: nat)
    requires i < |content| && ParseString(content, i) == Parsed(member.key, behindKey)
    requires SkipWhitespace(content, behindKey) == colon && Marked(content, colon, ':')
    requires SkipWhitespace(content, colon + 1) == valueAt
    requires ParseValue(c, content, valueAt, depth) == Within(depth, nesting, member.value, behind)
    ensures ParseMember(c, content, i, depth) == Within(depth, nesting, member, behind)
  {
    hide ParseString, ParseValue, SkipRun;
  }

  /** A key, a colon, a value and what follows it, each at its place. */
  lemma MemberParts(
      content: string, i: nat, layout: string, key: string, fmt: bool, text: string, behind: string, body: string)
    requires NUL !in key && text != [] && text[0] as int > 32
    requires forall k :: 0 <= k < |layout| ==> layout[k] as int <= 32
    requires body == PrintString(key) + (Colon(fmt) + (text + behind)) && At(content, i, layout + body)
    ensures var start := i + |layout|;
            var colon := start + |PrintString(key)|;
            var valueAt := colon + |Colon(fmt)|;
            && i < |content| && SkipWhitespace(content, i) == start
            && ParseString(content, start) == Parsed(key, colon) && Marked(content, colon, ':')
            && SkipWhitespace(content, colon + 1) == valueAt && At(content, valueAt, text)
            && At(content, valueAt + |text|, behind)
  {
    hide ParseString, SkipWhitespace, At, Marked, Colon, Escape;
    AppendStarts(text, behind);
    AppendStarts(PrintString(key), Colon(fmt) + (text + behind));
    SkipLayout(content, i, layout, body);
    AtIndex(content, i, layout + body, 0);
    KeyParses(content, i + |layout|, key, fmt, text + behind);
    AtSplit(content, i + |layout| + |PrintString(key)| + |Colon(fmt)|, text, behind);
  }

  lemma MemberBodyParts(c: LibC, members: seq<Member>, fmt: bool, depth: nat)
    requires depth > 0 && members != []
    ensures MemberBody(c, members, fmt, depth) ==
            PrintString(members[0].key) + (Colon(fmt) +
            (Print(c, members[0].value, fmt, depth) + BehindValue(c, members, fmt, depth)))
  {
    hide Print, PrintMembers, PrintString, Colon, Comma, Newline;
  }

  /** Where the parts of the first printed member stand. */
  lemma FirstMemberText(
      c: LibC, members: seq<Member>, fmt: bool, printDepth: nat, content: string, i: nat, layout: string)
    requires printDepth > 0 && members != [] && NUL !in members[0].key && Plain(members[0].value)
    requires forall k :: 0 <= k < |layout| ==> layout[k] as int <= 32
    requires At(content, i, layout + MemberBody(c, members, fmt, printDepth))
    ensures var start := i + |layout|;
            var colon := start + |PrintString(members[0].key)|;
            var valueAt := colon + |Colon(fmt)|;
            var text := Print(c, members[0].value, fmt, printDepth);
            && i < |content| && SkipWhitespace(content, i) == start && start < |content|
            && ParseString(content, start) == Parsed(members[0].key, colon) && Marked(content, colon, ':')
            && SkipWhitespace(content, colon + 1) == valueAt && At(content, valueAt, text)
            && At(content, valueAt + |text|, BehindValue(c, members, fmt, printDepth))
  {
    hide *;
    PrintStarts(c, members[0].value, fmt, printDepth);
    MemberBodyParts(c, members, fmt, printDepth);
    MemberParts(content, i, layout, members[0].key, fmt, Print(c, members[0].value, fmt, printDepth),
                BehindValue(c, members, fmt, printDepth), MemberBody(c, members, fmt, printDepth));
  }

  /** The results for the first member and for the others give the result for the list. */
  lemma CombineMembers(
      c: LibC, content: string, i: nat, start: nat, depth: nat, members: seq<Member>, behind: nat, next: nat, end: nat)
    requires members != [] && i < |content| && SkipWhitespace(content, i) == start
    requires start < |content| && ParseMember(c, content, start, depth) ==
                                  Within(depth, Nesting(members[0].value), members[0], behind)
    requires SkipWhitespace(content, behind) == next
    requires |members| == 1 ==> Marked(content, next, '}') && end == next + 1
    requires |members| > 1 ==>
               Marked(content, next, ',') &&
               ParseMembers(c, content, next + 1, depth) ==
               Within(depth, NestingOfMembers(members[1..]), members[1..], end)
    ensures ParseMembers(c, content, i, depth) == Within(depth, NestingOfMembers(members), members, end)
  {
    assert members == [members[0]] + members[1..];
    assert |members| == 1 ==> members[1..] == [] && members == [members[0]];
    NestingOfFirst(members);
    if depth + Nesting(members[0].value) <= NESTING_LIMIT {
      ParseMembersStep(c, content, i, depth, members[0], behind, next);
      hide ParseMembers, ParseMember, SkipWhitespace, Nesting, NestingOfMembers;
    } else {
      hide ParseMember, SkipWhitespace, Nesting, NestingOfMembers;
    }
  }

  lemma NestingOfFirst(members: seq<Member>)
    requires members != []
    ensures NestingOfMembers(members) == Max(Nesting(members[0].value), NestingOfMembers(members[1..]))
    ensures members[1..] == [] ==> NestingOfMembers(members[1..]) == 0
  {
    hide Nesting;
  }

  lemma LengthOfMembers(c: LibC, members: seq<Member>, fmt: bool, depth: nat)
    requires depth > 0 && members != []
    ensures |MemberBody(c, members, fmt, depth)| ==
            |PrintString(members[0].key)| + |Colon(fmt)| + |Print(c, members[0].value, fmt, depth)| +
            |BehindValue(c, members, fmt, depth)|
    ensures |members| > 1 ==>
              |BehindValue(c, members, fmt, depth)| ==
              1 + |Newline(fmt) + Indent(fmt, depth)| + |MemberBody(c, members[1..], fmt, depth)|
  {
  }

  lemma {:induction false} MembersParse(
      c: LibC, members: seq<Member>, fmt: bool, printDepth: nat, content: string, i: nat, layout: string, depth: nat)
    requires ReadsIntegers(c) && printDepth > 0 && depth <= NESTING_LIMIT && members != []
    requires forall k :: 0 <= k < |members| ==> NUL !in members[k].key && Plain(members[k].value)
    requires forall k :: 0 <= k < |layout| ==> layout[k] as int <= 32
    requires At(content, i, layout + MemberBody(c, members, fmt, printDepth))
    ensures ParseMembers(c, content, i, depth) ==
            Within(depth, NestingOfMembers(members), members,
                   i + |layout| + |MemberBody(c, members, fmt, printDepth)|)
    decreases members, 0
  {
    hide *;
    var start := i + |layout|;
    var colon := start + |PrintString(members[0].key)|;
    var valueAt := colon + |Colon(fmt)|;
    var behind := valueAt + |Print(c, members[0].value, fmt, printDepth)|;
    var end := start + |MemberBody(c, members, fmt, printDepth)|;
    var nesting := Nesting(members[0].value);
    LengthOfMembers(c, members, fmt, printDepth);
    FirstMemberText(c, members, fmt, printDepth, content, i, layout);
    MarkedIs(content, colon, ':');
    if |members| == 1 {
      LastMemberText(c, members, fmt, printDepth, content, behind);
      ValueParses(c, members[0].value, fmt, printDepth, content, valueAt, depth);
      ParseMemberStep(c, content, start, depth, members[0], colon, colon, valueAt, nesting, behind);
      CombineMembers(c, content, i, start, depth, members, behind, end - 1, end);
    } else {
      NextMemberText(c, members, fmt, printDepth, content, behind);
      var gap := Newline(fmt) + Indent(fmt, printDepth);
      MembersParse(c, members[1..], fmt, printDepth, content, behind + 1, gap, depth);
      ValueParses(c, members[0].value, fmt, printDepth, content, valueAt, depth);
      ParseMemberStep(c, content, start, depth, members[0], colon, colon, valueAt, nesting, behind);
      CombineMembers(c, content, i, start, depth, members, behind, behind, end);
    }
  }

  // ---- The document ----

  lemma ValueAtStart(text: string)
    requires text != []
    ensures At(text + [NUL], 0, text) && Delimited(text + [NUL], |text|)
  {
  }

  /** The result for the value at the start of a text gives the result for the document. */
  lemma DocumentOfValue(c: LibC, text: string, t: Json, nesting: nat, requireNullTerminated: bool)
    requires text != [] && 32 < text[0] as int < 0x80
    requires ParseValue(c, text + [NUL], 0, 0) == Within(0, nesting, t, |text|)
    ensures ParseDocument(c, text, requireNullTerminated) ==
            if nesting <= NESTING_LIMIT then Parsed(t, |text|) else Failed
  {
    var content := text + [NUL];
    assert content[0] == text[0] && content[0] != BYTE_ORDER_MARK[0];
    SkipTo(content, 0, 0);
    assert SkipRun(content, |text|) == |text| + 1;
    hide ParseValue, SkipRun;
  }

  lemma ParsesAtStart(c: LibC, t: Json, fmt: bool)
    requires ReadsIntegers(c) && Plain(t)
    ensures var text := Print(c, t, fmt, 0);
            ParseValue(c, text + [NUL], 0, 0) == Within(0, Nesting(t), t, |text|)
  {
    hide *;
    var text := Print(c, t, fmt, 0);
    PrintStarts(c, t, fmt, 0);
    ValueAtStart(text);
    ValueParses(c, t, fmt, 0, text + [NUL], 0, 0);
  }

  /**
   The parser undoes the printer: for every tree of plain values, formatted or not, with or without the
   demand for a terminating NUL, the same tree comes back and the whole print is consumed, if and only
   if no more than NESTING_LIMIT arrays and objects are nested in each other.
   */
  lemma PrintThenParse(c: LibC, t: Json, fmt: bool, requireNullTerminated: bool)
    requires ReadsIntegers(c) && Plain(t)
    ensures var text := Print(c, t, fmt, 0);
            ParseDocument(c, text, requireNullTerminated) ==
            if Nesting(t) <= NESTING_LIMIT then Parsed(t, |text|) else Failed
  {
    hide *;
    var text := Print(c, t, fmt, 0);
    PrintStarts(c, t, fmt, 0);
    ParsesAtStart(c, t, fmt);
    DocumentOfValue(c, text, t, Nesting(t), requireNullTerminated);
  }
}
