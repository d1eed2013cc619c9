/**
 Printing and parsing of JSON trees in src/Libs/cJSON/cJSON.c, as functions on text. The buffers that
 the source advances in place are the subject of JsonPrinter and JsonParser.
 */
module JsonText {
  import opened JsonString

  datatype Json =
    | JNull
    | JFalse
    | JTrue
    | JNumber(value: real)
    | JString(text: string)
    | JArray(items: seq<Json>)
    | JObject(members: seq<Member>)

  datatype Member = Member(key: string, value: Json)

  /** What the C library does for numbers: value and consumed characters of strtod, and the %g formats. */
  datatype LibC = LibC(strtod: string -> (real, nat), printReal: real -> string)

  const NESTING_LIMIT: nat := 1000
  const INT_MIN := -0x8000_0000
  const INT_MAX := 0x7FFF_FFFF

  predicate IsInt32(d: real) {
    INT_MIN as real <= d <= INT_MAX as real && d == d.Floor as real
  }

  // ---- Printing ----

  function Digits(n: nat): (s: string)
    ensures |s| >= 1 && (forall i :: 0 <= i < |s| ==> '0' <= s[i] <= '9')
  {
    if n < 10 then [('0' as int + n) as char] else Digits(n / 10) + [('0' as int + n % 10) as char]
  }

  /** The %d format. */
  function Decimal(n: int): (s: string)
    ensures |s| >= 1 && (s[0] == '-' || '0' <= s[0] <= '9')
    ensures forall i :: 0 <= i < |s| ==> IsNumberChar(s[i])
  {
    if n < 0 then ['-'] + Digits(-n) else Digits(n)
  }

  function PrintNumber(c: LibC, d: real): string {
    if IsInt32(d) then Decimal(d.Floor) else c.printReal(d)
  }

  function Tabs(n: nat): (s: string)
    ensures |s| == n && forall i :: 0 <= i < n ==> s[i] == '\t'
  {
    seq(n, i => '\t')
  }

  function Separator(fmt: bool): string { if fmt then ", " else "," }
  function Colon(fmt: bool): string { if fmt then ":\t" else ":" }
  function Newline(fmt: bool): string { if fmt then "\n" else "" }
  function Indent(fmt: bool, depth: nat): string { if fmt then Tabs(depth) else "" }

  /** print_value at nesting depth `depth`, formatted or not. */
  function Print(c: LibC, t: Json, fmt: bool, depth: nat): string
    decreases t
  {
    match t
    case JNull => "null"
    case JFalse => "false"
    case JTrue => "true"
    case JNumber(d) => PrintNumber(c, d)
    case JString(s) => PrintString(s)
    case JArray(items) => "[" + PrintItems(c, items, fmt, depth + 1)
    case JObject(members) => "{" + (Newline(fmt) + PrintMembers(c, members, fmt, depth + 1))
  }

  /** The elements of an array, up to and including the closing bracket. */
  function PrintItems(c: LibC, items: seq<Json>, fmt: bool, depth: nat): string
    decreases items
  {
    if items == [] then "]"
    else if |items| == 1 then Print(c, items[0], fmt, depth) + "]"
    else Print(c, items[0], fmt, depth) + (Separator(fmt) + PrintItems(c, items[1..], fmt, depth))
  }

  function Comma(last: bool): string { if last then "" else "," }

  /** The members of an object, up to and including the closing brace. */
  function PrintMembers(c: LibC, members: seq<Member>, fmt: bool, depth: nat): string
    requires depth > 0
    decreases members
  {
    if members == [] then Indent(fmt, depth - 1) + "}"
    else
      Indent(fmt, depth) + (PrintString(members[0].key) + (Colon(fmt) +
      (Print(c, members[0].value, fmt, depth) + (Comma(|members| == 1) + (Newline(fmt) +
      PrintMembers(c, members[1..], fmt, depth))))))
  }

  // ---- Parsing ----

  /** The first position from `i` on that holds no character up to the blank. */
  function SkipRun(content: string, i: nat): (r: nat)
    requires i <= |content|
    ensures i <= r <= |content|
    decreases |content| - i
  {
    if i < |content| && content[i] as int <= 32 then SkipRun(content, i + 1) else i
  }

  /** buffer_skip_whitespace: control characters and NUL count as blanks, and the end is stepped back from. */
  function SkipWhitespace(content: string, i: nat): (r: nat)
    ensures r >= i && (i < |content| ==> r < |content|) && (i >= |content| ==> r == i)
  {
    if i >= |content| then i
    else var r := SkipRun(content, i); if r == |content| then r - 1 else r
  }

  lemma {:induction false} RunIsBlank(content: string, i: nat)
    requires i <= |content|
    ensures forall k :: i <= k < SkipRun(content, i) ==> content[k] as int <= 32
    ensures SkipRun(content, i) < |content| ==> content[SkipRun(content, i)] as int > 32
    decreases |content| - i
  {
    if i < |content| && content[i] as int <= 32 {
      RunIsBlank(content, i + 1);
    }
  }

  /** Only blanks are skipped, and all of them, except that the last character is never left behind. */
  lemma SkipsBlanks(content: string, i: nat)
    requires i < |content|
    ensures var r := SkipWhitespace(content, i);
            && i <= r < |content| && (forall k :: i <= k < r ==> content[k] as int <= 32)
            && (content[r] as int > 32 || r == |content| - 1)
  {
    RunIsBlank(content, i);
  }

  predicate IsNumberChar(c: char) {
    '0' <= c <= '9' || c == '+' || c == '-' || c == 'e' || c == 'E' || c == '.'
  }

  /** The characters parse_number hands to strtod: at most 63. */
  function NumberToken(content: string, i: nat, limit: nat): (token: string)
    ensures |token| <= limit && (i <= |content| ==> i + |token| <= |content|)
    decreases limit
  {
    if limit > 0 && i < |content| && IsNumberChar(content[i]) then
      [content[i]] + NumberToken(content, i + 1, limit - 1)
    else []
  }

  function ParseNumber(c: LibC, content: string, i: nat): (r: Parsed<Json>)
    requires i < |content|
    ensures r.Parsed? ==> i < r.offset <= |content|
  {
    var token := NumberToken(content, i, 63);
    var (value, used) := c.strtod(token);
    if used == 0 || used > |token| then Failed else Parsed(JNumber(value), i + used)
  }

  function ParseValue(c: LibC, content: string, i: nat, depth: nat): (r: Parsed<Json>)
    ensures r.Parsed? ==> i < r.offset <= |content|
    decreases |content| - i, 1
  {
    if At(content, i, "null") then Parsed(JNull, i + 4)
    else if At(content, i, "false") then Parsed(JFalse, i + 5)
    else if At(content, i, "true") then Parsed(JTrue, i + 4)
    else if i >= |content| then Failed
    else if content[i] == QUOTE then
      match ParseString(content, i)
      case Failed => Failed
      case Parsed(s, next) => Parsed(JString(s), next)
    else if content[i] == '-' || '0' <= content[i] <= '9' then ParseNumber(c, content, i)
    else if content[i] == '[' then ParseArray(c, content, i, depth)
    else if content[i] == '{' then ParseObject(c, content, i, depth)
    else Failed
  }

  function ParseArray(c: LibC, content: string, i: nat, depth: nat): (r: Parsed<Json>)
    requires i < |content|
    ensures r.Parsed? ==> i < r.offset <= |content|
    decreases |content| - i, 0
  {
    if depth >= NESTING_LIMIT then Failed
    else
      var first := SkipWhitespace(content, i + 1);
      if first >= |content| then Failed
      else if content[first] == ']' then Parsed(JArray([]), first + 1)
      else
        match ParseItems(c, content, first, depth + 1)
        case Failed => Failed
        case Parsed(items, next) => Parsed(JArray(items), next)
  }

  /** The loop of parse_array from one element on; `depth` is the depth inside the array. */
  function ParseItems(c: LibC, content: string, i: nat, depth: nat): (r: Parsed<seq<Json>>)
    ensures r.Parsed? ==> i < r.offset <= |content|
    decreases |content| - i, 2
  {
    match ParseValue(c, content, SkipWhitespace(content, i), depth)
    case Failed => Failed
    case Parsed(item, behind) =>
      var next := SkipWhitespace(content, behind);
      if next >= |content| then Failed
      else if content[next] == ',' then
        match ParseItems(c, content, next + 1, depth)
        case Failed => Failed
        case Parsed(items, end) => Parsed([item] + items, end)
      else if content[next] == ']' then Parsed([item], next + 1)
      else Failed
  }

  function ParseObject(c: LibC, content: string, i: nat, depth: nat): (r: Parsed<Json>)
    requires i < |content|
    ensures r.Parsed? ==> i < r.offset <= |content|
    decreases |content| - i, 0
  {
    if depth >= NESTING_LIMIT then Failed
    else
      var first := SkipWhitespace(content, i + 1);
      if first >= |content| then Failed
      else if content[first] == '}' then Parsed(JObject([]), first + 1)
      else
        match ParseMembers(c, content, first, depth + 1)
        case Failed => Failed
        case Parsed(members, next) => Parsed(JObject(members), next)
  }

  /** One member: a key, a colon and a value. */
  function ParseMember(c: LibC, content: string, i: nat, depth: nat): (r: Parsed<Member>)
    requires i < |content|
    ensures r.Parsed? ==> i < r.offset <= |content|
    decreases |content| - i, 2
  {
    match ParseString(content, i)
    case Failed => Failed
    case Parsed(key, behindKey) =>
      var colon := SkipWhitespace(content, behindKey);
      if colon >= |content| || content[colon] != ':' then Failed
      else
        match ParseValue(c, content, SkipWhitespace(content, colon + 1), depth)
        case Failed => Failed
        case Parsed(value, behind) => Parsed(Member(key, value), behind)
  }

  /** The loop of parse_object from one member on; `depth` is the depth inside the object. */
  function ParseMembers(c: LibC, content: string, i: nat, depth: nat): (r: Parsed<seq<Member>>)
    ensures r.Parsed? ==> i < r.offset <= |content|
    decreases |content| - i, 3
  {
    if i >= |content| then Failed
    else
      match ParseMember(c, content, SkipWhitespace(content, i), depth)
      case Failed => Failed
      case Parsed(member, behind) =>
        var next := SkipWhitespace(content, behind);
        if next >= |content| then Failed
        else if content[next] == ',' then
          match ParseMembers(c, content, next + 1, depth)
          case Failed => Failed
          case Parsed(members, end) => Parsed([member] + members, end)
        else if content[next] == '}' then Parsed([member], next + 1)
        else Failed
  }

  const BYTE_ORDER_MARK := [0xEF as char, 0xBB as char, 0xBF as char]

  /**
   cJSON_ParseWithOpts on a NUL-free string: the parsed tree and where its text ends. The buffer holds
   the terminating NUL as well.
   */
  function ParseDocument(c: LibC, text: string, requireNullTerminated: bool): Parsed<Json> {
    var content := text + [NUL];
    var start := if 4 < |content| && At(content, 0, BYTE_ORDER_MARK) then 3 else 0;
    match ParseValue(c, content, SkipWhitespace(content, start), 0)
    case Failed => Failed
    case Parsed(value, behind) =>
      if !requireNullTerminated then Parsed(value, behind)
      else
        var end := SkipWhitespace(content, behind);
        if end >= |content| || content[end] != NUL then Failed else Parsed(value, end)
  }

  // ---- Which trees the round trip is about ----

  /** Numbers are 32-bit integers, strings and keys are C strings. */
  predicate Plain(t: Json) {
    match t
    case JNumber(d) => IsInt32(d)
    case JString(s) => NUL !in s
    case JArray(items) => forall i :: 0 <= i < |items| ==> Plain(items[i])
    case JObject(members) =>
      forall i :: 0 <= i < |members| ==> NUL !in members[i].key && Plain(members[i].value)
    case _ => true
  }

  function Max(a: nat, b: nat): nat { if a > b then a else b }

  /** How many arrays and objects are nested in each other, at most. */
  function Nesting(t: Json): nat
    decreases t
  {
    match t
    case JArray(items) => 1 + NestingOfItems(items)
    case JObject(members) => 1 + NestingOfMembers(members)
    case _ => 0
  }

  function NestingOfItems(items: seq<Json>): nat
    decreases items
  {
    if items == [] then 0 else Max(Nesting(items[0]), NestingOfItems(items[1..]))
  }

  function NestingOfMembers(members: seq<Member>): nat
    decreases members
  {
    if members == [] then 0 else Max(Nesting(members[0].value), NestingOfMembers(members[1..]))
  }

  predicate IsDigit(c: char) { '0' <= c <= '9' }

  /** An optional minus sign and digits, as strtod takes them. */
  predicate IsIntegerText(s: string) {
    s != [] && (IsDigit(s[0]) || (s[0] == '-' && |s| > 1)) && forall i :: 1 <= i < |s| ==> IsDigit(s[i])
  }

  /** The number digits stand for in positional notation. */
  function ReadDigits(s: string): nat
    requires forall i :: 0 <= i < |s| ==> IsDigit(s[i])
  {
    if s == [] then 0
    else
      assert IsDigit(s[|s| - 1]);
      10 * ReadDigits(s[..|s| - 1]) + (s[|s| - 1] as int - '0' as int)
  }

  function ReadInteger(s: string): int
    requires IsIntegerText(s)
  {
    if s[0] == '-' then 0 - ReadDigits(s[1..]) else ReadDigits(s)
  }

  /** strtod takes an integer of at most eleven characters whole; a double holds its value exactly. */
  ghost predicate ReadsIntegers(c: LibC) {
    forall s :: IsIntegerText(s) && |s| <= 11 ==> c.strtod(s) == (ReadInteger(s) as real, |s|)
  }
}
