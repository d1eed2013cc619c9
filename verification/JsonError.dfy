/**
 Where the parser of src/Libs/cJSON/cJSON.c stands when it gives up: the offset it reports as the position of
 the error, and how many arrays and objects are open there.
 */
module JsonError {
  import opened Sequences
  import opened Options
  import opened JsonString
  import opened JsonText
  import opened JsonRoundTrip

  datatype Stop = Stop(offset: nat, depth: nat)

  /** Second pass of parse_string: the first escape that is none. */
  function UnescapeStop(content: string, i: nat, end: nat): (stop: nat)
    requires end < |content|
    ensures i <= stop
    decreases end - i
  {
    if i >= end then i
    else match NextPiece(content, i, end)
      case None => i
      case Some(piece) => UnescapeStop(content, i + piece.length, end)
  }

  /** parse_string: behind the first character, or at an escape that is none. */
  function StringStop(content: string, i: nat): (stop: nat)
    requires i < |content|
    ensures i < stop
  {
    if content[i] != QUOTE then i + 1
    else match FindEnd(content, i + 1)
      case None => i + 1
      case Some(end) => UnescapeStop(content, i + 1, end)
  }

  /** parse_value, when it fails. */
  function ValueStop(c: LibC, content: string, i: nat, depth: nat): (stop: Stop)
    decreases |content| - i, 1
  {
    if i >= |content| then Stop(i, depth)
    else if content[i] == QUOTE then Stop(StringStop(content, i), depth)
    else if content[i] == '[' then ArrayStop(c, content, i, depth)
    else if content[i] == '{' then ObjectStop(c, content, i, depth)
    else Stop(i, depth)
  }

  /** parse_array: at the bracket if too many are open, and otherwise with the depth still raised. */
  function ArrayStop(c: LibC, content: string, i: nat, depth: nat): (stop: Stop)
    requires i < |content|
    decreases |content| - i, 0
  {
    var first := SkipWhitespace(content, i + 1);
    if depth >= NESTING_LIMIT then Stop(i, depth)
    else if first >= |content| then Stop(i, depth + 1)
    else ItemsStop(c, content, first, depth + 1)
  }

  /** The loop of parse_array from one element on. */
  function ItemsStop(c: LibC, content: string, i: nat, depth: nat): (stop: Stop)
    decreases |content| - i, 2
  {
    var start := SkipWhitespace(content, i);
    match ParseValue(c, content, start, depth)
    case Failed => ValueStop(c, content, start, depth)
    case Parsed(_, behind) =>
      var next := SkipWhitespace(content, behind);
      if next < |content| && content[next] == ',' then ItemsStop(c, content, next + 1, depth) else Stop(next, depth)
  }

  /** parse_object, likewise. */
  function ObjectStop(c: LibC, content: string, i: nat, depth: nat): (stop: Stop)
    requires i < |content|
    decreases |content| - i, 0
  {
    var first := SkipWhitespace(content, i + 1);
    if depth >= NESTING_LIMIT then Stop(i, depth)
    else if first >= |content| then Stop(i, depth + 1)
    else MembersStop(c, content, first, depth + 1)
  }

  /** One member: where its key, its colon or its value is missing. */
  function MemberStop(c: LibC, content: string, i: nat, depth: nat): (stop: Stop)
    requires i < |content|
    decreases |content| - i, 2
  {
    match ParseString(content, i)
    case Failed => Stop(StringStop(content, i), depth)
    case Parsed(_, behindKey) =>
      var colon := SkipWhitespace(content, behindKey);
      if colon >= |content| || content[colon] != ':' then Stop(colon, depth)
      else ValueStop(c, content, SkipWhitespace(content, colon + 1), depth)
  }

  /** The loop of parse_object from one member on; nothing behind a comma stops at the comma. */
  function MembersStop(c: LibC, content: string, i: nat, depth: nat): (stop: Stop)
    requires i > 0
    decreases |content| - i, 3
  {
    if i >= |content| then Stop(i - 1, depth)
    else
      var start := SkipWhitespace(content, i);
      match ParseMember(c, content, start, depth)
      case Failed => MemberStop(c, content, start, depth)
      case Parsed(_, behind) =>
        var next := SkipWhitespace(content, behind);
        if next < |content| && content[next] == ',' then MembersStop(c, content, next + 1, depth) else Stop(next, depth)
  }

  /** The position cJSON_ParseWithOpts reports: never behind the terminating NUL. */
  function ErrorPosition(c: LibC, text: string, requireNullTerminated: bool): (position: nat)
    ensures position <= |text|
  {
    var content := text + [NUL];
    var start := if 4 < |content| && At(content, 0, BYTE_ORDER_MARK) then 3 else 0;
    var offset := match ParseValue(c, content, SkipWhitespace(content, start), 0)
      case Failed => ValueStop(c, content, SkipWhitespace(content, start), 0).offset
      case Parsed(_, behind) => SkipWhitespace(content, behind);
    if offset < |content| then offset else |text|
  }

  // ---- What a stop means ----

  /** A string with a closing quote stops at its first bad escape: everything before it is well formed. */
  lemma {:induction false} StopsAtBadEscape(content: string, i: nat, end: nat)
    requires end < |content|
    ensures Unescape(content, i, end) == None ==>
              var k := UnescapeStop(content, i, end);
              i <= k < end && content[k] == BACKSLASH && NextPiece(content, k, end) == None
    decreases end - i
  {
    if i < end {
      hide UnicodeEscape;
      match NextPiece(content, i, end)
      case None =>
      case Some(piece) => StopsAtBadEscape(content, i + piece.length, end);
    }
  }

  lemma StringStopsInside(content: string, i: nat)
    requires i < |content| && ParseString(content, i).Failed?
    ensures i < StringStop(content, i) <= |content|
  {
    if content[i] == QUOTE && FindEnd(content, i + 1).Some? {
      StopsAtBadEscape(content, i + 1, FindEnd(content, i + 1).value);
    }
    hide UnescapeStop, Unescape;
  }

  predicate Inside(content: string, i: nat, depth: nat, stop: Stop) {
    i <= stop.offset <= |content| && depth <= stop.depth <= NESTING_LIMIT
  }

  lemma InsideIs(content: string, i: nat, depth: nat, stop: Stop)
    ensures Inside(content, i, depth, stop) <==> i <= stop.offset <= |content| && depth <= stop.depth <= NESTING_LIMIT
  {
  }

  lemma InsideLater(content: string, i: nat, depth: nat, j: nat, deeper: nat, stop: Stop)
    requires i <= j && depth <= deeper && Inside(content, j, deeper, stop)
    ensures Inside(content, i, depth, stop)
  {
  }

  /** The parser gives up between where it started and the end, with no more open than the limit allows. */
  lemma {:induction false} ValueStopsInside(c: LibC, content: string, i: nat, depth: nat)
    requires i <= |content| && depth <= NESTING_LIMIT && ParseValue(c, content, i, depth).Failed?
    ensures Inside(content, i, depth, ValueStop(c, content, i, depth))
    decreases |content| - i, 1
  {
    if i < |content| {
      if content[i] == QUOTE {
        StringStopsInside(content, i);
      } else if content[i] == '[' {
        ArrayFails(c, content, i, depth);
        ArrayStopsInside(c, content, i, depth);
      } else if content[i] == '{' {
        ObjectFails(c, content, i, depth);
        ObjectStopsInside(c, content, i, depth);
      }
    }
    hide StringStop, ArrayStop, ObjectStop, ParseValue;
  }

  /** What parse_array makes of what stands behind the bracket. */
  lemma ArrayIs(c: LibC, content: string, i: nat, depth: nat)
    requires i < |content|
    ensures var first := SkipWhitespace(content, i + 1);
            && ParseArray(c, content, i, depth) ==
               (if depth >= NESTING_LIMIT || first >= |content| then Failed
                else if content[first] == ']' then Parsed(JArray([]), first + 1)
                else match ParseItems(c, content, first, depth + 1)
                  case Failed => Failed
                  case Parsed(items, next) => Parsed(JArray(items), next))
            && ArrayStop(c, content, i, depth) ==
               (if depth >= NESTING_LIMIT then Stop(i, depth)
                else if first >= |content| then Stop(i, depth + 1) else ItemsStop(c, content, first, depth + 1))
            && (i + 1 < |content| <==> first < |content|) && first >= i + 1
  {
    hide ParseItems, ItemsStop, SkipRun;
  }

  lemma ObjectIs(c: LibC, content: string, i: nat, depth: nat)
    requires i < |content|
    ensures var first := SkipWhitespace(content, i + 1);
            && ParseObject(c, content, i, depth) ==
               (if depth >= NESTING_LIMIT || first >= |content| then Failed
                else if content[first] == '}' then Parsed(JObject([]), first + 1)
                else match ParseMembers(c, content, first, depth + 1)
                  case Failed => Failed
                  case Parsed(members, next) => Parsed(JObject(members), next))
            && ObjectStop(c, content, i, depth) ==
               (if depth >= NESTING_LIMIT then Stop(i, depth)
                else if first >= |content| then Stop(i, depth + 1) else MembersStop(c, content, first, depth + 1))
            && (i + 1 < |content| <==> first < |content|) && first >= i + 1
  {
    hide ParseMembers, MembersStop, SkipRun;
  }

  lemma ItemsStopStep(c: LibC, content: string, i: nat, depth: nat, item: Parsed<Json>)
    requires item == ParseValue(c, content, SkipWhitespace(content, i), depth)
    ensures ItemsStop(c, content, i, depth) ==
            match item
            case Failed => ValueStop(c, content, SkipWhitespace(content, i), depth)
            case Parsed(_, behind) =>
              var next := SkipWhitespace(content, behind);
              if next < |content| && content[next] == ',' then ItemsStop(c, content, next + 1, depth) else Stop(next, depth)
  {
    hide ParseValue, ValueStop, SkipRun;
  }

  lemma MembersStopStep(c: LibC, content: string, i: nat, depth: nat, member: Parsed<Member>)
    requires 0 < i < |content| && member == ParseMember(c, content, SkipWhitespace(content, i), depth)
    ensures MembersStop(c, content, i, depth) ==
            match member
            case Failed => MemberStop(c, content, SkipWhitespace(content, i), depth)
            case Parsed(_, behind) =>
              var next := SkipWhitespace(content, behind);
              if next < |content| && content[next] == ',' then MembersStop(c, content, next + 1, depth) else Stop(next, depth)
  {
    hide ParseMember, MemberStop, SkipRun;
  }

  /** What becomes of a member: its key, its colon and its value. */
  lemma MemberParse(c: LibC, content: string, i: nat, depth: nat)
    requires i < |content|
    ensures match ParseString(content, i)
            case Failed =>
              && ParseMember(c, content, i, depth) == Failed
              && MemberStop(c, content, i, depth) == Stop(StringStop(content, i), depth)
            case Parsed(key, behindKey) =>
              var colon := SkipWhitespace(content, behindKey);
              i < colon && if colon >= |content| || content[colon] != ':' then
                ParseMember(c, content, i, depth) == Failed && MemberStop(c, content, i, depth) == Stop(colon, depth)
              else
                var start := SkipWhitespace(content, colon + 1);
                && colon < start && MemberStop(c, content, i, depth) == ValueStop(c, content, start, depth)
                && ParseMember(c, content, i, depth) ==
                   match ParseValue(c, content, start, depth)
                   case Failed => Failed
                   case Parsed(value, behind) => Parsed(Member(key, value), behind)
  {
    hide ParseString, StringStop, ParseValue, ValueStop, SkipRun;
  }

  lemma ArrayFails(c: LibC, content: string, i: nat, depth: nat)
    requires i < |content| && content[i] == '[' && ParseValue(c, content, i, depth).Failed?
    ensures ParseArray(c, content, i, depth).Failed?
  {
    hide ParseArray;
  }

  lemma ObjectFails(c: LibC, content: string, i: nat, depth: nat)
    requires i < |content| && content[i] == '{' && ParseValue(c, content, i, depth).Failed?
    ensures ParseObject(c, content, i, depth).Failed?
  {
    hide ParseObject;
  }

  lemma {:induction false} ArrayStopsInside(c: LibC, content: string, i: nat, depth: nat)
    requires i < |content| && depth <= NESTING_LIMIT && ParseArray(c, content, i, depth).Failed?
    ensures Inside(content, i, depth, ArrayStop(c, content, i, depth))
    decreases |content| - i, 0
  {
    hide *;
    ArrayIs(c, content, i, depth);
    var first := SkipWhitespace(content, i + 1);
    InsideIs(content, i, depth, Stop(i, depth));
    InsideIs(content, i, depth, Stop(i, depth + 1));
    if depth < NESTING_LIMIT && first < |content| {
      ItemsStopInside(c, content, first, depth + 1);
      InsideLater(content, i, depth, first, depth + 1, ItemsStop(c, content, first, depth + 1));
    }
  }

  lemma {:induction false} ItemsStopInside(c: LibC, content: string, i: nat, depth: nat)
    requires i <= |content| && depth <= NESTING_LIMIT && ParseItems(c, content, i, depth).Failed?
    ensures Inside(content, i, depth, ItemsStop(c, content, i, depth))
    decreases |content| - i, 2
  {
    hide ParseValue, ValueStop, SkipRun;
    var start := SkipWhitespace(content, i);
    match ParseValue(c, content, start, depth)
    case Failed => ValueStopsInside(c, content, start, depth);
    case Parsed(_, behind) =>
      var next := SkipWhitespace(content, behind);
      if next < |content| && content[next] == ',' {
        ItemsStopInside(c, content, next + 1, depth);
      }
  }

  lemma {:induction false} ObjectStopsInside(c: LibC, content: string, i: nat, depth: nat)
    requires i < |content| && depth <= NESTING_LIMIT && ParseObject(c, content, i, depth).Failed?
    ensures Inside(content, i, depth, ObjectStop(c, content, i, depth))
    decreases |content| - i, 0
  {
    hide *;
    ObjectIs(c, content, i, depth);
    var first := SkipWhitespace(content, i + 1);
    InsideIs(content, i, depth, Stop(i, depth));
    InsideIs(content, i, depth, Stop(i, depth + 1));
    if depth < NESTING_LIMIT && first < |content| {
      MembersStopInside(c, content, first, depth + 1);
      InsideLater(content, i, depth, first - 1, depth + 1, MembersStop(c, content, first, depth + 1));
    }
  }

  lemma {:induction false} MemberStopsInside(c: LibC, content: string, i: nat, depth: nat)
    requires i < |content| && depth <= NESTING_LIMIT && ParseMember(c, content, i, depth).Failed?
    ensures Inside(content, i, depth, MemberStop(c, content, i, depth))
    decreases |content| - i, 2
  {
    hide ParseString, StringStop, ParseValue, ValueStop, SkipRun;
    match ParseString(content, i)
    case Failed => StringStopsInside(content, i);
    case Parsed(_, behindKey) =>
      var colon := SkipWhitespace(content, behindKey);
      if colon < |content| && content[colon] == ':' {
        ValueStopsInside(c, content, SkipWhitespace(content, colon + 1), depth);
      }
  }

  lemma {:induction false} MembersStopInside(c: LibC, content: string, i: nat, depth: nat)
    requires 0 < i <= |content| && depth <= NESTING_LIMIT && ParseMembers(c, content, i, depth).Failed?
    ensures Inside(content, i - 1, depth, MembersStop(c, content, i, depth))
    decreases |content| - i, 3
  {
    hide ParseMember, MemberStop, SkipRun;
    if i < |content| {
      var start := SkipWhitespace(content, i);
      match ParseMember(c, content, start, depth)
      case Failed => MemberStopsInside(c, content, start, depth);
      case Parsed(_, behind) =>
        var next := SkipWhitespace(content, behind);
        if next < |content| && content[next] == ',' {
          MembersStopInside(c, content, next + 1, depth);
        }
    }
  }

  // ---- Where a print that is nested too deeply is refused ----

  /** With as many arrays and objects open as the limit allows, the stop is at the bracket of one more. */
  predicate AtBracket(content: string, i: nat, end: nat, stop: Stop) {
    && stop.depth == NESTING_LIMIT && i <= stop.offset < end && stop.offset < |content|
    && (content[stop.offset] == '[' || content[stop.offset] == '{')
  }

  lemma AtBracketWithin(content: string, i: nat, end: nat, j: nat, inner: nat, stop: Stop)
    requires i <= j && inner <= end && AtBracket(content, j, inner, stop)
    ensures AtBracket(content, i, end, stop)
  {
  }

  lemma ValueStopsAt(c: LibC, content: string, i: nat, depth: nat)
    requires i < |content|
    ensures content[i] == '[' ==> ValueStop(c, content, i, depth) == ArrayStop(c, content, i, depth)
    ensures content[i] == '{' ==> ValueStop(c, content, i, depth) == ObjectStop(c, content, i, depth)
  {
    hide ArrayStop, ObjectStop;
  }

  lemma ArrayStopIs(c: LibC, content: string, i: nat, depth: nat, first: nat)
    requires i < |content| && SkipWhitespace(content, i + 1) == first < |content|
    ensures ArrayStop(c, content, i, depth) ==
            if depth >= NESTING_LIMIT then Stop(i, depth) else ItemsStop(c, content, first, depth + 1)
    ensures first > 0 &&
            ObjectStop(c, content, i, depth) ==
            if depth >= NESTING_LIMIT then Stop(i, depth) else MembersStop(c, content, first, depth + 1)
  {
    hide ItemsStop, MembersStop, SkipRun;
  }

  lemma OpensAt(content: string, i: nat, depth: nat, end: nat)
    requires i < |content| && i < end && (content[i] == '[' || content[i] == '{') && depth == NESTING_LIMIT
    ensures AtBracket(content, i, end, Stop(i, depth))
  {
  }

  lemma DeepestItem(items: seq<Json>, depth: nat)
    requires depth <= NESTING_LIMIT && depth + NestingOfItems(items) > NESTING_LIMIT
    ensures items != []
    ensures depth + Nesting(items[0]) <= NESTING_LIMIT ==> |items| > 1 && depth + NestingOfItems(items[1..]) > NESTING_LIMIT
  {
    hide Nesting;
  }

  lemma DeepestMember(members: seq<Member>, depth: nat)
    requires depth <= NESTING_LIMIT && depth + NestingOfMembers(members) > NESTING_LIMIT
    ensures members != []
    ensures depth + Nesting(members[0].value) <= NESTING_LIMIT ==>
              |members| > 1 && depth + NestingOfMembers(members[1..]) > NESTING_LIMIT
  {
    hide Nesting;
  }

  lemma ArrayText(c: LibC, items: seq<Json>, fmt: bool, printDepth: nat, content: string, i: nat)
    requires At(content, i, Print(c, JArray(items), fmt, printDepth)) && forall k :: 0 <= k < |items| ==> Plain(items[k])
    ensures i < |content| && content[i] == '[' && At(content, i + 1, PrintItems(c, items, fmt, printDepth + 1))
    ensures |Print(c, JArray(items), fmt, printDepth)| == 1 + |PrintItems(c, items, fmt, printDepth + 1)|
    ensures i + 1 < |content| && SkipWhitespace(content, i + 1) == i + 1
    ensures Nesting(JArray(items)) == 1 + NestingOfItems(items)
  {
    hide PrintItems, At, SkipWhitespace, NestingOfItems;
    var rest := PrintItems(c, items, fmt, printDepth + 1);
    AtSplit(content, i, "[", rest);
    AtIndex(content, i, "[", 0);
    ItemsStart(c, items, fmt, printDepth + 1);
    MarkedAt(content, i + 1, rest);
  }

  /** A printed value that is nested too deeply is refused at the first bracket beyond the limit. */
  lemma {:induction false} ValueTooDeep(
      c: LibC, t: Json, fmt: bool, printDepth: nat, content: string, i: nat, depth: nat)
    requires ReadsIntegers(c) && Plain(t) && depth <= NESTING_LIMIT && depth + Nesting(t) > NESTING_LIMIT
    requires At(content, i, Print(c, t, fmt, printDepth))
    ensures AtBracket(content, i, i + |Print(c, t, fmt, printDepth)|, ValueStop(c, content, i, depth))
    decreases t
  {
    hide *;
    OnlyNested(t, depth);
    if t.JArray? {
      PlainItems(t);
      ArrayTooDeep(c, t.items, fmt, printDepth, content, i, depth);
    } else {
      PlainMembers(t);
      ObjectTooDeep(c, t.members, fmt, printDepth, content, i, depth);
    }
  }

  lemma OnlyNested(t: Json, depth: nat)
    requires depth <= NESTING_LIMIT && depth + Nesting(t) > NESTING_LIMIT
    ensures t.JArray? || t.JObject?
    ensures t.JArray? ==> t == JArray(t.items) && depth + 1 + NestingOfItems(t.items) > NESTING_LIMIT
    ensures t.JObject? ==> t == JObject(t.members) && depth + 1 + NestingOfMembers(t.members) > NESTING_LIMIT
  {
    hide NestingOfItems, NestingOfMembers;
  }

  lemma {:induction false} ElementTooDeep(
      c: LibC, items: seq<Json>, fmt: bool, printDepth: nat, content: string, i: nat, depth: nat)
    requires ReadsIntegers(c) && items != [] && (forall k :: 0 <= k < |items| ==> Plain(items[k]))
    requires depth <= NESTING_LIMIT && depth + NestingOfItems(items) > NESTING_LIMIT
    requires At(content, i, PrintItems(c, items, fmt, printDepth))
    ensures AtBracket(content, i, i + |PrintItems(c, items, fmt, printDepth)|, ItemsStop(c, content, i, depth))
    decreases items, 1
  {
    hide *;
    NothingAdded(PrintItems(c, items, fmt, printDepth));
    ItemsTooDeep(c, items, fmt, printDepth, content, i, [], depth);
  }

  lemma {:induction false} ArrayTooDeep(
      c: LibC, items: seq<Json>, fmt: bool, printDepth: nat, content: string, i: nat, depth: nat)
    requires ReadsIntegers(c) && (forall k :: 0 <= k < |items| ==> Plain(items[k]))
    requires depth <= NESTING_LIMIT && depth + 1 + NestingOfItems(items) > NESTING_LIMIT
    requires At(content, i, Print(c, JArray(items), fmt, printDepth))
    ensures AtBracket(content, i, i + |Print(c, JArray(items), fmt, printDepth)|, ValueStop(c, content, i, depth))
    decreases items, 2
  {
    hide *;
    ArrayText(c, items, fmt, printDepth, content, i);
    ValueStopsAt(c, content, i, depth);
    ArrayStopIs(c, content, i, depth, i + 1);
    var end := i + |Print(c, JArray(items), fmt, printDepth)|;
    if depth < NESTING_LIMIT {
      DeepestItem(items, depth + 1);
      ElementTooDeep(c, items, fmt, printDepth + 1, content, i + 1, depth + 1);
      AtBracketWithin(content, i, end, i + 1, end, ItemsStop(c, content, i + 1, depth + 1));
    } else {
      OpensAt(content, i, depth, end);
    }
  }

  lemma PlainMembers(t: Json)
    requires t.JObject? && Plain(t)
    ensures forall k :: 0 <= k < |t.members| ==> NUL !in t.members[k].key && Plain(t.members[k].value)
  {
  }

  lemma ObjectText(c: LibC, members: seq<Member>, fmt: bool, printDepth: nat, content: string, i: nat)
    requires At(content, i, Print(c, JObject(members), fmt, printDepth))
    ensures var rest := Newline(fmt) + PrintMembers(c, members, fmt, printDepth + 1);
            && i < |content| && content[i] == '{' && At(content, i + 1, rest)
            && |Print(c, JObject(members), fmt, printDepth)| == 1 + |rest|
  {
    hide PrintMembers, At;
    var rest := Newline(fmt) + PrintMembers(c, members, fmt, printDepth + 1);
    AtSplit(content, i, "{", rest);
    AtIndex(content, i, "{", 0);
  }

  lemma MembersStart(c: LibC, members: seq<Member>, fmt: bool, depth: nat)
    requires depth > 0 && members != []
    ensures ObjectBody(c, members, fmt, depth) == MemberBody(c, members, fmt, depth)
    ensures MemberBody(c, members, fmt, depth) != [] && MemberBody(c, members, fmt, depth)[0] as int > 32
  {
    hide MemberBody;
  }

  lemma {:induction false} MemberTooDeep(
      c: LibC, members: seq<Member>, fmt: bool, printDepth: nat, content: string, i: nat, depth: nat) returns (first: nat)
    requires ReadsIntegers(c) && printDepth > 0 && members != []
    requires forall k :: 0 <= k < |members| ==> NUL !in members[k].key && Plain(members[k].value)
    requires 0 < depth <= NESTING_LIMIT && depth + NestingOfMembers(members) > NESTING_LIMIT
    requires At(content, i, Newline(fmt) + PrintMembers(c, members, fmt, printDepth)) && i > 0
    ensures i <= first < |content| && SkipWhitespace(content, i) == first
    ensures var end := i + |Newline(fmt) + PrintMembers(c, members, fmt, printDepth)|;
            AtBracket(content, first, end, MembersStop(c, content, first, depth))
    decreases members, 1
  {
    hide *;
    var layout, body := ObjectLayout(members, fmt, printDepth), ObjectBody(c, members, fmt, printDepth);
    first := i + |layout|;
    MembersStart(c, members, fmt, printDepth);
    ObjectTextSplits(c, members, fmt, printDepth);
    SkipLayout(content, i, layout, body);
    MarkedAt(content, first, body);
    MarkedIs(content, first, body[0]);
    NothingAdded(body);
    MembersTooDeep(c, members, fmt, printDepth, content, first, [], depth);
  }

  lemma {:induction false} ObjectTooDeep(
      c: LibC, members: seq<Member>, fmt: bool, printDepth: nat, content: string, i: nat, depth: nat)
    requires ReadsIntegers(c) && (forall k :: 0 <= k < |members| ==> NUL !in members[k].key && Plain(members[k].value))
    requires depth <= NESTING_LIMIT && depth + 1 + NestingOfMembers(members) > NESTING_LIMIT
    requires At(content, i, Print(c, JObject(members), fmt, printDepth))
    ensures AtBracket(content, i, i + |Print(c, JObject(members), fmt, printDepth)|, ValueStop(c, content, i, depth))
    decreases members, 2
  {
    hide *;
    ObjectText(c, members, fmt, printDepth, content, i);
    ValueStopsAt(c, content, i, depth);
    var end := i + |Print(c, JObject(members), fmt, printDepth)|;
    if depth < NESTING_LIMIT {
      DeepestMember(members, depth + 1);
      var first := MemberTooDeep(c, members, fmt, printDepth + 1, content, i + 1, depth + 1);
      ArrayStopIs(c, content, i, depth, first);
      AtBracketWithin(content, i, end, first, end, MembersStop(c, content, first, depth + 1));
    } else {
      TooDeepAtOnce(c, content, i, depth);
      OpensAt(content, i, depth, end);
    }
  }

  lemma TooDeepAtOnce(c: LibC, content: string, i: nat, depth: nat)
    requires i < |content| && depth >= NESTING_LIMIT
    ensures ObjectStop(c, content, i, depth) == Stop(i, depth)
  {
  }

  lemma WithinIs<T>(depth: nat, nesting: nat, value: T, end: nat)
    ensures Within(depth, nesting, value, end) == if depth + nesting <= NESTING_LIMIT then Parsed(value, end) else Failed
  {
  }

  lemma {:induction false} MembersTooDeep(
      c: LibC, members: seq<Member>, fmt: bool, printDepth: nat, content: string, i: nat, layout: string, depth: nat)
    requires ReadsIntegers(c) && printDepth > 0 && depth <= NESTING_LIMIT && members != [] && i > 0
    requires forall k :: 0 <= k < |members| ==> NUL !in members[k].key && Plain(members[k].value)
    requires forall k :: 0 <= k < |layout| ==> layout[k] as int <= 32
    requires depth + NestingOfMembers(members) > NESTING_LIMIT
    requires At(content, i, layout + MemberBody(c, members, fmt, printDepth))
    ensures AtBracket(content, i, i + |layout| + |MemberBody(c, members, fmt, printDepth)|, MembersStop(c, content, i, depth))
    decreases members, 0
  {
    hide *;
    var start := i + |layout|;
    var colon := start + |PrintString(members[0].key)|;
    var valueAt := colon + |Colon(fmt)|;
    var behind := valueAt + |Print(c, members[0].value, fmt, printDepth)|;
    var end := start + |MemberBody(c, members, fmt, printDepth)|;
    var nesting := Nesting(members[0].value);
    LengthOfMembers(c, members, fmt, printDepth);
    FirstMemberText(c, members, fmt, printDepth, content, i, layout);
    DeepestMember(members, depth);
    if depth + nesting > NESTING_LIMIT {
      ValueTooDeep(c, members[0].value, fmt, printDepth, content, valueAt, depth);
      if |members| == 1 {
        LastMemberText(c, members, fmt, printDepth, content, behind);
      } else {
        NextMemberText(c, members, fmt, printDepth, content, behind);
      }
      ValueParses(c, members[0].value, fmt, printDepth, content, valueAt, depth);
      MembersStopIs(c, content, i, depth, members[0], nesting, start, colon, valueAt, behind);
      AtBracketWithin(content, i, end, valueAt, behind, ValueStop(c, content, valueAt, depth));
    } else {
      NextMemberText(c, members, fmt, printDepth, content, behind);
      var gap := Newline(fmt) + Indent(fmt, printDepth);
      ValueParses(c, members[0].value, fmt, printDepth, content, valueAt, depth);
      MembersStopIs(c, content, i, depth, members[0], nesting, start, colon, valueAt, behind);
      MembersTooDeep(c, members[1..], fmt, printDepth, content, behind + 1, gap, depth);
      AtBracketWithin(content, i, end, behind + 1, end, MembersStop(c, content, behind + 1, depth));
    }
  }

  /** How the loop of parse_object stops, given what became of one value. */
  lemma MembersStopIs(
      c: LibC, content: string, i: nat, depth: nat, member: Member, nesting: nat, start: nat, colon: nat, valueAt: nat,
      next: nat)
    requires 0 < i < |content| && SkipWhitespace(content, i) == start < |content|
    requires ParseString(content, start) == Parsed(member.key, colon) && Marked(content, colon, ':')
    requires SkipWhitespace(content, colon + 1) == valueAt
    requires ParseValue(c, content, valueAt, depth) == Within(depth, nesting, member.value, next)
    ensures depth + nesting > NESTING_LIMIT ==> MembersStop(c, content, i, depth) == ValueStop(c, content, valueAt, depth)
    ensures depth + nesting <= NESTING_LIMIT && Marked(content, next, ',') ==>
              MembersStop(c, content, i, depth) == MembersStop(c, content, next + 1, depth)
  {
    hide *;
    MarkedIs(content, colon, ':');
    ParseMemberStep(c, content, start, depth, member, colon, colon, valueAt, nesting, next);
    MemberParse(c, content, start, depth);
    MembersStopStep(c, content, i, depth, ParseMember(c, content, start, depth));
    WithinIs(depth, nesting, member, next);
    if Marked(content, next, ',') {
      MarkedIs(content, next, ',');
    }
  }

  lemma PlainItems(t: Json)
    requires t.JArray? && Plain(t)
    ensures forall k :: 0 <= k < |t.items| ==> Plain(t.items[k])
  {
  }

  lemma {:induction false} ItemsTooDeep(
      c: LibC, items: seq<Json>, fmt: bool, printDepth: nat, content: string, i: nat, layout: string, depth: nat)
    requires ReadsIntegers(c) && items != [] && (forall k :: 0 <= k < |items| ==> Plain(items[k]))
    requires depth <= NESTING_LIMIT && (forall k :: 0 <= k < |layout| ==> layout[k] as int <= 32)
    requires depth + NestingOfItems(items) > NESTING_LIMIT
    requires At(content, i, layout + PrintItems(c, items, fmt, printDepth))
    ensures AtBracket(content, i, i + |layout| + |PrintItems(c, items, fmt, printDepth)|, ItemsStop(c, content, i, depth))
    decreases items, 0
  {
    hide *;
    var start := i + |layout|;
    var next := start + |Print(c, items[0], fmt, printDepth)|;
    var end := start + |PrintItems(c, items, fmt, printDepth)|;
    LengthOfItems(c, items, fmt, printDepth);
    FirstElementText(c, items, fmt, printDepth, content, i, layout);
    ValueParses(c, items[0], fmt, printDepth, content, start, depth);
    DeepestItem(items, depth);
    ItemsStopIs(c, content, i, depth, items[0], Nesting(items[0]), start, next);
    if depth + Nesting(items[0]) > NESTING_LIMIT {
      ValueTooDeep(c, items[0], fmt, printDepth, content, start, depth);
      AtBracketWithin(content, i, end, start, next, ValueStop(c, content, start, depth));
    } else {
      SeparatorIsBlank(fmt);
      ItemsTooDeep(c, items[1..], fmt, printDepth, content, next + 1, Separator(fmt)[1..], depth);
      AtBracketWithin(content, i, end, next + 1, end, ItemsStop(c, content, next + 1, depth));
    }
  }

  /** How the loop of parse_array stops, given what became of one element. */
  lemma ItemsStopIs(c: LibC, content: string, i: nat, depth: nat, item: Json, nesting: nat, start: nat, next: nat)
    requires SkipWhitespace(content, i) == start && ParseValue(c, content, start, depth) == Within(depth, nesting, item, next)
    ensures depth + nesting > NESTING_LIMIT ==> ItemsStop(c, content, i, depth) == ValueStop(c, content, start, depth)
    ensures depth + nesting <= NESTING_LIMIT && Marked(content, next, ',') ==>
              ItemsStop(c, content, i, depth) == ItemsStop(c, content, next + 1, depth)
  {
    hide ParseValue, ValueStop, SkipRun;
  }

  /**
   A print of plain values that is nested too deeply is refused, and the position that is reported is that of
   a bracket in the text: the one that would open one array or object more than the limit.
   */
  lemma TooDeepPrintIsRefusedAtBracket(c: LibC, t: Json, fmt: bool, requireNullTerminated: bool)
    requires ReadsIntegers(c) && Plain(t) && Nesting(t) > NESTING_LIMIT
    ensures var text := Print(c, t, fmt, 0);
            var position := ErrorPosition(c, text, requireNullTerminated);
            && ParseDocument(c, text, requireNullTerminated) == Failed
            && position < |text| && (text[position] == '[' || text[position] == '{')
            && ValueStop(c, text + [NUL], 0, 0) == Stop(position, NESTING_LIMIT)
  {
    hide *;
    var text := Print(c, t, fmt, 0);
    PrintThenParse(c, t, fmt, requireNullTerminated);
    PrintStarts(c, t, fmt, 0);
    ValueAtStart(text);
    ValueTooDeep(c, t, fmt, 0, text + [NUL], 0, 0);
    ParsesAtStart(c, t, fmt);
    PositionOfStop(c, text, t, Nesting(t), requireNullTerminated);
  }

  lemma PositionOfStop(c: LibC, text: string, t: Json, nesting: nat, requireNullTerminated: bool)
    requires text != [] && 32 < text[0] as int < 0x80 && nesting > NESTING_LIMIT
    requires ParseValue(c, text + [NUL], 0, 0) == Within(0, nesting, t, |text|)
    requires AtBracket(text + [NUL], 0, |text|, ValueStop(c, text + [NUL], 0, 0))
    ensures var position := ErrorPosition(c, text, requireNullTerminated);
            && ValueStop(c, text + [NUL], 0, 0) == Stop(position, NESTING_LIMIT)
            && position < |text| && (text[position] == '[' || text[position] == '{')
  {
    var content := text + [NUL];
    assert content[0] == text[0] && content[0] != BYTE_ORDER_MARK[0];
    SkipTo(content, 0, 0);
    hide ParseValue, ValueStop, SkipRun;
  }
}
