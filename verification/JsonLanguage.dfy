/**
 What the parser of src/Libs/cJSON/cJSON.c accepts: exactly the texts of the wider grammar of JsonSyntax whose
 nesting is within the limit, each as the value it means.
 */
module JsonLanguage {
  import opened Sequences
  import opened Options
  import opened JsonString
  import opened JsonText
  import opened JsonRoundTrip
  import opened JsonSyntax

  // ---- Texts at their places ----

  lemma AtJoin(content: string, i: nat, a: string, b: string)
    requires At(content, i, a) && At(content, i + |a|, b)
    ensures At(content, i, a + b) && |a + b| == |a| + |b|
  {
    forall k | 0 <= k < |a + b|
      ensures content[i + k] == (a + b)[k]
    {
      if k < |a| {
        AtIndex(content, i, a, k);
      } else {
        AtIndex(content, i + |a|, b, k - |a|);
      }
    }
  }

  lemma AtSlice(content: string, i: nat, j: nat)
    requires i <= j <= |content|
    ensures At(content, i, content[i..j]) && |content[i..j]| == j - i
  {
  }

  lemma AtOne(content: string, i: nat, mark: char)
    requires i < |content| && content[i] == mark
    ensures At(content, i, [mark])
  {
  }

  /** What is skipped is white space. */
  lemma GapAt(content: string, i: nat) returns (gap: string)
    requires i < |content|
    ensures var r := SkipWhitespace(content, i);
            && i <= r < |content| && IsBlank(gap, false) && At(content, i, gap) && |gap| == r - i
            && SkipWhitespace(content, r) == r
  {
    var r := SkipWhitespace(content, i);
    SkipsBlanks(content, i);
    gap := content[i..r];
    AtSlice(content, i, r);
    SkipOnce(content, i);
    hide SkipWhitespace, At;
  }

  lemma SkipOnce(content: string, i: nat)
    requires i < |content|
    ensures var r := SkipWhitespace(content, i); SkipWhitespace(content, r) == r
  {
    var r := SkipWhitespace(content, i);
    SkipsBlanks(content, i);
    if content[r] as int > 32 {
      SkipTo(content, r, r);
    }
  }

  /** Where white space or a mark follows, no number goes on. */
  lemma DelimitedBefore(content: string, i: nat)
    requires i < |content| && !IsNumberChar(content[SkipWhitespace(content, i)])
    ensures Delimited(content, i)
  {
    SkipsBlanks(content, i);
    hide SkipWhitespace;
  }

  // ---- Leaves ----

  lemma WordAt(c: LibC, content: string, i: nat, depth: nat) returns (t: Syntax)
    requires At(content, i, "null") || At(content, i, "false") || At(content, i, "true")
    ensures IsSyntax(c, t, false) && At(content, i, Spell(t)) && Nesting(ValueOf(t)) == 0
    ensures ParseValue(c, content, i, depth) == Parsed(ValueOf(t), i + |Spell(t)|)
  {
    t := if At(content, i, "null") then NullWord else if At(content, i, "false") then FalseWord else TrueWord;
    WordIsRead(c, t, content, i, depth);
  }

  lemma {:induction false} TokenAt(content: string, i: nat, limit: nat)
    requires i <= |content|
    ensures var token := NumberToken(content, i, limit);
            && At(content, i, token) && i + |token| <= |content|
            && forall k :: 0 <= k < |token| ==> IsNumberChar(token[k])
    ensures var n := |NumberToken(content, i, limit)|;
            n < limit && i + n < |content| ==> !IsNumberChar(content[i + n])
    decreases limit
  {
    if limit > 0 && i < |content| && IsNumberChar(content[i]) {
      TokenAt(content, i + 1, limit - 1);
      AtOne(content, i, content[i]);
      AtJoin(content, i, [content[i]], NumberToken(content, i + 1, limit - 1));
    }
    hide At, IsNumberChar;
  }

  lemma ParseNumberIs(c: LibC, content: string, i: nat, value: real, next: nat)
    requires i < |content| && ParseNumber(c, content, i) == Parsed(JNumber(value), next)
    ensures var token := NumberToken(content, i, 63);
            c.strtod(token) == (value, next - i) && 0 < next - i <= |token| <= 63 && i + |token| <= |content|
  {
    hide NumberToken;
  }

  lemma TokenIsNumber(c: LibC, token: string, value: real)
    requires c.strtod(token) == (value, |token|) && 0 < |token| <= 63 && (token[0] == '-' || '0' <= token[0] <= '9')
    requires forall k :: 0 <= k < |token| ==> IsNumberChar(token[k])
    ensures IsNumberOf(c, token, value, false)
  {
    hide IsNumberChar;
  }

  lemma NoNumberChar(content: string, i: nat)
    requires Delimited(content, i)
    ensures i < |content| && !IsNumberChar(content[i])
  {
    hide IsNumberChar;
  }

  /** A number behind which no number goes on was taken whole. */
  lemma NumberAt(c: LibC, content: string, i: nat, value: real, next: nat)
    requires i < |content| && (content[i] == '-' || '0' <= content[i] <= '9')
    requires ParseNumber(c, content, i) == Parsed(JNumber(value), next) && Delimited(content, next)
    ensures i <= next <= |content| && At(content, i, content[i..next]) && IsNumberOf(c, content[i..next], value, false)
  {
    hide *;
    var token := NumberToken(content, i, 63);
    ParseNumberIs(c, content, i, value, next);
    NoNumberChar(content, next);
    TokenAt(content, i, 63);
    if next - i < |token| {
      AtIndex(content, i, token, next - i);
    }
    AtSlice(content, i, next);
    AtRangeIs(content, i, token);
    AtIndex(content, i, token, 0);
    TokenIsNumber(c, token, value);
  }

  lemma AtRangeIs(content: string, i: nat, text: string)
    requires At(content, i, text) && i + |text| <= |content|
    ensures content[i..i + |text|] == text
  {
  }

  lemma TextAt(content: string, i: nat, value: string, next: nat)
    requires i < |content| && ParseString(content, i) == Parsed(value, next) && next <= |content|
    ensures i < next && At(content, i, content[i..next]) && IsTextOf(content[i..next], value, false)
  {
    var text := content[i..next];
    AtSlice(content, i, next);
    assert Agree(content, i, text, 0, next - i);
    ReadStringIs(content, i, value, next);
    hide ParseString, Agree, At;
    SameString(content, i, text, 0, next - i, value);
  }

  // ---- Arrays ----

  /** White space, a text, white space, a mark and what follows, put together. */
  lemma PartsJoin(content: string, i: nat, before: string, text: string, behind: string, mark: char, rest: string)
    requires At(content, i, before) && At(content, i + |before|, text) && At(content, i + |before| + |text|, behind)
    requires var next := i + |before| + |text| + |behind|;
             next < |content| && content[next] == mark && At(content, next + 1, rest)
    ensures At(content, i, before + (text + (behind + ([mark] + rest))))
  {
    hide At;
    var next := i + |before| + |text| + |behind|;
    AtOne(content, next, mark);
    AtJoin(content, next, [mark], rest);
    AtJoin(content, next - |behind|, behind, [mark] + rest);
    AtJoin(content, i + |before|, text, behind + ([mark] + rest));
    AtJoin(content, i, before, text + (behind + ([mark] + rest)));
  }

  /** What a successful round of the loop of parse_array has found. */
  lemma ItemsParts(c: LibC, content: string, i: nat, depth: nat, vs: seq<Json>, next: nat) returns (behind: nat)
    requires ParseItems(c, content, i, depth) == Parsed(vs, next)
    ensures i < |content| && vs != [] && i < next && behind < |content|
    ensures ParseValue(c, content, SkipWhitespace(content, i), depth) == Parsed(vs[0], behind)
    ensures var mark := SkipWhitespace(content, behind);
            mark < |content| &&
            if content[mark] == ',' then |vs| > 1 && ParseItems(c, content, mark + 1, depth) == Parsed(vs[1..], next)
            else content[mark] == ']' && |vs| == 1 && next == mark + 1
  {
    hide SkipRun, ParseValue;
    var first := ParseValue(c, content, SkipWhitespace(content, i), depth);
    behind := first.offset;
    var mark := SkipWhitespace(content, behind);
    if content[mark] == ',' {
      ItemsNotEmpty(c, content, mark + 1, depth);
      var others := ParseItems(c, content, mark + 1, depth);
      assert vs == [first.value] + others.value;
    }
  }

  lemma ItemsNotEmpty(c: LibC, content: string, i: nat, depth: nat)
    ensures ParseItems(c, content, i, depth).Parsed? ==> ParseItems(c, content, i, depth).value != []
  {
    hide ParseValue, SkipWhitespace;
  }

  lemma MarksEnd(mark: char)
    requires mark == ',' || mark == ']' || mark == '}'
    ensures !IsNumberChar(mark) && mark as int > 32
  {
  }

  /** One more element in front. */
  lemma ElementInFront(c: LibC, e: Element, rest: seq<Element>)
    requires IsElement(c, e, false) && AreElements(c, rest, false)
    ensures var all := [e] + rest;
            && AreElements(c, all, false) && ValuesOf(all) == [ValueOf(e.value)] + ValuesOf(rest)
            && SpellElements(all) ==
               e.before + (Spell(e.value) + (e.behind +
               ([if rest == [] then ']' else ','] + if rest == [] then [] else SpellElements(rest))))
            && |SpellElements(all)| ==
               |e.before| + |Spell(e.value)| + |e.behind| + 1 + if rest == [] then 0 else |SpellElements(rest)|
  {
    var all := [e] + rest;
    assert all[0] == e && all[1..] == rest;
    hide IsElement, Spell, SpellElements, ValuesOf, ValueOf;
    ElementsAre(c, all);
    ValuesStep(all);
    MarkOfElements(all);
    assert ValuesOf(all) == [ValuesOf(all)[0]] + ValuesOf(all)[1..];
  }

  lemma NestingStep(vs: seq<Json>, depth: nat)
    requires vs != [] && depth + Nesting(vs[0]) <= NESTING_LIMIT && depth + NestingOfItems(vs[1..]) <= NESTING_LIMIT
    ensures depth + NestingOfItems(vs) <= NESTING_LIMIT
  {
    hide Nesting;
  }

  lemma NoItems()
    ensures NestingOfItems([]) == 0 && NestingOfMembers([]) == 0 && ValuesOf([]) == [] && MembersOf([]) == []
  {
  }

  lemma ElementOf(c: LibC, before: string, t: Syntax, behind: string)
    requires IsBlank(before, false) && IsSyntax(c, t, false) && IsBlank(behind, false)
    ensures IsElement(c, Element(before, t, behind), false)
  {
    hide IsBlank, IsSyntax;
  }

  lemma NoElements(c: LibC)
    ensures AreElements(c, [], false) && AreEntries(c, [], false)
  {
  }

  lemma {:induction false} ItemsAt(c: LibC, content: string, i: nat, depth: nat, vs: seq<Json>, next: nat)
    returns (elements: seq<Element>)
    requires ParseItems(c, content, i, depth) == Parsed(vs, next) && depth <= NESTING_LIMIT
    ensures elements != [] && AreElements(c, elements, false) && ValuesOf(elements) == vs
    ensures At(content, i, SpellElements(elements)) && next == i + |SpellElements(elements)|
    ensures depth + NestingOfItems(vs) <= NESTING_LIMIT
    decreases |content| - i, 2
  {
    hide *;
    var behind := ItemsParts(c, content, i, depth, vs, next);
    var before := GapAt(content, i);
    var start := SkipWhitespace(content, i);
    var gap := GapAt(content, behind);
    var mark := SkipWhitespace(content, behind);
    MarksEnd(content[mark]);
    DelimitedBefore(content, behind);
    ValueGoesOn(c, content, start, depth);
    var t := ValueAt(c, content, start, depth, vs[0], behind);
    var e := Element(before, t, gap);
    ElementOf(c, before, t, gap);
    var rest := [];
    NoItems();
    NoElements(c);
    if content[mark] == ',' {
      rest := ItemsAt(c, content, mark + 1, depth, vs[1..], next);
    } else {
      AtSlice(content, mark + 1, mark + 1);
      assert vs[1..] == [] && content[mark + 1..mark + 1] == [];
    }
    elements := [e] + rest;
    ElementInFront(c, e, rest);
    PartsJoin(content, i, before, Spell(t), gap, content[mark], if rest == [] then [] else SpellElements(rest));
    NestingStep(vs, depth);
    assert vs == [vs[0]] + vs[1..];
  }

  lemma ValueGoesOn(c: LibC, content: string, i: nat, depth: nat)
    ensures ParseValue(c, content, i, depth).Parsed? ==> i < ParseValue(c, content, i, depth).offset <= |content|
  {
    hide ParseString, ParseNumber, ParseArray, ParseObject;
  }

  /** What a successful parse_array has found. */
  lemma ArrayParts(c: LibC, content: string, i: nat, depth: nat, v: Json, next: nat)
    requires i < |content| && ParseArray(c, content, i, depth) == Parsed(v, next)
    ensures depth < NESTING_LIMIT && v.JArray? && i + 1 < |content|
    ensures var first := SkipWhitespace(content, i + 1);
            first < |content| &&
            if content[first] == ']' then v == JArray([]) && next == first + 1
            else ParseItems(c, content, first, depth + 1) == Parsed(v.items, next)
  {
    hide ParseItems, SkipRun;
  }

  lemma ListStands(content: string, i: nat, gap: string, elements: seq<Element>)
    requires i < |content| && content[i] == '['
    requires At(content, i + 1, if elements == [] then gap + "]" else SpellElements(elements))
    ensures At(content, i, Spell(List(gap, elements)))
    ensures |Spell(List(gap, elements))| == 1 + if elements == [] then |gap| + 1 else |SpellElements(elements)|
  {
    AtOne(content, i, '[');
    AtJoin(content, i, "[", if elements == [] then gap + "]" else SpellElements(elements));
    hide At, SpellElements;
  }

  lemma {:induction false} ListAt(c: LibC, content: string, i: nat, depth: nat, v: Json, next: nat)
    returns (gap: string, elements: seq<Element>)
    requires i < |content| && content[i] == '[' && ParseArray(c, content, i, depth) == Parsed(v, next)
    ensures IsBlank(gap, false) && AreElements(c, elements, false) && v == JArray(ValuesOf(elements))
    ensures At(content, i, Spell(List(gap, elements))) && next == i + |Spell(List(gap, elements))|
    ensures depth + 1 + NestingOfItems(ValuesOf(elements)) <= NESTING_LIMIT
    decreases |content| - i, 0
  {
    hide *;
    ArrayParts(c, content, i, depth, v, next);
    gap := GapAt(content, i + 1);
    var first := SkipWhitespace(content, i + 1);
    elements := [];
    NoItems();
    NoElements(c);
    if content[first] == ']' {
      AtOne(content, first, ']');
      AtJoin(content, i + 1, gap, "]");
    } else {
      ItemsFromSkip(c, content, i + 1, first, depth + 1);
      elements := ItemsAt(c, content, i + 1, depth + 1, v.items, next);
    }
    ListStands(content, i, gap, elements);
  }

  // ---- Objects ----

  lemma MemberParts(c: LibC, content: string, i: nat, depth: nat, member: Member, next: nat)
    returns (behindKey: nat)
    requires i < |content| && ParseMember(c, content, i, depth) == Parsed(member, next)
    ensures ParseString(content, i) == Parsed(member.key, behindKey) && i < behindKey < |content|
    ensures var colon := SkipWhitespace(content, behindKey);
            && colon < |content| - 1 && content[colon] == ':'
            && ParseValue(c, content, SkipWhitespace(content, colon + 1), depth) == Parsed(member.value, next)
  {
    hide SkipRun, ParseValue, ParseString;
    behindKey := ParseString(content, i).offset;
    ValueGoesOn(c, content, SkipWhitespace(content, SkipWhitespace(content, behindKey) + 1), depth);
  }

  lemma MembersParts(c: LibC, content: string, i: nat, depth: nat, ms: seq<Member>, next: nat) returns (behind: nat)
    requires ParseMembers(c, content, i, depth) == Parsed(ms, next)
    ensures i < |content| && ms != [] && i < next && behind < |content|
    ensures SkipWhitespace(content, i) < |content|
    ensures ParseMember(c, content, SkipWhitespace(content, i), depth) == Parsed(ms[0], behind)
    ensures var mark := SkipWhitespace(content, behind);
            mark < |content| &&
            if content[mark] == ',' then |ms| > 1 && ParseMembers(c, content, mark + 1, depth) == Parsed(ms[1..], next)
            else content[mark] == '}' && |ms| == 1 && next == mark + 1
  {
    hide SkipRun, ParseMember;
    var first := ParseMember(c, content, SkipWhitespace(content, i), depth);
    behind := first.offset;
    var mark := SkipWhitespace(content, behind);
    if content[mark] == ',' {
      MembersNotEmpty(c, content, mark + 1, depth);
      var others := ParseMembers(c, content, mark + 1, depth);
      assert ms == [first.value] + others.value;
    }
  }

  lemma MembersNotEmpty(c: LibC, content: string, i: nat, depth: nat)
    ensures ParseMembers(c, content, i, depth).Parsed? ==> ParseMembers(c, content, i, depth).value != []
  {
    hide ParseMember, SkipWhitespace;
  }

  lemma EntryInFront(c: LibC, e: Entry, rest: seq<Entry>)
    requires IsEntry(c, e, false) && AreEntries(c, rest, false)
    ensures var all := [e] + rest;
            && AreEntries(c, all, false) && MembersOf(all) == [Member(e.name, ValueOf(e.value))] + MembersOf(rest)
            && SpellEntries(all) == e.before + (e.key + (e.behindKey + ([':'] + BehindColon(all))))
            && BehindColon(all) ==
               e.beforeValue + (Spell(e.value) + (e.behind +
               ([if rest == [] then '}' else ','] + if rest == [] then [] else SpellEntries(rest))))
            && |SpellEntries(all)| ==
               |e.before| + |e.key| + |e.behindKey| + 1 + |e.beforeValue| + |Spell(e.value)| + |e.behind| + 1 +
               if rest == [] then 0 else |SpellEntries(rest)|
  {
    var all := [e] + rest;
    assert all[0] == e && all[1..] == rest;
    hide IsEntry, Spell, SpellEntries, MembersOf, ValueOf, BehindColon;
    EntriesAre(c, all);
    BehindColonIs(all);
    MembersStep(all);
    MarkOfEntries(all);
    assert MembersOf(all) == [MembersOf(all)[0]] + MembersOf(all)[1..];
  }

  lemma NestingOfMembersStep(ms: seq<Member>, depth: nat)
    requires ms != [] && depth + Nesting(ms[0].value) <= NESTING_LIMIT
    requires depth + NestingOfMembers(ms[1..]) <= NESTING_LIMIT
    ensures depth + NestingOfMembers(ms) <= NESTING_LIMIT
  {
    hide Nesting;
  }

  lemma EntryOfParts(c: LibC, before: string, key: string, name: string, behindKey: string, beforeValue: string,
                     t: Syntax, behind: string)
    requires IsBlank(before, false) && IsTextOf(key, name, false) && IsBlank(behindKey, false)
    requires IsBlank(beforeValue, false) && IsSyntax(c, t, false) && IsBlank(behind, false)
    ensures IsEntry(c, Entry(before, key, name, behindKey, beforeValue, t, behind), false)
  {
    hide IsBlank, IsSyntax, IsTextOf;
  }

  /** One member at `start`, with the white space inside it and behind it. */
  lemma {:induction false} EntryAt(c: LibC, content: string, start: nat, depth: nat, before: string,
                                   member: Member, behind: nat)
    returns (e: Entry)
    requires start < |content| && ParseMember(c, content, start, depth) == Parsed(member, behind)
    requires depth <= NESTING_LIMIT && behind < |content| && IsBlank(before, false)
    requires var mark := SkipWhitespace(content, behind);
             mark < |content| && (content[mark] == ',' || content[mark] == '}')
    ensures IsEntry(c, e, false) && e.before == before && Member(e.name, ValueOf(e.value)) == member
    ensures var colon := start + |e.key| + |e.behindKey|;
            var valueAt := colon + 1 + |e.beforeValue|;
            && At(content, start, e.key) && At(content, start + |e.key|, e.behindKey)
            && colon < |content| && content[colon] == ':'
            && At(content, colon + 1, e.beforeValue) && At(content, valueAt, Spell(e.value))
            && behind == valueAt + |Spell(e.value)|
            && At(content, behind, e.behind) && behind + |e.behind| == SkipWhitespace(content, behind)
    ensures depth + Nesting(member.value) <= NESTING_LIMIT
    decreases |content| - start, 1
  {
    hide *;
    var behindKey := MemberParts(c, content, start, depth, member, behind);
    TextAt(content, start, member.key, behindKey);
    var gap := GapAt(content, behindKey);
    var colon := SkipWhitespace(content, behindKey);
    var beforeValue := GapAt(content, colon + 1);
    var valueAt := SkipWhitespace(content, colon + 1);
    var gap' := GapAt(content, behind);
    MarksEnd(content[SkipWhitespace(content, behind)]);
    DelimitedBefore(content, behind);
    var t := ValueAt(c, content, valueAt, depth, member.value, behind);
    e := Entry(before, content[start..behindKey], member.key, gap, beforeValue, t, gap');
    EntryOfParts(c, before, content[start..behindKey], member.key, gap, beforeValue, t, gap');
  }

  lemma {:induction false} MembersAt(c: LibC, content: string, i: nat, depth: nat, ms: seq<Member>, next: nat)
    returns (entries: seq<Entry>)
    requires ParseMembers(c, content, i, depth) == Parsed(ms, next) && depth <= NESTING_LIMIT
    ensures entries != [] && AreEntries(c, entries, false) && MembersOf(entries) == ms
    ensures At(content, i, SpellEntries(entries)) && next == i + |SpellEntries(entries)|
    ensures depth + NestingOfMembers(ms) <= NESTING_LIMIT
    decreases |content| - i, 3
  {
    hide *;
    var behind := MembersParts(c, content, i, depth, ms, next);
    var before := GapAt(content, i);
    var start := SkipWhitespace(content, i);
    var mark := SkipWhitespace(content, behind);
    MemberGoesOn(c, content, start, depth);
    BehindSkip(content, behind);
    var e := EntryAt(c, content, start, depth, before, ms[0], behind);
    var rest := [];
    NoItems();
    NoElements(c);
    if content[mark] == ',' {
      rest := MembersAt(c, content, mark + 1, depth, ms[1..], next);
    } else {
      AtSlice(content, mark + 1, mark + 1);
      assert ms[1..] == [] && content[mark + 1..mark + 1] == [];
    }
    entries := [e] + rest;
    EntryInFront(c, e, rest);
    var colon := start + |e.key| + |e.behindKey|;
    PartsJoin(content, colon + 1, e.beforeValue, Spell(e.value), e.behind, content[mark],
              if rest == [] then [] else SpellEntries(rest));
    PartsJoin(content, i, before, e.key, e.behindKey, ':', BehindColon(entries));
    NestingOfMembersStep(ms, depth);
    assert ms == [ms[0]] + ms[1..];
  }

  lemma BehindSkip(content: string, i: nat)
    ensures SkipWhitespace(content, i) >= i
  {
    hide SkipRun;
  }

  lemma MemberGoesOn(c: LibC, content: string, i: nat, depth: nat)
    requires i < |content|
    ensures ParseMember(c, content, i, depth).Parsed? ==> i < ParseMember(c, content, i, depth).offset <= |content|
  {
    hide ParseString, ParseValue, SkipWhitespace;
  }

  lemma ObjectParts(c: LibC, content: string, i: nat, depth: nat, v: Json, next: nat)
    requires i < |content| && ParseObject(c, content, i, depth) == Parsed(v, next)
    ensures depth < NESTING_LIMIT && v.JObject? && i + 1 < |content|
    ensures var first := SkipWhitespace(content, i + 1);
            first < |content| &&
            if content[first] == '}' then v == JObject([]) && next == first + 1
            else ParseMembers(c, content, first, depth + 1) == Parsed(v.members, next)
  {
    hide ParseMembers, SkipRun;
  }

  lemma RecordStands(content: string, i: nat, gap: string, entries: seq<Entry>)
    requires i < |content| && content[i] == '{'
    requires At(content, i + 1, if entries == [] then gap + "}" else SpellEntries(entries))
    ensures At(content, i, Spell(Record(gap, entries)))
    ensures |Spell(Record(gap, entries))| == 1 + if entries == [] then |gap| + 1 else |SpellEntries(entries)|
  {
    AtOne(content, i, '{');
    AtJoin(content, i, "{", if entries == [] then gap + "}" else SpellEntries(entries));
    hide At, SpellEntries;
  }

  lemma {:induction false} RecordAt(c: LibC, content: string, i: nat, depth: nat, v: Json, next: nat)
    returns (gap: string, entries: seq<Entry>)
    requires i < |content| && content[i] == '{' && ParseObject(c, content, i, depth) == Parsed(v, next)
    ensures IsBlank(gap, false) && AreEntries(c, entries, false) && v == JObject(MembersOf(entries))
    ensures At(content, i, Spell(Record(gap, entries))) && next == i + |Spell(Record(gap, entries))|
    ensures depth + 1 + NestingOfMembers(MembersOf(entries)) <= NESTING_LIMIT
    decreases |content| - i, 0
  {
    hide *;
    ObjectParts(c, content, i, depth, v, next);
    gap := GapAt(content, i + 1);
    var first := SkipWhitespace(content, i + 1);
    entries := [];
    NoItems();
    NoElements(c);
    if content[first] == '}' {
      AtOne(content, first, '}');
      AtJoin(content, i + 1, gap, "}");
    } else {
      MembersFromSkip(c, content, i + 1, first, depth + 1);
      entries := MembersAt(c, content, i + 1, depth + 1, v.members, next);
    }
    RecordStands(content, i, gap, entries);
  }

  // ---- Values and documents ----

  /** Which branch of parse_value a value was read by. */
  lemma BranchTaken(c: LibC, content: string, i: nat, depth: nat, v: Json, next: nat)
    requires ParseValue(c, content, i, depth) == Parsed(v, next)
    requires !At(content, i, "null") && !At(content, i, "false") && !At(content, i, "true")
    ensures i < |content|
    ensures content[i] == '\"' ==> v.JString? && ParseString(content, i) == Parsed(v.text, next)
    ensures content[i] == '-' || '0' <= content[i] <= '9' ==> v.JNumber? && ParseNumber(c, content, i) == Parsed(v, next)
    ensures content[i] == '[' ==> ParseArray(c, content, i, depth) == Parsed(v, next)
    ensures content[i] == '{' ==> ParseObject(c, content, i, depth) == Parsed(v, next)
    ensures content[i] == '\"' || content[i] == '-' || '0' <= content[i] <= '9' || content[i] == '[' || content[i] == '{'
  {
    hide ParseString, ParseArray, ParseObject, NumberToken, At;
  }

  lemma TreeOfText(c: LibC, text: string, value: string)
    requires IsTextOf(text, value, false)
    ensures IsSyntax(c, Text(text, value), false)
  {
    hide IsTextOf;
  }

  lemma TreeOfNumberText(c: LibC, text: string, value: real)
    requires IsNumberOf(c, text, value, false)
    ensures IsSyntax(c, Number(text, value), false)
  {
    hide IsNumberOf;
  }

  lemma TreeOfList(c: LibC, gap: string, elements: seq<Element>)
    requires IsBlank(gap, false) && AreElements(c, elements, false)
    ensures IsSyntax(c, List(gap, elements), false)
  {
    hide IsBlank, IsElement;
  }

  lemma TreeOfRecord(c: LibC, gap: string, entries: seq<Entry>)
    requires IsBlank(gap, false) && AreEntries(c, entries, false)
    ensures IsSyntax(c, Record(gap, entries), false)
  {
    hide IsBlank, IsEntry;
  }

  /** Whatever parse_value reads, where no number could go on behind it, is a text of the wider grammar. */
  lemma {:induction false} ValueAt(c: LibC, content: string, i: nat, depth: nat, v: Json, next: nat)
    returns (t: Syntax)
    requires ParseValue(c, content, i, depth) == Parsed(v, next) && Delimited(content, next) && depth <= NESTING_LIMIT
    ensures IsSyntax(c, t, false) && ValueOf(t) == v
    ensures At(content, i, Spell(t)) && next == i + |Spell(t)|
    ensures depth + Nesting(v) <= NESTING_LIMIT
    decreases |content| - i, 1
  {
    hide *;
    if At(content, i, "null") || At(content, i, "false") || At(content, i, "true") {
      t := WordAt(c, content, i, depth);
    } else {
      BranchTaken(c, content, i, depth, v, next);
      ValueGoesOn(c, content, i, depth);
      if content[i] == '\"' {
        TextAt(content, i, v.text, next);
        t := Text(content[i..next], v.text);
        TreeOfText(c, content[i..next], v.text);
      } else if content[i] == '[' {
        var gap, elements := ListAt(c, content, i, depth, v, next);
        t := List(gap, elements);
        TreeOfList(c, gap, elements);
      } else if content[i] == '{' {
        var gap, entries := RecordAt(c, content, i, depth, v, next);
        t := Record(gap, entries);
        TreeOfRecord(c, gap, entries);
      } else {
        NumberAt(c, content, i, v.value, next);
        t := Number(content[i..next], v.value);
        TreeOfNumberText(c, content[i..next], v.value);
      }
      ValueIs(t);
    }
  }

  /** A document of the wider grammar within the nesting limit, and its value. */
  ghost predicate IsDocumentOf(c: LibC, text: string, v: Json) {
    exists marked, before, t, behind :: DocumentParts(c, text, v, marked, before, t, behind)
  }

  ghost predicate DocumentParts(
      c: LibC, text: string, v: Json, marked: bool, before: string, t: Syntax, behind: string)
  {
    && IsBlank(before, false) && IsSyntax(c, t, false) && IsBlank(behind, false)
    && text == SpellDocument(marked, before, t, behind) && ValueOf(t) == v && Nesting(v) <= NESTING_LIMIT
  }

  ghost function StartOf(text: string): nat {
    if 4 < |text + [NUL]| && At(text + [NUL], 0, BYTE_ORDER_MARK) then 3 else 0
  }

  /** What a successful parse of a whole text has found. */
  lemma DocumentPartsOf(c: LibC, text: string, v: Json, next: nat) returns (behind: nat)
    requires NUL !in text && ParseDocument(c, text, true) == Parsed(v, next)
    ensures var content := text + [NUL];
            && StartOf(text) < |content|
            && ParseValue(c, content, SkipWhitespace(content, StartOf(text)), 0) == Parsed(v, behind)
            && behind < |content| && SkipWhitespace(content, behind) == next == |text|
  {
    var content := text + [NUL];
    behind := ParseValue(c, content, SkipWhitespace(content, StartOf(text)), 0).offset;
    assert forall k :: 0 <= k < |text| ==> content[k] == text[k];
    hide ParseValue, SkipRun, At;
  }

  lemma TextOfContent(text: string, i: nat, part: string)
    requires At(text + [NUL], i, part) && i + |part| == |text|
    ensures text == text[..i] + part
  {
    forall k | 0 <= k < |part|
      ensures part[k] == text[i..][k]
    {
      AtIndex(text + [NUL], i, part, k);
    }
    hide At;
  }

  lemma MarkOfText(text: string)
    ensures StartOf(text) <= |text|
    ensures text[..StartOf(text)] == if StartOf(text) == 3 then BYTE_ORDER_MARK else []
    ensures StartOf(text) == 3 || StartOf(text) == 0
  {
    if StartOf(text) == 3 {
      AtIndex(text + [NUL], 0, BYTE_ORDER_MARK, 0);
      AtIndex(text + [NUL], 0, BYTE_ORDER_MARK, 1);
      AtIndex(text + [NUL], 0, BYTE_ORDER_MARK, 2);
    }
    hide At;
  }

  lemma NulIsNoNumber()
    ensures !IsNumberChar(NUL)
  {
  }

  lemma NulStands(text: string)
    ensures (text + [NUL])[|text|] == NUL && |text + [NUL]| == |text| + 1
  {
  }

  lemma IsDocument(c: LibC, text: string, v: Json, marked: bool, before: string, t: Syntax, behind: string)
    requires DocumentParts(c, text, v, marked, before, t, behind)
    ensures IsDocumentOf(c, text, v)
  {
    hide DocumentParts;
  }

  lemma SpelledDocument(marked: bool, before: string, t: Syntax, behind: string)
    ensures SpellDocument(marked, before, t, behind) ==
            (if marked then BYTE_ORDER_MARK else []) + (before + (Spell(t) + behind))
  {
    hide Spell;
  }

  lemma PartsAre(c: LibC, text: string, v: Json, marked: bool, before: string, t: Syntax, behind: string)
    ensures DocumentParts(c, text, v, marked, before, t, behind) <==>
            && IsBlank(before, false) && IsSyntax(c, t, false) && IsBlank(behind, false)
            && text == SpellDocument(marked, before, t, behind) && ValueOf(t) == v && Nesting(v) <= NESTING_LIMIT
  {
    hide IsBlank, IsSyntax, SpellDocument, ValueOf, Nesting;
  }

  lemma AcceptedIsDocument(c: LibC, text: string, v: Json, next: nat)
    requires NUL !in text && ParseDocument(c, text, true) == Parsed(v, next)
    ensures next == |text| && IsDocumentOf(c, text, v)
  {
    hide *;
    var content, start := text + [NUL], StartOf(text);
    var end := DocumentPartsOf(c, text, v, next);
    var before := GapAt(content, start);
    var first := SkipWhitespace(content, start);
    NulIsNoNumber();
    NulStands(text);
    DelimitedBefore(content, end);
    ValueGoesOn(c, content, first, 0);
    var t := ValueAt(c, content, first, 0, v, end);
    var behind := GapAt(content, end);
    AtJoin(content, first, Spell(t), behind);
    AtJoin(content, start, before, Spell(t) + behind);
    TextOfContent(text, start, before + (Spell(t) + behind));
    MarkOfText(text);
    SpelledDocument(start == 3, before, t, behind);
    PartsAre(c, text, v, start == 3, before, t, behind);
    IsDocument(c, text, v, start == 3, before, t, behind);
  }

  lemma DocumentIsAccepted(c: LibC, text: string, v: Json)
    requires IsDocumentOf(c, text, v)
    ensures ParseDocument(c, text, true) == Parsed(v, |text|)
  {
    var marked, before, t, behind :| DocumentParts(c, text, v, marked, before, t, behind);
    hide *;
    PartsAre(c, text, v, marked, before, t, behind);
    DocumentIsRead(c, marked, before, t, behind, true);
  }

  /**
   What cJSON_ParseWithOpts accepts when the whole text must be used: a C string is accepted as a value exactly
   if it is a document of the wider grammar that means it, within the nesting limit.
   */
  lemma AcceptedExactly(c: LibC, text: string)
    requires NUL !in text
    ensures forall v :: ParseDocument(c, text, true) == Parsed(v, |text|) <==> IsDocumentOf(c, text, v)
    ensures ParseDocument(c, text, true).Parsed? ==> ParseDocument(c, text, true).offset == |text|
  {
    hide *;
    forall v
      ensures ParseDocument(c, text, true) == Parsed(v, |text|) <==> IsDocumentOf(c, text, v)
    {
      if ParseDocument(c, text, true) == Parsed(v, |text|) {
        AcceptedIsDocument(c, text, v, |text|);
      }
      if IsDocumentOf(c, text, v) {
        DocumentIsAccepted(c, text, v);
      }
    }
    if ParseDocument(c, text, true).Parsed? {
      var r := ParseDocument(c, text, true);
      AcceptedIsDocument(c, text, r.value, r.offset);
    }
  }

  /** A text has one meaning at most. */
  lemma MeaningIsUnique(c: LibC, text: string, v: Json, w: Json)
    requires IsDocumentOf(c, text, v) && IsDocumentOf(c, text, w)
    ensures v == w
  {
    hide *;
    DocumentIsAccepted(c, text, v);
    DocumentIsAccepted(c, text, w);
  }
}
