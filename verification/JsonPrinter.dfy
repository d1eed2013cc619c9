/**
 The print buffer of src/Libs/cJSON/cJSON.c: memory that grows on demand, an offset that lags behind
 what was written until update_offset moves it to the terminating NUL, and the printing routines that
 advance it. Each routine is proved to write exactly the text JsonText.Print describes.
 */
module JsonPrinter {
  import opened JsonString
  import opened JsonText
  import opened JsonRoundTrip

  /** 32-bit integers always fit. */
  lemma {:induction false} PlainIsPrintable(c: LibC, t: Json)
    requires Plain(t)
    ensures Printable(c, t)
    decreases t
  {
    match t
    case JNumber(d) => DecimalIsShort(d.Floor);
    case JArray(items) =>
      forall i | 0 <= i < |items|
        ensures Printable(c, items[i])
      {
        PlainIsPrintable(c, items[i]);
      }
    case JObject(members) =>
      forall i | 0 <= i < |members|
        ensures Printable(c, members[i].value)
      {
        PlainIsPrintable(c, members[i].value);
      }
    case _ =>
  }

  /** No string or formatted number contains a NUL, since all of them are C strings. */
  predicate CTree(t: Json) {
    match t
    case JString(s) => NUL !in s
    case JArray(items) => forall i :: 0 <= i < |items| ==> CTree(items[i])
    case JObject(members) =>
      forall i :: 0 <= i < |members| ==> NUL !in members[i].key && CTree(members[i].value)
    case _ => true
  }

  /** Every number fits the source's buffer for formatted numbers. */
  predicate Printable(c: LibC, t: Json) {
    match t
    case JNumber(d) => |PrintNumber(c, d)| <= NUMBER_BUFFER
    case JArray(items) => forall i :: 0 <= i < |items| ==> Printable(c, items[i])
    case JObject(members) => forall i :: 0 <= i < |members| ==> Printable(c, members[i].value)
    case _ => true
  }

  const NUMBER_BUFFER := 25

  ghost predicate PrintsCStrings(c: LibC) {
    forall d :: NUL !in c.printReal(d)
  }

  class PrintBuffer {
    var buffer: string    // the allocated memory; its length is the source's `length`
    var offset: nat
    var depth: nat
    const noalloc: bool
    const format: bool

    ghost predicate Valid()
      reads this`buffer, this`offset
    {
      |buffer| <= INT_MAX && if |buffer| == 0 then offset == 0 else offset < |buffer|
    }

    /** Everything printed so far. */
    function Text(): (text: string)
      requires Valid()
      reads this`buffer, this`offset
      ensures |text| == offset
    {
      buffer[..offset]
    }

    /** `full` is in memory and terminated, though the offset may still lie inside it. */
    ghost predicate Holds(full: string)
      reads this`buffer, this`offset
    {
      && offset <= |full| && |full| + 1 < |buffer|
      && buffer[..|full|] == full && buffer[|full|] == NUL
    }

    constructor (size: nat, noalloc: bool, format: bool)
      requires size <= INT_MAX
      ensures Valid() && |buffer| == size && offset == 0 && depth == 0
      ensures this.noalloc == noalloc && this.format == format
    {
      buffer := seq(size, i => NUL);
      offset, depth := 0, 0;
      this.noalloc, this.format := noalloc, format;
    }

    /** Text ending at `end` can be written: one byte more than its NUL is asked for every time. */
    predicate Roomy(end: nat)
      reads this`buffer
    {
      end + 2 <= INT_MAX && (noalloc ==> end + 2 <= |buffer|)
    }

    lemma RoomyIs()
      ensures forall end: nat :: Roomy(end) <==> end + 2 <= INT_MAX && (noalloc ==> end + 2 <= |buffer|)
    {
    }

    /**
     Makes room for `needed` more characters and a NUL. Memory that may grow grows to twice what is needed,
     or to INT_MAX when that is too much; it fails exactly when INT_MAX, or memory that may not grow, is
     too small.
     */
    method Ensure(needed: nat) returns (ok: bool)
      requires Valid()
      modifies this`buffer
      ensures Valid() && Text() == old(Text())
      ensures ok <==> needed <= INT_MAX && (offset + needed + 1 <= old(|buffer|) ||
                                            (!noalloc && offset + needed + 1 <= INT_MAX))
      ensures |buffer| == if !ok || offset + needed + 1 <= old(|buffer|) then old(|buffer|)
                          else if offset + needed + 1 > INT_MAX / 2 then INT_MAX else 2 * (offset + needed + 1)
      ensures !ok || noalloc ==> buffer == old(buffer)
    {
      if |buffer| > 0 && offset >= |buffer| {
        return false;
      }
      if needed > INT_MAX {
        return false;
      }
      var total := needed + offset + 1;
      if total <= |buffer| {
        return true;
      }
      if noalloc {
        return false;
      }
      var newSize: nat;
      if total > INT_MAX / 2 {
        if total <= INT_MAX {
          newSize := INT_MAX;
        } else {
          return false;
        }
      } else {
        newSize := total * 2;
      }
      buffer := buffer + seq(newSize - |buffer|, i => NUL);
      ok := true;
    }

    /** Writes characters at a position behind the offset, leaving everything before it alone. */
    method Poke(at: nat, text: string)
      requires Valid() && offset <= at && at + |text| < |buffer|
      modifies this`buffer
      ensures Valid() && |buffer| == |old(buffer)| && Text() == old(Text())
      ensures buffer[..at + |text|] == old(buffer[..at]) + text
    {
      buffer := buffer[..at] + text + buffer[at + |text|..];
    }

    /** Writes a piece and its terminating NUL at the offset, as strcpy does. */
    method StoreTerminated(text: string)
      requires Valid() && offset + |text| + 1 < |buffer|
      modifies this`buffer
      ensures Valid() && Text() == old(Text()) && Holds(old(Text()) + text) && |buffer| == |old(buffer)|
    {
      Poke(offset, text + [NUL]);
      ghost var end := offset + |text|;
      assert buffer[..end] == buffer[..end + 1][..end];
      assert buffer[end] == buffer[..end + 1][end];
    }

    /** Writes a piece at the offset and moves behind it. */
    method Append(text: string)
      requires Valid() && offset + |text| < |buffer|
      modifies this`buffer, this`offset
      ensures Valid() && Text() == old(Text()) + text && |buffer| == |old(buffer)|
    {
      Poke(offset, text);
      offset := offset + |text|;
    }

    /** Makes room, writes a piece and moves behind it. */
    method Emit(text: string, needed: nat) returns (ok: bool)
      requires Valid() && |text| <= needed
      modifies this`buffer, this`offset
      ensures Valid()
      ensures ok ==> Text() == old(Text()) + text
      ensures old(offset) + needed + 1 <= INT_MAX && (noalloc ==> old(offset) + needed + 1 <= |buffer|) ==> ok
      ensures noalloc ==> |buffer| == |old(buffer)|
    {
      ok := Ensure(needed);
      if ok {
        Append(text);
      }
    }

    /** Makes room and writes the end of a text with its NUL; the offset stays before it. */
    method EmitLast(text: string) returns (ok: bool)
      requires Valid()
      modifies this`buffer
      ensures Valid()
      ensures ok ==> Holds(old(Text()) + text)
      ensures Roomy(offset + |text|) ==> ok
      ensures noalloc ==> |buffer| == |old(buffer)|
    {
      ok := Ensure(|text| + 1);
      if ok {
        StoreTerminated(text);
      }
    }

    /** update_offset: moves to the terminating NUL of what was printed last. */
    method UpdateOffset(ghost full: string)
      requires Valid() && Holds(full) && NUL !in full[offset..]
      modifies this`offset
      ensures Valid() && Text() == full && offset == |full|
    {
      while buffer[offset] != NUL
        invariant old(offset) <= offset <= |full| && NUL !in full[offset..]
        decreases |full| - offset
      {
        FirstNul(full, offset);
        assert full[offset + 1..] == full[offset..][1..];
        offset := offset + 1;
      }
      FirstNul(full, offset);
    }

    lemma FirstNul(full: string, k: nat)
      requires Holds(full) && offset <= k <= |full| && NUL !in full[k..]
      ensures buffer[k] == NUL <==> k == |full|
    {
      if k < |full| {
        assert buffer[k] == buffer[..|full|][k];
        assert full[k] == full[k..][0];
      }
    }

    /** The two passes of print_string_ptr: count the extra characters, then write. */
    method PrintStringPtr(input: string) returns (ok: bool)
      requires Valid() && NUL !in input
      modifies this`buffer
      ensures Valid() && Text() == old(Text())
      ensures ok ==> Holds(old(Text()) + PrintString(input))
      ensures Roomy(offset + |PrintString(input)|) ==> ok
      ensures noalloc ==> |buffer| == |old(buffer)|
    {
      var escapeCharacters := 0;
      for i := 0 to |input|
        invariant buffer == old(buffer) && escapeCharacters == Extra(input[..i])
      {
        ExtraSnoc(input[..i], input[i]);
        assert input[..i + 1] == input[..i] + [input[i]];
        escapeCharacters := escapeCharacters + ExtraChars(input[i]);
      }
      assert input[..|input|] == input;
      CountedLengthIsWritten(input);
      var outputLength := |input| + escapeCharacters;
      ok := Ensure(outputLength + 3);
      if !ok {
        return;
      }
      if escapeCharacters == 0 {
        StoreTerminated([QUOTE] + (input + [QUOTE]));
        return;
      }
      WriteQuoted(input);
    }

    /** The second pass of print_string_ptr, between the quotes: one escape sequence after the other. */
    method WriteEscaped(input: string, at: nat) returns (output: nat)
      requires Valid() && offset <= at && at + |Escape(input)| < |buffer|
      modifies this`buffer
      ensures Valid() && |buffer| == |old(buffer)| && Text() == old(Text())
      ensures output == at + |Escape(input)| && buffer[..output] == old(buffer[..at]) + Escape(input)
    {
      hide Escape, EscapeChar;
      EscapeEmpty(input);
      output := at;
      for i := 0 to |input|
        invariant Valid() && |buffer| == |old(buffer)| && Text() == old(Text())
        invariant output == at + |Escape(input[..i])|
        invariant output + |Escape(input[i..])| == at + |Escape(input)|
        invariant buffer[..output] == old(buffer[..at]) + Escape(input[..i])
      {
        EscapeSnoc(input, i);
        Poke(output, EscapeChar(input[i]));
        output := output + |EscapeChar(input[i])|;
      }
      assert input[..|input|] == input;
    }

    /** A string that needs escaping: quote, escaped characters, quote and NUL. */
    method WriteQuoted(input: string)
      requires Valid() && offset + |PrintString(input)| + 1 < |buffer|
      modifies this`buffer
      ensures Valid() && Text() == old(Text()) && Holds(old(Text()) + PrintString(input))
      ensures |buffer| == |old(buffer)|
    {
      ghost var written := Text() + [QUOTE] + Escape(input);
      assert written + [QUOTE] == Text() + PrintString(input);
      hide Escape;
      Poke(offset, [QUOTE]);
      var output := WriteEscaped(input, offset + 1);
      Poke(output, [QUOTE, NUL]);
      assert [QUOTE, NUL] == [QUOTE] + [NUL];
      HoldsFrom(written, [QUOTE]);
    }

    /** print_number: at most 25 characters fit the source's temporary buffer. */
    method PrintNumberText(c: LibC, d: real) returns (ok: bool)
      requires Valid() && PrintsCStrings(c)
      modifies this
      ensures depth == old(depth) && Valid()
      ensures ok ==> Holds(old(Text()) + PrintNumber(c, d)) && offset >= old(offset)
      ensures ok ==> |PrintNumber(c, d)| <= NUMBER_BUFFER
      ensures Roomy(old(offset) + |PrintNumber(c, d)|) && |PrintNumber(c, d)| <= NUMBER_BUFFER ==> ok
      ensures noalloc ==> |buffer| == |old(buffer)|
    {
      var numberBuffer := PrintNumber(c, d);
      if |numberBuffer| > NUMBER_BUFFER {
        return false;
      }
      ok := Ensure(|numberBuffer| + 1);
      if !ok {
        return;
      }
      StoreTerminated(numberBuffer);
      offset := offset + |numberBuffer|;
    }

    /** print_value, for a tree of C strings. */
    method PrintValue(c: LibC, item: Json) returns (ok: bool)
      requires Valid() && CTree(item) && PrintsCStrings(c)
      modifies this
      ensures Valid()
      ensures ok ==> depth == old(depth) && offset >= old(offset)
      ensures ok ==> Holds(old(Text()) + Print(c, item, format, old(depth)))
      ensures Roomy(old(offset) + |Print(c, item, format, old(depth))|) && Printable(c, item) ==> ok
      ensures ok ==> Printable(c, item)
      ensures noalloc ==> |buffer| == |old(buffer)|
      decreases item, 3
    {
      match item
      case JNull =>
        ok := Ensure(5);
        if ok { StoreTerminated("null"); }
      case JFalse =>
        ok := Ensure(6);
        if ok { StoreTerminated("false"); }
      case JTrue =>
        ok := Ensure(5);
        if ok { StoreTerminated("true"); }
      case JNumber(d) =>
        ok := PrintNumberText(c, d);
      case JString(s) =>
        ok := PrintStringPtr(s);
      case JArray(items) =>
        ok := PrintArray(c, items);
      case JObject(members) =>
        ok := PrintObject(c, members);
    }

    /** A value followed by update_offset: its text is now part of what was printed. */
    method PrintAndAdvance(c: LibC, item: Json) returns (ok: bool)
      requires Valid() && CTree(item) && PrintsCStrings(c)
      modifies this
      ensures Valid()
      ensures ok ==> depth == old(depth) && Text() == old(Text()) + Print(c, item, format, old(depth))
      ensures ok ==> offset + 1 < |buffer|
      ensures Roomy(old(offset) + |Print(c, item, format, old(depth))|) && Printable(c, item) ==> ok
      ensures ok ==> Printable(c, item)
      ensures noalloc ==> |buffer| == |old(buffer)|
      decreases item, 4
    {
      ghost var text := Print(c, item, format, depth);
      ghost var full := Text() + text;
      PrintHasNoNul(c, item, format, depth);
      ok := PrintValue(c, item);
      if ok {
        assert full[offset..] == text[offset - old(offset)..];
        UpdateOffset(full);
      }
    }

    /** print_array: brackets around the elements, separators between them. */
    method PrintArray(c: LibC, items: seq<Json>) returns (ok: bool)
      requires Valid() && PrintsCStrings(c) && forall i :: 0 <= i < |items| ==> CTree(items[i])
      modifies this
      ensures Valid()
      ensures ok ==> depth == old(depth) && offset >= old(offset)
      ensures ok ==> Holds(old(Text()) + Print(c, JArray(items), format, old(depth)))
      ensures Roomy(old(offset) + |Print(c, JArray(items), format, old(depth))|) && Printable(c, JArray(items)) ==> ok
      ensures ok ==> Printable(c, JArray(items))
      ensures noalloc ==> |buffer| == |old(buffer)|
      decreases items, 2
    {
      ghost var full := Text() + Print(c, JArray(items), format, depth);
      hide *;
      ArrayText(c, items, format, depth, Text());
      ok := Emit("[", 1);
      if ok {
        depth := depth + 1;
        ok := PrintElements(c, items, full);
      }
    }

    /** print_array behind the opening bracket. */
    method PrintElements(c: LibC, items: seq<Json>, ghost full: string) returns (ok: bool)
      requires Valid() && PrintsCStrings(c) && forall i :: 0 <= i < |items| ==> CTree(items[i])
      requires depth > 0 && full == Text() + PrintItems(c, items[0..], format, depth)
      requires PrintItems(c, items[|items|..], format, depth) == "]"
      modifies this
      ensures Valid()
      ensures ok ==> depth == old(depth) - 1 && offset >= old(offset) && Holds(full)
      ensures Roomy(|full|) && Printable(c, JArray(items)) ==> ok
      ensures ok ==> Printable(c, JArray(items))
      ensures noalloc ==> |buffer| == |old(buffer)|
      decreases items, 1
    {
      hide *;
      PrintableItems(c, items);
      var current := 0;
      while current < |items|
        invariant 0 <= current <= |items| && Valid()
        invariant depth == old(depth) && offset >= old(offset)
        invariant noalloc ==> |buffer| == |old(buffer)|
        invariant full == Text() + PrintItems(c, items[current..], format, depth)
        invariant forall i :: 0 <= i < current ==> Printable(c, items[i])
      {
        ok := PrintItem(c, items, current, full);
        if !ok {
          return;
        }
        current := current + 1;
      }
      ok := EmitLast("]");
      if ok {
        depth := depth - 1;
      }
    }

    /** One round of print_array: an element, and a separator unless it is the last. */
    method PrintItem(c: LibC, items: seq<Json>, current: nat, ghost full: string) returns (ok: bool)
      requires Valid() && PrintsCStrings(c) && forall i :: 0 <= i < |items| ==> CTree(items[i])
      requires current < |items| && full == Text() + PrintItems(c, items[current..], format, depth)
      modifies this
      ensures Valid()
      ensures ok ==> depth == old(depth) && offset >= old(offset)
      ensures ok ==> full == Text() + PrintItems(c, items[current + 1..], format, depth)
      ensures Roomy(|full|) && Printable(c, items[current]) ==> ok
      ensures ok ==> Printable(c, items[current])
      ensures noalloc ==> |buffer| == |old(buffer)|
      decreases items, 0
    {
      ItemsTail(c, items, current, format, depth, Text());
      hide *;
      ok := PrintAndAdvance(c, items[current]);
      if !ok {
        return;
      }
      if current + 1 < |items| {
        var separator := Separator(format);
        ok := Emit(separator, |separator| + 1);
      }
    }

    /** print_object: braces around the members, indented when formatted. */
    method PrintObject(c: LibC, members: seq<Member>) returns (ok: bool)
      requires Valid() && PrintsCStrings(c) && CTree(JObject(members))
      modifies this
      ensures Valid()
      ensures ok ==> depth == old(depth) && offset >= old(offset)
      ensures ok ==> Holds(old(Text()) + Print(c, JObject(members), format, old(depth)))
      ensures Roomy(old(offset) + |Print(c, JObject(members), format, old(depth))|) && Printable(c, JObject(members)) ==> ok
      ensures ok ==> Printable(c, JObject(members))
      ensures noalloc ==> |buffer| == |old(buffer)|
      decreases members, 1
    {
      ghost var full := Text() + Print(c, JObject(members), format, depth);
      hide *;
      ObjectText(c, members, format, depth, Text());
      ok := Open("{" + Newline(format), PrintMembers(c, members[0..], format, depth + 1));
      if ok {
        ok := PrintMemberList(c, members, full);
      }
    }

    /** Writes the start of an object, behind which `rest` is to come. */
    method Open(opening: string, ghost rest: string) returns (ok: bool)
      requires Valid() && rest != []
      modifies this
      ensures Valid() && (ok ==> depth == old(depth) + 1)
      ensures ok ==> Text() + rest == (old(Text()) + opening) + rest && offset == old(offset) + |opening|
      ensures Roomy(|(old(Text()) + opening) + rest|) ==> ok
      ensures noalloc ==> |buffer| == |old(buffer)|
    {
      hide *;
      ok := Emit(opening, |opening| + 1);
      RoomyIs();
      if ok {
        depth := depth + 1;
      }
    }

    /** print_object behind the opening brace. */
    method PrintMemberList(c: LibC, members: seq<Member>, ghost full: string) returns (ok: bool)
      requires Valid() && PrintsCStrings(c) && depth > 0 && CTree(JObject(members))
      requires full == Text() + PrintMembers(c, members[0..], format, depth)
      requires PrintMembers(c, members[|members|..], format, depth) == Indent(format, depth - 1) + "}"
      modifies this
      ensures Valid()
      ensures ok ==> depth == old(depth) - 1 && offset >= old(offset) && Holds(full)
      ensures Roomy(|full|) && Printable(c, JObject(members)) ==> ok
      ensures ok ==> Printable(c, JObject(members))
      ensures noalloc ==> |buffer| == |old(buffer)|
      decreases members, 0
    {
      hide *;
      PrintableMembers(c, members);
      MembersAreCStrings(members);
      var current := 0;
      while current < |members|
        invariant 0 <= current <= |members| && Valid()
        invariant depth == old(depth) && offset >= old(offset)
        invariant noalloc ==> |buffer| == |old(buffer)|
        invariant full == Text() + PrintMembers(c, members[current..], format, depth)
        invariant forall i :: 0 <= i < current ==> Printable(c, members[i].value)
      {
        MembersTail(c, members, current, format, depth, Text());
        ok := PrintMember(c, members[current], current + 1 == |members|);
        RoomyIs();
        if !ok {
          return;
        }
        current := current + 1;
      }
      ok := EmitLast(Indent(format, depth - 1) + "}");
      if ok {
        depth := depth - 1;
      }
    }

    /** One member: indentation, key, colon, value, comma unless it is the last, and line end. */
    method PrintMember(c: LibC, member: Member, last: bool) returns (ok: bool)
      requires Valid() && PrintsCStrings(c) && NUL !in member.key && CTree(member.value)
      modifies this
      ensures Valid()
      ensures ok ==> depth == old(depth) && offset >= old(offset)
      ensures ok ==> Text() == old(Text()) + MemberText(c, member, last, format, old(depth))
      ensures Roomy(old(offset) + |MemberText(c, member, last, format, old(depth))|) && Printable(c, member.value) ==> ok
      ensures ok ==> Printable(c, member.value)
      ensures noalloc ==> |buffer| == |old(buffer)|
      decreases member, 5
    {
      MemberTextParts(c, member, last, format, depth);
      hide *;
      ok := PrintKey(member.key);
      RoomyIs();
      if !ok {
        return;
      }
      ok := PrintAndAdvance(c, member.value);
      RoomyIs();
      if !ok {
        return;
      }
      var ending := Comma(last) + Newline(format);
      ok := Emit(ending, |ending| + 1);
      RoomyIs();
    }

    /** The indentation, the key and the colon of a member. */
    method PrintKey(key: string) returns (ok: bool)
      requires Valid() && NUL !in key
      modifies this`buffer, this`offset
      ensures Valid()
      ensures ok ==> Text() == old(Text()) + (Indent(format, depth) + PrintString(key) + Colon(format))
      ensures Roomy(old(offset) + |Indent(format, depth) + PrintString(key) + Colon(format)|) ==> ok
      ensures noalloc ==> |buffer| == |old(buffer)|
    {
      IndentText(depth);
      StringHasNoNul(key);
      hide *;
      if format {
        ok := Emit(Tabs(depth), depth);
        RoomyIs();
        if !ok {
          return;
        }
      }
      ghost var keyed := Text() + PrintString(key);
      ok := PrintStringPtr(key);
      RoomyIs();
      if !ok {
        return;
      }
      assert keyed[offset..] == PrintString(key);
      UpdateOffset(keyed);
      ok := Emit(Colon(format), |Colon(format)|);
      RoomyIs();
    }

    lemma IndentText(depth: nat)
      ensures format ==> Indent(format, depth) == Tabs(depth)
      ensures !format ==> Indent(format, depth) == []
    {
    }

    lemma HoldsFrom(written: string, last: string)
      requires Valid() && offset <= |written| && |written + last| + 1 < |buffer|
      requires buffer[..|written + last| + 1] == written + (last + [NUL])
      ensures Holds(written + last)
    {
      var end := |written + last|;
      assert buffer[..end] == buffer[..end + 1][..end];
      assert buffer[end] == buffer[..end + 1][end];
    }
  }

  lemma EscapeEmpty(input: string)
    ensures Escape(input[..0]) == [] && Escape(input[0..]) == Escape(input) && Escape(input[|input|..]) == []
  {
    assert input[0..] == input;
  }

  lemma EscapeSnoc(input: string, i: nat)
    requires i < |input|
    ensures Escape(input[..i + 1]) == Escape(input[..i]) + EscapeChar(input[i])
    ensures Escape(input[i..]) == EscapeChar(input[i]) + Escape(input[i + 1..])
  {
    hide Escape, EscapeChar;
    assert input[..i + 1] == input[..i] + [input[i]];
    EscapeAppend(input[..i], [input[i]]);
    EscapeOne(input[i]);
    assert input[i..] == [input[i]] + input[i + 1..];
    EscapeAppend([input[i]], input[i + 1..]);
  }

  /** The text of one member inside an object. */
  function MemberText(c: LibC, member: Member, last: bool, fmt: bool, depth: nat): string {
    Indent(fmt, depth) + PrintString(member.key) + Colon(fmt) + Print(c, member.value, fmt, depth)
    + (Comma(last) + Newline(fmt))
  }

  lemma MemberTextParts(c: LibC, member: Member, last: bool, fmt: bool, depth: nat)
    ensures MemberText(c, member, last, fmt, depth) ==
            Indent(fmt, depth) + PrintString(member.key) + Colon(fmt) + Print(c, member.value, fmt, depth)
            + (Comma(last) + Newline(fmt))
    ensures |PrintString(member.key)| >= 2 && |Print(c, member.value, fmt, depth)| >= 0
    ensures |Indent(fmt, depth)| == if fmt then depth else 0
  {
  }

  lemma ArrayText(c: LibC, items: seq<Json>, fmt: bool, depth: nat, before: string)
    ensures before + Print(c, JArray(items), fmt, depth) == (before + "[") + PrintItems(c, items[0..], fmt, depth + 1)
    ensures PrintItems(c, items[|items|..], fmt, depth + 1) == "]"
    ensures |before + Print(c, JArray(items), fmt, depth)| >= |before| + 2
  {
    assert items[0..] == items;
  }

  lemma ObjectText(c: LibC, members: seq<Member>, fmt: bool, depth: nat, before: string)
    ensures before + Print(c, JObject(members), fmt, depth) ==
            (before + ("{" + Newline(fmt))) + PrintMembers(c, members[0..], fmt, depth + 1)
    ensures PrintMembers(c, members[|members|..], fmt, depth + 1) == Indent(fmt, depth) + "}"
    ensures |PrintMembers(c, members[0..], fmt, depth + 1)| >= 1
  {
    hide Print, Tabs, Newline;
    assert members[0..] == members;
    assert members[|members|..] == [];
    ObjectStep(c, members, fmt, depth);
    hide *;
  }

  lemma ObjectStep(c: LibC, members: seq<Member>, fmt: bool, depth: nat)
    ensures Print(c, JObject(members), fmt, depth) ==
            "{" + (Newline(fmt) + PrintMembers(c, members, fmt, depth + 1))
    ensures PrintMembers(c, [], fmt, depth + 1) == Indent(fmt, depth) + "}"
    ensures |PrintMembers(c, members, fmt, depth + 1)| >= 1
  {
    hide Tabs, Newline;
  }

  lemma PrintableItems(c: LibC, items: seq<Json>)
    ensures Printable(c, JArray(items)) <==> forall i :: 0 <= i < |items| ==> Printable(c, items[i])
  {
  }

  lemma ItemsTail(c: LibC, items: seq<Json>, k: nat, fmt: bool, depth: nat, before: string)
    requires k < |items|
    ensures k + 1 < |items| ==>
              before + PrintItems(c, items[k..], fmt, depth) ==
              ((before + Print(c, items[k], fmt, depth)) + Separator(fmt)) + PrintItems(c, items[k + 1..], fmt, depth)
    ensures k + 1 == |items| ==>
              before + PrintItems(c, items[k..], fmt, depth) ==
              (before + Print(c, items[k], fmt, depth)) + PrintItems(c, items[k + 1..], fmt, depth)
  {
    hide Print, Separator;
    var rest := items[k..];
    assert rest[0] == items[k] && rest[1..] == items[k + 1..];
    ItemsStep(c, rest, fmt, depth);
    hide *;
  }

  lemma ItemsStep(c: LibC, items: seq<Json>, fmt: bool, depth: nat)
    requires items != []
    ensures PrintItems(c, items, fmt, depth) ==
            Print(c, items[0], fmt, depth) +
            (if |items| > 1 then Separator(fmt) + PrintItems(c, items[1..], fmt, depth) else PrintItems(c, items[1..], fmt, depth))
  {
    hide Print, Separator;
  }

  lemma MembersTail(c: LibC, members: seq<Member>, k: nat, fmt: bool, depth: nat, before: string)
    requires k < |members| && depth > 0
    ensures before + PrintMembers(c, members[k..], fmt, depth) ==
            (before + MemberText(c, members[k], k + 1 == |members|, fmt, depth)) +
            PrintMembers(c, members[k + 1..], fmt, depth)
  {
    hide Print, Tabs, Colon, Comma, Newline, Escape;
    var rest := members[k..];
    assert rest[0] == members[k] && rest[1..] == members[k + 1..];
    MembersStep(c, rest, fmt, depth);
    hide *;
  }

  lemma MembersStep(c: LibC, members: seq<Member>, fmt: bool, depth: nat)
    requires members != [] && depth > 0
    ensures PrintMembers(c, members, fmt, depth) ==
            MemberText(c, members[0], |members| == 1, fmt, depth) + PrintMembers(c, members[1..], fmt, depth)
  {
    hide Print, Tabs, Colon, Comma, Newline, Escape;
  }

  lemma MembersAreCStrings(members: seq<Member>)
    requires CTree(JObject(members))
    ensures forall i :: 0 <= i < |members| ==> NUL !in members[i].key && CTree(members[i].value)
  {
  }

  lemma PrintableMembers(c: LibC, members: seq<Member>)
    ensures Printable(c, JObject(members)) <==> forall i :: 0 <= i < |members| ==> Printable(c, members[i].value)
  {
  }

  lemma StringHasNoNul(s: string)
    ensures NUL !in PrintString(s)
  {
    EscapeIsVisible(s);
  }

  /** Printed text never contains a NUL, so strlen finds its end. */
  lemma {:induction false} PrintHasNoNul(c: LibC, t: Json, fmt: bool, depth: nat)
    requires CTree(t) && PrintsCStrings(c)
    ensures NUL !in Print(c, t, fmt, depth)
    decreases t
  {
    match t
    case JString(s) => StringHasNoNul(s);
    case JArray(items) => ItemsHaveNoNul(c, items, fmt, depth + 1);
    case JObject(members) => MembersHaveNoNul(c, members, fmt, depth + 1);
    case _ =>
  }

  lemma {:induction false} ItemsHaveNoNul(c: LibC, items: seq<Json>, fmt: bool, depth: nat)
    requires PrintsCStrings(c) && forall i :: 0 <= i < |items| ==> CTree(items[i])
    ensures NUL !in PrintItems(c, items, fmt, depth)
    decreases items
  {
    if items != [] {
      PrintHasNoNul(c, items[0], fmt, depth);
      ItemsHaveNoNul(c, items[1..], fmt, depth);
    }
  }

  lemma {:induction false} MembersHaveNoNul(c: LibC, members: seq<Member>, fmt: bool, depth: nat)
    requires PrintsCStrings(c) && depth > 0
    requires forall i :: 0 <= i < |members| ==> NUL !in members[i].key && CTree(members[i].value)
    ensures NUL !in PrintMembers(c, members, fmt, depth)
    decreases members
  {
    if members != [] {
      StringHasNoNul(members[0].key);
      PrintHasNoNul(c, members[0].value, fmt, depth);
      MembersHaveNoNul(c, members[1..], fmt, depth);
    }
  }

  lemma {:induction false} ExtraSnoc(s: string, c: char)
    ensures Extra(s + [c]) == Extra(s) + ExtraChars(c)
  {
    if s == [] {
      assert s + [c] == [c];
    } else {
      ExtraSnoc(s[1..], c);
      assert (s + [c])[1..] == s[1..] + [c];
    }
  }

  lemma EscapeOne(c: char)
    ensures Escape([c]) == EscapeChar(c)
  {
    assert [c][1..] == [];
  }

  /** cJSON_Print and cJSON_PrintUnformatted: print into a fresh growing buffer and return its text. */
  method PrintDocument(c: LibC, item: Json, format: bool) returns (ok: bool, text: string)
    requires CTree(item) && PrintsCStrings(c)
    ensures ok <==> Printable(c, item) && |Print(c, item, format, 0)| <= INT_MAX - 2
    ensures ok ==> text == Print(c, item, format, 0)
  {
    var p := new PrintBuffer(256, false, format);
    ok := p.PrintAndAdvance(c, item);
    text := p.Text();
  }

  /**
   cJSON_PrintPreallocated: a tree whose numbers can be printed is printed exactly when the caller's buffer
   has two bytes more than the text, one for the NUL and one that is asked for but never used.
   */
  method PrintPreallocated(c: LibC, item: Json, length: nat, format: bool) returns (ok: bool, memory: string)
    requires CTree(item) && PrintsCStrings(c) && length <= INT_MAX
    ensures ok <==> Printable(c, item) && |Print(c, item, format, 0)| + 2 <= length
    ensures ok ==> |memory| == length && CString(memory) == Print(c, item, format, 0)
  {
    var p := new PrintBuffer(length, true, format);
    ok := p.PrintValue(c, item);
    memory := p.buffer;
    if ok {
      PrintHasNoNul(c, item, format, 0);
      CStringOf(memory, Print(c, item, format, 0));
    }
  }
}
