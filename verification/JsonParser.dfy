/**
 The parse buffer of src/Libs/cJSON/cJSON.c: the offset and the depth that its routines advance in
 place, the memory parse_string allocates and fills, and the nodes that are filled and linked. Each routine
 is proved to do what the functions of JsonString, JsonText and JsonError say, without ever leaving the
 memory it uses.
 */
module JsonParser {
  import opened Options
  import opened JsonString
  import opened JsonText
  import opened JsonError
  import opened JsonList
  import opened JsonTree
  import opened JsonEquality

  /** The tree of new nodes below `item` stands for the value. */
  ghost predicate Stands(t: Tree, item: Node, value: Json)
    reads t.node`payload, t.node`child, Inner(t)`payload, Inner(t)`child, Inner(t)`next, Inner(t)`prev
  {
    t.node == item && Holds(t) && Represents(DocOf(t)) && ToJson(DocOf(t)) == value
  }

  /** Elements parsed already, put before what the rest yields. */
  ghost function Prepend<T>(done: seq<T>, rest: Parsed<seq<T>>): Parsed<seq<T>> {
    match rest
    case Failed => Failed
    case Parsed(values, offset) => Parsed(done + values, offset)
  }

  ghost function PrependText(done: string, rest: Option<string>): Option<string> {
    match rest
    case None => None
    case Some(text) => Some(done + text)
  }

  /** utf16_literal_to_utf8: reads one or two \uXXXX at `i` and writes their UTF-8 form, last byte first. */
  method ConvertLiteral(content: string, i: nat, end: nat, output: array<char>, at: nat)
    returns (sequenceLength: nat, written: nat)
    requires i < end < |content|
    requires match UnicodeEscape(content, i, end)
             case None => at <= output.Length
             case Some(literal) => at + |literal.bytes| <= output.Length
    modifies output
    ensures output[..at] == old(output[..at])
    ensures match UnicodeEscape(content, i, end)
            case None => sequenceLength == 0
            case Some(literal) =>
              sequenceLength == literal.length && written == |literal.bytes|
              && output[at..at + written] == literal.bytes
  {
    if end - i < 6 {
      return 0, 0;
    }
    var codepoint := ParseHex4(content[i + 2..i + 6]);
    if TrailingSurrogate(codepoint) {
      return 0, 0;
    }
    sequenceLength := 6;
    if LeadingSurrogate(codepoint) {
      sequenceLength := 12;
      if end - (i + 6) < 6 {
        return 0, 0;
      }
      if content[i + 6] != BACKSLASH || content[i + 7] != 'u' {
        return 0, 0;
      }
      var second := ParseHex4(content[i + 8..i + 12]);
      if !TrailingSurrogate(second) {
        return 0, 0;
      }
      codepoint := 0x10000 + codepoint % 1024 * 1024 + second % 1024;
    }
    assert UnicodeEscape(content, i, end) == Some(Literal(sequenceLength, Utf8(codepoint)));
    written := WriteUtf8(codepoint, output, at);
  }

  /** The encoding loop of utf16_literal_to_utf8; MasksAreRemainders relates it to the bit operations. */
  method WriteUtf8(cp: nat, output: array<char>, at: nat) returns (utf8Length: nat)
    requires cp <= 0x10FFFF && at + |Utf8(cp)| <= output.Length
    modifies output
    ensures output[..at] == old(output[..at])
    ensures utf8Length == |Utf8(cp)| && output[at..at + utf8Length] == Utf8(cp)
  {
    hide *;
    ghost var bytes := Utf8(cp);
    var firstByteMark;
    utf8Length, firstByteMark := Utf8Shape(cp);
    var codepoint, position := cp, utf8Length - 1;
    while position > 0
      invariant 0 <= position < utf8Length == |bytes| && output[..at] == old(output[..at])
      invariant codepoint == Shifted(cp, utf8Length - 1 - position)
      invariant forall k :: position < k < utf8Length ==> output[at + k] == bytes[k]
    {
      SextetsOfUtf8(cp, position);
      output[at + position] := ByteChar(0x80 + codepoint % 64);
      codepoint := codepoint / 64;
      position := position - 1;
    }
    output[at] := ByteChar(firstByteMark + codepoint);
    assert forall k :: 0 <= k < utf8Length ==> output[at + k] == bytes[k];
  }

  /** How many bytes a code point takes and the mark of the first one. */
  method Utf8Shape(cp: nat) returns (utf8Length: nat, firstByteMark: nat)
    requires cp <= 0x10FFFF
    ensures utf8Length == |Utf8(cp)| && Shifted(cp, 0) == cp
    ensures firstByteMark + Shifted(cp, utf8Length - 1) < 256
    ensures Utf8(cp)[0] == ByteChar(firstByteMark + Shifted(cp, utf8Length - 1))
  {
    utf8Length, firstByteMark := 1, 0;
    if cp < 0x80 {
      return;
    }
    assert Shifted(cp, 1) == cp / 64 && Shifted(cp, 2) == cp / 64 / 64 && Shifted(cp, 3) == cp / 64 / 64 / 64;
    if cp < 0x800 {
      utf8Length, firstByteMark := 2, 0xC0;
    } else if cp < 0x10000 {
      utf8Length, firstByteMark := 3, 0xE0;
    } else {
      utf8Length, firstByteMark := 4, 0xF0;
    }
  }

  /** The code point without its lowest `n` groups of six bits. */
  function Shifted(cp: nat, n: nat): nat {
    if n == 0 then cp else Shifted(cp, n - 1) / 64
  }

  lemma SextetsOfUtf8(cp: nat, k: nat)
    requires cp <= 0x10FFFF && 0 < k < |Utf8(cp)|
    ensures Utf8(cp)[k] == ByteChar(0x80 + Shifted(cp, |Utf8(cp)| - 1 - k) % 64)
    ensures Shifted(cp, |Utf8(cp)| - k) == Shifted(cp, |Utf8(cp)| - 1 - k) / 64
  {
    assert Shifted(cp, 1) == cp / 64 && Shifted(cp, 2) == cp / 64 / 64;
  }

  /** First pass of parse_string: the closing quote, and how many backslashes were skipped on the way. */
  method MeasureString(content: string, start: nat) returns (end: Option<nat>, skipped: nat)
    ensures end == FindEnd(content, start)
    ensures end.Some? ==> skipped == Skipped(content, start, end.value)
  {
    var inputEnd := start;
    skipped := 0;
    ghost var found := FindEnd(content, start);
    while inputEnd < |content| && content[inputEnd] != QUOTE
      invariant FindEnd(content, inputEnd) == found
      invariant found.Some? ==> Skipped(content, start, found.value) == skipped + Skipped(content, inputEnd, found.value)
      decreases |content| - inputEnd
    {
      if content[inputEnd] == BACKSLASH {
        if inputEnd + 1 >= |content| {
          return None, skipped;
        }
        skipped := skipped + 1;
        inputEnd := inputEnd + 1;
      }
      inputEnd := inputEnd + 1;
    }
    if inputEnd >= |content| {
      return None, skipped;
    }
    end := Some(inputEnd);
  }

  /** One round of the second pass, with what it has done so far. */
  method FillRound(
      content: string, i: nat, end: nat, output: array<char>, o: nat, ghost j: nat, ghost done: string,
      ghost text: Option<string>)
    returns (ok: bool, i': nat, o': nat, ghost j': nat, ghost done': string)
    requires i < end < |content| && o < output.Length && output[..o] == done
    requires Filled(content, i, j, end, done, output.Length, text)
    modifies output
    ensures !ok ==> text == None && NextPiece(content, i, end) == None
    ensures ok ==> NextPiece(content, i, end).Some? && i' == i + NextPiece(content, i, end).value.length
    ensures ok ==> i < i' && o' < output.Length && output[..o'] == done'
    ensures ok ==> Filled(content, i', j', end, done', output.Length, text)
  {
    hide *;
    j' := FillStep(content, i, j, end, done, output.Length, text);
    var length, written := FillPiece(content, i, end, output, o);
    ok, i', o' := length != 0, i + length, o + written;
    done' := if ok then output[..o'] else done;
  }

  /**
   Second pass of parse_string: unescapes everything before `end` into the memory whose size the first
   pass computed, one byte less than its length, and reports where it stopped. The ghost `j` is where the
   first pass stood.
   */
  method FillString(content: string, start: nat, end: nat, output: array<char>) returns (length: Option<nat>, stop: nat)
    requires FindEnd(content, start) == Some(end)
    requires output.Length == Room(content, start, start, end) + 1
    modifies output
    ensures match Unescape(content, start, end)
            case None => length == None
            case Some(text) => length.Some? && length.value < output.Length && output[..length.value] == text
    ensures stop == UnescapeStop(content, start, end)
  {
    hide *;
    var i: nat, o: nat := start, 0;
    ghost var j, done := start, [];
    ghost var text := Unescape(content, start, end);
    FillStart(content, start, end);
    while i < end
      invariant o < output.Length && output[..o] == done
      invariant Filled(content, i, j, end, done, output.Length, text)
      invariant UnescapeStop(content, i, end) == UnescapeStop(content, start, end)
      decreases end - i
    {
      var ok, next;
      StopMoves(content, i, end);
      ok, next, o, j, done := FillRound(content, i, end, output, o, j, done, text);
      if !ok {
        return None, i;
      }
      i := next;
    }
    StopsAtEnd(content, i, end);
    FillEnd(content, i, j, end, done, output.Length, text);
    output[o] := NUL;
    length, stop := Some(o), i;
  }

  lemma StopMoves(content: string, i: nat, end: nat)
    requires i < end < |content|
    ensures match NextPiece(content, i, end)
            case None => UnescapeStop(content, i, end) == i
            case Some(piece) => UnescapeStop(content, i, end) == UnescapeStop(content, i + piece.length, end)
  {
    hide NextPiece;
  }

  lemma StopsAtEnd(content: string, i: nat, end: nat)
    requires end <= i && end < |content|
    ensures UnescapeStop(content, i, end) == i
  {
  }

  /** Between two rounds of the second pass: what is written, and that what is left to write fits. */
  ghost predicate Filled(content: string, i: nat, j: nat, end: nat, done: string, size: nat, text: Option<string>) {
    && InStep(content, i, j, end) && |done| + Room(content, i, j, end) < size
    && text == PrependText(done, Unescape(content, i, end))
  }

  lemma FillStart(content: string, start: nat, end: nat)
    requires FindEnd(content, start) == Some(end)
    ensures Filled(content, start, start, end, [], Room(content, start, start, end) + 1, Unescape(content, start, end))
    ensures Room(content, start, start, end) >= 0 && end < |content|
  {
    PrependNothing(Unescape(content, start, end));
    RoomIsNonNegative(content, start, start, end);
  }

  lemma FillStep(content: string, i: nat, j: nat, end: nat, done: string, size: nat, text: Option<string>)
    returns (j': nat)
    requires i < end < |content| && Filled(content, i, j, end, done, size, text)
    ensures |done| < size
    ensures match NextPiece(content, i, end)
            case None => text == None
            case Some(piece) =>
              && piece.length > 0 && |done| + |piece.bytes| < size
              && Filled(content, i + piece.length, j', end, done + piece.bytes, size, text)
  {
    hide Unescape, Skipped, FindEnd, UnicodeEscape, NextPiece;
    j' := j;
    RoomIsNonNegative(content, i, j, end);
    UnescapeOnce(content, i, end, done);
    if NextPiece(content, i, end).Some? {
      j' := RoomStep(content, i, j, end);
      RoomIsNonNegative(content, i + NextPiece(content, i, end).value.length, j', end);
    }
  }

  lemma FillEnd(content: string, i: nat, j: nat, end: nat, done: string, size: nat, text: Option<string>)
    requires end <= i && end < |content| && Filled(content, i, j, end, done, size, text)
    ensures text == Some(done) && |done| < size
  {
    RoomIsNonNegative(content, i, j, end);
    assert Unescape(content, i, end) == Some([]);
    assert done + [] == done;
  }

  lemma PrependNothing(text: Option<string>)
    ensures PrependText([], text) == text
  {
    if text.Some? {
      assert [] + text.value == text.value;
    }
  }

  lemma UnescapeOnce(content: string, i: nat, end: nat, done: string)
    requires i < end < |content|
    ensures match NextPiece(content, i, end)
            case None => PrependText(done, Unescape(content, i, end)) == None
            case Some(piece) =>
              PrependText(done, Unescape(content, i, end)) ==
              PrependText(done + piece.bytes, Unescape(content, i + piece.length, end))
  {
    hide NextPiece;
    if NextPiece(content, i, end).Some? {
      var piece := NextPiece(content, i, end).value;
      if Unescape(content, i + piece.length, end).Some? {
        var rest := Unescape(content, i + piece.length, end).value;
        assert done + (piece.bytes + rest) == (done + piece.bytes) + rest;
      }
    }
  }

  /** One round of the second pass: a length of zero means failure. */
  method FillPiece(content: string, i: nat, end: nat, output: array<char>, o: nat)
    returns (sequenceLength: nat, written: nat)
    requires i < end < |content|
    requires match NextPiece(content, i, end)
             case None => o < output.Length
             case Some(piece) => o + |piece.bytes| <= output.Length
    modifies output
    ensures match NextPiece(content, i, end)
            case None => sequenceLength == 0
            case Some(piece) =>
              sequenceLength == piece.length && written == |piece.bytes|
              && o + written <= output.Length && output[..o + written] == old(output[..o]) + piece.bytes
  {
    hide UnicodeEscape;
    if content[i] != BACKSLASH {
      output[o] := content[i];
      return 1, 1;
    }
    sequenceLength, written := 2, 1;
    match content[i + 1]
    case 'b' => output[o] := BACKSPACE;
    case 'f' => output[o] := FORMFEED;
    case 'n' => output[o] := '\n';
    case 'r' => output[o] := '\r';
    case 't' => output[o] := '\t';
    case 'u' =>
      sequenceLength, written := ConvertLiteral(content, i, end, output, o);
    case other =>
      if other != QUOTE && other != BACKSLASH && other != '/' {
        return 0, 0;
      }
      output[o] := other;
  }

  class ParseBuffer {
    const content: string
    var offset: nat
    var depth: nat   // how many arrays and objects are open at the offset

    constructor (content: string)
      ensures this.content == content && offset == 0 && depth == 0
    {
      this.content := content;
      offset, depth := 0, 0;
    }

    /** buffer_skip_whitespace */
    method SkipBlanks()
      modifies this`offset
      ensures offset == SkipWhitespace(content, old(offset))
    {
      if offset >= |content| {
        return;
      }
      while offset < |content| && content[offset] as int <= 32
        invariant old(offset) <= offset <= |content|
        invariant SkipRun(content, offset) == SkipRun(content, old(offset))
        decreases |content| - offset
      {
        offset := offset + 1;
      }
      if offset == |content| {
        offset := offset - 1;
      }
    }

    /** can_read and strncmp: whether `word` stands at the offset; steps over it. */
    method Accept(word: string) returns (accepted: bool)
      modifies this`offset
      ensures accepted == At(content, old(offset), word)
      ensures offset == if accepted then old(offset) + |word| else old(offset)
    {
      var start := offset;
      if start + |word| > |content| {
        return false;
      }
      for k := 0 to |word|
        invariant forall j :: 0 <= j < k ==> content[start + j] == word[j]
      {
        if content[start + k] != word[k] {
          return false;
        }
      }
      offset := offset + |word|;
      accepted := true;
    }

    /** The loop of parse_number: at most 63 characters and a NUL are copied for strtod. */
    method CopyNumber() returns (token: string)
      ensures token == NumberToken(content, offset, 63)
    {
      hide *;
      var numberCString := new char[64];
      var i := 0;
      ghost var done: string := [];
      while i < 63 && offset + i < |content| && IsNumberChar(content[offset + i])
        invariant 0 <= i <= 63 && numberCString[..i] == done
        invariant NumberToken(content, offset, 63) == done + NumberToken(content, offset + i, 63 - i)
      {
        TokenStep(done, content, offset + i, 63 - i);
        numberCString[i] := content[offset + i];
        done := done + [content[offset + i]];
        i := i + 1;
      }
      TokenEnd(done, content, offset + i, 63 - i);
      numberCString[i] := NUL;
      token := numberCString[..i];
    }

    /** parse_number; `valueInt` is the number cut off and kept within 32 bits. */
    method ParseNumberAt(c: LibC, item: Node) returns (ok: bool)
      requires offset < |content|
      modifies this`offset, item`payload
      ensures match ParseNumber(c, content, old(offset))
              case Failed => !ok && offset == old(offset)
              case Parsed(value, next) =>
                && ok && offset == next && value.JNumber?
                && item.payload == old(item.payload).(kind := NUMBER_KIND, valueDouble := Finite(value.value),
                                                      valueInt := Saturated(value.value))
    {
      var token := CopyNumber();
      var (number, used) := c.strtod(token);
      if used == 0 || used > |token| {
        return false;
      }
      item.payload := item.payload.(kind := NUMBER_KIND, valueDouble := Finite(number), valueInt := Saturated(number));
      offset := offset + used;
      ok := true;
    }

    /** parse_string: measure, allocate, fill, and move behind the closing quote. */
    method ParseStringAt(item: Node) returns (ok: bool)
      requires offset < |content|
      modifies this`offset, item`payload
      ensures match ParseString(content, old(offset))
              case Failed => !ok && offset == StringStop(content, old(offset)) && item.payload == old(item.payload)
              case Parsed(text, next) =>
                ok && offset == next && item.payload == old(item.payload).(kind := STRING_KIND, valueString := Some(text))
    {
      var start := offset + 1;
      if content[offset] != QUOTE {
        offset := start;
        return false;
      }
      var end, skipped := MeasureString(content, start);
      if end == None {
        offset := start;
        return false;
      }
      RoomIsNonNegative(content, start, start, end.value);
      var allocationLength := end.value - offset - skipped;
      var output := new char[allocationLength + 1];
      var length, stop := FillString(content, start, end.value, output);
      if length == None {
        offset := stop;
        return false;
      }
      item.payload := item.payload.(kind := STRING_KIND, valueString := Some(CString(output[..length.value])));
      offset := end.value + 1;
      ok := true;
    }

    /** parse_value: tries the kinds of value in the source's order. */
    method ParseValueAt(c: LibC, item: Node) returns (ok: bool, ghost t: Tree)
      requires item.child == null
      modifies this`offset, this`depth, item`payload, item`child
      ensures match ParseValue(c, content, old(offset), old(depth))
              case Failed => !ok && Stop(offset, depth) == ValueStop(c, content, old(offset), old(depth))
              case Parsed(value, next) =>
                && ok && offset == next && depth == old(depth) && item.payload.name == old(item.payload.name)
                && Stands(t, item, value) && fresh(Inner(t))
      decreases |content| - offset, 3
    {
      t := Tree(item, []);
      ok := true;
      var found := Accept("null");
      if found {
        item.payload := item.payload.(kind := NULL_KIND);
        LeafStands(item, JNull);
        return;
      }
      found := Accept("false");
      if found {
        item.payload := item.payload.(kind := FALSE_KIND);
        LeafStands(item, JFalse);
        return;
      }
      found := Accept("true");
      if found {
        item.payload := item.payload.(kind := TRUE_KIND, valueInt := 1);
        LeafStands(item, JTrue);
        return;
      }
      if offset >= |content| {
        return false, t;
      }
      if content[offset] == QUOTE {
        ok := ParseStringAt(item);
        if ok {
          LeafStands(item, JString(item.payload.valueString.value));
        }
      } else if content[offset] == '-' || '0' <= content[offset] <= '9' {
        ok := ParseNumberAt(c, item);
        if ok {
          LeafStands(item, JNumber(item.payload.valueDouble.value));
        }
      } else if content[offset] == '[' {
        ok, t := ParseArrayAt(c, item);
      } else if content[offset] == '{' {
        ok, t := ParseObjectAt(c, item);
      } else {
        ok := false;
      }
      hide *;
    }

    /** parse_array; the depth stays raised when it fails. */
    method ParseArrayAt(c: LibC, item: Node) returns (ok: bool, ghost t: Tree)
      requires offset < |content| && content[offset] == '[' && item.child == null
      modifies this`offset, this`depth, item`payload, item`child
      ensures match ParseArray(c, content, old(offset), old(depth))
              case Failed => !ok && Stop(offset, depth) == ArrayStop(c, content, old(offset), old(depth))
              case Parsed(value, next) =>
                && ok && offset == next && depth == old(depth) && item.payload.name == old(item.payload.name)
                && Stands(t, item, value) && fresh(Inner(t))
      decreases |content| - offset, 2
    {
      hide *;
      t := Tree(item, []);
      ArrayIs(c, content, offset, depth);
      if depth >= NESTING_LIMIT {
        return false, t;
      }
      depth := depth + 1;
      offset := offset + 1;
      SkipBlanks();
      var head, current: Node? := null, null;
      ghost var cs: seq<Tree> := [];
      NothingGrown();
      NoneRepresent();
      if offset < |content| && content[offset] == ']' {
        offset := offset + 1;
      } else {
        if offset >= |content| {
          offset := offset - 1;
          return false, t;
        }
        offset := offset - 1;
        ok, head, current, cs := ParseElements(c);
        if !ok {
          return;
        }
      }
      depth := depth - 1;
      AllIs(cs);
      assert item !in All(cs) && forall k :: 0 <= k < |Roots(cs)| ==> Roots(cs)[k] in All(cs);
      t := FinishArray(item, head, current, cs);
      ok := true;
    }

    /** The loop of parse_array, from the character in front of the first element on. */
    method ParseElements(c: LibC) returns (ok: bool, head: Node?, current: Node?, ghost cs: seq<Tree>)
      requires offset < |content|
      modifies this`offset, this`depth
      ensures match ParseItems(c, content, old(offset) + 1, old(depth))
              case Failed => !ok && Stop(offset, depth) == ItemsStop(c, content, old(offset) + 1, old(depth))
              case Parsed(items, next) =>
                && ok && offset == next && depth == old(depth) && fresh(All(cs))
                && Growing(head, current, cs) && AllRepresent(DocsOf(cs)) && ToItems(DocsOf(cs)) == items
      decreases |content| - offset, 1
    {
      hide *;
      ghost var result, stop := ParseItems(c, content, offset + 1, depth), ItemsStop(c, content, offset + 1, depth);
      ghost var items: seq<Json> := [];
      var more := true;
      head, current, cs := null, null, [];
      NothingGrown();
      NoneRepresent();
      PrependNone(result);
      while more
        invariant old(offset) <= offset && depth == old(depth)
        invariant more ==> offset < |content| && result == Prepend(items, ParseItems(c, content, offset + 1, depth))
        invariant !more ==> result == Ended(content, offset, ']', items)
        invariant stop == if more then ItemsStop(c, content, offset + 1, depth) else Stop(offset, depth)
        invariant Growing(head, current, cs) && fresh(All(cs))
        invariant AllRepresent(DocsOf(cs)) && ToItems(DocsOf(cs)) == items
        decreases more, |content| - offset
      {
        ghost var start, docs := offset + 1, DocsOf(cs);
        ghost var d;
        ghost var item := ParseValue(c, content, SkipWhitespace(content, start), depth);
        ItemsStep(c, content, start, depth, item, items);
        ItemsStopStep(c, content, start, depth, item);
        AllIs(cs);
        assert forall k :: 0 <= k < |Roots(cs)| ==> Roots(cs)[k] in All(cs);
        ok, head, current, d := ParseElement(c, head, current, cs);
        if !ok {
          return;
        }
        cs := cs + [d];
        assert allocated(Below(cs)) && allocated(Roots(cs));
        OneMoreItem(docs, DocOf(d));
        SkipBlanks();
        items := items + [item.value];
        more := offset < |content| && content[offset] == ',';
      }
      ok := offset < |content| && content[offset] == ']';
      if ok {
        offset := offset + 1;
      }
    }

    /** One round of parse_array: a new node behind the others and its value. */
    method ParseElement(c: LibC, head: Node?, current: Node?, ghost cs: seq<Tree>)
      returns (ok: bool, first: Node?, child: Node?, ghost d: Tree)
      requires offset < |content| && Growing(head, current, cs)
      modifies this`offset, this`depth, Roots(cs)`next
      ensures match ParseValue(c, content, SkipWhitespace(content, old(offset) + 1), old(depth))
              case Failed =>
                && !ok
                && Stop(offset, depth) == ValueStop(c, content, SkipWhitespace(content, old(offset) + 1), old(depth))
              case Parsed(value, next) =>
                && ok && offset == next && depth == old(depth)
                && Growing(first, child, cs + [d]) && (forall n <- All(cs + [d]) :: n in All(cs) || fresh(n))
                && DocsOf(cs + [d]) == old(DocsOf(cs)) + [DocOf(d)]
                && Represents(DocOf(d)) && ToJson(DocOf(d)) == value
      decreases |content| - offset, 0
    {
      hide *;
      ghost var docs := DocsOf(cs);
      first, child := NewChild(head, current, cs);
      AllIs(cs);
      assert allocated(All(cs)) && allocated(Below(cs)) && allocated(Roots(cs));
      offset := offset + 1;
      SkipBlanks();
      ok, d := ParseValueAt(c, child);
      if ok {
        StandsIs(d, child, ParseValue(c, content, SkipWhitespace(content, old(offset) + 1), old(depth)).value);
        Grown(first, cs, d);
      }
    }

    /** parse_object, likewise. */
    method ParseObjectAt(c: LibC, item: Node) returns (ok: bool, ghost t: Tree)
      requires offset < |content| && content[offset] == '{' && item.child == null
      modifies this`offset, this`depth, item`payload, item`child
      ensures match ParseObject(c, content, old(offset), old(depth))
              case Failed => !ok && Stop(offset, depth) == ObjectStop(c, content, old(offset), old(depth))
              case Parsed(value, next) =>
                && ok && offset == next && depth == old(depth) && item.payload.name == old(item.payload.name)
                && Stands(t, item, value) && fresh(Inner(t))
      decreases |content| - offset, 2
    {
      hide *;
      t := Tree(item, []);
      ObjectIs(c, content, offset, depth);
      if depth >= NESTING_LIMIT {
        return false, t;
      }
      depth := depth + 1;
      offset := offset + 1;
      SkipBlanks();
      var head, current: Node? := null, null;
      ghost var cs: seq<Tree> := [];
      NothingGrown();
      NoneRepresent();
      if offset < |content| && content[offset] == '}' {
        offset := offset + 1;
      } else {
        if offset >= |content| {
          offset := offset - 1;
          return false, t;
        }
        offset := offset - 1;
        ok, head, current, cs := ParseMemberList(c);
        if !ok {
          return;
        }
      }
      depth := depth - 1;
      AllIs(cs);
      assert item !in All(cs) && forall k :: 0 <= k < |Roots(cs)| ==> Roots(cs)[k] in All(cs);
      t := FinishObject(item, head, current, cs);
      ok := true;
    }

    /** The loop of parse_object, from the character in front of the first key on. */
    method ParseMemberList(c: LibC) returns (ok: bool, head: Node?, current: Node?, ghost cs: seq<Tree>)
      requires offset < |content|
      modifies this`offset, this`depth
      ensures match ParseMembers(c, content, old(offset) + 1, old(depth))
              case Failed => !ok && Stop(offset, depth) == MembersStop(c, content, old(offset) + 1, old(depth))
              case Parsed(members, next) =>
                && ok && offset == next && depth == old(depth) && fresh(All(cs))
                && Growing(head, current, cs) && AllAreMembers(DocsOf(cs)) && ToMembers(DocsOf(cs)) == members
      decreases |content| - offset, 1
    {
      hide *;
      ghost var result, stop := ParseMembers(c, content, offset + 1, depth), MembersStop(c, content, offset + 1, depth);
      ghost var members: seq<Member> := [];
      var more := true;
      head, current, cs := null, null, [];
      NothingGrown();
      NoneRepresent();
      PrependNone(result);
      while more
        invariant old(offset) <= offset && depth == old(depth)
        invariant more ==> offset < |content| && result == Prepend(members, ParseMembers(c, content, offset + 1, depth))
        invariant !more ==> result == Ended(content, offset, '}', members)
        invariant stop == if more then MembersStop(c, content, offset + 1, depth) else Stop(offset, depth)
        invariant Growing(head, current, cs) && fresh(All(cs))
        invariant AllAreMembers(DocsOf(cs)) && ToMembers(DocsOf(cs)) == members
        decreases more, |content| - offset
      {
        if offset + 1 >= |content| {
          NoMember(c, content, offset + 1, depth, members);
          NoMemberStop(c, content, offset + 1, depth);
          ok := false;
          return;
        }
        ghost var start, docs := offset + 1, DocsOf(cs);
        ghost var d;
        ghost var member := ParseMember(c, content, SkipWhitespace(content, start), depth);
        MembersStep(c, content, start, depth, member, members);
        MembersStopStep(c, content, start, depth, member);
        AllIs(cs);
        assert forall k :: 0 <= k < |Roots(cs)| ==> Roots(cs)[k] in All(cs);
        ok, head, current, d := ParseNextMember(c, head, current, cs);
        if !ok {
          return;
        }
        cs := cs + [d];
        assert allocated(Below(cs)) && allocated(Roots(cs));
        OneMoreMember(docs, DocOf(d));
        SkipBlanks();
        members := members + [member.value];
        more := offset < |content| && content[offset] == ',';
      }
      ok := offset < |content| && content[offset] == '}';
      if ok {
        offset := offset + 1;
      }
    }

    /** One round of parse_object: a new node behind the others, its name and its value. */
    method ParseNextMember(c: LibC, head: Node?, current: Node?, ghost cs: seq<Tree>)
      returns (ok: bool, first: Node?, child: Node?, ghost d: Tree)
      requires offset + 1 < |content| && Growing(head, current, cs)
      modifies this`offset, this`depth, Roots(cs)`next
      ensures match ParseMember(c, content, SkipWhitespace(content, old(offset) + 1), old(depth))
              case Failed =>
                && !ok
                && Stop(offset, depth) == MemberStop(c, content, SkipWhitespace(content, old(offset) + 1), old(depth))
              case Parsed(member, next) =>
                && ok && offset == next && depth == old(depth)
                && Growing(first, child, cs + [d]) && (forall n <- All(cs + [d]) :: n in All(cs) || fresh(n))
                && DocsOf(cs + [d]) == old(DocsOf(cs)) + [DocOf(d)]
                && IsMember(DocOf(d)) && ToMember(DocOf(d)) == member
      decreases |content| - offset, 0
    {
      hide *;
      ghost var docs := DocsOf(cs);
      first, child := NewChild(head, current, cs);
      AllIs(cs);
      assert allocated(All(cs)) && allocated(Below(cs)) && allocated(Roots(cs));
      offset := offset + 1;
      SkipBlanks();
      ok, d := ParseMemberAt(c, child);
      if ok {
        ghost var member := ParseMember(c, content, SkipWhitespace(content, old(offset) + 1), old(depth)).value;
        StandsIs(d, child, member.value);
        NamedStands(d, member);
        Grown(first, cs, d);
      }
    }

    /** A key, a colon and a value; the key is parsed as a string and then becomes the name of the node. */
    method ParseMemberAt(c: LibC, item: Node) returns (ok: bool, ghost t: Tree)
      requires offset < |content| && item.child == null
      modifies this`offset, this`depth, item`payload, item`child
      ensures match ParseMember(c, content, old(offset), old(depth))
              case Failed => !ok && Stop(offset, depth) == MemberStop(c, content, old(offset), old(depth))
              case Parsed(member, next) =>
                && ok && offset == next && depth == old(depth) && item.payload.name == Some(member.key)
                && Stands(t, item, member.value) && fresh(Inner(t))
      decreases |content| - offset, 4
    {
      hide *;
      MemberParse(c, content, offset, depth);
      t := Tree(item, []);
      ok := ParseStringAt(item);
      if !ok {
        return;
      }
      SkipBlanks();
      item.payload := item.payload.(name := item.payload.valueString, valueString := None);
      if offset >= |content| || content[offset] != ':' {
        return false, t;
      }
      offset := offset + 1;
      SkipBlanks();
      ok, t := ParseValueAt(c, item);
    }
  }

  /** `valueint` saturates, and cuts off the fraction. */
  function Saturated(number: real): int {
    if number >= 2147483647.0 then 2147483647
    else if number <= -2147483648.0 then -2147483648
    else if number >= 0.0 then number.Floor else 0 - (0.0 - number).Floor
  }

  // ---- Which values the nodes stand for ----

  predicate AllRepresent(docs: seq<Doc>) {
    forall i :: 0 <= i < |docs| ==> Represents(docs[i])
  }

  predicate IsMember(doc: Doc) {
    Represents(doc) && doc.payload.name.Some?
  }

  predicate AllAreMembers(docs: seq<Doc>) {
    forall i :: 0 <= i < |docs| ==> IsMember(docs[i])
  }

  lemma NoneRepresent()
    ensures AllRepresent([]) && AllAreMembers([]) && ToItems([]) == [] && ToMembers([]) == []
  {
  }

  lemma OneMoreItem(docs: seq<Doc>, doc: Doc)
    requires AllRepresent(docs) && Represents(doc)
    ensures AllRepresent(docs + [doc]) && ToItems(docs + [doc]) == ToItems(docs) + [ToJson(doc)]
  {
    assert (docs + [doc])[..|docs|] == docs;
    hide Represents, ToJson;
  }

  lemma OneMoreMember(docs: seq<Doc>, doc: Doc)
    requires AllAreMembers(docs) && IsMember(doc)
    ensures AllAreMembers(docs + [doc]) && ToMembers(docs + [doc]) == ToMembers(docs) + [ToMember(doc)]
  {
    assert (docs + [doc])[..|docs|] == docs;
    hide IsMember, ToMember;
  }

  lemma StandsIs(t: Tree, item: Node, value: Json)
    ensures Stands(t, item, value) <==> t.node == item && Holds(t) && Represents(DocOf(t)) && ToJson(DocOf(t)) == value
  {
  }

  lemma NamedStands(t: Tree, member: Member)
    requires Represents(DocOf(t)) && ToJson(DocOf(t)) == member.value && t.node.payload.name == Some(member.key)
    ensures IsMember(DocOf(t)) && ToMember(DocOf(t)) == member
  {
    DocIs(t);
    hide Represents, ToJson, DocOf, Inner;
  }

  lemma DocIs(t: Tree)
    ensures DocOf(t) == Doc(null, Unmarked(t.node.payload), DocsOf(t.children))
  {
    hide DocsOf, Inner;
  }

  /** A node without children stands for a value of its kind. */
  lemma LeafStands(item: Node, value: Json)
    requires item.child == null
    requires match value
             case JNull => item.payload.kind == NULL_KIND
             case JFalse => item.payload.kind == FALSE_KIND
             case JTrue => item.payload.kind == TRUE_KIND
             case JNumber(x) => item.payload.kind == NUMBER_KIND && item.payload.valueDouble == Finite(x)
             case JString(s) => item.payload.kind == STRING_KIND && item.payload.valueString == Some(s)
             case _ => false
    ensures Stands(Tree(item, []), item, value) && Inner(Tree(item, [])) == {}
  {
    LeafHolds(item);
    hide Holds, Inner, DocOf;
  }

  /** The end of parse_array: the finished nodes become the elements of the array. */
  method FinishArray(item: Node, head: Node?, current: Node?, ghost cs: seq<Tree>) returns (ghost t: Tree)
    requires Growing(head, current, cs) && item !in All(cs) && AllRepresent(DocsOf(cs))
    modifies item`payload, item`child, Roots(cs)`prev
    ensures Stands(t, item, JArray(old(ToItems(DocsOf(cs))))) && Inner(t) == All(cs)
    ensures item.payload.name == old(item.payload.name)
  {
    hide *;
    AllIs(cs);
    assert allocated(Below(cs)) && allocated(Roots(cs));
    ghost var docs := DocsOf(cs);
    item.payload := item.payload.(kind := ARRAY_KIND);
    assert DocsOf(cs) == docs;
    AdoptTrees(item, head, current, cs);
    t := Tree(item, cs);
    ArrayStands(t, item, docs);
  }

  /** The end of parse_object: the finished nodes become the members of the object. */
  method FinishObject(item: Node, head: Node?, current: Node?, ghost cs: seq<Tree>) returns (ghost t: Tree)
    requires Growing(head, current, cs) && item !in All(cs) && AllAreMembers(DocsOf(cs))
    modifies item`payload, item`child, Roots(cs)`prev
    ensures Stands(t, item, JObject(old(ToMembers(DocsOf(cs))))) && Inner(t) == All(cs)
    ensures item.payload.name == old(item.payload.name)
  {
    hide *;
    AllIs(cs);
    assert allocated(Below(cs)) && allocated(Roots(cs));
    ghost var docs := DocsOf(cs);
    item.payload := item.payload.(kind := OBJECT_KIND);
    assert DocsOf(cs) == docs;
    AdoptTrees(item, head, current, cs);
    t := Tree(item, cs);
    ObjectStands(t, item, docs);
  }

  lemma ArrayStands(t: Tree, item: Node, docs: seq<Doc>)
    requires t.node == item && Holds(t) && AllRepresent(docs) && item.payload.kind == ARRAY_KIND
    requires DocOf(t) == Doc(null, Unmarked(item.payload), docs)
    ensures Stands(t, item, JArray(ToItems(docs)))
  {
    RepresentsIs(DocOf(t));
    hide Holds, DocOf, Inner, Represents, ToItems;
  }

  lemma ObjectStands(t: Tree, item: Node, docs: seq<Doc>)
    requires t.node == item && Holds(t) && AllAreMembers(docs) && item.payload.kind == OBJECT_KIND
    requires DocOf(t) == Doc(null, Unmarked(item.payload), docs)
    ensures Stands(t, item, JObject(ToMembers(docs)))
  {
    RepresentsIs(DocOf(t));
    assert forall i :: 0 <= i < |docs| ==> IsMember(docs[i]);
    hide Holds, DocOf, Inner, Represents, ToMembers;
  }

  /** What the loop over elements or members returns at the first character that is no comma. */
  ghost function Ended<T>(content: string, i: nat, closing: char, values: seq<T>): (r: Parsed<seq<T>>)
    ensures r == if i < |content| && content[i] == closing then Parsed(values, i + 1) else Failed
  {
    if i < |content| && content[i] == closing then Parsed(values, i + 1) else Failed
  }

  lemma TokenStep(done: string, content: string, i: nat, limit: nat)
    requires limit > 0 && i < |content| && IsNumberChar(content[i])
    ensures done + NumberToken(content, i, limit) == (done + [content[i]]) + NumberToken(content, i + 1, limit - 1)
  {
  }

  lemma TokenEnd(done: string, content: string, i: nat, limit: nat)
    requires limit == 0 || i >= |content| || !IsNumberChar(content[i])
    ensures done + NumberToken(content, i, limit) == done
  {
  }

  lemma PrependNone<T>(rest: Parsed<seq<T>>)
    ensures Prepend([], rest) == rest
  {
    if rest.Parsed? {
      assert [] + rest.value == rest.value;
    }
  }

  lemma PrependSnoc<T>(values: seq<T>, value: T, rest: Parsed<seq<T>>, longer: Parsed<seq<T>>)
    requires longer == Prepend([value], rest)
    ensures Prepend(values, longer) == Prepend(values + [value], rest)
  {
    if rest.Parsed? {
      assert values + ([value] + rest.value) == (values + [value]) + rest.value;
    }
  }

  /** One round of the loop of parse_array, seen from the elements parsed before it. */
  lemma ItemsStep(c: LibC, content: string, i: nat, depth: nat, item: Parsed<Json>, items: seq<Json>)
    requires item == ParseValue(c, content, SkipWhitespace(content, i), depth)
    ensures match item
            case Failed => Prepend(items, ParseItems(c, content, i, depth)) == Failed
            case Parsed(value, behind) =>
              var next := SkipWhitespace(content, behind);
              i < next &&
              Prepend(items, ParseItems(c, content, i, depth)) ==
              if next < |content| && content[next] == ','
              then Prepend(items + [value], ParseItems(c, content, next + 1, depth))
              else Ended(content, next, ']', items + [value])
  {
    hide ParseValue, SkipRun;
    if item.Parsed? {
      var next := SkipWhitespace(content, item.offset);
      if next < |content| && content[next] == ',' {
        PrependSnoc(items, item.value, ParseItems(c, content, next + 1, depth), ParseItems(c, content, i, depth));
      }
    }
  }

  /** One round of the loop of parse_object, seen from the members parsed before it. */
  lemma MembersStep(c: LibC, content: string, i: nat, depth: nat, member: Parsed<Member>, members: seq<Member>)
    requires i < |content| && member == ParseMember(c, content, SkipWhitespace(content, i), depth)
    ensures match member
            case Failed => Prepend(members, ParseMembers(c, content, i, depth)) == Failed
            case Parsed(value, behind) =>
              var next := SkipWhitespace(content, behind);
              i < next &&
              Prepend(members, ParseMembers(c, content, i, depth)) ==
              if next < |content| && content[next] == ','
              then Prepend(members + [value], ParseMembers(c, content, next + 1, depth))
              else Ended(content, next, '}', members + [value])
  {
    hide ParseMember, SkipRun;
    if member.Parsed? {
      var next := SkipWhitespace(content, member.offset);
      if next < |content| && content[next] == ',' {
        PrependSnoc(members, member.value,
                    ParseMembers(c, content, next + 1, depth), ParseMembers(c, content, i, depth));
      }
    }
  }

  lemma NoMemberStop(c: LibC, content: string, i: nat, depth: nat)
    requires 0 < i && i >= |content|
    ensures MembersStop(c, content, i, depth) == Stop(i - 1, depth)
  {
  }

  lemma NoMember(c: LibC, content: string, i: nat, depth: nat, members: seq<Member>)
    requires i >= |content|
    ensures Prepend(members, ParseMembers(c, content, i, depth)) == Failed
  {
  }

  /** cJSON_ParseWithOpts: a tree of new nodes and where its text ends, or the position of the error. */
  method ParseText(c: LibC, text: string, requireNullTerminated: bool) returns (item: Node?, end: nat, ghost t: Tree)
    ensures match ParseDocument(c, text, requireNullTerminated)
            case Failed => item == null && end == ErrorPosition(c, text, requireNullTerminated)
            case Parsed(value, next) =>
              item != null && end == next && Stands(t, item, value) && fresh(item) && fresh(Inner(t))
  {
    hide ParseValue, ValueStop, SkipRun, At, Stands, Inner;
    var buffer := new ParseBuffer(text + [NUL]);
    item := new Node();
    if 4 < |buffer.content| {
      var marked := buffer.Accept(BYTE_ORDER_MARK);
    }
    buffer.SkipBlanks();
    ghost var parsed := ParseValue(c, buffer.content, buffer.offset, 0);
    var ok;
    ok, t := buffer.ParseValueAt(c, item);
    assert allocated(Inner(t)) && allocated(t.node);
    assert ok ==> Stands(t, item, parsed.value);
    if ok && requireNullTerminated {
      buffer.SkipBlanks();
      ok := buffer.offset < |buffer.content| && buffer.content[buffer.offset] == NUL;
    }
    end := buffer.offset;
    if !ok {
      item := null;
      if end >= |buffer.content| {
        end := |buffer.content| - 1;
      }
    }
  }
}
