/**
 cJSON_Minify in src/Libs/cJSON/cJSON.c: an in-place compaction, what it computes, and exactly for which
 trees it turns the formatted print into the unformatted one.
 */
module JsonMinify {
  import opened Sequences
  import opened JsonString
  import opened JsonText

  // ---- What is computed ----

  predicate Blank(c: char) {
    c == ' ' || c == '\t' || c == '\r' || c == '\n'
  }

  /** How many characters minify_string consumes behind the opening quote. */
  function Scan(s: string): (n: nat)
    ensures n <= |s|
  {
    if s == [] then 0
    else if s[0] == QUOTE then 1
    else if s[0] == BACKSLASH && |s| > 1 && s[1] == QUOTE then 2 + Scan(s[2..])
    else 1 + Scan(s[1..])
  }

  /** How many characters are left of a one-line comment, including its line end. */
  function LineComment(s: string): (n: nat)
    ensures n <= |s|
  {
    if s == [] then 0 else if s[0] == '\n' then 1 else 1 + LineComment(s[1..])
  }

  /** How many characters are left of a multi-line comment, including its end mark. */
  function BlockComment(s: string): (n: nat)
    ensures n <= |s|
  {
    if s == [] then 0
    else if s[0] == '*' && |s| > 1 && s[1] == '/' then 2
    else 1 + BlockComment(s[1..])
  }

  /** How many characters a slash starts that are dropped. */
  function Slash(s: string): (n: nat)
    requires s != [] && s[0] == '/'
    ensures 0 < n <= |s|
  {
    if |s| > 1 && s[1] == '/' then 2 + LineComment(s[2..])
    else if |s| > 1 && s[1] == '*' then 2 + BlockComment(s[2..])
    else 1
  }

  /** The text that is left: blanks, comments and stray slashes go, strings stay as they are. */
  function Minified(s: string): (m: string)
    ensures |m| <= |s|
    decreases |s|
  {
    if s == [] then []
    else if Blank(s[0]) then Minified(s[1..])
    else if s[0] == '/' then Minified(s[Slash(s)..])
    else if s[0] == QUOTE then
      var n := 1 + Scan(s[1..]);
      s[..n] + Minified(s[n..])
    else [s[0]] + Minified(s[1..])
  }

  // ---- The in-place algorithm ----

  /** `a` still holds the text from `json` on, and its terminating NUL. */
  ghost predicate Unread(a: array<char>, text: string, json: nat)
    reads a
  {
    json <= |text| < a.Length && a[json..|text|] == text[json..] && a[|text|] == NUL
  }

  lemma Peek(a: array<char>, text: string, json: nat)
    requires Unread(a, text, json) && NUL !in text
    ensures json <= |text| < a.Length && (a[json] == NUL <==> json == |text|)
    ensures json < |text| ==> a[json] == text[json] && text[json..] != [] && text[json..][0] == text[json]
    ensures json < |text| ==> text[json..][1..] == text[json + 1..] && Unread(a, text, json + 1)
    ensures json + 1 < |text| ==> a[json + 1] == text[json + 1] == text[json..][1]
    ensures json + 1 < |text| ==> text[json..][2..] == text[json + 2..] && Unread(a, text, json + 2)
    ensures json < |text| && a[json + 1] != '\0' ==> json + 1 < |text|
  {
    if json < |text| {
      assert a[json..|text|][0] == text[json..][0];
      assert text[json..][0] in text;
      assert a[json + 1..|text|] == a[json..|text|][1..];
    }
    if json + 1 < |text| {
      assert a[json..|text|][1] == text[json..][1];
      assert a[json + 2..|text|] == a[json..|text|][2..];
    }
  }

  method SkipOnelineComment(a: array<char>, ghost text: string, json: nat) returns (next: nat)
    requires Unread(a, text, json) && NUL !in text
    ensures next == json + LineComment(text[json..]) && Unread(a, text, next)
  {
    next := json;
    Peek(a, text, next);
    while a[next] != NUL
      invariant json <= next && Unread(a, text, next)
      invariant next + LineComment(text[next..]) == json + LineComment(text[json..])
      invariant a[next] == NUL <==> next == |text|
      decreases |text| - next
    {
      Peek(a, text, next);
      if a[next] == '\n' {
        return next + 1;
      }
      next := next + 1;
      Peek(a, text, next);
    }
  }

  method SkipMultilineComment(a: array<char>, ghost text: string, json: nat) returns (next: nat)
    requires Unread(a, text, json) && NUL !in text
    ensures next == json + BlockComment(text[json..]) && Unread(a, text, next)
  {
    next := json;
    Peek(a, text, next);
    while a[next] != NUL
      invariant json <= next && Unread(a, text, next)
      invariant next + BlockComment(text[next..]) == json + BlockComment(text[json..])
      invariant a[next] == NUL <==> next == |text|
      decreases |text| - next
    {
      Peek(a, text, next);
      if a[next] == '*' && a[next + 1] == '/' {
        return next + 2;
      }
      next := next + 1;
      Peek(a, text, next);
    }
  }

  /** Copies the next unread character behind what was written; the write cursor is not ahead. */
  method Copy(a: array<char>, ghost text: string, json: nat, into: nat)
    requires Unread(a, text, json) && into <= json < |text|
    modifies a
    ensures Unread(a, text, json + 1) && a[json] == text[json]
    ensures a[..into + 1] == old(a[..into]) + [text[json]]
    ensures a[|text|..] == old(a[|text|..])
  {
    assert a[json] == a[json..|text|][0] == text[json];
    assert a[json + 1..|text|] == a[json..|text|][1..];
    a[into] := a[json];
  }

  lemma {:induction false} ScanStep(text: string, i: nat)
    requires i < |text|
    ensures Scan(text[i..]) ==
            if text[i] == QUOTE then 1
            else if text[i] == BACKSLASH && i + 1 < |text| && text[i + 1] == QUOTE then 2 + Scan(text[i + 2..])
            else 1 + Scan(text[i + 1..])
  {
    var s := text[i..];
    assert s[0] == text[i] && s[1..] == text[i + 1..];
    if i + 1 < |text| {
      assert s[1] == text[i + 1] && s[2..] == text[i + 2..];
    }
  }

  /** One round of minify_string: a character, or a backslash and the quote it escapes. */
  method MinifyStringChar(a: array<char>, ghost text: string, json: nat, into: nat)
    returns (next: nat, out: nat, closed: bool)
    requires Unread(a, text, json) && NUL !in text && into <= json < |text|
    modifies a
    ensures json < next && Unread(a, text, next)
    ensures out == into + (next - json) && a[..out] == old(a[..into]) + text[json..next]
    ensures a[|text|..] == old(a[|text|..])
    ensures closed <==> text[json] == QUOTE
    ensures next - json + (if closed then 0 else Scan(text[next..])) == Scan(text[json..])
  {
    Peek(a, text, json);
    ScanStep(text, json);
    hide *;
    ghost var before := a[..into];
    Copy(a, text, json, into);
    Peek(a, text, json + 1);
    next, out, closed := json + 1, into + 1, a[json] == QUOTE;
    Extend(before, text, json, json, next);
    if a[json] == BACKSLASH && a[next] == QUOTE {
      Copy(a, text, next, out);
      Extend(before, text, json, next, next + 1);
      next, out := next + 1, out + 1;
    }
  }

  /** minify_string: copies a string, stepping over escaped quotes. */
  method MinifyString(a: array<char>, ghost text: string, json: nat, into: nat) returns (next: nat, out: nat)
    requires Unread(a, text, json) && NUL !in text && into <= json < |text|
    modifies a
    ensures next == json + 1 + Scan(text[json + 1..]) && Unread(a, text, next)
    ensures out == into + (next - json) && a[..out] == old(a[..into]) + text[json..next]
    ensures a[|text|..] == old(a[|text|..])
  {
    hide *;
    Peek(a, text, json);
    ghost var done := a[..into];
    Copy(a, text, json, into);
    next, out := json + 1, into + 1;
    Peek(a, text, next);
    Extend(done, text, json, json, next);
    done := a[..out];
    var closed := false;
    while !closed && a[next] != NUL
      invariant json < next <= |text| && out == into + (next - json)
      invariant Unread(a, text, next) && (a[next] == NUL <==> next == |text|)
      invariant next + (if closed then 0 else Scan(text[next..])) == json + 1 + Scan(text[json + 1..])
      invariant a[..out] == done && done == old(a[..into]) + text[json..next]
      invariant a[|text|..] == old(a[|text|..])
      decreases |text| - next
    {
      ghost var start := next;
      next, out, closed := MinifyStringChar(a, text, next, out);
      Peek(a, text, next);
      Extend(old(a[..into]), text, json, start, next);
      done := a[..out];
    }
    ScanNothing(text);
  }

  lemma Extend(done: string, text: string, i: nat, j: nat, k: nat)
    requires i <= j <= k <= |text|
    ensures (done + text[i..j]) + text[j..k] == done + text[i..k]
    ensures i == j ==> done + text[i..j] == done
    ensures k == j + 1 ==> text[j..k] == [text[j]]
  {
  }

  lemma ScanNothing(text: string)
    ensures Scan(text[|text|..]) == 0
  {
  }

  /** How many characters are dropped at a slash at position `i`. */
  function SlashAt(text: string, i: nat): nat
    requires i < |text|
  {
    if i + 1 < |text| && text[i + 1] == '/' then 2 + LineComment(text[i + 2..])
    else if i + 1 < |text| && text[i + 1] == '*' then 2 + BlockComment(text[i + 2..])
    else 1
  }

  lemma SlashStep(text: string, i: nat)
    requires i < |text| && text[i] == '/'
    ensures i + SlashAt(text, i) <= |text| && Minified(text[i..]) == Minified(text[i + SlashAt(text, i)..])
  {
    hide LineComment, BlockComment;
    var s := text[i..];
    assert s[0] == text[i] && (i + 1 < |text| ==> s[1] == text[i + 1] && s[2..] == text[i + 2..]);
    assert Slash(s) == SlashAt(text, i);
    assert s[Slash(s)..] == text[i + Slash(s)..];
  }

  lemma StringStep(text: string, i: nat)
    requires i < |text| && text[i] == QUOTE
    ensures var end := i + 1 + Scan(text[i + 1..]);
            Minified(text[i..]) == text[i..end] + Minified(text[end..])
  {
    hide Scan;
    var s := text[i..];
    assert s[0] == text[i] && s[1..] == text[i + 1..];
    var n := 1 + Scan(s[1..]);
    assert s[..n] == text[i..i + n] && s[n..] == text[i + n..];
  }

  lemma CharStep(text: string, i: nat)
    requires i < |text| && text[i] != '/' && text[i] != QUOTE
    ensures Minified(text[i..]) ==
            if Blank(text[i]) then Minified(text[i + 1..]) else [text[i]] + Minified(text[i + 1..])
  {
    hide Scan, Slash;
    var s := text[i..];
    assert s[0] == text[i] && s[1..] == text[i + 1..];
  }

  /** A comment or a stray slash. */
  method DropSlash(a: array<char>, ghost text: string, json: nat) returns (next: nat)
    requires Unread(a, text, json) && NUL !in text && json < |text| && text[json] == '/'
    ensures next == json + SlashAt(text, json) && Unread(a, text, next)
  {
    Peek(a, text, json);
    hide Unread, LineComment, BlockComment;
    if a[json + 1] == '/' {
      next := SkipOnelineComment(a, text, json + 2);
    } else if a[json + 1] == '*' {
      next := SkipMultilineComment(a, text, json + 2);
    } else {
      next := json + 1;
    }
  }

  lemma PeekOne(a: array<char>, text: string, json: nat)
    requires Unread(a, text, json) && NUL !in text && json < |text|
    ensures json < |text| < a.Length && a[json] == text[json] && Unread(a, text, json + 1)
  {
    Peek(a, text, json);
    hide *;
  }

  /** The rounds of cJSON_Minify that write nothing: blanks, comments and stray slashes. */
  method Drop(a: array<char>, ghost text: string, json: nat) returns (next: nat)
    requires Unread(a, text, json) && NUL !in text && json < |text|
    requires Blank(text[json]) || text[json] == '/'
    ensures json < next <= |text| && Unread(a, text, next)
    ensures Minified(text[json..]) == Minified(text[next..])
  {
    hide *;
    PeekOne(a, text, json);
    if a[json] == '/' {
      SlashIsPositive(text, json);
      SlashStep(text, json);
      next := DropSlash(a, text, json);
    } else {
      BlankStep(text, json);
      next := json + 1;
    }
  }

  lemma SlashIsPositive(text: string, i: nat)
    requires i < |text|
    ensures SlashAt(text, i) > 0
  {
  }

  lemma BlankStep(text: string, i: nat)
    requires i < |text| && Blank(text[i])
    ensures Minified(text[i..]) == Minified(text[i + 1..])
  {
    CharStep(text, i);
  }

  /** One round of cJSON_Minify: a blank, a comment, a string or a character. */
  method MinifyOnce(a: array<char>, ghost text: string, json: nat, into: nat)
    returns (next: nat, out: nat, ghost piece: string)
    requires Unread(a, text, json) && NUL !in text && into <= json < |text|
    modifies a
    ensures json < next && Unread(a, text, next) && into <= out <= next
    ensures out == into + |piece| && a[..out] == old(a[..into]) + piece
    ensures Minified(text[json..]) == piece + Minified(text[next..])
    ensures a[|text|..] == old(a[|text|..])
  {
    hide *;
    Peek(a, text, json);
    var c := a[json];
    if Blank(c) || c == '/' {
      next := Drop(a, text, json);
      out, piece := into, [];
      assert piece + Minified(text[next..]) == Minified(text[next..]);
      return;
    }
    if c == QUOTE {
      StringStep(text, json);
      next, out := MinifyString(a, text, json, into);
      piece := text[json..next];
    } else {
      CharStep(text, json);
      Copy(a, text, json, into);
      next, out, piece := json + 1, into + 1, [text[json]];
    }
  }

  /**
   cJSON_Minify: replaces the C string in `a` by its minified form, in place. The write cursor never
   passes the read cursor, and nothing behind the old terminator is touched.
   */
  method Minify(a: array<char>, ghost text: string)
    requires NUL !in text && Unread(a, text, 0)
    modifies a
    ensures CString(a[..]) == Minified(text)
    ensures a[|text| + 1..] == old(a[|text| + 1..])
  {
    var json, into := 0, 0;
    ghost var done := [];
    assert text[0..] == text && a[..0] == [] && [] + Minified(text) == Minified(text);
    hide Minified;
    Peek(a, text, 0);
    while a[json] != NUL
      invariant into <= json && Unread(a, text, json) && (a[json] == NUL <==> json == |text|)
      invariant a[..into] == done && Minified(text) == done + Minified(text[json..])
      invariant a[|text|..] == old(a[|text|..])
      decreases |text| - json
    {
      ghost var piece;
      ghost var start := json;
      json, into, piece := MinifyOnce(a, text, json, into);
      MoreDone(done, piece, Minified(text[start..]), Minified(text[json..]));
      done := done + piece;
      Peek(a, text, json);
    }
    NothingLeft(text);
    assert done == Minified(text);
    assert a[..][|text|..] == old(a[..])[|text|..];
    TailBehind(a[..], old(a[..]), |text|);
    MinifiedHasNoNul(text);
    Terminate(a, into, |text|, done);
  }

  /** The terminator behind what was written; nothing else changes. */
  method Terminate(a: array<char>, into: nat, ghost end: nat, ghost done: string)
    requires into <= end < a.Length && a[..into] == done && NUL !in done
    modifies a
    ensures CString(a[..]) == done && a[end + 1..] == old(a[end + 1..])
  {
    a[into] := NUL;
    assert a[..into] == done && a[..][..|done|] == done;
    CStringOf(a[..], done);
  }

  lemma TailBehind(s: string, t: string, n: nat)
    requires n < |s| && n < |t| && s[n..] == t[n..]
    ensures s[n + 1..] == t[n + 1..]
  {
    assert s[n + 1..] == s[n..][1..] && t[n + 1..] == t[n..][1..];
  }

  lemma MoreDone(done: string, piece: string, before: string, after: string)
    requires before == piece + after
    ensures done + before == (done + piece) + after
  {
  }

  lemma NothingLeft(text: string)
    ensures Minified(text[|text|..]) == []
  {
  }

  lemma {:induction false} MinifiedHasNoNul(text: string)
    requires NUL !in text
    ensures NUL !in Minified(text)
    decreases |text|
  {
    if text != [] {
      if Blank(text[0]) {
        MinifiedHasNoNul(text[1..]);
      } else if text[0] == '/' {
        MinifiedHasNoNul(text[Slash(text)..]);
      } else if text[0] == QUOTE {
        MinifiedHasNoNul(text[1 + Scan(text[1..])..]);
      } else {
        MinifiedHasNoNul(text[1..]);
      }
    }
  }

  // ---- What minifying keeps and drops ----

  /** What a text is made of: signs, strings, blanks and comments; the open ones are cut off by its end. */
  datatype Lexeme =
    | Space(c: char)
    | Sign(c: char)
    | Stray
    | Line(body: string)
    | Block(body: string)
    | Quoted(body: string)
    | OpenLine(body: string)
    | OpenBlock(body: string)
    | OpenQuoted(body: string)

  function Spelling(l: Lexeme): (s: string) {
    match l
    case Space(c) => [c]
    case Sign(c) => [c]
    case Stray => "/"
    case Line(body) => "//" + body + "\n"
    case Block(body) => "/*" + body + "*/"
    case Quoted(body) => "\"" + body + "\""
    case OpenLine(body) => "//" + body
    case OpenBlock(body) => "/*" + body
    case OpenQuoted(body) => "\"" + body
  }

  function Spell(ls: seq<Lexeme>): string {
    if ls == [] then [] else Spelling(ls[0]) + Spell(ls[1..])
  }

  predicate NoEndMark(s: string) {
    forall i :: 0 <= i < |s| - 1 ==> !(s[i] == '*' && s[i + 1] == '/')
  }

  /** Every quote comes right after a backslash. */
  predicate QuotesEscaped(s: string) {
    forall i :: 0 <= i < |s| && s[i] == '\"' ==> i > 0 && s[i - 1] == '\\'
  }

  /** The lexeme is one, in front of `rest`: only the end of the text cuts one off. */
  predicate IsLexeme(l: Lexeme, rest: string) {
    match l
    case Space(c) => c in " \t\r\n"
    case Sign(c) => c !in " \t\r\n/\""
    case Stray => rest == [] || (rest[0] != '/' && rest[0] != '*')
    case Line(body) => '\n' !in body
    case Block(body) => NoEndMark(body)
    case Quoted(body) => QuotesEscaped(body) && (body == [] || body[|body| - 1] != '\\')
    case OpenLine(body) => '\n' !in body && rest == []
    case OpenBlock(body) => NoEndMark(body) && rest == []
    case OpenQuoted(body) => QuotesEscaped(body) && rest == []
  }

  predicate AreLexemes(ls: seq<Lexeme>) {
    ls == [] || (IsLexeme(ls[0], Spell(ls[1..])) && AreLexemes(ls[1..]))
  }

  /** Signs and strings stay as they are; blanks, comments and stray slashes go. */
  function Kept(ls: seq<Lexeme>): string {
    if ls == [] then []
    else (if ls[0].Sign? || ls[0].Quoted? || ls[0].OpenQuoted? then Spelling(ls[0]) else []) + Kept(ls[1..])
  }

  /** A line comment ends right behind the first line feed. */
  lemma {:induction false} LineCommentEnds(body: string, rest: string)
    requires '\n' !in body
    ensures LineComment(body + "\n" + rest) == |body| + 1 && LineComment(body) == |body|
  {
    if body != [] {
      assert (body + "\n" + rest)[1..] == body[1..] + "\n" + rest;
      LineCommentEnds(body[1..], rest);
    } else {
      assert (body + "\n" + rest)[0] == '\n';
    }
  }

  /** A block comment ends right behind its first end mark. */
  lemma {:induction false} BlockCommentEnds(body: string, rest: string)
    requires NoEndMark(body)
    ensures BlockComment(body + "*/" + rest) == |body| + 2 && BlockComment(body) == |body|
  {
    var s := body + "*/" + rest;
    if body != [] {
      assert s[1..] == body[1..] + "*/" + rest;
      assert s[0] == body[0] && s[1] == if |body| > 1 then body[1] else '*';
      BlockCommentEnds(body[1..], rest);
    } else {
      assert s[0] == '*' && s[1] == '/';
    }
  }

  /** A string ends right behind the first quote that does not come after a backslash. */
  lemma {:induction false} StringEnds(body: string, rest: string)
    requires QuotesEscaped(body)
    ensures body == [] || body[|body| - 1] != '\\' ==> Scan(body + "\"" + rest) == |body| + 1
    ensures Scan(body) == |body|
    decreases |body|
  {
    var s := body + "\"" + rest;
    if body != [] {
      var n := if body[0] == '\\' && |body| > 1 && body[1] == '\"' then 2 else 1;
      assert body[0] != '\"';
      assert s[0] == body[0] && s[1] == (if |body| > 1 then body[1] else '\"') && s[n..] == body[n..] + "\"" + rest;
      if n == 1 {
        TailQuotesEscaped(body);
      } else {
        TailTailQuotesEscaped(body);
      }
      StringEnds(body[n..], rest);
    } else {
      assert s[0] == '\"';
    }
  }

  lemma TailQuotesEscaped(body: string)
    requires body != [] && QuotesEscaped(body) && !(body[0] == '\\' && |body| > 1 && body[1] == '\"')
    ensures QuotesEscaped(body[1..])
  {
  }

  lemma TailTailQuotesEscaped(body: string)
    requires |body| > 1 && QuotesEscaped(body) && body[1] == '\"'
    ensures QuotesEscaped(body[2..])
  {
  }

  lemma MinifiedQuotes(body: string, closing: string, rest: string)
    requires QuotesEscaped(body)
    requires (closing == "\"" && (body == [] || body[|body| - 1] != '\\')) || (closing == [] && rest == [])
    ensures Minified("\"" + body + closing + rest) == ("\"" + body + closing) + Minified(rest)
  {
    var s := "\"" + body + closing + rest;
    StringEnds(body, rest);
    assert s[1..] == body + closing + rest && (closing == [] ==> s[1..] == body);
    var n := 1 + Scan(s[1..]);
    assert s[..n] == "\"" + body + closing && s[n..] == rest;
    hide Scan, QuotesEscaped;
  }

  lemma MinifiedLine(body: string, ending: string, rest: string)
    requires '\n' !in body && (ending == "\n" || (ending == [] && rest == []))
    ensures Minified("//" + body + ending + rest) == Minified(rest)
  {
    var s := "//" + body + ending + rest;
    LineCommentEnds(body, rest);
    assert s[0] == '/' && s[1] == '/' && s[2..] == body + ending + rest && (ending == [] ==> s[2..] == body);
    assert s[Slash(s)..] == rest;
    hide LineComment;
  }

  lemma MinifiedBlock(body: string, ending: string, rest: string)
    requires NoEndMark(body) && (ending == "*/" || (ending == [] && rest == []))
    ensures Minified("/*" + body + ending + rest) == Minified(rest)
  {
    var s := "/*" + body + ending + rest;
    BlockCommentEnds(body, rest);
    assert s[0] == '/' && s[1] == '*' && s[2..] == body + ending + rest && (ending == [] ==> s[2..] == body);
    assert s[Slash(s)..] == rest;
    hide BlockComment, NoEndMark;
  }

  lemma MinifiedChar(c: char, rest: string)
    requires c != '\"' && (c == '/' ==> rest == [] || (rest[0] != '/' && rest[0] != '*'))
    ensures Minified([c] + rest) == (if c in " \t\r\n/" then [] else [c]) + Minified(rest)
  {
    var s := [c] + rest;
    assert s[0] == c && s[1..] == rest && [] + Minified(rest) == Minified(rest);
    if c == '/' {
      assert Slash(s) == 1;
    }
    hide Scan;
  }

  lemma MinifiedLexeme(l: Lexeme, rest: string)
    requires IsLexeme(l, rest)
    ensures Minified(Spelling(l) + rest) ==
            (if l.Sign? || l.Quoted? || l.OpenQuoted? then Spelling(l) else []) + Minified(rest)
  {
    hide Minified, QuotesEscaped, NoEndMark;
    assert [] + Minified(rest) == Minified(rest);
    match l
    case Space(c) => MinifiedChar(c, rest);
    case Sign(c) => MinifiedChar(c, rest);
    case Stray => MinifiedChar('/', rest);
    case Line(body) => MinifiedLine(body, "\n", rest);
    case Block(body) => MinifiedBlock(body, "*/", rest);
    case Quoted(body) => MinifiedQuotes(body, "\"", rest);
    case OpenLine(body) =>
      MinifiedLine(body, [], rest);
      assert "//" + body + [] + rest == "//" + body + rest;
    case OpenBlock(body) =>
      MinifiedBlock(body, [], rest);
      assert "/*" + body + [] + rest == "/*" + body + rest;
    case OpenQuoted(body) =>
      MinifiedQuotes(body, [], rest);
      assert "\"" + body + [] + rest == "\"" + body + rest && "\"" + body + [] == "\"" + body;
  }

  /** Minifying keeps exactly the signs and the strings of a text, in order, whatever it is made of. */
  lemma {:induction false} MinifyKeepsSignsAndStrings(ls: seq<Lexeme>)
    requires AreLexemes(ls)
    ensures Minified(Spell(ls)) == Kept(ls)
  {
    if ls != [] {
      MinifiedLexeme(ls[0], Spell(ls[1..]));
      MinifyKeepsSignsAndStrings(ls[1..]);
      hide Minified, IsLexeme, Spelling;
    }
  }

  // Every text is made of lexemes

  lemma {:induction false} LineCommentSplits(s: string)
    ensures var n := LineComment(s);
            || ('\n' !in s && n == |s|)
            || (0 < n <= |s| && '\n' !in s[..n - 1] && s == s[..n - 1] + "\n" + s[n..])
  {
    if s != [] && s[0] != '\n' {
      LineCommentSplits(s[1..]);
      var n := LineComment(s[1..]);
      if '\n' in s[1..] {
        assert s[..n] == [s[0]] + s[1..][..n - 1] && s[n + 1..] == s[1..][n..];
      }
    }
  }

  /** A comment of `n` characters: up to its first end mark, or all of it. */
  predicate IsBlock(s: string, n: nat) {
    || (NoEndMark(s) && n == |s|)
    || (2 <= n <= |s| && NoEndMark(s[..n - 2]) && s == s[..n - 2] + "*/" + s[n..])
  }

  lemma {:induction false} BlockCommentSplits(s: string)
    ensures IsBlock(s, BlockComment(s))
  {
    if s != [] && !(s[0] == '*' && |s| > 1 && s[1] == '/') {
      BlockCommentSplits(s[1..]);
      BlockGrows(s, BlockComment(s[1..]));
    } else if s != [] {
      assert s == s[..0] + "*/" + s[2..];
    }
  }

  lemma BlockGrows(s: string, n: nat)
    requires s != [] && !(s[0] == '*' && |s| > 1 && s[1] == '/') && IsBlock(s[1..], n)
    ensures IsBlock(s, n + 1)
  {
    var rest := s[1..];
    assert s == [s[0]] + rest;
    if NoEndMark(rest) && n == |rest| {
      PutBeforeBlock(s[0], rest);
    } else {
      var front := rest[..n - 2];
      assert s[..n - 1] == [s[0]] + front && s[n + 1..] == rest[n..];
      assert front != [] ==> front[0] == s[1];
      PutBeforeBlock(s[0], front);
      hide NoEndMark;
      assert s == s[..n - 1] + "*/" + s[n + 1..];
    }
  }

  lemma PutBeforeBlock(c: char, rest: string)
    requires NoEndMark(rest) && !(c == '*' && rest != [] && rest[0] == '/')
    ensures NoEndMark([c] + rest)
  {
    var all := [c] + rest;
    forall i | 0 <= i < |all| - 1
      ensures !(all[i] == '*' && all[i + 1] == '/')
    {
      assert i > 0 ==> all[i] == rest[i - 1];
      assert all[i + 1] == rest[i];
    }
  }

  /** The `n` characters of a string behind its opening quote: up to its closing quote, or all of it. */
  predicate IsString(s: string, n: nat) {
    || (QuotesEscaped(s) && n == |s|)
    || (0 < n <= |s| && QuotesEscaped(s[..n - 1]) && s == s[..n - 1] + "\"" + s[n..] && (n == 1 || s[n - 2] != '\\'))
  }

  lemma {:induction false} StringSplits(s: string)
    ensures IsString(s, Scan(s))
    decreases |s|
  {
    if s != [] && s[0] != '\"' {
      var skip := if s[0] == '\\' && |s| > 1 && s[1] == '\"' then 2 else 1;
      StringSplits(s[skip..]);
      StringGrows(s, skip, Scan(s[skip..]));
      hide IsString;
    } else if s != [] {
      assert s == s[..0] + "\"" + s[1..];
    }
  }

  lemma StringGrows(s: string, skip: nat, n: nat)
    requires 1 <= skip <= 2 && skip <= |s| && s[0] != '\"' && IsString(s[skip..], n)
    requires if skip == 2 then s[0] == '\\' && s[1] == '\"' else !(s[0] == '\\' && |s| > 1 && s[1] == '\"')
    ensures IsString(s, skip + n)
  {
    var rest := s[skip..];
    assert s == s[..skip] + rest;
    if QuotesEscaped(rest) && n == |rest| {
      PutBefore(s, skip, rest);
    } else {
      ClosedStringGrows(s, skip, n);
    }
    hide QuotesEscaped;
  }

  lemma ClosedStringGrows(s: string, skip: nat, n: nat)
    requires 1 <= skip <= 2 && skip <= |s| && s[0] != '\"' && 0 < n <= |s| - skip
    requires if skip == 2 then s[0] == '\\' && s[1] == '\"' else !(s[0] == '\\' && |s| > 1 && s[1] == '\"')
    requires var rest := s[skip..];
             && QuotesEscaped(rest[..n - 1]) && rest == rest[..n - 1] + "\"" + rest[n..]
             && (n == 1 || rest[n - 2] != '\\')
    ensures IsString(s, skip + n)
  {
    var rest := s[skip..];
    var front := rest[..n - 1];
    PutBefore(s, skip, front);
    assert rest[n - 1] == '\"';
    hide QuotesEscaped;
    assert s[..skip + n - 1] == s[..skip] + front && s[skip + n - 1] == '\"';
    assert n > 1 ==> s[skip + n - 2] == rest[n - 2];
    assert s == s[..skip + n - 1] + "\"" + s[skip + n..];
  }

  lemma PutBefore(s: string, skip: nat, rest: string)
    requires 1 <= skip <= 2 && skip <= |s| && s[0] != '\"' && QuotesEscaped(rest)
    requires skip == 2 ==> s[0] == '\\' && s[1] == '\"'
    ensures QuotesEscaped(s[..skip] + rest)
  {
    var all := s[..skip] + rest;
    forall i | 0 <= i < |all| && all[i] == '\"'
      ensures i > 0 && all[i - 1] == '\\'
    {
      if i >= skip {
        assert all[i] == rest[i - skip];
      }
    }
  }

  /** The first lexeme of a text, and what is left of it. */
  lemma FirstLexeme(text: string) returns (l: Lexeme, rest: string)
    requires text != []
    ensures IsLexeme(l, rest) && text == Spelling(l) + rest && |rest| < |text|
  {
    var c := text[0];
    rest := text[1..];
    assert text == [c] + rest;
    hide Scan, LineComment, BlockComment, QuotesEscaped, NoEndMark, IsString, IsBlock;
    if c in " \t\r\n" {
      l := Space(c);
    } else if c == '\"' {
      l, rest := QuotedLexeme(rest);
    } else if c != '/' {
      l := Sign(c);
    } else if rest != [] && (rest[0] == '/' || rest[0] == '*') {
      assert text == ['/', rest[0]] + rest[1..];
      l, rest := CommentLexeme(rest[0], rest[1..]);
    } else {
      l := Stray;
    }
  }

  lemma QuotedLexeme(s: string) returns (l: Lexeme, rest: string)
    ensures IsLexeme(l, rest) && "\"" + s == Spelling(l) + rest && |rest| <= |s|
  {
    StringSplits(s);
    var n := Scan(s);
    hide Scan, QuotesEscaped;
    if QuotesEscaped(s) && n == |s| {
      l, rest := OpenQuoted(s), [];
    } else {
      l, rest := Quoted(s[..n - 1]), s[n..];
      assert "\"" + s == "\"" + s[..n - 1] + "\"" + s[n..];
    }
  }

  lemma LineLexeme(s: string) returns (l: Lexeme, rest: string)
    ensures IsLexeme(l, rest) && "//" + s == Spelling(l) + rest && |rest| <= |s|
  {
    LineCommentSplits(s);
    var n := LineComment(s);
    hide LineComment, BlockComment, NoEndMark;
    if '\n' !in s {
      l, rest := OpenLine(s), [];
    } else {
      l, rest := Line(s[..n - 1]), s[n..];
      assert "//" + s == "//" + s[..n - 1] + "\n" + s[n..];
    }
  }

  lemma BlockLexeme(s: string) returns (l: Lexeme, rest: string)
    ensures IsLexeme(l, rest) && "/*" + s == Spelling(l) + rest && |rest| <= |s|
  {
    BlockCommentSplits(s);
    var k := BlockComment(s);
    hide LineComment, BlockComment, NoEndMark;
    if NoEndMark(s) && k == |s| {
      l, rest := OpenBlock(s), [];
    } else {
      l, rest := Block(s[..k - 2]), s[k..];
      assert "/*" + s == "/*" + s[..k - 2] + "*/" + s[k..];
    }
  }

  lemma CommentLexeme(kind: char, s: string) returns (l: Lexeme, rest: string)
    requires kind == '/' || kind == '*'
    ensures IsLexeme(l, rest) && ['/', kind] + s == Spelling(l) + rest && |rest| <= |s|
  {
    hide *;
    if kind == '/' {
      l, rest := LineLexeme(s);
    } else {
      l, rest := BlockLexeme(s);
    }
  }

  /** So that what minifying keeps of any text is said by MinifyKeepsSignsAndStrings. */
  lemma {:induction false} EveryTextIsSpelled(text: string) returns (ls: seq<Lexeme>)
    ensures AreLexemes(ls) && Spell(ls) == text
    decreases |text|
  {
    if text == [] {
      ls := [];
    } else {
      var l, rest := FirstLexeme(text);
      var more := EveryTextIsSpelled(rest);
      ls := [l] + more;
      assert ls[1..] == more;
      hide IsLexeme, Spelling;
    }
  }

  // ---- Minifying a formatted print ----

  /** What the %g formats print holds no blank, slash or quote and is not empty. */
  ghost predicate PrintsCompactly(c: LibC) {
    forall d :: c.printReal(d) != [] && Compact(c.printReal(d))
  }

  /** Characters outside strings that minifying keeps. */
  predicate Compact(s: string) {
    forall i :: 0 <= i < |s| ==> !Blank(s[i]) && s[i] != '/' && s[i] != QUOTE
  }

  predicate Layout(s: string) {
    forall i :: 0 <= i < |s| ==> Blank(s[i])
  }

  predicate EndsInBackslash(s: string) {
    s != [] && s[|s| - 1] == BACKSLASH
  }

  /**
   No key ends in a backslash, and no string does unless nothing but closing brackets follows it:
   `last` says that only closing brackets follow the tree.
   */
  predicate Minifiable(t: Json, last: bool) {
    match t
    case JString(s) => last || !EndsInBackslash(s)
    case JArray(items) => MinifiableItems(items, last)
    case JObject(members) => MinifiableMembers(members)
    case _ => true
  }

  predicate MinifiableItems(items: seq<Json>, last: bool) {
    items == [] || (Minifiable(items[0], last && |items| == 1) && MinifiableItems(items[1..], last))
  }

  predicate MinifiableMembers(members: seq<Member>) {
    members == [] ||
    (!EndsInBackslash(members[0].key) && Minifiable(members[0].value, false) && MinifiableMembers(members[1..]))
  }

  lemma {:induction false} KeepCompact(s: string, rest: string)
    requires Compact(s)
    ensures Minified(s + rest) == s + Minified(rest)
  {
    if s == [] {
      assert s + rest == rest;
    } else {
      assert (s + rest)[1..] == s[1..] + rest;
      KeepCompact(s[1..], rest);
    }
  }

  lemma {:induction false} DropLayout(s: string, rest: string)
    requires Layout(s)
    ensures Minified(s + rest) == Minified(rest)
  {
    if s == [] {
      assert s + rest == rest;
    } else {
      assert (s + rest)[1..] == s[1..] + rest;
      DropLayout(s[1..], rest);
    }
  }

  lemma {:induction false} ScanPlain(s: string, tail: string)
    requires forall i :: 0 <= i < |s| ==> s[i] != QUOTE && s[i] != BACKSLASH
    ensures Scan(s + tail) == |s| + Scan(tail)
  {
    if s == [] {
      assert s + tail == tail;
    } else {
      assert (s + tail)[1..] == s[1..] + tail;
      ScanPlain(s[1..], tail);
    }
  }

  /** Scanning a backslash and another character that is no backslash. */
  lemma ScanPair(c: char, tail: string)
    requires c != BACKSLASH
    ensures Scan([BACKSLASH, c] + tail) == 2 + Scan(tail)
  {
    var s := [BACKSLASH, c] + tail;
    assert s[2..] == tail && s[1..] == [c] + tail;
    if c != QUOTE {
      assert ([c] + tail)[1..] == tail;
    }
  }

  lemma ScanBackslashes(tail: string)
    requires tail != []
    ensures Scan([BACKSLASH, BACKSLASH] + tail) == if tail[0] == QUOTE then 3 + Scan(tail[1..]) else 2 + Scan(tail)
  {
    var s := [BACKSLASH, BACKSLASH] + tail;
    assert s[1..] == [BACKSLASH] + tail;
    assert ([BACKSLASH] + tail)[1..] == tail && ([BACKSLASH] + tail)[2..] == tail[1..];
  }

  /** Scanning one escape sequence: only an escaped backslash in front of a quote is misread. */
  lemma ScanChar(c: char, tail: string)
    requires tail != []
    ensures Scan(EscapeChar(c) + tail) ==
            if c == BACKSLASH && tail[0] == QUOTE then 3 + Scan(tail[1..])
            else |EscapeChar(c)| + Scan(tail)
  {
    var e := EscapeChar(c);
    hide Scan;
    if |e| == 1 {
      ScanPlain(e, tail);
    } else if c == BACKSLASH {
      ScanBackslashes(tail);
    } else if |e| == 2 {
      ScanPair(e[1], tail);
    } else {
      assert e == [BACKSLASH, e[1]] + e[2..];
      assert e + tail == [BACKSLASH, e[1]] + (e[2..] + tail);
      ScanPair(e[1], e[2..] + tail);
      ScanPlain(e[2..], tail);
    }
  }

  lemma EscapeStart(s: string)
    ensures s != [] ==> Escape(s) != [] && Escape(s)[0] != QUOTE
  {
  }

  lemma ScanQuote(rest: string)
    ensures Scan([QUOTE] + rest) == 1 && !EndsInBackslash([])
  {
  }

  /** What stands behind the first escape sequence of a printed string. */
  lemma EscapeTail(s: string, rest: string)
    requires s != []
    ensures var tail := Escape(s[1..]) + ([QUOTE] + rest);
            && tail != [] && (tail[0] == QUOTE <==> s[1..] == []) && (s[1..] == [] ==> tail[1..] == rest)
    ensures s[1..] == [] ==> (EndsInBackslash(s) <==> s[0] == BACKSLASH) && Escape(s[1..]) == []
    ensures s[1..] != [] ==> (EndsInBackslash(s) <==> EndsInBackslash(s[1..]))
    ensures |EscapeChar(BACKSLASH)| == 2 && !EndsInBackslash([])
  {
    EscapeStart(s[1..]);
    hide EscapeChar;
    BackslashIsTwo();
  }

  lemma BackslashIsTwo()
    ensures |EscapeChar(BACKSLASH)| == 2
  {
  }

  /** minify_string finds the end of a printed string, unless the string ends in a backslash. */
  lemma {:induction false} ScanPrinted(s: string, rest: string)
    ensures Scan(Escape(s) + ([QUOTE] + rest)) ==
            |Escape(s)| + 1 + if EndsInBackslash(s) then Scan(rest) else 0
  {
    EscapeStep(s);
    hide *;
    if s == [] {
      NothingAdded([QUOTE] + rest);
      ScanQuote(rest);
    } else {
      var tail := Escape(s[1..]) + ([QUOTE] + rest);
      EscapeTail(s, rest);
      Assoc(EscapeChar(s[0]), Escape(s[1..]), [QUOTE] + rest);
      ScanChar(s[0], tail);
      ScanPrinted(s[1..], rest);
    }
  }

  /** Minifying a text that starts with a string of `n` characters behind the opening quote. */
  lemma MinifiedString(text: string, n: nat)
    requires text != [] && text[0] == QUOTE && Scan(text[1..]) == n
    ensures Minified(text) == text[..1 + n] + Minified(text[1 + n..])
  {
    hide Scan;
  }

  lemma BehindQuote(s: string, rest: string)
    ensures PrintString(s) + rest != [] && (PrintString(s) + rest)[0] == QUOTE
    ensures (PrintString(s) + rest)[1..] == Escape(s) + ([QUOTE] + rest)
  {
    PrintStringIs(s);
    hide PrintString, Escape;
    Assoc([QUOTE], Escape(s) + [QUOTE], rest);
    Assoc(Escape(s), [QUOTE], rest);
    Border([QUOTE], Escape(s) + ([QUOTE] + rest));
  }

  /** What minifying does to a printed string and the text behind it. */
  lemma KeepString(s: string, rest: string)
    ensures !EndsInBackslash(s) ==> Minified(PrintString(s) + rest) == PrintString(s) + Minified(rest)
    ensures EndsInBackslash(s) ==>
              Minified(PrintString(s) + rest) == (PrintString(s) + rest[..Scan(rest)]) + Minified(rest[Scan(rest)..])
  {
    PrintStringIs(s);
    hide *;
    var p := PrintString(s);
    var n := if EndsInBackslash(s) then Scan(rest) else 0;
    BehindQuote(s, rest);
    ScanPrinted(s, rest);
    BehindBorder(p, rest, n);
    MinifiedString(p + rest, |p| - 1 + n);
    NothingAdded(p);
    WholeRange(rest);
  }

  lemma NumbersAreCompact(c: LibC, d: real)
    requires PrintsCompactly(c)
    ensures Compact(PrintNumber(c, d)) && PrintNumber(c, d) != []
  {
  }

  predicate Closers(s: string) {
    forall i :: 0 <= i < |s| ==> s[i] == ']'
  }

  lemma ScanClosers(s: string)
    requires Closers(s)
    ensures Scan(s) == |s| && Minified(s) == s
  {
    ScanPlain(s, []);
    KeepCompact(s, []);
    assert s + [] == s;
  }

  lemma KeepLastString(s: string, rest: string)
    requires Closers(rest)
    ensures Minified(PrintString(s) + rest) == PrintString(s) + Minified(rest)
  {
    hide PrintString;
    KeepString(s, rest);
    ScanClosers(rest);
    hide Scan;
    assert rest[..|rest|] == rest && rest[|rest|..] == [];
    assert (PrintString(s) + rest) + Minified([]) == PrintString(s) + rest;
  }

  /** Minifying the formatted print of a minifiable tree gives its unformatted print. */
  lemma {:induction false} Keep(c: LibC, t: Json, depth: nat, rest: string, last: bool)
    requires PrintsCompactly(c) && Minifiable(t, last) && (last ==> Closers(rest))
    ensures Minified(Print(c, t, true, depth) + rest) == Print(c, t, false, depth) + Minified(rest)
    decreases t
  {
    match t
    case JNull => KeepCompact("null", rest);
    case JFalse => KeepCompact("false", rest);
    case JTrue => KeepCompact("true", rest);
    case JNumber(d) =>
      NumbersAreCompact(c, d);
      KeepCompact(PrintNumber(c, d), rest);
    case JString(s) =>
      if EndsInBackslash(s) {
        KeepLastString(s, rest);
      } else {
        KeepString(s, rest);
      }
    case JArray(items) =>
      KeepItems(c, items, depth + 1, rest, last);
      ArrayTexts(c, items, depth);
      hide *;
      KeepBracket(PrintItems(c, items, true, depth + 1), PrintItems(c, items, false, depth + 1), rest);
    case JObject(members) =>
      KeepMembers(c, members, depth + 1, rest);
      ObjectTexts(c, members, depth);
      hide *;
      KeepBraceLine(PrintMembers(c, members, true, depth + 1), PrintMembers(c, members, false, depth + 1), rest);
  }

  lemma ArrayTexts(c: LibC, items: seq<Json>, depth: nat)
    ensures Print(c, JArray(items), true, depth) == "[" + PrintItems(c, items, true, depth + 1)
    ensures Print(c, JArray(items), false, depth) == "[" + PrintItems(c, items, false, depth + 1)
  {
    hide PrintItems;
  }

  lemma ObjectTexts(c: LibC, members: seq<Member>, depth: nat)
    ensures Print(c, JObject(members), true, depth) == "{" + ("\n" + PrintMembers(c, members, true, depth + 1))
    ensures Print(c, JObject(members), false, depth) == "{" + PrintMembers(c, members, false, depth + 1)
  {
    hide PrintMembers;
  }

  lemma KeepBracket(text: string, text': string, rest: string)
    requires Minified(text + rest) == text' + Minified(rest)
    ensures Minified("[" + text + rest) == "[" + text' + Minified(rest)
  {
    assert "[" + text + rest == "[" + (text + rest);
    hide Minified;
    KeepCompact("[", text + rest);
  }

  lemma KeepBraceLine(text: string, text': string, rest: string)
    requires Minified(text + rest) == text' + Minified(rest)
    ensures Minified("{" + ("\n" + text) + rest) == "{" + text' + Minified(rest)
  {
    assert "{" + ("\n" + text) + rest == "{" + ("\n" + (text + rest));
    hide Minified;
    KeepCompact("{", "\n" + (text + rest));
    DropLayout("\n", text + rest);
    assert "{" + (text' + Minified(rest)) == "{" + text' + Minified(rest);
  }

  lemma {:induction false} KeepItems(c: LibC, items: seq<Json>, depth: nat, rest: string, last: bool)
    requires PrintsCompactly(c) && MinifiableItems(items, last) && (last ==> Closers(rest))
    ensures Minified(PrintItems(c, items, true, depth) + rest) == PrintItems(c, items, false, depth) + Minified(rest)
    decreases items
  {
    hide Minified, Print, Minifiable, Scan;
    if items == [] {
      KeepCompact("]", rest);
    } else if |items| == 1 {
      Keep(c, items[0], depth, "]" + rest, last);
      KeepCompact("]", rest);
      var text, text' := Print(c, items[0], true, depth), Print(c, items[0], false, depth);
      assert (text + "]") + rest == text + ("]" + rest);
      assert text' + ("]" + Minified(rest)) == (text' + "]") + Minified(rest);
    } else {
      var text, text' := Print(c, items[0], true, depth), Print(c, items[0], false, depth);
      var more, more' := PrintItems(c, items[1..], true, depth), PrintItems(c, items[1..], false, depth);
      Keep(c, items[0], depth, ", " + (more + rest), false);
      KeepItems(c, items[1..], depth, rest, last);
      KeepSeparator(more + rest);
      hide *;
      JoinItems(c, items, depth);
      assert (text + (", " + more)) + rest == text + (", " + (more + rest));
      assert text' + ("," + (more' + Minified(rest))) == (text' + ("," + more')) + Minified(rest);
    }
  }

  lemma JoinItems(c: LibC, items: seq<Json>, depth: nat)
    requires |items| > 1
    ensures PrintItems(c, items, true, depth) ==
            Print(c, items[0], true, depth) + (", " + PrintItems(c, items[1..], true, depth))
    ensures PrintItems(c, items, false, depth) ==
            Print(c, items[0], false, depth) + ("," + PrintItems(c, items[1..], false, depth))
  {
    hide Print;
  }

  lemma KeepSeparator(rest: string)
    ensures Minified(", " + rest) == "," + Minified(rest)
  {
    assert ", " + rest == "," + (" " + rest);
    hide Minified;
    KeepCompact(",", " " + rest);
    DropLayout(" ", rest);
  }

  lemma {:induction false} KeepMembers(c: LibC, members: seq<Member>, depth: nat, rest: string)
    requires PrintsCompactly(c) && MinifiableMembers(members) && depth > 0
    ensures Minified(PrintMembers(c, members, true, depth) + rest) ==
            PrintMembers(c, members, false, depth) + Minified(rest)
    decreases members
  {
    if members == [] {
      KeepBrace(depth, rest);
    } else {
      var value, value' := Print(c, members[0].value, true, depth), Print(c, members[0].value, false, depth);
      var more, more' := PrintMembers(c, members[1..], true, depth), PrintMembers(c, members[1..], false, depth);
      var ending := BehindValue(|members| == 1, more + rest);
      Keep(c, members[0].value, depth, ending, false);
      KeepMembers(c, members[1..], depth, rest);
      KeepString(members[0].key, ":\t" + (value + ending));
      hide *;
      KeepMember(members[0].key, value, value', |members| == 1, more + rest, depth);
      JoinMembers(c, members, depth, rest, Minified(rest));
    }
  }

  lemma KeepBrace(depth: nat, rest: string)
    requires depth > 0
    ensures Minified(Tabs(depth - 1) + "}" + rest) == "}" + Minified(rest)
  {
    assert Tabs(depth - 1) + "}" + rest == Tabs(depth - 1) + ("}" + rest);
    hide Minified;
    DropLayout(Tabs(depth - 1), "}" + rest);
    KeepCompact("}", rest);
  }

  /** In a formatted print, what follows the value of a member. */
  function BehindValue(last: bool, more: string): string {
    Comma(last) + ("\n" + more)
  }

  lemma BehindValueIs(last: bool, more: string)
    ensures BehindValue(last, more) == Comma(last) + ("\n" + more)
  {
  }

  lemma KeepEnding(last: bool, more: string)
    ensures Minified(BehindValue(last, more)) == Comma(last) + Minified(more)
  {
    hide Minified;
    KeepCompact(Comma(last), "\n" + more);
    DropLayout("\n", more);
  }

  /** One member: its key and value are kept, its layout is dropped. */
  lemma KeepMember(key: string, value: string, value': string, last: bool, more: string, depth: nat)
    requires Minified(value + BehindValue(last, more)) == value' + Minified(BehindValue(last, more))
    requires Minified(PrintString(key) + (":\t" + (value + BehindValue(last, more)))) ==
             PrintString(key) + Minified(":\t" + (value + BehindValue(last, more)))
    ensures Minified(Tabs(depth) + (PrintString(key) + (":\t" + (value + BehindValue(last, more))))) ==
            PrintString(key) + (":" + (value' + (Comma(last) + Minified(more))))
  {
    hide Minified, PrintString, BehindValue, Comma;
    var ending := BehindValue(last, more);
    DropLayout(Tabs(depth), PrintString(key) + (":\t" + (value + ending)));
    assert ":\t" + (value + ending) == ":" + ("\t" + (value + ending));
    KeepCompact(":", "\t" + (value + ending));
    DropLayout("\t", value + ending);
    KeepEnding(last, more);
  }

  lemma JoinMembers(c: LibC, members: seq<Member>, depth: nat, rest: string, rest': string)
    requires depth > 0 && members != []
    ensures PrintMembers(c, members, true, depth) + rest ==
            Tabs(depth) + (PrintString(members[0].key) + (":\t" + (Print(c, members[0].value, true, depth)
            + BehindValue(|members| == 1, PrintMembers(c, members[1..], true, depth) + rest))))
    ensures PrintMembers(c, members, false, depth) + rest' ==
            PrintString(members[0].key) + (":" + (Print(c, members[0].value, false, depth)
            + (Comma(|members| == 1) + (PrintMembers(c, members[1..], false, depth) + rest'))))
  {
    hide *;
    var key, last := PrintString(members[0].key), |members| == 1;
    MembersUnfold(c, members, depth);
    JoinFormatted(Tabs(depth), key, Print(c, members[0].value, true, depth), last,
                  PrintMembers(c, members[1..], true, depth), rest);
    JoinUnformatted(key, Print(c, members[0].value, false, depth), Comma(last),
                    PrintMembers(c, members[1..], false, depth), rest');
  }

  lemma JoinFormatted(tabs: string, key: string, value: string, last: bool, more: string, rest: string)
    ensures tabs + (key + (":\t" + (value + (Comma(last) + ("\n" + more))))) + rest ==
            tabs + (key + (":\t" + (value + BehindValue(last, more + rest))))
  {
    JoinFive(tabs, key, ":\t", value, Comma(last) + ("\n" + more), rest);
    assert Comma(last) + ("\n" + more) + rest == BehindValue(last, more + rest);
    hide *;
  }

  lemma JoinUnformatted(key: string, value: string, comma: string, more: string, rest: string)
    ensures [] + (key + (":" + (value + (comma + more)))) + rest == key + (":" + (value + (comma + (more + rest))))
  {
    JoinFive([], key, ":", value, comma + more, rest);
    assert comma + more + rest == comma + (more + rest);
    assert [] + (key + (":" + (value + (comma + (more + rest))))) == key + (":" + (value + (comma + (more + rest))));
  }

  lemma MembersUnfold(c: LibC, members: seq<Member>, depth: nat)
    requires depth > 0 && members != []
    ensures PrintMembers(c, members, true, depth) ==
            Tabs(depth) + (PrintString(members[0].key) + (":\t" + (Print(c, members[0].value, true, depth)
            + (Comma(|members| == 1) + ("\n" + PrintMembers(c, members[1..], true, depth))))))
    ensures PrintMembers(c, members, false, depth) ==
            [] + (PrintString(members[0].key) + (":" + (Print(c, members[0].value, false, depth)
            + (Comma(|members| == 1) + PrintMembers(c, members[1..], false, depth)))))
  {
    hide Print, PrintString, Comma, Tabs;
  }

  lemma JoinFive(a: string, b: string, c: string, d: string, e: string, rest: string)
    ensures a + (b + (c + (d + e))) + rest == a + (b + (c + (d + (e + rest))))
  {
    assert d + e + rest == d + (e + rest);
    assert c + (d + e) + rest == c + (d + e + rest);
    assert b + (c + (d + e)) + rest == b + (c + (d + e) + rest);
    assert a + (b + (c + (d + e))) + rest == a + (b + (c + (d + e)) + rest);
  }

  // ---- Trees for which minifying does not work ----

  predicate DifferAt(a: string, b: string, k: nat) {
    k < |a| && k < |b| && a[..k] == b[..k] && a[k] != b[k]
  }

  ghost predicate Differ(a: string, b: string) {
    exists k: nat :: DifferAt(a, b, k)
  }

  /** Two texts that differ before the first quote. */
  ghost predicate Breaks(rest: string, rest': string) {
    exists k: nat :: DifferAt(rest, rest', k) && QUOTE !in rest[..k + 1]
  }

  lemma DifferBehind(p: string, a: string, b: string)
    requires Differ(a, b)
    ensures Differ(p + a, p + b)
  {
    var k: nat :| DifferAt(a, b, k);
    assert (p + a)[..|p| + k] == p + a[..k] && (p + b)[..|p| + k] == p + b[..k];
    assert DifferAt(p + a, p + b, |p| + k);
  }

  lemma BreaksBehind(p: string, rest: string, rest': string)
    requires Breaks(rest, rest') && QUOTE !in p
    ensures Breaks(p + rest, p + rest')
  {
    var k: nat :| DifferAt(rest, rest', k) && QUOTE !in rest[..k + 1];
    assert (p + rest)[..|p| + k] == p + rest[..k] && (p + rest')[..|p| + k] == p + rest'[..k];
    assert (p + rest)[..|p| + k + 1] == p + rest[..k + 1];
    assert DifferAt(p + rest, p + rest', |p| + k);
  }

  /** A blank on one side only makes two texts differ. */
  lemma BlankBreaks(p: string, blank: string, rest: string, rest': string)
    requires QUOTE !in p && blank != [] && Blank(blank[0]) && rest' != [] && !Blank(rest'[0])
    ensures Breaks(p + (blank + rest), p + rest')
  {
    var text := blank + rest;
    assert text[..1] == [blank[0]];
    assert DifferAt(text, rest', 0);
    BreaksBehind(p, text, rest');
  }

  lemma {:induction false} ScanPast(s: string, n: nat)
    requires n <= |s| && QUOTE !in s[..n]
    ensures Scan(s) >= n
    decreases n
  {
    if n > 0 {
      assert s[0] == s[..n][0];
      assert s[1..][..n - 1] == s[..n][1..];
      if n > 1 {
        assert s[1] == s[..n][1];
      }
      ScanPast(s[1..], n - 1);
    }
  }

  lemma BreakString(s: string, rest: string, rest': string)
    requires EndsInBackslash(s) && Breaks(rest, rest')
    ensures Differ(Minified(PrintString(s) + rest), PrintString(s) + rest')
  {
    hide *;
    KeepString(s, rest);
    BreakScanned(PrintString(s), rest, rest', Minified(rest[Scan(rest)..]));
  }

  lemma BreakScanned(p: string, rest: string, rest': string, behind: string)
    requires Breaks(rest, rest')
    ensures Differ((p + rest[..Scan(rest)]) + behind, p + rest')
  {
    var k: nat :| DifferAt(rest, rest', k) && QUOTE !in rest[..k + 1];
    ScanPast(rest, k + 1);
    var copied := rest[..Scan(rest)];
    hide Scan;
    assert copied[..k] == rest[..k] && (copied + behind)[..k] == copied[..k];
    assert DifferAt(copied + behind, rest', k);
    DifferBehind(p, copied + behind, rest');
    assert p + (copied + behind) == (p + copied) + behind;
  }

  lemma PrintStartsCompactly(c: LibC, t: Json, depth: nat)
    requires PrintsCompactly(c)
    ensures Print(c, t, false, depth) != [] && !Blank(Print(c, t, false, depth)[0])
  {
    if t.JNumber? {
      NumbersAreCompact(c, t.value);
    }
  }

  /** Minifying the formatted print of any other tree gives something else, whatever follows. */
  lemma {:induction false} Break(c: LibC, t: Json, depth: nat, rest: string, rest': string, last: bool)
    requires PrintsCompactly(c) && !Minifiable(t, last) && (!last ==> Breaks(rest, rest'))
    ensures Differ(Minified(Print(c, t, true, depth) + rest), Print(c, t, false, depth) + rest')
    decreases t
  {
    hide Differ, Breaks;
    match t
    case JString(s) => BreakString(s, rest, rest');
    case JArray(items) =>
      BreakItems(c, items, depth + 1, rest, rest', last);
      ArrayTexts(c, items, depth);
      hide *;
      BreakBracket(PrintItems(c, items, true, depth + 1), PrintItems(c, items, false, depth + 1), rest, rest');
    case JObject(members) =>
      BreakMembers(c, members, depth + 1, rest, rest');
      ObjectTexts(c, members, depth);
      hide *;
      BreakBraceLine(PrintMembers(c, members, true, depth + 1), PrintMembers(c, members, false, depth + 1), rest, rest');
  }

  lemma BreakBracket(text: string, text': string, rest: string, rest': string)
    requires Differ(Minified(text + rest), text' + rest')
    ensures Differ(Minified("[" + text + rest), "[" + text' + rest')
  {
    assert "[" + text + rest == "[" + (text + rest) && "[" + text' + rest' == "[" + (text' + rest');
    hide Minified;
    KeepCompact("[", text + rest);
    DifferBehind("[", Minified(text + rest), text' + rest');
  }

  lemma BreakBraceLine(text: string, text': string, rest: string, rest': string)
    requires Differ(Minified(text + rest), text' + rest')
    ensures Differ(Minified("{" + ("\n" + text) + rest), "{" + text' + rest')
  {
    assert "{" + ("\n" + text) + rest == "{" + ("\n" + (text + rest)) && "{" + text' + rest' == "{" + (text' + rest');
    hide Minified;
    KeepCompact("{", "\n" + (text + rest));
    DropLayout("\n", text + rest);
    DifferBehind("{", Minified(text + rest), text' + rest');
  }

  lemma {:induction false} BreakItems(
      c: LibC, items: seq<Json>, depth: nat, rest: string, rest': string, last: bool)
    requires PrintsCompactly(c) && !MinifiableItems(items, last) && (!last ==> Breaks(rest, rest'))
    ensures Differ(Minified(PrintItems(c, items, true, depth) + rest), PrintItems(c, items, false, depth) + rest')
    decreases items
  {
    hide Minified, Print, Minifiable, Scan, Differ, Breaks;
    var text, text' := Print(c, items[0], true, depth), Print(c, items[0], false, depth);
    if |items| == 1 {
      if !last {
        BreaksBehind("]", rest, rest');
      }
      Break(c, items[0], depth, "]" + rest, "]" + rest', last);
      assert (text + "]") + rest == text + ("]" + rest) && (text' + "]") + rest' == text' + ("]" + rest');
    } else {
      var more, more' := PrintItems(c, items[1..], true, depth), PrintItems(c, items[1..], false, depth);
      if Minifiable(items[0], false) {
        Keep(c, items[0], depth, ", " + (more + rest), false);
        BreakItems(c, items[1..], depth, rest, rest', last);
        KeepSeparator(more + rest);
      } else {
        PrintStartsCompactly(c, items[1], depth);
        BlankBreaks(",", " ", more + rest, more' + rest');
        assert ", " + (more + rest) == "," + (" " + (more + rest));
        Break(c, items[0], depth, ", " + (more + rest), "," + (more' + rest'), false);
      }
      JoinItems(c, items, depth);
      hide *;
      assert (text + (", " + more)) + rest == text + (", " + (more + rest));
      assert (text' + ("," + more')) + rest' == text' + ("," + (more' + rest'));
      if Minifiable(items[0], false) {
        DifferBehind(",", Minified(more + rest), more' + rest');
        DifferBehind(text', "," + Minified(more + rest), "," + (more' + rest'));
      }
    }
  }

  lemma MembersStartCompactly(c: LibC, members: seq<Member>, depth: nat)
    requires depth > 0
    ensures PrintMembers(c, members, false, depth) != [] && !Blank(PrintMembers(c, members, false, depth)[0])
  {
    hide Print, Escape;
    if members != [] {
      MembersUnfold(c, members, depth);
    }
  }

  /** A difference in or behind the value of a member is one behind its key. */
  lemma BreakValue(key: string, text: string, text': string, depth: nat)
    requires !EndsInBackslash(key) && Differ(Minified(text), text')
    ensures Differ(Minified(Tabs(depth) + (PrintString(key) + (":\t" + text))), PrintString(key) + (":" + text'))
  {
    hide Minified, PrintString, Differ;
    DropLayout(Tabs(depth), PrintString(key) + (":\t" + text));
    KeepString(key, ":\t" + text);
    assert ":\t" + text == ":" + ("\t" + text);
    KeepCompact(":", "\t" + text);
    DropLayout("\t", text);
    DifferBehind(":", Minified(text), text');
    DifferBehind(PrintString(key), ":" + Minified(text), ":" + text');
  }

  /** After a key that ends in a backslash the tab behind the colon is kept. */
  lemma BreakKey(key: string, text: string, text': string, depth: nat)
    requires EndsInBackslash(key) && text' != [] && !Blank(text'[0])
    ensures Differ(Minified(Tabs(depth) + (PrintString(key) + (":\t" + text))), PrintString(key) + (":" + text'))
  {
    hide Minified, PrintString, Differ, Breaks;
    DropLayout(Tabs(depth), PrintString(key) + (":\t" + text));
    assert ":\t" + text == ":" + ("\t" + text);
    BlankBreaks(":", "\t", text, text');
    BreakString(key, ":\t" + text, ":" + text');
  }

  lemma {:induction false} BreakMembers(c: LibC, members: seq<Member>, depth: nat, rest: string, rest': string)
    requires PrintsCompactly(c) && !MinifiableMembers(members) && depth > 0
    ensures Differ(Minified(PrintMembers(c, members, true, depth) + rest), PrintMembers(c, members, false, depth) + rest')
    decreases members
  {
    hide Minified, Print, Minifiable, Scan, Differ, Breaks, EndsInBackslash, BehindValue, PrintMembers;
    var key, last := members[0].key, |members| == 1;
    var value, value' := Print(c, members[0].value, true, depth), Print(c, members[0].value, false, depth);
    var more, more' := PrintMembers(c, members[1..], true, depth), PrintMembers(c, members[1..], false, depth);
    var ending, ending' := BehindValue(last, more + rest), Comma(last) + (more' + rest');
    JoinMembers(c, members, depth, rest, rest');
    if EndsInBackslash(key) {
      PrintStartsCompactly(c, members[0].value, depth);
      BreakKey(key, value + ending, value' + ending', depth);
    } else {
      if Minifiable(members[0].value, false) {
        BreakMembers(c, members[1..], depth, rest, rest');
        DifferBehind(Comma(last), Minified(more + rest), more' + rest');
        KeepEnding(last, more + rest);
        Keep(c, members[0].value, depth, ending, false);
        DifferBehind(value', Minified(ending), ending');
      } else {
        MembersStartCompactly(c, members[1..], depth);
        BehindValueIs(last, more + rest);
        BlankBreaks(Comma(last), "\n", more + rest, more' + rest');
        Break(c, members[0].value, depth, ending, ending', false);
      }
      BreakValue(key, value + ending, value' + ending', depth);
    }
  }

  /**
   Minifying the formatted print gives the unformatted print if and only if no key ends in a backslash,
   and no string does unless only closing brackets follow it. In particular it does when no string and
   no key contains a backslash at all.
   */
  lemma MinifyFormattedPrint(c: LibC, t: Json)
    requires PrintsCompactly(c)
    ensures Minified(Print(c, t, true, 0)) == Print(c, t, false, 0) <==> Minifiable(t, true)
  {
    var text, text' := Print(c, t, true, 0), Print(c, t, false, 0);
    assert text + [] == text && text' + [] == text';
    if Minifiable(t, true) {
      Keep(c, t, 0, [], true);
    } else {
      Break(c, t, 0, [], [], true);
    }
  }

  predicate NoBackslash(t: Json) {
    match t
    case JString(s) => BACKSLASH !in s
    case JArray(items) => forall i :: 0 <= i < |items| ==> NoBackslash(items[i])
    case JObject(members) =>
      forall i :: 0 <= i < |members| ==> BACKSLASH !in members[i].key && NoBackslash(members[i].value)
    case _ => true
  }

  lemma {:induction false} NoBackslashIsMinifiable(t: Json, last: bool)
    requires NoBackslash(t)
    ensures Minifiable(t, last)
    decreases t
  {
    match t
    case JArray(items) => NoBackslashItems(items, last);
    case JObject(members) => NoBackslashMembers(members);
    case _ =>
  }

  lemma {:induction false} NoBackslashItems(items: seq<Json>, last: bool)
    requires forall i :: 0 <= i < |items| ==> NoBackslash(items[i])
    ensures MinifiableItems(items, last)
    decreases items
  {
    if items != [] {
      NoBackslashIsMinifiable(items[0], last && |items| == 1);
      NoBackslashItems(items[1..], last);
    }
  }

  lemma {:induction false} NoBackslashMembers(members: seq<Member>)
    requires forall i :: 0 <= i < |members| ==> BACKSLASH !in members[i].key && NoBackslash(members[i].value)
    ensures MinifiableMembers(members)
    decreases members
  {
    if members != [] {
      NoBackslashIsMinifiable(members[0].value, false);
      NoBackslashMembers(members[1..]);
    }
  }

  /** A list whose first string is one backslash is such a tree. */
  lemma BackslashBeforeElement(c: LibC)
    requires PrintsCompactly(c)
    ensures var t := JArray([JString([BACKSLASH]), JNull]);
            Minified(Print(c, t, true, 0)) != Print(c, t, false, 0)
  {
    var t := JArray([JString([BACKSLASH]), JNull]);
    assert !Minifiable(t.items[0], false);
    MinifyFormattedPrint(c, t);
  }
}
