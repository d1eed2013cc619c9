/**
 Whole documents of src/Libs/cJSON/cJSON.c: what printing, minifying and parsing in memory do to each
 other's results.
 */
module JsonDocument {
  import opened JsonString
  import opened JsonText
  import opened JsonRoundTrip
  import opened JsonPrinter
  import opened JsonList
  import opened JsonTree
  import JsonCompare
  import JsonEquality
  import JsonError
  import JsonParser
  import JsonMinify
  import JsonSyntax

  lemma {:induction false} PlainTreesHoldCStrings(t: Json)
    requires Plain(t)
    ensures CTree(t)
    decreases t
  {
    match t
    case JArray(items) =>
      forall i | 0 <= i < |items|
        ensures CTree(items[i])
      {
        PlainTreesHoldCStrings(items[i]);
      }
    case JObject(members) =>
      forall i | 0 <= i < |members|
        ensures CTree(members[i].value)
      {
        PlainTreesHoldCStrings(members[i].value);
      }
    case _ =>
  }

  /**
   cJSON_Print, or its unformatted form, followed by cJSON_ParseWithOpts: the routines on memory give a tree
   of new nodes for the same value if and only if its nesting fits the limit, and otherwise the position of a
   bracket beyond it.
   */
  method PrintAndParse(c: LibC, t: Json, format: bool, requireNullTerminated: bool)
    returns (item: Node?, end: nat, ghost tree: Tree)
    requires Plain(t) && ReadsIntegers(c) && PrintsCStrings(c) && |Print(c, t, format, 0)| <= INT_MAX - 2
    ensures item != null <==> Nesting(t) <= NESTING_LIMIT
    ensures item != null ==> JsonParser.Stands(tree, item, t) && fresh(item) && fresh(Inner(tree))
    ensures var text := Print(c, t, format, 0);
            if item != null then end == |text| else end < |text| && (text[end] == '[' || text[end] == '{')
  {
    PlainTreesHoldCStrings(t);
    PlainIsPrintable(c, t);
    PrintThenParse(c, t, format, requireNullTerminated);
    if Nesting(t) > NESTING_LIMIT {
      JsonError.TooDeepPrintIsRefusedAtBracket(c, t, format, requireNullTerminated);
    }
    hide *;
    var printed, text := PrintDocument(c, t, format);
    item, end, tree := JsonParser.ParseText(c, text, requireNullTerminated);
  }

  /**
   cJSON_Print followed by cJSON_Minify on the memory it returned: what is left there is the unformatted
   print if and only if the tree is one that minifying does not misread.
   */
  method PrintAndMinify(c: LibC, t: Json) returns (left: string)
    requires Plain(t) && PrintsCStrings(c) && JsonMinify.PrintsCompactly(c)
    requires |Print(c, t, true, 0)| <= INT_MAX - 2
    ensures left == Print(c, t, false, 0) <==> JsonMinify.Minifiable(t, true)
  {
    PlainTreesHoldCStrings(t);
    PlainIsPrintable(c, t);
    PrintHasNoNul(c, t, true, 0);
    JsonMinify.MinifyFormattedPrint(c, t);
    hide *;
    var printed, text := PrintDocument(c, t, true);
    var memory := new char[|text| + 1](i requires 0 <= i <= |text| => if i < |text| then text[i] else NUL);
    assert memory[..|text|] == text[..];
    JsonMinify.Minify(memory, text);
    left := CString(memory[..]);
  }

  /** Trees that stand for two values, in different nodes, are the same if and only if the values compare equal. */
  lemma StandingTreesCompare(a: Tree, x: Node, t: Json, b: Tree, y: Node, u: Json, caseSensitive: bool)
    requires JsonParser.Stands(a, x, t) && JsonParser.Stands(b, y, u) && ({x} + Inner(a)) !! ({y} + Inner(b))
    ensures JsonEquality.Same(JsonEquality.ImageOf(a), JsonEquality.ImageOf(b), caseSensitive) <==>
            JsonCompare.Compare(t, u, caseSensitive)
  {
    hide *;
    var p, q := JsonEquality.ImageOf(a), JsonEquality.ImageOf(b);
    JsonParser.StandsIs(a, x, t);
    JsonParser.StandsIs(b, y, u);
    JsonEquality.ImageIsDoc(a);
    JsonEquality.ImageIsDoc(b);
    JsonEquality.ApartIsForgotten(p, q, caseSensitive);
    JsonEquality.ForgottenHasNoNodes(p);
    JsonEquality.ForgottenHasNoNodes(q);
    JsonEquality.SameIsCompare(DocOf(a), DocOf(b), caseSensitive);
  }

  /**
   cJSON_Compare on what cJSON_Parse makes of two prints: for values whose objects have distinct names it
   decides whether the values are equal up to the order of members and, without regard to case, up to the
   case of names.
   */
  method PrintParseAndCompare(c: LibC, t: Json, u: Json, format: bool, caseSensitive: bool) returns (equal: bool)
    requires ReadsIntegers(c) && PrintsCStrings(c)
    requires Plain(t) && Nesting(t) <= NESTING_LIMIT && |Print(c, t, format, 0)| <= INT_MAX - 2
    requires Plain(u) && Nesting(u) <= NESTING_LIMIT && |Print(c, u, format, 0)| <= INT_MAX - 2
    requires JsonCompare.Unambiguous(t, caseSensitive) && JsonCompare.Unambiguous(u, caseSensitive)
    ensures equal <==> JsonCompare.EqualUpToOrder(t, u, caseSensitive)
  {
    hide *;
    JsonCompare.CompareIsEqualityUpToOrder(t, u, caseSensitive);
    ghost var a, b;
    var x, endOfX, y, endOfY;
    x, endOfX, a := PrintAndParse(c, t, format, false);
    assert allocated(Inner(a));
    JsonParser.StandsIs(a, x, t);
    y, endOfY, b := PrintAndParse(c, u, format, false);
    JsonParser.StandsIs(a, x, t);
    JsonParser.StandsIs(b, y, u);
    StandingTreesCompare(a, x, t, b, y, u, caseSensitive);
    assert allocated(Inner(b));
    equal := JsonEquality.CompareNodes(x, y, caseSensitive, a, b);
  }

  /** A C library that reads every text but an integer as zero, and prints every other number as zero. */
  function IntegerLibC(): LibC {
    LibC(s => if IsIntegerText(s) then (ReadInteger(s) as real, |s|) else (0.0, |s|), d => "0")
  }

  /** What the theorems ask of the C library can be had, all of it at once. */
  lemma IntegerLibCWorks()
    ensures ReadsIntegers(IntegerLibC()) && PrintsCStrings(IntegerLibC()) && JsonMinify.PrintsCompactly(IntegerLibC())
    ensures JsonSyntax.TakesNumbers(IntegerLibC())
  {
    hide ReadInteger, IsIntegerText;
  }
}
