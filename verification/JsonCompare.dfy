/**
 What cJSON_Compare in src/Libs/cJSON/cJSON.c computes on JSON values, and what that means. JsonEquality
 connects it with the comparison of nodes.
 */
module JsonCompare {
  import opened JsonText

  /** The spacing of doubles at one, 2^-52. */
  const DBL_EPSILON := 1.0 / 4503599627370496.0

  const CIRCULAR_LIMIT := 10000

  function Abs(x: real): real {
    if x < 0.0 then -x else x
  }

  /** compare_double, without rounding. */
  predicate CompareDouble(a: real, b: real) {
    var max := if Abs(a) > Abs(b) then Abs(a) else Abs(b);
    Abs(a - b) <= max * DBL_EPSILON
  }

  function ToLower(c: char): char {
    if 'A' <= c <= 'Z' then (c as int + 32) as char else c
  }

  /** strcmp or case_insensitive_strcmp on C strings. */
  predicate SameKey(a: string, b: string, caseSensitive: bool) {
    if caseSensitive then a == b
    else |a| == |b| && forall i :: 0 <= i < |a| ==> ToLower(a[i]) == ToLower(b[i])
  }

  const LOWER_CASE := "abcdefghijklmnopqrstuvwxyz"
  const UPPER_CASE := "ABCDEFGHIJKLMNOPQRSTUVWXYZ"

  /** The same character, or the same letter of the ASCII alphabet in the other case. */
  ghost predicate SameLetter(a: char, b: char) {
    a == b || exists i: nat :: i < 26 && IsLetter(a, i) && IsLetter(b, i)
  }

  predicate IsLetter(c: char, i: nat)
    requires i < 26
  {
    c == LOWER_CASE[i] || c == UPPER_CASE[i]
  }

  /** What it means for two names to be the same, with or without regard to case. */
  ghost predicate SameName(a: string, b: string, caseSensitive: bool) {
    if caseSensitive then a == b else |a| == |b| && forall i :: 0 <= i < |a| ==> SameLetter(a[i], b[i])
  }

  lemma LetterIs(c: char, i: nat)
    requires i < 26
    ensures IsLetter(c, i) <==> c as int == 'a' as int + i || c as int == 'A' as int + i
  {
    assert LOWER_CASE[i] == ('a' as int + i) as char && UPPER_CASE[i] == ('A' as int + i) as char;
  }

  lemma LoweredIsSame(a: char, b: char)
    requires ToLower(a) == ToLower(b) && a != b
    ensures SameLetter(a, b)
  {
    var i := ToLower(a) as int - 'a' as int;
    LetterIs(a, i);
    LetterIs(b, i);
    hide IsLetter;
  }

  lemma SameIsLowered(a: char, b: char)
    requires SameLetter(a, b)
    ensures ToLower(a) == ToLower(b)
  {
    hide IsLetter;
    if a != b {
      var i: nat :| i < 26 && IsLetter(a, i) && IsLetter(b, i);
      LetterIs(a, i);
      LetterIs(b, i);
    }
  }

  lemma SameLetterIsToLower(a: char, b: char)
    ensures ToLower(a) == ToLower(b) <==> SameLetter(a, b)
  {
    if ToLower(a) == ToLower(b) && a != b {
      LoweredIsSame(a, b);
    }
    if SameLetter(a, b) {
      SameIsLowered(a, b);
    }
    hide ToLower, IsLetter;
  }

  /** The comparison of keys finds exactly the same names. */
  lemma SameKeyIsSameName(a: string, b: string, caseSensitive: bool)
    ensures SameKey(a, b, caseSensitive) <==> SameName(a, b, caseSensitive)
  {
    forall i | 0 <= i < |a| && i < |b|
      ensures ToLower(a[i]) == ToLower(b[i]) <==> SameLetter(a[i], b[i])
    {
      SameLetterIsToLower(a[i], b[i]);
    }
    hide ToLower, SameLetter;
  }

  /** get_object_item: the position of the first member with that key, or the number of members. */
  function IndexOfKey(members: seq<Member>, name: string, caseSensitive: bool): (k: nat)
    ensures k <= |members|
    ensures k < |members| ==> SameKey(name, members[k].key, caseSensitive)
    ensures forall i :: 0 <= i < k ==> !SameKey(name, members[i].key, caseSensitive)
  {
    if members == [] then 0
    else if SameKey(name, members[0].key, caseSensitive) then 0
    else 1 + IndexOfKey(members[1..], name, caseSensitive)
  }

  lemma {:induction false} NestingOfItem(items: seq<Json>, i: nat)
    requires i < |items|
    ensures Nesting(items[i]) <= NestingOfItems(items)
  {
    if i > 0 {
      NestingOfItem(items[1..], i - 1);
    }
  }

  lemma {:induction false} NestingOfMember(members: seq<Member>, i: nat)
    requires i < |members|
    ensures Nesting(members[i].value) <= NestingOfMembers(members)
  {
    if i > 0 {
      NestingOfMember(members[1..], i - 1);
    }
  }

  /** cJSON_Compare on two trees of values that have no node in common. */
  predicate Compare(a: Json, b: Json, caseSensitive: bool)
    decreases Nesting(a) + Nesting(b), 0
  {
    match (a, b)
    case (JNull, JNull) => true
    case (JFalse, JFalse) => true
    case (JTrue, JTrue) => true
    case (JNumber(x), JNumber(y)) => CompareDouble(x, y)
    case (JString(s), JString(t)) => s == t
    case (JArray(xs), JArray(ys)) => |xs| == |ys| && CompareItems(xs, ys, |xs|, caseSensitive)
    case (JObject(ms), JObject(ns)) =>
      FoundIn(ms, ns, |ms|, caseSensitive) && FoundIn(ns, ms, |ns|, caseSensitive)
    case _ => false
  }

  /** The first `n` elements of two arrays compare equal. */
  predicate CompareItems(xs: seq<Json>, ys: seq<Json>, n: nat, caseSensitive: bool)
    requires n <= |xs| && n <= |ys|
    decreases NestingOfItems(xs) + NestingOfItems(ys), 2
  {
    forall i :: 0 <= i < n ==>
      (NestingOfItem(xs, i); NestingOfItem(ys, i); Compare(xs[i], ys[i], caseSensitive))
  }

  /** The first `n` members of one object are found in another with values that compare equal. */
  predicate FoundIn(ms: seq<Member>, ns: seq<Member>, n: nat, caseSensitive: bool)
    requires n <= |ms|
    decreases NestingOfMembers(ms) + NestingOfMembers(ns), 2
  {
    forall i :: 0 <= i < n ==> (NestingOfMember(ms, i); Found(ms[i], ns, caseSensitive))
  }

  predicate Found(member: Member, ns: seq<Member>, caseSensitive: bool)
    decreases Nesting(member.value) + NestingOfMembers(ns), 1
  {
    var k := IndexOfKey(ns, member.key, caseSensitive);
    k < |ns| && (NestingOfMember(ns, k); Compare(member.value, ns[k].value, caseSensitive))
  }

  lemma FirstIsUnique(members: seq<Member>, name: string, caseSensitive: bool, k: nat)
    requires k <= |members| && (k < |members| ==> SameKey(name, members[k].key, caseSensitive))
    requires forall i :: 0 <= i < k ==> !SameKey(name, members[i].key, caseSensitive)
    ensures IndexOfKey(members, name, caseSensitive) == k
  {
    var first := IndexOfKey(members, name, caseSensitive);
    assert !(first < k);
    assert !(k < first);
  }

  // ---- Symmetry ----

  lemma CompareDoubleIsSymmetric(a: real, b: real)
    ensures CompareDouble(a, b) == CompareDouble(b, a)
  {
    assert Abs(a - b) == Abs(b - a);
  }

  /** cJSON_Compare is symmetric on all trees, with or without regard to case. */
  lemma {:induction false} CompareIsSymmetric(a: Json, b: Json, caseSensitive: bool)
    ensures Compare(a, b, caseSensitive) == Compare(b, a, caseSensitive)
    decreases Nesting(a) + Nesting(b)
  {
    match (a, b)
    case (JNumber(x), JNumber(y)) => CompareDoubleIsSymmetric(x, y);
    case (JArray(xs), JArray(ys)) =>
      if |xs| == |ys| {
        forall i | 0 <= i < |xs|
          ensures Compare(xs[i], ys[i], caseSensitive) == Compare(ys[i], xs[i], caseSensitive)
        {
          NestingOfItem(xs, i);
          NestingOfItem(ys, i);
          CompareIsSymmetric(xs[i], ys[i], caseSensitive);
        }
      }
    case _ =>
  }

  // ---- What comparing means for integer trees with distinct keys ----

  predicate DistinctKeys(members: seq<Member>, caseSensitive: bool) {
    forall i, j :: 0 <= i < j < |members| ==> !SameKey(members[i].key, members[j].key, caseSensitive)
  }

  /** Numbers are 32-bit integers and no object has two members of one name. */
  predicate Unambiguous(t: Json, caseSensitive: bool) {
    match t
    case JNumber(d) => IsInt32(d)
    case JArray(items) => forall i :: 0 <= i < |items| ==> Unambiguous(items[i], caseSensitive)
    case JObject(members) =>
      DistinctKeys(members, caseSensitive) && forall i :: 0 <= i < |members| ==> Unambiguous(members[i].value, caseSensitive)
    case _ => true
  }

  /** `there` and `back` are inverse to each other: a reordering of `n` positions. */
  predicate Reordering(there: seq<nat>, back: seq<nat>, n: nat) {
    && |there| == n && |back| == n
    && (forall i :: 0 <= i < n ==> there[i] < n && back[there[i]] == i)
    && (forall i :: 0 <= i < n ==> back[i] < n && there[back[i]] == i)
  }

  /** Equal up to the order of the members of objects and, without regard to case, up to the case of names. */
  ghost predicate EqualUpToOrder(a: Json, b: Json, caseSensitive: bool)
    decreases a
  {
    match (a, b)
    case (JArray(xs), JArray(ys)) =>
      |xs| == |ys| && forall i :: 0 <= i < |xs| ==> EqualUpToOrder(xs[i], ys[i], caseSensitive)
    case (JObject(ms), JObject(ns)) =>
      |ms| == |ns| &&
      exists there, back ::
        (Reordering(there, back, |ms|) &&
        forall i :: 0 <= i < |ms| ==>
          && SameName(ms[i].key, ns[there[i]].key, caseSensitive)
          && EqualUpToOrder(ms[i].value, ns[there[i]].value, caseSensitive))
    case _ => a == b
  }

  lemma DifferentIntegersAreApart(x: real, y: real, m: int, n: int)
    requires x == m as real && y == n as real && m != n
    ensures Abs(x - y) >= 1.0
  {
    assert x - y == (m - n) as real;
  }

  lemma EpsilonIsSmall(max: real)
    requires 0.0 <= max <= 2147483648.0
    ensures 0.0 <= max * DBL_EPSILON < 1.0
  {
    assert max * DBL_EPSILON == max / 4503599627370496.0;
  }

  /**
   Two numbers are taken for equal exactly when their distance is at most the 2^52nd part of the one that
   is larger in magnitude.
   */
  lemma ToleranceIsRelative(x: real, y: real)
    ensures CompareDouble(x, y) <==>
            || ((x - y) * 4503599627370496.0 <= x && (y - x) * 4503599627370496.0 <= x)
            || ((x - y) * 4503599627370496.0 <= -x && (y - x) * 4503599627370496.0 <= -x)
            || ((x - y) * 4503599627370496.0 <= y && (y - x) * 4503599627370496.0 <= y)
            || ((x - y) * 4503599627370496.0 <= -y && (y - x) * 4503599627370496.0 <= -y)
  {
    var max := if Abs(x) > Abs(y) then Abs(x) else Abs(y);
    assert max * DBL_EPSILON == max / 4503599627370496.0;
    assert Abs(x - y) <= max / 4503599627370496.0 <==> Abs(x - y) * 4503599627370496.0 <= max;
  }

  lemma IntegersCompareExactly(x: real, y: real)
    requires IsInt32(x) && IsInt32(y)
    ensures CompareDouble(x, y) <==> x == y
  {
    EpsilonIsSmall(if Abs(x) > Abs(y) then Abs(x) else Abs(y));
    if x != y {
      DifferentIntegersAreApart(x, y, x.Floor, y.Floor);
    }
    hide DBL_EPSILON, IsInt32;
  }

  // Injections between positions

  lemma {:induction false} ImageSize(f: seq<nat>, k: nat)
    requires k <= |f| && forall i, j :: 0 <= i < j < k ==> f[i] != f[j]
    ensures |set i | 0 <= i < k :: f[i]| == k
  {
    if k > 0 {
      ImageSize(f, k - 1);
      var image, last := set i | 0 <= i < k - 1 :: f[i], f[k - 1];
      assert last !in image;
      assert (set i | 0 <= i < k :: f[i]) == image + {last};
      hide *;
    }
  }

  /** The positions below `n`. */
  ghost function UpTo(n: nat): (s: set<nat>)
    ensures |s| == n && forall i: nat :: i in s <==> i < n
  {
    if n == 0 then {} else UpTo(n - 1) + {n - 1}
  }

  lemma {:induction false} SubsetSize<T>(a: set<T>, b: set<T>)
    requires a <= b
    ensures |a| <= |b|
  {
    if a != {} {
      var x :| x in a;
      SubsetSize(a - {x}, b - {x});
    }
  }

  lemma Pigeonhole(f: seq<nat>, n: nat)
    requires forall i, j :: 0 <= i < j < |f| ==> f[i] != f[j]
    requires forall i :: 0 <= i < |f| ==> f[i] < n
    ensures |f| <= n
  {
    ImageSize(f, |f|);
    SubsetSize(set i | 0 <= i < |f| :: f[i], UpTo(n));
  }

  lemma SameKeyIsEquivalence(a: string, b: string, c: string, caseSensitive: bool)
    ensures SameKey(a, a, caseSensitive) && (SameKey(a, b, caseSensitive) <==> SameKey(b, a, caseSensitive))
    ensures SameKey(a, b, caseSensitive) && SameKey(b, c, caseSensitive) ==> SameKey(a, c, caseSensitive)
  {
    hide ToLower;
  }

  /** Where each member of one object is found in the other. */
  ghost function Positions(ms: seq<Member>, ns: seq<Member>, caseSensitive: bool): (f: seq<nat>)
    ensures |f| == |ms| && forall i :: 0 <= i < |ms| ==> f[i] == IndexOfKey(ns, ms[i].key, caseSensitive)
  {
    seq(|ms|, i requires 0 <= i < |ms| => IndexOfKey(ns, ms[i].key, caseSensitive))
  }

  /** In an object with distinct names a member is found under its own name and any that is the same. */
  lemma OwnKeyIsFound(ms: seq<Member>, i: nat, name: string, caseSensitive: bool)
    requires DistinctKeys(ms, caseSensitive) && i < |ms| && SameKey(ms[i].key, name, caseSensitive)
    ensures IndexOfKey(ms, name, caseSensitive) == i
  {
    hide SameKey;
    SameKeyIsEquivalence(ms[i].key, name, name, caseSensitive);
    forall j | 0 <= j < i
      ensures !SameKey(name, ms[j].key, caseSensitive)
    {
      SameKeyIsEquivalence(ms[i].key, name, ms[j].key, caseSensitive);
      SameKeyIsEquivalence(ms[i].key, ms[j].key, name, caseSensitive);
    }
    FirstIsUnique(ms, name, caseSensitive, i);
  }

  /** Lookups in both directions undo each other when names are distinct. */
  lemma LookupsAreInverse(ms: seq<Member>, ns: seq<Member>, i: nat, caseSensitive: bool)
    requires DistinctKeys(ms, caseSensitive) && i < |ms| && IndexOfKey(ns, ms[i].key, caseSensitive) < |ns|
    ensures IndexOfKey(ms, ns[IndexOfKey(ns, ms[i].key, caseSensitive)].key, caseSensitive) == i
  {
    OwnKeyIsFound(ms, i, ns[IndexOfKey(ns, ms[i].key, caseSensitive)].key, caseSensitive);
  }

  lemma FoundInjects(ms: seq<Member>, ns: seq<Member>, caseSensitive: bool)
    requires DistinctKeys(ms, caseSensitive)
    requires forall i :: 0 <= i < |ms| ==> IndexOfKey(ns, ms[i].key, caseSensitive) < |ns|
    ensures |ms| <= |ns|
  {
    var f := Positions(ms, ns, caseSensitive);
    forall i, j | 0 <= i < j < |f|
      ensures f[i] != f[j]
    {
      LookupsAreInverse(ms, ns, i, caseSensitive);
      LookupsAreInverse(ms, ns, j, caseSensitive);
    }
    hide SameKey;
    Pigeonhole(f, |ns|);
  }

  lemma FoundAt(ms: seq<Member>, ns: seq<Member>, caseSensitive: bool, i: nat)
    requires FoundIn(ms, ns, |ms|, caseSensitive) && i < |ms|
    ensures var k := IndexOfKey(ns, ms[i].key, caseSensitive);
            && k < |ns| && Compare(ms[i].value, ns[k].value, caseSensitive)
            && SameName(ms[i].key, ns[k].key, caseSensitive)
  {
    assert Found(ms[i], ns, caseSensitive);
    SameKeyIsSameName(ms[i].key, ns[IndexOfKey(ns, ms[i].key, caseSensitive)].key, caseSensitive);
    hide SameKey, SameName;
  }

  lemma PositionsReorder(ms: seq<Member>, ns: seq<Member>, caseSensitive: bool)
    requires DistinctKeys(ms, caseSensitive) && DistinctKeys(ns, caseSensitive)
    requires FoundIn(ms, ns, |ms|, caseSensitive) && FoundIn(ns, ms, |ns|, caseSensitive)
    ensures |ms| == |ns| && Reordering(Positions(ms, ns, caseSensitive), Positions(ns, ms, caseSensitive), |ms|)
  {
    hide SameKey, SameName, DistinctKeys;
    forall i | 0 <= i < |ms|
      ensures IndexOfKey(ns, ms[i].key, caseSensitive) < |ns|
      ensures IndexOfKey(ms, ns[IndexOfKey(ns, ms[i].key, caseSensitive)].key, caseSensitive) == i
    {
      FoundAt(ms, ns, caseSensitive, i);
      LookupsAreInverse(ms, ns, i, caseSensitive);
    }
    forall i | 0 <= i < |ns|
      ensures IndexOfKey(ms, ns[i].key, caseSensitive) < |ms|
      ensures IndexOfKey(ns, ms[IndexOfKey(ms, ns[i].key, caseSensitive)].key, caseSensitive) == i
    {
      FoundAt(ns, ms, caseSensitive, i);
      LookupsAreInverse(ns, ms, i, caseSensitive);
    }
    FoundInjects(ms, ns, caseSensitive);
    FoundInjects(ns, ms, caseSensitive);
  }

  lemma {:induction false} ComparedIsEqual(a: Json, b: Json, caseSensitive: bool)
    requires Unambiguous(a, caseSensitive) && Unambiguous(b, caseSensitive) && Compare(a, b, caseSensitive)
    ensures EqualUpToOrder(a, b, caseSensitive)
    decreases a
  {
    match (a, b)
    case (JNumber(x), JNumber(y)) => IntegersCompareExactly(x, y);
    case (JArray(xs), JArray(ys)) =>
      forall i | 0 <= i < |xs|
        ensures EqualUpToOrder(xs[i], ys[i], caseSensitive)
      {
        ComparedIsEqual(xs[i], ys[i], caseSensitive);
      }
    case (JObject(ms), JObject(ns)) =>
      hide SameName, DistinctKeys;
      PositionsReorder(ms, ns, caseSensitive);
      var there, back := Positions(ms, ns, caseSensitive), Positions(ns, ms, caseSensitive);
      forall i | 0 <= i < |ms|
        ensures SameName(ms[i].key, ns[there[i]].key, caseSensitive)
        ensures EqualUpToOrder(ms[i].value, ns[there[i]].value, caseSensitive)
      {
        FoundAt(ms, ns, caseSensitive, i);
        ComparedIsEqual(ms[i].value, ns[there[i]].value, caseSensitive);
      }
    case _ =>
  }

  lemma {:induction false} EqualIsCompared(a: Json, b: Json, caseSensitive: bool)
    requires Unambiguous(a, caseSensitive) && Unambiguous(b, caseSensitive) && EqualUpToOrder(a, b, caseSensitive)
    ensures Compare(a, b, caseSensitive)
    decreases a
  {
    match (a, b)
    case (JNumber(x), JNumber(y)) => IntegersCompareExactly(x, y);
    case (JArray(xs), JArray(ys)) =>
      forall i | 0 <= i < |xs|
        ensures Compare(xs[i], ys[i], caseSensitive)
      {
        EqualIsCompared(xs[i], ys[i], caseSensitive);
      }
    case (JObject(ms), JObject(ns)) =>
      hide SameName, DistinctKeys;
      var there, back :| (Reordering(there, back, |ms|) &&
        forall i :: 0 <= i < |ms| ==>
          && SameName(ms[i].key, ns[there[i]].key, caseSensitive)
          && EqualUpToOrder(ms[i].value, ns[there[i]].value, caseSensitive));
      forall i | 0 <= i < |ms|
        ensures SameName(ms[i].key, ns[there[i]].key, caseSensitive)
        ensures Compare(ms[i].value, ns[there[i]].value, caseSensitive)
      {
        EqualIsCompared(ms[i].value, ns[there[i]].value, caseSensitive);
      }
      ReorderedIsFound(ms, ns, there, back, caseSensitive);
    case _ =>
  }

  lemma ReorderedIsFound(ms: seq<Member>, ns: seq<Member>, there: seq<nat>, back: seq<nat>, caseSensitive: bool)
    requires |ms| == |ns| && Reordering(there, back, |ms|)
    requires DistinctKeys(ms, caseSensitive) && DistinctKeys(ns, caseSensitive)
    requires forall i :: 0 <= i < |ms| ==>
               && SameName(ms[i].key, ns[there[i]].key, caseSensitive)
               && Compare(ms[i].value, ns[there[i]].value, caseSensitive)
    ensures FoundIn(ms, ns, |ms|, caseSensitive) && FoundIn(ns, ms, |ns|, caseSensitive)
  {
    hide Compare, SameName, DistinctKeys, SameKey;
    forall i | 0 <= i < |ms|
      ensures Found(ms[i], ns, caseSensitive) && Found(ns[there[i]], ms, caseSensitive)
    {
      var x, y := ms[i].key, ns[there[i]].key;
      CompareIsSymmetric(ms[i].value, ns[there[i]].value, caseSensitive);
      SameKeyIsSameName(x, y, caseSensitive);
      SameKeyIsEquivalence(x, y, x, caseSensitive);
      OwnKeyIsFound(ns, there[i], x, caseSensitive);
      OwnKeyIsFound(ms, i, y, caseSensitive);
    }
    hide Found;
    forall j | 0 <= j < |ns|
      ensures Found(ns[j], ms, caseSensitive)
    {
      assert there[back[j]] == j;
    }
  }

  /**
   On trees of integers whose objects have distinct names, the comparison holds exactly when the trees are
   equal up to the order of object members and, without regard to case, up to the case of names.
   */
  lemma CompareIsEqualityUpToOrder(a: Json, b: Json, caseSensitive: bool)
    requires Unambiguous(a, caseSensitive) && Unambiguous(b, caseSensitive)
    ensures Compare(a, b, caseSensitive) <==> EqualUpToOrder(a, b, caseSensitive)
  {
    if Compare(a, b, caseSensitive) {
      ComparedIsEqual(a, b, caseSensitive);
    }
    if EqualUpToOrder(a, b, caseSensitive) {
      EqualIsCompared(a, b, caseSensitive);
    }
  }

  // ---- What a duplicate is compared with ----

  /** How many levels of children there are. */
  function Height(t: Json): nat
    decreases t
  {
    match t
    case JArray(items) => HeightOfItems(items)
    case JObject(members) => HeightOfMembers(members)
    case _ => 0
  }

  function HeightOfItems(items: seq<Json>): nat
    decreases items
  {
    if items == [] then 0 else Max(1 + Height(items[|items| - 1]), HeightOfItems(items[..|items| - 1]))
  }

  function HeightOfMembers(members: seq<Member>): nat
    decreases members
  {
    if members == [] then 0
    else Max(1 + Height(members[|members| - 1].value), HeightOfMembers(members[..|members| - 1]))
  }

  /** Whether children at `depth` are still copied when they have `height` levels themselves. */
  predicate WithinLimit(depth: nat, height: nat) {
    height == 0 || depth + height <= CIRCULAR_LIMIT
  }

  lemma {:induction false} HeightOfMembersGrows(members: seq<Member>, i: nat)
    requires i < |members|
    ensures HeightOfMembers(members[..i + 1]) == Max(1 + Height(members[i].value), HeightOfMembers(members[..i]))
    ensures HeightOfMembers(members) >= HeightOfMembers(members[..i + 1])
    decreases |members|
  {
    assert members[..i + 1][..i] == members[..i];
    if i + 1 < |members| {
      var front := members[..|members| - 1];
      HeightOfMembersGrows(front, i);
      assert front[..i + 1] == members[..i + 1];
    } else {
      assert members[..i + 1] == members;
    }
  }

  /**
   Wherever two members of an object have the same name, the later one compares equal to the first; a
   first one is of this kind itself.
   */
  predicate RepeatsAgree(t: Json, caseSensitive: bool) {
    match t
    case JArray(items) => forall i :: 0 <= i < |items| ==> RepeatsAgree(items[i], caseSensitive)
    case JObject(members) =>
      forall i :: 0 <= i < |members| ==> Agrees(members, i, caseSensitive)
    case _ => true
  }

  predicate Agrees(members: seq<Member>, i: nat, caseSensitive: bool)
    requires i < |members|
    decreases members, 0
  {
    var first := IndexOfKey(members, members[i].key, caseSensitive);
    if first == i then RepeatsAgree(members[i].value, caseSensitive)
    else first < |members| && Compare(members[i].value, members[first].value, caseSensitive)
  }

  lemma CompareWithItself(members: seq<Member>, caseSensitive: bool)
    ensures Compare(JObject(members), JObject(members), caseSensitive) <==>
            forall i :: 0 <= i < |members| ==> Found(members[i], members, caseSensitive)
  {
    hide Found;
  }

  /** A value compares equal to itself if and only if repeated names agree. */
  lemma {:induction false} DuplicateComparesEqual(t: Json, caseSensitive: bool)
    ensures Compare(t, t, caseSensitive) <==> RepeatsAgree(t, caseSensitive)
    decreases t
  {
    match t
    case JNumber(d) => assert Abs(d) * DBL_EPSILON >= 0.0;
    case JArray(items) =>
      forall i | 0 <= i < |items|
        ensures Compare(items[i], items[i], caseSensitive) <==> RepeatsAgree(items[i], caseSensitive)
      {
        DuplicateComparesEqual(items[i], caseSensitive);
      }
      assert CompareItems(items, items, |items|, caseSensitive) <==> RepeatsAgree(t, caseSensitive);
    case JObject(members) =>
      forall i | 0 <= i < |members|
        ensures Found(members[i], members, caseSensitive) <==> Agrees(members, i, caseSensitive)
      {
        DuplicateComparesEqual(members[i].value, caseSensitive);
      }
      hide Found, Agrees;
      CompareWithItself(members, caseSensitive);
    case _ =>
  }

  predicate DistinctNames(t: Json, caseSensitive: bool) {
    match t
    case JArray(items) => forall i :: 0 <= i < |items| ==> DistinctNames(items[i], caseSensitive)
    case JObject(members) =>
      DistinctKeys(members, caseSensitive) &&
      forall i :: 0 <= i < |members| ==> DistinctNames(members[i].value, caseSensitive)
    case _ => true
  }

  /** In particular it does when no name is repeated. */
  lemma {:induction false} DistinctNamesAgree(t: Json, caseSensitive: bool)
    requires DistinctNames(t, caseSensitive)
    ensures RepeatsAgree(t, caseSensitive)
    decreases t
  {
    match t
    case JArray(items) =>
      forall i | 0 <= i < |items|
        ensures RepeatsAgree(items[i], caseSensitive)
      {
        DistinctNamesAgree(items[i], caseSensitive);
      }
    case JObject(members) =>
      forall i | 0 <= i < |members|
        ensures IndexOfKey(members, members[i].key, caseSensitive) == i
        ensures RepeatsAgree(members[i].value, caseSensitive)
      {
        FirstIsUnique(members, members[i].key, caseSensitive, i);
        DistinctNamesAgree(members[i].value, caseSensitive);
      }
    case _ =>
  }

  /** An object with two different values of one name is not equal to itself, nor to a copy of it. */
  lemma RepeatedNameBreaksDuplicate()
    ensures var t := JObject([Member("k", JNumber(1.0)), Member("k", JNumber(2.0))]);
            WithinLimit(0, Height(t)) && !Compare(t, t, true)
  {
    var members := [Member("k", JNumber(1.0)), Member("k", JNumber(2.0))];
    var t := JObject(members);
    HeightOfMembersGrows(members, 0);
    HeightOfMembersGrows(members, 1);
    assert members[..2] == members && members[..0] == [];
    FirstIsUnique(members, "k", true, 0);
    IntegersCompareExactly(2.0, 1.0);
    assert !Found(members[1], members, true);
  }
}
