/**
 cJSON_Compare in src/Libs/cJSON/cJSON.c on trees of nodes: nodes of any kind, with or without names and
 values, that may be shared between the two trees. For trees that stand for JSON values it is the comparison
 of these values.
 */
module JsonEquality {
  import opened Options
  import opened JsonList
  import opened JsonCompare
  import opened JsonText
  import opened JsonTree

  const FALSE_KIND: nat := 1
  const TRUE_KIND: nat := 2
  const NULL_KIND: nat := 4
  const NUMBER_KIND: nat := 8
  const STRING_KIND: nat := 16
  const ARRAY_KIND: nat := 32
  const OBJECT_KIND: nat := 64
  const RAW_KIND: nat := 128

  predicate IsKind(k: nat) {
    || k == FALSE_KIND || k == TRUE_KIND || k == NULL_KIND || k == NUMBER_KIND
    || k == STRING_KIND || k == RAW_KIND || k == ARRAY_KIND || k == OBJECT_KIND
  }

  predicate HoldsText(k: nat) { k == STRING_KIND || k == RAW_KIND }

  // ---- What is compared ----

  /** What a tree says, and in which nodes. */
  ghost function ImageOf(t: Tree): Doc
    reads t.node`payload, Inner(t)`payload
    decreases t
  {
    Doc(t.node, t.node.payload, ImagesOf(t.children))
  }

  ghost function ImagesOf(ts: seq<Tree>): (docs: seq<Doc>)
    reads Roots(ts)`payload, Below(ts)`payload
    ensures |docs| == |ts|
    decreases ts
  {
    if ts == [] then [] else ImagesOf(ts[..|ts| - 1]) + [ImageOf(ts[|ts| - 1])]
  }

  lemma {:induction false} ImagesAt(ts: seq<Tree>, i: nat)
    requires i < |ts|
    ensures ImagesOf(ts)[i] == ImageOf(ts[i])
    decreases |ts|
  {
    if i < |ts| - 1 {
      ImagesAt(ts[..|ts| - 1], i);
    }
  }

  /** How many levels of children there are. */
  function Depth(d: Doc): nat
    decreases d
  {
    DepthOf(d.children)
  }

  function DepthOf(ds: seq<Doc>): nat
    decreases ds
  {
    if ds == [] then 0 else Max(1 + Depth(ds[0]), DepthOf(ds[1..]))
  }

  lemma {:induction false} DepthOfChild(ds: seq<Doc>, i: nat)
    requires i < |ds|
    ensures Depth(ds[i]) < DepthOf(ds)
  {
    if i > 0 {
      DepthOfChild(ds[1..], i - 1);
    }
  }

  /** The first child that has this name; a search with regard to case ends at a child without a name. */
  function FirstNamed(ds: seq<Doc>, name: string, caseSensitive: bool): (k: nat)
    ensures k <= |ds|
    ensures k < |ds| ==> HasName(ds[k], name, caseSensitive)
  {
    if ds == [] then 0
    else if HasName(ds[0], name, caseSensitive) then 0
    else if ds[0].payload.name.None? && caseSensitive then |ds|
    else 1 + FirstNamed(ds[1..], name, caseSensitive)
  }

  predicate HasName(d: Doc, name: string, caseSensitive: bool) {
    d.payload.name.Some? && SameKey(name, d.payload.name.value, caseSensitive)
  }

  /** get_object_item: the position of the child, or the number of children. */
  function FindName(ds: seq<Doc>, name: Option<string>, caseSensitive: bool): (k: nat)
    ensures k <= |ds|
  {
    match name
    case None => |ds|
    case Some(n) => FirstNamed(ds, n, caseSensitive)
  }

  /**
   compare_double, without rounding of finite numbers. The difference of an infinity and anything else
   but itself is infinite, and so is the tolerance.
   */
  predicate SameDouble(a: Double, b: Double) {
    match (a, b)
    case (Finite(x), Finite(y)) => CompareDouble(x, y)
    case (Infinite(m), Infinite(n)) => m != n
    case (NotANumber, _) => false
    case (_, NotANumber) => false
    case _ => true
  }

  /** cJSON_Compare: nodes of one valid kind that are identical or have the same contents. */
  predicate Same(a: Doc, b: Doc, caseSensitive: bool)
    decreases Depth(a) + Depth(b), 3
  {
    && a.payload.kind == b.payload.kind && IsKind(a.payload.kind)
    && ((a.node != null && a.node == b.node) || SameContents(a, b, caseSensitive))
  }

  predicate SameContents(a: Doc, b: Doc, caseSensitive: bool)
    decreases Depth(a) + Depth(b), 2
  {
    var k := a.payload.kind;
    if k == NUMBER_KIND then SameDouble(a.payload.valueDouble, b.payload.valueDouble)
    else if HoldsText(k) then a.payload.valueString.Some? && a.payload.valueString == b.payload.valueString
    else if k == ARRAY_KIND then
      |a.children| == |b.children| && SameItems(a.children, b.children, |a.children|, caseSensitive)
    else if k == OBJECT_KIND then
      && MembersFound(a.children, b.children, |a.children|, caseSensitive)
      && MembersFound(b.children, a.children, |b.children|, caseSensitive)
    else true
  }

  /** The first `n` children of two arrays are the same. */
  predicate SameItems(xs: seq<Doc>, ys: seq<Doc>, n: nat, caseSensitive: bool)
    requires n <= |xs| && n <= |ys|
    decreases DepthOf(xs) + DepthOf(ys), 1
  {
    forall i :: 0 <= i < n ==> (DepthOfChild(xs, i); DepthOfChild(ys, i); Same(xs[i], ys[i], caseSensitive))
  }

  /** The first `n` children of one object are found in another and are the same there. */
  predicate MembersFound(ms: seq<Doc>, ns: seq<Doc>, n: nat, caseSensitive: bool)
    requires n <= |ms|
    decreases DepthOf(ms) + DepthOf(ns), 1
  {
    forall i :: 0 <= i < n ==> (DepthOfChild(ms, i); MemberFound(ms[i], ns, caseSensitive))
  }

  predicate MemberFound(m: Doc, ns: seq<Doc>, caseSensitive: bool)
    decreases Depth(m) + DepthOf(ns), 4
  {
    var k := FindName(ns, m.payload.name, caseSensitive);
    k < |ns| && (DepthOfChild(ns, k); Same(m, ns[k], caseSensitive))
  }

  // ---- The loops ----

  predicate IsNamed(node: Node, name: string, caseSensitive: bool)
    reads node`payload
  {
    node.payload.name.Some? && SameKey(name, node.payload.name.value, caseSensitive)
  }

  /** What one step of the search finds. */
  lemma NameAt(ts: seq<Tree>, k: nat, name: string, caseSensitive: bool)
    requires k < |ts|
    ensures var node, images := Roots(ts)[k], ImagesOf(ts);
            && (IsNamed(node, name, caseSensitive) ==> FirstNamed(images[k..], name, caseSensitive) == 0)
            && (!IsNamed(node, name, caseSensitive) ==>
                  if node.payload.name.None? && caseSensitive then
                    FirstNamed(images[k..], name, caseSensitive) == |images| - k
                  else FirstNamed(images[k..], name, caseSensitive) == 1 + FirstNamed(images[k + 1..], name, caseSensitive))
            && (IsNamed(node, name, caseSensitive) ==> node.payload.name.Some?)
  {
    var rest := ImagesOf(ts)[k..];
    ImagesAt(ts, k);
    assert rest[0] == ImageOf(ts[k]) && rest[1..] == ImagesOf(ts)[k + 1..];
    hide ImagesOf, SameKey;
  }

  lemma NameAtEnd(images: seq<Doc>, k: nat, name: string, caseSensitive: bool)
    requires k == |images|
    ensures FirstNamed(images[k..], name, caseSensitive) == 0
  {
  }

  lemma FindNone(images: seq<Doc>, caseSensitive: bool)
    ensures FindName(images, None, caseSensitive) == |images|
  {
  }

  lemma FindIsFirst(images: seq<Doc>, name: string, caseSensitive: bool)
    ensures FindName(images, Some(name), caseSensitive) == FirstNamed(images, name, caseSensitive)
  {
  }

  /** get_object_item: walks the children up to the first with that name. */
  method FindItem(parent: Node?, name: Option<string>, caseSensitive: bool, ghost ts: seq<Tree>)
    returns (found: Node?, ghost k: nat)
    requires parent != null ==> ListOf(parent, Roots(ts))
    ensures parent == null ==> found == null
    ensures parent != null ==> k == FindName(ImagesOf(ts), name, caseSensitive) && found == Cursor(Roots(ts), k)
  {
    hide *;
    found, k := null, |ts|;
    FindNone(ImagesOf(ts), caseSensitive);
    assert allocated(Roots(ts)) && allocated(Below(ts));
    if parent == null || name == None {
      return;
    }
    ghost var images := ImagesOf(ts);
    Start(parent, Roots(ts));
    var current := parent.child;
    k := 0;
    assert images[0..] == images;
    while current != null && !IsNamed(current, name.value, caseSensitive)
      invariant k <= |ts| && current == Cursor(Roots(ts), k)
      invariant ListOf(parent, Roots(ts)) && ImagesOf(ts) == images
      invariant FirstNamed(images, name.value, caseSensitive) == k + FirstNamed(images[k..], name.value, caseSensitive)
      decreases |ts| - k
    {
      NameAt(ts, k, name.value, caseSensitive);
      if caseSensitive && current.payload.name == None {
        break;
      }
      Advance(parent, Roots(ts), k);
      current := current.next;
      k := k + 1;
    }
    FindIsFirst(images, name.value, caseSensitive);
    if current == null {
      NameAtEnd(images, k, name.value, caseSensitive);
      return;
    }
    NameAt(ts, k, name.value, caseSensitive);
    if current.payload.name == None {
      k := |ts|;
      return;
    }
    found := current;
  }

  /** The parts of the images of a tree. */
  lemma ImageParts(t: Tree)
    ensures ImageOf(t) == Doc(t.node, t.node.payload, ImagesOf(t.children))
  {
  }

  lemma SameIs(a: Doc, b: Doc, caseSensitive: bool)
    ensures Same(a, b, caseSensitive) <==>
              && a.payload.kind == b.payload.kind && IsKind(a.payload.kind)
              && ((a.node != null && a.node == b.node) || SameContents(a, b, caseSensitive))
  {
    hide SameContents;
  }

  lemma ContentsAre(a: Doc, b: Doc, caseSensitive: bool)
    ensures var k := a.payload.kind;
            SameContents(a, b, caseSensitive) <==>
            if k == NUMBER_KIND then SameDouble(a.payload.valueDouble, b.payload.valueDouble)
            else if HoldsText(k) then a.payload.valueString.Some? && a.payload.valueString == b.payload.valueString
            else if k == ARRAY_KIND then
              |a.children| == |b.children| && SameItems(a.children, b.children, |a.children|, caseSensitive)
            else if k == OBJECT_KIND then
              && MembersFound(a.children, b.children, |a.children|, caseSensitive)
              && MembersFound(b.children, a.children, |b.children|, caseSensitive)
            else true
  {
    hide SameItems, MembersFound, SameDouble;
  }

  /** cJSON_Compare as the source computes it, on trees that may have nodes in common. */
  method CompareNodes(a: Node?, b: Node?, caseSensitive: bool, ghost t: Tree, ghost u: Tree) returns (equal: bool)
    requires (a != null ==> t.node == a && Holds(t)) && (b != null ==> u.node == b && Holds(u))
    ensures equal <==> a != null && b != null && Same(ImageOf(t), ImageOf(u), caseSensitive)
    decreases Levels(t) + Levels(u), 2
  {
    hide *;
    if a != null && b != null {
      ImageParts(t);
      ImageParts(u);
      SameIs(ImageOf(t), ImageOf(u), caseSensitive);
    }
    if a == null || b == null || a.payload.kind != b.payload.kind || !IsKind(a.payload.kind) {
      return false;
    }
    if a == b {
      return true;
    }
    assert allocated(Inner(t)) && allocated(Inner(u));
    equal := CompareContents(a, b, caseSensitive, t, u);
  }

  /** The switch over the kind of the nodes. */
  method CompareContents(a: Node, b: Node, caseSensitive: bool, ghost t: Tree, ghost u: Tree) returns (equal: bool)
    requires t.node == a && Holds(t) && u.node == b && Holds(u)
    ensures equal <==> SameContents(ImageOf(t), ImageOf(u), caseSensitive)
    decreases Levels(t) + Levels(u), 1
  {
    hide *;
    assert allocated(Inner(t)) && allocated(Inner(u));
    ghost var x, y := ImageOf(t), ImageOf(u);
    ImageParts(t);
    ImageParts(u);
    ContentsAre(x, y, caseSensitive);
    PartsOf(t);
    PartsOf(u);
    var k := a.payload.kind;
    if k == NUMBER_KIND {
      equal := SameDouble(a.payload.valueDouble, b.payload.valueDouble);
    } else if HoldsText(k) {
      equal := a.payload.valueString.Some? && a.payload.valueString == b.payload.valueString;
    } else if k == ARRAY_KIND {
      assert allocated(Roots(t.children)) && allocated(Below(t.children));
      assert allocated(Roots(u.children)) && allocated(Below(u.children));
      equal := CompareElements(a, b, caseSensitive, t.children, u.children);
    } else if k == OBJECT_KIND {
      assert allocated(Roots(t.children)) && allocated(Below(t.children));
      assert allocated(Roots(u.children)) && allocated(Below(u.children));
      equal := CompareMembers(a, b, caseSensitive, t.children, u.children);
      PartsOf(t);
      PartsOf(u);
      if equal {
        equal := CompareMembers(b, a, caseSensitive, u.children, t.children);
      }
    } else {
      equal := true;
    }
    ImageParts(t);
    ImageParts(u);
  }

  lemma ItemsAre(xs: seq<Doc>, ys: seq<Doc>, n: nat, caseSensitive: bool)
    requires n <= |xs| && n <= |ys|
    ensures SameItems(xs, ys, n, caseSensitive) <==> forall i :: 0 <= i < n ==> Same(xs[i], ys[i], caseSensitive)
  {
    hide Same;
  }

  lemma MembersAre(ms: seq<Doc>, ns: seq<Doc>, n: nat, caseSensitive: bool)
    requires n <= |ms|
    ensures MembersFound(ms, ns, n, caseSensitive) <==> forall i :: 0 <= i < n ==> MemberFound(ms[i], ns, caseSensitive)
  {
    hide MemberFound;
  }

  lemma MemberIs(m: Doc, ns: seq<Doc>, caseSensitive: bool)
    ensures var k := FindName(ns, m.payload.name, caseSensitive);
            MemberFound(m, ns, caseSensitive) <==> k < |ns| && Same(m, ns[k], caseSensitive)
  {
    hide Same, FindName;
  }

  lemma NoItems(xs: seq<Doc>, ys: seq<Doc>, caseSensitive: bool)
    ensures SameItems(xs, ys, 0, caseSensitive) && MembersFound(xs, ys, 0, caseSensitive)
  {
  }

  lemma ItemStep(xs: seq<Doc>, ys: seq<Doc>, i: nat, caseSensitive: bool)
    requires i < |xs| && i < |ys| && SameItems(xs, ys, i, caseSensitive)
    ensures SameItems(xs, ys, i + 1, caseSensitive) <==> Same(xs[i], ys[i], caseSensitive)
    ensures |xs| == |ys| && SameItems(xs, ys, |xs|, caseSensitive) ==> Same(xs[i], ys[i], caseSensitive)
  {
    hide Same;
  }

  lemma MemberStep(ms: seq<Doc>, ns: seq<Doc>, i: nat, caseSensitive: bool)
    requires i < |ms| && MembersFound(ms, ns, i, caseSensitive)
    ensures var k := FindName(ns, ms[i].payload.name, caseSensitive);
            && (MembersFound(ms, ns, i + 1, caseSensitive) <==> k < |ns| && Same(ms[i], ns[k], caseSensitive))
            && (MembersFound(ms, ns, |ms|, caseSensitive) ==> k < |ns| && Same(ms[i], ns[k], caseSensitive))
  {
    hide Same, FindName;
  }

  /** Element by element, until two differ or one array ends. */
  method CompareElements(a: Node, b: Node, caseSensitive: bool, ghost ts: seq<Tree>, ghost us: seq<Tree>) returns (equal: bool)
    requires ListOf(a, Roots(ts)) && HoldsAll(ts) && ListOf(b, Roots(us)) && HoldsAll(us)
    ensures equal <==> |ts| == |us| && SameItems(ImagesOf(ts), ImagesOf(us), |ts|, caseSensitive)
    decreases LevelsOf(ts) + LevelsOf(us), 0
  {
    hide *;
    assert allocated(All(ts)) && allocated(All(us)) && allocated(Roots(ts)) && allocated(Roots(us));
    assert allocated(Below(ts)) && allocated(Below(us));
    ghost var xs, ys := ImagesOf(ts), ImagesOf(us);
    Start(a, Roots(ts));
    Start(b, Roots(us));
    NoItems(xs, ys, caseSensitive);
    var x, y := a.child, b.child;
    ghost var i: nat := 0;
    while x != null && y != null
      invariant i <= |ts| && i <= |us| && x == Cursor(Roots(ts), i) && y == Cursor(Roots(us), i)
      invariant ListOf(a, Roots(ts)) && HoldsAll(ts) && ImagesOf(ts) == xs
      invariant ListOf(b, Roots(us)) && HoldsAll(us) && ImagesOf(us) == ys
      invariant SameItems(xs, ys, i, caseSensitive)
      decreases |ts| - i
    {
      ElementAt(ts, i);
      ElementAt(us, i);
      Advance(a, Roots(ts), i);
      Advance(b, Roots(us), i);
      ItemStep(xs, ys, i, caseSensitive);
      assert allocated(Inner(ts[i])) && allocated(Inner(us[i]));
      var same := CompareNodes(x, y, caseSensitive, ts[i], us[i]);
      if !same {
        return false;
      }
      x, y := x.next, y.next;
      i := i + 1;
    }
    equal := x == y;
  }

  /** One child of one object is looked up in the other and compared with what is found. */
  method CompareMember(x: Node, b: Node, caseSensitive: bool, ghost t: Tree, ghost us: seq<Tree>) returns (found: bool)
    requires t.node == x && Holds(t) && ListOf(b, Roots(us)) && HoldsAll(us)
    ensures var k := FindName(ImagesOf(us), x.payload.name, caseSensitive);
            found <==> k < |us| && Same(ImageOf(t), ImagesOf(us)[k], caseSensitive)
    decreases Levels(t) + LevelsOf(us), 2
  {
    hide *;
    assert allocated(Roots(us)) && allocated(Below(us)) && allocated(Inner(t));
    ghost var m, ns := ImageOf(t), ImagesOf(us);
    ghost var k;
    var y: Node?;
    y, k := FindItem(b, x.payload.name, caseSensitive, us);
    if y == null {
      return false;
    }
    ElementAt(us, k);
    assert allocated(Inner(us[k]));
    found := CompareNodes(x, y, caseSensitive, t, us[k]);
  }

  /** Every child of one object is looked up in the other. */
  method CompareMembers(a: Node, b: Node, caseSensitive: bool, ghost ts: seq<Tree>, ghost us: seq<Tree>) returns (found: bool)
    requires ListOf(a, Roots(ts)) && HoldsAll(ts) && ListOf(b, Roots(us)) && HoldsAll(us)
    ensures found <==> MembersFound(ImagesOf(ts), ImagesOf(us), |ts|, caseSensitive)
    decreases LevelsOf(ts) + LevelsOf(us), 0
  {
    hide *;
    assert allocated(All(ts)) && allocated(All(us)) && allocated(Roots(ts)) && allocated(Roots(us));
    assert allocated(Below(ts)) && allocated(Below(us));
    ghost var ms, ns := ImagesOf(ts), ImagesOf(us);
    Start(a, Roots(ts));
    NoItems(ms, ns, caseSensitive);
    var x := a.child;
    ghost var i: nat := 0;
    while x != null
      invariant i <= |ts| && x == Cursor(Roots(ts), i)
      invariant ListOf(a, Roots(ts)) && HoldsAll(ts) && ImagesOf(ts) == ms
      invariant ListOf(b, Roots(us)) && HoldsAll(us) && ImagesOf(us) == ns
      invariant MembersFound(ms, ns, i, caseSensitive)
      decreases |ts| - i
    {
      ElementAt(ts, i);
      MemberStep(ms, ns, i, caseSensitive);
      Advance(a, Roots(ts), i);
      assert allocated(Inner(ts[i]));
      found := CompareMember(x, b, caseSensitive, ts[i], us);
      if !found {
        return;
      }
      x := x.next;
      i := i + 1;
    }
    found := true;
  }

  /** A tree among others: it holds, has fewer levels, and its image stands at its position. */
  lemma ElementAt(ts: seq<Tree>, i: nat)
    requires HoldsAll(ts) && i < |ts|
    ensures Holds(ts[i]) && Levels(ts[i]) < LevelsOf(ts) && ImagesOf(ts)[i] == ImageOf(ts[i])
    ensures ImageOf(ts[i]).payload == ts[i].node.payload && Roots(ts)[i] == ts[i].node
  {
    hide *;
    ImagesAt(ts, i);
    ImageParts(ts[i]);
    StepOf(ts, i);
    PrefixIsLower(ts, i + 1);
    MaxIs(1 + Levels(ts[i]), LevelsOf(ts[..i]));
  }

  lemma MaxIs(a: nat, b: nat)
    ensures Max(a, b) >= a
  {
  }

  /** The child is called that, with or without regard to case. */
  ghost predicate IsCalled(d: Doc, name: string, caseSensitive: bool) {
    d.payload.name.Some? && SameName(name, d.payload.name.value, caseSensitive)
  }

  /**
   What get_object_item finds: the first child of that name and, if it finds none, there is none, unless the
   search with regard to case ended at a child without a name.
   */
  lemma FoundIsFirstOfName(ds: seq<Doc>, name: string, caseSensitive: bool)
    ensures FindName(ds, None, caseSensitive) == |ds|
    ensures var k := FindName(ds, Some(name), caseSensitive);
            && (k < |ds| ==> IsCalled(ds[k], name, caseSensitive))
            && (forall j :: 0 <= j < k && IsCalled(ds[j], name, caseSensitive) ==>
                  k == |ds| && caseSensitive && exists i :: 0 <= i < j && ds[i].payload.name.None?)
  {
    FirstIsCalled(ds, name, caseSensitive);
  }

  lemma {:induction false} FirstIsCalled(ds: seq<Doc>, name: string, caseSensitive: bool)
    ensures var k := FirstNamed(ds, name, caseSensitive);
            && (k < |ds| ==> IsCalled(ds[k], name, caseSensitive))
            && (forall j :: 0 <= j < k && IsCalled(ds[j], name, caseSensitive) ==>
                  k == |ds| && caseSensitive && exists i :: 0 <= i < j && ds[i].payload.name.None?)
  {
    if ds != [] {
      FirstIsCalled(ds[1..], name, caseSensitive);
      if ds[0].payload.name.Some? {
        SameKeyIsSameName(name, ds[0].payload.name.value, caseSensitive);
      }
      hide SameKey, SameName;
      var k := FirstNamed(ds, name, caseSensitive);
      forall j | 0 <= j < k && IsCalled(ds[j], name, caseSensitive)
        ensures k == |ds| && caseSensitive && exists i :: 0 <= i < j && ds[i].payload.name.None?
      {
        if j > 0 && ds[0].payload.name.Some? {
          assert ds[1..][j - 1] == ds[j];
          var i :| 0 <= i < j - 1 && ds[1..][i].payload.name.None?;
          assert ds[i + 1].payload.name.None?;
        }
      }
    }
  }

  // ---- Symmetry ----

  lemma DepthIs(d: Doc)
    ensures Depth(d) == DepthOf(d.children)
  {
  }

  /** cJSON_Compare is symmetric on all nodes, whatever they lack or share. */
  lemma {:induction false} SameIsSymmetric(a: Doc, b: Doc, caseSensitive: bool)
    ensures Same(a, b, caseSensitive) == Same(b, a, caseSensitive)
    decreases Depth(a) + Depth(b)
  {
    hide *;
    SameIs(a, b, caseSensitive);
    SameIs(b, a, caseSensitive);
    ContentsAre(a, b, caseSensitive);
    ContentsAre(b, a, caseSensitive);
    SameDoubleIsSymmetric(a.payload.valueDouble, b.payload.valueDouble);
    var xs, ys := a.children, b.children;
    if |xs| == |ys| {
      ItemsAre(xs, ys, |xs|, caseSensitive);
      ItemsAre(ys, xs, |xs|, caseSensitive);
      DepthIs(a);
      DepthIs(b);
      forall i | 0 <= i < |xs|
        ensures Same(xs[i], ys[i], caseSensitive) == Same(ys[i], xs[i], caseSensitive)
      {
        DepthOfChild(xs, i);
        DepthOfChild(ys, i);
        SameIsSymmetric(xs[i], ys[i], caseSensitive);
      }
    }
  }

  lemma SameDoubleIsSymmetric(a: Double, b: Double)
    ensures SameDouble(a, b) == SameDouble(b, a)
  {
    if a.Finite? && b.Finite? {
      CompareDoubleIsSymmetric(a.value, b.value);
    }
  }

  // ---- Trees without nodes in common ----

  /** What is left when the nodes and the marks of references are forgotten. */
  function Forget(d: Doc): Doc {
    Doc(null, Unmarked(d.payload), ForgetAll(d.children))
  }

  function ForgetAll(ds: seq<Doc>): (forgotten: seq<Doc>)
    ensures |forgotten| == |ds| && forall i :: 0 <= i < |ds| ==> forgotten[i] == Forget(ds[i])
  {
    seq(|ds|, i requires 0 <= i < |ds| => Forget(ds[i]))
  }

  function NodesOf(d: Doc): set<Node>
    decreases d
  {
    (if d.node == null then {} else {d.node}) + NodesOfAll(d.children)
  }

  function NodesOfAll(ds: seq<Doc>): set<Node>
    decreases ds
  {
    if ds == [] then {} else NodesOfAll(ds[..|ds| - 1]) + NodesOf(ds[|ds| - 1])
  }

  lemma {:induction false} NodesOfChild(ds: seq<Doc>, i: nat)
    requires i < |ds|
    ensures NodesOf(ds[i]) <= NodesOfAll(ds)
    decreases |ds|
  {
    if i < |ds| - 1 {
      NodesOfChild(ds[..|ds| - 1], i);
    }
  }

  lemma {:induction false} FindForgets(ds: seq<Doc>, name: string, caseSensitive: bool)
    ensures FirstNamed(ForgetAll(ds), name, caseSensitive) == FirstNamed(ds, name, caseSensitive)
  {
    if ds != [] {
      assert ForgetAll(ds)[1..] == ForgetAll(ds[1..]);
      FindForgets(ds[1..], name, caseSensitive);
    }
  }

  lemma FindNameForgets(ds: seq<Doc>, name: Option<string>, caseSensitive: bool)
    ensures FindName(ForgetAll(ds), name, caseSensitive) == FindName(ds, name, caseSensitive)
  {
    if name.Some? {
      FindForgets(ds, name.value, caseSensitive);
    }
  }

  lemma ForgetIs(d: Doc)
    ensures var f := Forget(d);
            && f.node == null && f.payload.kind == d.payload.kind && f.payload.name == d.payload.name
            && f.payload.valueString == d.payload.valueString && f.payload.valueDouble == d.payload.valueDouble
            && f.children == ForgetAll(d.children) && Depth(d) == DepthOf(d.children)
            && NodesOf(d) == (if d.node == null then {} else {d.node}) + NodesOfAll(d.children)
  {
    hide ForgetAll, NodesOfAll, DepthOf;
  }

  /** Without nodes in common only what the trees say matters. */
  lemma {:induction false} ApartIsForgotten(a: Doc, b: Doc, caseSensitive: bool)
    requires NodesOf(a) !! NodesOf(b)
    ensures Same(a, b, caseSensitive) == Same(Forget(a), Forget(b), caseSensitive)
    decreases Depth(a) + Depth(b), 1
  {
    hide *;
    var x, y := Forget(a), Forget(b);
    ForgetIs(a);
    ForgetIs(b);
    SameIs(a, b, caseSensitive);
    SameIs(x, y, caseSensitive);
    ContentsAre(a, b, caseSensitive);
    ContentsAre(x, y, caseSensitive);
    ItemsAreForgotten(a.children, b.children, caseSensitive);
    MembersAreForgotten(a.children, b.children, caseSensitive);
    MembersAreForgotten(b.children, a.children, caseSensitive);
  }

  lemma {:induction false} ItemsAreForgotten(xs: seq<Doc>, ys: seq<Doc>, caseSensitive: bool)
    requires NodesOfAll(xs) !! NodesOfAll(ys)
    ensures |xs| == |ys| ==>
              SameItems(xs, ys, |xs|, caseSensitive) == SameItems(ForgetAll(xs), ForgetAll(ys), |xs|, caseSensitive)
    decreases DepthOf(xs) + DepthOf(ys), 0
  {
    hide *;
    if |xs| == |ys| {
      ItemsAre(xs, ys, |xs|, caseSensitive);
      ItemsAre(ForgetAll(xs), ForgetAll(ys), |xs|, caseSensitive);
      forall i | 0 <= i < |xs|
        ensures Same(xs[i], ys[i], caseSensitive) == Same(ForgetAll(xs)[i], ForgetAll(ys)[i], caseSensitive)
      {
        DepthOfChild(xs, i);
        DepthOfChild(ys, i);
        NodesOfChild(xs, i);
        NodesOfChild(ys, i);
        ApartIsForgotten(xs[i], ys[i], caseSensitive);
      }
    }
  }

  lemma {:induction false} MembersAreForgotten(ms: seq<Doc>, ns: seq<Doc>, caseSensitive: bool)
    requires NodesOfAll(ms) !! NodesOfAll(ns)
    ensures MembersFound(ms, ns, |ms|, caseSensitive) == MembersFound(ForgetAll(ms), ForgetAll(ns), |ms|, caseSensitive)
    decreases DepthOf(ms) + DepthOf(ns), 0
  {
    hide *;
    MembersAre(ms, ns, |ms|, caseSensitive);
    MembersAre(ForgetAll(ms), ForgetAll(ns), |ms|, caseSensitive);
    forall i | 0 <= i < |ms|
      ensures MemberFound(ms[i], ns, caseSensitive) == MemberFound(ForgetAll(ms)[i], ForgetAll(ns), caseSensitive)
    {
      MemberIs(ms[i], ns, caseSensitive);
      MemberIs(ForgetAll(ms)[i], ForgetAll(ns), caseSensitive);
      ForgetIs(ms[i]);
      FindNameForgets(ns, ms[i].payload.name, caseSensitive);
      var k := FindName(ns, ms[i].payload.name, caseSensitive);
      if k < |ns| {
        DepthOfChild(ms, i);
        DepthOfChild(ns, k);
        NodesOfChild(ms, i);
        NodesOfChild(ns, k);
        ApartIsForgotten(ms[i], ns[k], caseSensitive);
      }
    }
  }

  // ---- What is the same as its copy ----

  /**
   Every node has a valid kind, numbers are finite, strings have a value and members a name; a member whose
   name was there before is the same as the first one of that name instead.
   */
  predicate Comparable(d: Doc, caseSensitive: bool)
    decreases d, 0
  {
    var k := d.payload.kind;
    && IsKind(k) && (k == NUMBER_KIND ==> d.payload.valueDouble.Finite?)
    && (HoldsText(k) ==> d.payload.valueString.Some?)
    && (k == ARRAY_KIND ==> AllComparable(d.children, caseSensitive))
    && (k == OBJECT_KIND ==> AllSettled(d.children, caseSensitive))
  }

  predicate AllComparable(ds: seq<Doc>, caseSensitive: bool)
    decreases ds, 1
  {
    forall i :: 0 <= i < |ds| ==> Comparable(ds[i], caseSensitive)
  }

  predicate AllSettled(ms: seq<Doc>, caseSensitive: bool)
    decreases ms, 1
  {
    forall i :: 0 <= i < |ms| ==> Settled(ms[i], i, ms, caseSensitive)
  }

  predicate Settled(m: Doc, i: nat, ms: seq<Doc>, caseSensitive: bool)
    decreases m, 1
  {
    && m.payload.name.Some?
    && var first := FirstNamed(ms, m.payload.name.value, caseSensitive);
       if first == i then Comparable(m, caseSensitive) else first < |ms| && Same(m, ms[first], caseSensitive)
  }

  lemma ComparableIs(d: Doc, caseSensitive: bool)
    ensures var k := d.payload.kind;
            Comparable(d, caseSensitive) <==>
              && IsKind(k) && (k == NUMBER_KIND ==> d.payload.valueDouble.Finite?)
              && (HoldsText(k) ==> d.payload.valueString.Some?)
              && (k == ARRAY_KIND ==> AllComparable(d.children, caseSensitive))
              && (k == OBJECT_KIND ==> AllSettled(d.children, caseSensitive))
  {

  }

  lemma AllComparableAre(ds: seq<Doc>, caseSensitive: bool)
    ensures AllComparable(ds, caseSensitive) <==> forall i :: 0 <= i < |ds| ==> Comparable(ds[i], caseSensitive)
  {
    hide Comparable;
  }

  lemma AllSettledAre(ms: seq<Doc>, caseSensitive: bool)
    ensures AllSettled(ms, caseSensitive) <==> forall i :: 0 <= i < |ms| ==> Settled(ms[i], i, ms, caseSensitive)
  {
    hide Settled;
  }

  lemma SettledIs(ms: seq<Doc>, i: nat, caseSensitive: bool)
    requires i < |ms|
    ensures var first := FindName(ms, ms[i].payload.name, caseSensitive);
            Settled(ms[i], i, ms, caseSensitive) <==>
            first < |ms| && if first == i then Comparable(ms[i], caseSensitive) else Same(ms[i], ms[first], caseSensitive)
  {
    hide Same, Comparable, FirstNamed;
  }

  lemma SelfSameDouble(x: Double)
    ensures SameDouble(x, x) <==> x.Finite?
  {
    if x.Finite? {
      assert Abs(x.value) * DBL_EPSILON >= 0.0;
    }
  }

  lemma KindsDiffer(k: nat)
    ensures k == NUMBER_KIND ==> !HoldsText(k) && k != ARRAY_KIND && k != OBJECT_KIND
    ensures HoldsText(k) <==> k == STRING_KIND || k == RAW_KIND
    ensures HoldsText(k) ==> k != ARRAY_KIND && k != OBJECT_KIND
    ensures k == ARRAY_KIND ==> k != OBJECT_KIND
  {
  }

  /** Contents that are kept in other nodes are the same if and only if they are comparable. */
  lemma {:induction false} SameAsItself(d: Doc, caseSensitive: bool)
    requires NodesOf(d) == {}
    ensures Same(d, d, caseSensitive) <==> Comparable(d, caseSensitive)
    decreases d
  {
    hide *;
    var ds := d.children;
    ForgetIs(d);
    SameIs(d, d, caseSensitive);
    ContentsAre(d, d, caseSensitive);
    ComparableIs(d, caseSensitive);
    KindsDiffer(d.payload.kind);
    SelfSameDouble(d.payload.valueDouble);
    ItemsAre(ds, ds, |ds|, caseSensitive);
    MembersAre(ds, ds, |ds|, caseSensitive);
    AllComparableAre(ds, caseSensitive);
    AllSettledAre(ds, caseSensitive);
    forall i | 0 <= i < |ds|
      ensures Same(ds[i], ds[i], caseSensitive) <==> Comparable(ds[i], caseSensitive)
      ensures MemberFound(ds[i], ds, caseSensitive) <==> Settled(ds[i], i, ds, caseSensitive)
    {
      NodesOfChild(ds, i);
      SameAsItself(ds[i], caseSensitive);
      MemberIs(ds[i], ds, caseSensitive);
      SettledIs(ds, i, caseSensitive);
    }
  }

  /** What a caller can see without comparing: valid kinds, finite numbers, values of strings, names of members. */
  predicate Complete(d: Doc)
    decreases d
  {
    var k := d.payload.kind;
    && IsKind(k) && (k == NUMBER_KIND ==> d.payload.valueDouble.Finite?)
    && (HoldsText(k) ==> d.payload.valueString.Some?)
    && (k == ARRAY_KIND || k == OBJECT_KIND ==>
          forall i :: 0 <= i < |d.children| ==>
            Complete(d.children[i]) && (k == OBJECT_KIND ==> d.children[i].payload.name.Some?))
  }

  /** No object has two members of one name. */
  predicate NoRepeats(d: Doc, caseSensitive: bool)
    decreases d
  {
    && (d.payload.kind == OBJECT_KIND ==> NamesDiffer(d.children, caseSensitive))
    && forall i :: 0 <= i < |d.children| ==> NoRepeats(d.children[i], caseSensitive)
  }

  predicate NamesDiffer(ms: seq<Doc>, caseSensitive: bool) {
    forall i, j :: 0 <= i < j < |ms| && ms[j].payload.name.Some? ==> !HasName(ms[i], ms[j].payload.name.value, caseSensitive)
  }

  lemma CompleteIs(d: Doc)
    ensures var k := d.payload.kind;
            Complete(d) <==>
              && IsKind(k) && (k == NUMBER_KIND ==> d.payload.valueDouble.Finite?)
              && (HoldsText(k) ==> d.payload.valueString.Some?)
              && (k == ARRAY_KIND || k == OBJECT_KIND ==>
                    forall i :: 0 <= i < |d.children| ==>
                      Complete(d.children[i]) && (k == OBJECT_KIND ==> d.children[i].payload.name.Some?))
  {
  }

  lemma NoRepeatsIs(d: Doc, caseSensitive: bool)
    requires NoRepeats(d, caseSensitive)
    ensures d.payload.kind == OBJECT_KIND ==> NamesDiffer(d.children, caseSensitive)
    ensures forall i :: 0 <= i < |d.children| ==> NoRepeats(d.children[i], caseSensitive)
  {
    hide NamesDiffer;
  }

  lemma {:induction false} OwnNameIsFirst(ms: seq<Doc>, i: nat, caseSensitive: bool)
    requires NamesDiffer(ms, caseSensitive) && i < |ms| && forall j :: 0 <= j <= i ==> ms[j].payload.name.Some?
    ensures FirstNamed(ms, ms[i].payload.name.value, caseSensitive) == i
    decreases i
  {
    if i > 0 {
      assert !HasName(ms[0], ms[i].payload.name.value, caseSensitive);
      assert ms[1..][i - 1] == ms[i];
      forall j, k | 0 <= j < k < |ms| - 1 && ms[1..][k].payload.name.Some?
        ensures !HasName(ms[1..][j], ms[1..][k].payload.name.value, caseSensitive)
      {
        assert ms[1..][j] == ms[j + 1] && ms[1..][k] == ms[k + 1];
      }
      OwnNameIsFirst(ms[1..], i - 1, caseSensitive);
    }
  }

  /** Where no name is repeated, trees are comparable if and only if nothing is missing in them. */
  lemma {:induction false} ComparableExactlyWhenComplete(d: Doc, caseSensitive: bool)
    requires NoRepeats(d, caseSensitive)
    ensures Comparable(d, caseSensitive) <==> Complete(d)
    decreases d
  {
    hide *;
    var ds := d.children;
    ComparableIs(d, caseSensitive);
    CompleteIs(d);
    KindsDiffer(d.payload.kind);
    NoRepeatsIs(d, caseSensitive);
    AllComparableAre(ds, caseSensitive);
    AllSettledAre(ds, caseSensitive);
    forall i | 0 <= i < |ds|
      ensures Comparable(ds[i], caseSensitive) <==> Complete(ds[i])
    {
      ComparableExactlyWhenComplete(ds[i], caseSensitive);
    }
    if d.payload.kind == OBJECT_KIND {
      MembersSettle(ds, caseSensitive);
    }
  }

  lemma MembersSettle(ms: seq<Doc>, caseSensitive: bool)
    requires NamesDiffer(ms, caseSensitive)
    ensures (forall i :: 0 <= i < |ms| ==> Settled(ms[i], i, ms, caseSensitive)) <==>
            forall i :: 0 <= i < |ms| ==> Comparable(ms[i], caseSensitive) && ms[i].payload.name.Some?
  {
    hide *;
    forall i | 0 <= i < |ms|
      ensures Settled(ms[i], i, ms, caseSensitive) ==> ms[i].payload.name.Some?
    {
      SettledHasName(ms, i, caseSensitive);
    }
    if forall i :: 0 <= i < |ms| ==> ms[i].payload.name.Some? {
      forall i | 0 <= i < |ms|
        ensures Settled(ms[i], i, ms, caseSensitive) <==> Comparable(ms[i], caseSensitive)
      {
        OwnNameIsFirst(ms, i, caseSensitive);
        FindIsFirst(ms, ms[i].payload.name.value, caseSensitive);
        SettledIs(ms, i, caseSensitive);
      }
    }
  }

  lemma SettledHasName(ms: seq<Doc>, i: nat, caseSensitive: bool)
    requires i < |ms|
    ensures Settled(ms[i], i, ms, caseSensitive) ==> ms[i].payload.name.Some?
  {
    hide Comparable, Same;
  }

  // ---- The copy and its source ----

  lemma {:induction false} ImageIsDoc(t: Tree)
    ensures Forget(ImageOf(t)) == DocOf(t) && NodesOf(ImageOf(t)) == {t.node} + Inner(t)
    decreases t, 0
  {
    ImagesAreDocs(t.children);
    hide ForgetAll, NodesOfAll, ImagesOf, DocsOf, Below;
  }

  lemma {:induction false} ImagesAreDocs(ts: seq<Tree>)
    ensures ForgetAll(ImagesOf(ts)) == DocsOf(ts) && NodesOfAll(ImagesOf(ts)) == All(ts)
    decreases ts, 1
  {
    if ts != [] {
      var front, last := ts[..|ts| - 1], ts[|ts| - 1];
      ImagesAreDocs(front);
      ImageIsDoc(last);
      RootsOfFront(ts);
      assert ImagesOf(ts)[..|ts| - 1] == ImagesOf(front);
      hide Forget, NodesOf, Inner;
    }
  }

  /** A copy in other nodes compares equal to its source if and only if the source is comparable. */
  lemma CopyComparesEqual(t: Tree, c: Tree, caseSensitive: bool)
    requires DocOf(c) == DocOf(t) && ({t.node} + Inner(t)) !! ({c.node} + Inner(c))
    ensures Same(ImageOf(t), ImageOf(c), caseSensitive) <==> Comparable(DocOf(t), caseSensitive)
  {
    hide *;
    ImageIsDoc(t);
    ImageIsDoc(c);
    ApartIsForgotten(ImageOf(t), ImageOf(c), caseSensitive);
    ForgottenHasNoNodes(ImageOf(t));
    SameAsItself(DocOf(t), caseSensitive);
  }

  lemma {:induction false} ForgottenHasNoNodes(d: Doc)
    ensures NodesOf(Forget(d)) == {}
    decreases d, 0
  {
    AllForgottenHaveNoNodes(d.children);
    hide ForgetAll, NodesOfAll;
  }

  lemma {:induction false} AllForgottenHaveNoNodes(ds: seq<Doc>)
    ensures NodesOfAll(ForgetAll(ds)) == {}
    decreases ds, 1
  {
    if ds != [] {
      AllForgottenHaveNoNodes(ds[..|ds| - 1]);
      ForgottenHasNoNodes(ds[|ds| - 1]);
      assert ForgetAll(ds)[..|ds| - 1] == ForgetAll(ds[..|ds| - 1]);
      hide Forget;
    }
  }

  /** cJSON_Duplicate and cJSON_Compare of the result with the source. */
  method CompareWithDuplicate(item: Node, caseSensitive: bool, ghost t: Tree) returns (copied: bool, equal: bool)
    requires t.node == item && Holds(t)
    ensures copied <==> WithinLimit(0, Levels(t))
    ensures copied ==> (equal <==> Comparable(DocOf(t), caseSensitive))
  {
    hide *;
    assert allocated(Inner(t));
    copied, equal := false, false;
    ghost var c;
    var copy: Node?;
    copy, c := Duplicate(item, true, t);
    if copy != null {
      copied := true;
      CopyComparesEqual(t, c, caseSensitive);
      assert allocated(Inner(c));
      equal := CompareNodes(item, copy, caseSensitive, t, c);
    }
  }

  // ---- Trees that stand for JSON values ----

  /** Nothing is missing, and there is no raw text. */
  predicate Represents(d: Doc)
    decreases d
  {
    var k := d.payload.kind;
    && IsKind(k) && k != RAW_KIND && (k == NUMBER_KIND ==> d.payload.valueDouble.Finite?)
    && (k == STRING_KIND ==> d.payload.valueString.Some?)
    && (k == ARRAY_KIND || k == OBJECT_KIND ==>
          forall i :: 0 <= i < |d.children| ==>
            Represents(d.children[i]) && (k == OBJECT_KIND ==> d.children[i].payload.name.Some?))
  }

  function TextOf(s: Option<string>): string {
    if s.Some? then s.value else ""
  }

  /** The JSON value of a tree that represents one. */
  function ToJson(d: Doc): Json
    decreases d, 0
  {
    var k := d.payload.kind;
    if k == FALSE_KIND then JFalse
    else if k == TRUE_KIND then JTrue
    else if k == NUMBER_KIND then JNumber(if d.payload.valueDouble.Finite? then d.payload.valueDouble.value else 0.0)
    else if k == STRING_KIND then JString(TextOf(d.payload.valueString))
    else if k == ARRAY_KIND then JArray(ToItems(d.children))
    else if k == OBJECT_KIND then JObject(ToMembers(d.children))
    else JNull
  }

  function ToItems(ds: seq<Doc>): (items: seq<Json>)
    ensures |items| == |ds| && forall i :: 0 <= i < |ds| ==> items[i] == ToJson(ds[i])
    decreases ds
  {
    if ds == [] then [] else ToItems(ds[..|ds| - 1]) + [ToJson(ds[|ds| - 1])]
  }

  function ToMember(d: Doc): Member
    decreases d, 1
  {
    Member(TextOf(d.payload.name), ToJson(d))
  }

  function ToMembers(ds: seq<Doc>): (members: seq<Member>)
    ensures |members| == |ds| && forall i :: 0 <= i < |ds| ==> members[i] == ToMember(ds[i])
    decreases ds
  {
    if ds == [] then [] else ToMembers(ds[..|ds| - 1]) + [ToMember(ds[|ds| - 1])]
  }

  lemma RepresentsIs(d: Doc)
    ensures var k := d.payload.kind;
            Represents(d) <==>
              && IsKind(k) && k != RAW_KIND && (k == NUMBER_KIND ==> d.payload.valueDouble.Finite?)
              && (k == STRING_KIND ==> d.payload.valueString.Some?)
              && (k == ARRAY_KIND || k == OBJECT_KIND ==>
                    forall i :: 0 <= i < |d.children| ==>
                      Represents(d.children[i]) && (k == OBJECT_KIND ==> d.children[i].payload.name.Some?))
  {
  }

  lemma JsonIs(d: Doc)
    requires Represents(d)
    ensures var k, j := d.payload.kind, ToJson(d);
            && (k == FALSE_KIND <==> j == JFalse) && (k == TRUE_KIND <==> j == JTrue) && (k == NULL_KIND <==> j == JNull)
            && (k == NUMBER_KIND <==> j.JNumber?) && (j.JNumber? ==> d.payload.valueDouble == Finite(j.value))
            && (k == STRING_KIND <==> j.JString?) && (j.JString? ==> d.payload.valueString == Some(j.text))
            && (k == ARRAY_KIND <==> j.JArray?) && (j.JArray? ==> j.items == ToItems(d.children))
            && (k == OBJECT_KIND <==> j.JObject?) && (j.JObject? ==> j.members == ToMembers(d.children))
  {
    hide ToItems, ToMembers;
  }

  lemma ArraysCompare(xs: seq<Json>, ys: seq<Json>, caseSensitive: bool)
    ensures Compare(JArray(xs), JArray(ys), caseSensitive) <==>
            |xs| == |ys| && forall i :: 0 <= i < |xs| ==> Compare(xs[i], ys[i], caseSensitive)
  {
  }

  lemma ObjectsCompare(ms: seq<Member>, ns: seq<Member>, caseSensitive: bool)
    ensures Compare(JObject(ms), JObject(ns), caseSensitive) <==>
            && (forall i :: 0 <= i < |ms| ==> Found(ms[i], ns, caseSensitive))
            && (forall i :: 0 <= i < |ns| ==> Found(ns[i], ms, caseSensitive))
  {
    hide Found;
  }

  lemma FoundIs(m: Member, ns: seq<Member>, caseSensitive: bool)
    ensures var k := IndexOfKey(ns, m.key, caseSensitive);
            Found(m, ns, caseSensitive) <==> k < |ns| && Compare(m.value, ns[k].value, caseSensitive)
  {
    hide Compare, IndexOfKey;
  }

  lemma MembersOfTail(ds: seq<Doc>)
    requires ds != []
    ensures ToMembers(ds)[1..] == ToMembers(ds[1..]) && ToMembers(ds)[0] == ToMember(ds[0])
  {
    hide ToMember;
  }

  lemma {:induction false} FindIsIndex(ds: seq<Doc>, name: string, caseSensitive: bool)
    requires forall i :: 0 <= i < |ds| ==> ds[i].payload.name.Some?
    ensures FirstNamed(ds, name, caseSensitive) == IndexOfKey(ToMembers(ds), name, caseSensitive)
  {
    if ds != [] {
      MembersOfTail(ds);
      FindIsIndex(ds[1..], name, caseSensitive);
      hide ToMembers, SameKey;
    }
  }

  lemma PlainCompare(x: Json, y: Json, caseSensitive: bool)
    ensures (x.JNull? && y.JNull?) || (x.JFalse? && y.JFalse?) || (x.JTrue? && y.JTrue?) ==> Compare(x, y, caseSensitive)
    ensures x.JNumber? && y.JNumber? ==> (Compare(x, y, caseSensitive) <==> CompareDouble(x.value, y.value))
    ensures x.JString? && y.JString? ==> (Compare(x, y, caseSensitive) <==> x.text == y.text)
    ensures Compare(x, y, caseSensitive) ==>
              || (x.JNull? && y.JNull?) || (x.JFalse? && y.JFalse?) || (x.JTrue? && y.JTrue?)
              || (x.JNumber? && y.JNumber?) || (x.JString? && y.JString?)
              || (x.JArray? && y.JArray?) || (x.JObject? && y.JObject?)
  {
    hide CompareItems, FoundIn, CompareDouble;
  }

  lemma FiniteCompare(x: Double, y: Double)
    ensures x.Finite? && y.Finite? ==> (SameDouble(x, y) <==> CompareDouble(x.value, y.value))
  {
    hide CompareDouble;
  }

  /** For trees that represent JSON values cJSON_Compare is the comparison of these values. */
  lemma {:induction false} SameIsCompare(a: Doc, b: Doc, caseSensitive: bool)
    requires Represents(a) && Represents(b) && NodesOf(a) !! NodesOf(b)
    ensures Same(a, b, caseSensitive) <==> Compare(ToJson(a), ToJson(b), caseSensitive)
    decreases Depth(a) + Depth(b), 1
  {
    hide *;
    var x, y := ToJson(a), ToJson(b);
    ForgetIs(a);
    ForgetIs(b);
    JsonIs(a);
    JsonIs(b);
    RepresentsIs(a);
    RepresentsIs(b);
    SameIs(a, b, caseSensitive);
    ContentsAre(a, b, caseSensitive);
    KindsDiffer(a.payload.kind);
    PlainCompare(x, y, caseSensitive);
    FiniteCompare(a.payload.valueDouble, b.payload.valueDouble);
    if x.JArray? && y.JArray? {
      ItemsCompare(a.children, b.children, x.items, y.items, caseSensitive);
      ArraysCompare(x.items, y.items, caseSensitive);
    } else if x.JObject? && y.JObject? {
      MembersCompare(a.children, b.children, x.members, y.members, caseSensitive);
      MembersCompare(b.children, a.children, y.members, x.members, caseSensitive);
      ObjectsCompare(x.members, y.members, caseSensitive);
    }
  }

  lemma {:induction false} ItemsCompare(xs: seq<Doc>, ys: seq<Doc>, js: seq<Json>, ks: seq<Json>, caseSensitive: bool)
    requires NodesOfAll(xs) !! NodesOfAll(ys)
    requires |js| == |xs| && forall i :: 0 <= i < |xs| ==> Represents(xs[i]) && js[i] == ToJson(xs[i])
    requires |ks| == |ys| && forall i :: 0 <= i < |ys| ==> Represents(ys[i]) && ks[i] == ToJson(ys[i])
    ensures |xs| == |ys| ==>
              (SameItems(xs, ys, |xs|, caseSensitive) <==> forall i :: 0 <= i < |xs| ==> Compare(js[i], ks[i], caseSensitive))
    decreases DepthOf(xs) + DepthOf(ys), 0
  {
    hide *;
    if |xs| == |ys| {
      ItemsAre(xs, ys, |xs|, caseSensitive);
      forall i | 0 <= i < |xs|
        ensures Same(xs[i], ys[i], caseSensitive) <==> Compare(js[i], ks[i], caseSensitive)
      {
        DepthOfChild(xs, i);
        DepthOfChild(ys, i);
        NodesOfChild(xs, i);
        NodesOfChild(ys, i);
        SameIsCompare(xs[i], ys[i], caseSensitive);
      }
    }
  }

  lemma MemberIsNamed(d: Doc)
    requires d.payload.name.Some?
    ensures ToMember(d) == Member(d.payload.name.value, ToJson(d))
  {
    hide ToJson;
  }

  lemma {:induction false} MembersCompare(ms: seq<Doc>, ns: seq<Doc>, js: seq<Member>, ks: seq<Member>, caseSensitive: bool)
    requires NodesOfAll(ms) !! NodesOfAll(ns) && js == ToMembers(ms) && ks == ToMembers(ns)
    requires forall i :: 0 <= i < |ms| ==> Represents(ms[i]) && ms[i].payload.name.Some?
    requires forall i :: 0 <= i < |ns| ==> Represents(ns[i]) && ns[i].payload.name.Some?
    ensures MembersFound(ms, ns, |ms|, caseSensitive) <==> forall i :: 0 <= i < |ms| ==> Found(js[i], ks, caseSensitive)
    decreases DepthOf(ms) + DepthOf(ns), 0
  {
    hide *;
    MembersAre(ms, ns, |ms|, caseSensitive);
    forall i | 0 <= i < |ms|
      ensures MemberFound(ms[i], ns, caseSensitive) <==> Found(js[i], ks, caseSensitive)
    {
      var name := ms[i].payload.name.value;
      var k := FirstNamed(ns, name, caseSensitive);
      MemberIsNamed(ms[i]);
      MemberIs(ms[i], ns, caseSensitive);
      FoundIs(js[i], ks, caseSensitive);
      FindIsFirst(ns, name, caseSensitive);
      FindIsIndex(ns, name, caseSensitive);
      if k < |ns| {
        MemberIsNamed(ns[k]);
        DepthOfChild(ms, i);
        DepthOfChild(ns, k);
        NodesOfChild(ms, i);
        NodesOfChild(ns, k);
        SameIsCompare(ms[i], ns[k], caseSensitive);
      }
    }
  }

  /** Such a tree is comparable if and only if repeated names agree in its value. */
  lemma ComparableExactlyWhenRepeatsAgree(d: Doc, caseSensitive: bool)
    requires Represents(d) && NodesOf(d) == {}
    ensures Comparable(d, caseSensitive) <==> RepeatsAgree(ToJson(d), caseSensitive)
  {
    SameAsItself(d, caseSensitive);
    SameIsCompare(d, d, caseSensitive);
    DuplicateComparesEqual(ToJson(d), caseSensitive);
    hide *;
  }

  /** Only arrays and objects have children. */
  predicate Shaped(d: Doc)
    decreases d
  {
    (d.payload.kind == ARRAY_KIND || d.payload.kind == OBJECT_KIND || d.children == []) &&
    forall i :: 0 <= i < |d.children| ==> Shaped(d.children[i])
  }

  lemma HeightOfDoc(d: Doc)
    requires Shaped(d)
    ensures d.payload.kind == ARRAY_KIND ==> Height(ToJson(d)) == HeightOfItems(ToItems(d.children))
    ensures d.payload.kind == OBJECT_KIND ==> Height(ToJson(d)) == HeightOfMembers(ToMembers(d.children))
    ensures d.payload.kind != ARRAY_KIND && d.payload.kind != OBJECT_KIND ==> d.children == [] && Height(ToJson(d)) == 0
  {
    hide HeightOfItems, HeightOfMembers, ToItems, ToMembers;
  }

  lemma DocParts(t: Tree)
    ensures DocOf(t).children == DocsOf(t.children) && Levels(t) == LevelsOf(t.children)
    ensures DocOf(t).children == [] ==> LevelsOf(t.children) == 0
    ensures Shaped(DocOf(t)) ==> forall i :: 0 <= i < |t.children| ==> Shaped(DocsOf(t.children)[i])
  {
    hide DocsOf;
  }

  /** The levels that the copying counts are those of the JSON value. */
  lemma {:induction false} LevelsAreHeight(t: Tree)
    requires Shaped(DocOf(t))
    ensures Levels(t) == Height(ToJson(DocOf(t)))
    decreases t, 0
  {
    DocParts(t);
    hide *;
    LevelsOfChildren(t.children);
    HeightOfDoc(DocOf(t));
  }

  lemma {:induction false} LevelsOfChildren(ts: seq<Tree>)
    requires forall i :: 0 <= i < |ts| ==> Shaped(DocsOf(ts)[i])
    ensures LevelsOf(ts) == HeightOfItems(ToItems(DocsOf(ts))) == HeightOfMembers(ToMembers(DocsOf(ts)))
    decreases ts, 1
  {
    if ts != [] {
      var front, last := ts[..|ts| - 1], ts[|ts| - 1];
      assert DocsOf(ts)[..|ts| - 1] == DocsOf(front) && DocsOf(ts)[|ts| - 1] == DocOf(last);
      LevelsOfChildren(front);
      LevelsAreHeight(last);
      hide Height, Levels, DocOf, ToJson, Shaped;
    }
  }

  // ---- Where it is not what one might expect ----

  function NumberDoc(x: Double): Doc {
    Doc(null, EMPTY.(kind := NUMBER_KIND, valueDouble := x), [])
  }

  /** An infinite number is the same as every finite number, and as its negative, but not as itself. */
  lemma InfinityIsEverythingElse(x: real, negative: bool, caseSensitive: bool)
    ensures Same(NumberDoc(Infinite(negative)), NumberDoc(Finite(x)), caseSensitive)
    ensures Same(NumberDoc(Infinite(negative)), NumberDoc(Infinite(!negative)), caseSensitive)
    ensures !Same(NumberDoc(Infinite(negative)), NumberDoc(Infinite(negative)), caseSensitive)
  {
  }

  function ObjectDoc(members: seq<Doc>): Doc {
    Doc(null, EMPTY.(kind := OBJECT_KIND), members)
  }

  /** The copy of an object with a member that has no name is not the same as the object. */
  lemma UnnamedMemberBreaksDuplicate(member: Doc, caseSensitive: bool)
    requires member.payload.name == None
    ensures !Comparable(ObjectDoc([member]), caseSensitive) && !Same(ObjectDoc([member]), ObjectDoc([member]), caseSensitive)
  {
    var d := ObjectDoc([member]);
    assert d.children == [member];
    SameIs(d, d, caseSensitive);
    ContentsAre(d, d, caseSensitive);
    MembersAre([member], [member], 1, caseSensitive);
    MemberIs([member][0], [member], caseSensitive);
    ComparableIs(d, caseSensitive);
    AllSettledAre([member], caseSensitive);
    SettledHasName([member], 0, caseSensitive);
    hide Same, SameContents, Comparable, AllSettled, Settled;
  }

  /** Nor is the copy of a string without a value. */
  lemma ValuelessStringBreaksDuplicate(caseSensitive: bool)
    ensures var d := Doc(null, EMPTY.(kind := STRING_KIND), []);
            !Comparable(d, caseSensitive) && !Same(d, d, caseSensitive)
  {
  }
}
