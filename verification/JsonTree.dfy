/**
 Whole trees of nodes in src/Libs/cJSON/cJSON.c: how new nodes are linked as sibling lists and become the
 children of a node, and cJSON_Duplicate_rec, whose copy is a tree of new nodes with the same contents.
 */
module JsonTree {
  import opened Sequences
  import opened JsonList
  import opened JsonCompare
  import opened JsonText

  /** Which nodes make up a tree. */
  datatype Tree = Tree(node: Node, children: seq<Tree>)

  /** What a tree says, and perhaps in which nodes. */
  datatype Doc = Doc(node: Node?, payload: Payload, children: seq<Doc>)

  ghost function Roots(ts: seq<Tree>): (nodes: seq<Node>)
    ensures |nodes| == |ts| && forall i :: 0 <= i < |ts| ==> nodes[i] == ts[i].node
  {
    seq(|ts|, i requires 0 <= i < |ts| => ts[i].node)
  }

  /** The nodes below the root of a tree, and all nodes below the roots of several. */
  ghost function Inner(t: Tree): set<Node>
    decreases t
  {
    Below(t.children) + (set n | n in Roots(t.children))
  }

  ghost function Below(ts: seq<Tree>): set<Node>
    decreases ts
  {
    if ts == [] then {} else Below(ts[..|ts| - 1]) + Inner(ts[|ts| - 1])
  }

  ghost function All(ts: seq<Tree>): set<Node> {
    Below(ts) + set n | n in Roots(ts)
  }

  /** The nodes of the tree are linked as it says, and no node occurs twice. */
  ghost predicate Holds(t: Tree)
    reads t.node`child, Inner(t)`child, Inner(t)`next, Inner(t)`prev
    decreases t
  {
    ListOf(t.node, Roots(t.children)) && t.node !in Inner(t) && HoldsAll(t.children)
  }

  ghost predicate HoldsAll(ts: seq<Tree>)
    reads Roots(ts)`child, Below(ts)`child, Below(ts)`next, Below(ts)`prev
    decreases ts
  {
    ts == [] ||
    var front, last := ts[..|ts| - 1], ts[|ts| - 1];
    HoldsAll(front) && Holds(last) && last.node !in All(front) && Inner(last) !! All(front)
  }

  lemma RootsOfFront(ts: seq<Tree>)
    requires ts != []
    ensures Roots(ts) == Roots(ts[..|ts| - 1]) + [ts[|ts| - 1].node]
  {
  }

  function Unmarked(payload: Payload): Payload {
    payload.(isReference := false)
  }

  /** What a tree says, without its nodes and without the mark of a reference. */
  ghost function DocOf(t: Tree): Doc
    reads t.node`payload, Inner(t)`payload
    decreases t
  {
    Doc(null, Unmarked(t.node.payload), DocsOf(t.children))
  }

  ghost function DocsOf(ts: seq<Tree>): (docs: seq<Doc>)
    reads Roots(ts)`payload, Below(ts)`payload
    ensures |docs| == |ts|
    decreases ts
  {
    if ts == [] then [] else DocsOf(ts[..|ts| - 1]) + [DocOf(ts[|ts| - 1])]
  }

  /** How many levels of children there are. */
  ghost function Levels(t: Tree): nat
    decreases t
  {
    LevelsOf(t.children)
  }

  ghost function LevelsOf(ts: seq<Tree>): nat
    decreases ts
  {
    if ts == [] then 0 else Max(1 + Levels(ts[|ts| - 1]), LevelsOf(ts[..|ts| - 1]))
  }

  lemma {:induction false} PrefixHolds(ts: seq<Tree>, i: nat)
    requires HoldsAll(ts) && i <= |ts|
    ensures HoldsAll(ts[..i])
    decreases |ts|
  {
    hide *;
    if i < |ts| {
      LastOf(ts);
      PrefixHolds(ts[..|ts| - 1], i);
      assert ts[..|ts| - 1][..i] == ts[..i];
    } else {
      assert ts[..i] == ts;
    }
  }

  /** The last of several trees and the others. */
  lemma LastOf(ts: seq<Tree>)
    requires HoldsAll(ts) && ts != []
    ensures var front, last := ts[..|ts| - 1], ts[|ts| - 1];
            && HoldsAll(front) && Holds(last) && last.node !in All(front) && Inner(last) !! All(front)
            && DocsOf(ts) == DocsOf(front) + [DocOf(last)]
            && LevelsOf(ts) == Max(1 + Levels(last), LevelsOf(front))
  {
    hide Holds, All, Inner, DocOf, Levels;
  }

  /** One more tree of several. */
  lemma StepOf(ts: seq<Tree>, i: nat)
    requires HoldsAll(ts) && i < |ts|
    ensures Holds(ts[i]) && HoldsAll(ts[..i + 1])
    ensures DocsOf(ts[..i + 1]) == DocsOf(ts[..i]) + [DocOf(ts[i])]
    ensures LevelsOf(ts[..i + 1]) == Max(1 + Levels(ts[i]), LevelsOf(ts[..i]))
  {
    hide *;
    var more := ts[..i + 1];
    PrefixHolds(ts, i + 1);
    LastOf(more);
    assert more[..|more| - 1] == ts[..i] && more[|more| - 1] == ts[i];
  }

  lemma {:induction false} PrefixIsLower(ts: seq<Tree>, i: nat)
    requires i <= |ts|
    ensures LevelsOf(ts[..i]) <= LevelsOf(ts)
    decreases |ts|
  {
    if i < |ts| {
      PrefixIsLower(ts[..|ts| - 1], i);
      assert ts[..|ts| - 1][..i] == ts[..i];
    } else {
      assert ts[..i] == ts;
    }
  }

  ghost function Before(nodes: seq<Node>, i: nat): Node?
    requires i < |nodes|
  {
    if i > 0 then nodes[i - 1] else null
  }

  /** Children that are linked from first to last, but without the head's link to the tail. */
  ghost predicate Chain(parent: Node, nodes: seq<Node>)
    reads parent`child, nodes`next, nodes`prev
  {
    && Distinct(nodes) && parent !in nodes && parent.child == First(nodes)
    && forall i :: 0 <= i < |nodes| ==> Linked(nodes[i], Next(nodes, i), Before(nodes, i))
  }

  /** Closing the chain makes it a list. */
  lemma ChainIsList(parent: Node, nodes: seq<Node>)
    requires Distinct(nodes) && parent !in nodes && parent.child == First(nodes)
    requires forall i :: 0 <= i < |nodes| ==> Linked(nodes[i], Next(nodes, i), Prev(nodes, i))
    ensures ListOf(parent, nodes)
  {
  }

  // ---- Duplicating ----

  ghost function Tail(nodes: seq<Node>): (r: Node?)
    ensures nodes != [] ==> r == nodes[|nodes| - 1]
  {
    if nodes == [] then null else nodes[|nodes| - 1]
  }

  /** The copies so far hang from the new node, which is none of their nodes; `next` is the last of them. */
  ghost predicate Copying(newitem: Node, next: Node?, cs: seq<Tree>)
    reads newitem`child, Roots(cs)`next, Roots(cs)`prev, Roots(cs)`child, Below(cs)`child, Below(cs)`next, Below(cs)`prev
  {
    Chain(newitem, Roots(cs)) && next == Tail(Roots(cs)) && HoldsAll(cs) && newitem !in All(cs)
  }

  lemma CopyingIs(newitem: Node, next: Node?, cs: seq<Tree>)
    ensures Copying(newitem, next, cs) <==>
            Chain(newitem, Roots(cs)) && next == Tail(Roots(cs)) && HoldsAll(cs) && newitem !in All(cs)
  {
  }

  /** The new node is hung behind the last child so far. */
  method Hang(parent: Node, next: Node?, child: Node, ghost nodes: seq<Node>)
    requires Chain(parent, nodes) && next == Tail(nodes)
    requires child !in nodes && child != parent && child.next == null && child.prev == null
    modifies parent`child, child`prev, nodes`next
    ensures Chain(parent, nodes + [child])
  {
    if next != null {
      next.next := child;
      child.prev := next;
    } else {
      parent.child := child;
    }
    ghost var more := nodes + [child];
    forall i | 0 <= i < |more|
      ensures Linked(more[i], Next(more, i), Before(more, i))
    {
      if i < |nodes| {
        assert old(Linked(nodes[i], Next(nodes, i), Before(nodes, i)));
      }
    }
  }

  /** At the end the head is linked to the tail. */
  method Close(parent: Node, last: Node?, ghost nodes: seq<Node>)
    requires Chain(parent, nodes) && last == Tail(nodes)
    modifies nodes`prev
    ensures ListOf(parent, nodes)
  {
    if parent.child != null {
      parent.child.prev := last;
    }
    forall i | 0 <= i < |nodes|
      ensures Linked(nodes[i], Next(nodes, i), Prev(nodes, i))
    {
      assert old(Linked(nodes[i], Next(nodes, i), Before(nodes, i)));
    }
    ChainIsList(parent, nodes);
  }

  lemma {:induction false} RootsAreNotBelow(ts: seq<Tree>)
    requires HoldsAll(ts)
    ensures forall n <- Roots(ts) :: n !in Below(ts)
    decreases |ts|
  {
    if ts != [] {
      var front, last := ts[..|ts| - 1], ts[|ts| - 1];
      RootsAreNotBelow(front);
      LastOf(ts);
      RootsOfFront(ts);
      assert last.node !in Inner(last);
      hide Holds, HoldsAll, Inner;
    }
  }

  lemma HoldsOneMore(ts: seq<Tree>, t: Tree)
    requires HoldsAll(ts) && Holds(t) && t.node !in All(ts) && Inner(t) !! All(ts)
    ensures HoldsAll(ts + [t])
  {
    var more := ts + [t];
    Border(ts, [t]);
    assert more[..|more| - 1] == ts && more[|more| - 1] == t;
    hide Holds, Inner, All;
  }

  lemma DocsOfOneMore(ts: seq<Tree>, t: Tree)
    ensures DocsOf(ts + [t]) == DocsOf(ts) + [DocOf(t)]
  {
    var more := ts + [t];
    Border(ts, [t]);
    assert more[..|more| - 1] == ts && more[|more| - 1] == t;
    hide DocOf;
  }

  lemma AllOfOneMore(ts: seq<Tree>, t: Tree)
    ensures All(ts + [t]) == All(ts) + {t.node} + Inner(t) && Roots(ts + [t]) == Roots(ts) + [t.node]
  {
    var more := ts + [t];
    Border(ts, [t]);
    assert more[..|more| - 1] == ts && more[|more| - 1] == t;
    RootsOfFront(more);
    hide Inner, Roots;
  }

  /** A tree of other nodes is put behind several. */
  lemma OneMore(ts: seq<Tree>, t: Tree)
    requires HoldsAll(ts) && Holds(t) && t.node !in All(ts) && Inner(t) !! All(ts)
    ensures HoldsAll(ts + [t]) && DocsOf(ts + [t]) == DocsOf(ts) + [DocOf(t)]
    ensures All(ts + [t]) == All(ts) + {t.node} + Inner(t) && Roots(ts + [t]) == Roots(ts) + [t.node]
  {
    hide *;
    Border(ts, [t]);
    HoldsOneMore(ts, t);
    DocsOfOneMore(ts, t);
    AllOfOneMore(ts, t);
  }

  lemma RootIsNotInner(t: Tree)
    requires Holds(t)
    ensures t.node !in Inner(t)
  {
  }

  lemma AllIs(ts: seq<Tree>)
    ensures forall n <- Roots(ts) :: n in All(ts)
    ensures Below(ts) <= All(ts)
  {
  }

  /** Hanging a finished copy behind the others leaves all of them as they are. */
  method HangCopy(parent: Node, next: Node?, child: Node, ghost cs: seq<Tree>, ghost d: Tree)
    requires Copying(parent, next, cs) && Holds(d) && d.node == child && child.next == null && child.prev == null
    requires child !in All(cs) && Inner(d) !! All(cs) && parent != child && parent !in Inner(d)
    modifies parent`child, child`prev, Roots(cs)`next
    ensures Copying(parent, child, cs + [d]) && DocsOf(cs + [d]) == old(DocsOf(cs)) + [old(DocOf(d))]
    ensures All(cs + [d]) == All(cs) + {child} + Inner(d)
  {
    hide *;
    CopyingIs(parent, next, cs);
    AllIs(cs);
    RootsAreNotBelow(cs);
    RootIsNotInner(d);
    assert allocated(Below(cs)) && allocated(Inner(d)) && allocated(Roots(cs));
    assert forall n <- Below(cs) :: n != parent && n != child && n !in Roots(cs);
    assert forall n <- Inner(d) :: n != parent && n != child && n !in Roots(cs);
    Hang(parent, next, child, Roots(cs));
    OneMore(cs, d);
    CopyingIs(parent, child, cs + [d]);
  }

  /** The parts of a tree that holds. */
  lemma PartsOf(t: Tree)
    requires Holds(t)
    ensures ListOf(t.node, Roots(t.children)) && HoldsAll(t.children) && Inner(t) == All(t.children)
    ensures DocOf(t) == Doc(null, Unmarked(t.node.payload), DocsOf(t.children)) && Levels(t) == LevelsOf(t.children)
  {
  }

  lemma TreeOf(node: Node, ts: seq<Tree>)
    requires ListOf(node, Roots(ts)) && HoldsAll(ts) && node !in All(ts)
    ensures Holds(Tree(node, ts)) && Inner(Tree(node, ts)) == All(ts)
    ensures DocOf(Tree(node, ts)) == Doc(null, Unmarked(node.payload), DocsOf(ts))
  {
  }

  /** Two nodes say the same exactly when they differ in nothing but the mark of a reference. */
  lemma OnlyTheMarkIsLost(p: Payload, q: Payload)
    ensures Unmarked(p) == Unmarked(q) <==>
              && p.kind == q.kind && p.constName == q.constName && p.valueString == q.valueString
              && p.valueInt == q.valueInt && p.valueDouble == q.valueDouble && p.name == q.name
    ensures !Unmarked(p).isReference
  {
  }

  lemma UnmarkedTwice(p: Payload)
    ensures Unmarked(Unmarked(p)) == Unmarked(p)
  {
  }

  lemma Nothing(newitem: Node)
    requires newitem.child == null
    ensures Copying(newitem, null, []) && All([]) == {} && DocsOf([]) == [] && LevelsOf([]) == 0
    ensures forall depth: nat :: WithinLimit(depth, 0)
  {
  }

  /** One round of the loop over children: copy the child at position `i` and hang it behind the others. */
  method CopyNext(
      newitem: Node, next: Node?, child: Node, depth: nat, ghost ts: seq<Tree>, ghost cs: seq<Tree>, ghost i: nat)
    returns (newchild: Node?, ghost d: Tree)
    requires HoldsAll(ts) && i < |ts| && child == ts[i].node && |cs| == i
    requires Copying(newitem, next, cs)
    modifies newitem`child, Roots(cs)`next
    ensures newchild != null <==> WithinLimit(depth + 1, Levels(ts[i]))
    ensures newchild != null ==> fresh(newchild) && fresh(Inner(d)) && d.node == newchild
    ensures newitem.next == old(newitem.next) && newitem.prev == old(newitem.prev)
    ensures newitem.payload == old(newitem.payload)
    ensures newchild != null ==>
              && (forall n <- All(cs + [d]) :: n in All(cs) || fresh(n)) && Copying(newitem, newchild, cs + [d])
              && DocsOf(cs + [d]) == old(DocsOf(cs)) + [old(DocOf(ts[i]))]
    decreases ts[i], 1
  {
    hide *;
    CopyingIs(newitem, next, cs);
    StepOf(ts, i);
    assert allocated(All(cs)) && allocated(Below(cs)) && allocated(Roots(cs));
    AllIs(cs);
    newchild, d := DuplicateRec(child, ts[i], depth + 1);
    if newchild == null {
      return;
    }
    HangCopy(newitem, next, newchild, cs, d);
  }

  /** The end of the loop over children: the copies become the children of the new node. */
  method CloseTree(newitem: Node, next: Node?, ghost cs: seq<Tree>)
    requires Copying(newitem, next, cs)
    modifies Roots(cs)`prev
    ensures Holds(Tree(newitem, cs)) && Inner(Tree(newitem, cs)) == All(cs)
    ensures DocOf(Tree(newitem, cs)) == Doc(null, Unmarked(newitem.payload), old(DocsOf(cs)))
    ensures newitem.next == old(newitem.next) && newitem.prev == old(newitem.prev)
    ensures newitem.payload == old(newitem.payload)
  {
    hide *;
    CopyingIs(newitem, next, cs);
    AllIs(cs);
    RootsAreNotBelow(cs);
    assert allocated(Below(cs)) && allocated(Roots(cs));
    assert forall n <- Below(cs) :: n !in Roots(cs);
    Close(newitem, next, Roots(cs));
    TreeOf(newitem, cs);
  }

  /**
   cJSON_Duplicate_rec with recursion. The copy is a tree of new nodes that says what the source says and
   holds its children in sibling lists; it is refused exactly when children reach below the limit.
   */
  method DuplicateRec(item: Node, ghost t: Tree, depth: nat) returns (copy: Node?, ghost c: Tree)
    requires t.node == item && Holds(t)
    ensures copy != null <==> WithinLimit(depth, Levels(t))
    ensures copy != null ==> c.node == copy && Holds(c) && DocOf(c) == old(DocOf(t))
    ensures copy != null ==> fresh(copy) && fresh(Inner(c)) && copy.next == null && copy.prev == null
    ensures copy != null ==> copy.payload == Unmarked(item.payload)
    decreases t, 0
  {
    hide *;
    PartsOf(t);
    ghost var ts := t.children;
    ghost var docs, cs: seq<Tree> := DocsOf(ts), [];
    assert allocated(All(ts)) && allocated(Below(ts)) && allocated(Roots(ts)) && allocated(Inner(t));
    AllIs(ts);
    var newitem := new Node();
    newitem.payload := Unmarked(item.payload);
    copy, c := null, t;
    Start(item, Roots(ts));
    Nothing(newitem);
    assert ts[..0] == [] && docs[..0] == [];
    var child, next: Node? := item.child, null;
    ghost var i: nat := 0;
    while child != null
      invariant i <= |ts| && child == Cursor(Roots(ts), i) && |cs| == i
      invariant ListOf(item, Roots(ts)) && HoldsAll(ts) && DocsOf(ts) == docs
      invariant Copying(newitem, next, cs) && DocsOf(cs) == docs[..i] && fresh(All(cs)) && fresh(newitem)
      invariant newitem.next == null && newitem.prev == null
      invariant newitem.payload == Unmarked(old(item.payload))
      invariant WithinLimit(depth, LevelsOf(ts[..i]))
      decreases |ts| - i
    {
      AllIs(cs);
      assert forall k :: 0 <= k < |Roots(cs)| ==> Roots(cs)[k] in All(cs);
      LimitStep(ts, i, depth);
      Advance(item, Roots(ts), i);
      if depth >= CIRCULAR_LIMIT {
        return;
      }
      ghost var d;
      var newchild;
      newchild, d := CopyNext(newitem, next, child, depth, ts, cs, i);
      if newchild == null {
        return;
      }
      cs, next := cs + [d], newchild;
      child := child.next;
      i := i + 1;
    }
    assert ts[..|ts|] == ts && docs[..|docs|] == docs;
    AllIs(cs);
    assert forall k :: 0 <= k < |Roots(cs)| ==> Roots(cs)[k] in All(cs);
    CloseTree(newitem, next, cs);
    UnmarkedTwice(old(item.payload));
    copy, c := newitem, Tree(newitem, cs);
  }

  /** How one more child bears on the limit. */
  lemma LimitStep(ts: seq<Tree>, i: nat, depth: nat)
    requires i < |ts| && HoldsAll(ts)
    ensures WithinLimit(depth, LevelsOf(ts[..i + 1])) <==>
            WithinLimit(depth, LevelsOf(ts[..i])) && depth < CIRCULAR_LIMIT && WithinLimit(depth + 1, Levels(ts[i]))
    ensures WithinLimit(depth, LevelsOf(ts)) ==> WithinLimit(depth, LevelsOf(ts[..i + 1]))
    ensures DocsOf(ts)[..i + 1] == DocsOf(ts)[..i] + [DocOf(ts[i])]
  {
    hide *;
    StepOf(ts, i);
    PrefixIsLower(ts, i + 1);
    DocsAt(ts, i);
    LimitOfMax(depth, Levels(ts[i]), LevelsOf(ts[..i]));
    LimitIsMonotone(depth, LevelsOf(ts[..i + 1]), LevelsOf(ts));
  }

  lemma LimitOfMax(depth: nat, height: nat, others: nat)
    ensures WithinLimit(depth, Max(1 + height, others)) <==>
            WithinLimit(depth, others) && depth < CIRCULAR_LIMIT && WithinLimit(depth + 1, height)
  {
  }

  lemma LimitIsMonotone(depth: nat, a: nat, b: nat)
    requires a <= b
    ensures WithinLimit(depth, b) ==> WithinLimit(depth, a)
  {
  }

  lemma {:induction false} DocsAt(ts: seq<Tree>, i: nat)
    requires i < |ts|
    ensures DocsOf(ts)[i] == DocOf(ts[i])
    decreases |ts|
  {
    if i < |ts| - 1 {
      DocsAt(ts[..|ts| - 1], i);
    }
  }

  /** cJSON_Duplicate: the whole tree, or its root alone. */
  method Duplicate(item: Node?, recurse: bool, ghost t: Tree) returns (copy: Node?, ghost c: Tree)
    requires item != null ==> t.node == item && Holds(t)
    ensures copy != null <==> item != null && (recurse ==> WithinLimit(0, Levels(t)))
    ensures copy != null ==> fresh(copy) && fresh(Inner(c)) && c.node == copy && Holds(c)
    ensures copy != null ==> copy.payload == Unmarked(item.payload)
    ensures copy != null ==> if recurse then DocOf(c) == old(DocOf(t)) else c.children == []
  {
    copy, c := null, t;
    if item == null {
      return;
    }
    if recurse {
      copy, c := DuplicateRec(item, t, 0);
    } else {
      copy := new Node();
      copy.payload := Unmarked(item.payload);
      c := Tree(copy, []);
    }
  }

  // ---- Building ----

  /** New children that are linked from first to last and belong to no parent yet. */
  ghost predicate Row(head: Node?, nodes: seq<Node>)
    reads nodes`next, nodes`prev
  {
    && Distinct(nodes) && head == First(nodes)
    && forall i :: 0 <= i < |nodes| ==> Linked(nodes[i], Next(nodes, i), Before(nodes, i))
  }

  /** One more node is put behind the last one. */
  method Attach(head: Node?, current: Node?, child: Node, ghost nodes: seq<Node>) returns (first: Node)
    requires Row(head, nodes) && current == Tail(nodes)
    requires child !in nodes && child.next == null && child.prev == null
    modifies child`prev, nodes`next
    ensures Row(first, nodes + [child])
  {
    if head == null {
      first := child;
    } else {
      current.next := child;
      child.prev := current;
      first := head;
    }
    ghost var more := nodes + [child];
    forall i | 0 <= i < |more|
      ensures Linked(more[i], Next(more, i), Before(more, i))
    {
      if i < |nodes| {
        assert old(Linked(nodes[i], Next(nodes, i), Before(nodes, i)));
      }
    }
  }

  /** The finished row becomes the children of a node. */
  method Adopt(parent: Node, head: Node?, current: Node?, ghost nodes: seq<Node>)
    requires Row(head, nodes) && current == Tail(nodes) && parent !in nodes
    modifies parent`child, nodes`prev
    ensures ListOf(parent, nodes)
  {
    if head != null {
      head.prev := current;
    }
    parent.child := head;
    forall i | 0 <= i < |nodes|
      ensures Linked(nodes[i], Next(nodes, i), Prev(nodes, i))
    {
      assert old(Linked(nodes[i], Next(nodes, i), Before(nodes, i)));
    }
    ChainIsList(parent, nodes);
  }

  /** A row of finished trees. */
  ghost predicate Growing(head: Node?, current: Node?, cs: seq<Tree>)
    reads Roots(cs)`next, Roots(cs)`prev, Roots(cs)`child, Below(cs)`child, Below(cs)`next, Below(cs)`prev
  {
    Row(head, Roots(cs)) && current == Tail(Roots(cs)) && HoldsAll(cs)
  }

  lemma GrowingIs(head: Node?, current: Node?, cs: seq<Tree>)
    ensures Growing(head, current, cs) <==> Row(head, Roots(cs)) && current == Tail(Roots(cs)) && HoldsAll(cs)
  {
  }

  /** A node without children is a tree. */
  lemma LeafHolds(item: Node)
    requires item.child == null
    ensures Holds(Tree(item, [])) && Inner(Tree(item, [])) == {}
    ensures DocOf(Tree(item, [])) == Doc(null, Unmarked(item.payload), [])
  {
    assert Roots([]) == [] && Below([]) == {};
  }

  lemma NothingGrown()
    ensures Growing(null, null, []) && DocsOf([]) == [] && All([]) == {}
  {
  }

  /** A new node behind the finished trees. */
  method NewChild(head: Node?, current: Node?, ghost cs: seq<Tree>) returns (first: Node, child: Node)
    requires Growing(head, current, cs)
    modifies Roots(cs)`next
    ensures fresh(child) && child.child == null && child.payload == EMPTY && child !in All(cs)
    ensures Row(first, Roots(cs) + [child]) && HoldsAll(cs) && DocsOf(cs) == old(DocsOf(cs))
  {
    hide *;
    GrowingIs(head, current, cs);
    assert allocated(All(cs)) && allocated(Below(cs)) && allocated(Roots(cs));
    AllIs(cs);
    RootsAreNotBelow(cs);
    assert forall n <- Below(cs) :: n !in Roots(cs);
    child := new Node();
    assert child !in Roots(cs);
    first := Attach(head, current, child, Roots(cs));
  }

  /** The new node has become a finished tree. */
  lemma Grown(head: Node?, cs: seq<Tree>, d: Tree)
    requires Row(head, Roots(cs) + [d.node]) && HoldsAll(cs) && Holds(d)
    requires d.node !in All(cs) && Inner(d) !! All(cs)
    ensures Growing(head, d.node, cs + [d])
    ensures DocsOf(cs + [d]) == DocsOf(cs) + [DocOf(d)] && All(cs + [d]) == All(cs) + {d.node} + Inner(d)
  {
    hide *;
    OneMore(cs, d);
    TailIs(Roots(cs), d.node);
    GrowingIs(head, d.node, cs + [d]);
  }

  lemma TailIs(nodes: seq<Node>, last: Node)
    ensures Tail(nodes + [last]) == last
  {
  }

  /** The finished trees become the children of a node. */
  method AdoptTrees(parent: Node, head: Node?, current: Node?, ghost cs: seq<Tree>)
    requires Growing(head, current, cs) && parent !in All(cs)
    modifies parent`child, Roots(cs)`prev
    ensures Holds(Tree(parent, cs)) && Inner(Tree(parent, cs)) == All(cs)
    ensures DocOf(Tree(parent, cs)) == Doc(null, Unmarked(parent.payload), old(DocsOf(cs)))
  {
    hide *;
    GrowingIs(head, current, cs);
    AllIs(cs);
    RootsAreNotBelow(cs);
    assert allocated(Below(cs)) && allocated(Roots(cs));
    assert forall n <- Below(cs) :: n !in Roots(cs) && n != parent;
    assert forall n <- Roots(cs) :: n != parent;
    Adopt(parent, head, current, Roots(cs));
    TreeOf(parent, cs);
  }
}
