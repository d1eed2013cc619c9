/**
 The sibling lists of src/Libs/cJSON/cJSON.c: children are linked by `next`, and by `prev` except that
 the head's `prev` is the tail. Every operation is proved to keep that shape and to do to the list what
 append, remove, insert or update do to a sequence.
 */
module JsonList {
  import opened Options

  /** A double: a number, without regard to its rounding, or one of the values that are none. */
  datatype Double = Finite(value: real) | Infinite(negative: bool) | NotANumber

  /** What a node holds besides its links. */
  datatype Payload = Payload(
    kind: nat, isReference: bool, constName: bool,
    valueString: Option<string>, valueInt: int, valueDouble: Double, name: Option<string>)

  const EMPTY := Payload(0, false, false, None, 0, Finite(0.0), None)

  class Node {
    var next: Node?
    var prev: Node?
    var child: Node?
    var payload: Payload

    constructor ()
      ensures next == null && prev == null && child == null && payload == EMPTY
    {
      next, prev, child := null, null, null;
      payload := EMPTY;
    }
  }

  /** The children of `parent` are exactly `nodes`, in order, linked the way the source links them. */
  ghost predicate ListOf(parent: Node, nodes: seq<Node>)
    reads parent`child, nodes`next, nodes`prev
  {
    && Distinct(nodes) && parent !in nodes && parent.child == First(nodes)
    && forall i :: 0 <= i < |nodes| ==> Linked(nodes[i], Next(nodes, i), Prev(nodes, i))
  }

  predicate Linked(node: Node, next: Node?, prev: Node?)
    reads node`next, node`prev
  {
    node.next == next && node.prev == prev
  }

  ghost predicate Distinct(nodes: seq<Node>) {
    forall i, j :: 0 <= i < j < |nodes| ==> nodes[i] != nodes[j]
  }

  ghost function First(nodes: seq<Node>): Node? {
    if nodes == [] then null else nodes[0]
  }

  ghost function Next(nodes: seq<Node>, i: nat): Node?
    requires i < |nodes|
  {
    if i + 1 < |nodes| then nodes[i + 1] else null
  }

  ghost function Prev(nodes: seq<Node>, i: nat): Node?
    requires i < |nodes|
  {
    if i > 0 then nodes[i - 1] else nodes[|nodes| - 1]
  }

  /** Following the links finds one list only. */
  lemma {:induction false} ListIsUnique(parent: Node, a: seq<Node>, b: seq<Node>)
    requires ListOf(parent, a) && ListOf(parent, b)
    ensures a == b
  {
    hide ListOf;
    SamePrefix(parent, a, b, |a|);
    SamePrefix(parent, b, a, |b|);
  }

  lemma {:induction false} SamePrefix(parent: Node, a: seq<Node>, b: seq<Node>, n: nat)
    requires ListOf(parent, a) && ListOf(parent, b) && n <= |a|
    ensures n <= |b| && forall k :: 0 <= k < n ==> a[k] == b[k]
  {
    if n == 1 {
      hide Next, Prev, Distinct;
      assert a[0] == parent.child;
    } else if n > 1 {
      SamePrefix(parent, a, b, n - 1);
      hide Distinct, First;
      Links(parent, a, n - 2);
      Links(parent, b, n - 2);
      hide ListOf, Prev;
      assert a[n - 2] == b[n - 2];
    }
  }

  /** The neighbours of one node of a list. */
  lemma Links(parent: Node, nodes: seq<Node>, i: nat)
    requires ListOf(parent, nodes) && i < |nodes|
    ensures nodes[i] != parent && (parent.child == nodes[i] <==> i == 0)
    ensures nodes[i].next == Next(nodes, i) && nodes[i].prev == Prev(nodes, i)
    ensures i > 0 ==> nodes[i].prev == nodes[i - 1]
    ensures i == 0 ==> nodes[i].prev == nodes[|nodes| - 1]
    ensures i + 1 < |nodes| ==> nodes[i].next == nodes[i + 1]
    ensures i + 1 == |nodes| ==> nodes[i].next == null
  {
    assert Linked(nodes[i], Next(nodes, i), Prev(nodes, i));
  }

  // ---- The operations on sequences ----

  function Removed<T>(s: seq<T>, i: nat): (r: seq<T>)
    requires i < |s|
    ensures |r| == |s| - 1
  {
    s[..i] + s[i + 1..]
  }

  /** Inserting at or behind the end appends. */
  function Inserted<T>(s: seq<T>, i: nat, x: T): (r: seq<T>)
    ensures |r| == |s| + 1
  {
    if i < |s| then s[..i] + [x] + s[i..] else s + [x]
  }

  /** Detaching the node that was inserted gives the old list back, and the other way round. */
  lemma DetachUndoesInsert<T>(s: seq<T>, i: nat, x: T)
    ensures Removed(Inserted(s, i, x), if i < |s| then i else |s|) == s
    ensures i < |s| ==> Inserted(Removed(s, i), i, s[i]) == s
  {
    var m, at := Inserted(s, i, x), if i < |s| then i else |s|;
    assert m[..at] == s[..at] && m[at + 1..] == s[at..];
    assert s[..at] + s[at..] == s;
    if i < |s| {
      var r := Removed(s, i);
      assert r[..i] == s[..i] && r[i..] == s[i + 1..];
      assert s[..i] + [s[i]] + s[i + 1..] == s;
      assert i == |r| ==> s[i + 1..] == [] && r == s[..i];
    }
  }

  // ---- Walking the list ----

  /** The node at a position, or null at the end. */
  ghost function Cursor(nodes: seq<Node>, i: nat): (r: Node?)
    ensures i < |nodes| ==> r == nodes[i] && r != null
    ensures i >= |nodes| ==> r == null
  {
    if i < |nodes| then nodes[i] else null
  }

  lemma Advance(parent: Node, nodes: seq<Node>, i: nat)
    requires ListOf(parent, nodes) && i < |nodes|
    ensures nodes[i].next == Cursor(nodes, i + 1)
  {
    Links(parent, nodes, i);
  }

  lemma Shape(parent: Node, nodes: seq<Node>)
    requires ListOf(parent, nodes)
    ensures Distinct(nodes) && parent !in nodes && parent.child == First(nodes)
  {
  }

  lemma AllLinked(parent: Node, nodes: seq<Node>)
    requires ListOf(parent, nodes)
    ensures forall j :: 0 <= j < |nodes| ==> nodes[j].next == Next(nodes, j) && nodes[j].prev == Prev(nodes, j)
  {
    hide Next, Prev, Distinct;
    forall j | 0 <= j < |nodes|
      ensures nodes[j].next == Next(nodes, j) && nodes[j].prev == Prev(nodes, j)
    {
      assert Linked(nodes[j], Next(nodes, j), Prev(nodes, j));
    }
  }

  lemma DistinctAt(nodes: seq<Node>, i: nat, j: nat)
    requires Distinct(nodes) && i < |nodes| && j < |nodes|
    ensures nodes[i] == nodes[j] <==> i == j
  {
  }

  lemma Start(parent: Node, nodes: seq<Node>)
    requires ListOf(parent, nodes)
    ensures parent.child == Cursor(nodes, 0)
  {
  }

  /** cJSON_GetArraySize */
  method GetArraySize(list: Node?, ghost nodes: seq<Node>) returns (size: nat)
    requires list != null ==> ListOf(list, nodes)
    ensures size == if list == null then 0 else |nodes|
  {
    hide *;
    size := 0;
    if list == null {
      return;
    }
    Start(list, nodes);
    var child := list.child;
    while child != null
      invariant size <= |nodes| && child == Cursor(nodes, size)
      decreases |nodes| - size
    {
      Advance(list, nodes, size);
      size := size + 1;
      child := child.next;
    }
  }

  /** get_array_item: the child at an index, or null behind the end. */
  method GetArrayItem(list: Node?, index: nat, ghost nodes: seq<Node>) returns (item: Node?)
    requires list != null ==> ListOf(list, nodes)
    ensures item == if list != null then Cursor(nodes, index) else null
  {
    hide *;
    if list == null {
      return null;
    }
    Start(list, nodes);
    item := list.child;
    var left: nat := index;
    while item != null && left > 0
      invariant left <= index && item == Cursor(nodes, index - left)
      invariant index - left <= |nodes|
      decreases left
    {
      Advance(list, nodes, index - left);
      left := left - 1;
      item := item.next;
    }
  }

  // ---- Changing the list ----

  /** The node is no child of the list and not the list itself, so that it can become a new child. */
  ghost predicate IsNew(list: Node, item: Node, nodes: seq<Node>) {
    item != list && item !in nodes
  }

  lemma RepeatedIsNoList(parent: Node, nodes: seq<Node>, item: Node, i: nat)
    requires !IsNew(parent, item, nodes)
    ensures !ListOf(parent, Inserted(nodes, i, item))
  {
    var more := Inserted(nodes, i, item);
    var at := if i < |nodes| then i else |nodes|;
    assert more[at] == item;
    if item in nodes {
      var k: nat :| k < |nodes| && nodes[k] == item;
      assert more[if k < at then k else k + 1] == item;
    }
  }

  lemma OnlyIsList(parent: Node, item: Node)
    requires parent.child == item && item != parent && item.prev == item && item.next == null
    ensures ListOf(parent, [] + [item])
  {
  }

  lemma AppendedIsList(parent: Node, nodes: seq<Node>, item: Node)
    requires nodes != [] && Distinct(nodes) && parent !in nodes && parent.child == First(nodes)
    requires item !in nodes && item != parent && item.prev == nodes[|nodes| - 1]
    requires forall j :: 0 <= j < |nodes| ==>
               && nodes[j].next == (if j == |nodes| - 1 then item else Next(nodes, j))
               && nodes[j].prev == if j == 0 then item else Prev(nodes, j)
    ensures ListOf(parent, nodes + [item]) <==> item.next == null
  {
    var more := nodes + [item];
    forall k | 0 <= k < |more|
      ensures Linked(more[k], Next(more, k), Prev(more, k)) <==> k < |nodes| || item.next == null
    {
    }
    assert more[|nodes|] == item;
  }

  /**
   add_item_to_array. The result is the list with the item at its end if and only if the item was no
   child yet and, unless the list was empty, carried no `next` from elsewhere.
   */
  method AddItemToArray(list: Node?, item: Node?, ghost nodes: seq<Node>) returns (ok: bool)
    requires list != null ==> ListOf(list, nodes)
    modifies {list}`child, {item}`next, {item}`prev, nodes`next, nodes`prev
    ensures ok <==> item != null && list != null && list != item
    ensures ok ==> (ListOf(list, nodes + [item]) <==> item !in nodes && (nodes == [] || old(item.next) == null))
    ensures ok && nodes != [] ==>
              && list.child == nodes[0] && nodes[|nodes| - 1].next == item && nodes[0].prev == item
              && (item !in nodes ==> item.next == old(item.next))
    ensures !ok && list != null ==> ListOf(list, nodes)
  {
    hide *;
    if item == null || list == null || list == item {
      return false;
    }
    Shape(list, nodes);
    HeadIs(list, nodes);
    AllLinked(list, nodes);
    InsertedAtEnd(nodes, |nodes|, item);
    NewIs(list, item, nodes);
    if nodes != [] {
      Links(list, nodes, 0);
      Links(list, nodes, |nodes| - 1);
    }
    var child := list.child;
    ghost var next := item.next;
    if child == null {
      list.child := item;
      item.prev := item;
      item.next := null;
      OnlyIsList(list, item);
    } else {
      if child.prev != null {
        child.prev.next := item;
        item.prev := child.prev;
        list.child.prev := item;
      }
      if item in nodes {
        RepeatedIsNoList(list, nodes, item, |nodes|);
      } else {
        forall j | 0 <= j < |nodes|
          ensures (nodes[j] == nodes[0] <==> j == 0) && (nodes[j] == nodes[|nodes| - 1] <==> j == |nodes| - 1)
        {
          DistinctAt(nodes, j, 0);
          DistinctAt(nodes, j, |nodes| - 1);
        }
        AppendedIsList(list, nodes, item);
      }
    }
    ok := true;
  }

  /** The nodes next to a node; the routines below write to them without looking whose they are. */
  ghost function Beside(item: Node?): (nodes: set<Node>)
    reads {item}`next, {item}`prev
  {
    if item == null then {}
    else (if item.next == null then {} else {item.next}) + (if item.prev == null then {} else {item.prev})
  }

  /** Wherever `prev` and `next` stand in the list, they are neighbours already. */
  ghost predicate AreNeighbours(nodes: seq<Node>, prev: Node?, next: Node?) {
    forall j :: 0 <= j < |nodes| ==>
      && (nodes[j] == prev ==> Next(nodes, j) == next)
      && (nodes[j] == next || (j == 0 && next == null) ==> Prev(nodes, j) == prev)
  }

  lemma JoinedIsList(parent: Node, nodes: seq<Node>, prev: Node?, next: Node?)
    requires Distinct(nodes) && parent !in nodes && parent.child == First(nodes)
    requires forall j :: 0 <= j < |nodes| ==>
               && nodes[j].next == (if nodes[j] == prev then next else Next(nodes, j))
               && nodes[j].prev == (if nodes[j] == next || (j == 0 && next == null) then prev else Prev(nodes, j))
    ensures ListOf(parent, nodes) <==> AreNeighbours(nodes, prev, next)
  {
    hide Next, Prev, First, Distinct;
  }

  /**
   cJSON_DetachItemViaPointer. A child, at position `i`, is unlinked. Any other node that has a `prev` is
   unlinked from its neighbours as well, and the list stays what it was if and only if these neighbours
   are none of its children or stand next to each other in it.
   */
  method DetachItemViaPointer(parent: Node?, item: Node?, ghost nodes: seq<Node>, ghost i: nat) returns (r: Node?)
    requires parent != null ==> ListOf(parent, nodes)
    requires parent != null && item in nodes ==> i < |nodes| && nodes[i] == item
    requires parent != null && item != null && nodes == [] && item.prev != null ==> item.next != null
    modifies {parent}`child, {item}`next, {item}`prev, Beside(item)`next, Beside(item)`prev, nodes`next, nodes`prev
    ensures r == if parent == null || item == null || (item !in nodes && old(item.prev) == null) then null else item
    ensures r != null ==> r.next == null && r.prev == null
    ensures r != null && item in nodes ==> ListOf(parent, Removed(nodes, i))
    ensures r != null && item !in nodes ==> (ListOf(parent, nodes) <==> AreNeighbours(nodes, old(item.prev), old(item.next)))
    ensures r == null && parent != null ==> ListOf(parent, nodes)
  {
    hide *;
    if parent == null || item == null {
      return null;
    }
    Shape(parent, nodes);
    AllLinked(parent, nodes);
    HeadIs(parent, nodes);
    BesideIs(item);
    if item in nodes {
      ChildLinks(parent, nodes, i);
    }
    ghost var prev, next := item.prev, item.next;
    if item != parent.child && item.prev == null {
      return null;
    }
    if item != parent.child {
      item.prev.next := item.next;
    }
    if item.next != null {
      item.next.prev := item.prev;
    }
    if item == parent.child {
      parent.child := item.next;
    } else if item.next == null {
      parent.child.prev := item.prev;
    }
    item.prev := null;
    item.next := null;
    r := item;
    if item in nodes {
      forall j | 0 <= j < |nodes| && j != i
        ensures Without(nodes, i, j)
      {
        DistinctAt(nodes, j, i);
        DistinctAt(nodes, j, |nodes| - 1);
        if i > 0 {
          DistinctAt(nodes, j, i - 1);
        }
        if i + 1 < |nodes| {
          DistinctAt(nodes, j, i + 1);
        }
        DistinctAt(nodes, j, 0);
        WithoutIs(nodes, i, j);
      }
      RemovedIsList(parent, nodes, i);
    } else {
      forall j | 0 <= j < |nodes|
        ensures nodes[j] != item && (nodes[j] == nodes[0] <==> j == 0)
      {
        DistinctAt(nodes, j, 0);
      }
      JoinedIsList(parent, nodes, prev, next);
    }
  }

  lemma HeadIs(parent: Node, nodes: seq<Node>)
    requires ListOf(parent, nodes)
    ensures parent.child == if nodes == [] then null else nodes[0]
  {
  }

  lemma BesideIs(item: Node)
    ensures (item.next != null ==> item.next in Beside(item)) && (item.prev != null ==> item.prev in Beside(item))
  {
  }

  lemma BesideChild(parent: Node, nodes: seq<Node>, i: nat)
    requires ListOf(parent, nodes) && i < |nodes|
    ensures forall n <- Beside(nodes[i]) :: n in nodes
  {
    Links(parent, nodes, i);
  }

  /** The links of a child and of its neighbours. */
  lemma ChildLinks(parent: Node, nodes: seq<Node>, i: nat)
    requires ListOf(parent, nodes) && i < |nodes|
    ensures nodes[i] != parent && (parent.child == nodes[i] <==> i == 0) && parent.child == nodes[0]
    ensures nodes[i].next == Next(nodes, i) && nodes[i].prev == Prev(nodes, i)
    ensures i > 0 ==> nodes[i].prev == nodes[i - 1]
    ensures i == 0 ==> nodes[i].prev == nodes[|nodes| - 1]
    ensures i + 1 < |nodes| ==> nodes[i].next == nodes[i + 1]
    ensures i + 1 == |nodes| ==> nodes[i].next == null
    ensures i > 0 ==> nodes[i - 1].next == nodes[i]
  {
    Links(parent, nodes, i);
    Links(parent, nodes, 0);
    if i > 0 {
      Links(parent, nodes, i - 1);
    }
    hide *;
  }

  /** The links of a list from which the node at `i` was taken out, and all others left as they were. */
  ghost predicate Without(nodes: seq<Node>, i: nat, j: nat)
    requires i < |nodes| && j < |nodes|
    reads nodes`next, nodes`prev
  {
    Linked(nodes[j],
           if j + 1 == i then Next(nodes, i) else Next(nodes, j),
           if j == i + 1 || (j == 0 && i == |nodes| - 1) then Prev(nodes, i) else Prev(nodes, j))
  }

  lemma WithoutIs(nodes: seq<Node>, i: nat, j: nat)
    requires i < |nodes| && j < |nodes|
    requires nodes[j].next == if j + 1 == i then Next(nodes, i) else Next(nodes, j)
    requires nodes[j].prev == if j == i + 1 || (j == 0 && i == |nodes| - 1) then Prev(nodes, i) else Prev(nodes, j)
    ensures Without(nodes, i, j)
  {
  }

  lemma RemovedIsList(parent: Node, nodes: seq<Node>, i: nat)
    requires i < |nodes| && Distinct(nodes) && parent !in nodes
    requires parent.child == if i == 0 then Next(nodes, 0) else nodes[0]
    requires forall j :: 0 <= j < |nodes| && j != i ==> Without(nodes, i, j)
    ensures ListOf(parent, Removed(nodes, i))
  {
    var rest := Removed(nodes, i);
    forall k | 0 <= k < |rest|
      ensures Linked(rest[k], Next(rest, k), Prev(rest, k))
    {
      assert Without(nodes, i, if k < i then k else k + 1);
    }
  }

  /** cJSON_DetachItemFromArray */
  method DetachItemFromArray(list: Node?, which: int, ghost nodes: seq<Node>) returns (r: Node?)
    requires list != null ==> ListOf(list, nodes)
    modifies {list}`child, nodes`next, nodes`prev
    ensures r == if list != null && 0 <= which < |nodes| then nodes[which] else null
    ensures r != null ==> ListOf(list, Removed(nodes, which)) && r.next == null && r.prev == null
    ensures r == null && list != null ==> ListOf(list, nodes)
  {
    if which < 0 {
      return null;
    }
    var item := GetArrayItem(list, which, nodes);
    r := DetachItemViaPointer(list, item, nodes, which);
  }

  /**
   cJSON_InsertItemInArray: before the child at `which`, or at the end when there is none. Before a child
   any item is taken, even the list itself; the result is the longer list if and only if the item was
   neither the list nor a child of it and, at the end of a non-empty list, carried no `next`.
   */
  method InsertItemInArray(list: Node?, which: int, item: Node?, ghost nodes: seq<Node>) returns (ok: bool)
    requires list != null ==> ListOf(list, nodes)
    modifies {list}`child, {item}`next, {item}`prev, nodes`next, nodes`prev
    ensures ok <==> list != null && item != null && which >= 0 && (item != list || which < |nodes|)
    ensures ok ==>
              (ListOf(list, Inserted<Node>(nodes, which, item)) <==>
               IsNew(list, item, nodes) && (0 < |nodes| <= which ==> old(item.next) == null))
    ensures ok && which == 0 && nodes != [] ==> list.child == item
    ensures !ok && list != null ==> ListOf(list, nodes)
  {
    hide *;
    if which < 0 || item == null {
      return false;
    }
    var after := GetArrayItem(list, which, nodes);
    if after == null {
      InsertedAtEnd(nodes, which, item);
      if list != null {
        NewIs(list, item, nodes);
      }
      ok := AddItemToArray(list, item, nodes);
      return;
    }
    Shape(list, nodes);
    Links(list, nodes, which);
    Links(list, nodes, 0);
    AllLinked(list, nodes);
    if after != list.child && after.prev == null {
      return false;
    }
    item.next := after;
    item.prev := after.prev;
    after.prev := item;
    if after == list.child {
      list.child := item;
    } else {
      item.prev.next := item;
    }
    ok := true;
    NewIs(list, item, nodes);
    if !IsNew(list, item, nodes) {
      RepeatedIsNoList(list, nodes, item, which);
    } else {
      forall j | 0 <= j < |nodes|
        ensures WithInserted(nodes, which, item, j)
      {
        DistinctAt(nodes, j, which);
        if which > 0 {
          DistinctAt(nodes, j, which - 1);
        }
        WithInsertedIs(nodes, which, item, j);
      }
      InsertedIsList(list, nodes, which, item);
    }
  }

  lemma NewIs(list: Node, item: Node, nodes: seq<Node>)
    ensures IsNew(list, item, nodes) <==> item != list && item !in nodes
  {
  }

  lemma InsertedAtEnd(nodes: seq<Node>, i: nat, item: Node)
    ensures i >= |nodes| ==> Inserted(nodes, i, item) == nodes + [item]
  {
  }

  /** The links of a list into which `item` was inserted before position `i`. */
  ghost predicate WithInserted(nodes: seq<Node>, i: nat, item: Node, j: nat)
    requires i < |nodes| && j < |nodes|
    reads nodes`next, nodes`prev
  {
    Linked(nodes[j], if j + 1 == i then item else Next(nodes, j), if j == i then item else Prev(nodes, j))
  }

  lemma WithInsertedIs(nodes: seq<Node>, i: nat, item: Node, j: nat)
    requires i < |nodes| && j < |nodes|
    requires nodes[j].next == if j + 1 == i then item else Next(nodes, j)
    requires nodes[j].prev == if j == i then item else Prev(nodes, j)
    ensures WithInserted(nodes, i, item, j)
  {
  }

  lemma InsertedIsList(parent: Node, nodes: seq<Node>, i: nat, item: Node)
    requires i < |nodes| && Distinct(nodes) && parent !in nodes && item !in nodes && item != parent
    requires parent.child == if i == 0 then item else nodes[0]
    requires item.next == nodes[i] && item.prev == Prev(nodes, i)
    requires forall j :: 0 <= j < |nodes| ==> WithInserted(nodes, i, item, j)
    ensures ListOf(parent, Inserted(nodes, i, item))
  {
    var more := Inserted(nodes, i, item);
    forall k | 0 <= k < |more|
      ensures Linked(more[k], Next(more, k), Prev(more, k))
    {
      if k != i {
        assert WithInserted(nodes, i, item, if k < i then k else k - 1);
      }
    }
  }

  /**
   When a node that is no child, between `prev` and `next`, gives its place to `replacement`, the list is not
   touched: the replacement and the neighbours are no children, or are linked in this way already.
   */
  ghost predicate PassesBy(nodes: seq<Node>, prev: Node?, next: Node?, replacement: Node) {
    if replacement !in nodes then next == replacement || (next !in nodes && (prev == replacement || (prev !in nodes && next != null)))
    else
      && prev != replacement && next != replacement
      && forall j :: 0 <= j < |nodes| ==>
           && (nodes[j] == prev ==> Next(nodes, j) == replacement)
           && (nodes[j] == replacement ==> Next(nodes, j) == next && (Prev(nodes, j) == prev || (j == 0 && next == null)))
  }

  /**
   cJSON_ReplaceItemViaPointer: another node takes the place of the child at position `i`, and the result is
   the updated list if and only if that node is the same one or neither the parent nor another child. For a
   node that is no child, the list stays what it was if and only if the exchange passes it by.
   */
  method ReplaceItemViaPointer(parent: Node?, item: Node?, replacement: Node?, ghost nodes: seq<Node>, ghost i: nat)
    returns (ok: bool)
    requires parent != null ==> ListOf(parent, nodes)
    requires parent != null && item in nodes ==> i < |nodes| && nodes[i] == item
    modifies {parent}`child, {replacement}`next, {replacement}`prev, {item}`next, {item}`prev
    modifies Beside(item)`next, Beside(item)`prev, nodes`next, nodes`prev
    ensures ok <==> parent != null && item != null && replacement != null && nodes != []
    ensures ok && item in nodes ==>
              (ListOf(parent, nodes[i := replacement]) <==> replacement == item || IsNew(parent, replacement, nodes))
    ensures ok && item !in nodes ==>
              (ListOf(parent, nodes) <==>
               replacement == item || PassesBy(nodes, old(item.prev), old(item.next), replacement))
    ensures ok && replacement != item ==> item.next == null && item.prev == null
    ensures !ok && parent != null ==> ListOf(parent, nodes)
  {
    hide *;
    if parent == null || replacement == null || item == null {
      return false;
    }
    HeadIs(parent, nodes);
    if parent.child == null {
      return false;
    }
    if replacement == item {
      assert item in nodes ==> nodes[i := replacement] == nodes;
      return true;
    }
    Shape(parent, nodes);
    AllLinked(parent, nodes);
    BesideIs(item);
    if item in nodes {
      ChildLinks(parent, nodes, i);
    }
    ghost var prev, next := item.prev, item.next;
    replacement.next := item.next;
    replacement.prev := item.prev;
    if replacement.next != null {
      replacement.next.prev := replacement;
    }
    if parent.child == item {
      if parent.child.prev == parent.child {
        replacement.prev := replacement;
      }
      parent.child := replacement;
    } else {
      if replacement.prev != null {
        replacement.prev.next := replacement;
      }
      if replacement.next == null {
        parent.child.prev := replacement;
      }
    }
    item.next := null;
    item.prev := null;
    ok := true;
    NewIs(parent, replacement, nodes);
    if item !in nodes {
      forall j | 0 <= j < |nodes|
        ensures nodes[j] != item && (nodes[j] == nodes[0] <==> j == 0)
      {
        DistinctAt(nodes, j, 0);
      }
      PassedByIsList(parent, nodes, prev, next, replacement);
    } else if !IsNew(parent, replacement, nodes) {
      RepeatedReplacementIsNoList(parent, nodes, replacement, i);
    } else {
      forall j | 0 <= j < |nodes| && j != i
        ensures WithReplaced(nodes, i, replacement, j)
      {
        DistinctAt(nodes, j, i);
        DistinctAt(nodes, j, 0);
        if i > 0 {
          DistinctAt(nodes, j, i - 1);
        }
        if i + 1 < |nodes| {
          DistinctAt(nodes, j, i + 1);
        }
        WithReplacedIs(nodes, i, replacement, j);
      }
      DistinctAt(nodes, 0, |nodes| - 1);
      ReplacedIsList(parent, nodes, i, replacement);
    }
  }

  lemma PassedByIsList(parent: Node, nodes: seq<Node>, prev: Node?, next: Node?, replacement: Node)
    requires Distinct(nodes) && parent !in nodes && nodes != [] && parent.child == First(nodes)
    requires forall j :: 0 <= j < |nodes| ==>
               && nodes[j].next == (if nodes[j] == replacement then if next == replacement || prev == replacement then replacement else next
                                    else if nodes[j] == prev && next != replacement then replacement else Next(nodes, j))
               && nodes[j].prev == (if nodes[j] == next || (j == 0 && next == null && prev != replacement) then replacement
                                    else if nodes[j] == replacement then prev else Prev(nodes, j))
    ensures ListOf(parent, nodes) <==> PassesBy(nodes, prev, next, replacement)
  {
  }

  lemma RepeatedReplacementIsNoList(parent: Node, nodes: seq<Node>, item: Node, i: nat)
    requires i < |nodes| && nodes[i] != item && !IsNew(parent, item, nodes)
    ensures !ListOf(parent, nodes[i := item])
  {
    var all := nodes[i := item];
    assert all[i] == item;
    if item in nodes {
      var k: nat :| k < |nodes| && nodes[k] == item;
      assert all[k] == item;
    }
  }

  /** cJSON_ReplaceItemInArray */
  method ReplaceItemInArray(list: Node?, which: int, item: Node?, ghost nodes: seq<Node>) returns (ok: bool)
    requires list != null ==> ListOf(list, nodes)
    modifies {list}`child, {item}`next, {item}`prev, nodes`next, nodes`prev
    ensures ok <==> list != null && item != null && 0 <= which < |nodes|
    ensures ok ==>
              (ListOf(list, nodes[which := item]) <==> item == nodes[which] || IsNew(list, item, nodes))
    ensures !ok && list != null ==> ListOf(list, nodes)
  {
    hide *;
    if which < 0 {
      return false;
    }
    var old' := GetArrayItem(list, which, nodes);
    if list == null || item == null || old' == null {
      return false;
    }
    BesideChild(list, nodes, which);
    ok := ReplaceItemViaPointer(list, old', item, nodes, which);
  }

  /** The links of a list in which `item` took the place of the node at `i`. */
  ghost predicate WithReplaced(nodes: seq<Node>, i: nat, item: Node, j: nat)
    requires i < |nodes| && j < |nodes|
    reads nodes`next, nodes`prev
  {
    Linked(nodes[j],
           if j + 1 == i then item else Next(nodes, j),
           if j == i + 1 || (j == 0 && i == |nodes| - 1) then item else Prev(nodes, j))
  }

  lemma WithReplacedIs(nodes: seq<Node>, i: nat, item: Node, j: nat)
    requires i < |nodes| && j < |nodes|
    requires nodes[j].next == if j + 1 == i then item else Next(nodes, j)
    requires nodes[j].prev == if j == i + 1 || (j == 0 && i == |nodes| - 1) then item else Prev(nodes, j)
    ensures WithReplaced(nodes, i, item, j)
  {
  }

  lemma ReplacedIsList(parent: Node, nodes: seq<Node>, i: nat, item: Node)
    requires i < |nodes| && Distinct(nodes) && parent !in nodes && item !in nodes && item != parent
    requires parent.child == if i == 0 then item else nodes[0]
    requires item.next == Next(nodes, i) && item.prev == if |nodes| == 1 then item else Prev(nodes, i)
    requires forall j :: 0 <= j < |nodes| && j != i ==> WithReplaced(nodes, i, item, j)
    ensures ListOf(parent, nodes[i := item])
  {
    var all := nodes[i := item];
    forall k | 0 <= k < |all|
      ensures Linked(all[k], Next(all, k), Prev(all, k))
    {
      if k != i {
        assert WithReplaced(nodes, i, item, k);
      }
    }
  }

  // ---- Where the shape is lost, and where one call undoes another ----

  lemma EmptyList(list: Node)
    requires list.child == null
    ensures ListOf(list, [])
  {
  }

  lemma SelfIsNoChild(list: Node)
    requires list.child == list
    ensures forall nodes :: !ListOf(list, nodes)
  {
    forall nodes: seq<Node>
      ensures !ListOf(list, nodes)
    {
      assert nodes != [] ==> First(nodes) == nodes[0];
    }
  }

  /** A list of one new child. */
  method OneChild() returns (list: Node, child: Node)
    ensures fresh(list) && fresh(child) && ListOf(list, [child])
  {
    list := new Node();
    child := new Node();
    EmptyList(list);
    hide *;
    var added := AddItemToArray(list, child, []);
    assert [] + [child] == [child];
  }

  /** A list inserted before its own first child becomes its own child, and has no list of children any more. */
  method InsertListIntoItself() returns (list: Node)
    ensures list.child == list && forall nodes :: !ListOf(list, nodes)
  {
    hide *;
    var child;
    list, child := OneChild();
    NewIs(list, list, [child]);
    var inserted := InsertItemInArray(list, 0, list, [child]);
    SelfIsNoChild(list);
  }

  lemma TailIsNotLast(list: Node)
    requires list.child != null && list.child.next != null && list.child.prev == list.child.next
    requires list.child.next.next != null
    ensures forall nodes :: !ListOf(list, nodes)
  {
    forall nodes: seq<Node>
      ensures !ListOf(list, nodes)
    {
      if ListOf(list, nodes) {
        TailEndsList(list, nodes);
      }
    }
    hide *;
  }

  /** A node that is appended while it still has a `next` leads the list into other nodes. */
  method AppendWithStaleNext() returns (list: Node)
    ensures forall nodes :: !ListOf(list, nodes)
  {
    hide *;
    var first;
    list, first := OneChild();
    var item := new Node();
    var other := new Node();
    item.next := other;
    var added := AddItemToArray(list, item, [first]);
    TailIsNotLast(list);
  }

  /** If the tail is the second node, nothing follows it. */
  lemma TailEndsList(list: Node, nodes: seq<Node>)
    requires ListOf(list, nodes) && list.child != null && list.child.next != null
    ensures list.child.prev == list.child.next ==> list.child.next.next == null
  {
    Links(list, nodes, 0);
    if |nodes| > 1 {
      Links(list, nodes, 1);
      DistinctAt(nodes, 1, |nodes| - 1);
    }
  }

  lemma InsertedHolds(nodes: seq<Node>, i: nat, item: Node)
    ensures var more := Inserted(nodes, i, item);
            && more[if i < |nodes| then i else |nodes|] == item
            && forall k :: 0 <= k < |more| ==> more[k] == item || more[k] in nodes
  {
  }

  /** Detaching what was inserted restores the list, wherever it was inserted. */
  method InsertThenDetach(list: Node, which: nat, item: Node, ghost nodes: seq<Node>) returns (r: Node?)
    requires ListOf(list, nodes) && IsNew(list, item, nodes) && item.next == null
    modifies list`child, item`next, item`prev, nodes`next, nodes`prev
    ensures ListOf(list, nodes) && r == item && item.next == null && item.prev == null
  {
    hide *;
    NewIs(list, item, nodes);
    InsertedHolds(nodes, which, item);
    var size := GetArraySize(list, nodes);
    var ok := InsertItemInArray(list, which, item, nodes);
    r := DetachItemFromArray(list, if which < size then which else size, Inserted(nodes, which, item));
    DetachUndoesInsert(nodes, which, item);
  }
}
