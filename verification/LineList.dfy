/** The time-ordered, doubly linked list of history lines of libtecla/history.c. */
module LineLists {
  import opened Basics
  import opened FreeLists

  /** GLH_LINE_INCR. */
  const LINE_INCR: int := 100

  datatype LineNode = LineNode(id: int, group: int, next: int, prev: int, line: int)

  /** What an entry of the list records: the id and group of a line, and where it is stored. */
  datatype Item = Item(id: int, group: int, line: int)

  function ItemOf(n: LineNode): Item {
    Item(n.id, n.group, n.line)
  }

  function NextOf(order: seq<int>, k: int): int {
    if 0 <= k + 1 < |order| then order[k + 1] else NULL
  }

  function PrevOf(order: seq<int>, k: int): int {
    if 0 <= k - 1 < |order| then order[k - 1] else NULL
  }

  ghost predicate EntryOk(node: map<int, LineNode>, order: seq<int>, items: seq<Item>, k: int) {
    && 0 <= k < |order| == |items|
    && order[k] in node
    && node[order[k]] == LineNode(items[k].id, items[k].group, NextOf(order, k), PrevOf(order, k), items[k].line)
  }

  /** `order` are the nodes from the oldest line to the newest, and `items` what they record. */
  ghost predicate Ordered(node: map<int, LineNode>, head: int, tail: int, order: seq<int>, items: seq<Item>) {
    && Distinct(order) && |items| == |order| && NULL !in node
    && (forall k :: 0 <= k < |order| ==> EntryOk(node, order, items, k))
    && (forall a :: a in node ==> a in order)
    && head == NextOf(order, -1)
    && tail == PrevOf(order, |order|)
  }

  lemma EntryAt(node: map<int, LineNode>, head: int, tail: int, order: seq<int>, items: seq<Item>, k: int)
    requires Ordered(node, head, tail, order, items) && 0 <= k < |order|
    ensures EntryOk(node, order, items, k) && order[k] != NULL
    ensures k + 1 < |order| ==> order[k + 1] in node && order[k + 1] != order[k] && order[k + 1] != NULL
    ensures k > 0 ==> order[k - 1] in node && order[k - 1] != order[k] && order[k - 1] != NULL
  {
    assert k + 1 < |order| ==> EntryOk(node, order, items, k + 1);
    assert k > 0 ==> EntryOk(node, order, items, k - 1);
  }

  lemma Ends(node: map<int, LineNode>, head: int, tail: int, order: seq<int>, items: seq<Item>)
    requires Ordered(node, head, tail, order, items)
    ensures |items| == |order| && Distinct(order) && NULL !in node
    ensures head == NextOf(order, -1) && tail == PrevOf(order, |order|)
    ensures order != [] ==> head in node && tail in node
    ensures order == [] <==> head == NULL
    ensures order == [] <==> tail == NULL
  {
    assert order != [] ==> EntryOk(node, order, items, 0) && EntryOk(node, order, items, |order| - 1);
  }

  lemma OrderedAppend(node: map<int, LineNode>, head: int, tail: int, order: seq<int>, items: seq<Item>,
                      a: int, it: Item)
    requires Ordered(node, head, tail, order, items) && a !in node && a != NULL
    ensures tail != NULL ==> tail in node
    ensures var node1 := if tail != NULL then node[tail := node[tail].(next := a)] else node;
            Ordered(node1[a := LineNode(it.id, it.group, NULL, tail, it.line)], if head != NULL then head else a, a,
                    order + [a], items + [it])
  {
    Ends(node, head, tail, order, items);
    var node1 := if tail != NULL then node[tail := node[tail].(next := a)] else node;
    var node' := node1[a := LineNode(it.id, it.group, NULL, tail, it.line)];
    var order' := order + [a];
    forall k | 0 <= k < |order|
      ensures order[k] != a
    {
      assert EntryOk(node, order, items, k);
    }
    forall x | x in node'
      ensures x in order'
    {
      if x == a { assert order'[|order|] == a; }
    }
    forall k | 0 <= k < |order'|
      ensures EntryOk(node', order', items + [it], k)
    {
      if k < |order| { assert EntryOk(node, order, items, k); }
    }
  }

  /** The nodes after the neighbours of node `a` have been linked to each other. */
  ghost function Bridged(node: map<int, LineNode>, a: int): map<int, LineNode>
    requires a in node
    requires node[a].prev != NULL ==> node[a].prev in node
    requires node[a].next != NULL ==> node[a].next in node
  {
    var n := node[a];
    var n1 := if n.prev != NULL then node[n.prev := node[n.prev].(next := n.next)] else node;
    if n.next != NULL then n1[n.next := n1[n.next].(prev := n.prev)] else n1
  }

  lemma OrderedRemove(node: map<int, LineNode>, head: int, tail: int, order: seq<int>, items: seq<Item>, k: int)
    requires Ordered(node, head, tail, order, items) && 0 <= k < |order|
    ensures var a := order[k]; a in node
    ensures var n := node[order[k]];
            && (n.prev != NULL ==> n.prev in node) && (n.next != NULL ==> n.next in node)
            && n.prev != order[k] && n.next != order[k]
            && (Bridged(node, order[k]) - {order[k]}).Keys == node.Keys - {order[k]}
            && Ordered(Bridged(node, order[k]) - {order[k]}, if n.prev != NULL then head else n.next,
                       if n.next != NULL then tail else n.prev, Without(order, k), Without(items, k))
  {
    EntryAt(node, head, tail, order, items, k);
    var d := Without(order, k);
    var node' := Bridged(node, order[k]) - {order[k]};
    forall j | 0 <= j < |d|
      ensures EntryOk(node', d, Without(items, k), j)
    {
      assert EntryOk(node, order, items, if j < k then j else j + 1);
    }
    forall x | x in node'
      ensures x in d
    {
      var j :| 0 <= j < |order| && order[j] == x;
      assert d[if j < k then j else j - 1] == x;
    }
  }

  class LineList {
    const mem: FreeList
    var node: map<int, LineNode>
    var head: int
    var tail: int
    ghost var order: seq<int>
    ghost var items: seq<Item>

    ghost predicate Valid()
      reads this, mem
    {
      && mem.Valid()
      && node.Keys == mem.busy
      && Ordered(node, head, tail, order, items)
    }

    constructor ()
      ensures Valid() && fresh(mem) && items == [] && order == []
    {
      mem := new FreeList(LINE_INCR);
      node := map[];
      head, tail := NULL, NULL;
      order, items := [], [];
    }

    lemma At(k: int)
      requires Valid() && 0 <= k < |order|
      ensures |items| == |order| && order[k] in node && order[k] != NULL && ItemOf(node[order[k]]) == items[k]
      ensures node[order[k]].next == NextOf(order, k) && node[order[k]].prev == PrevOf(order, k)
    {
      EntryAt(node, head, tail, order, items, k);
    }

    lemma Bounds()
      requires Valid()
      ensures |items| == |order| && NULL !in order && Distinct(order)
      ensures head == NextOf(order, -1) && tail == PrevOf(order, |order|)
    {
      forall k | 0 <= k < |order|
        ensures order[k] != NULL
      {
        EntryAt(node, head, tail, order, items, k);
      }
    }

    /** Append an entry to the list. */
    method Append(id: int, group: int, line: int) returns (a: int)
      requires Valid()
      modifies this, mem
      ensures Valid() && items == old(items) + [Item(id, group, line)] && order == old(order) + [a]
      ensures a !in old(node) && tail == a && a in node
      ensures forall x :: x in old(node) ==> x in node && ItemOf(node[x]) == old(ItemOf(node[x]))
    {
      hide Ordered, FreeList.Valid, Distinct, NextOf, PrevOf;
      a := mem.New();
      Ends(node, head, tail, order, items);
      OrderedAppend(node, head, tail, order, items, a, Item(id, group, line));
      if head != NULL {
        node := node[tail := node[tail].(next := a)];
      } else {
        head := a;
      }
      node := node[a := LineNode(id, group, NULL, tail, line)];
      tail := a;
      order, items := order + [a], items + [Item(id, group, line)];
    }

    /** Take entry k, the node `a`, off the list. */
    method Remove(a: int, ghost k: int)
      requires Valid() && 0 <= k < |order| && order[k] == a
      modifies this, mem
      ensures Valid() && |old(items)| == |old(order)|
      ensures items == Without(old(items), k) && order == Without(old(order), k)
    {
      hide Ordered, FreeList.Valid, Distinct, Without, NextOf, PrevOf;
      OrderedRemove(node, head, tail, order, items, k);
      Ends(node, head, tail, order, items);
      var n := node[a];
      if n.prev != NULL {
        node := node[n.prev := node[n.prev].(next := n.next)];
      } else {
        head := n.next;
      }
      if n.next != NULL {
        node := node[n.next := node[n.next].(prev := n.prev)];
      } else {
        tail := n.prev;
      }
      assert node == Bridged(old(node), a);
      node := node - {a};
      mem.Del(a);
      order, items := Without(order, k), Without(items, k);
    }

    /** Forget every entry. */
    method Clear()
      requires Valid()
      modifies this, mem
      ensures Valid() && items == [] && order == []
    {
      hide FreeList.Valid;
      mem.Reset();
      node := map[];
      head, tail := NULL, NULL;
      order, items := [], [];
    }
  }
}
