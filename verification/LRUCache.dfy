/** The recency list of the buffer pool: a doubly linked list of pages and a map to its nodes. */
module Recency {
  import opened Collections
  import opened Ids

  datatype Node = Node(prev: Option<PageId>, next: Option<PageId>)

  /** The links of position `i` in a list. */
  function LinksAt(order: seq<PageId>, i: nat): Node
    requires i < |order|
  {
    Node(if i > 0 then Some(order[i - 1]) else None, if i + 1 < |order| then Some(order[i + 1]) else None)
  }

  /** Every page of the list has a node with the links of its position. */
  ghost predicate InPlace(nodes: map<PageId, Node>, order: seq<PageId>) {
    forall i :: 0 <= i < |order| ==> order[i] in nodes && nodes[order[i]] == LinksAt(order, i)
  }

  function First(order: seq<PageId>): Option<PageId> {
    if order == [] then None else Some(order[0])
  }

  function Last(order: seq<PageId>): Option<PageId> {
    if order == [] then None else Some(order[|order| - 1])
  }

  /** The links spell out `order`, most recently used first, and the map holds exactly its pages. */
  ghost predicate Linked(head: Option<PageId>, tail: Option<PageId>, nodes: map<PageId, Node>, order: seq<PageId>) {
    && Distinct(order) && nodes.Keys == Members(order)
    && head == First(order) && tail == Last(order)
    && InPlace(nodes, order)
  }

  /** The list without a page. */
  function Dropped(order: seq<PageId>, p: PageId): seq<PageId> {
    if p in order then RemoveAt(order, IndexOf(order, p)) else order
  }

  function Reversed(order: seq<PageId>): (r: seq<PageId>)
    ensures |r| == |order| && forall i :: 0 <= i < |r| ==> r[i] == order[|order| - 1 - i]
  {
    seq(|order|, i requires 0 <= i < |order| => order[|order| - 1 - i])
  }

  /** Neighbours point at each other, and only the ends lack a neighbour. */
  lemma LinksAreMutual(head: Option<PageId>, tail: Option<PageId>, nodes: map<PageId, Node>, order: seq<PageId>,
                       p: PageId, q: PageId)
    requires Linked(head, tail, nodes, order) && p in nodes && q in nodes
    ensures nodes[p].next == Some(q) <==> nodes[q].prev == Some(p)
    ensures nodes[p].prev == None <==> head == Some(p)
    ensures nodes[p].next == None <==> tail == Some(p)
  {
    var i, j := IndexOf(order, p), IndexOf(order, q);
  }

  lemma DroppedMembers(order: seq<PageId>, p: PageId)
    requires Distinct(order)
    ensures Distinct(Dropped(order, p)) && Members(Dropped(order, p)) == Members(order) - {p}
    ensures |Dropped(order, p)| == |order| - if p in order then 1 else 0
  {
    if p in order {
      RemoveAtMembers(order, IndexOf(order, p));
    } else {
      assert Members(order) - {p} == Members(order);
    }
  }

  /** The links once `p`, in front of everything, points at the old head and back. */
  function Fronted(nodes: map<PageId, Node>, head: Option<PageId>, p: PageId): map<PageId, Node>
    requires head.Some? ==> head.value in nodes
  {
    var nodes1 := nodes[p := Node(None, head)];
    if head.Some? then nodes1[head.value := nodes1[head.value].(prev := Some(p))] else nodes1
  }

  lemma FrontedInPlace(nodes: map<PageId, Node>, order: seq<PageId>, p: PageId)
    requires Distinct(order) && InPlace(nodes, order) && p !in Members(order)
    ensures InPlace(Fronted(nodes, First(order), p), [p] + order) && Distinct([p] + order)
  {
    assert forall i :: 0 <= i < |order| ==> order[i] in Members(order);
    var nodes1, order1 := Fronted(nodes, First(order), p), [p] + order;
    forall i | 0 <= i < |order1|
      ensures order1[i] in nodes1 && nodes1[order1[i]] == LinksAt(order1, i)
    {
      if i > 0 {
        assert order1[i] == order[i - 1];
        assert i > 1 ==> order[i - 1] != order[0];
      }
    }
  }

  /** The links once the neighbours of `p` point past it. */
  function Bridged(nodes: map<PageId, Node>, p: PageId): map<PageId, Node>
    requires p in nodes && (nodes[p].prev.Some? ==> nodes[p].prev.value in nodes) &&
             (nodes[p].next.Some? ==> nodes[p].next.value in nodes)
  {
    var node := nodes[p];
    var nodes1 := if node.prev.Some? then nodes[node.prev.value := nodes[node.prev.value].(next := node.next)]
                  else nodes;
    if node.next.Some? then nodes1[node.next.value := nodes1[node.next.value].(prev := node.prev)] else nodes1
  }

  /** The links that position `j` needs once position `i` is gone. */
  function LinksPast(order: seq<PageId>, i: nat, j: nat): Node
    requires i < |order| && j < |order| && j != i
  {
    Node(if j == i + 1 then LinksAt(order, i).prev else LinksAt(order, j).prev,
         if j + 1 == i then LinksAt(order, i).next else LinksAt(order, j).next)
  }

  lemma BridgedAt(nodes: map<PageId, Node>, order: seq<PageId>, i: nat, j: nat)
    requires Distinct(order) && i < |order| && j < |order| && j != i
    requires forall k :: 0 <= k < |order| ==> order[k] in nodes
    requires nodes[order[i]] == LinksAt(order, i) && nodes[order[j]] == LinksAt(order, j)
    ensures Bridged(nodes, order[i])[order[j]] == LinksPast(order, i, j)
  {
    assert order[j] != order[i];
    assert i > 0 && j != i - 1 ==> order[j] != order[i - 1];
    assert i + 1 < |order| && j != i + 1 ==> order[j] != order[i + 1];
  }

  lemma LinksAfterRemove(order: seq<PageId>, i: nat, j: nat)
    requires i < |order| && j < |order| && j != i
    ensures var k := if j < i then j else j - 1;
            RemoveAt(order, i)[k] == order[j] && LinksAt(RemoveAt(order, i), k) == LinksPast(order, i, j)
  {
  }

  lemma BridgedInPlace(nodes: map<PageId, Node>, order: seq<PageId>, i: nat)
    requires Distinct(order) && InPlace(nodes, order) && i < |order|
    requires nodes[order[i]] == LinksAt(order, i)
    requires (i > 0 ==> order[i - 1] in nodes) && (i + 1 < |order| ==> order[i + 1] in nodes)
    ensures InPlace(Bridged(nodes, order[i])[order[i] := Node(None, None)], RemoveAt(order, i))
  {
    hide LinksPast, Bridged;
    var nodes1, rest := Bridged(nodes, order[i])[order[i] := Node(None, None)], RemoveAt(order, i);
    forall k | 0 <= k < |rest|
      ensures rest[k] in nodes1 && nodes1[rest[k]] == LinksAt(rest, k)
    {
      hide LinksAt;
      var j := if k < i then k else k + 1;
      LinksAfterRemove(order, i, j);
      BridgedAt(nodes, order, i, j);
      BridgedKeys(nodes, order, i);
      assert order[j] != order[i];
    }
  }

  lemma BridgedKeys(nodes: map<PageId, Node>, order: seq<PageId>, i: nat)
    requires i < |order| && order[i] in nodes && nodes[order[i]] == LinksAt(order, i)
    requires (i > 0 ==> order[i - 1] in nodes) && (i + 1 < |order| ==> order[i + 1] in nodes)
    ensures Bridged(nodes, order[i]).Keys == nodes.Keys
  {
  }

  class LRUCache {
    var head: Option<PageId>
    var tail: Option<PageId>
    var nodes: map<PageId, Node>
    ghost var order: seq<PageId>

    ghost predicate Valid()
      reads this
    {
      Linked(head, tail, nodes, order)
    }

    constructor ()
      ensures Valid() && order == []
    {
      head, tail, nodes, order := None, None, map[], [];
    }

    /** Records an access: the page moves to, or enters at, the most recently used end. */
    method Touch(p: PageId)
      requires Valid()
      modifies this
      ensures Valid() && order == [p] + Dropped(old(order), p)
    {
      if p in nodes {
        Unlink(p);
        LinkFront(p);
      } else {
        hide Distinct, InPlace;
        assert p !in order by {
          assert p !in Members(order);
        }
        hide Members;
        nodes := nodes[p := Node(None, None)];
        assert nodes - {p} == old(nodes);
        LinkFront(p);
      }
    }

    /** Stops tracking a page. */
    method Remove(p: PageId)
      requires Valid()
      modifies this
      ensures Valid() && order == Dropped(old(order), p)
    {
      if p in nodes {
        Unlink(p);
        nodes := nodes - {p};
      } else {
        hide Distinct, InPlace;
        assert p !in Members(order);
      }
    }

    /** Pages from the least recently used on. */
    method EvictionOrder() returns (pages: seq<PageId>)
      requires Valid()
      ensures pages == Reversed(order)
    {
      hide Members, Distinct;
      pages := [];
      var node := tail;
      while node != None
        invariant |pages| <= |order| && pages == Reversed(order)[..|pages|]
        invariant node == if |pages| < |order| then Some(order[|order| - 1 - |pages|]) else None
        decreases |order| - |pages|
      {
        var i := |order| - 1 - |pages|;
        assert nodes[order[i]] == LinksAt(order, i);
        pages := pages + [node.value];
        node := nodes[node.value].prev;
      }
    }

    /** Pages from the most recently used on. */
    method UsageOrder() returns (pages: seq<PageId>)
      requires Valid()
      ensures pages == order
    {
      hide Members, Distinct;
      pages := [];
      var node := head;
      while node != None
        invariant |pages| <= |order| && pages == order[..|pages|]
        invariant node == if |pages| < |order| then Some(order[|pages|]) else None
        decreases |order| - |pages|
      {
        assert nodes[order[|pages|]] == LinksAt(order, |pages|);
        pages := pages + [node.value];
        node := nodes[node.value].next;
      }
    }

    /** Puts a detached node at the front. */
    method LinkFront(p: PageId)
      requires p in nodes && Linked(head, tail, nodes - {p}, order)
      modifies this
      ensures Valid() && order == [p] + old(order)
    {
      hide Members, Distinct, InPlace;
      FrontedInPlace(nodes - {p}, order, p);
      MembersOfSum([p], order);
      MembersOfOne(p);
      HeadIsNode(nodes - {p}, order);
      assert Fronted(nodes, head, p) == Fronted(nodes - {p}, head, p);
      nodes := nodes[p := Node(None, head)];
      if head.Some? {
        nodes := nodes[head.value := nodes[head.value].(prev := Some(p))];
      }
      head := Some(p);
      if tail == None {
        tail := Some(p);
      }
      order := [p] + order;
    }

    /** Takes a node out of the list and clears its links. */
    method Unlink(p: PageId)
      requires Valid() && p in nodes
      modifies this
      ensures p in nodes && order == Dropped(old(order), p)
      ensures Linked(head, tail, nodes - {p}, order)
    {
      hide Distinct, InPlace;
      ghost var i := IndexOf(order, p);
      NodeAt(nodes, order, i);
      BridgedInPlace(nodes, order, i);
      RemoveAtMembers(order, i);
      hide Members;
      var node := nodes[p];
      if node.prev.Some? {
        nodes := nodes[node.prev.value := nodes[node.prev.value].(next := node.next)];
      } else {
        head := node.next;
      }
      if node.next.Some? {
        nodes := nodes[node.next.value := nodes[node.next.value].(prev := node.prev)];
      } else {
        tail := node.prev;
      }
      nodes := nodes[p := Node(None, None)];
      order := RemoveAt(order, i);
      StillInPlace(nodes, order, p);
    }
  }

  lemma HeadIsNode(nodes: map<PageId, Node>, order: seq<PageId>)
    requires InPlace(nodes, order)
    ensures First(order).Some? ==> First(order).value in nodes
  {
  }

  lemma NodeAt(nodes: map<PageId, Node>, order: seq<PageId>, i: nat)
    requires InPlace(nodes, order) && i < |order|
    ensures order[i] in nodes && nodes[order[i]] == LinksAt(order, i)
    ensures i > 0 ==> order[i - 1] in nodes
    ensures i + 1 < |order| ==> order[i + 1] in nodes
  {
  }

  lemma StillInPlace(nodes: map<PageId, Node>, order: seq<PageId>, p: PageId)
    requires InPlace(nodes, order) && p !in Members(order)
    ensures InPlace(nodes - {p}, order)
  {
    assert forall i :: 0 <= i < |order| ==> order[i] in Members(order);
  }
}
