/** Finite directed graphs, reachability and strongly connected components. */
module Graphs {
  import opened Collections

  type Node = int

  /** Adjacency map; a node without an entry has no outgoing edge. */
  type Graph = map<Node, set<Node>>

  function Succ(g: Graph, x: Node): set<Node> {
    if x in g then g[x] else {}
  }

  function Vertices(g: Graph): set<Node> {
    g.Keys + set x, y | x in g && y in g[x] :: y
  }

  lemma SuccIsVertex(g: Graph, x: Node, y: Node)
    requires y in Succ(g, x)
    ensures y in Vertices(g)
  {
  }

  ghost predicate IsPath(g: Graph, p: seq<Node>) {
    && p != []
    && forall i :: 0 <= i < |p| - 1 ==> p[i + 1] in Succ(g, p[i])
  }

  ghost predicate Reach(g: Graph, x: Node, y: Node) {
    exists p :: IsPath(g, p) && p[0] == x && p[|p| - 1] == y
  }

  ghost predicate Closed(g: Graph, s: set<Node>) {
    forall x, y :: x in s && y in Succ(g, x) ==> y in s
  }

  /** A strongly connected component: mutually reachable and maximal. */
  ghost predicate IsScc(g: Graph, c: set<Node>) {
    && c != {}
    && (forall x, y :: x in c && y in c ==> Reach(g, x, y))
    && (forall x, y :: x in c && Reach(g, x, y) && Reach(g, y, x) ==> y in c)
  }

  lemma ReachSelf(g: Graph, x: Node)
    ensures Reach(g, x, x)
  {
    assert IsPath(g, [x]);
  }

  lemma ReachEdge(g: Graph, x: Node, y: Node)
    requires y in Succ(g, x)
    ensures Reach(g, x, y)
  {
    var p := [x, y];
    assert IsPath(g, p) && p[0] == x && p[|p| - 1] == y;
  }

  lemma ReachTrans(g: Graph, x: Node, y: Node, z: Node)
    requires Reach(g, x, y) && Reach(g, y, z)
    ensures Reach(g, x, z)
  {
    var p :| IsPath(g, p) && p[0] == x && p[|p| - 1] == y;
    var q :| IsPath(g, q) && q[0] == y && q[|q| - 1] == z;
    var r := p + q[1..];
    forall i | 0 <= i < |r| - 1
      ensures r[i + 1] in Succ(g, r[i])
    {
      if i >= |p| - 1 {
        assert q[i - |p| + 2] in Succ(g, q[i - |p| + 1]);
      }
    }
    assert IsPath(g, r) && r[0] == x && r[|r| - 1] == z;
  }

  /** Nothing outside a closed set is reachable from inside it. */
  lemma ReachStaysInside(g: Graph, s: set<Node>, x: Node, y: Node)
    requires Closed(g, s) && x in s && Reach(g, x, y)
    ensures y in s
  {
    var p :| IsPath(g, p) && p[0] == x && p[|p| - 1] == y;
    for i := 0 to |p| - 1
      invariant p[i] in s
    {
      var u, v := p[i], p[i + 1];
      assert v in Succ(g, u);
    }
  }

  lemma ReachAlong(g: Graph, p: seq<Node>, i: int, j: int)
    requires IsPath(g, p) && 0 <= i <= j < |p|
    ensures Reach(g, p[i], p[j])
  {
    var q := p[i..j + 1];
    assert IsPath(g, q) && q[0] == p[i] && q[|q| - 1] == p[j];
  }

  /** A node that reaches a different node has an outgoing edge. */
  lemma ReachOtherHasEdge(g: Graph, x: Node, y: Node)
    requires Reach(g, x, y) && x != y
    ensures x in g && exists z :: z in Succ(g, x)
  {
    var p :| IsPath(g, p) && p[0] == x && p[|p| - 1] == y;
    var z := p[0 + 1];
    assert z in Succ(g, p[0]);
  }

  lemma SccsMeetOnlyIfEqual(g: Graph, c: set<Node>, d: set<Node>, x: Node)
    requires IsScc(g, c) && IsScc(g, d) && x in c && x in d
    ensures c == d
  {
    forall y
      ensures y in c <==> y in d
    {
      if y in c {
        assert Reach(g, x, y) && Reach(g, y, x);
      }
      if y in d {
        assert Reach(g, x, y) && Reach(g, y, x);
      }
    }
  }

  lemma SccHasEdges(g: Graph, c: set<Node>, x: Node)
    requires IsScc(g, c) && |c| >= 2 && x in c
    ensures x in g
  {
    var rest := c - {x};
    assert c * {x} == {x};
    assert |rest| == |c| - |c * {x}|;
    var y := Pick(rest);
    assert y in rest;
    ReachOtherHasEdge(g, x, y);
  }

  ghost predicate Mutual(g: Graph, x: Node, y: Node) {
    x != y && Reach(g, x, y) && Reach(g, y, x)
  }

  /** The nodes that lie on a cycle through at least one other node. */
  ghost function CyclicNodes(g: Graph): set<Node> {
    set x | x in g && exists y :: Mutual(g, x, y)
  }

  /** Two mutually reachable nodes share a component. */
  lemma MutualInScc(g: Graph, x: Node, y: Node)
    requires Mutual(g, x, y)
    ensures exists c :: IsScc(g, c) && |c| >= 2 && x in c && y in c
  {
    hide Reach;
    var c := set z | z in Vertices(g) && Reach(g, x, z) && Reach(g, z, x);
    ReachOtherIsVertex(g, x, y);
    ReachOtherIsVertex(g, y, x);
    ReachSelf(g, x);
    forall u, v | u in c && v in c
      ensures Reach(g, u, v)
    {
      ReachTrans(g, u, x, v);
    }
    forall u, v | u in c && Reach(g, u, v) && Reach(g, v, u)
      ensures v in c
    {
      ReachTrans(g, x, u, v);
      ReachTrans(g, v, u, x);
      if u != v {
        ReachOtherIsVertex(g, v, u);
      }
    }
    CardinalityMonotone({x, y}, c);
  }

  lemma ReachOtherIsVertex(g: Graph, x: Node, y: Node)
    requires Reach(g, x, y) && x != y
    ensures x in Vertices(g)
  {
    ReachOtherHasEdge(g, x, y);
  }

  lemma FirstStep(g: Graph, x: Node, y: Node) returns (z: Node)
    requires Reach(g, x, y) && x != y
    ensures z in Succ(g, x) && Reach(g, z, y)
  {
    var p :| IsPath(g, p) && p[0] == x && p[|p| - 1] == y;
    z := p[0 + 1];
    ReachAlong(g, p, 1, |p| - 1);
  }
}
