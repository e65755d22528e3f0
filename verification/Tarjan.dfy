/** The depth-first search of Tarjan that finds every deadlock cycle. */
module Tarjan {
  import opened Collections
  import opened Graphs
  import opened Sorting

  /** The stack holds the open nodes in the order they were numbered. */
  ghost predicate Numbered(index: map<Node, nat>, nextIndex: nat, stack: seq<Node>) {
    && (forall i :: 0 <= i < |stack| ==> stack[i] in index)
    && (forall x :: x in index ==> index[x] < nextIndex)
    && (forall i, j :: 0 <= i < j < |stack| ==> index[stack[i]] < index[stack[j]])
  }

  /** Each open node reaches all later ones, and some unfinished earlier one. */
  ghost predicate Linked(g: Graph, index: map<Node, nat>, stack: seq<Node>, grays: set<Node>)
    requires forall i :: 0 <= i < |stack| ==> stack[i] in index
  {
    && grays <= Members(stack)
    && (forall i, j {:trigger Reach(g, stack[i], stack[j])} :: 0 <= i <= j < |stack| ==> Reach(g, stack[i], stack[j]))
    && (forall i {:trigger LinksBack(g, index, grays, stack[i])} :: 0 <= i < |stack| ==>
        LinksBack(g, index, grays, stack[i]))
  }

  ghost predicate LinksBack(g: Graph, index: map<Node, nat>, grays: set<Node>, y: Node)
    requires y in index
  {
    exists x :: x in grays && x in index && index[x] <= index[y] && Reach(g, y, x)
  }

  ghost predicate Explored(g: Graph, index: map<Node, nat>, grays: set<Node>) {
    forall x, y :: x in index && x !in grays && y in Succ(g, x) ==> y in index
  }

  /** The finished nodes are closed, and partitioned by the components found. */
  ghost predicate Partitioned(g: Graph, done: set<Node>, sccs: seq<set<Node>>) {
    && Closed(g, done)
    && (forall i :: 0 <= i < |sccs| ==> IsScc(g, sccs[i]) && sccs[i] <= done)
    && (forall x :: x in done ==> exists i :: 0 <= i < |sccs| && x in sccs[i])
    && (forall i, j :: 0 <= i < j < |sccs| ==> sccs[i] !! sccs[j])
  }

  ghost predicate Extends(index0: map<Node, nat>, lowLink0: map<Node, nat>, index1: map<Node, nat>,
                          lowLink1: map<Node, nat>)
    requires index0.Keys == lowLink0.Keys && index1.Keys == lowLink1.Keys
  {
    forall x :: x in index0 ==> x in index1 && index1[x] == index0[x] && lowLink1[x] == lowLink0[x]
  }

  lemma ExtendsByOne(index0: map<Node, nat>, lowLink0: map<Node, nat>, index1: map<Node, nat>,
                     lowLink1: map<Node, nat>, node: Node)
    requires index0.Keys == lowLink0.Keys && index1.Keys == lowLink1.Keys && node !in index0
    requires forall x :: x != node && x in index0 ==>
               x in index1 && index1[x] == index0[x] && lowLink1[x] == lowLink0[x]
    ensures Extends(index0, lowLink0, index1, lowLink1)
    ensures forall x :: x in index0 ==> x in index1
  {
  }

  lemma ExtendsKeys(index0: map<Node, nat>, lowLink0: map<Node, nat>, index1: map<Node, nat>, lowLink1: map<Node, nat>,
                    node: Node, low: nat)
    requires index0.Keys == lowLink0.Keys && index1.Keys == lowLink1.Keys
    requires Extends(index0, lowLink0, index1, lowLink1) && node in index1 && node !in index0
    ensures index0.Keys <= index1.Keys
    ensures Extends(index0, lowLink0, index1, lowLink1[node := low])
  {
    forall x | x in index0
      ensures x in index1
    {
    }
  }

  /** Only the low-link of `node` may have changed among what was numbered. */
  ghost predicate ExtendsBut(index0: map<Node, nat>, lowLink0: map<Node, nat>, index1: map<Node, nat>,
                             lowLink1: map<Node, nat>,
                             node: Node)
  {
    && index0.Keys == lowLink0.Keys && index1.Keys == lowLink1.Keys
    && forall x :: x in index0 ==> x in index1 && index1[x] == index0[x] && (x != node ==> lowLink1[x] == lowLink0[x])
  }

  lemma ExtendsBy(index0: map<Node, nat>, lowLink0: map<Node, nat>, index1: map<Node, nat>, lowLink1: map<Node, nat>,
                  node: Node, low: nat)
    requires index0.Keys == lowLink0.Keys && index1.Keys == lowLink1.Keys
    requires Extends(index0, lowLink0, index1, lowLink1) && node in index0
    ensures node in index1 && index1[node] == index0[node] && lowLink1[node] == lowLink0[node]
    ensures forall x :: x in index0 ==> x in index1 && index1[x] == index0[x]
    ensures ExtendsBut(index0, lowLink0, index1, lowLink1[node := low], node)
  {
  }

  lemma ExtendsFurther(index0: map<Node, nat>, lowLink0: map<Node, nat>, index1: map<Node, nat>,
                       lowLink1: map<Node, nat>,
                       index2: map<Node, nat>, lowLink2: map<Node, nat>, node: Node)
    requires index0.Keys == lowLink0.Keys && index1.Keys == lowLink1.Keys && index2.Keys == lowLink2.Keys
    requires Extends(index0, lowLink0, index1, lowLink1) && ExtendsBut(index1, lowLink1, index2, lowLink2, node)
    requires node in index1 && node !in index0
    ensures Extends(index0, lowLink0, index2, lowLink2)
    ensures forall x :: x in index1 ==> x in index2 && index2[x] == index1[x]
  {
  }

  /** `low` is the number of an open node that `node` reaches. */
  ghost predicate LowIsOpen(g: Graph, index: map<Node, nat>, stack: seq<Node>, node: Node, low: nat)
    requires forall i :: 0 <= i < |stack| ==> stack[i] in index
  {
    exists k :: 0 <= k < |stack| && index[stack[k]] == low && Reach(g, node, stack[k])
  }

  /**
    `low` is at most the number of every node below `bottom` that a node at or above `bottom` has an edge to;
    the edges from the node at `bottom` into `todo` do not count yet.
   */
  ghost predicate LowBelowExits(g: Graph, index: map<Node, nat>, stack: seq<Node>, bottom: nat, todo: set<Node>,
                                low: nat)
    requires forall i :: 0 <= i < |stack| ==> stack[i] in index
  {
    forall i, j :: 0 <= j < bottom <= i < |stack| && stack[j] in Succ(g, stack[i]) &&
        (i == bottom ==> stack[j] !in todo)
      ==> low <= index[stack[j]]
  }

  /** The reported cycles: components of two or more members, sorted. */
  ghost predicate Reports(cycles: seq<seq<Node>>, sccs: seq<set<Node>>) {
    && (forall i :: 0 <= i < |cycles| ==>
          |cycles[i]| >= 2 && Ascending(cycles[i]) && Members(cycles[i]) in sccs)
    && (forall i, j :: 0 <= i < j < |cycles| ==> Members(cycles[i]) !! Members(cycles[j]))
    && (forall c :: c in sccs && |c| >= 2 ==> exists i :: 0 <= i < |cycles| && Members(cycles[i]) == c)
  }

  class Search {
    const graph: Graph
    var nextIndex: nat
    var index: map<Node, nat>
    var lowLink: map<Node, nat>
    var onStack: set<Node>
    var stack: seq<Node>
    var cycles: seq<seq<Node>>
    ghost var sccs: seq<set<Node>>

    ghost predicate Valid(grays: set<Node>)
      reads this
    {
      && onStack == Members(stack)
      && lowLink.Keys == index.Keys
      && index.Keys <= Vertices(graph)
      && (forall i :: 0 <= i < |stack| ==> stack[i] in index)
      && Numbered(index, nextIndex, stack)
      && Linked(graph, index, stack, grays)
      && Explored(graph, index, grays)
      && Partitioned(graph, index.Keys - onStack, sccs)
      && Reports(cycles, sccs)
    }

    constructor (graph: Graph)
      ensures Valid({}) && this.graph == graph
      ensures stack == [] && index == map[]
    {
      this.graph := graph;
      nextIndex, index, lowLink := 0, map[], map[];
      onStack, stack, cycles, sccs := {}, [], [], [];
    }

    /** Numbers `node` and puts it on the stack. */
    method Open(node: Node, ghost grays: set<Node>)
      requires Valid(grays)
      requires node in Vertices(graph) && node !in index
      requires forall x :: x in grays ==> Reach(graph, x, node)
      modifies this
      ensures Valid(grays + {node})
      ensures index == old(index)[node := old(nextIndex)]
      ensures lowLink == old(lowLink)[node := old(nextIndex)]
      ensures nextIndex == old(nextIndex) + 1
      ensures stack == old(stack) + [node]
    {
      hide Reach, LinksBack, Partitioned, Reports, Closed;
      OpenKeepsLinked(graph, index, nextIndex, stack, grays, node);
      index := index[node := nextIndex];
      lowLink := lowLink[node := nextIndex];
      nextIndex := nextIndex + 1;
      stack := stack + [node];
      onStack := onStack + {node};
      assert index.Keys - onStack == old(index.Keys - onStack);
    }

    /**
      Visits `node` and everything reachable from it that is not numbered yet.
      The open nodes it leaves behind can all reach back below the old stack.
     */
    method StrongConnect(node: Node, ghost grays: set<Node>)
      requires Valid(grays)
      requires node in Vertices(graph) && node !in index
      requires forall x :: x in grays ==> Reach(graph, x, node)
      modifies this
      ensures Valid(grays)
      ensures node in index && index[node] == old(nextIndex)
      ensures Extends(old(index), old(lowLink), index, lowLink)
      ensures old(stack) <= stack
      ensures stack == old(stack) ==> lowLink[node] == index[node]
      ensures stack != old(stack) ==> LowIsOpen(graph, index, stack, node, lowLink[node])
      ensures LowBelowExits(graph, index, stack, |old(stack)|, {}, lowLink[node])
      decreases Vertices(graph) - index.Keys, 0
    {
      hide Reach, LinksBack, Partitioned, Reports, Closed, Linked, LowIsOpen, LowBelowExits;
      hide Explored, Members, Numbered, Vertices, Succ, Extends;
      LinkedGrays(graph, index, stack, grays);
      Open(node, grays);
      ghost var bottom := |old(stack)|;
      OpenStartsLow(graph, index, stack, node, Succ(graph, node));
      ExtendsByOne(old(index), old(lowLink), index, lowLink, node);

      var todo := Succ(graph, node);
      while todo != {}
        invariant todo <= Succ(graph, node)
        invariant Valid(grays + {node})
        invariant old(stack) <= stack && |stack| > bottom && stack[bottom] == node
        invariant node in index && index[node] == old(nextIndex) && lowLink[node] <= index[node]
        invariant Extends(old(index), old(lowLink), index, lowLink)
        invariant forall z :: z in Succ(graph, node) && z !in todo ==> z in index
        invariant LowIsOpen(graph, index, stack, node, lowLink[node])
        invariant LowBelowExits(graph, index, stack, bottom, todo, lowLink[node])
        decreases todo
      {
        var neighbour := Next(todo);
        ghost var index0, lowLink0, todo0 := index, lowLink, todo;
        todo := todo - {neighbour};
        assert todo0 == todo + {neighbour};
        if neighbour !in index {
          assert node in Vertices(graph) - old(index.Keys) && node !in Vertices(graph) - index.Keys;
          ExtendsKeys(old(index), old(lowLink), index, lowLink, node, lowLink[node]);
          Descend(node, neighbour, grays, bottom, todo);
          ExtendsFurther(old(index), old(lowLink), index0, lowLink0, index, lowLink, node);
        } else if neighbour in onStack {
          ExtendsKeys(old(index), old(lowLink), index, lowLink, node,
                      if lowLink[node] <= index[neighbour] then lowLink[node] else index[neighbour]);
          AfterOpenNeighbour(graph, index, stack, node, bottom, neighbour, todo, lowLink[node]);
          lowLink := lowLink[node := if lowLink[node] <= index[neighbour] then lowLink[node] else index[neighbour]];
        } else {
          AfterClosedNeighbour(graph, index, stack, bottom, neighbour, todo, lowLink[node]);
        }
      }

      GraysAreBelow(grays, old(stack), stack);
      Finish(node, grays, bottom);
    }

    /** Visits a neighbour that is not numbered yet and takes its low-link into account. */
    method Descend(node: Node, neighbour: Node, ghost grays: set<Node>, ghost bottom: nat, ghost todo: set<Node>)
      requires Valid(grays + {node})
      requires forall x :: x in grays ==> Reach(graph, x, node)
      requires neighbour in Succ(graph, node) && neighbour !in index
      requires bottom < |stack| && stack[bottom] == node
      requires node in index && lowLink[node] <= index[node]
      requires LowIsOpen(graph, index, stack, node, lowLink[node])
      requires LowBelowExits(graph, index, stack, bottom, todo + {neighbour}, lowLink[node])
      modifies this
      ensures Valid(grays + {node})
      ensures old(stack) <= stack && neighbour in index
      ensures node in index && index[node] == old(index[node]) && lowLink[node] <= index[node]
      ensures ExtendsBut(old(index), old(lowLink), index, lowLink, node)
      ensures LowIsOpen(graph, index, stack, node, lowLink[node])
      ensures LowBelowExits(graph, index, stack, bottom, todo, lowLink[node])
      decreases Vertices(graph) - index.Keys, 1
    {
      hide Reach, LinksBack, Partitioned, Reports, Closed, Linked, LowIsOpen, LowBelowExits;
      hide Explored, Members, Numbered, Vertices, Succ, Extends, ExtendsBut;
      ghost var index0, lowLink0, nextIndex0, stack0, low0 := index, lowLink, nextIndex, stack, lowLink[node];
      SuccIsVertex(graph, node, neighbour);
      GraysReach(graph, grays, node, neighbour);
      StrongConnect(neighbour, grays + {node});
      ExtendsBy(index0, lowLink0, index, lowLink, node, low0);
      AfterNewNeighbour(graph, index0, nextIndex0, stack0, index, stack, node, bottom, neighbour, todo, low0,
                        lowLink[neighbour]);
      var low := if lowLink[node] <= lowLink[neighbour] then lowLink[node] else lowLink[neighbour];
      ExtendsBy(index0, lowLink0, index, lowLink, node, low);
      lowLink := lowLink[node := low];
    }

    /** With all edges of `node` visited, pops its component if `node` is the root of one. */
    method Finish(node: Node, ghost grays: set<Node>, ghost bottom: nat)
      requires Valid(grays + {node})
      requires bottom < |stack| && stack[bottom] == node
      requires grays <= Members(stack[..bottom])
      requires node in index && lowLink[node] <= index[node]
      requires forall z :: z in Succ(graph, node) ==> z in index
      requires LowIsOpen(graph, index, stack, node, lowLink[node])
      requires LowBelowExits(graph, index, stack, bottom, {}, lowLink[node])
      modifies this
      ensures Valid(grays)
      ensures index == old(index) && lowLink == old(lowLink)
      ensures stack == if lowLink[node] == index[node] then old(stack)[..bottom] else old(stack)
      ensures stack == old(stack) ==> LowIsOpen(graph, index, stack, node, lowLink[node])
      ensures LowBelowExits(graph, index, stack, bottom, {}, lowLink[node])
    {
      hide Reach, LinksBack, Partitioned, Reports, Closed, Linked, LowIsOpen, LowBelowExits;
      hide Explored, Members;
      if lowLink[node] == index[node] {
        PopComponent(node, grays, bottom);
        NothingAbove(graph, index, stack, bottom, lowLink[node]);
      } else {
        KeepOpen(graph, index, stack, grays, node, lowLink[node]);
      }
    }

    /** Pops up to and including `node`. */
    method PopUntil(node: Node, ghost bottom: nat) returns (component: seq<Node>)
      requires bottom < |stack| && stack[bottom] == node
      requires Distinct(stack) && onStack == Members(stack)
      modifies `stack, `onStack
      ensures stack == old(stack)[..bottom] && onStack == Members(stack)
      ensures |component| == |old(stack)| - bottom && Members(component) == Members(old(stack)[bottom..])
    {
      var member := stack[|stack| - 1];
      PopMembers(stack);
      stack := stack[..|stack| - 1];
      onStack := onStack - {member};
      component := [member];
      while member != node
        invariant bottom <= |stack| < |old(stack)| && stack == old(stack)[..|stack|]
        invariant member == old(stack)[|stack|]
        invariant |component| == |old(stack)| - |stack| && Members(component) == Members(old(stack)[|stack|..])
        invariant onStack == Members(stack)
        decreases |stack|
      {
        member := stack[|stack| - 1];
        PopMembers(stack);
        stack := stack[..|stack| - 1];
        onStack := onStack - {member};
        assert old(stack)[|stack|..] == [member] + old(stack)[|stack| + 1..];
        MembersOfSum([member], old(stack)[|stack| + 1..]);
        MembersOfSum(component, [member]);
        component := component + [member];
      }
    }

    /** Takes the component rooted at `node` off the stack and reports it when it is a cycle. */
    method PopComponent(node: Node, ghost grays: set<Node>, ghost bottom: nat)
      requires Valid(grays + {node})
      requires bottom < |stack| && stack[bottom] == node
      requires grays <= Members(stack[..bottom])
      requires forall z :: z in Succ(graph, node) ==> z in index
      requires LowBelowExits(graph, index, stack, bottom, {}, index[node])
      modifies this
      ensures Valid(grays)
      ensures stack == old(stack)[..bottom]
      ensures index == old(index) && lowLink == old(lowLink) && nextIndex == old(nextIndex)
    {
      hide Reach, IsScc, LinksBack, Reports, Partitioned, Closed, Linked, LowBelowExits, Members, Explored, Numbered,
          SortAsc, Ascending, Distinct;
      ghost var s0, done0 := stack, index.Keys - onStack;
      ghost var component0 := Members(stack[bottom..]);
      PoppedNodesAreFinished(graph, index, nextIndex, stack, grays, node, bottom);
      PartitionClosed(graph, done0, sccs);
      RootedComponent(graph, index, nextIndex, stack, grays, node, bottom, index.Keys - onStack);
      PrefixLinked(graph, index, nextIndex, stack, grays, node, bottom);

      var component := PopUntil(node, bottom);
      ComponentReported(graph, done0, sccs, cycles, component, s0[bottom..]);
      if |component| > 1 {
        cycles := cycles + [SortAsc(component)];
      }
      sccs := sccs + [component0];
    }
  }

  lemma LinkedGrays(g: Graph, index: map<Node, nat>, stack: seq<Node>, grays: set<Node>)
    requires forall i :: 0 <= i < |stack| ==> stack[i] in index
    requires Linked(g, index, stack, grays)
    ensures grays <= Members(stack)
  {
    hide Reach;
  }

  lemma GraysAreBelow(grays: set<Node>, oldStack: seq<Node>, stack: seq<Node>)
    requires grays <= Members(oldStack) && oldStack <= stack
    ensures grays <= Members(stack[..|oldStack|])
  {
    assert stack[..|oldStack|] == oldStack;
  }

  lemma NothingAbove(g: Graph, index: map<Node, nat>, stack: seq<Node>, bottom: nat, low: nat)
    requires forall i :: 0 <= i < |stack| ==> stack[i] in index
    requires |stack| <= bottom
    ensures LowBelowExits(g, index, stack, bottom, {}, low)
  {
  }

  lemma AfterNewNeighbour(g: Graph, index0: map<Node, nat>, nextIndex0: nat, stack0: seq<Node>,
                          index: map<Node, nat>, stack: seq<Node>,
                          node: Node, bottom: nat, neighbour: Node, todo: set<Node>, low: nat, lowN: nat)
    requires forall i :: 0 <= i < |stack0| ==> stack0[i] in index0
    requires forall i :: 0 <= i < |stack| ==> stack[i] in index
    requires forall x :: x in index0 ==> x in index && index[x] == index0[x]
    requires bottom < |stack0| && stack0[bottom] == node && stack0 <= stack
    requires neighbour in Succ(g, node) && neighbour !in index0
    requires LowIsOpen(g, index0, stack0, node, low)
    requires LowBelowExits(g, index0, stack0, bottom, todo + {neighbour}, low)
    requires Numbered(index0, nextIndex0, stack0) && low <= index0[node]
    requires neighbour in index && index[neighbour] == nextIndex0
    requires stack == stack0 ==> lowN == index[neighbour]
    requires stack != stack0 ==> LowIsOpen(g, index, stack, neighbour, lowN)
    requires LowBelowExits(g, index, stack, |stack0|, {}, lowN)
    ensures LowIsOpen(g, index, stack, node, if low <= lowN then low else lowN)
    ensures LowBelowExits(g, index, stack, bottom, todo, if low <= lowN then low else lowN)
  {
    hide Reach;
    var k :| 0 <= k < |stack0| && index0[stack0[k]] == low && Reach(g, node, stack0[k]);
    if low <= lowN {
      assert stack[k] == stack0[k];
    } else {
      var m :| 0 <= m < |stack| && index[stack[m]] == lowN && Reach(g, neighbour, stack[m]);
      ReachEdge(g, node, neighbour);
      ReachTrans(g, node, neighbour, stack[m]);
    }
    forall i, j | 0 <= j < bottom <= i < |stack| && stack[j] in Succ(g, stack[i]) && (i == bottom ==> stack[j] !in todo)
      ensures (if low <= lowN then low else lowN) <= index[stack[j]]
    {
      assert stack[j] == stack0[j];
      if i < |stack0| {
        assert stack[i] == stack0[i];
        assert stack0[j] != neighbour;
      }
    }
  }

  lemma AfterOpenNeighbour(g: Graph, index: map<Node, nat>, stack: seq<Node>,
                           node: Node, bottom: nat, neighbour: Node, todo: set<Node>, low: nat)
    requires forall i :: 0 <= i < |stack| ==> stack[i] in index
    requires bottom < |stack| && stack[bottom] == node
    requires neighbour in Succ(g, node) && neighbour in Members(stack)
    requires LowIsOpen(g, index, stack, node, low)
    requires LowBelowExits(g, index, stack, bottom, todo + {neighbour}, low)
    ensures LowIsOpen(g, index, stack, node, if low <= index[neighbour] then low else index[neighbour])
    ensures LowBelowExits(g, index, stack, bottom, todo, if low <= index[neighbour] then low else index[neighbour])
  {
    hide Reach;
    ReachEdge(g, node, neighbour);
    var k :| 0 <= k < |stack| && stack[k] == neighbour;
    assert Reach(g, node, stack[k]);
  }

  lemma AfterClosedNeighbour(g: Graph, index: map<Node, nat>, stack: seq<Node>,
                             bottom: nat, neighbour: Node, todo: set<Node>, low: nat)
    requires forall i :: 0 <= i < |stack| ==> stack[i] in index
    requires neighbour !in Members(stack)
    requires LowBelowExits(g, index, stack, bottom, todo + {neighbour}, low)
    ensures LowBelowExits(g, index, stack, bottom, todo, low)
  {
    forall i, j | 0 <= j < bottom <= i < |stack| && stack[j] in Succ(g, stack[i]) && (i == bottom ==> stack[j] !in todo)
      ensures low <= index[stack[j]]
    {
      assert stack[j] in Members(stack);
    }
  }

  lemma LinksBackVia(g: Graph, index: map<Node, nat>, grays: set<Node>, node: Node, w: Node, y: Node)
    requires y in index && node in index && LinksBack(g, index, grays + {node}, y)
    requires w in grays && w in index && index[w] <= index[node] && Reach(g, node, w)
    ensures LinksBack(g, index, grays, y)
  {
    hide Reach;
    var x :| x in grays + {node} && x in index && index[x] <= index[y] && Reach(g, y, x);
    if x == node {
      ReachTrans(g, y, node, w);
    }
  }

  /** When the low link points below `node`, `node` need not count as unfinished any more. */
  lemma KeepOpen(g: Graph, index: map<Node, nat>, stack: seq<Node>, grays: set<Node>, node: Node, low: nat)
    requires forall i :: 0 <= i < |stack| ==> stack[i] in index
    requires Linked(g, index, stack, grays + {node}) && Explored(g, index, grays + {node})
    requires forall z :: z in Succ(g, node) ==> z in index
    requires node in index && low < index[node] && LowIsOpen(g, index, stack, node, low)
    ensures Linked(g, index, stack, grays) && Explored(g, index, grays)
  {
    hide Reach, Members;
    var k :| 0 <= k < |stack| && index[stack[k]] == low && Reach(g, node, stack[k]);
    assert LinksBack(g, index, grays + {node}, stack[k]);
    var w :| w in grays + {node} && w in index && index[w] <= low && Reach(g, stack[k], w);
    ReachTrans(g, node, stack[k], w);
    assert w in grays;
    hide LinksBack;
    forall i | 0 <= i < |stack|
      ensures LinksBack(g, index, grays, stack[i])
    {
      LinksBackVia(g, index, grays, node, w, stack[i]);
    }
  }

  lemma OpenStartsLow(g: Graph, index: map<Node, nat>, stack: seq<Node>, node: Node, todo: set<Node>)
    requires forall i :: 0 <= i < |stack| ==> stack[i] in index
    requires stack != [] && stack[|stack| - 1] == node && todo == Succ(g, node)
    ensures LowIsOpen(g, index, stack, node, index[node])
    ensures LowBelowExits(g, index, stack, |stack| - 1, todo, index[node])
  {
    ReachSelf(g, node);
  }

  lemma GraysReach(g: Graph, grays: set<Node>, node: Node, neighbour: Node)
    requires forall x :: x in grays ==> Reach(g, x, node)
    requires neighbour in Succ(g, node)
    ensures forall x :: x in grays + {node} ==> Reach(g, x, neighbour)
  {
    hide Reach;
    ReachEdge(g, node, neighbour);
    forall x | x in grays
      ensures Reach(g, x, neighbour)
    {
      ReachTrans(g, x, node, neighbour);
    }
  }

  lemma ReachesRoot(g: Graph, index: map<Node, nat>, stack: seq<Node>, grays: set<Node>,
                    node: Node, bottom: nat, i: nat, region: set<Node>)
    requires forall i :: 0 <= i < |stack| ==> stack[i] in index
    requires Linked(g, index, stack, grays + {node})
    requires bottom <= i < |stack| && stack[bottom] == node
    requires Closed(g, region) && stack[i] in region && grays !! region
    ensures Reach(g, node, stack[i]) && Reach(g, stack[i], node)
  {
    hide Reach, Members;
    assert LinksBack(g, index, grays + {node}, stack[i]);
    var x :| x in grays + {node} && x in index && index[x] <= index[stack[i]] && Reach(g, stack[i], x);
    ReachStaysInside(g, region, stack[i], x);
    assert Reach(g, stack[bottom], stack[i]);
  }

  /** Everything from a root upwards on the stack is one component, and is closed together with the finished nodes. */
  lemma RootedComponent(g: Graph, index: map<Node, nat>, nextIndex: nat, stack: seq<Node>, grays: set<Node>,
                        node: Node, bottom: nat, done: set<Node>)
    requires Numbered(index, nextIndex, stack) && Linked(g, index, stack, grays + {node})
    requires Explored(g, index, grays + {node}) && done == index.Keys - Members(stack) && Closed(g, done)
    requires bottom < |stack| && stack[bottom] == node
    requires grays <= Members(stack[..bottom])
    requires forall z :: z in Succ(g, node) ==> z in index
    requires LowBelowExits(g, index, stack, bottom, {}, index[node])
    ensures Closed(g, done + Members(stack[bottom..]))
    ensures IsScc(g, Members(stack[bottom..]))
  {
    hide Reach;
    var c := Members(stack[bottom..]);
    StackSplit(index, nextIndex, stack, bottom);
    forall x, y | x in done + c && y in Succ(g, x)
      ensures y in done + c
    {
      if x in c {
        var i :| bottom <= i < |stack| && stack[i] == x;
        if y in Members(stack) {
          var j :| 0 <= j < |stack| && stack[j] == y;
          assert j >= bottom;
        }
      }
    }
    assert node in c;
    forall y | y in c
      ensures Reach(g, node, y) && Reach(g, y, node)
    {
      var i :| bottom <= i < |stack| && stack[i] == y;
      ReachesRoot(g, index, stack, grays, node, bottom, i, done + c);
    }
    forall x, y | x in c && y in c
      ensures Reach(g, x, y)
    {
      ReachTrans(g, x, node, y);
    }
    forall x, y | x in c && Reach(g, x, y) && Reach(g, y, x)
      ensures y in c
    {
      ReachStaysInside(g, done + c, x, y);
      if y in done {
        ReachStaysInside(g, done, y, x);
      }
    }
  }

  lemma PartitionClosed(g: Graph, done: set<Node>, sccs: seq<set<Node>>)
    requires Partitioned(g, done, sccs)
    ensures Closed(g, done)
  {
  }

  lemma PartitionGrows(g: Graph, done: set<Node>, sccs: seq<set<Node>>, c: set<Node>)
    requires Partitioned(g, done, sccs)
    requires Closed(g, done + c) && IsScc(g, c) && c !! done
    ensures Partitioned(g, done + c, sccs + [c])
    ensures forall i :: 0 <= i < |sccs| ==> sccs[i] !! c
  {
    hide IsScc, Closed;
    var more := sccs + [c];
    forall x | x in done + c
      ensures exists i :: 0 <= i < |more| && x in more[i]
    {
      if x in c {
        assert x in more[|sccs|];
      } else {
        var i :| 0 <= i < |sccs| && x in sccs[i];
        assert x in more[i];
      }
    }
  }

  lemma ComponentReported(g: Graph, done: set<Node>, sccs: seq<set<Node>>, cycles: seq<seq<Node>>,
                          component: seq<Node>, slice: seq<Node>)
    requires Partitioned(g, done, sccs) && Reports(cycles, sccs)
    requires Distinct(slice) && |component| == |slice| && Members(component) == Members(slice)
    requires IsScc(g, Members(slice)) && Closed(g, done + Members(slice)) && Members(slice) !! done
    ensures Partitioned(g, done + Members(slice), sccs + [Members(slice)])
    ensures Reports(if |component| > 1 then cycles + [SortAsc(component)] else cycles, sccs + [Members(slice)])
  {
    hide Reach, IsScc, Closed, Partitioned, Reports, SortAsc, Ascending;
    PartitionGrows(g, done, sccs, Members(slice));
    SortedAscends(component, slice);
    if |component| > 1 {
      ReportsGrow(cycles, sccs, Members(slice), SortAsc(component));
    } else {
      ReportsSkip(cycles, sccs, Members(slice));
    }
  }

  lemma ReportsGrow(cycles: seq<seq<Node>>, sccs: seq<set<Node>>, c: set<Node>, sorted: seq<Node>)
    requires Reports(cycles, sccs)
    requires forall i :: 0 <= i < |sccs| ==> sccs[i] !! c
    requires Members(sorted) == c && |sorted| >= 2 && Ascending(sorted)
    ensures Reports(cycles + [sorted], sccs + [c])
  {
    var more := cycles + [sorted];
    forall i, j | 0 <= i < j < |more|
      ensures Members(more[i]) !! Members(more[j])
    {
      if j == |cycles| {
        assert Members(cycles[i]) in sccs;
      }
    }
    forall d | d in sccs + [c] && |d| >= 2
      ensures exists i :: 0 <= i < |more| && Members(more[i]) == d
    {
      if d == c {
        assert Members(more[|cycles|]) == d;
      } else {
        var i :| 0 <= i < |cycles| && Members(cycles[i]) == d;
        assert Members(more[i]) == d;
      }
    }
  }

  lemma ReportsSkip(cycles: seq<seq<Node>>, sccs: seq<set<Node>>, c: set<Node>)
    requires Reports(cycles, sccs) && |c| <= 1
    ensures Reports(cycles, sccs + [c])
  {
  }

  lemma StackSplit(index: map<Node, nat>, nextIndex: nat, stack: seq<Node>, bottom: nat)
    requires Numbered(index, nextIndex, stack) && bottom <= |stack|
    ensures Members(stack) == Members(stack[..bottom]) + Members(stack[bottom..])
    ensures Members(stack[..bottom]) !! Members(stack[bottom..])
    ensures forall x :: x in Members(stack[bottom..]) <==> exists i :: bottom <= i < |stack| && stack[i] == x
  {
    assert stack == stack[..bottom] + stack[bottom..];
    forall x | x in Members(stack[..bottom])
      ensures x !in Members(stack[bottom..])
    {
      var i :| 0 <= i < bottom && stack[i] == x;
      assert forall j :: bottom <= j < |stack| ==> index[stack[j]] > index[x];
    }
  }

  lemma PoppedNodesAreFinished(g: Graph, index: map<Node, nat>, nextIndex: nat, stack: seq<Node>, grays: set<Node>,
                               node: Node, bottom: nat)
    requires Numbered(index, nextIndex, stack) && Explored(g, index, grays + {node})
    requires bottom < |stack| && forall z :: z in Succ(g, node) ==> z in index
    ensures Numbered(index, nextIndex, stack[..bottom]) && Explored(g, index, grays)
    ensures Distinct(stack) && Distinct(stack[bottom..])
    ensures Members(stack[bottom..]) !! index.Keys - Members(stack)
    ensures index.Keys - Members(stack[..bottom]) == (index.Keys - Members(stack)) + Members(stack[bottom..])
  {
    StackSplit(index, nextIndex, stack, bottom);
    assert forall x :: x in stack[bottom..] ==> x in index;
  }

  /** The part of the stack below a finished component keeps its links. */
  lemma PrefixLinked(g: Graph, index: map<Node, nat>, nextIndex: nat, stack: seq<Node>, grays: set<Node>, node: Node,
                     bottom: nat)
    requires Numbered(index, nextIndex, stack) && Linked(g, index, stack, grays + {node})
    requires bottom < |stack| && stack[bottom] == node && grays <= Members(stack[..bottom])
    ensures Linked(g, index, stack[..bottom], grays)
  {
    hide Reach;
    forall i | 0 <= i < bottom
      ensures LinksBack(g, index, grays, stack[..bottom][i])
    {
      assert LinksBack(g, index, grays + {node}, stack[i]);
      var x :| x in grays + {node} && x in index && index[x] <= index[stack[i]] && Reach(g, stack[i], x);
      assert x != node;
    }
  }

  lemma OpenKeepsLinked(g: Graph, index: map<Node, nat>, nextIndex: nat, stack: seq<Node>, grays: set<Node>, node: Node)
    requires Numbered(index, nextIndex, stack) && Linked(g, index, stack, grays)
    requires node !in index
    requires forall x :: x in grays ==> Reach(g, x, node)
    ensures Numbered(index[node := nextIndex], nextIndex + 1, stack + [node])
    ensures Linked(g, index[node := nextIndex], stack + [node], grays + {node})
  {
    hide Reach;
    var stack1, index1 := stack + [node], index[node := nextIndex];
    ReachSelf(g, node);
    forall i | 0 <= i < |stack|
      ensures Reach(g, stack[i], node)
    {
      assert LinksBack(g, index, grays, stack[i]);
      var x :| x in grays && x in index && index[x] <= index[stack[i]] && Reach(g, stack[i], x);
      ReachTrans(g, stack[i], x, node);
    }
    assert Members(stack1) == Members(stack) + {node};
    forall i | 0 <= i < |stack1|
      ensures LinksBack(g, index1, grays + {node}, stack1[i])
    {
      if i < |stack| {
        assert LinksBack(g, index, grays, stack[i]);
        var x :| x in grays && x in index && index[x] <= index[stack[i]] && Reach(g, stack[i], x);
        assert x in grays + {node} && index1[x] <= index1[stack[i]];
      } else {
        assert node in grays + {node};
      }
    }
  }

  /** `cycles` lists exactly the components of two or more members, each once and sorted. */
  ghost predicate ListsCycles(g: Graph, cycles: seq<seq<Node>>) {
    && (forall i :: 0 <= i < |cycles| ==>
          |cycles[i]| >= 2 && Ascending(cycles[i]) && IsScc(g, Members(cycles[i])))
    && (forall i, j :: 0 <= i < j < |cycles| ==> Members(cycles[i]) !! Members(cycles[j]))
    && (forall c :: IsScc(g, c) && |c| >= 2 ==> exists i :: 0 <= i < |cycles| && Members(cycles[i]) == c)
  }

  method FindCycles(graph: Graph) returns (cycles: seq<seq<Node>>)
    ensures ListsCycles(graph, cycles)
  {
    hide Reach, IsScc, Partitioned, Reports, Linked, Explored, ListsCycles;
    var search := new Search(graph);
    var nodes := graph.Keys;
    while nodes != {}
      invariant search.Valid({}) && search.graph == graph
      invariant fresh(search)
      invariant nodes <= graph.Keys
      invariant forall x :: x in graph && x !in nodes ==> x in search.index
      decreases nodes
    {
      var node := Next(nodes);
      nodes := nodes - {node};
      if node !in search.index {
        search.StrongConnect(node, {});
      }
    }
    NothingOpen(graph, search.index, search.stack);
    assert search.index.Keys - search.onStack == search.index.Keys;
    assert forall x :: x in graph ==> x in search.index;
    EverySccReported(graph, search.index.Keys, search.sccs, search.cycles);
    cycles := search.cycles;
  }

  lemma NothingOpen(g: Graph, index: map<Node, nat>, stack: seq<Node>)
    requires forall i :: 0 <= i < |stack| ==> stack[i] in index
    requires Linked(g, index, stack, {})
    ensures stack == []
  {
    hide Reach, LinksBack;
    if stack != [] {
      NoLinkToNothing(g, index, stack[0]);
    }
  }

  lemma NoLinkToNothing(g: Graph, index: map<Node, nat>, y: Node)
    requires y in index
    ensures !LinksBack(g, index, {}, y)
  {
  }

  lemma EverySccReported(g: Graph, done: set<Node>, sccs: seq<set<Node>>, cycles: seq<seq<Node>>)
    requires Partitioned(g, done, sccs) && Reports(cycles, sccs)
    requires g.Keys <= done
    ensures ListsCycles(g, cycles)
  {
    hide Reach, IsScc, Closed;
    forall c | IsScc(g, c) && |c| >= 2
      ensures exists i :: 0 <= i < |cycles| && Members(cycles[i]) == c
    {
      var x := Pick(c);
      SccHasEdges(g, c, x);
      var i :| 0 <= i < |sccs| && x in sccs[i];
      SccsMeetOnlyIfEqual(g, c, sccs[i], x);
      assert c in sccs;
    }
  }
}
