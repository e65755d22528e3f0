/** The deadlock detector: builds the wait-for graph, finds its cycles and aborts one victim of each. */
module DeadlockDetection {
  import opened Collections
  import opened Graphs
  import opened Ids
  import opened LockTable
  import opened LockManagement
  import opened WaitFor
  import Sorting
  import Tarjan

  function LocksHeldBy(t: Table, txId: TxId): set<Resource> {
    set r | r in t && txId in t[r].holders
  }

  /** `a` is at least as good a victim as `b`: fewer locks, or as many and not older. */
  predicate Preferred(t: Table, a: TxId, b: TxId) {
    var heldA, heldB := |LocksHeldBy(t, a)|, |LocksHeldBy(t, b)|;
    heldA < heldB || (heldA == heldB && a >= b)
  }

  datatype Report = Report(cycle: seq<TxId>, victim: TxId)

  function Victims(reports: seq<Report>): set<TxId> {
    set i | 0 <= i < |reports| :: reports[i].victim
  }

  function Cycles(reports: seq<Report>): seq<seq<TxId>> {
    seq(|reports|, i requires 0 <= i < |reports| => reports[i].cycle)
  }

  /** The lock table once the victims of some reports have been released, in order. */
  function AfterReports(t: Table, reports: seq<Report>): Table {
    if reports == [] then t else Released(AfterReports(t, reports[..|reports| - 1]), reports[|reports| - 1].victim)
  }

  /** Each report's victim is the preferred member of its cycle, as the locks stand when it is chosen. */
  ghost predicate BestVictims(t: Table, reports: seq<Report>) {
    forall i :: 0 <= i < |reports| ==> IsBestVictim(AfterReports(t, reports[..i]), reports[i])
  }

  ghost predicate IsBestVictim(t: Table, report: Report) {
    report.victim in report.cycle && forall x :: x in report.cycle ==> Preferred(t, report.victim, x)
  }

  lemma ReportsNext(t: Table, reports: seq<Report>, report: Report)
    requires BestVictims(t, reports) && IsBestVictim(AfterReports(t, reports), report)
    ensures BestVictims(t, reports + [report])
    ensures AfterReports(t, reports + [report]) == Released(AfterReports(t, reports), report.victim)
  {
    hide IsBestVictim, AfterReports;
    var all := reports + [report];
    forall i | 0 <= i < |all|
      ensures IsBestVictim(AfterReports(t, all[..i]), all[i])
    {
      assert all[..i] == if i < |reports| then reports[..i] else reports;
    }
    AfterOneMore(t, reports, report);
  }

  lemma NoReports(t: Table)
    ensures BestVictims(t, []) && AfterReports(t, []) == t
  {
  }

  lemma AfterOneMore(t: Table, reports: seq<Report>, report: Report)
    ensures AfterReports(t, reports + [report]) == Released(AfterReports(t, reports), report.victim)
  {
    hide Released;
    assert (reports + [report])[..|reports|] == reports;
  }

  class DeadlockDetector {
    const lockManager: LockManager
    var sweeps: nat
    var deadlocksDetected: nat
    var victimsAborted: nat
    var history: seq<Report>

    constructor (lockManager: LockManager)
      ensures this.lockManager == lockManager && history == []
      ensures sweeps == deadlocksDetected == victimsAborted == 0
    {
      this.lockManager := lockManager;
      sweeps, deadlocksDetected, victimsAborted, history := 0, 0, 0, [];
    }

    method BuildWaitForGraph() returns (graph: Graph)
      ensures graph == WaitGraph(lockManager.lockTable)
    {
      hide WaitGraph, Waits, GraphOfEdges, IsEdge;
      ghost var t := lockManager.lockTable;
      graph := map[];
      NoEdges();
      var edges := lockManager.GetWaitForEdges();
      for i := 0 to |edges|
        invariant GraphOfEdges(graph, edges[..i])
      {
        AddEdgeExtends(graph, edges[..i], edges[i]);
        graph := AddEdge(graph, edges[i].waiter, edges[i].holder);
        assert edges[..i + 1] == edges[..i] + [edges[i]];
      }
      assert edges[..|edges|] == edges;
      EdgesMakeWaitGraph(t, edges, graph);
    }

    /** The member of a cycle that holds the fewest locks, the youngest on a tie. */
    method SelectVictim(cycle: seq<TxId>) returns (victim: TxId)
      requires cycle != []
      ensures victim in cycle
      ensures forall x :: x in cycle ==> Preferred(lockManager.lockTable, victim, x)
    {
      victim := cycle[0];
      var fewest := |LocksHeldBy(lockManager.lockTable, victim)|;
      for i := 1 to |cycle|
        invariant victim in cycle && fewest == |LocksHeldBy(lockManager.lockTable, victim)|
        invariant forall j :: 0 <= j < i ==> Preferred(lockManager.lockTable, victim, cycle[j])
      {
        var held := |LocksHeldBy(lockManager.lockTable, cycle[i])|;
        if held < fewest || (held == fewest && cycle[i] > victim) {
          victim, fewest := cycle[i], held;
        }
      }
    }

    /**
      One sweep: reports every cycle of the wait-for graph and releases one victim of each.
      What cycles remain are old ones without the victims.
     */
    method Detect() returns (resolved: seq<Report>)
      requires lockManager.Valid() && SingleWait(lockManager.lockTable)
      modifies this, lockManager
      ensures lockManager.Valid() && SingleWait(lockManager.lockTable)
      ensures Tarjan.ListsCycles(WaitGraph(old(lockManager.lockTable)), Cycles(resolved))
      ensures forall i :: 0 <= i < |resolved| ==> resolved[i].victim in resolved[i].cycle
      ensures BestVictims(old(lockManager.lockTable), resolved)
      ensures lockManager.lockTable == AfterReports(old(lockManager.lockTable), resolved)
      ensures Shrunk(old(lockManager.lockTable), lockManager.lockTable, Victims(resolved))
      ensures history == old(history) + resolved
      ensures sweeps == old(sweeps) + 1 && deadlocksDetected == old(deadlocksDetected) + |resolved|
      ensures victimsAborted == old(victimsAborted) + |resolved|
    {
      hide WaitGraph, SingleWait, Mutual, Shrunk, TableOk, Tracked, Released, Preferred, Victims, Cycles,
          Tarjan.ListsCycles, BestVictims, AfterReports;
      NoReports(lockManager.lockTable);
      sweeps := sweeps + 1;
      ghost var t0 := lockManager.lockTable;
      var graph := BuildWaitForGraph();
      var cycles := Tarjan.FindCycles(graph);
      resolved := [];
      ShrunkSelf(t0, resolved);
      CyclesGrow(cycles, resolved, 0);
      for i := 0 to |cycles|
        invariant lockManager.Valid() && SingleWait(lockManager.lockTable)
        invariant |resolved| == i && Cycles(resolved) == cycles[..i]
        invariant forall j :: 0 <= j < i ==> resolved[j].victim in resolved[j].cycle
        invariant BestVictims(t0, resolved) && lockManager.lockTable == AfterReports(t0, resolved)
        invariant Shrunk(t0, lockManager.lockTable, Victims(resolved))
        invariant history == old(history) + resolved
        invariant sweeps == old(sweeps) + 1 && deadlocksDetected == old(deadlocksDetected) + i
        invariant victimsAborted == old(victimsAborted) + i
      {
        CycleNonEmpty(WaitGraph(t0), cycles, i);
        var victim := SelectVictim(cycles[i]);
        var report := Report(cycles[i], victim);
        deadlocksDetected := deadlocksDetected + 1;
        history := history + [report];
        victimsAborted := victimsAborted + 1;
        assert IsBestVictim(lockManager.lockTable, report);
        ReportsNext(t0, resolved, report);
        ShrinkFurther(t0, lockManager.lockTable, Victims(resolved), victim);
        ReleasedKeeps(lockManager.lockTable, victim);
        lockManager.ReleaseAll(victim);
        VictimsGrow(resolved, report);
        assert (resolved + [report])[..i] == resolved;
        CyclesGrow(cycles, resolved + [report], i + 1);
        resolved := resolved + [report];
      }
      assert cycles[..|cycles|] == cycles;
    }

    /** Repeated sweeps: each one that reports something removes a node from a cycle, so they come to an end. */
    method SweepUntilClear() returns (rounds: nat)
      requires lockManager.Valid() && SingleWait(lockManager.lockTable)
      modifies this, lockManager
      ensures lockManager.Valid() && SingleWait(lockManager.lockTable)
      ensures CyclicNodes(WaitGraph(lockManager.lockTable)) == {}
      ensures sweeps == old(sweeps) + rounds && rounds <= |CyclicNodes(WaitGraph(old(lockManager.lockTable)))| + 1
    {
      hide WaitGraph, SingleWait, Shrunk, TableOk, Tracked, CyclicNodes, Victims, Tarjan.ListsCycles;
      rounds := 0;
      while true
        invariant lockManager.Valid() && SingleWait(lockManager.lockTable)
        invariant sweeps == old(sweeps) + rounds
        invariant rounds + |CyclicNodes(WaitGraph(lockManager.lockTable))| <=
                  |CyclicNodes(WaitGraph(old(lockManager.lockTable)))|
        decreases |CyclicNodes(WaitGraph(lockManager.lockTable))|
      {
        ghost var t := lockManager.lockTable;
        var resolved := Detect();
        rounds := rounds + 1;
        ShrunkCyclicNodes(t, lockManager.lockTable, Victims(resolved));
        if resolved == [] {
          assert Cycles(resolved) == [];
          NoComponentNoCycle(WaitGraph(t));
          return;
        }
        VictimsWereCyclic(WaitGraph(t), resolved);
        FewerCyclic(CyclicNodes(WaitGraph(t)), CyclicNodes(WaitGraph(lockManager.lockTable)), resolved);
      }
    }
  }

  lemma FewerCyclic(before: set<TxId>, after: set<TxId>, reports: seq<Report>)
    requires reports != [] && Victims(reports) <= before && after <= before - Victims(reports)
    ensures |after| < |before|
  {
    assert reports[0].victim in Victims(reports);
    CardinalityMonotone(after, before - {reports[0].victim});
  }

  /** The component of a node, and the empty report meaning that there is no cycle at all. */
  lemma NoComponentNoCycle(g: Graph)
    requires Tarjan.ListsCycles(g, [])
    ensures CyclicNodes(g) == {}
  {
    if x :| x in CyclicNodes(g) {
      var y :| Mutual(g, x, y);
      MutualInScc(g, x, y);
      assert false;
    }
  }

  lemma VictimsWereCyclic(g: Graph, reports: seq<Report>)
    requires Tarjan.ListsCycles(g, Cycles(reports))
    requires forall i :: 0 <= i < |reports| ==> reports[i].victim in reports[i].cycle
    ensures Victims(reports) <= CyclicNodes(g)
  {
    hide Reach;
    forall i | 0 <= i < |reports|
      ensures reports[i].victim in CyclicNodes(g)
    {
      var c := Members(Cycles(reports)[i]);
      assert Cycles(reports)[i] == reports[i].cycle;
      SccMemberIsCyclic(g, c, reports[i].cycle, reports[i].victim);
    }
  }

  lemma SccMemberIsCyclic(g: Graph, c: set<Node>, cycle: seq<Node>, x: Node)
    requires IsScc(g, c) && c == Members(cycle) && |cycle| >= 2 && Sorting.Ascending(cycle) && x in c
    ensures x in CyclicNodes(g)
  {
    hide Reach;
    var y := if cycle[0] == x then cycle[1] else cycle[0];
    assert y in c;
    assert Mutual(g, x, y);
    ReachOtherHasEdge(g, x, y);
  }

  function AddEdge(g: Graph, a: Node, b: Node): Graph {
    var g1 := g[a := Succ(g, a) + {b}];
    if b in g1 then g1 else g1[b := {}]
  }

  ghost predicate GraphOfEdges(g: Graph, edges: seq<Edge>) {
    && (forall a, b :: b in Succ(g, a) <==> exists e :: e in edges && e.waiter == a && e.holder == b)
    && (forall a :: a in g <==> exists e :: e in edges && (e.waiter == a || e.holder == a))
  }

  lemma NoEdges()
    ensures GraphOfEdges(map[], [])
  {
  }

  lemma AddEdgeExtends(g: Graph, edges: seq<Edge>, edge: Edge)
    requires GraphOfEdges(g, edges)
    ensures GraphOfEdges(AddEdge(g, edge.waiter, edge.holder), edges + [edge])
  {
    var g1, more := AddEdge(g, edge.waiter, edge.holder), edges + [edge];
    assert edge in more;
    forall a, b
      ensures b in Succ(g1, a) <==> b in Succ(g, a) || (a == edge.waiter && b == edge.holder)
    {
    }
    forall a, b | b in Succ(g, a)
      ensures exists e :: e in more && e.waiter == a && e.holder == b
    {
      var e :| e in edges && e.waiter == a && e.holder == b;
      assert e in more;
    }
    forall a | a in g
      ensures exists e :: e in more && (e.waiter == a || e.holder == a)
    {
      var e :| e in edges && (e.waiter == a || e.holder == a);
      assert e in more;
    }
  }

  lemma EdgeOfWaits(t: Table, edges: seq<Edge>, a: TxId, b: TxId)
    requires forall e :: e in edges <==> IsEdge(t, e)
    ensures Waits(t, a, b) <==> exists e :: e in edges && e.waiter == a && e.holder == b
  {
    if Waits(t, a, b) {
      var r, q :| InQueue(t, r, q) && q.txId == a && Blocks(t[r].holders, q, b);
      var i :| 0 <= i < |t[r].waitQueue| && t[r].waitQueue[i] == q;
      var e := Edge(a, b, r, q.mode);
      assert IsRequestEdge(t[r].waitQueue[i], t[r].holders, r, e);
      assert e in edges;
    }
    if e :| e in edges && e.waiter == a && e.holder == b {
      var queue := t[e.resource].waitQueue;
      var i :| 0 <= i < |queue| && IsRequestEdge(queue[i], t[e.resource].holders, e.resource, e);
      assert InQueue(t, e.resource, queue[i]) && Blocks(t[e.resource].holders, queue[i], b);
    }
  }

  lemma EdgesMakeWaitGraph(t: Table, edges: seq<Edge>, g: Graph)
    requires forall e :: e in edges <==> IsEdge(t, e)
    requires GraphOfEdges(g, edges)
    ensures g == WaitGraph(t)
  {
    hide Waits, IsEdge, GraphOfEdges;
    var w := WaitGraph(t);
    SameNodes(t, edges, g);
    hide WaitGraph;
    forall a | a in g
      ensures g[a] == w[a]
    {
      forall b
        ensures b in g[a] <==> b in w[a]
      {
        EdgeOfWaits(t, edges, a, b);
        WaitGraphEdge(t, a, b);
        SuccOfEdges(g, edges, a, b);
      }
    }
  }

  lemma SuccOfEdges(g: Graph, edges: seq<Edge>, a: Node, b: Node)
    requires GraphOfEdges(g, edges)
    ensures b in Succ(g, a) <==> exists e :: e in edges && e.waiter == a && e.holder == b
  {
  }

  lemma SameNodes(t: Table, edges: seq<Edge>, g: Graph)
    requires forall e :: e in edges <==> IsEdge(t, e)
    requires GraphOfEdges(g, edges)
    ensures g.Keys == WaitGraph(t).Keys
  {
    hide Waits, IsEdge, Waiters, Holders;
    var w := WaitGraph(t);
    forall a, b
      ensures b in Succ(g, a) <==> Waits(t, a, b)
      ensures b in Succ(w, a) <==> Waits(t, a, b)
    {
      EdgeOfWaits(t, edges, a, b);
      WaitGraphEdge(t, a, b);
    }
    forall a | a in g
      ensures a in w
    {
      var e :| e in edges && (e.waiter == a || e.holder == a);
      assert e.holder in Succ(g, e.waiter);
      assert e.holder in Succ(w, e.waiter);
      WaitsInTable(t, e.waiter, e.holder);
    }
    forall a | a in w
      ensures a in g
    {
      var b :| Waits(t, a, b) || Waits(t, b, a);
      assert b in Succ(g, a) || a in Succ(g, b);
    }
  }

  lemma WaitsInTable(t: Table, a: TxId, b: TxId)
    requires Waits(t, a, b)
    ensures a in Waiters(t) && b in Holders(t)
  {
    var r, q :| InQueue(t, r, q) && q.txId == a && Blocks(t[r].holders, q, b);
  }

  lemma ShrunkSelf(t: Table, none: seq<Report>)
    requires none == []
    ensures Shrunk(t, t, Victims(none))
  {
  }

  lemma CyclesGrow(cycles: seq<seq<TxId>>, reports: seq<Report>, n: nat)
    requires n <= |cycles| && |reports| == n
    requires n > 0 ==> Cycles(reports[..n - 1]) == cycles[..n - 1] && reports[n - 1].cycle == cycles[n - 1]
    ensures Cycles(reports) == cycles[..n]
  {
    if n > 0 {
      assert forall i :: 0 <= i < n - 1 ==> Cycles(reports)[i] == Cycles(reports[..n - 1])[i];
    }
  }

  lemma CycleNonEmpty(g: Graph, cycles: seq<seq<TxId>>, i: nat)
    requires Tarjan.ListsCycles(g, cycles) && i < |cycles|
    ensures cycles[i] != []
  {
  }

  lemma VictimsGrow(reports: seq<Report>, report: Report)
    ensures Victims(reports + [report]) == Victims(reports) + {report.victim}
  {
    var more := reports + [report];
    assert more[|reports|] == report;
    forall v | v in Victims(reports)
      ensures v in Victims(more)
    {
      var i :| 0 <= i < |reports| && reports[i].victim == v;
      assert more[i].victim == v;
    }
  }
}
