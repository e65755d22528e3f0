/** Who waits for whom, and what releasing a deadlock victim does to the cycles. */
module WaitFor {
  import opened Graphs
  import opened Ids
  import opened LockTable

  predicate InQueue(t: Table, r: Resource, q: Request) {
    r in t && q in t[r].waitQueue
  }

  predicate Blocks(holders: map<TxId, Mode>, q: Request, b: TxId) {
    b in holders && b != q.txId && !IsCompatible(q.mode, holders[b])
  }

  ghost predicate IsWaiting(t: Table, a: TxId) {
    exists r, q :: InQueue(t, r, q) && q.txId == a
  }

  ghost predicate Holds(t: Table, r: Resource, a: TxId) {
    r in t && a in t[r].holders
  }

  /** `a` is queued for a resource that `b` holds in a conflicting mode. */
  ghost predicate Waits(t: Table, a: TxId, b: TxId) {
    exists r, q :: InQueue(t, r, q) && q.txId == a && Blocks(t[r].holders, q, b)
  }

  ghost function Waiters(t: Table): set<TxId> {
    set r, q | r in t && q in t[r].waitQueue :: q.txId
  }

  ghost function Holders(t: Table): set<TxId> {
    set r, h | r in t && h in t[r].holders :: h
  }

  /** The wait-for graph: the transactions with an edge in or out, and their edges. */
  ghost function WaitGraph(t: Table): Graph {
    map a | a in Waiters(t) + Holders(t) && (exists b :: Waits(t, a, b) || Waits(t, b, a)) ::
      set b | b in Holders(t) && Waits(t, a, b)
  }

  lemma WaitGraphEdge(t: Table, a: TxId, b: TxId)
    ensures b in Succ(WaitGraph(t), a) <==> Waits(t, a, b)
  {
    if Waits(t, a, b) {
      var r, q :| InQueue(t, r, q) && q.txId == a && Blocks(t[r].holders, q, b);
      assert a in Waiters(t) && b in Holders(t);
    }
  }

  predicate DistinctTx(queue: seq<Request>) {
    forall i, j :: 0 <= i < j < |queue| ==> queue[i].txId != queue[j].txId
  }

  /** Each transaction has at most one outstanding request. */
  ghost predicate SingleWait(t: Table) {
    && (forall r :: r in t ==> DistinctTx(t[r].waitQueue))
    && (forall r, s, p, q :: InQueue(t, r, p) && InQueue(t, s, q) && p.txId == q.txId ==> r == s)
  }

  // ---------------------------------------------------------------------
  // What draining does to the edges
  // ---------------------------------------------------------------------

  /** A transaction that draining turned from a waiter into a holder. */
  ghost predicate Served(info: LockInfo, b: TxId) {
    exists q :: q in info.waitQueue && q !in Drain(info).waitQueue && q.txId == b
  }

  lemma DrainQueueShrinks(info: LockInfo)
    ensures forall q :: q in Drain(info).waitQueue ==> q in info.waitQueue
    ensures DistinctTx(info.waitQueue) ==> DistinctTx(Drain(info).waitQueue)
  {
    var k := DrainServesPrefix(info);
  }

  lemma DrainHolders(info: LockInfo, b: TxId)
    requires DistinctTx(info.waitQueue) && b in Drain(info).holders
    ensures Served(info, b) || (b in info.holders && Drain(info).holders[b] == info.holders[b])
    ensures Served(info, b) ==> forall q :: q in Drain(info).waitQueue ==> q.txId != b
  {
    var k := DrainServesPrefix(info);
    var d := Drain(info);
    if i :| 0 <= i < k && info.waitQueue[i].txId == b {
      assert info.waitQueue[i] in info.waitQueue;
      forall q | q in d.waitQueue
        ensures q.txId != b
      {
        var j :| 0 <= j < |d.waitQueue| && d.waitQueue[j] == q;
        assert q == info.waitQueue[k + j];
      }
    }
    if Served(info, b) {
      var q :| q in info.waitQueue && q !in d.waitQueue && q.txId == b;
      var i :| 0 <= i < |info.waitQueue| && info.waitQueue[i] == q;
      assert forall j :: k <= j < |info.waitQueue| ==> info.waitQueue[j] == d.waitQueue[j - k];
      assert i < k;
    }
  }

  lemma {:induction false} DropDistinct(queue: seq<Request>, txId: TxId)
    requires DistinctTx(queue)
    ensures DistinctTx(DropRequests(queue, txId))
  {
    if queue != [] {
      DropDistinct(queue[1..], txId);
      DropDrops(queue[1..], txId);
      var rest := DropRequests(queue[1..], txId);
      forall i | 0 <= i < |rest|
        ensures rest[i].txId != queue[0].txId
      {
        assert rest[i] in rest;
        var j :| 0 <= j < |queue| - 1 && queue[1..][j] == rest[i];
        assert queue[j + 1] == rest[i];
      }
    }
  }

  // ---------------------------------------------------------------------
  // Releasing a deadlock victim
  // ---------------------------------------------------------------------

  /** What is left in the table after a release comes from what was there before. */
  lemma ReleasedEntry(t: Table, v: TxId, r: Resource)
    requires SingleWait(t) && r in Released(t, v)
    ensures r in t && Released(t, v)[r] == Drain(Without(t[r], v))
    ensures DistinctTx(Without(t[r], v).waitQueue)
    ensures forall q :: q in Released(t, v)[r].waitQueue ==> q in t[r].waitQueue && q.txId != v
  {
    var w := Without(t[r], v);
    DropDistinct(t[r].waitQueue, v);
    DropDrops(t[r].waitQueue, v);
    DrainQueueShrinks(w);
  }

  /** Releasing keeps the table invariants. */
  lemma ReleasedKeeps(t: Table, v: TxId)
    requires TableOk(t) && SingleWait(t)
    ensures TableOk(Released(t, v)) && SingleWait(Released(t, v))
  {
    var t1 := Released(t, v);
    forall r | r in t1
      ensures HoldersAgree(t1[r].holders) && Settled(t1[r]) && DistinctTx(t1[r].waitQueue)
    {
      ReleasedEntry(t, v, r);
      DrainQueueShrinks(Without(t[r], v));
      WithoutAgrees(t[r], v);
      DrainSettles(Without(t[r], v));
    }
    forall r, s, p, q | InQueue(t1, r, p) && InQueue(t1, s, q) && p.txId == q.txId
      ensures r == s
    {
      ReleasedEntry(t, v, r);
      ReleasedEntry(t, v, s);
      assert InQueue(t, r, p) && InQueue(t, s, q);
    }
  }

  /** An edge to a transaction that is itself still waiting is an old edge. */
  lemma ReleasedEdge(t: Table, v: TxId, a: TxId, b: TxId)
    requires SingleWait(t)
    requires Waits(Released(t, v), a, b) && IsWaiting(Released(t, v), b)
    ensures Waits(t, a, b) && a != v && b != v
  {
    var t1 := Released(t, v);
    var r, q :| InQueue(t1, r, q) && q.txId == a && Blocks(t1[r].holders, q, b);
    var s, p :| InQueue(t1, s, p) && p.txId == b;
    ReleasedEntry(t, v, r);
    ReleasedEntry(t, v, s);
    var w := Without(t[r], v);
    DrainHolders(w, b);
    if Served(w, b) {
      var p0 :| p0 in w.waitQueue && p0 !in Drain(w).waitQueue && p0.txId == b;
      DropDrops(t[r].waitQueue, v);
      assert InQueue(t, r, p0) && InQueue(t, s, p);
      assert false;
    }
    assert InQueue(t, r, q);
  }

  lemma WaiterHasEdge(t: Table, a: TxId, b: TxId)
    requires b in Succ(WaitGraph(t), a)
    ensures IsWaiting(t, a)
  {
    WaitGraphEdge(t, a, b);
  }

  /** Paths between transactions still waiting after a release were there before it. */
  lemma ReleasedPath(t: Table, v: TxId, x: TxId, y: TxId)
    requires SingleWait(t)
    requires Reach(WaitGraph(Released(t, v)), x, y) && IsWaiting(Released(t, v), y)
    ensures Reach(WaitGraph(t), x, y)
    ensures x != y ==> x != v
  {
    hide SingleWait, Waits, IsWaiting, WaitGraph;
    var t1 := Released(t, v);
    var g1 := WaitGraph(t1);
    var p :| IsPath(g1, p) && p[0] == x && p[|p| - 1] == y;
    forall i | 0 <= i < |p| - 1
      ensures p[i + 1] in Succ(WaitGraph(t), p[i]) && p[i] != v
    {
      assert p[i + 1] in Succ(g1, p[i]);
      WaitGraphEdge(t1, p[i], p[i + 1]);
      if i + 1 < |p| - 1 {
        assert p[i + 2] in Succ(g1, p[i + 1]);
        WaiterHasEdge(t1, p[i + 1], p[i + 2]);
      }
      ReleasedEdge(t, v, p[i], p[i + 1]);
      WaitGraphEdge(t, p[i], p[i + 1]);
    }
    assert IsPath(WaitGraph(t), p);
  }

  /** Releasing a transaction takes it off every cycle and creates no new cycle. */
  lemma ReleaseCreatesNoCycle(t: Table, v: TxId, x: TxId, y: TxId)
    requires SingleWait(t) && Mutual(WaitGraph(Released(t, v)), x, y)
    ensures Mutual(WaitGraph(t), x, y) && x != v && y != v
  {
    hide SingleWait, Waits, IsWaiting, WaitGraph, Reach;
    var t1 := Released(t, v);
    ReachOtherHasEdge(WaitGraph(t1), x, y);
    ReachOtherHasEdge(WaitGraph(t1), y, x);
    var a :| a in Succ(WaitGraph(t1), x);
    var b :| b in Succ(WaitGraph(t1), y);
    WaiterHasEdge(t1, x, a);
    WaiterHasEdge(t1, y, b);
    ReleasedPath(t, v, x, y);
    ReleasedPath(t, v, y, x);
  }

  /** Every cycle of `t1` is a cycle of `t0` that avoids `victims`. */
  ghost predicate Shrunk(t0: Table, t1: Table, victims: set<TxId>) {
    forall x, y :: Mutual(WaitGraph(t1), x, y) ==> Mutual(WaitGraph(t0), x, y) && x !in victims
  }

  lemma ShrinkFurther(t0: Table, t1: Table, victims: set<TxId>, v: TxId)
    requires Shrunk(t0, t1, victims) && SingleWait(t1)
    ensures Shrunk(t0, Released(t1, v), victims + {v})
  {
    hide SingleWait, WaitGraph, Mutual;
    forall x, y | Mutual(WaitGraph(Released(t1, v)), x, y)
      ensures Mutual(WaitGraph(t0), x, y) && x !in victims + {v}
    {
      ReleaseCreatesNoCycle(t1, v, x, y);
    }
  }

  lemma ShrunkCyclicNodes(t0: Table, t1: Table, victims: set<TxId>)
    requires Shrunk(t0, t1, victims)
    ensures CyclicNodes(WaitGraph(t1)) <= CyclicNodes(WaitGraph(t0)) - victims
  {
    hide WaitGraph, Reach;
    forall x | x in CyclicNodes(WaitGraph(t1))
      ensures x in CyclicNodes(WaitGraph(t0)) - victims
    {
      var y :| Mutual(WaitGraph(t1), x, y);
      ReachOtherHasEdge(WaitGraph(t0), x, y);
    }
  }
}
