/** When all ask in ascending order of pages, somebody can always run. */
module LockProgress {
  import opened Collections
  import opened Ids
  import opened LockTable
  import opened WaitFor
  import opened LockRuns

  /** Whoever is queued for a page holds only lower pages. */
  ghost predicate AscendingWaits(t: Table) {
    forall r, q, s :: InQueue(t, r, q) && Holds(t, s, q.txId) ==> s.pageId < r.pageId
  }

  /** An edit asks for a page only when it holds no page as high, or for one it holds already. */
  ghost predicate Ascends(t: Table, step: Step) {
    step.Ask? ==>
      || Covered(Entry(t, step.resource), step.txId, step.mode)
      || forall s :: Holds(t, s, step.txId) ==> s.pageId < step.resource.pageId
  }

  ghost predicate AscendingRun(t: Table, steps: seq<Step>)
    decreases |steps|
  {
    steps != [] ==> Ascends(t, steps[0]) && AscendingRun(Apply(t, steps[0]), steps[1..])
  }

  /** A transaction still queued after a step holds afterwards only what it held before. */
  lemma WaitersGainNothing(t: Table, step: Step, r: Resource, q: Request, s: Resource)
    requires TableOk(t) && SingleWait(t) && Allowed(t, step)
    requires InQueue(Apply(t, step), r, q) && Holds(Apply(t, step), s, q.txId)
    requires step.Ask? ==> q.txId != step.txId
    ensures InQueue(t, r, q) && Holds(t, s, q.txId)
  {
    hide SingleWait, TableOk, IsWaiting, Drain, Fits;
    match step
    case Ask(txId, p, mode, id) =>
    case Cancel(txId, p, id) =>
      if p in t {
        CancelKeepsRequests(t[p], id);
        var k := IndexOfId(t[p].waitQueue, id);
        if k < |t[p].waitQueue| && s == p {
          var w := t[p].(waitQueue := RemoveAt(t[p].waitQueue, k));
          DistinctQueue(t, p);
          assert DistinctTx(w.waitQueue);
          assert forall x :: x in w.waitQueue ==> x in t[p].waitQueue;
          GainsOnlyByService(t, s, w, r, q);
        }
      }
    case Finish(txId) =>
      ReleasedEntry(t, txId, r);
      ReleasedEntry(t, txId, s);
      DropDrops(t[s].waitQueue, txId);
      GainsOnlyByService(t, s, Without(t[s], txId), r, q);
  }

  lemma DistinctQueue(t: Table, r: Resource)
    requires SingleWait(t) && r in t
    ensures DistinctTx(t[r].waitQueue)
  {
  }

  /** Draining part of an entry gives the lock to nobody whose only request is still queued. */
  lemma GainsOnlyByService(t: Table, s: Resource, w: LockInfo, r: Resource, q: Request)
    requires SingleWait(t) && s in t && DistinctTx(w.waitQueue)
    requires forall x :: x in w.waitQueue ==> x in t[s].waitQueue
    requires InQueue(t, r, q) && (r == s ==> q in Drain(w).waitQueue) && q.txId in Drain(w).holders
    ensures q.txId in w.holders
  {
    DrainHolders(w, q.txId);
    if Served(w, q.txId) {
      var p :| p in w.waitQueue && p !in Drain(w).waitQueue && p.txId == q.txId;
      assert InQueue(t, s, p);
      assert false;
    }
  }

  lemma AscendingKept(t: Table, step: Step)
    requires TableOk(t) && SingleWait(t) && Allowed(t, step) && Ascends(t, step)
    requires AscendingWaits(t)
    ensures AscendingWaits(Apply(t, step))
  {
    var t1 := Apply(t, step);
    if step.Ask? && Covered(Entry(t, step.resource), step.txId, step.mode) {
      assert t1 == t;
      return;
    }
    forall r, q, s | InQueue(t1, r, q) && Holds(t1, s, q.txId)
      ensures s.pageId < r.pageId
    {
      if step.Ask? && q.txId == step.txId {
        assert !InQueue(t, r, q);
        assert r == step.resource && Holds(t, s, step.txId);
      } else {
        WaitersGainNothing(t, step, r, q, s);
      }
    }
  }

  lemma {:induction false} HighestQueue(t: Table, rs: set<Resource>) returns (r: Resource)
    requires rs != {}
    ensures r in rs && forall s :: s in rs ==> s.pageId <= r.pageId
    decreases rs
  {
    r := Pick(rs);
    if rs != {r} {
      var s := HighestQueue(t, rs - {r});
      if s.pageId > r.pageId {
        r := s;
      }
    }
  }

  /** While anybody waits, some lock holder does not. */
  lemma SomebodyRuns(t: Table, a: TxId)
    requires TableOk(t) && AscendingWaits(t) && IsWaiting(t, a)
    ensures exists r, h :: Holds(t, r, h) && !IsWaiting(t, h)
  {
    var queued := set r | r in t && t[r].waitQueue != [];
    var r0, q0 :| InQueue(t, r0, q0) && q0.txId == a;
    assert r0 in queued;
    var r := HighestQueue(t, queued);
    var head := t[r].waitQueue[0];
    var h :| h in t[r].holders && h != head.txId && !IsCompatible(head.mode, t[r].holders[h]);
    assert Holds(t, r, h);
    assert forall s, p :: InQueue(t, s, p) ==> s in queued;
    assert forall s, p :: InQueue(t, s, p) && p.txId == h ==> r.pageId < s.pageId <= r.pageId;
  }

  lemma {:induction false} AscendingRunKeeps(t: Table, steps: seq<Step>)
    requires TableOk(t) && SingleWait(t) && AscendingWaits(t)
    requires AllowedRun(t, steps) && AscendingRun(t, steps)
    ensures TableOk(Run(t, steps)) && AscendingWaits(Run(t, steps))
    decreases |steps|
  {
    hide TableOk, SingleWait, AscendingWaits, Apply, Allowed, Ascends;
    if steps != [] {
      StepKeeps(t, steps[0]);
      AscendingKept(t, steps[0]);
      AscendingRunKeeps(Apply(t, steps[0]), steps[1..]);
    }
  }

  /** If all transactions acquire pages in ascending order, no run of the system comes to a standstill. */
  lemma AscendingNeverBlocks(steps: seq<Step>, a: TxId)
    requires AllowedRun(map[], steps) && AscendingRun(map[], steps) && IsWaiting(Run(map[], steps), a)
    ensures exists r, h :: Holds(Run(map[], steps), r, h) && !IsWaiting(Run(map[], steps), h)
  {
    hide AllowedRun, AscendingRun, Run;
    EmptyTableOk();
    AscendingRunKeeps(map[], steps);
    SomebodyRuns(Run(map[], steps), a);
  }

  /** The resource that an edit asks for as number `k`: first it locks its pages one by one, then it writes each. */
  function EditAsks(docId: int, pages: seq<int>, k: nat): Resource
    requires k < 2 * |pages|
  {
    Resource(docId, pages[if k < |pages| then k else k - |pages|])
  }

  /** As long as an edit holds just the locks it has asked for, every request of its is an ascending one. */
  lemma EditsAscend(t: Table, txId: TxId, docId: int, pages: seq<int>, k: nat, id: nat)
    requires k < 2 * |pages| && forall i, j :: 0 <= i < j < |pages| ==> pages[i] < pages[j]
    requires forall s :: Holds(t, s, txId) ==> exists i :: 0 <= i < k && i < |pages| && s == EditAsks(docId, pages, i)
    requires forall i :: 0 <= i < k && i < |pages| ==> Covered(Entry(t, EditAsks(docId, pages, i)), txId, X)
    ensures Ascends(t, Ask(txId, EditAsks(docId, pages, k), X, id))
  {
    if k >= |pages| {
      assert EditAsks(docId, pages, k) == EditAsks(docId, pages, k - |pages|);
    }
  }
}
