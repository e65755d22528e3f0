/** First come, first served: while a request is queued, nobody who came later gets the lock. */
module LockOrder {
  import opened Collections
  import opened Ids
  import opened LockTable
  import opened LockManagement
  import opened WaitFor
  import opened LockRuns

  /** The transactions queued in front of a request. */
  function InFront(queue: seq<Request>, q: Request): set<TxId> {
    if queue == [] || queue[0] == q then {} else {queue[0].txId} + InFront(queue[1..], q)
  }

  /** Whoever holds a resource, or is to get it before a request. */
  function Earlier(info: LockInfo, q: Request): set<TxId> {
    info.holders.Keys + InFront(info.waitQueue, q)
  }

  lemma {:induction false} DrainServesEarlier(info: LockInfo, q: Request)
    requires q in Drain(info).waitQueue && DistinctTx(info.waitQueue)
    ensures Earlier(Drain(info), q) <= Earlier(info, q)
    decreases |info.waitQueue|
  {
    if info.waitQueue != [] && Fits(info.holders, info.waitQueue[0].txId, info.waitQueue[0].mode) {
      var next := info.waitQueue[0];
      var info1 := LockInfo(info.holders[next.txId := next.mode], info.waitQueue[1..]);
      DrainQueueShrinks(info1);
      assert q != next;
      DrainServesEarlier(info1, q);
    }
  }

  lemma {:induction false} AppendedBehind(queue: seq<Request>, q: Request, x: Request)
    requires q in queue
    ensures InFront(queue + [x], q) == InFront(queue, q)
  {
    if queue[0] != q {
      AppendedBehind(queue[1..], q, x);
      assert (queue + [x])[1..] == queue[1..] + [x];
    }
  }

  lemma {:induction false} RemovedInFront(queue: seq<Request>, k: nat, q: Request)
    requires k < |queue| && q in RemoveAt(queue, k)
    ensures InFront(RemoveAt(queue, k), q) <= InFront(queue, q) || queue[k] == q
  {
    if k == 0 {
      assert RemoveAt(queue, 0) == queue[1..];
    } else if queue[0] != q {
      assert RemoveAt(queue, k) == [queue[0]] + RemoveAt(queue[1..], k - 1);
      RemovedInFront(queue[1..], k - 1, q);
    }
  }

  lemma {:induction false} DroppedInFront(queue: seq<Request>, txId: TxId, q: Request)
    requires q.txId != txId
    ensures InFront(DropRequests(queue, txId), q) <= InFront(queue, q)
  {
    if queue != [] {
      DroppedInFront(queue[1..], txId, q);
    }
  }

  lemma AskedBehind(info: LockInfo, request: Request, q: Request)
    requires q in info.waitQueue && q.txId != request.txId
    ensures Earlier(AcquireEntry(info, request).0, q) <= Earlier(info, q)
  {
    AppendedBehind(info.waitQueue, q, request);
    hide InFront;
  }

  lemma CancelledEarlier(info: LockInfo, id: nat, q: Request)
    requires q in CancelEntry(info, id).waitQueue && DistinctTx(info.waitQueue)
    ensures Earlier(CancelEntry(info, id), q) <= Earlier(info, q)
  {
    hide Drain, InFront, RemoveAt;
    var k := IndexOfId(info.waitQueue, id);
    if k < |info.waitQueue| {
      var info1 := info.(waitQueue := RemoveAt(info.waitQueue, k));
      DrainQueueShrinks(info1);
      RemoveStaysDistinct(info.waitQueue, k);
      RemovedInFront(info.waitQueue, k, q);
      DrainServesEarlier(info1, q);
    }
  }

  lemma RemoveStaysDistinct(queue: seq<Request>, k: nat)
    requires k < |queue| && DistinctTx(queue)
    ensures DistinctTx(RemoveAt(queue, k)) && queue[k] !in RemoveAt(queue, k)
  {
    var rest := RemoveAt(queue, k);
    assert forall i :: 0 <= i < |rest| ==> rest[i] == queue[if i < k then i else i + 1];
  }

  lemma FinishedEarlier(info: LockInfo, txId: TxId, q: Request)
    requires q in Drain(Without(info, txId)).waitQueue && DistinctTx(info.waitQueue)
    ensures Earlier(Drain(Without(info, txId)), q) <= Earlier(info, q)
  {
    hide Drain, InFront;
    var w := Without(info, txId);
    DrainQueueShrinks(w);
    DropDrops(info.waitQueue, txId);
    DropDistinct(info.waitQueue, txId);
    DroppedInFront(info.waitQueue, txId, q);
    DrainServesEarlier(w, q);
  }

  lemma StepKeepsOrder(t: Table, step: Step, r: Resource, q: Request)
    requires SingleWait(t) && Allowed(t, step) && InQueue(t, r, q) && InQueue(Apply(t, step), r, q)
    ensures Earlier(Apply(t, step)[r], q) <= Earlier(t[r], q)
  {
    hide Earlier, Drain, AcquireEntry, CancelEntry, Without;
    match step
    case Ask(txId, s, mode, id) =>
      assert q.txId != txId;
      AskedBehind(t[r], Request(id, txId, mode), q);
    case Cancel(txId, s, id) =>
      if s == r {
        CancelledEarlier(t[r], id, q);
      }
    case Finish(txId) => FinishedEarlier(t[r], txId, q);
  }

  /** The request is queued all along a run. */
  ghost predicate QueuedAlong(t: Table, steps: seq<Step>, r: Resource, q: Request)
    decreases |steps|
  {
    InQueue(t, r, q) && (steps != [] ==> QueuedAlong(Apply(t, steps[0]), steps[1..], r, q))
  }

  lemma {:induction false} EarlierShrinks(t: Table, steps: seq<Step>, r: Resource, q: Request)
    requires TableOk(t) && SingleWait(t) && AllowedRun(t, steps) && QueuedAlong(t, steps, r, q)
    ensures InQueue(t, r, q) && InQueue(Run(t, steps), r, q)
    ensures Earlier(Run(t, steps)[r], q) <= Earlier(t[r], q)
    decreases |steps|
  {
    hide TableOk, SingleWait, Apply, Allowed, Earlier;
    if steps != [] {
      StepKeeps(t, steps[0]);
      EarlierShrinks(Apply(t, steps[0]), steps[1..], r, q);
      StepKeepsOrder(t, steps[0], r, q);
    }
  }

  /** While a request is queued, whoever gets the resource was queued in front of it, or held the resource already. */
  lemma NobodyOvertakes(t: Table, steps: seq<Step>, r: Resource, q: Request, h: TxId)
    requires TableOk(t) && SingleWait(t) && AllowedRun(t, steps) && QueuedAlong(t, steps, r, q)
    requires Holds(Run(t, steps), r, h)
    ensures Holds(t, r, h) || (r in t && h in InFront(t[r].waitQueue, q))
  {
    hide TableOk, SingleWait, AllowedRun, QueuedAlong, Run, InFront;
    EarlierShrinks(t, steps, r, q);
  }
}
