/** Two-phase locking as seen by one transaction: what it holds it keeps, at least as strongly, until it finishes. */
module LockHolding {
  import opened Collections
  import opened Ids
  import opened LockTable
  import opened LockManagement
  import opened WaitFor
  import opened LockRuns

  predicate EntryHolds(info: LockInfo, a: TxId, mode: Mode) {
    a in info.holders && (info.holders[a] == X || mode == S)
  }

  /** `a` holds the resource in this mode or a stronger one. */
  predicate Holding(t: Table, r: Resource, a: TxId, mode: Mode) {
    EntryHolds(Entry(t, r), a, mode)
  }

  /** Serving a request never weakens a lock that its transaction holds. */
  predicate EntryStrengthens(info: LockInfo) {
    forall i :: 0 <= i < |info.waitQueue| && info.waitQueue[i].txId in info.holders ==> info.waitQueue[i].mode == X
  }

  ghost predicate Strengthens(t: Table) {
    forall r :: r in t ==> EntryStrengthens(t[r])
  }

  ghost predicate LocksOk(t: Table) {
    TableOk(t) && SingleWait(t) && Strengthens(t)
  }

  lemma {:induction false} DrainHolds(info: LockInfo, a: TxId, mode: Mode)
    requires DistinctTx(info.waitQueue) && EntryStrengthens(info)
    ensures EntryStrengthens(Drain(info))
    ensures EntryHolds(info, a, mode) ==> EntryHolds(Drain(info), a, mode)
    decreases |info.waitQueue|
  {
    if info.waitQueue != [] && Fits(info.holders, info.waitQueue[0].txId, info.waitQueue[0].mode) {
      var next := info.waitQueue[0];
      var info1 := LockInfo(info.holders[next.txId := next.mode], info.waitQueue[1..]);
      assert forall i :: 0 <= i < |info1.waitQueue| ==> info1.waitQueue[i] == info.waitQueue[i + 1];
      DrainHolds(info1, a, mode);
    }
  }

  lemma AcquireHolds(info: LockInfo, request: Request, a: TxId, mode: Mode)
    requires DistinctTx(info.waitQueue) && EntryStrengthens(info)
    requires forall i :: 0 <= i < |info.waitQueue| ==> info.waitQueue[i].txId != request.txId
    ensures EntryStrengthens(AcquireEntry(info, request).0)
    ensures EntryHolds(info, a, mode) ==> EntryHolds(AcquireEntry(info, request).0, a, mode)
  {
  }

  /** A request granted at once is held; one granted later is held when its promise resolves. */
  lemma GrantedHolds(info: LockInfo, request: Request)
    ensures AcquireEntry(info, request).1.Granted? ==>
              EntryHolds(AcquireEntry(info, request).0, request.txId, request.mode)
  {
  }

  lemma {:induction false} DropSubset(queue: seq<Request>, txId: TxId)
    ensures forall i :: 0 <= i < |DropRequests(queue, txId)| ==> DropRequests(queue, txId)[i] in queue
  {
    DropDrops(queue, txId);
  }

  lemma WithoutHolds(info: LockInfo, gone: TxId, a: TxId, mode: Mode)
    requires EntryStrengthens(info)
    ensures EntryStrengthens(Without(info, gone))
    ensures a != gone && EntryHolds(info, a, mode) ==> EntryHolds(Without(info, gone), a, mode)
  {
    DropSubset(info.waitQueue, gone);
    var w := Without(info, gone);
    forall i | 0 <= i < |w.waitQueue| && w.waitQueue[i].txId in w.holders
      ensures w.waitQueue[i].mode == X
    {
      assert w.waitQueue[i] in info.waitQueue;
      var j :| 0 <= j < |info.waitQueue| && info.waitQueue[j] == w.waitQueue[i];
    }
  }

  lemma RemoveHolds(info: LockInfo, k: nat)
    requires DistinctTx(info.waitQueue) && EntryStrengthens(info) && k < |info.waitQueue|
    ensures var info1 := info.(waitQueue := RemoveAt(info.waitQueue, k));
            DistinctTx(info1.waitQueue) && EntryStrengthens(info1)
  {
    var q := RemoveAt(info.waitQueue, k);
    assert forall i :: 0 <= i < |q| ==> q[i] == info.waitQueue[if i < k then i else i + 1];
  }

  lemma AskHolds(t: Table, txId: TxId, r: Resource, mode: Mode, id: nat, s: Resource, a: TxId, m: Mode)
    requires LocksOk(t) && !IsWaiting(t, txId)
    ensures var t1 := Apply(t, Ask(txId, r, mode, id));
            Strengthens(t1) && (Holding(t, s, a, m) ==> Holding(t1, s, a, m))
  {
    var info := Entry(t, r);
    forall i | 0 <= i < |info.waitQueue|
      ensures info.waitQueue[i].txId != txId
    {
      assert InQueue(t, r, info.waitQueue[i]);
    }
    AcquireHolds(info, Request(id, txId, mode), a, m);
  }

  /** Until it finishes, a transaction keeps every lock it holds, at least as strongly. */
  lemma StepKeepsHolding(t: Table, step: Step, s: Resource, a: TxId, m: Mode)
    requires LocksOk(t) && Allowed(t, step)
    ensures LocksOk(Apply(t, step))
    ensures Holding(t, s, a, m) && !(step.Finish? && step.txId == a) ==> Holding(Apply(t, step), s, a, m)
  {
    StepKeeps(t, step);
    hide SingleWait, TableOk, Drain, EntryStrengthens, EntryHolds, DropRequests;
    match step
    case Ask(txId, r, mode, id) =>
      AskHolds(t, txId, r, mode, id, s, a, m);
    case Cancel(txId, r, id) =>
      if r in t {
        var k := IndexOfId(t[r].waitQueue, id);
        DistinctIn(t, r);
        if k < |t[r].waitQueue| {
          RemoveHolds(t[r], k);
          DrainHolds(t[r].(waitQueue := RemoveAt(t[r].waitQueue, k)), a, m);
        }
      }
    case Finish(txId) =>
      forall r | r in Apply(t, step)
        ensures EntryStrengthens(Apply(t, step)[r])
      {
        FinishHolds(t, txId, r, a, m);
      }
      if s in t {
        FinishHolds(t, txId, s, a, m);
      } else {
        NothingHeld(a, m);
      }
  }

  lemma NothingHeld(a: TxId, m: Mode)
    ensures !EntryHolds(EMPTY_INFO, a, m)
  {
  }

  lemma DistinctIn(t: Table, r: Resource)
    requires SingleWait(t) && r in t
    ensures DistinctTx(t[r].waitQueue)
  {
  }

  lemma FinishHolds(t: Table, txId: TxId, r: Resource, a: TxId, m: Mode)
    requires LocksOk(t) && r in t
    ensures EntryStrengthens(Drain(Without(t[r], txId)))
    ensures a != txId && EntryHolds(t[r], a, m) ==> Holding(Released(t, txId), r, a, m)
  {
    hide SingleWait, TableOk;
    DistinctIn(t, r);
    DropDistinct(t[r].waitQueue, txId);
    WithoutHolds(t[r], txId, a, m);
    DrainHolds(Without(t[r], txId), a, m);
  }

  /** No two transactions hold a resource if one of them holds it exclusively. */
  lemma ExclusiveIsAlone(t: Table, r: Resource, a: TxId, b: TxId, mode: Mode)
    requires LocksOk(t) && Holding(t, r, a, X) && Holding(t, r, b, mode)
    ensures a == b
  {
  }
}
