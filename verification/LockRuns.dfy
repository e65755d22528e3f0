/** Runs of lock steps, and what in a table nobody outside a set of transactions can change. */
module LockRuns {
  import opened Collections
  import opened Graphs
  import opened Ids
  import opened LockTable
  import opened LockManagement
  import opened WaitFor

  /** The atomic steps a transaction can take on the lock table; a timeout is a `Cancel`. */
  datatype Step =
    | Ask(txId: TxId, resource: Resource, mode: Mode, id: nat)
    | Cancel(txId: TxId, resource: Resource, id: nat)
    | Finish(txId: TxId)

  function Apply(t: Table, step: Step): Table {
    match step
    case Ask(txId, r, mode, id) => t[r := AcquireEntry(Entry(t, r), Request(id, txId, mode)).0]
    case Cancel(txId, r, id) => if r in t then t[r := CancelEntry(t[r], id)] else t
    case Finish(txId) => Released(t, txId)
  }

  /** A transaction asks only while it has nothing outstanding, and cancels only its own request. */
  ghost predicate Allowed(t: Table, step: Step) {
    match step
    case Ask(txId, r, mode, id) => !IsWaiting(t, txId)
    case Cancel(txId, r, id) => r in t ==> forall q :: q in t[r].waitQueue && q.id == id ==> q.txId == txId
    case Finish(txId) => true
  }

  function Run(t: Table, steps: seq<Step>): Table
    decreases |steps|
  {
    if steps == [] then t else Run(Apply(t, steps[0]), steps[1..])
  }

  ghost predicate AllowedRun(t: Table, steps: seq<Step>)
    decreases |steps|
  {
    steps != [] ==> Allowed(t, steps[0]) && AllowedRun(Apply(t, steps[0]), steps[1..])
  }

  /** The entry that a step changes, if it is not a `Finish`. */
  lemma AskKeeps(t: Table, txId: TxId, r: Resource, mode: Mode, id: nat)
    requires TableOk(t) && SingleWait(t) && !IsWaiting(t, txId)
    ensures var t1 := Apply(t, Ask(txId, r, mode, id)); TableOk(t1) && SingleWait(t1)
  {
    var info := Entry(t, r);
    var request := Request(id, txId, mode);
    var t1 := Apply(t, Ask(txId, r, mode, id));
    AcquireKeepsEntry(info, request);
    forall q | q in info.waitQueue
      ensures q.txId != txId
    {
      assert InQueue(t, r, q);
    }
    forall s, p | InQueue(t1, s, p) && p.txId != txId
      ensures InQueue(t, s, p)
    {
    }
    forall s, p | InQueue(t1, s, p) && p.txId == txId
      ensures s == r
    {
      if s != r {
        assert InQueue(t, s, p);
      }
    }
  }

  lemma CancelKeeps(t: Table, r: Resource, id: nat)
    requires TableOk(t) && SingleWait(t) && r in t
    ensures TableOk(t[r := CancelEntry(t[r], id)]) && SingleWait(t[r := CancelEntry(t[r], id)])
  {
    var info := t[r];
    var t1 := t[r := CancelEntry(info, id)];
    CancelKeepsRequests(info, id);
    var k := IndexOfId(info.waitQueue, id);
    if k < |info.waitQueue| {
      DrainQueueShrinks(info.(waitQueue := RemoveAt(info.waitQueue, k)));
    }
    forall s, p | InQueue(t1, s, p)
      ensures InQueue(t, s, p)
    {
    }
  }

  lemma StepKeeps(t: Table, step: Step)
    requires TableOk(t) && SingleWait(t) && Allowed(t, step)
    ensures TableOk(Apply(t, step)) && SingleWait(Apply(t, step))
  {
    match step
    case Ask(txId, r, mode, id) => AskKeeps(t, txId, r, mode, id);
    case Cancel(txId, r, id) =>
      if r in t {
        CancelKeeps(t, r, id);
      }
    case Finish(txId) => ReleasedKeeps(t, txId);
  }

  /** The table invariants hold after any run. */
  lemma {:induction false} RunKeepsTable(t: Table, steps: seq<Step>)
    requires TableOk(t) && SingleWait(t) && AllowedRun(t, steps)
    ensures TableOk(Run(t, steps)) && SingleWait(Run(t, steps))
    decreases |steps|
  {
    if steps != [] {
      hide TableOk, SingleWait, Apply, Allowed;
      StepKeeps(t, steps[0]);
      RunKeepsTable(Apply(t, steps[0]), steps[1..]);
    }
  }

  lemma EmptyTableOk()
    ensures TableOk(map[]) && SingleWait(map[])
  {
  }

  ghost predicate ByOthers(steps: seq<Step>, c: set<TxId>) {
    forall i :: 0 <= i < |steps| ==> steps[i].txId !in c
  }

  // ---------------------------------------------------------------------
  // A queue whose first member is blocked by a member
  // ---------------------------------------------------------------------

  /** The first request of a member of `c` in a queue. */
  function FrontOf(queue: seq<Request>, c: set<TxId>): (q: Option<Request>)
    ensures q.Some? ==> q.value in queue && q.value.txId in c
    ensures q.None? ==> forall p :: p in queue ==> p.txId !in c
  {
    if queue == [] then None
    else if queue[0].txId in c then Some(queue[0])
    else FrontOf(queue[1..], c)
  }

  ghost predicate BlockedBy(holders: map<TxId, Mode>, c: set<TxId>, q: Request) {
    exists b :: b in c && Blocks(holders, q, b)
  }

  ghost predicate FrontBlockedIn(info: LockInfo, c: set<TxId>) {
    var q := FrontOf(info.waitQueue, c);
    q.Some? ==> BlockedBy(info.holders, c, q.value)
  }

  /** In every queue, the first request of a member is blocked by a holder that is a member. */
  ghost predicate FrontBlocked(t: Table, c: set<TxId>) {
    forall r :: r in t ==> FrontBlockedIn(t[r], c)
  }

  ghost predicate SameHolders(before: map<TxId, Mode>, after: map<TxId, Mode>, c: set<TxId>) {
    forall b :: b in c ==> (b in after <==> b in before) && (b in before ==> after[b] == before[b])
  }

  /** Nothing changed for the members in this entry. */
  ghost predicate SameFor(before: LockInfo, after: LockInfo, c: set<TxId>) {
    && (forall q: Request :: q.txId in c ==> (q in after.waitQueue <==> q in before.waitQueue))
    && FrontOf(after.waitQueue, c) == FrontOf(before.waitQueue, c)
    && SameHolders(before.holders, after.holders, c)
  }

  lemma SameStaysBlocked(before: LockInfo, after: LockInfo, c: set<TxId>)
    requires SameFor(before, after, c) && FrontBlockedIn(before, c)
    ensures FrontBlockedIn(after, c)
  {
    var q := FrontOf(before.waitQueue, c);
    if q.Some? {
      var b :| b in c && Blocks(before.holders, q.value, b);
      assert Blocks(after.holders, q.value, b);
    }
  }

  lemma SameTrans(a: LockInfo, b: LockInfo, d: LockInfo, c: set<TxId>)
    requires SameFor(a, b, c) && SameFor(b, d, c)
    ensures SameFor(a, d, c)
  {
    hide FrontOf;
  }

  lemma FittingIsNotBlocked(holders: map<TxId, Mode>, c: set<TxId>, q: Request)
    requires Fits(holders, q.txId, q.mode)
    ensures !BlockedBy(holders, c, q)
  {
  }

  lemma {:induction false} DrainKeepsFront(info: LockInfo, c: set<TxId>)
    requires FrontBlockedIn(info, c)
    ensures SameFor(info, Drain(info), c)
    decreases |info.waitQueue|
  {
    if info.waitQueue != [] && Fits(info.holders, info.waitQueue[0].txId, info.waitQueue[0].mode) {
      var next := info.waitQueue[0];
      var info1 := LockInfo(info.holders[next.txId := next.mode], info.waitQueue[1..]);
      FittingIsNotBlocked(info.holders, c, next);
      assert next.txId !in c;
      assert info.waitQueue == [next] + info1.waitQueue;
      hide Drain, FrontBlockedIn, BlockedBy;
      assert SameFor(info, info1, c);
      SameStaysBlocked(info, info1, c);
      DrainKeepsFront(info1, c);
      SameTrans(info, info1, Drain(info1), c);
      DrainStep(info);
    }
  }

  lemma {:induction false} FrontAfterRemove(queue: seq<Request>, k: nat, c: set<TxId>)
    requires k < |queue| && queue[k].txId !in c
    ensures FrontOf(RemoveAt(queue, k), c) == FrontOf(queue, c)
  {
    if k == 0 {
      assert RemoveAt(queue, 0) == queue[1..];
    } else {
      FrontAfterRemove(queue[1..], k - 1, c);
      assert RemoveAt(queue, k) == [queue[0]] + RemoveAt(queue[1..], k - 1);
    }
  }

  lemma {:induction false} FrontAfterDrop(queue: seq<Request>, txId: TxId, c: set<TxId>)
    requires txId !in c
    ensures FrontOf(DropRequests(queue, txId), c) == FrontOf(queue, c)
  {
    if queue != [] {
      FrontAfterDrop(queue[1..], txId, c);
    }
  }

  lemma {:induction false} FrontAfterAppend(queue: seq<Request>, q: Request, c: set<TxId>)
    requires q.txId !in c
    ensures FrontOf(queue + [q], c) == FrontOf(queue, c)
  {
    if queue == [] {
      assert [q][1..] == [];
    } else {
      FrontAfterAppend(queue[1..], q, c);
      assert (queue + [q])[1..] == queue[1..] + [q];
    }
  }

  lemma AskedSame(info: LockInfo, request: Request, c: set<TxId>)
    requires request.txId !in c
    ensures SameFor(info, AcquireEntry(info, request).0, c)
  {
    FrontAfterAppend(info.waitQueue, request, c);
    hide FrontOf;
  }

  lemma CancelledSame(info: LockInfo, id: nat, c: set<TxId>)
    requires FrontBlockedIn(info, c) && forall q :: q in info.waitQueue && q.id == id ==> q.txId !in c
    ensures SameFor(info, CancelEntry(info, id), c)
  {
    hide FrontBlockedIn, Drain, RemoveAt, FrontOf;
    var k := IndexOfId(info.waitQueue, id);
    if k < |info.waitQueue| {
      var info1 := info.(waitQueue := RemoveAt(info.waitQueue, k));
      RemovedSame(info, k, c);
      SameStaysBlocked(info, info1, c);
      DrainKeepsFront(info1, c);
      SameTrans(info, info1, Drain(info1), c);
    }
  }

  lemma RemovedSame(info: LockInfo, k: nat, c: set<TxId>)
    requires k < |info.waitQueue| && info.waitQueue[k].txId !in c
    ensures SameFor(info, info.(waitQueue := RemoveAt(info.waitQueue, k)), c)
  {
    hide FrontOf;
    FrontAfterRemove(info.waitQueue, k, c);
    assert info.waitQueue == info.waitQueue[..k] + [info.waitQueue[k]] + info.waitQueue[k + 1..];
  }

  lemma WithoutSame(info: LockInfo, txId: TxId, c: set<TxId>)
    requires txId !in c
    ensures SameFor(info, Without(info, txId), c)
  {
    hide FrontOf;
    FrontAfterDrop(info.waitQueue, txId, c);
    DropDrops(info.waitQueue, txId);
  }

  lemma FinishedSame(info: LockInfo, txId: TxId, c: set<TxId>)
    requires FrontBlockedIn(info, c) && txId !in c
    ensures SameFor(info, Drain(Without(info, txId)), c)
  {
    hide FrontBlockedIn, Drain, Without, FrontOf;
    var w := Without(info, txId);
    WithoutSame(info, txId, c);
    SameStaysBlocked(info, w, c);
    DrainKeepsFront(w, c);
    SameTrans(info, w, Drain(w), c);
  }

  lemma NothingChanged(info: LockInfo, c: set<TxId>)
    ensures SameFor(info, info, c)
  {
  }

  /** A step of a transaction outside `c` leaves every entry as it was for the members of `c`. */
  lemma OutsideStep(t: Table, step: Step, c: set<TxId>, r: Resource)
    requires FrontBlocked(t, c) && Allowed(t, step) && step.txId !in c
    ensures SameFor(Entry(t, r), Entry(Apply(t, step), r), c)
  {
    hide FrontBlockedIn, Drain, Without, AcquireEntry, CancelEntry, IsWaiting, SameFor;
    NothingChanged(Entry(t, r), c);
    match step
    case Ask(txId, s, mode, id) => AskedSame(Entry(t, s), Request(id, txId, mode), c);
    case Cancel(txId, s, id) =>
      if s == r && r in t {
        CancelledSame(t[r], id, c);
      }
    case Finish(txId) =>
      if r in t {
        FinishedSame(t[r], txId, c);
      }
  }

  lemma NoneBlocked(c: set<TxId>)
    ensures FrontBlockedIn(EMPTY_INFO, c)
  {
  }

  lemma FrontStays(t: Table, step: Step, c: set<TxId>)
    requires FrontBlocked(t, c) && Allowed(t, step) && step.txId !in c
    ensures FrontBlocked(Apply(t, step), c)
  {
    hide Apply, Allowed, FrontBlockedIn, SameFor;
    var t1 := Apply(t, step);
    NoneBlocked(c);
    forall r | r in t1
      ensures FrontBlockedIn(t1[r], c)
    {
      OutsideStep(t, step, c, r);
      SameStaysBlocked(Entry(t, r), Entry(t1, r), c);
    }
  }

  /** If in every queue the first member is blocked by a member, others change nothing for the members, however long. */
  lemma {:induction false} FrontStaysForever(t: Table, steps: seq<Step>, c: set<TxId>, r: Resource)
    requires FrontBlocked(t, c) && AllowedRun(t, steps) && ByOthers(steps, c)
    ensures FrontBlocked(Run(t, steps), c) && SameFor(Entry(t, r), Entry(Run(t, steps), r), c)
    decreases |steps|
  {
    hide Apply, Allowed, FrontBlocked, SameFor, Entry;
    if steps == [] {
      NothingChanged(Entry(t, r), c);
    } else {
      var t1 := Apply(t, steps[0]);
      FrontStays(t, steps[0], c);
      OutsideStep(t, steps[0], c, r);
      FrontStaysForever(t1, steps[1..], c, r);
      SameTrans(Entry(t, r), Entry(t1, r), Entry(Run(t, steps), r), c);
    }
  }

  // ---------------------------------------------------------------------
  // Reported components are stuck for good
  // ---------------------------------------------------------------------

  /** Every member waits for another member. */
  ghost predicate Stuck(t: Table, c: set<TxId>) {
    forall a {:trigger WaitsInside(t, c, a)} :: a in c ==> WaitsInside(t, c, a)
  }

  ghost predicate WaitsInside(t: Table, c: set<TxId>, a: TxId) {
    exists b :: b in c && Waits(t, a, b)
  }

  lemma StuckIsFrontBlocked(t: Table, c: set<TxId>)
    requires SingleWait(t) && Stuck(t, c)
    ensures FrontBlocked(t, c)
  {
    hide FrontOf;
    forall r | r in t
      ensures FrontBlockedIn(t[r], c)
    {
      var f := FrontOf(t[r].waitQueue, c);
      if f.Some? {
        var q := f.value;
        assert InQueue(t, r, q);
        assert WaitsInside(t, c, q.txId);
        var b :| b in c && Waits(t, q.txId, b);
        var s, p :| InQueue(t, s, p) && p.txId == q.txId && Blocks(t[s].holders, p, b);
        assert s == r;
        SameRequest(t[r].waitQueue, p, q);
      }
    }
  }

  lemma SameRequest(queue: seq<Request>, p: Request, q: Request)
    requires DistinctTx(queue) && p in queue && q in queue && p.txId == q.txId
    ensures p == q
  {
  }

  lemma SameIsStuck(t: Table, t1: Table, c: set<TxId>)
    requires Stuck(t, c) && forall r :: SameFor(Entry(t, r), Entry(t1, r), c)
    ensures Stuck(t1, c)
    ensures forall r, a :: a in c ==> (Holds(t1, r, a) <==> Holds(t, r, a))
  {
    hide FrontOf;
    forall a | a in c
      ensures WaitsInside(t1, c, a)
    {
      assert WaitsInside(t, c, a);
      var b :| b in c && Waits(t, a, b);
      var r, q :| InQueue(t, r, q) && q.txId == a && Blocks(t[r].holders, q, b);
      assert SameFor(Entry(t, r), Entry(t1, r), c);
      assert InQueue(t1, r, q) && Blocks(t1[r].holders, q, b);
    }
    forall r, a | a in c
      ensures Holds(t1, r, a) <==> Holds(t, r, a)
    {
      assert SameFor(Entry(t, r), Entry(t1, r), c);
    }
  }

  /** No run of steps by others ever grants a request of a stuck set, or takes a lock from it. */
  lemma StuckForever(t: Table, steps: seq<Step>, c: set<TxId>)
    requires SingleWait(t) && Stuck(t, c) && AllowedRun(t, steps) && ByOthers(steps, c)
    ensures Stuck(Run(t, steps), c)
    ensures forall r, q :: InQueue(t, r, q) && q.txId in c ==> InQueue(Run(t, steps), r, q)
    ensures forall r, a :: a in c ==> (Holds(Run(t, steps), r, a) <==> Holds(t, r, a))
  {
    hide Run, AllowedRun, Stuck, FrontBlocked, FrontOf, SingleWait;
    var t1 := Run(t, steps);
    StuckIsFrontBlocked(t, c);
    forall r
      ensures SameFor(Entry(t, r), Entry(t1, r), c)
    {
      FrontStaysForever(t, steps, c, r);
    }
    SameIsStuck(t, t1, c);
    forall r, q | InQueue(t, r, q) && q.txId in c
      ensures InQueue(t1, r, q)
    {
      assert SameFor(Entry(t, r), Entry(t1, r), c);
    }
  }

  /** Every component that the detector reports is stuck. */
  lemma ReportedIsStuck(t: Table, c: set<TxId>)
    requires IsScc(WaitGraph(t), c) && |c| >= 2
    ensures Stuck(t, c)
  {
    hide Reach, WaitGraph, Waits;
    forall a | a in c
      ensures WaitsInside(t, c, a)
    {
      var rest := c - {a};
      assert |rest| == |c| - |c * {a}|;
      var y := Pick(rest);
      var b := FirstStep(WaitGraph(t), a, y);
      ReachEdge(WaitGraph(t), a, b);
      ReachTrans(WaitGraph(t), b, y, a);
      WaitGraphEdge(t, a, b);
    }
  }
}
