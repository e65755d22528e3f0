/** The lock manager: a mutable table of holders and FIFO wait queues, and the promises handed out. */
module LockManagement {
  import opened Collections
  import opened Ids
  import opened LockTable

  /** What has become of the promise returned for a request. */
  datatype Outcome = Pending | Granted(upgraded: bool) | Cancelled

  /** The entry and the outcome that a lock request leaves behind. */
  function AcquireEntry(info: LockInfo, request: Request): (LockInfo, Outcome) {
    var txId, mode := request.txId, request.mode;
    if txId in info.holders && (info.holders[txId] == mode || info.holders[txId] == X) then
      (info, Granted(false))
    else if txId in info.holders && |info.holders| == 1 then
      (info.(holders := info.holders[txId := X]), Granted(true))
    else if (forall q :: q in info.waitQueue ==> q.txId == txId) && Fits(info.holders, txId, mode) then
      (info.(holders := info.holders[txId := mode]), Granted(false))
    else
      (info.(waitQueue := info.waitQueue + [request]), Pending)
  }

  /** A transaction that alone holds a lock in shared mode asks for it in exclusive mode. */
  predicate Upgrades(holders: map<TxId, Mode>, txId: TxId, mode: Mode) {
    mode == X && holders == map[txId := S]
  }

  /**
    * A request need not wait: its lock is covered already, or nobody else holds the resource and the request is an
    * upgrade, or nobody else is queued and no other holder conflicts.
    */
  predicate GrantedAtOnce(info: LockInfo, txId: TxId, mode: Mode) {
    || Covered(info, txId, mode)
    || info.holders.Keys == {txId}
    || ((forall q :: q in info.waitQueue ==> q.txId == txId) &&
        forall h :: h in info.holders && h != txId ==> mode == S && info.holders[h] == S)
  }

  /** When a request is granted, whether as an upgrade, and what it leaves behind. */
  lemma AcquireAnswers(info: LockInfo, request: Request)
    ensures var (info1, outcome) := AcquireEntry(info, request);
            var txId, mode := request.txId, request.mode;
            && (outcome.Granted? <==> GrantedAtOnce(info, txId, mode))
            && (outcome == Granted(true) <==> Upgrades(info.holders, txId, mode))
            && (outcome.Granted? ==>
                  && info1.waitQueue == info.waitQueue
                  && info1.holders == if Covered(info, txId, mode) then info.holders else info.holders[txId := mode])
            && (!outcome.Granted? ==>
                  outcome == Pending && info1 == info.(waitQueue := info.waitQueue + [request]))
  {
    if request.txId in info.holders && |info.holders| == 1 {
      OnlyKey(info.holders, request.txId);
    }
    if info.holders.Keys == {request.txId} {
      assert |info.holders.Keys| == 1;
    }
  }

  lemma OnlyKey(holders: map<TxId, Mode>, txId: TxId)
    requires txId in holders && |holders| == 1
    ensures holders.Keys == {txId} && holders == map[txId := holders[txId]]
  {
    assert |holders.Keys - {txId}| == 0;
  }

  /** The promise of a served request says that it was granted, and whether it was an upgrade. */
  predicate AnsweredAt(info: LockInfo, outcomes: map<nat, Outcome>, i: nat)
    requires i < |info.waitQueue|
  {
    var q := info.waitQueue[i];
    q.id in outcomes && outcomes[q.id] == Granted(Upgrades(HoldersAfter(info, i), q.txId, q.mode))
  }

  lemma AnsweredNext(info: LockInfo, outcomes: map<nat, Outcome>, k: nat)
    requires UniqueInQueue(info.waitQueue) && k < |info.waitQueue|
    requires forall i :: 0 <= i < k ==> AnsweredAt(info, outcomes, i)
    ensures var q := info.waitQueue[k];
            var outcomes1 := outcomes[q.id := Granted(Upgrades(HoldersAfter(info, k), q.txId, q.mode))];
            forall i :: 0 <= i < k + 1 ==> AnsweredAt(info, outcomes1, i)
  {
    hide HoldersAfter, Upgrades;
    var q := info.waitQueue[k];
    var outcomes1 := outcomes[q.id := Granted(Upgrades(HoldersAfter(info, k), q.txId, q.mode))];
    forall i | 0 <= i < k + 1
      ensures AnsweredAt(info, outcomes1, i)
    {
      assert i < k ==> AnsweredAt(info, outcomes, i) && info.waitQueue[i].id != q.id;
    }
  }

  lemma UpgradeFits(holders: map<TxId, Mode>, txId: TxId, mode: Mode)
    ensures Upgrades(holders, txId, mode) <==>
            txId in holders && holders[txId] == S && mode == X && |holders| == 1
    ensures Upgrades(holders, txId, mode) ==> Fits(holders, txId, mode)
  {
    if txId in holders && |holders| == 1 {
      OnlyKey(holders, txId);
    }
  }

  lemma HeadIsPending(t: Table, outcomes: map<nat, Outcome>, nextRequest: nat, r: Resource)
    requires Tracked(t, outcomes, nextRequest) && r in t && t[r].waitQueue != []
    ensures t[r].waitQueue[0].id in outcomes && outcomes[t[r].waitQueue[0].id] == Pending
  {
    hide UniqueIds;
    assert t[r].waitQueue[0].id in QueuedIds(t);
  }

  function QueuedIds(t: Table): set<nat> {
    set r, i | r in t && 0 <= i < |t[r].waitQueue| :: t[r].waitQueue[i].id
  }

  ghost predicate UniqueIds(t: Table) {
    forall r, i, s, j ::
      && r in t && s in t && 0 <= i < |t[r].waitQueue| && 0 <= j < |t[s].waitQueue|
      && t[r].waitQueue[i].id == t[s].waitQueue[j].id
      ==> r == s && i == j
  }

  /** A promise is pending exactly while its request is queued. */
  ghost predicate Tracked(t: Table, outcomes: map<nat, Outcome>, nextRequest: nat) {
    && UniqueIds(t)
    && (forall id :: id in outcomes ==> id < nextRequest)
    && QueuedIds(t) == set id | id in outcomes && outcomes[id] == Pending
  }

  lemma ReleasedTable(t: Table, txId: TxId)
    requires TableOk(t)
    ensures TableOk(Released(t, txId)) && forall r :: r in Released(t, txId) ==> IsGone(Released(t, txId)[r], txId)
  {
    hide Drain, Without, HoldersAgree, Settled, IsGone;
    forall r | r in t
      ensures HoldersAgree(Drain(Without(t[r], txId)).holders) && Settled(Drain(Without(t[r], txId)))
      ensures IsGone(Drain(Without(t[r], txId)), txId)
    {
      WithoutAgrees(t[r], txId);
      DrainSettles(Without(t[r], txId));
      ReleasedIsGone(t[r], txId);
    }
  }

  /** The id of a queued request of a transaction. */
  predicate IsOwn(queue: seq<Request>, txId: TxId, id: nat) {
    exists q :: q in queue && q.txId == txId && q.id == id
  }

  /** A promise that changes was pending; it is granted, or, for a request of one's own only, rejected. */
  predicate Moved(before: Outcome, after: Outcome, own: bool) {
    after == before || (before.Pending? && (after.Granted? || (own && after.Cancelled?)))
  }

  /** Promises are granted or left alone, except that those of one transaction may be rejected. */
  ghost predicate OnlyOwnRejected(t: Table, before: map<nat, Outcome>, after: map<nat, Outcome>, txId: TxId) {
    && after.Keys == before.Keys
    && forall id :: id in after ==>
         Moved(before[id], after[id], exists r :: r in t && IsOwn(t[r].waitQueue, txId, id))
  }

  /** The first request of the transaction in a queue, and with a single one its only request, is rejected. */
  ghost predicate OwnRejected(info: LockInfo, outcomes: map<nat, Outcome>, txId: TxId) {
    var own := RequestsOf(info.waitQueue, txId);
    own != [] ==> own[0].id in outcomes && outcomes[own[0].id] == Cancelled
  }

  /** The same for one queue. */
  ghost predicate OnlyOwnMoved(queue: seq<Request>, before: map<nat, Outcome>, after: map<nat, Outcome>, txId: TxId) {
    after.Keys == before.Keys && forall id :: id in after ==> Moved(before[id], after[id], IsOwn(queue, txId, id))
  }

  lemma NoneMoved(queue: seq<Request>, outcomes: map<nat, Outcome>, txId: TxId)
    ensures OnlyOwnMoved(queue, outcomes, outcomes, txId)
  {
  }

  lemma OwnMovedFurther(queue: seq<Request>, start: map<nat, Outcome>, before: map<nat, Outcome>,
                        after: map<nat, Outcome>, txId: TxId, own: nat)
    requires OnlyOwnMoved(queue, start, before, txId) && IsOwn(queue, txId, own) && after.Keys == before.Keys
    requires forall id :: id in after ==> Moved(before[id], after[id], id == own)
    ensures OnlyOwnMoved(queue, start, after, txId)
  {
    hide IsOwn;
  }

  lemma GrantedFurther(queue: seq<Request>, start: map<nat, Outcome>, before: map<nat, Outcome>,
                       after: map<nat, Outcome>, txId: TxId)
    requires OnlyOwnMoved(queue, start, before, txId) && after.Keys == before.Keys
    requires forall id :: id in after ==> Moved(before[id], after[id], false)
    ensures OnlyOwnMoved(queue, start, after, txId)
  {
    hide IsOwn;
  }

  lemma NoneRejected(t: Table, outcomes: map<nat, Outcome>, txId: TxId)
    ensures OnlyOwnRejected(t, outcomes, outcomes, txId)
  {
  }

  lemma RejectedFurther(t: Table, start: map<nat, Outcome>, before: map<nat, Outcome>, after: map<nat, Outcome>,
                        txId: TxId, r: Resource)
    requires OnlyOwnRejected(t, start, before, txId) && r in t
    requires OnlyOwnMoved(t[r].waitQueue, before, after, txId)
    ensures OnlyOwnRejected(t, start, after, txId)
    ensures forall s :: s in t && OwnRejected(t[s], before, txId) ==> OwnRejected(t[s], after, txId)
  {
    hide IsOwn, RequestsOf;
  }

  lemma QueuedHead(t: Table, r: Resource, holders: map<TxId, Mode>)
    requires UniqueIds(t) && r in t && t[r].waitQueue != []
    ensures UniqueIds(t[r := LockInfo(holders, t[r].waitQueue[1..])])
    ensures QueuedIds(t[r := LockInfo(holders, t[r].waitQueue[1..])]) == QueuedIds(t) - {t[r].waitQueue[0].id}
  {
    hide UniqueIds, QueuedIds;
    assert RemoveAt(t[r].waitQueue, 0) == t[r].waitQueue[1..];
    UniqueWithout(t, r, holders, 0);
    QueuedWithout(t, r, holders, 0);
  }

  lemma UniqueWithout(t: Table, r: Resource, holders: map<TxId, Mode>, k: nat)
    requires UniqueIds(t) && r in t && k < |t[r].waitQueue|
    ensures UniqueIds(t[r := LockInfo(holders, RemoveAt(t[r].waitQueue, k))])
  {
    var q := t[r].waitQueue;
    var q1 := RemoveAt(q, k);
    var t1 := t[r := LockInfo(holders, q1)];
    forall s, i | s in t1 && 0 <= i < |t1[s].waitQueue|
      ensures t1[s].waitQueue[i] == t[s].waitQueue[if s != r || i < k then i else i + 1]
    {
    }
  }

  lemma QueuedWithout(t: Table, r: Resource, holders: map<TxId, Mode>, k: nat)
    requires UniqueIds(t) && r in t && k < |t[r].waitQueue|
    ensures QueuedIds(t[r := LockInfo(holders, RemoveAt(t[r].waitQueue, k))]) == QueuedIds(t) - {t[r].waitQueue[k].id}
  {
    hide RemoveAt;
    var t1 := t[r := LockInfo(holders, RemoveAt(t[r].waitQueue, k))];
    forall id
      ensures id in QueuedIds(t1) <==> id in QueuedIds(t) && id != t[r].waitQueue[k].id
    {
      if id in QueuedIds(t) && id != t[r].waitQueue[k].id {
        var s, i :| s in t && 0 <= i < |t[s].waitQueue| && t[s].waitQueue[i].id == id;
        StillQueued(t, t1, r, k, s, i);
      }
      if id in QueuedIds(t1) {
        var s, i :| s in t1 && 0 <= i < |t1[s].waitQueue| && t1[s].waitQueue[i].id == id;
        WasQueued(t, t1, r, k, s, i);
      }
    }
  }

  lemma StillQueued(t: Table, t1: Table, r: Resource, k: nat, s: Resource, i: nat)
    requires r in t && k < |t[r].waitQueue| && s in t && i < |t[s].waitQueue| && (s != r || i != k)
    requires t1.Keys == t.Keys && (s != r ==> t1[s] == t[s]) && t1[r].waitQueue == RemoveAt(t[r].waitQueue, k)
    ensures t[s].waitQueue[i].id in QueuedIds(t1)
  {
    assert t1[s].waitQueue[if s != r || i < k then i else i - 1] == t[s].waitQueue[i];
  }

  lemma WasQueued(t: Table, t1: Table, r: Resource, k: nat, s: Resource, i: nat)
    requires UniqueIds(t) && r in t && k < |t[r].waitQueue|
    requires t1.Keys == t.Keys && s in t && (s != r ==> t1[s] == t[s]) && t1[r].waitQueue == RemoveAt(t[r].waitQueue, k)
    requires i < |t1[s].waitQueue|
    ensures t1[s].waitQueue[i].id in QueuedIds(t) && t1[s].waitQueue[i].id != t[r].waitQueue[k].id
  {
    var j := if s != r || i < k then i else i + 1;
    assert t[s].waitQueue[j] == t1[s].waitQueue[i];
  }

  class LockManager {
    var lockTable: Table
    var outcomes: map<nat, Outcome>
    var nextRequest: nat
    var timeouts: nat

    ghost predicate Valid()
      reads this
    {
      TableOk(lockTable) && Tracked(lockTable, outcomes, nextRequest)
    }

    constructor ()
      ensures Valid() && lockTable == map[] && outcomes == map[] && nextRequest == timeouts == 0
    {
      lockTable, outcomes, nextRequest, timeouts := map[], map[], 0, 0;
    }

    /** Serves the queue from its head, up to the first request that conflicts. */
    method DrainQueue(r: Resource)
      requires r in lockTable && Tracked(lockTable, outcomes, nextRequest)
      modifies `lockTable, `outcomes
      ensures lockTable == old(lockTable)[r := Drain(old(lockTable[r]))]
      ensures Tracked(lockTable, outcomes, nextRequest)
      ensures outcomes.Keys == old(outcomes.Keys)
      ensures forall id :: id in outcomes ==> outcomes[id] == old(outcomes[id]) ||
                                              (old(outcomes[id]).Pending? && outcomes[id].Granted?)
      ensures forall i :: 0 <= i < ServedCount(old(lockTable[r])) ==> AnsweredAt(old(lockTable[r]), outcomes, i)
    {
      hide UniqueIds, QueuedIds, Drain, Fits, HoldersAfter, Upgrades, AnsweredAt;
      ghost var info0, k := lockTable[r], 0;
      IdsDiffer(lockTable, r);
      NoneServed(info0);
      while lockTable[r].waitQueue != []
        invariant r in lockTable && lockTable == old(lockTable)[r := lockTable[r]]
        invariant k <= |info0.waitQueue|
        invariant lockTable[r] == LockInfo(HoldersAfter(info0, k), info0.waitQueue[k..])
        invariant Drain(lockTable[r]) == Drain(info0)
        invariant Tracked(lockTable, outcomes, nextRequest)
        invariant outcomes.Keys == old(outcomes.Keys)
        invariant forall id :: id in outcomes ==> outcomes[id] == old(outcomes[id]) ||
                                                  (old(outcomes[id]).Pending? && outcomes[id].Granted?)
        invariant forall i :: 0 <= i < k ==> AnsweredAt(info0, outcomes, i)
        decreases |lockTable[r].waitQueue|
      {
        var info := lockTable[r];
        var next := info.waitQueue[0];
        var upgradable := next.txId in info.holders && info.holders[next.txId] == S && next.mode == X &&
            |info.holders| == 1;
        UpgradeFits(info.holders, next.txId, next.mode);
        var grantable := upgradable || Fits(info.holders, next.txId, next.mode);
        if !grantable {
          break;
        }
        QueuedHead(lockTable, r, info.holders[next.txId := next.mode]);
        HeadIsPending(lockTable, outcomes, nextRequest, r);
        DrainStep(info);
        HoldersNext(info0, k);
        AnsweredNext(info0, outcomes, k);
        lockTable := lockTable[r := LockInfo(info.holders[next.txId := next.mode], info.waitQueue[1..])];
        outcomes := outcomes[next.id := Granted(upgradable)];
        k := k + 1;
      }
      SettledDrain(lockTable[r]);
    }

    /** Requests a lock; the promise for it is `outcomes[request]`. */
    method Acquire(txId: TxId, r: Resource, mode: Mode) returns (request: nat)
      requires Valid()
      modifies this
      ensures Valid()
      ensures request == old(nextRequest) && nextRequest == old(nextRequest) + 1 && timeouts == old(timeouts)
      ensures var (info, outcome) := AcquireEntry(Entry(old(lockTable), r), Request(request, txId, mode));
              lockTable == old(lockTable)[r := info] && outcomes == old(outcomes)[request := outcome]
      ensures var info := Entry(old(lockTable), r);
              && (outcomes[request].Granted? <==> GrantedAtOnce(info, txId, mode))
              && (outcomes[request] == Granted(true) <==> Upgrades(info.holders, txId, mode))
              && (!GrantedAtOnce(info, txId, mode) ==>
                    && outcomes[request] == Pending && lockTable[r].holders == info.holders
                    && lockTable[r].waitQueue == info.waitQueue + [Request(request, txId, mode)])
              && (GrantedAtOnce(info, txId, mode) ==>
                    && lockTable[r].waitQueue == info.waitQueue
                    && lockTable[r].holders ==
                       if Covered(info, txId, mode) then info.holders else info.holders[txId := mode])
    {
      hide UniqueIds, QueuedIds, HoldersAgree, Settled, Fits, TableOk, GrantedAtOnce, Upgrades;
      AcquireAnswers(Entry(lockTable, r), Request(nextRequest, txId, mode));
      var info := if r in lockTable then lockTable[r] else EMPTY_INFO;
      PendingIsQueued(lockTable, outcomes, nextRequest);
      request := nextRequest;
      nextRequest := nextRequest + 1;
      AcquireKeepsTable(lockTable, r, Request(request, txId, mode));

      if txId in info.holders && (info.holders[txId] == mode || info.holders[txId] == X) {
        SameQueues(lockTable, r, info);
        lockTable := lockTable[r := info];
        outcomes := outcomes[request := Granted(false)];
      } else if txId in info.holders && info.holders[txId] == S && mode == X && |info.holders| == 1 {
        SameQueues(lockTable, r, info.(holders := info.holders[txId := X]));
        lockTable := lockTable[r := info.(holders := info.holders[txId := X])];
        outcomes := outcomes[request := Granted(true)];
      } else if CanGrant(info, txId, mode) {
        SameQueues(lockTable, r, info.(holders := info.holders[txId := mode]));
        lockTable := lockTable[r := info.(holders := info.holders[txId := mode])];
        outcomes := outcomes[request := Granted(false)];
      } else {
        QueuedLast(lockTable, r, info, Request(request, txId, mode));
        lockTable := lockTable[r := info.(waitQueue := info.waitQueue + [Request(request, txId, mode)])];
        outcomes := outcomes[request := Pending];
      }
    }

    /** Removes a queued request, rejects its promise and wakes those it was blocking. */
    method CancelRequest(r: Resource, request: nat)
      requires Tracked(lockTable, outcomes, nextRequest)
      modifies `lockTable, `outcomes
      ensures Tracked(lockTable, outcomes, nextRequest)
      ensures lockTable == if r in old(lockTable) then old(lockTable)[r := CancelEntry(old(lockTable[r]), request)]
                           else old(lockTable)
      ensures outcomes.Keys == old(outcomes.Keys)
      ensures forall id :: id in outcomes ==>
                if id == request && r in old(lockTable) &&
                    IndexOfId(old(lockTable[r]).waitQueue, id) < |old(lockTable[r]).waitQueue|
                then outcomes[id] == Cancelled
                else outcomes[id] == old(outcomes[id]) || (old(outcomes[id]).Pending? && outcomes[id].Granted?)
      ensures forall id :: id in outcomes ==> Moved(old(outcomes)[id], outcomes[id], id == request)
    {
      hide UniqueIds;
      if r !in lockTable {
        return;
      }
      var info := lockTable[r];
      var position := IndexOfId(info.waitQueue, request);
      if position == |info.waitQueue| {
        return;
      }
      UniqueWithout(lockTable, r, info.holders, position);
      QueuedWithout(lockTable, r, info.holders, position);
      assert request in QueuedIds(lockTable);
      lockTable := lockTable[r := info.(waitQueue := RemoveAt(info.waitQueue, position))];
      outcomes := outcomes[request := Cancelled];
      DrainQueue(r);
    }

    /** What the timer of a queued request does. */
    method TimeOut(r: Resource, request: nat)
      requires Valid()
      modifies this
      ensures Valid() && timeouts == old(timeouts) + 1 && nextRequest == old(nextRequest)
      ensures lockTable == if r in old(lockTable) then old(lockTable)[r := CancelEntry(old(lockTable[r]), request)]
                           else old(lockTable)
      ensures outcomes.Keys == old(outcomes.Keys)
      ensures forall id :: id in outcomes ==> Moved(old(outcomes)[id], outcomes[id], id == request)
      ensures r in lockTable ==> forall q :: q in lockTable[r].waitQueue ==> q.id != request
    {
      hide UniqueIds, QueuedIds, CancelEntry, HoldersAgree, Settled;
      if r in lockTable {
        IdsDiffer(lockTable, r);
        CancelKeepsRequests(lockTable[r], request);
      }
      CancelRequest(r, request);
      timeouts := timeouts + 1;
    }

    /** Gives one lock of a transaction back and serves those who waited for it. */
    method Release(txId: TxId, r: Resource)
      requires Valid()
      modifies `lockTable, `outcomes
      ensures Valid()
      ensures r !in old(lockTable) ==> lockTable == old(lockTable)
      ensures r in old(lockTable) ==> var info := old(lockTable[r]);
                lockTable == old(lockTable)[r := Drain(info.(holders := info.holders - {txId}))]
    {
      hide UniqueIds;
      if r in lockTable {
        var info := lockTable[r];
        SameQueues(lockTable, r, info.(holders := info.holders - {txId}));
        lockTable := lockTable[r := info.(holders := info.holders - {txId})];
        DrainSettles(lockTable[r]);
        DrainQueue(r);
      }
    }

    /** Cancels the requests of a transaction on one resource, then gives up its hold on it. */
    method ReleaseEntry(txId: TxId, r: Resource)
      requires r in lockTable && Settled(lockTable[r]) && Tracked(lockTable, outcomes, nextRequest)
      modifies `lockTable, `outcomes
      ensures lockTable == old(lockTable)[r := Drain(Without(old(lockTable[r]), txId))]
      ensures Tracked(lockTable, outcomes, nextRequest)
      ensures OnlyOwnMoved(old(lockTable[r]).waitQueue, old(outcomes), outcomes, txId)
      ensures OwnRejected(old(lockTable[r]), outcomes, txId)
    {
      hide UniqueIds, QueuedIds, Drain, Without, Settled, Remainder, IsOwn, OnlyOwnMoved, Tracked;
      CancelOwn(txId, r);
      RemainderEnds(old(lockTable[r]), lockTable[r], txId);
      ghost var last := outcomes;
      DropHold(txId, r);
      GrantedFurther(old(lockTable[r]).waitQueue, old(outcomes), last, outcomes, txId);
    }

    /** Cancels the requests of a transaction on one resource, one by one. */
    method CancelOwn(txId: TxId, r: Resource)
      requires r in lockTable && Settled(lockTable[r]) && Tracked(lockTable, outcomes, nextRequest)
      modifies `lockTable, `outcomes
      ensures r in lockTable && lockTable == old(lockTable)[r := lockTable[r]]
      ensures Remainder(old(lockTable[r]), lockTable[r], txId, [])
      ensures Tracked(lockTable, outcomes, nextRequest)
      ensures OnlyOwnMoved(old(lockTable[r]).waitQueue, old(outcomes), outcomes, txId)
      ensures OwnRejected(old(lockTable[r]), outcomes, txId)
    {
      hide UniqueIds, QueuedIds, Drain, Without, Settled, CancelEntry, Remainder, DistinctIds, UniqueInQueue, IsOwn,
          OnlyOwnMoved, Moved;
      ghost var info, start := lockTable[r], outcomes;
      var pending := RequestsOf(lockTable[r].waitQueue, txId);
      IdsDiffer(lockTable, r);
      NoneMoved(lockTable[r].waitQueue, outcomes, txId);
      OwnIsQueued(lockTable, outcomes, nextRequest, r);
      RemainderStarts(lockTable[r], txId);
      hide Tracked;
      var i := 0;
      while i < |pending|
        invariant 0 <= i <= |pending|
        invariant r in lockTable && lockTable == old(lockTable)[r := lockTable[r]]
        invariant Tracked(lockTable, outcomes, nextRequest)
        invariant Remainder(info, lockTable[r], txId, pending[i..])
        invariant i == 0 ==> lockTable[r] == info
        invariant outcomes.Keys == start.Keys && OnlyOwnMoved(info.waitQueue, start, outcomes, txId)
        invariant i > 0 ==> outcomes[pending[0].id] == Cancelled
      {
        assert pending[i..] == [pending[i]] + pending[i + 1..];
        OwnIs(info.waitQueue, pending[i]);
        ghost var before := outcomes;
        RemainderShrinks(info, lockTable[r], txId, pending[i], pending[i + 1..]);
        CancelRequest(r, pending[i].id);
        OwnMovedFurther(info.waitQueue, start, before, outcomes, txId, pending[i].id);
        i := i + 1;
      }
      assert pending[i..] == [];
    }

    /** Gives up a hold, if there is one, and serves those who waited for it. */
    method DropHold(txId: TxId, r: Resource)
      requires r in lockTable && Tracked(lockTable, outcomes, nextRequest)
      modifies `lockTable, `outcomes
      ensures lockTable == old(lockTable)[r := var info := old(lockTable[r]);
                                               if txId in info.holders
                                               then Drain(info.(holders := info.holders - {txId})) else info]
      ensures Tracked(lockTable, outcomes, nextRequest) && outcomes.Keys == old(outcomes.Keys)
      ensures forall id :: id in outcomes ==> Moved(old(outcomes)[id], outcomes[id], false)
    {
      hide UniqueIds, QueuedIds, Drain;
      if txId in lockTable[r].holders {
        var info := lockTable[r];
        SameQueues(lockTable, r, info.(holders := info.holders - {txId}));
        lockTable := lockTable[r := info.(holders := info.holders - {txId})];
        DrainQueue(r);
      }
    }

    /** The shrinking phase of two-phase locking: drops every hold and every request of a transaction. */
    method ReleaseAll(txId: TxId)
      requires Valid()
      modifies `lockTable, `outcomes
      ensures Valid()
      ensures lockTable == Released(old(lockTable), txId)
      ensures forall r :: r in lockTable ==> IsGone(lockTable[r], txId)
      ensures OnlyOwnRejected(old(lockTable), old(outcomes), outcomes, txId)
      ensures forall r :: r in old(lockTable) ==> OwnRejected(old(lockTable[r]), outcomes, txId)
    {
      hide UniqueIds, QueuedIds, Drain, Without, OwnRejected, OnlyOwnRejected, IsGone, HoldersAgree, Settled;
      NoneRejected(lockTable, outcomes, txId);
      var resources := lockTable.Keys;
      while resources != {}
        invariant resources <= old(lockTable).Keys == lockTable.Keys
        invariant Tracked(lockTable, outcomes, nextRequest)
        invariant forall r :: r in lockTable ==>
                    lockTable[r] == if r in resources then old(lockTable[r])
                    else Drain(Without(old(lockTable[r]), txId))
        invariant OnlyOwnRejected(old(lockTable), old(outcomes), outcomes, txId)
        invariant forall r :: r in old(lockTable) && r !in resources ==> OwnRejected(old(lockTable[r]), outcomes, txId)
        decreases resources
      {
        var r := Next(resources);
        ghost var before := outcomes;
        resources := resources - {r};
        ReleaseEntry(txId, r);
        RejectedFurther(old(lockTable), old(outcomes), before, outcomes, txId, r);
      }
      PruneEmpty();
      ReleasedTable(old(lockTable), txId);
      assert lockTable == Released(old(lockTable), txId);
    }

    /** Drops entries with neither holders nor waiters. */
    method PruneEmpty()
      requires Tracked(lockTable, outcomes, nextRequest)
      modifies `lockTable
      ensures Tracked(lockTable, outcomes, nextRequest)
      ensures lockTable == map r | r in old(lockTable) && !IsFree(old(lockTable[r])) :: old(lockTable[r])
    {
      var resources := lockTable.Keys;
      while resources != {}
        invariant resources <= old(lockTable).Keys
        invariant lockTable == map r | r in old(lockTable) && (r in resources || !IsFree(old(lockTable[r]))) ::
                  old(lockTable[r])
        invariant Tracked(lockTable, outcomes, nextRequest)
        decreases resources
      {
        var r := Next(resources);
        resources := resources - {r};
        if lockTable[r].holders == map[] && lockTable[r].waitQueue == [] {
          EmptyQueueGone(lockTable, r);
          lockTable := lockTable - {r};
        }
      }
    }

    method GetWaitForEdges() returns (edges: seq<Edge>)
      ensures forall e :: e in edges <==> IsEdge(lockTable, e)
    {
      edges := [];
      var resources := lockTable.Keys;
      while resources != {}
        invariant resources <= lockTable.Keys
        invariant forall e :: e in edges <==> IsEdge(lockTable, e) && e.resource !in resources
        decreases resources
      {
        var r := Next(resources);
        ghost var before := edges;
        resources := resources - {r};
        var queue, holders := lockTable[r].waitQueue, lockTable[r].holders;
        for i := 0 to |queue|
          invariant forall e :: e in edges <==> e in before || IsQueueEdge(queue[..i], holders, r, e)
        {
          ghost var sofar := edges;
          var pending := holders.Keys;
          while pending != {}
            invariant pending <= holders.Keys
            invariant forall e :: e in edges <==>
                        e in sofar || (IsRequestEdge(queue[i], holders, r, e) && e.holder !in pending)
            decreases pending
          {
            var holder := Next(pending);
            pending := pending - {holder};
            if holder != queue[i].txId && !IsCompatible(queue[i].mode, holders[holder]) {
              edges := edges + [Edge(queue[i].txId, holder, r, queue[i].mode)];
            }
          }
          assert queue[..i + 1] == queue[..i] + [queue[i]];
        }
        assert queue[..|queue|] == queue;
      }
    }
  }

  datatype Edge = Edge(waiter: TxId, holder: TxId, resource: Resource, mode: Mode)

  predicate IsRequestEdge(q: Request, holders: map<TxId, Mode>, r: Resource, e: Edge) {
    && e.waiter == q.txId && e.mode == q.mode && e.resource == r
    && e.holder in holders && e.holder != q.txId && !IsCompatible(q.mode, holders[e.holder])
  }

  predicate IsQueueEdge(queue: seq<Request>, holders: map<TxId, Mode>, r: Resource, e: Edge) {
    exists i :: 0 <= i < |queue| && IsRequestEdge(queue[i], holders, r, e)
  }

  /** A queued transaction, and a holder in a conflicting mode of what it is queued for. */
  predicate IsEdge(t: Table, e: Edge) {
    e.resource in t && IsQueueEdge(t[e.resource].waitQueue, t[e.resource].holders, e.resource, e)
  }

  lemma OwnIs(queue: seq<Request>, q: Request)
    requires q in queue
    ensures IsOwn(queue, q.txId, q.id) && IndexOfId(queue, q.id) < |queue|
  {
  }

  /** Queued requests have promises. */
  lemma OwnIsQueued(t: Table, outcomes: map<nat, Outcome>, nextRequest: nat, r: Resource)
    requires Tracked(t, outcomes, nextRequest) && r in t
    ensures forall q :: q in t[r].waitQueue ==> q.id in outcomes
  {
    hide UniqueIds;
    forall q | q in t[r].waitQueue
      ensures q.id in QueuedIds(t)
    {
    }
  }

  function RequestsOf(queue: seq<Request>, txId: TxId): (r: seq<Request>)
    ensures forall q :: q in r <==> q in queue && q.txId == txId
  {
    if queue == [] then []
    else if queue[0].txId == txId then [queue[0]] + RequestsOf(queue[1..], txId)
    else RequestsOf(queue[1..], txId)
  }

  predicate CanGrant(info: LockInfo, txId: TxId, mode: Mode) {
    && (forall q :: q in info.waitQueue ==> q.txId == txId)
    && Fits(info.holders, txId, mode)
  }

  lemma AcquireKeepsEntry(info: LockInfo, request: Request)
    requires HoldersAgree(info.holders) && Settled(info)
    ensures HoldersAgree(AcquireEntry(info, request).0.holders) && Settled(AcquireEntry(info, request).0)
  {
    if request.txId in info.holders && |info.holders| == 1 {
      SoleHolderFits(info.holders, request.txId, request.mode);
      if info.waitQueue != [] {
        SoleHolderFits(info.holders, request.txId, info.waitQueue[0].mode);
        assert request.txId in info.holders[request.txId := X];
      }
    } else if CanGrant(info, request.txId, request.mode) {
      if info.waitQueue != [] {
        assert info.waitQueue[0].txId == request.txId;
        FitsIgnoresOwn(info.holders, request.txId, request.mode, info.waitQueue[0].mode);
      }
    } else {
      assert (info.waitQueue + [request])[0] == if info.waitQueue == [] then request else info.waitQueue[0];
    }
  }

  lemma AcquireKeepsTable(t: Table, r: Resource, request: Request)
    requires TableOk(t)
    ensures TableOk(t[r := AcquireEntry(Entry(t, r), request).0])
  {
    hide AcquireEntry;
    AcquireKeepsEntry(Entry(t, r), request);
  }

  lemma FitsIgnoresOwn(holders: map<TxId, Mode>, txId: TxId, held: Mode, mode: Mode)
    ensures Fits(holders[txId := held], txId, mode) == Fits(holders, txId, mode)
  {
    if Fits(holders[txId := held], txId, mode) {
      forall h | h in holders && h != txId
        ensures IsCompatible(mode, holders[h])
      {
        assert h in holders[txId := held];
      }
    }
  }

  lemma SameQueues(t: Table, r: Resource, info: LockInfo)
    requires info.waitQueue == Entry(t, r).waitQueue
    ensures QueuedIds(t[r := info]) == QueuedIds(t)
    ensures UniqueIds(t) ==> UniqueIds(t[r := info])
  {
    var t1 := t[r := info];
    forall id | id in QueuedIds(t)
      ensures id in QueuedIds(t1)
    {
      var s, i :| s in t && 0 <= i < |t[s].waitQueue| && t[s].waitQueue[i].id == id;
      assert t1[s].waitQueue[i].id == id;
    }
  }

  lemma QueuedLast(t: Table, r: Resource, info: LockInfo, request: Request)
    requires info == Entry(t, r)
    requires UniqueIds(t) && request.id !in QueuedIds(t)
    ensures UniqueIds(t[r := info.(waitQueue := info.waitQueue + [request])])
    ensures QueuedIds(t[r := info.(waitQueue := info.waitQueue + [request])]) == QueuedIds(t) + {request.id}
  {
    var q1 := info.waitQueue + [request];
    var t1 := t[r := info.(waitQueue := q1)];
    assert q1[|q1| - 1] == request;
    forall id | id in QueuedIds(t)
      ensures id in QueuedIds(t1)
    {
      var s, i :| s in t && 0 <= i < |t[s].waitQueue| && t[s].waitQueue[i].id == id;
      assert t1[s].waitQueue[i].id == id;
    }
    assert t1[r].waitQueue[|q1| - 1].id == request.id;
  }

  lemma PendingIsQueued(t: Table, outcomes: map<nat, Outcome>, nextRequest: nat)
    requires Tracked(t, outcomes, nextRequest)
    ensures nextRequest !in outcomes && nextRequest !in QueuedIds(t)
  {
  }

  lemma EmptyQueueGone(t: Table, r: Resource)
    requires r in t && t[r].waitQueue == []
    ensures QueuedIds(t - {r}) == QueuedIds(t)
    ensures UniqueIds(t) ==> UniqueIds(t - {r})
  {
    forall id | id in QueuedIds(t)
      ensures id in QueuedIds(t - {r})
    {
      var s, i :| s in t && 0 <= i < |t[s].waitQueue| && t[s].waitQueue[i].id == id;
      assert (t - {r})[s].waitQueue[i].id == id;
    }
  }

  ghost predicate DistinctIds(queue: seq<Request>) {
    forall p, q :: p in queue && q in queue && p.id == q.id ==> p == q
  }

  lemma IdsDiffer(t: Table, r: Resource)
    requires UniqueIds(t) && r in t
    ensures DistinctIds(t[r].waitQueue)
    ensures UniqueInQueue(t[r].waitQueue)
  {
  }

  /** `info` is what is left of `info0` once requests of `txId` other than `todo` have been withdrawn. */
  ghost predicate Remainder(info0: LockInfo, info: LockInfo, txId: TxId, todo: seq<Request>) {
    && Settled(info)
    && DistinctIds(info0.waitQueue)
    && Drain(Without(info, txId)) == Drain(Without(info0, txId))
    && (forall q :: q in info.waitQueue ==> q in info0.waitQueue)
    && (forall q :: q in info.waitQueue && q.txId == txId ==> q in todo)
    && UniqueInQueue(info.waitQueue)
  }

  lemma RemainderStarts(info: LockInfo, txId: TxId)
    requires Settled(info) && DistinctIds(info.waitQueue)
    requires UniqueInQueue(info.waitQueue)
    ensures Remainder(info, info, txId, RequestsOf(info.waitQueue, txId)[0..])
  {
    assert RequestsOf(info.waitQueue, txId)[0..] == RequestsOf(info.waitQueue, txId);
  }

  lemma RemainderShrinks(info0: LockInfo, info: LockInfo, txId: TxId, q: Request, rest: seq<Request>)
    requires Remainder(info0, info, txId, [q] + rest) && q in info0.waitQueue && q.txId == txId
    ensures Remainder(info0, CancelEntry(info, q.id), txId, rest)
  {
    hide Drain, Without, Settled;
    CancelThenRelease(info, q.id, txId);
    CancelKeepsRequests(info, q.id);
  }

  lemma RemainderEnds(info0: LockInfo, info: LockInfo, txId: TxId)
    requires Remainder(info0, info, txId, [])
    ensures if txId in info.holders then Drain(info.(holders := info.holders - {txId})) == Drain(Without(info0, txId))
            else info == Drain(Without(info0, txId))
  {
    DropAbsent(info.waitQueue, txId);
    if txId !in info.holders {
      SettledDrain(info);
      assert info.holders - {txId} == info.holders;
    }
  }

  lemma SoleHolderFits(holders: map<TxId, Mode>, txId: TxId, mode: Mode)
    requires txId in holders && |holders| == 1
    ensures Fits(holders, txId, mode)
  {
    forall h | h in holders
      ensures h == txId
    {
      assert |holders.Keys - {txId}| == 0;
      assert h in holders.Keys - {txId} || h == txId;
    }
  }
}
