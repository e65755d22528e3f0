/** Lock table entries as values: compatibility, FIFO draining and what every operation keeps. */
module LockTable {
  import opened Ids
  import opened Collections

  datatype Mode = S | X

  datatype Resource = Resource(docId: int, pageId: int)

  /** A queued request; `id` stands for the identity of the request object. */
  datatype Request = Request(id: nat, txId: TxId, mode: Mode)

  datatype LockInfo = LockInfo(holders: map<TxId, Mode>, waitQueue: seq<Request>)

  type Table = map<Resource, LockInfo>

  const EMPTY_INFO := LockInfo(map[], [])

  predicate IsCompatible(requested: Mode, held: Mode) {
    requested == S && held == S
  }

  /** No other transaction holds the resource in a conflicting mode. */
  predicate Fits(holders: map<TxId, Mode>, txId: TxId, mode: Mode) {
    forall h :: h in holders && h != txId ==> IsCompatible(mode, holders[h])
  }

  /** A transaction holds a lock that already covers a mode. */
  predicate Covered(info: LockInfo, txId: TxId, mode: Mode) {
    txId in info.holders && (info.holders[txId] == mode || info.holders[txId] == X)
  }

  function Entry(t: Table, r: Resource): LockInfo {
    if r in t then t[r] else EMPTY_INFO
  }

  /** Grants requests from the front of the queue while they fit. */
  function Drain(info: LockInfo): LockInfo
    decreases |info.waitQueue|
  {
    if info.waitQueue == [] then info
    else
      var next := info.waitQueue[0];
      if !Fits(info.holders, next.txId, next.mode) then info
      else Drain(LockInfo(info.holders[next.txId := next.mode], info.waitQueue[1..]))
  }

  function DropRequests(queue: seq<Request>, txId: TxId): seq<Request> {
    if queue == [] then []
    else if queue[0].txId == txId then DropRequests(queue[1..], txId)
    else [queue[0]] + DropRequests(queue[1..], txId)
  }

  /** The entry with every trace of a transaction deleted. */
  function Without(info: LockInfo, txId: TxId): LockInfo {
    LockInfo(info.holders - {txId}, DropRequests(info.waitQueue, txId))
  }

  /** Position of the request with this identity, or the length of the queue. */
  function IndexOfId(queue: seq<Request>, id: nat): (k: nat)
    ensures k <= |queue|
    ensures k < |queue| ==> queue[k].id == id
    ensures forall i :: 0 <= i < k ==> queue[i].id != id
  {
    if queue == [] || queue[0].id == id then 0 else 1 + IndexOfId(queue[1..], id)
  }

  /** The entry once a queued request has been withdrawn. */
  function CancelEntry(info: LockInfo, id: nat): LockInfo {
    var k := IndexOfId(info.waitQueue, id);
    if k == |info.waitQueue| then info
    else Drain(info.(waitQueue := RemoveAt(info.waitQueue, k)))
  }

  predicate IsFree(info: LockInfo) {
    info == EMPTY_INFO
  }

  /** Every trace of `txId` deleted, the queues drained, and empty entries pruned. */
  function Released(t: Table, txId: TxId): Table {
    map r | r in t && !IsFree(Drain(Without(t[r], txId))) :: Drain(Without(t[r], txId))
  }

  // ---------------------------------------------------------------------
  // Invariants of one entry
  // ---------------------------------------------------------------------

  /** The holders are one exclusive transaction, or all shared. */
  predicate HoldersAgree(holders: map<TxId, Mode>) {
    forall a, b :: a in holders && b in holders && a != b ==> IsCompatible(holders[a], holders[b])
  }

  /** No wakeup was lost: the head of a queue conflicts with a current holder. */
  predicate Settled(info: LockInfo) {
    info.waitQueue != [] ==> !Fits(info.holders, info.waitQueue[0].txId, info.waitQueue[0].mode)
  }

  predicate TableOk(t: Table) {
    forall r :: r in t ==> HoldersAgree(t[r].holders) && Settled(t[r])
  }

  lemma {:induction false} DrainSettles(info: LockInfo)
    ensures Settled(Drain(info))
    ensures HoldersAgree(info.holders) ==> HoldersAgree(Drain(info).holders)
    decreases |info.waitQueue|
  {
    if info.waitQueue != [] && Fits(info.holders, info.waitQueue[0].txId, info.waitQueue[0].mode) {
      var next := info.waitQueue[0];
      DrainSettles(LockInfo(info.holders[next.txId := next.mode], info.waitQueue[1..]));
    }
  }

  lemma DrainStep(info: LockInfo)
    requires info.waitQueue != [] && Fits(info.holders, info.waitQueue[0].txId, info.waitQueue[0].mode)
    ensures Drain(info) ==
            Drain(LockInfo(info.holders[info.waitQueue[0].txId := info.waitQueue[0].mode], info.waitQueue[1..]))
  {
  }

  lemma SettledDrain(info: LockInfo)
    requires Settled(info)
    ensures Drain(info) == info
  {
  }

  lemma WithoutAgrees(info: LockInfo, txId: TxId)
    requires HoldersAgree(info.holders)
    ensures HoldersAgree(Without(info, txId).holders)
  {
  }

  /** Draining serves a prefix of the queue, in arrival order, and nobody else. */
  lemma {:induction false} DrainServesPrefix(info: LockInfo) returns (k: nat)
    ensures k <= |info.waitQueue|
    ensures Drain(info).waitQueue == info.waitQueue[k..]
    ensures Drain(info).holders.Keys == info.holders.Keys + set i | 0 <= i < k :: info.waitQueue[i].txId
    ensures forall h :: h in info.holders && (forall i :: 0 <= i < k ==> info.waitQueue[i].txId != h) ==>
              Drain(info).holders[h] == info.holders[h]
    decreases |info.waitQueue|
  {
    k := 0;
    if info.waitQueue != [] && Fits(info.holders, info.waitQueue[0].txId, info.waitQueue[0].mode) {
      var q := info.waitQueue;
      var j := DrainServesPrefix(LockInfo(info.holders[q[0].txId := q[0].mode], q[1..]));
      k := j + 1;
      assert forall i :: 0 <= i < j ==> q[1..][i] == q[i + 1];
      assert forall i :: 0 < i < k ==> q[i] == q[1..][i - 1];
      assert (set i | 0 <= i < k :: q[i].txId) == {q[0].txId} + set i | 0 <= i < j :: q[1..][i].txId;
    }
  }

  /** The holders once the first `i` requests of the queue have been served. */
  function HoldersAfter(info: LockInfo, i: nat): map<TxId, Mode>
    requires i <= |info.waitQueue|
  {
    if i == 0 then info.holders
    else HoldersAfter(info, i - 1)[info.waitQueue[i - 1].txId := info.waitQueue[i - 1].mode]
  }

  lemma NoneServed(info: LockInfo)
    ensures HoldersAfter(info, 0) == info.holders
  {
  }

  lemma HoldersNext(info: LockInfo, i: nat)
    requires i < |info.waitQueue|
    ensures HoldersAfter(info, i + 1) == HoldersAfter(info, i)[info.waitQueue[i].txId := info.waitQueue[i].mode]
  {
  }

  /** How many requests draining serves. */
  function ServedCount(info: LockInfo): (k: nat)
    ensures k <= |info.waitQueue|
  {
    var n := |Drain(info).waitQueue|;
    if n <= |info.waitQueue| then |info.waitQueue| - n else 0
  }

  lemma {:induction false} HoldersAfterFirst(info: LockInfo, i: nat)
    requires 0 < i <= |info.waitQueue|
    ensures var q := info.waitQueue;
            HoldersAfter(info, i) == HoldersAfter(LockInfo(info.holders[q[0].txId := q[0].mode], q[1..]), i - 1)
  {
    if i > 1 {
      HoldersAfterFirst(info, i - 1);
    }
  }

  /**
    * Draining serves the queue in order of arrival, each request in its own mode, as long as the next one fits the
    * holders at that point; it stops at the first one that does not.
    */
  lemma {:induction false} DrainServesWhileFitting(info: LockInfo)
    ensures var q, k := info.waitQueue, ServedCount(info);
            && Drain(info) == LockInfo(HoldersAfter(info, k), q[k..])
            && (forall i :: 0 <= i < k ==> Fits(HoldersAfter(info, i), q[i].txId, q[i].mode))
            && (k < |q| ==> !Fits(HoldersAfter(info, k), q[k].txId, q[k].mode))
    decreases |info.waitQueue|
  {
    hide Fits;
    var q := info.waitQueue;
    if q != [] && Fits(info.holders, q[0].txId, q[0].mode) {
      var info1 := LockInfo(info.holders[q[0].txId := q[0].mode], q[1..]);
      DrainServesWhileFitting(info1);
      var k := ServedCount(info1);
      assert Drain(info) == Drain(info1) && ServedCount(info) == k + 1;
      assert q[1..][k..] == q[k + 1..];
      forall i | 0 < i <= k + 1
        ensures HoldersAfter(info, i) == HoldersAfter(info1, i - 1)
      {
        HoldersAfterFirst(info, i);
      }
      forall i | 0 <= i < k + 1
        ensures Fits(HoldersAfter(info, i), q[i].txId, q[i].mode)
      {
        if i > 0 {
          assert info1.waitQueue[i - 1] == q[i];
        }
      }
      if k + 1 < |q| {
        assert info1.waitQueue[k] == q[k + 1];
      }
    } else {
      assert q[0..] == q;
    }
  }

  /** Draining first makes no difference to what is left once a transaction is gone. */
  lemma {:induction false} DrainThenRelease(info: LockInfo, txId: TxId)
    ensures Drain(Without(Drain(info), txId)) == Drain(Without(info, txId))
    decreases |info.waitQueue|
  {
    if info.waitQueue != [] && Fits(info.holders, info.waitQueue[0].txId, info.waitQueue[0].mode) {
      var next := info.waitQueue[0];
      var info1 := LockInfo(info.holders[next.txId := next.mode], info.waitQueue[1..]);
      DrainThenRelease(info1, txId);
      if next.txId == txId {
        assert info1.holders - {txId} == info.holders - {txId};
      } else {
        var w := Without(info, txId);
        assert w.waitQueue[1..] == DropRequests(info.waitQueue[1..], txId);
        assert (info.holders - {txId})[next.txId := next.mode] == info1.holders - {txId};
      }
    }
  }

  lemma {:induction false} DropAbsent(queue: seq<Request>, txId: TxId)
    requires forall i :: 0 <= i < |queue| ==> queue[i].txId != txId
    ensures DropRequests(queue, txId) == queue
  {
    if queue != [] {
      DropAbsent(queue[1..], txId);
    }
  }

  lemma {:induction false} DropDrops(queue: seq<Request>, txId: TxId)
    ensures forall q :: q in DropRequests(queue, txId) <==> q in queue && q.txId != txId
  {
    if queue != [] {
      DropDrops(queue[1..], txId);
    }
  }

  /** The transaction neither holds nor awaits the resource. */
  predicate IsGone(info: LockInfo, txId: TxId) {
    txId !in info.holders && forall q :: q in info.waitQueue ==> q.txId != txId
  }

  lemma ReleasedIsGone(info: LockInfo, txId: TxId)
    ensures IsGone(Drain(Without(info, txId)), txId)
  {
    var w := Without(info, txId);
    DropDrops(info.waitQueue, txId);
    var k := DrainServesPrefix(w);
  }

  lemma {:induction false} DropAfterRemove(queue: seq<Request>, k: nat)
    requires k < |queue|
    ensures DropRequests(RemoveAt(queue, k), queue[k].txId) == DropRequests(queue, queue[k].txId)
  {
    if k == 0 {
      assert RemoveAt(queue, 0) == queue[1..];
    } else {
      DropAfterRemove(queue[1..], k - 1);
      assert RemoveAt(queue, k) == [queue[0]] + RemoveAt(queue[1..], k - 1);
    }
  }

  /** Withdrawing one of its requests first makes no difference to releasing a transaction. */
  lemma CancelThenRelease(info: LockInfo, id: nat, txId: TxId)
    requires forall q :: q in info.waitQueue && q.id == id ==> q.txId == txId
    ensures Drain(Without(CancelEntry(info, id), txId)) == Drain(Without(info, txId))
  {
    var k := IndexOfId(info.waitQueue, id);
    if k < |info.waitQueue| {
      assert info.waitQueue[k] in info.waitQueue;
      var info1 := info.(waitQueue := RemoveAt(info.waitQueue, k));
      DropAfterRemove(info.waitQueue, k);
      DrainThenRelease(info1, txId);
    }
  }

  ghost predicate UniqueInQueue(queue: seq<Request>) {
    forall i, j :: 0 <= i < j < |queue| ==> queue[i].id != queue[j].id
  }

  lemma RemoveKeeps(queue: seq<Request>, k: nat)
    requires k < |queue|
    ensures forall q :: q in RemoveAt(queue, k) ==> q in queue
    ensures UniqueInQueue(queue) ==> UniqueInQueue(RemoveAt(queue, k))
    ensures UniqueInQueue(queue) ==> forall q :: q in RemoveAt(queue, k) ==> q.id != queue[k].id
  {
    forall i | 0 <= i < |queue| - 1
      ensures RemoveAt(queue, k)[i] == queue[if i < k then i else i + 1]
    {
    }
  }

  lemma DrainKeepsQueue(info: LockInfo)
    ensures forall q :: q in Drain(info).waitQueue ==> q in info.waitQueue
    ensures UniqueInQueue(info.waitQueue) ==> UniqueInQueue(Drain(info).waitQueue)
  {
    var n := DrainServesPrefix(info);
  }

  lemma CancelKeepsRequests(info: LockInfo, id: nat)
    ensures forall q :: q in CancelEntry(info, id).waitQueue ==> q in info.waitQueue
    ensures UniqueInQueue(info.waitQueue) ==>
              UniqueInQueue(CancelEntry(info, id).waitQueue) && forall q :: q in CancelEntry(info, id).waitQueue ==>
              q.id != id
    ensures Settled(info) ==> Settled(CancelEntry(info, id))
    ensures HoldersAgree(info.holders) ==> HoldersAgree(CancelEntry(info, id).holders)
  {
    hide Drain, HoldersAgree, Settled, UniqueInQueue;
    var k := IndexOfId(info.waitQueue, id);
    if k < |info.waitQueue| {
      var info1 := info.(waitQueue := RemoveAt(info.waitQueue, k));
      RemoveKeeps(info.waitQueue, k);
      DrainKeepsQueue(info1);
      DrainSettles(info1);
    }
  }
}
