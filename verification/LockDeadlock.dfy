/** What a deadlock is, and exactly when every deadlock contains a cycle of the wait-for graph. */
module LockDeadlock {
  import opened Collections
  import opened Graphs
  import opened Ids
  import opened LockTable
  import opened WaitFor
  import opened LockRuns

  // ---------------------------------------------------------------------
  // Queued for good
  // ---------------------------------------------------------------------

  /** No run of steps by others ever takes a request of a member out of its queue. */
  ghost predicate StaysQueued(t: Table, c: set<TxId>) {
    forall steps, r, q :: AllowedRun(t, steps) && ByOthers(steps, c) && InQueue(t, r, q) && q.txId in c ==>
      InQueue(Run(t, steps), r, q)
  }

  /** The transactions queued ahead of the first member of `c`. */
  function AheadOf(queue: seq<Request>, c: set<TxId>): set<TxId> {
    if queue == [] || queue[0].txId in c then {} else {queue[0].txId} + AheadOf(queue[1..], c)
  }

  /** Whoever outside `c` holds a resource, or is queued for it ahead of the first member. */
  function InTheWay(info: LockInfo, c: set<TxId>): set<TxId> {
    (info.holders.Keys - c) + AheadOf(info.waitQueue, c)
  }

  lemma {:induction false} AheadAfterDrop(queue: seq<Request>, h: TxId, c: set<TxId>)
    requires h !in c
    ensures AheadOf(DropRequests(queue, h), c) == AheadOf(queue, c) - {h}
    ensures c !! AheadOf(queue, c)
  {
    if queue != [] {
      AheadAfterDrop(queue[1..], h, c);
    }
  }

  /** Draining short of the first member serves only those in the way. */
  lemma {:induction false} DrainUpToFront(info: LockInfo, c: set<TxId>, q: Request)
    requires FrontOf(info.waitQueue, c) == Some(q) && q in Drain(info).waitQueue && DistinctTx(info.waitQueue)
    ensures FrontOf(Drain(info).waitQueue, c) == Some(q) && SameHolders(info.holders, Drain(info).holders, c)
    ensures InTheWay(Drain(info), c) <= InTheWay(info, c)
    decreases |info.waitQueue|
  {
    if info.waitQueue != [] && Fits(info.holders, info.waitQueue[0].txId, info.waitQueue[0].mode) {
      var next := info.waitQueue[0];
      var info1 := LockInfo(info.holders[next.txId := next.mode], info.waitQueue[1..]);
      DrainQueueShrinks(info1);
      assert info.waitQueue == [next] + info1.waitQueue;
      assert q in info1.waitQueue && q.txId != next.txId;
      assert next.txId !in c;
      DrainUpToFront(info1, c, q);
    }
  }

  /** If nobody is in the way and no member holds against it, the first member fits. */
  lemma NobodyInTheWay(info: LockInfo, c: set<TxId>, q: Request)
    requires InTheWay(info, c) == {} && FrontOf(info.waitQueue, c) == Some(q) && !BlockedBy(info.holders, c, q)
    ensures !Settled(info)
  {
    assert info.waitQueue[0] == q;
    forall h | h in info.holders && h != q.txId
      ensures IsCompatible(q.mode, info.holders[h])
    {
      assert h !in info.holders.Keys - c;
      assert !Blocks(info.holders, q, h);
    }
  }

  lemma OneLessInTheWay(t: Table, r: Resource, c: set<TxId>, q: Request, h: TxId)
    requires SingleWait(t) && r in t && FrontOf(t[r].waitQueue, c) == Some(q) && h in InTheWay(t[r], c)
    requires InQueue(Released(t, h), r, q) && !BlockedBy(t[r].holders, c, q)
    ensures h !in c
    ensures var info1 := Released(t, h)[r];
            && FrontOf(info1.waitQueue, c) == Some(q) && !BlockedBy(info1.holders, c, q)
            && InTheWay(info1, c) <= InTheWay(t[r], c) - {h}
  {
    var w := Without(t[r], h);
    NotAMember(t[r], c, h);
    AheadAfterDrop(t[r].waitQueue, h, c);
    ReleasedEntry(t, h, r);
    FrontAfterDrop(t[r].waitQueue, h, c);
    DrainUpToFront(w, c, q);
    hide Drain, FrontOf, DropRequests, AheadOf;
    assert InTheWay(w, c) == InTheWay(t[r], c) - {h};
    var holders := Released(t, h)[r].holders;
    forall b | b in c
      ensures !Blocks(holders, q, b)
    {
      assert !Blocks(t[r].holders, q, b);
    }
  }

  /** If the first member is not blocked by a member, finishing all who are in the way takes it out of the queue. */
  lemma {:induction false} ServeFront(t: Table, r: Resource, c: set<TxId>, q: Request) returns (steps: seq<Step>)
    requires TableOk(t) && SingleWait(t)
    requires r in t && FrontOf(t[r].waitQueue, c) == Some(q) && !BlockedBy(t[r].holders, c, q)
    ensures AllowedRun(t, steps) && ByOthers(steps, c) && !InQueue(Run(t, steps), r, q)
    decreases |InTheWay(t[r], c)|
  {
    hide SingleWait, Released, FrontOf, BlockedBy, InTheWay, HoldersAgree, Settled;
    if InTheWay(t[r], c) == {} {
      NobodyInTheWay(t[r], c, q);
      assert false;
    }
    var h := Pick(InTheWay(t[r], c));
    var t1 := Released(t, h);
    NotAMember(t[r], c, h);
    if !InQueue(t1, r, q) {
      steps := [Finish(h)];
      RunOne(t, Finish(h));
    } else {
      OneLessInTheWay(t, r, c, q, h);
      ReleasedKeeps(t, h);
      CardinalityMonotone(InTheWay(t1[r], c), InTheWay(t[r], c) - {h});
      hide TableOk;
      var rest := ServeFront(t1, r, c, q);
      steps := [Finish(h)] + rest;
      RunMore(t, Finish(h), rest);
    }
  }

  lemma NotAMember(info: LockInfo, c: set<TxId>, h: TxId)
    requires h in InTheWay(info, c)
    ensures h !in c
  {
    if h in AheadOf(info.waitQueue, c) {
      AheadIsOutside(info.waitQueue, c);
    }
  }

  lemma {:induction false} AheadIsOutside(queue: seq<Request>, c: set<TxId>)
    ensures c !! AheadOf(queue, c)
  {
    if queue != [] {
      AheadIsOutside(queue[1..], c);
    }
  }

  lemma RunOne(t: Table, step: Step)
    requires Allowed(t, step)
    ensures AllowedRun(t, [step]) && Run(t, [step]) == Apply(t, step)
  {
    var none: seq<Step> := [];
    assert [step][1..] == none;
    assert Run(Apply(t, step), none) == Apply(t, step);
  }

  lemma RunMore(t: Table, step: Step, rest: seq<Step>)
    requires Allowed(t, step) && AllowedRun(Apply(t, step), rest)
    ensures AllowedRun(t, [step] + rest) && Run(t, [step] + rest) == Run(Apply(t, step), rest)
  {
    assert ([step] + rest)[1..] == rest;
  }

  lemma {:induction false} RunConcat(t: Table, first: seq<Step>, second: seq<Step>)
    requires AllowedRun(t, first) && AllowedRun(Run(t, first), second)
    ensures AllowedRun(t, first + second) && Run(t, first + second) == Run(Run(t, first), second)
    decreases |first|
  {
    if first == [] {
      assert first + second == second;
    } else {
      RunConcat(Apply(t, first[0]), first[1..], second);
      assert (first + second)[1..] == first[1..] + second;
    }
  }

  /** Members stay queued for good if and only if, in every queue, a member blocks the first member. */
  lemma FrontBlockedStaysQueued(t: Table, c: set<TxId>)
    requires TableOk(t) && SingleWait(t)
    ensures StaysQueued(t, c) <==> FrontBlocked(t, c)
  {
    hide TableOk, SingleWait, Run, AllowedRun, FrontOf;
    if FrontBlocked(t, c) {
      forall steps, r, q | AllowedRun(t, steps) && ByOthers(steps, c) && InQueue(t, r, q) && q.txId in c
        ensures InQueue(Run(t, steps), r, q)
      {
        FrontStaysForever(t, steps, c, r);
      }
    }
    if StaysQueued(t, c) {
      forall r | r in t
        ensures FrontBlockedIn(t[r], c)
      {
        var f := FrontOf(t[r].waitQueue, c);
        if f.Some? {
          assert InQueue(t, r, f.value);
          if !BlockedBy(t[r].holders, c, f.value) {
            var steps := ServeFront(t, r, c, f.value);
          }
        }
      }
    }
  }

  // ---------------------------------------------------------------------
  // Deadlocks, and cycles through holders and queues
  // ---------------------------------------------------------------------

  /** Everybody in `c` is waiting, and nobody outside can ever change that. */
  ghost predicate Deadlock(t: Table, c: set<TxId>) {
    c != {} && (forall a :: a in c ==> IsWaiting(t, a)) && StaysQueued(t, c)
  }

  /** `a` is queued for the same resource as `b`, further back. */
  ghost predicate Behind(t: Table, a: TxId, b: TxId) {
    exists r, i, j :: r in t && 0 <= i < j < |t[r].waitQueue| && t[r].waitQueue[i].txId == b &&
                      t[r].waitQueue[j].txId == a
  }

  ghost predicate JammedInside(t: Table, c: set<TxId>, a: TxId) {
    exists b :: b in c && (Waits(t, a, b) || Behind(t, a, b))
  }

  /** Every member waits for a member, or is queued behind one. */
  ghost predicate Jammed(t: Table, c: set<TxId>) {
    forall a {:trigger JammedInside(t, c, a)} :: a in c ==> JammedInside(t, c, a)
  }

  lemma {:induction false} FrontIndex(queue: seq<Request>, c: set<TxId>) returns (i: nat)
    requires FrontOf(queue, c).Some?
    ensures i < |queue| && queue[i] == FrontOf(queue, c).value && forall j :: 0 <= j < i ==> queue[j].txId !in c
  {
    if queue[0].txId in c {
      i := 0;
    } else {
      var k := FrontIndex(queue[1..], c);
      i := k + 1;
    }
  }

  lemma JammedFront(t: Table, c: set<TxId>, r: Resource)
    requires SingleWait(t) && Jammed(t, c) && r in t
    ensures FrontBlockedIn(t[r], c)
  {
    var queue := t[r].waitQueue;
    if FrontOf(queue, c).Some? {
      var i := FrontIndex(queue, c);
      var q := queue[i];
      hide FrontOf;
      assert InQueue(t, r, q);
      assert JammedInside(t, c, q.txId);
      var b :| b in c && (Waits(t, q.txId, b) || Behind(t, q.txId, b));
      NotBehind(t, r, i, c, b);
      var s, p :| InQueue(t, s, p) && p.txId == q.txId && Blocks(t[s].holders, p, b);
      assert s == r;
      SameRequest(queue, p, q);
    }
  }

  /** The first member of a queue is behind no member. */
  lemma NotBehind(t: Table, r: Resource, i: nat, c: set<TxId>, b: TxId)
    requires SingleWait(t) && r in t && i < |t[r].waitQueue| && b in c
    requires forall j :: 0 <= j < i ==> t[r].waitQueue[j].txId !in c
    ensures !Behind(t, t[r].waitQueue[i].txId, b)
  {
    var queue := t[r].waitQueue;
    assert InQueue(t, r, queue[i]);
    forall s, k, j | s in t && 0 <= k < j < |t[s].waitQueue| && t[s].waitQueue[j].txId == queue[i].txId
      ensures t[s].waitQueue[k].txId != b
    {
      assert InQueue(t, s, t[s].waitQueue[j]);
      assert s == r && j == i;
    }
  }

  lemma MemberIsJammed(t: Table, c: set<TxId>, a: TxId)
    requires FrontBlocked(t, c) && IsWaiting(t, a) && a in c
    ensures JammedInside(t, c, a)
  {
    var r, q :| InQueue(t, r, q) && q.txId == a;
    assert FrontBlockedIn(t[r], c);
    var queue := t[r].waitQueue;
    var i := FrontIndex(queue, c);
    var j :| 0 <= j < |queue| && queue[j] == q;
    hide FrontOf;
    if i == j {
      var b :| b in c && Blocks(t[r].holders, q, b);
      assert Waits(t, a, b);
    } else {
      assert Behind(t, a, queue[i].txId);
    }
  }

  lemma JammedIsWaiting(t: Table, c: set<TxId>, a: TxId)
    requires JammedInside(t, c, a)
    ensures IsWaiting(t, a)
  {
    var b :| b in c && (Waits(t, a, b) || Behind(t, a, b));
    if Behind(t, a, b) {
      var r, i, j :| r in t && 0 <= i < j < |t[r].waitQueue| && t[r].waitQueue[i].txId == b &&
                     t[r].waitQueue[j].txId == a;
      assert InQueue(t, r, t[r].waitQueue[j]);
    }
  }

  /** In all modes: a set is a deadlock if and only if every member waits for a member or is queued behind one. */
  lemma DeadlockIsJam(t: Table, c: set<TxId>)
    requires TableOk(t) && SingleWait(t)
    ensures Deadlock(t, c) <==> c != {} && Jammed(t, c)
  {
    hide TableOk, SingleWait, FrontBlockedIn, JammedInside, IsWaiting, StaysQueued;
    FrontBlockedStaysQueued(t, c);
    if Jammed(t, c) {
      forall r | r in t
        ensures FrontBlockedIn(t[r], c)
      {
        JammedFront(t, c, r);
      }
      forall a | a in c
        ensures IsWaiting(t, a)
      {
        assert JammedInside(t, c, a);
        JammedIsWaiting(t, c, a);
      }
    }
    if Deadlock(t, c) {
      forall a | a in c
        ensures JammedInside(t, c, a)
      {
        MemberIsJammed(t, c, a);
      }
    }
  }

  // ---------------------------------------------------------------------
  // What the detector sees
  // ---------------------------------------------------------------------

  /** Part of `c` is a cycle of the wait-for graph. */
  ghost predicate Seen(t: Table, c: set<TxId>) {
    exists s :: s != {} && s <= c && Stuck(t, s)
  }

  /** A cycle inside `c` puts two members of `c` in a reported component. */
  lemma SeenIsReported(t: Table, c: set<TxId>)
    requires Seen(t, c)
    ensures exists d, x, y :: IsScc(WaitGraph(t), d) && |d| >= 2 && x in d * c && y in d * c && x != y
  {
    hide WaitGraph, Waits, Reach;
    var s :| s != {} && s <= c && Stuck(t, s);
    var g := WaitGraph(t);
    var inner := Inside(g, s);
    forall a | a in s
      ensures HasOther(inner, s, a)
    {
      assert WaitsInside(t, s, a);
      var b :| b in s && Waits(t, a, b);
      WaitGraphEdge(t, a, b);
      WaitsForAnother(t, a, b);
    }
    InsideIsClosed(g, s);
    var x, y := CycleInside(inner, s);
    ReachInside(g, s, x, y);
    ReachInside(g, s, y, x);
    MutualInScc(g, x, y);
    var d :| IsScc(g, d) && |d| >= 2 && x in d && y in d;
    assert x in d * c && y in d * c;
  }

  lemma WaitsForAnother(t: Table, a: TxId, b: TxId)
    requires Waits(t, a, b)
    ensures a != b
  {
  }

  /** A reported component inside `c` is a cycle inside `c`. */
  lemma ReportedIsSeen(t: Table, c: set<TxId>, d: set<TxId>)
    requires IsScc(WaitGraph(t), d) && |d| >= 2 && d <= c
    ensures Seen(t, c)
  {
    ReportedIsStuck(t, d);
    hide Stuck, WaitGraph;
    assert d != {};
  }

  /** A cycle of the wait-for graph is a deadlock. */
  lemma StuckIsDeadlock(t: Table, c: set<TxId>)
    requires TableOk(t) && SingleWait(t) && c != {} && Stuck(t, c)
    ensures Deadlock(t, c)
  {
    hide TableOk, SingleWait, Waits, Behind;
    forall a | a in c
      ensures JammedInside(t, c, a)
    {
      assert WaitsInside(t, c, a);
    }
    DeadlockIsJam(t, c);
  }

  /**
    * Every deadlock of a table contains a cycle of its wait-for graph if and only if every cycle through holders and
    * queue positions does.
    */
  lemma DetectorSeesEveryDeadlock(t: Table)
    requires TableOk(t) && SingleWait(t)
    ensures (forall c :: Deadlock(t, c) ==> Seen(t, c)) <==> (forall c :: c != {} && Jammed(t, c) ==> Seen(t, c))
  {
    hide TableOk, SingleWait, Deadlock, Jammed, Seen;
    forall c
      ensures Deadlock(t, c) <==> c != {} && Jammed(t, c)
    {
      DeadlockIsJam(t, c);
    }
  }

  /** The edges of a graph between nodes of a set. */
  function Inside(g: Graph, s: set<Node>): Graph {
    map a | a in s :: Succ(g, a) * s
  }

  lemma InsideIsClosed(g: Graph, s: set<Node>)
    ensures Closed(Inside(g, s), s)
  {
  }

  lemma ReachInside(g: Graph, s: set<Node>, x: Node, y: Node)
    requires Reach(Inside(g, s), x, y)
    ensures Reach(g, x, y)
  {
    var p :| IsPath(Inside(g, s), p) && p[0] == x && p[|p| - 1] == y;
    assert IsPath(g, p);
  }

  ghost predicate HasOther(g: Graph, c: set<Node>, a: Node) {
    exists b :: b in c && b != a && b in Succ(g, a)
  }

  /** A non-empty closed set whose nodes all have an edge to another node contains a cycle. */
  lemma {:induction false} CycleInside(g: Graph, c: set<Node>) returns (x: Node, y: Node)
    requires c != {} && Closed(g, c)
    requires forall a {:trigger HasOther(g, c, a)} :: a in c ==> HasOther(g, c, a)
    ensures x in c && y in c && Mutual(g, x, y)
    decreases |c|
  {
    hide Reach;
    x := Pick(c);
    assert HasOther(g, c, x);
    y :| y in c && y != x && y in Succ(g, x);
    ReachEdge(g, x, y);
    if !Reach(g, y, x) {
      var s := set z | z in c && Reach(g, y, z);
      ReachSelf(g, y);
      forall u, v | u in s && v in Succ(g, u)
        ensures v in s
      {
        ReachEdge(g, u, v);
        ReachTrans(g, y, u, v);
      }
      forall u | u in s
        ensures HasOther(g, s, u)
      {
        assert HasOther(g, c, u);
        var v :| v in c && v != u && v in Succ(g, u);
        assert v in s;
      }
      CardinalityMonotone(s, c - {x});
      assert |c - {x}| < |c|;
      x, y := CycleInside(g, s);
    }
  }

  // ---------------------------------------------------------------------
  // Exclusive locks only: every deadlock contains a reported component
  // ---------------------------------------------------------------------

  /** Only exclusive locks, and nobody queued for what it holds already. */
  ghost predicate ExclusiveTable(t: Table) {
    && (forall r, h :: r in t && h in t[r].holders ==> t[r].holders[h] == X)
    && (forall r, q :: InQueue(t, r, q) ==> q.mode == X && q.txId !in t[r].holders)
  }

  lemma SoleHolder(t: Table, r: Resource) returns (h: TxId)
    requires TableOk(t) && ExclusiveTable(t) && r in t && t[r].waitQueue != []
    ensures t[r].holders == map[h := X]
  {
    var q := t[r].waitQueue[0];
    h :| h in t[r].holders && h != q.txId && !IsCompatible(q.mode, t[r].holders[h]);
    forall k | k in t[r].holders
      ensures k == h
    {
      assert t[r].holders[k] == X;
    }
  }

  lemma ExclusiveEdge(t: Table, c: set<TxId>, r: Resource, q: Request) returns (h: TxId)
    requires TableOk(t) && SingleWait(t) && ExclusiveTable(t)
    requires FrontBlocked(t, c) && InQueue(t, r, q) && q.txId in c
    ensures h in c && h != q.txId
    ensures forall b :: Waits(t, q.txId, b) <==> b == h
  {
    h := SoleHolder(t, r);
    assert FrontBlockedIn(t[r], c);
    assert Blocks(t[r].holders, q, h);
    forall b | Waits(t, q.txId, b)
      ensures b == h
    {
      var s, p :| InQueue(t, s, p) && p.txId == q.txId && Blocks(t[s].holders, p, b);
      assert s == r;
    }
  }

  /** With exclusive locks only, a deadlock contains a component that is reported. */
  lemma ExclusiveDeadlockHasCycle(t: Table, c: set<TxId>)
    requires TableOk(t) && SingleWait(t) && ExclusiveTable(t) && Deadlock(t, c)
    ensures exists d :: IsScc(WaitGraph(t), d) && |d| >= 2 && d <= c
  {
    hide TableOk, SingleWait, ExclusiveTable, StaysQueued, FrontBlocked, WaitGraph, Waits;
    FrontBlockedStaysQueued(t, c);
    var g := WaitGraph(t);
    forall a | a in c
      ensures HasOther(g, c, a)
      ensures forall b :: b in Succ(g, a) ==> b in c
    {
      var r, q :| InQueue(t, r, q) && q.txId == a;
      var h := ExclusiveEdge(t, c, r, q);
      WaitGraphEdge(t, a, h);
      forall b | b in Succ(g, a)
        ensures b == h
      {
        WaitGraphEdge(t, a, b);
      }
    }
    var x, y := CycleInside(g, c);
    MutualInScc(g, x, y);
    var d :| IsScc(g, d) && |d| >= 2 && x in d && y in d;
    forall z | z in d
      ensures z in c
    {
      ReachStaysInside(g, c, x, z);
    }
  }

  // ---------------------------------------------------------------------
  // Mixed modes: a deadlock without a cycle
  // ---------------------------------------------------------------------

  /** Transaction 3 waits behind 2, which waits for 1, which waits for 3; the wait behind 2 is not an edge. */
  function HiddenDeadlock(): Table {
    map[Resource(1, 4) := LockInfo(map[1 := S], [Request(2, 2, X), Request(3, 3, S)]),
        Resource(2, 5) := LockInfo(map[3 := X], [Request(4, 1, X)])]
  }

  function HalfWay(): Table {
    map[Resource(1, 4) := LockInfo(map[1 := S], [Request(2, 2, X)]),
        Resource(2, 5) := LockInfo(map[3 := X], [])]
  }

  lemma FirstAsks()
    ensures var steps := [Ask(1, Resource(1, 4), S, 0), Ask(3, Resource(2, 5), X, 1), Ask(2, Resource(1, 4), X, 2)];
            AllowedRun(map[], steps) && Run(map[], steps) == HalfWay()
  {
    var p, q := Resource(1, 4), Resource(2, 5);
    var t0: Table := map[];
    var t1 := t0[p := LockInfo(map[1 := S], [])];
    var t2 := t1[q := LockInfo(map[3 := X], [])];
    var s0, s1, s2 := Ask(1, p, S, 0), Ask(3, q, X, 1), Ask(2, p, X, 2);
    assert Apply(t0, s0) == t1;
    assert Apply(t1, s1) == t2;
    assert Apply(t2, s2) == HalfWay() by {
      assert 1 in t2[p].holders && !Fits(t2[p].holders, 2, X);
      assert t2[p].waitQueue + [Request(2, 2, X)] == [Request(2, 2, X)];
    }
    hide Apply;
    RunOne(t2, s2);
    RunMore(t1, s1, [s2]);
    RunMore(t0, s0, [s1, s2]);
  }

  lemma LastAsks()
    ensures var steps := [Ask(3, Resource(1, 4), S, 3), Ask(1, Resource(2, 5), X, 4)];
            AllowedRun(HalfWay(), steps) && Run(HalfWay(), steps) == HiddenDeadlock()
  {
    var p, q := Resource(1, 4), Resource(2, 5);
    var t3 := HalfWay();
    var t4 := t3[p := LockInfo(map[1 := S], [Request(2, 2, X), Request(3, 3, S)])];
    var s3, s4 := Ask(3, p, S, 3), Ask(1, q, X, 4);
    assert Apply(t3, s3) == t4 by {
      assert Request(2, 2, X) in t3[p].waitQueue;
      assert t3[p].waitQueue + [Request(3, 3, S)] == t4[p].waitQueue;
    }
    assert Apply(t4, s4) == HiddenDeadlock() by {
      assert 3 in t4[q].holders && !Fits(t4[q].holders, 1, X);
      assert t4[q].waitQueue + [Request(4, 1, X)] == [Request(4, 1, X)];
    }
    hide Apply;
    RunOne(t4, s4);
    RunMore(t3, s3, [s4]);
  }

  lemma HiddenDeadlockReachable()
    ensures exists steps :: AllowedRun(map[], steps) && Run(map[], steps) == HiddenDeadlock()
  {
    FirstAsks();
    LastAsks();
    hide Apply, HiddenDeadlock, HalfWay;
    var first := [Ask(1, Resource(1, 4), S, 0), Ask(3, Resource(2, 5), X, 1), Ask(2, Resource(1, 4), X, 2)];
    var last := [Ask(3, Resource(1, 4), S, 3), Ask(1, Resource(2, 5), X, 4)];
    RunConcat(map[], first, last);
    assert AllowedRun(map[], first + last);
  }

  lemma HiddenDeadlockIsOk()
    ensures TableOk(HiddenDeadlock()) && SingleWait(HiddenDeadlock())
  {
    hide Run, AllowedRun, HiddenDeadlock, TableOk, SingleWait;
    HiddenDeadlockReachable();
    EmptyTableOk();
    var steps :| AllowedRun(map[], steps) && Run(map[], steps) == HiddenDeadlock();
    RunKeepsTable(map[], steps);
  }

  lemma HiddenDeadlockJams(a: TxId, b: TxId)
    ensures Waits(HiddenDeadlock(), a, b) || Behind(HiddenDeadlock(), a, b) <==>
            (a == 1 && b == 3) || (a == 2 && b == 1) || (a == 3 && b == 2)
    ensures Waits(HiddenDeadlock(), a, b) ==> a != 3
  {
    var t := HiddenDeadlock();
    var p, q := Resource(1, 4), Resource(2, 5);
    assert InQueue(t, q, t[q].waitQueue[0]) && InQueue(t, p, t[p].waitQueue[0]);
    if a == 1 && b == 3 {
      assert Blocks(t[q].holders, Request(4, 1, X), 3);
    }
    if a == 2 && b == 1 {
      assert Blocks(t[p].holders, Request(2, 2, X), 1);
    }
    if a == 3 && b == 2 {
      assert t[p].waitQueue[0].txId == b && t[p].waitQueue[1].txId == a;
    }
  }

  /** With shared locks a deadlock need not contain a cycle: here {1, 2, 3} is the only one, and the graph has none. */
  lemma MixedModesHideDeadlock()
    ensures forall c :: Deadlock(HiddenDeadlock(), c) <==> c == {1, 2, 3}
    ensures forall c :: !Seen(HiddenDeadlock(), c)
    ensures CyclicNodes(WaitGraph(HiddenDeadlock())) == {}
  {
    HiddenDeadlockIsOk();
    var t := HiddenDeadlock();
    hide HiddenDeadlock, Deadlock, Stuck, Jammed, TableOk, SingleWait, WaitGraph, Reach;
    forall c
      ensures Deadlock(t, c) <==> c == {1, 2, 3}
    {
      DeadlockIsJam(t, c);
      JammedSets(c);
    }
    forall s: set<TxId> | s != {}
      ensures !Stuck(t, s)
    {
      NoStuckSet(s);
    }
    forall x, y
      ensures !Mutual(WaitGraph(t), x, y)
    {
      if Mutual(WaitGraph(t), x, y) {
        MutualInScc(WaitGraph(t), x, y);
        var d :| IsScc(WaitGraph(t), d) && |d| >= 2;
        ReportedIsStuck(t, d);
      }
    }
  }

  lemma JammedSets(c: set<TxId>)
    ensures c != {} && Jammed(HiddenDeadlock(), c) <==> c == {1, 2, 3}
  {
    var t := HiddenDeadlock();
    hide HiddenDeadlock, Waits, Behind;
    forall a
      ensures JammedInside(t, c, a) <==> (a == 1 && 3 in c) || (a == 2 && 1 in c) || (a == 3 && 2 in c)
    {
      HiddenDeadlockJams(a, if a == 1 then 3 else a - 1);
      forall b
        ensures Waits(t, a, b) || Behind(t, a, b) <==> (a == 1 && b == 3) || (a == 2 && b == 1) || (a == 3 && b == 2)
      {
        HiddenDeadlockJams(a, b);
      }
    }
    if c != {} && Jammed(t, c) {
      var a := Pick(c);
      assert JammedInside(t, c, a);
      assert 1 in c ==> JammedInside(t, c, 1);
      assert 2 in c ==> JammedInside(t, c, 2);
      assert 3 in c ==> JammedInside(t, c, 3);
      forall x | x in c
        ensures x == 1 || x == 2 || x == 3
      {
        assert JammedInside(t, c, x);
      }
    }
  }

  lemma NoStuckSet(s: set<TxId>)
    requires s != {}
    ensures !Stuck(HiddenDeadlock(), s)
  {
    var t := HiddenDeadlock();
    hide HiddenDeadlock, Waits, Behind;
    forall a, b
      ensures Waits(t, a, b) ==> (a == 1 && b == 3) || (a == 2 && b == 1)
    {
      HiddenDeadlockJams(a, b);
    }
    assert !WaitsInside(t, s, 3);
    assert 3 !in s ==> !WaitsInside(t, s, 1);
    assert 1 !in s ==> !WaitsInside(t, s, 2);
    var a := Pick(s);
    assert a != 1 && a != 2 ==> !WaitsInside(t, s, a);
  }
}
