/** The scheduler: queues of tasks in front of a pool of workers. */
module Scheduling {
  import opened Collections
  import opened Workers
  import opened TaskQueues

  datatype Policy = Fifo | RoundRobin

  /** The record of a task that a worker is done with. */
  datatype Completion = Completion(task: Task, worker: nat, failed: bool)

  /** The counters and lengths that a metrics report shows. */
  datatype Metrics = Metrics(
    submitted: nat,
    dispatched: nat,
    succeeded: nat,
    failed: nat,
    queueLength: nat,
    completed: nat)

  ghost predicate Has(q: seq<Task>, id: nat) {
    exists i :: 0 <= i < |q| && q[i].taskId == id
  }

  ghost predicate InDocumentQueue(queues: map<int, seq<Task>>, id: nat) {
    exists d :: d in queues && Has(queues[d], id)
  }

  ghost predicate InSomeQueue(queue: seq<Task>, r: Rotation, id: nat) {
    Has(queue, id) || InDocumentQueue(r.queues, id)
  }

  ghost predicate OnSomeWorker(workers: seq<Worker>, id: nat) {
    exists i :: 0 <= i < |workers| && workers[i].current.Some? && workers[i].current.value.taskId == id
  }

  /** The queues are ordered and only the current policy's hold tasks; a document's queue holds its own tasks. */
  ghost predicate QueuesOk(policy: Policy, queue: seq<Task>, r: Rotation, nextTaskId: nat) {
    && RotationOk(r) && Ordered(queue)
    && (policy.RoundRobin? ==> queue == [])
    && (forall i :: 0 <= i < |queue| ==> queue[i].taskId < nextTaskId)
    && (forall d :: d in r.queues ==> Ordered(r.queues[d]) && (policy.Fifo? ==> r.queues[d] == []))
    && (forall d, i :: d in r.queues && 0 <= i < |r.queues[d]| ==>
        r.queues[d][i].docId == d && r.queues[d][i].taskId < nextTaskId)
    && Apart(r.queues)
  }

  /** No task is in the queues of two documents. */
  ghost predicate Apart(queues: map<int, seq<Task>>) {
    forall d, e, id :: d in queues && e in queues && Has(queues[d], id) && Has(queues[e], id) ==> d == e
  }

  ghost predicate WorkersOk(workers: seq<Worker>) {
    forall i, j :: 0 <= i < j < |workers| && workers[i].current.Some? && workers[j].current.Some? ==>
      workers[i].current.value.taskId != workers[j].current.value.taskId
  }

  ghost predicate IsDone(completed: seq<Completion>, id: nat) {
    exists i :: 0 <= i < |completed| && completed[i].task.taskId == id
  }

  /** No task is completed twice. */
  ghost predicate OnceEach(completed: seq<Completion>) {
    forall i, j :: 0 <= i < j < |completed| ==> completed[i].task.taskId != completed[j].task.taskId
  }

  /** Every submitted task is in exactly one place: in a queue, on a worker, or completed. */
  ghost predicate Located(queue: seq<Task>, r: Rotation, workers: seq<Worker>, completed: seq<Completion>,
                          nextTaskId: nat) {
    && (forall id: nat :: 1 <= id < nextTaskId <==>
          InSomeQueue(queue, r, id) || OnSomeWorker(workers, id) || IsDone(completed, id))
    && (forall id: nat :: !(InSomeQueue(queue, r, id) && OnSomeWorker(workers, id)))
    && (forall id: nat :: !(InSomeQueue(queue, r, id) && IsDone(completed, id)))
    && (forall id: nat :: !(OnSomeWorker(workers, id) && IsDone(completed, id)))
  }

  /** The task is the one submitted under its id. */
  predicate IsSubmitted(tasks: seq<Task>, t: Task) {
    1 <= t.taskId <= |tasks| && tasks[t.taskId - 1] == t
  }

  predicate AllSubmitted(tasks: seq<Task>, q: seq<Task>) {
    forall i :: 0 <= i < |q| ==> IsSubmitted(tasks, q[i])
  }

  /** Every task anywhere is as it was submitted. */
  ghost predicate Genuine(tasks: seq<Task>, queue: seq<Task>, r: Rotation, workers: seq<Worker>,
                          completed: seq<Completion>) {
    && AllSubmitted(tasks, queue)
    && (forall d :: d in r.queues ==> AllSubmitted(tasks, r.queues[d]))
    && (forall i :: 0 <= i < |workers| && workers[i].current.Some? ==> IsSubmitted(tasks, workers[i].current.value))
    && (forall i :: 0 <= i < |completed| ==> IsSubmitted(tasks, completed[i].task))
  }

  /** How many completed tasks failed. */
  function Failures(completed: seq<Completion>): nat {
    if completed == [] then 0
    else Failures(completed[..|completed| - 1]) + if completed[|completed| - 1].failed then 1 else 0
  }

  /** How many tasks a worker has completed. */
  function Processed(completed: seq<Completion>, w: nat): nat {
    if completed == [] then 0
    else Processed(completed[..|completed| - 1], w) + if completed[|completed| - 1].worker == w then 1 else 0
  }

  /** Every worker has counted the tasks it completed. */
  ghost predicate CountedBy(workers: seq<Worker>, completed: seq<Completion>) {
    forall w :: 0 <= w < |workers| ==> workers[w].tasksProcessed == Processed(completed, w)
  }

  ghost function BusyWorkers(workers: seq<Worker>): set<int> {
    set i | 0 <= i < |workers| && !IsIdle(workers[i])
  }

  /** Whoever was at work still is, on the same task. */
  ghost predicate KeepWorking(before: seq<Worker>, after: seq<Worker>) {
    |after| == |before| && forall i :: 0 <= i < |before| && !IsIdle(before[i]) ==> after[i] == before[i]
  }

  ghost predicate HasWork(policy: Policy, queue: seq<Task>, r: Rotation) {
    if policy.Fifo? then queue != [] else exists d :: d in r.queues && Waiting(r, d)
  }

  // ---------------------------------------------------------------------
  // Queues
  // ---------------------------------------------------------------------

  lemma HasInserted(q: seq<Task>, t: Task, id: nat)
    ensures Has(Inserted(q, t), id) <==> Has(q, id) || id == t.taskId
  {
    var p := if t.priority then Position(q) else |q|;
    var q1 := Inserted(q, t);
    assert q1[p] == t;
    assert forall i :: 0 <= i < |q1| ==> q1[i] == if i < p then q[i] else if i == p then t else q[i - 1];
    assert forall i :: 0 <= i < |q| ==> q[i] == q1[if i < p then i else i + 1];
  }

  lemma HasRest(q: seq<Task>, id: nat)
    requires q != [] && Ordered(q)
    ensures Has(q[1..], id) <==> Has(q, id) && id != q[0].taskId
    ensures Ordered(q[1..]) && Has(q, q[0].taskId)
  {
    assert forall i :: 0 <= i < |q| - 1 ==> q[1..][i] == q[i + 1];
    if i :| 0 <= i < |q| && q[i].taskId == id && id != q[0].taskId {
      assert q[1..][i - 1].taskId == id;
    }
  }

  /** The queues after a task has been enqueued under a policy. */
  function EnqueuedQueue(policy: Policy, queue: seq<Task>, t: Task): seq<Task> {
    if policy.Fifo? then Inserted(queue, t) else queue
  }

  function EnqueuedRotation(policy: Policy, r: Rotation, t: Task): Rotation {
    if policy.Fifo? then r else Arrived(r, t)
  }

  lemma FifoEnqueues(queue: seq<Task>, r: Rotation, t: Task)
    requires QueuesOk(Fifo, queue, r, t.taskId)
    ensures QueuesOk(Fifo, Inserted(queue, t), r, t.taskId + 1) && Inserted(queue, t) != []
    ensures forall id :: InSomeQueue(Inserted(queue, t), r, id) <==> InSomeQueue(queue, r, id) || id == t.taskId
  {
    InsertedIsOrdered(queue, t);
    InsertedMembers(queue, t);
    InsertedIsThere(queue, t);
    hide Inserted, RotationOk, Ordered, Has, Apart;
    forall id
      ensures InSomeQueue(Inserted(queue, t), r, id) <==> InSomeQueue(queue, r, id) || id == t.taskId
    {
      HasInserted(queue, t, id);
    }
  }

  /** A newcomer in one document's queue. */
  lemma AddedToDocument(queues: map<int, seq<Task>>, d: int, q1: seq<Task>, newcomer: nat)
    requires Apart(queues) && !InDocumentQueue(queues, newcomer)
    requires forall id :: Has(q1, id) <==> id == newcomer || (d in queues && Has(queues[d], id))
    ensures Apart(queues[d := q1])
    ensures forall id :: InDocumentQueue(queues[d := q1], id) <==> InDocumentQueue(queues, id) || id == newcomer
  {
    hide Has;
    var queues1 := queues[d := q1];
    forall id
      ensures InDocumentQueue(queues1, id) <==> InDocumentQueue(queues, id) || id == newcomer
    {
      assert Has(q1, id) <==> Has(queues1[d], id);
      if e :| e in queues && Has(queues[e], id) {
        assert Has(queues1[e], id);
      }
    }
  }

  /** One task fewer in one document's queue. */
  lemma TakenFromDocument(queues: map<int, seq<Task>>, d: int, q1: seq<Task>, gone: nat)
    requires Apart(queues) && d in queues && Has(queues[d], gone)
    requires forall id :: Has(q1, id) <==> id != gone && Has(queues[d], id)
    ensures Apart(queues[d := q1])
    ensures forall id :: InDocumentQueue(queues[d := q1], id) <==> InDocumentQueue(queues, id) && id != gone
  {
    hide Has;
    var queues1 := queues[d := q1];
    forall id
      ensures InDocumentQueue(queues1, id) <==> InDocumentQueue(queues, id) && id != gone
    {
      if id != gone && InDocumentQueue(queues, id) {
        var e :| e in queues && Has(queues[e], id);
        assert Has(queues1[e], id);
      }
    }
  }

  lemma NotYetQueued(r: Rotation, nextTaskId: nat)
    requires QueuesOk(RoundRobin, [], r, nextTaskId)
    ensures !InDocumentQueue(r.queues, nextTaskId)
  {
  }

  lemma NothingIsOrdered()
    ensures Ordered([])
  {
  }

  lemma RotationEnqueues(r: Rotation, t: Task)
    requires QueuesOk(RoundRobin, [], r, t.taskId)
    ensures QueuesOk(RoundRobin, [], Arrived(r, t), t.taskId + 1)
    ensures t.docId in Arrived(r, t).queues && Waiting(Arrived(r, t), t.docId)
    ensures forall id :: InSomeQueue([], Arrived(r, t), id) <==> InSomeQueue([], r, id) || id == t.taskId
  {
    hide Inserted, RotationOk, Ordered, Has, Apart, InDocumentQueue;
    var q := QueueOf(r, t.docId);
    NothingIsOrdered();
    InsertedIsOrdered(q, t);
    InsertedMembers(q, t);
    InsertedIsThere(q, t);
    ArrivedOk(r, t);
    NotYetQueued(r, t.taskId);
    forall id
      ensures Has(Inserted(q, t), id) <==> id == t.taskId || (t.docId in r.queues && Has(r.queues[t.docId], id))
    {
      HasInserted(q, t, id);
      NothingThere(id);
    }
    AddedToDocument(r.queues, t.docId, Inserted(q, t), t.taskId);
  }

  lemma EnqueueKeeps(policy: Policy, queue: seq<Task>, r: Rotation, t: Task)
    requires QueuesOk(policy, queue, r, t.taskId)
    ensures QueuesOk(policy, EnqueuedQueue(policy, queue, t), EnqueuedRotation(policy, r, t), t.taskId + 1)
    ensures forall id :: InSomeQueue(EnqueuedQueue(policy, queue, t), EnqueuedRotation(policy, r, t), id) <==>
                         InSomeQueue(queue, r, id) || id == t.taskId
    ensures HasWork(policy, EnqueuedQueue(policy, queue, t), EnqueuedRotation(policy, r, t))
  {
    hide Inserted, RotationOk, Ordered, InSomeQueue, Apart, Waiting;
    match policy
    case Fifo => FifoEnqueues(queue, r, t);
    case RoundRobin => RotationEnqueues(r, t);
  }

  lemma NothingThere(id: nat)
    ensures !Has([], id)
  {
  }

  /** Taking the first task of the queue. */
  lemma FifoTakes(queue: seq<Task>, r: Rotation, nextTaskId: nat)
    requires QueuesOk(Fifo, queue, r, nextTaskId) && queue != []
    ensures QueuesOk(Fifo, queue[1..], r, nextTaskId)
    ensures forall id :: InSomeQueue(queue[1..], r, id) <==> InSomeQueue(queue, r, id) && id != queue[0].taskId
    ensures InSomeQueue(queue, r, queue[0].taskId)
  {
    HasRest(queue, queue[0].taskId);
    hide RotationOk, Ordered, Has;
    forall id
      ensures InSomeQueue(queue[1..], r, id) <==> InSomeQueue(queue, r, id) && id != queue[0].taskId
    {
      HasRest(queue, id);
      NothingThere(id);
    }
  }

  lemma ServedIsKnown(r: Rotation)
    requires RotationOk(r) && CanServe(r)
    ensures RotationOk(AfterServing(r))
    ensures var d := ServedDocument(r);
            && d in r.queues && QueueOf(r, d) != []
            && AfterServing(r).queues == r.queues[d := r.queues[d][1..]]
  {
    ServedOk(r);
  }

  lemma OrderedRest(q: seq<Task>)
    requires q != [] && Ordered(q)
    ensures Ordered(q[1..])
  {
    assert forall i :: 0 <= i < |q| - 1 ==> q[1..][i] == q[i + 1];
  }

  /** Serving the next document with work. */
  lemma RotationTakes(r: Rotation, nextTaskId: nat)
    requires QueuesOk(RoundRobin, [], r, nextTaskId) && CanServe(r)
    ensures ServedDocument(r) in r.queues && QueueOf(r, ServedDocument(r)) != []
    ensures var t := QueueOf(r, ServedDocument(r))[0];
            && QueuesOk(RoundRobin, [], AfterServing(r), nextTaskId)
            && (forall id :: InSomeQueue([], AfterServing(r), id) <==> InSomeQueue([], r, id) && id != t.taskId)
            && InSomeQueue([], r, t.taskId)
  {
    hide RotationOk, Ordered, Has, Apart, CanServe, ServedDocument, AfterServing, InDocumentQueue;
    ServedIsKnown(r);
    var d := ServedDocument(r);
    var q := r.queues[d];
    OrderedRest(q);
    HasRest(q, q[0].taskId);
    forall id
      ensures Has(q[1..], id) <==> id != q[0].taskId && Has(q, id)
      ensures !Has([], id)
    {
      HasRest(q, id);
      NothingThere(id);
    }
    TakenFromDocument(r.queues, d, q[1..], q[0].taskId);
    assert InDocumentQueue(r.queues, q[0].taskId) by {
      HeldThere(r.queues, d, q[0].taskId);
    }
  }

  lemma HeldThere(queues: map<int, seq<Task>>, d: int, id: nat)
    requires d in queues && Has(queues[d], id)
    ensures InDocumentQueue(queues, id)
  {
    hide Has;
  }

  // ---------------------------------------------------------------------
  // Places
  // ---------------------------------------------------------------------

  lemma EnqueueLocates(policy: Policy, queue: seq<Task>, r: Rotation, workers: seq<Worker>, completed: seq<Completion>,
                       t: Task)
    requires Located(queue, r, workers, completed, t.taskId) && t.taskId >= 1
    requires forall id :: InSomeQueue(EnqueuedQueue(policy, queue, t), EnqueuedRotation(policy, r, t), id) <==>
                          InSomeQueue(queue, r, id) || id == t.taskId
    ensures Located(EnqueuedQueue(policy, queue, t), EnqueuedRotation(policy, r, t), workers, completed, t.taskId + 1)
  {
    hide InSomeQueue, OnSomeWorker, IsDone, EnqueuedQueue, EnqueuedRotation;
  }

  /** A task leaves its queue for an idle worker. */
  lemma RunLocates(queue: seq<Task>, r: Rotation, queue1: seq<Task>, r1: Rotation, workers: seq<Worker>,
                   completed: seq<Completion>, w: nat, t: Task, nextTaskId: nat)
    requires Located(queue, r, workers, completed, nextTaskId) && WorkersOk(workers)
    requires w < |workers| && IsIdle(workers[w]) && InSomeQueue(queue, r, t.taskId)
    requires forall id :: InSomeQueue(queue1, r1, id) <==> InSomeQueue(queue, r, id) && id != t.taskId
    ensures var workers1 := workers[w := workers[w].(current := Some(t))];
            && Located(queue1, r1, workers1, completed, nextTaskId) && WorkersOk(workers1)
            && KeepWorking(workers, workers1) && |BusyWorkers(workers1)| == |BusyWorkers(workers)| + 1
            && (CountedBy(workers, completed) ==> CountedBy(workers1, completed))
  {
    hide InSomeQueue, IsDone;
    var workers1 := workers[w := workers[w].(current := Some(t))];
    assert !OnSomeWorker(workers, t.taskId);
    forall id
      ensures OnSomeWorker(workers1, id) <==> OnSomeWorker(workers, id) || id == t.taskId
    {
      assert workers1[w].current.value.taskId == t.taskId;
      assert forall i :: 0 <= i < |workers| && i != w ==> workers1[i] == workers[i];
    }
    assert BusyWorkers(workers1) == BusyWorkers(workers) + {w};
  }

  /** A worker is done with its task. */
  lemma FinishLocates(queue: seq<Task>, r: Rotation, workers: seq<Worker>, completed: seq<Completion>, w: nat,
                      failed: bool, nextTaskId: nat)
    requires Located(queue, r, workers, completed, nextTaskId) && WorkersOk(workers) && OnceEach(completed)
    requires w < |workers| && !IsIdle(workers[w])
    ensures var t := workers[w].current.value;
            var workers1 := workers[w := Worker(None, workers[w].tasksProcessed + 1)];
            var completed1 := completed + [Completion(t, w, failed)];
            && Located(queue, r, workers1, completed1, nextTaskId) && WorkersOk(workers1) && OnceEach(completed1)
            && |BusyWorkers(workers)| == |BusyWorkers(workers1)| + 1
            && Failures(completed1) == Failures(completed) + (if failed then 1 else 0)
            && (CountedBy(workers, completed) ==> CountedBy(workers1, completed1))
  {
    hide InSomeQueue;
    var t := workers[w].current.value;
    var workers1 := workers[w := Worker(None, workers[w].tasksProcessed + 1)];
    var completed1 := completed + [Completion(t, w, failed)];
    assert OnSomeWorker(workers, t.taskId);
    assert completed1[..|completed|] == completed;
    assert BusyWorkers(workers) == BusyWorkers(workers1) + {w};
    forall id
      ensures OnSomeWorker(workers1, id) <==> OnSomeWorker(workers, id) && id != t.taskId
      ensures IsDone(completed1, id) <==> IsDone(completed, id) || id == t.taskId
    {
      assert forall i :: 0 <= i < |workers| && i != w ==> workers1[i] == workers[i];
      assert forall i :: 0 <= i < |completed| ==> completed1[i] == completed[i];
      assert completed1[|completed|].task.taskId == t.taskId;
    }
    assert !IsDone(completed, t.taskId);
    assert forall i :: 0 <= i < |completed| ==> completed[i].task.taskId != t.taskId;
  }

  // ---------------------------------------------------------------------
  // Task records
  // ---------------------------------------------------------------------

  lemma StillSubmitted(tasks: seq<Task>, t: Task, q: seq<Task>)
    requires AllSubmitted(tasks, q)
    ensures AllSubmitted(tasks + [t], q)
  {
  }

  lemma EnqueueGenuine(tasks: seq<Task>, policy: Policy, queue: seq<Task>, r: Rotation, workers: seq<Worker>,
                       completed: seq<Completion>, t: Task)
    requires Genuine(tasks, queue, r, workers, completed) && t.taskId == |tasks| + 1
    ensures Genuine(tasks + [t], EnqueuedQueue(policy, queue, t), EnqueuedRotation(policy, r, t), workers, completed)
  {
    hide Inserted, Position;
    var q := if policy.Fifo? then queue else QueueOf(r, t.docId);
    InsertedMembers(q, t);
    StillSubmitted(tasks, t, queue);
    forall d | d in r.queues
      ensures AllSubmitted(tasks + [t], r.queues[d])
    {
      StillSubmitted(tasks, t, r.queues[d]);
    }
  }

  lemma TakeGenuine(tasks: seq<Task>, policy: Policy, queue: seq<Task>, r: Rotation, workers: seq<Worker>,
                    completed: seq<Completion>, queue1: seq<Task>, r1: Rotation, w: nat, t: Task)
    requires Genuine(tasks, queue, r, workers, completed) && w < |workers|
    requires policy.Fifo? ==> queue != [] && t == queue[0] && queue1 == queue[1..] && r1 == r
    requires policy.RoundRobin? ==>
               && CanServe(r) && QueueOf(r, ServedDocument(r)) != [] && t == QueueOf(r, ServedDocument(r))[0]
               && queue1 == queue && r1 == AfterServing(r)
    ensures Genuine(tasks, queue1, r1, workers[w := workers[w].(current := Some(t))], completed)
  {
    hide CanServe, ServedDocument, FirstWithWork;
  }

  // ---------------------------------------------------------------------
  // Counting
  // ---------------------------------------------------------------------

  function Ids(q: seq<Task>): set<nat> {
    set i | 0 <= i < |q| :: q[i].taskId
  }

  /** The ids in the queues of some documents. */
  ghost function DocumentIds(queues: map<int, seq<Task>>, documents: set<int>): set<nat> {
    set d, i | d in documents && d in queues && 0 <= i < |queues[d]| :: queues[d][i].taskId
  }

  ghost function QueuedIds(queue: seq<Task>, r: Rotation): set<nat> {
    Ids(queue) + DocumentIds(r.queues, r.queues.Keys)
  }

  lemma QueuedIdsAreQueued(queue: seq<Task>, r: Rotation, id: nat)
    ensures id in QueuedIds(queue, r) <==> InSomeQueue(queue, r, id)
  {
  }

  /** A queue has as many ids as tasks. */
  lemma {:induction false} CountIds(q: seq<Task>)
    requires Ordered(q)
    ensures |Ids(q)| == |q|
  {
    if q != [] {
      var n := |q| - 1;
      CountIds(q[..n]);
      assert Ids(q) == Ids(q[..n]) + {q[n].taskId};
      assert q[n].taskId !in Ids(q[..n]);
    }
  }

  lemma {:induction false} CountCompleted(completed: seq<Completion>)
    requires OnceEach(completed)
    ensures |set i | 0 <= i < |completed| :: completed[i].task.taskId| == |completed|
  {
    if completed != [] {
      var n := |completed| - 1;
      CountCompleted(completed[..n]);
      var all, most := set i | 0 <= i < |completed| :: completed[i].task.taskId,
                       set i | 0 <= i < |completed[..n]| :: completed[..n][i].task.taskId;
      assert all == most + {completed[n].task.taskId};
      assert completed[n].task.taskId !in most;
    }
  }

  /** One document more. */
  lemma CountDocument(queues: map<int, seq<Task>>, documents: set<int>, d: int)
    requires d in queues && d !in documents && documents <= queues.Keys && Ordered(queues[d]) && Apart(queues)
    ensures |DocumentIds(queues, documents + {d})| == |DocumentIds(queues, documents)| + |queues[d]|
  {
    var before, here := DocumentIds(queues, documents), Ids(queues[d]);
    CountIds(queues[d]);
    assert DocumentIds(queues, documents + {d}) == before + here;
    forall id | id in before
      ensures id !in here
    {
      var e, i :| e in documents && e in queues && 0 <= i < |queues[e]| && queues[e][i].taskId == id;
      assert Has(queues[e], id);
      assert id in here ==> Has(queues[d], id);
    }
    assert before !! here;
  }

  ghost function BusyIds(workers: seq<Worker>): set<nat> {
    set i | 0 <= i < |workers| && !IsIdle(workers[i]) :: workers[i].current.value.taskId
  }

  lemma LastWorker(workers: seq<Worker>, n: nat)
    requires |workers| == n + 1
    ensures BusyWorkers(workers) == BusyWorkers(workers[..n]) + if IsIdle(workers[n]) then {} else {n}
    ensures BusyIds(workers) ==
            BusyIds(workers[..n]) + if IsIdle(workers[n]) then {} else {workers[n].current.value.taskId}
  {
    forall id
      ensures id in BusyIds(workers) <==>
              id in BusyIds(workers[..n]) || (!IsIdle(workers[n]) && id == workers[n].current.value.taskId)
    {
      if id in BusyIds(workers[..n]) {
        var i :| 0 <= i < n && !IsIdle(workers[..n][i]) && workers[..n][i].current.value.taskId == id;
        assert workers[i] == workers[..n][i];
      }
      if id in BusyIds(workers) {
        var i :| 0 <= i <= n && !IsIdle(workers[i]) && workers[i].current.value.taskId == id;
        assert i < n ==> workers[..n][i] == workers[i];
      }
    }
  }

  lemma {:induction false} CountBusy(workers: seq<Worker>)
    requires WorkersOk(workers)
    ensures |BusyIds(workers)| == |BusyWorkers(workers)|
  {
    if workers == [] {
      assert BusyIds(workers) == {} && BusyWorkers(workers) == {};
    } else {
      var n := |workers| - 1;
      LastWorker(workers, n);
      CountBusy(workers[..n]);
      assert n !in BusyWorkers(workers[..n]);
      if !IsIdle(workers[n]) {
        assert workers[n].current.value.taskId !in BusyIds(workers[..n]);
      }
    }
  }

  function NumbersBelow(n: nat): (s: set<nat>)
    ensures forall id: nat :: id in s <==> 1 <= id < n
  {
    if n <= 1 then {} else NumbersBelow(n - 1) + {n - 1}
  }

  lemma {:induction false} CountBelow(n: nat)
    requires n >= 1
    ensures |NumbersBelow(n)| == n - 1
  {
    if n > 1 {
      CountBelow(n - 1);
    }
  }

  /** The ids handed out are as many as tasks queued, workers busy and tasks completed together. */
  lemma TasksAddUp(queue: seq<Task>, r: Rotation, workers: seq<Worker>, completed: seq<Completion>, nextTaskId: nat)
    requires Located(queue, r, workers, completed, nextTaskId) && WorkersOk(workers) && OnceEach(completed)
    requires nextTaskId >= 1
    ensures nextTaskId - 1 == |QueuedIds(queue, r)| + |BusyWorkers(workers)| + |completed|
  {
    var q, w := QueuedIds(queue, r), BusyIds(workers);
    var f := set i | 0 <= i < |completed| :: completed[i].task.taskId;
    CountBusy(workers);
    CountCompleted(completed);
    CountBelow(nextTaskId);
    forall id
      ensures id in q <==> InSomeQueue(queue, r, id)
      ensures id in w <==> OnSomeWorker(workers, id)
      ensures id in f <==> IsDone(completed, id)
    {
      QueuedIdsAreQueued(queue, r, id);
    }
    hide InSomeQueue, OnSomeWorker, IsDone, QueuedIds, BusyIds;
    ThreeParts(NumbersBelow(nextTaskId), q, w, f);
  }

  lemma ThreeParts(all: set<nat>, q: set<nat>, r: set<nat>, f: set<nat>)
    requires forall id :: id in all <==> id in q || id in r || id in f
    requires forall id :: !(id in q && id in r) && !(id in q && id in f) && !(id in r && id in f)
    ensures |all| == |q| + |r| + |f|
  {
    assert q !! r && (q + r) !! f;
    assert |q + r| == |q| + |r|;
    assert all == q + r + f;
  }

  /** Without work in the current policy's queues, no task is queued at all. */
  lemma NoWorkNothingQueued(policy: Policy, queue: seq<Task>, r: Rotation, nextTaskId: nat)
    requires QueuesOk(policy, queue, r, nextTaskId) && !HasWork(policy, queue, r)
    ensures forall id :: !InSomeQueue(queue, r, id)
    ensures QueuesOk(Fifo, queue, r, nextTaskId) && QueuesOk(RoundRobin, queue, r, nextTaskId)
  {
    hide RotationOk, Ordered, Apart;
    assert forall d :: d in r.queues ==> r.queues[d] == [] by {
      forall d | d in r.queues
        ensures r.queues[d] == []
      {
        assert policy.RoundRobin? ==> !Waiting(r, d);
      }
    }
  }

  // ---------------------------------------------------------------------
  // Handing out
  // ---------------------------------------------------------------------

  /** The queues, the rotation, the workers and the cursor that picks among them. */
  datatype Board = Board(queue: seq<Task>, turns: Rotation, workers: seq<Worker>, cursor: nat)

  /** A task enqueued under a policy. */
  function Enqueued(policy: Policy, b: Board, t: Task): Board {
    b.(queue := EnqueuedQueue(policy, b.queue, t), turns := EnqueuedRotation(policy, b.turns, t))
  }

  /** A worker set free. */
  function Freed(b: Board, w: nat): Board
    requires w < |b.workers|
  {
    b.(workers := b.workers[w := Worker(None, b.workers[w].tasksProcessed + 1)])
  }

  /** The task is the first of the queue, or of the document whose turn it is, and has left it. */
  ghost predicate TakesFirst(policy: Policy, queue: seq<Task>, r: Rotation, t: Task, queue1: seq<Task>, r1: Rotation) {
    match policy
    case Fifo => queue != [] && t == queue[0] && queue1 == queue[1..] && r1 == r
    case RoundRobin =>
      && queue1 == queue && CanServe(r) && r1 == AfterServing(r)
      && QueueOf(r, ServedDocument(r)) != [] && t == QueueOf(r, ServedDocument(r))[0]
  }

  /**
    * Tasks have been taken from the front of the queue, or turn by turn from the documents' queues, and handed one
    * after another to the first idle worker from the cursor on; nothing else has changed.
    */
  ghost predicate HandsOut(policy: Policy, b: Board, b1: Board, taken: seq<Task>, at: seq<nat>) {
    && |at| == |taken| && |b.workers| > 0
    && (policy.Fifo? ==> b.queue == taken + b1.queue && b1.turns == b.turns)
    && (policy.RoundRobin? ==>
          && b1.queue == b.queue && b1.turns == Replay(b.turns, Takes(|taken|))
          && taken == Started(b.turns, Takes(|taken|)))
    && PickedInTurn(b.workers, b.cursor, at, taken)
    && b1.workers == Assigned(b.workers, at, taken) && b1.cursor == CursorAfter(b.cursor, at, |b.workers|)
  }

  lemma NothingHandedOut(policy: Policy, b: Board)
    requires |b.workers| > 0
    ensures HandsOut(policy, b, b, [], [])
  {
    OneMoreTake(0);
    assert [] + b.queue == b.queue;
  }

  lemma FirstIdleIsIdle(workers: seq<Worker>, cursor: nat, w: nat)
    requires IsFirstIdle(workers, cursor, w)
    ensures w < |workers| && IsIdle(workers[w])
  {
  }

  lemma PickedAreWorkers(workers: seq<Worker>, cursor: nat, at: seq<nat>, tasks: seq<Task>)
    requires |at| == |tasks| && |workers| > 0 && PickedInTurn(workers, cursor, at, tasks)
    ensures forall i :: 0 <= i < |at| ==> at[i] < |workers|
  {
  }

  lemma HandsOutNext(policy: Policy, b: Board, b1: Board, taken: seq<Task>, at: seq<nat>, t: Task, w: nat, b2: Board)
    requires HandsOut(policy, b, b1, taken, at) && IsFirstIdle(b1.workers, b1.cursor, w)
    requires TakesFirst(policy, b1.queue, b1.turns, t, b2.queue, b2.turns)
    requires w < |b1.workers| && b2.workers == b1.workers[w := b1.workers[w].(current := Some(t))]
    requires b2.cursor == (w + 1) % |b1.workers|
    ensures HandsOut(policy, b, b2, taken + [t], at + [w])
  {
    hide IsFirstIdle, CanServe, ServedDocument, AfterServing, Replay, Started, PickedInTurn, Assigned, Takes;
    PickedAreWorkers(b.workers, b.cursor, at, taken);
    PickedNext(b.workers, b.cursor, at, taken, w, t);
    if policy.Fifo? {
      assert b1.queue == [t] + b2.queue;
    } else {
      var n := |taken|;
      OneMoreTake(n);
      RunsConcat(b.turns, Takes(n), [Take]);
      OneEvent(b1.turns, Take);
    }
  }

  lemma AllKeepWorking(workers: seq<Worker>)
    ensures KeepWorking(workers, workers)
  {
  }

  lemma StillKeepWorking(a: seq<Worker>, b: seq<Worker>, c: seq<Worker>)
    requires KeepWorking(a, b) && KeepWorking(b, c)
    ensures KeepWorking(a, c)
  {
    forall i | 0 <= i < |a| && !IsIdle(a[i])
      ensures c[i] == a[i]
    {
      assert b[i] == a[i];
    }
  }

  /** What the rotation has seen, from the start on, explains how it stands and which tasks it started. */
  ghost predicate IsHistory(events: seq<Event>, r: Rotation, begun: seq<Task>) {
    r == Replay(NOBODY, events) && begun == Started(NOBODY, events)
  }

  lemma HistoryArrives(events: seq<Event>, r: Rotation, begun: seq<Task>, t: Task)
    requires IsHistory(events, r, begun)
    ensures IsHistory(events + [Arrive(t)], Arrived(r, t), begun)
  {
    RunsConcat(NOBODY, events, [Arrive(t)]);
    OneEvent(r, Arrive(t));
  }

  lemma HistoryTakes(events: seq<Event>, r: Rotation, begun: seq<Task>)
    requires IsHistory(events, r, begun) && CanServe(r)
    ensures QueueOf(r, ServedDocument(r)) != []
    ensures IsHistory(events + [Take], AfterServing(r), begun + [QueueOf(r, ServedDocument(r))[0]])
  {
    RunsConcat(NOBODY, events, [Take]);
    OneEvent(r, Take);
  }

  class Scheduler {
    const workerPool: WorkerPool
    var policy: Policy
    var queue: seq<Task>
    var documentQueues: map<int, seq<Task>>
    var rotation: seq<int>
    var rotationIndex: nat
    var nextTaskId: nat
    var running: bool
    var dispatched: nat
    var submitted: nat
    var succeeded: nat
    var failed: nat
    var completed: seq<Completion>
    /** The tasks as they were submitted, in order. */
    ghost var tasks: seq<Task>
    /** What the rotation has seen: tasks that arrived, and turns taken. */
    ghost var events: seq<Event>
    /** The tasks that were started when their document had its turn, in order. */
    ghost var begun: seq<Task>

    ghost function Turns(): Rotation
      reads this
    {
      Rotation(documentQueues, rotation, rotationIndex)
    }

    ghost function Snapshot(): Board
      reads this, workerPool
    {
      Board(queue, Turns(), workerPool.workers, workerPool.cursor)
    }

    ghost predicate Valid()
      reads this, workerPool
    {
      && workerPool.Valid() && nextTaskId >= 1 && IsHistory(events, Turns(), begun)
      && QueuesOk(policy, queue, Turns(), nextTaskId)
      && WorkersOk(workerPool.workers) && OnceEach(completed)
      && Located(queue, Turns(), workerPool.workers, completed, nextTaskId)
      && Genuine(tasks, queue, Turns(), workerPool.workers, completed)
      && Counted()
    }

    /** The counters are what they say. */
    ghost predicate Counted()
      reads this, workerPool`workers
    {
      && submitted == |tasks| == nextTaskId - 1
      && dispatched == |BusyWorkers(workerPool.workers)| + |completed|
      && failed == Failures(completed) && succeeded + failed == |completed|
      && CountedBy(workerPool.workers, completed)
    }

    /** No worker is idle while a task waits. */
    ghost predicate Busy()
      reads this, workerPool
    {
      HasWork(policy, queue, Turns()) ==> forall i :: 0 <= i < |workerPool.workers| ==> !IsIdle(workerPool.workers[i])
    }

    constructor (policy: Policy, size: nat)
      requires size >= 1
      ensures Valid() && tasks == [] && completed == [] && !running && this.policy == policy && fresh(workerPool)
    {
      this.policy := policy;
      workerPool := new WorkerPool(size);
      queue, documentQueues, rotation, rotationIndex, nextTaskId := [], map[], [], 0, 1;
      running, submitted, dispatched, succeeded, failed := false, 0, 0, 0, 0;
      completed, tasks, events, begun := [], [], [], [];
      new;
      assert BusyWorkers(workerPool.workers) == {};
    }

    /** The number of tasks waiting across every queue. */
    method QueueLength() returns (total: nat)
      requires QueuesOk(policy, queue, Turns(), nextTaskId)
      ensures total == |QueuedIds(queue, Turns())|
      ensures total > 0 <==> HasWork(policy, queue, Turns())
    {
      hide RotationOk, Apart;
      ghost var r := Turns();
      if policy.Fifo? {
        CountIds(queue);
        NothingInDocuments(documentQueues, documentQueues.Keys);
        assert QueuedIds(queue, r) == Ids(queue);
        return |queue|;
      }
      total := 0;
      var documents := documentQueues.Keys;
      while documents != {}
        invariant documents <= documentQueues.Keys
        invariant total == |DocumentIds(documentQueues, documentQueues.Keys - documents)|
        invariant total > 0 <==> exists d :: d in documentQueues && d !in documents && Waiting(r, d)
        decreases documents
      {
        var d := Next(documents);
        ghost var visited := documentQueues.Keys - documents;
        CountDocument(documentQueues, visited, d);
        documents := documents - {d};
        assert documentQueues.Keys - documents == visited + {d};
        assert Waiting(r, d) <==> documentQueues[d] != [];
        total := total + |documentQueues[d]|;
      }
      assert documentQueues.Keys - documents == documentQueues.Keys;
      assert QueuedIds(queue, r) == DocumentIds(documentQueues, documentQueues.Keys);
    }

    /** Every task submitted is queued, at work or completed, and every completed one succeeded or failed. */
    method GetMetrics() returns (m: Metrics)
      requires Valid()
      ensures m.submitted == |tasks| && m.completed == |completed| && m.failed == Failures(completed)
      ensures m.queueLength == |QueuedIds(queue, Turns())|
      ensures m.submitted == m.queueLength + |BusyWorkers(workerPool.workers)| + m.completed
      ensures m.dispatched == |BusyWorkers(workerPool.workers)| + m.completed
      ensures m.succeeded + m.failed == m.completed
    {
      hide QueuesOk, WorkersOk, Located, Genuine, OnceEach;
      TasksAddUp(queue, Turns(), workerPool.workers, completed, nextTaskId);
      var length := QueueLength();
      m := Metrics(submitted, dispatched, succeeded, failed, length, |completed|);
    }

    /** Changes the policy, unless tasks are queued. */
    method SetPolicy(p: Policy) returns (ok: bool)
      requires Valid()
      modifies `policy
      ensures Valid()
      ensures ok == !HasWork(old(policy), queue, Turns()) && policy == if ok then p else old(policy)
      ensures ok ==> forall id :: !InSomeQueue(queue, Turns(), id)
    {
      hide QueuesOk, WorkersOk, InSomeQueue, OnSomeWorker, HasWork, Located, Genuine;
      var length := QueueLength();
      if length > 0 {
        return false;
      }
      NoWorkNothingQueued(policy, queue, Turns(), nextTaskId);
      policy := p;
      ok := true;
    }

    method Start() returns (ghost taken: seq<Task>, ghost at: seq<nat>)
      requires Valid()
      modifies this, workerPool
      ensures Valid() && running && Busy() && policy == old(policy) && nextTaskId == old(nextTaskId)
      ensures tasks == old(tasks) && completed == old(completed) && old(events) <= events && old(begun) <= begun
      ensures KeepWorking(old(workerPool.workers), workerPool.workers)
      ensures HandsOut(policy, old(Snapshot()), Snapshot(), taken, at)
    {
      running := true;
      taken, at := Dispatch();
    }

    method Stop()
      requires Valid()
      modifies `running
      ensures Valid() && !running
    {
      running := false;
    }

    /** Submits a task under a fresh id. */
    method Submit(docId: int, priority: bool) returns (taskId: nat, ghost taken: seq<Task>, ghost at: seq<nat>)
      requires Valid()
      modifies this, workerPool
      ensures Valid() && taskId == old(nextTaskId) && nextTaskId == old(nextTaskId) + 1
      ensures tasks == old(tasks) + [Task(taskId, docId, priority)]
      ensures InSomeQueue(queue, Turns(), taskId) || OnSomeWorker(workerPool.workers, taskId)
      ensures completed == old(completed) && KeepWorking(old(workerPool.workers), workerPool.workers)
      ensures running == old(running) && policy == old(policy) && (running ==> Busy())
      ensures old(events) <= events && old(begun) <= begun
      ensures HandsOut(policy, Enqueued(policy, old(Snapshot()), Task(taskId, docId, priority)), Snapshot(), taken, at)
      ensures !running ==> taken == []
    {
      hide QueuesOk, WorkersOk, InSomeQueue, OnSomeWorker, HasWork, Located, Genuine, OnceEach, IsDone, IsHistory,
          HandsOut, EnqueuedQueue, EnqueuedRotation;
      taskId := nextTaskId;
      Admit(Task(taskId, docId, priority));
      taken, at := [], [];
      NothingHandedOut(policy, Snapshot());
      if running {
        taken, at := Dispatch();
      }
      SomewhereNotDone(queue, Turns(), workerPool.workers, completed, nextTaskId, taskId);
    }

    /** Takes a new task in. */
    method Admit(task: Task)
      requires Valid() && task.taskId == nextTaskId
      modifies this
      ensures Valid() && nextTaskId == old(nextTaskId) + 1 && tasks == old(tasks) + [task]
      ensures completed == old(completed) && running == old(running) && policy == old(policy)
      ensures old(events) <= events && begun == old(begun) && !IsDone(completed, task.taskId)
      ensures Snapshot() == Enqueued(policy, old(Snapshot()), task)
    {
      hide QueuesOk, WorkersOk, InSomeQueue, OnSomeWorker, HasWork, Located, Genuine, OnceEach, IsDone, IsHistory,
          EnqueuedQueue, BusyWorkers, Failures, Arrived;
      NotDoneYet(queue, Turns(), workerPool.workers, completed, nextTaskId);
      EnqueueKeeps(policy, queue, Turns(), task);
      EnqueueLocates(policy, queue, Turns(), workerPool.workers, completed, task);
      EnqueueGenuine(tasks, policy, queue, Turns(), workerPool.workers, completed, task);
      if policy.RoundRobin? {
        HistoryArrives(events, Turns(), begun, task);
        events := events + [Arrive(task)];
      }
      nextTaskId := nextTaskId + 1;
      submitted := submitted + 1;
      Enqueue(task);
      tasks := tasks + [task];
    }

    /** Puts a task in the queue it belongs to. */
    method Enqueue(task: Task)
      modifies `queue, `documentQueues, `rotation
      ensures queue == EnqueuedQueue(policy, old(queue), task)
      ensures Turns() == EnqueuedRotation(policy, old(Turns()), task)
    {
      if policy.Fifo? {
        queue := InsertByPriority(queue, task);
        return;
      }
      var q := [];
      if task.docId in documentQueues {
        q := documentQueues[task.docId];
      } else {
        rotation := rotation + [task.docId];
      }
      q := InsertByPriority(q, task);
      documentQueues := documentQueues[task.docId := q];
    }

    /** Removes the next task under the current policy. */
    method Dequeue() returns (task: Option<Task>)
      requires QueuesOk(policy, queue, Turns(), nextTaskId)
      modifies `queue, `documentQueues, `rotationIndex
      ensures task.Some? <==> HasWork(old(policy), old(queue), old(Turns()))
      ensures task.None? ==> queue == old(queue) && Turns() == old(Turns())
      ensures task.Some? && policy.Fifo? ==>
                old(queue) != [] && task.value == old(queue)[0] && queue == old(queue)[1..] && Turns() == old(Turns())
      ensures task.Some? && policy.RoundRobin? ==>
                && CanServe(old(Turns())) && QueueOf(old(Turns()), ServedDocument(old(Turns()))) != []
                && task.value == QueueOf(old(Turns()), ServedDocument(old(Turns())))[0]
                && queue == old(queue) && Turns() == AfterServing(old(Turns()))
    {
      hide RotationOk, Ordered, QueuesOk, Apart, InSomeQueue;
      if policy.Fifo? {
        if queue == [] {
          return None;
        }
        task := Some(queue[0]);
        queue := queue[1..];
        return;
      }
      WorkMeansService(policy, queue, Turns(), nextTaskId);
      task := DequeueInTurn();
    }

    /** Advances through the documents until one has a task, and takes that. */
    method DequeueInTurn() returns (task: Option<Task>)
      requires QueuesOk(policy, queue, Turns(), nextTaskId)
      modifies `documentQueues, `rotationIndex
      ensures task.Some? <==> CanServe(old(Turns()))
      ensures task.None? ==> Turns() == old(Turns())
      ensures task.Some? ==>
                && QueueOf(old(Turns()), ServedDocument(old(Turns()))) != []
                && task.value == QueueOf(old(Turns()), ServedDocument(old(Turns())))[0]
                && Turns() == AfterServing(old(Turns()))
    {
      ghost var r := Turns();
      TurnsInRange(policy, queue, r, nextTaskId);
      hide RotationOk, Ordered, QueuesOk, Apart, FirstWithWork, Wrap, CanServe, ServedDocument, AfterServing,
          TurnIndex, Advanced, TurnOf;
      var n := |rotation|;
      FirstTurn(r);
      for attempt := 0 to n
        invariant documentQueues == old(documentQueues)
        invariant rotationIndex == TurnIndex(r, attempt)
        invariant FirstWithWork(r, 0) == FirstWithWork(r, attempt)
      {
        TurnKnown(policy, queue, r, nextTaskId, attempt);
        var docId := rotation[TurnOf(rotationIndex, n)];
        rotationIndex := Advanced(rotationIndex, n);
        if documentQueues[docId] != [] {
          var q := documentQueues[docId];
          ServedHere(r, attempt);
          task := Some(q[0]);
          documentQueues := documentQueues[docId := q[1..]];
          return;
        }
      }
      LastTurn(r);
      NoneServed(r);
      task := None;
    }

    /** Hands tasks to idle workers as long as there are both. */
    method Dispatch() returns (ghost taken: seq<Task>, ghost at: seq<nat>)
      requires Valid()
      modifies this, workerPool
      ensures Valid() && (running ==> Busy())
      ensures HandsOut(policy, old(Snapshot()), Snapshot(), taken, at) && (!running ==> taken == [])
      ensures old(events) <= events && old(begun) <= begun
      ensures running == old(running) && policy == old(policy) && nextTaskId == old(nextTaskId) && tasks == old(tasks)
      ensures completed == old(completed) && succeeded == old(succeeded) && failed == old(failed)
      ensures KeepWorking(old(workerPool.workers), workerPool.workers)
    {
      hide QueuesOk, WorkersOk, InSomeQueue, OnSomeWorker, HasWork, Located, CanServe, ServedDocument, AfterServing,
          Genuine, OnceEach, IsHistory, HandsOut, IsFirstIdle, Counted, KeepWorking, IdleWorkers, TakesFirst;
      ghost var b0 := Snapshot();
      taken, at := [], [];
      NothingHandedOut(policy, b0);
      AllKeepWorking(b0.workers);
      if !running {
        return;
      }
      while true
        invariant Valid()
        invariant running == old(running) && policy == old(policy) && nextTaskId == old(nextTaskId)
        invariant tasks == old(tasks) && completed == old(completed)
        invariant succeeded == old(succeeded) && failed == old(failed)
        invariant KeepWorking(old(workerPool.workers), workerPool.workers)
        invariant old(events) <= events && old(begun) <= begun
        invariant HandsOut(policy, b0, Snapshot(), taken, at)
        decreases IdleWorkers(workerPool.workers)
      {
        var length := QueueLength();
        if length == 0 {
          return;
        }
        ghost var b1 := Snapshot();
        var worker := workerPool.Acquire();
        if worker.None? {
          return;
        }
        FirstIdleIsIdle(workerPool.workers, b1.cursor, worker.value);
        var task := RunNext(worker.value);
        // There is work, so there is a task.
        if task.None? {
          assert false;
        }
        HandsOutNext(policy, b0, b1, taken, at, task.value, worker.value, Snapshot());
        taken, at := taken + [task.value], at + [worker.value];
        StillKeepWorking(b0.workers, b1.workers, workerPool.workers);
      }
    }

    /** Takes the next task, if there is one, and hands it to an idle worker. */
    method RunNext(worker: nat) returns (task: Option<Task>)
      requires Valid() && worker < |workerPool.workers| && IsIdle(workerPool.workers[worker])
      modifies this, workerPool`workers
      ensures Valid() && running == old(running) && policy == old(policy) && nextTaskId == old(nextTaskId)
      ensures tasks == old(tasks) && completed == old(completed) && succeeded == old(succeeded) && failed == old(failed)
      ensures task.Some? <==> HasWork(policy, old(queue), old(Turns()))
      ensures task.Some? ==>
                && TakesFirst(policy, old(queue), old(Turns()), task.value, queue, Turns())
                && workerPool.workers ==
                   old(workerPool.workers)[worker := old(workerPool.workers[worker]).(current := task)]
                && KeepWorking(old(workerPool.workers), workerPool.workers)
                && IdleWorkers(workerPool.workers) < IdleWorkers(old(workerPool.workers))
      ensures old(events) <= events && old(begun) <= begun
      ensures task.None? ==> Snapshot() == old(Snapshot())
    {
      hide QueuesOk, WorkersOk, InSomeQueue, OnSomeWorker, HasWork, Located, CanServe, ServedDocument, AfterServing,
          IdleWorkers, Genuine, OnceEach, IsHistory, BusyWorkers, Failures, CountedBy, KeepWorking;
      ghost var queue0, r0 := queue, Turns();
      task := Dequeue();
      if task.None? {
        return;
      }
      TakeKeeps(policy, queue0, r0, nextTaskId, queue, Turns(), task.value);
      RunLocates(queue0, r0, queue, Turns(), workerPool.workers, completed, worker, task.value, nextTaskId);
      TakeGenuine(tasks, policy, queue0, r0, workerPool.workers, completed, queue, Turns(), worker, task.value);
      FewerIdle(workerPool.workers, worker, task.value);
      if policy.RoundRobin? {
        HistoryTakes(events, r0, begun);
        events, begun := events + [Take], begun + [task.value];
      }
      RunTask(worker, task.value);
    }

    /** Hands a task to a worker. */
    method RunTask(worker: nat, task: Task)
      requires workerPool.Valid() && worker < |workerPool.workers| && IsIdle(workerPool.workers[worker])
      modifies `dispatched, workerPool`workers
      ensures workerPool.Valid() && dispatched == old(dispatched) + 1
      ensures workerPool.workers ==
                old(workerPool.workers)[worker := old(workerPool.workers[worker]).(current := Some(task))]
    {
      workerPool.Assign(worker, task);
      dispatched := dispatched + 1;
    }

    /** Notes the outcome, sets the worker free and looks for more work. */
    method Finish(worker: nat, error: bool) returns (ghost taken: seq<Task>, ghost at: seq<nat>)
      requires Valid() && worker < |workerPool.workers| && !IsIdle(workerPool.workers[worker])
      modifies this, workerPool
      ensures Valid() && (running ==> Busy()) && tasks == old(tasks) && running == old(running)
      ensures completed == old(completed) + [Completion(old(workerPool.workers[worker].current.value), worker, error)]
      ensures succeeded == old(succeeded) + (if error then 0 else 1) && failed == old(failed) + (if error then 1 else 0)
      ensures |workerPool.workers| == |old(workerPool.workers)|
      ensures forall i :: 0 <= i < |old(workerPool.workers)| && i != worker && !IsIdle(old(workerPool.workers[i])) ==>
                workerPool.workers[i] == old(workerPool.workers[i])
      ensures policy == old(policy) && nextTaskId == old(nextTaskId)
      ensures old(events) <= events && old(begun) <= begun
      ensures HandsOut(policy, Freed(old(Snapshot()), worker), Snapshot(), taken, at) && (!running ==> taken == [])
    {
      hide QueuesOk, HandsOut, IsHistory, WorkersOk, InSomeQueue, OnSomeWorker, HasWork, Located, OnceEach, IsDone;
      FinishLocates(queue, Turns(), workerPool.workers, completed, worker, error, nextTaskId);
      var task := workerPool.workers[worker].current.value;
      completed := completed + [Completion(task, worker, error)];
      if error {
        failed := failed + 1;
      } else {
        succeeded := succeeded + 1;
      }
      workerPool.Release(worker);
      hide Genuine, Counted;
      taken, at := Dispatch();
    }

    /**
      * From any state on in which a document has queued tasks, whatever was submitted, finished and dispatched since:
      * as long as none of its tasks was started, no other document had two started.
      */
    twostate lemma DocumentsTakeTurns(d: int)
      requires old(Valid()) && Valid() && old(events) <= events && old(Waiting(Turns(), d))
      ensures old(begun) <= begun
      ensures var since := begun[|old(begun)|..];
              (forall i :: 0 <= i < |since| ==> since[i].docId != d) ==> OfDifferentDocuments(since)
    {
      hide QueuesOk, WorkersOk, Located, Genuine, OnceEach, Waiting, Replay, Started;
      var more := events[|old(events)|..];
      assert events == old(events) + more;
      HistoryIsFair(old(events), more, d);
    }
  }

  lemma NotDoneYet(queue: seq<Task>, r: Rotation, workers: seq<Worker>, completed: seq<Completion>, nextTaskId: nat)
    requires Located(queue, r, workers, completed, nextTaskId)
    ensures !IsDone(completed, nextTaskId)
  {
    hide InSomeQueue, OnSomeWorker, IsDone;
  }

  lemma SomewhereNotDone(queue: seq<Task>, r: Rotation, workers: seq<Worker>, completed: seq<Completion>,
                         nextTaskId: nat, id: nat)
    requires Located(queue, r, workers, completed, nextTaskId) && 1 <= id < nextTaskId && !IsDone(completed, id)
    ensures InSomeQueue(queue, r, id) || OnSomeWorker(workers, id)
  {
    hide InSomeQueue, OnSomeWorker, IsDone;
  }

  lemma NothingInDocuments(queues: map<int, seq<Task>>, documents: set<int>)
    requires forall d :: d in queues ==> queues[d] == []
    ensures DocumentIds(queues, documents) == {}
  {
  }

  ghost function IdleWorkers(workers: seq<Worker>): set<int> {
    set i | 0 <= i < |workers| && IsIdle(workers[i])
  }

  lemma FewerIdle(workers: seq<Worker>, w: nat, t: Task)
    requires w < |workers| && IsIdle(workers[w])
    ensures IdleWorkers(workers[w := workers[w].(current := Some(t))]) < IdleWorkers(workers)
  {
    assert w in IdleWorkers(workers);
    assert w !in IdleWorkers(workers[w := workers[w].(current := Some(t))]);
  }

  lemma TurnsInRange(policy: Policy, queue: seq<Task>, r: Rotation, nextTaskId: nat)
    requires QueuesOk(policy, queue, r, nextTaskId)
    ensures r.index < if |r.order| == 0 then 1 else |r.order|
  {
  }

  lemma WorkMeansService(policy: Policy, queue: seq<Task>, r: Rotation, nextTaskId: nat)
    requires QueuesOk(policy, queue, r, nextTaskId) && policy.RoundRobin?
    ensures HasWork(policy, queue, r) <==> CanServe(r)
  {
    ServesIfWork(r);
  }

  /** The turn that an index stands for among `n` documents. */
  function TurnOf(i: nat, n: nat): (p: nat)
    requires n > 0
    ensures p < n
  {
    i % n
  }

  function Advanced(i: nat, n: nat): nat {
    (i + 1) % (if n > 1 then n else 1)
  }

  /** Where the rotation stands after some turns; a full round brings it back. */
  function TurnIndex(r: Rotation, a: nat): nat
    requires a <= |r.order| && r.index < if |r.order| == 0 then 1 else |r.order|
  {
    if a == |r.order| then r.index else Wrap(r.index + a, |r.order|)
  }

  lemma FirstTurn(r: Rotation)
    requires r.index < if |r.order| == 0 then 1 else |r.order|
    ensures TurnIndex(r, 0) == r.index
  {
  }

  lemma LastTurn(r: Rotation)
    requires r.index < if |r.order| == 0 then 1 else |r.order|
    ensures FirstWithWork(r, |r.order|) == |r.order|
  {
  }

  lemma ServedHere(r: Rotation, a: nat)
    requires r.index < |r.order| && a < |r.order| && FirstWithWork(r, 0) == a
    requires Turn(r, a) in r.queues && r.queues[Turn(r, a)] != []
    ensures CanServe(r) && ServedDocument(r) == Turn(r, a)
    ensures QueueOf(r, Turn(r, a)) == r.queues[Turn(r, a)]
    ensures AfterServing(r) == Rotation(r.queues[Turn(r, a) := r.queues[Turn(r, a)][1..]], r.order,
                                        Wrap(Wrap(r.index + a, |r.order|) + 1, |r.order|))
  {
    hide FirstWithWork, Wrap;
  }

  lemma NoneServed(r: Rotation)
    requires r.index < if |r.order| == 0 then 1 else |r.order|
    requires FirstWithWork(r, 0) == |r.order|
    ensures !CanServe(r) && TurnIndex(r, |r.order|) == r.index
  {
    hide FirstWithWork;
  }

  /** One turn of the rotation. */
  lemma TurnKnown(policy: Policy, queue: seq<Task>, r: Rotation, nextTaskId: nat, a: nat)
    requires QueuesOk(policy, queue, r, nextTaskId) && a < |r.order| && r.index < |r.order|
    ensures Turn(r, a) in r.queues && QueueOf(r, Turn(r, a)) == r.queues[Turn(r, a)]
    ensures FirstWithWork(r, a) == if r.queues[Turn(r, a)] != [] then a else FirstWithWork(r, a + 1)
    ensures var n := |r.order|;
            && r.order[TurnOf(TurnIndex(r, a), n)] == Turn(r, a)
            && Advanced(TurnIndex(r, a), n) == TurnIndex(r, a + 1) == Wrap(Wrap(r.index + a, n) + 1, n)
  {
    var n := |r.order|;
    ModIsWrap(TurnIndex(r, a), n);
    ModIsWrap(TurnIndex(r, a) + 1, n);
  }

  /** Taking the next task under either policy. */
  lemma TakeKeeps(policy: Policy, queue: seq<Task>, r: Rotation, nextTaskId: nat, queue1: seq<Task>, r1: Rotation,
                  t: Task)
    requires QueuesOk(policy, queue, r, nextTaskId)
    requires policy.Fifo? ==> queue != [] && t == queue[0] && queue1 == queue[1..] && r1 == r
    requires policy.RoundRobin? ==>
               && CanServe(r) && QueueOf(r, ServedDocument(r)) != [] && t == QueueOf(r, ServedDocument(r))[0]
               && queue1 == queue && r1 == AfterServing(r)
    ensures QueuesOk(policy, queue1, r1, nextTaskId) && InSomeQueue(queue, r, t.taskId)
    ensures forall id :: InSomeQueue(queue1, r1, id) <==> InSomeQueue(queue, r, id) && id != t.taskId
  {
    hide RotationOk, Ordered, Apart, CanServe, ServedDocument, AfterServing, InSomeQueue;
    match policy
    case Fifo => FifoTakes(queue, r, nextTaskId);
    case RoundRobin => RotationTakes(r, nextTaskId);
  }
}
