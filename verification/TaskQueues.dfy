/** Task queues as values: priority order within a queue, and fair rotation between documents. */
module TaskQueues {
  import opened Collections
  import opened Workers

  /** Priority tasks before normal ones, and each kind in order of arrival. */
  ghost predicate Ordered(q: seq<Task>) {
    forall i, j :: 0 <= i < j < |q| ==>
      && q[i].taskId != q[j].taskId
      && (q[j].priority ==> q[i].priority)
      && (q[i].priority == q[j].priority ==> q[i].taskId < q[j].taskId)
  }

  /** Where a priority task goes: behind the last priority task. */
  function Position(q: seq<Task>): (p: nat)
    ensures p <= |q|
    ensures forall i :: p <= i < |q| ==> !q[i].priority
    ensures p > 0 ==> q[p - 1].priority
  {
    if q == [] || q[|q| - 1].priority then |q| else Position(q[..|q| - 1])
  }

  function Inserted(q: seq<Task>, t: Task): seq<Task> {
    InsertAt(q, if t.priority then Position(q) else |q|, t)
  }

  /** A newcomer keeps a queue ordered. */
  lemma InsertedIsOrdered(q: seq<Task>, t: Task)
    requires Ordered(q) && forall i :: 0 <= i < |q| ==> q[i].taskId < t.taskId
    ensures Ordered(Inserted(q, t))
  {
    var p := if t.priority then Position(q) else |q|;
    var q1 := Inserted(q, t);
    assert forall i :: 0 <= i < |q1| ==> q1[i] == if i < p then q[i] else if i == p then t else q[i - 1];
    assert forall i :: 0 <= i < p && t.priority ==> q[i].priority;
  }

  lemma InsertedMembers(q: seq<Task>, t: Task)
    ensures forall i :: 0 <= i < |Inserted(q, t)| ==>
              Inserted(q, t)[i] == t || exists j :: 0 <= j < |q| && q[j] == Inserted(q, t)[i]
  {
    var p := if t.priority then Position(q) else |q|;
    var q1 := Inserted(q, t);
    forall i | 0 <= i < |q1|
      ensures q1[i] == t || exists j :: 0 <= j < |q| && q[j] == q1[i]
    {
      assert i < p ==> q1[i] == q[i];
      assert i > p ==> q1[i] == q[i - 1];
    }
  }

  method InsertByPriority(q: seq<Task>, t: Task) returns (q1: seq<Task>)
    ensures q1 == Inserted(q, t)
  {
    if !t.priority {
      assert q + [t] == Inserted(q, t);
      return q + [t];
    }
    var position := |q|;
    while position > 0 && !q[position - 1].priority
      invariant 0 <= position <= |q| && Position(q[..position]) == Position(q)
    {
      assert q[..position][..position - 1] == q[..position - 1];
      position := position - 1;
    }
    q1 := q[..position] + [t] + q[position..];
  }

  // ---------------------------------------------------------------------
  // Rotation
  // ---------------------------------------------------------------------

  /** One queue per document, the order in which documents first came, and whose turn is next. */
  datatype Rotation = Rotation(queues: map<int, seq<Task>>, order: seq<int>, index: nat)

  ghost predicate RotationOk(r: Rotation) {
    && Distinct(r.order)
    && (forall i :: 0 <= i < |r.order| ==> r.order[i] in r.queues)
    && (forall d :: d in r.queues ==> exists i :: 0 <= i < |r.order| && r.order[i] == d)
    && r.index < (if |r.order| == 0 then 1 else |r.order|)
  }

  function QueueOf(r: Rotation, d: int): seq<Task> {
    if d in r.queues then r.queues[d] else []
  }

  function Arrived(r: Rotation, t: Task): Rotation {
    Rotation(r.queues[t.docId := Inserted(QueueOf(r, t.docId), t)],
             if t.docId in r.queues then r.order else r.order + [t.docId],
             r.index)
  }

  /** The document `a` turns ahead. */
  function Turn(r: Rotation, a: nat): int
    requires r.index < |r.order| && a < |r.order|
  {
    r.order[Wrap(r.index + a, |r.order|)]
  }

  /** How many turns ahead, from `a` on, the first document with work is; the number of documents if there is none. */
  function FirstWithWork(r: Rotation, a: nat): (b: nat)
    requires a <= |r.order| && (|r.order| > 0 ==> r.index < |r.order|)
    ensures a <= b <= |r.order|
    ensures forall c :: a <= c < b ==> QueueOf(r, Turn(r, c)) == []
    ensures b < |r.order| ==> QueueOf(r, Turn(r, b)) != []
    decreases |r.order| - a
  {
    if a == |r.order| || QueueOf(r, Turn(r, a)) != [] then a else FirstWithWork(r, a + 1)
  }

  predicate CanServe(r: Rotation) {
    r.index < |r.order| && FirstWithWork(r, 0) < |r.order|
  }

  function ServedDocument(r: Rotation): int
    requires CanServe(r)
  {
    Turn(r, FirstWithWork(r, 0))
  }

  /** After serving: its first task is gone and it is the next document's turn. */
  function AfterServing(r: Rotation): Rotation
    requires CanServe(r)
  {
    var d, n := ServedDocument(r), |r.order|;
    r.(queues := r.queues[d := if QueueOf(r, d) == [] then [] else QueueOf(r, d)[1..]],
       index := Wrap(Wrap(r.index + FirstWithWork(r, 0), n) + 1, n))
  }

  predicate Waiting(r: Rotation, d: int) {
    QueueOf(r, d) != []
  }

  /** Somebody is served exactly if some document has work. */
  lemma ServesIfWork(r: Rotation)
    requires RotationOk(r)
    ensures CanServe(r) <==> exists d :: d in r.queues && Waiting(r, d)
  {
    if d :| d in r.queues && Waiting(r, d) {
      var i :| 0 <= i < |r.order| && r.order[i] == d;
      var a := Ahead(r.index, i, |r.order|);
      assert Turn(r, a) == d;
    }
    if CanServe(r) {
      assert Waiting(r, ServedDocument(r));
    }
  }

  lemma ArrivedOk(r: Rotation, t: Task)
    requires RotationOk(r)
    ensures RotationOk(Arrived(r, t))
  {
    var r1 := Arrived(r, t);
    forall d | d in r1.queues
      ensures exists i :: 0 <= i < |r1.order| && r1.order[i] == d
    {
      if d in r.queues {
        var i :| 0 <= i < |r.order| && r.order[i] == d;
        assert r1.order[i] == d;
      } else {
        assert r1.order[|r.order|] == d;
      }
    }
  }

  lemma ServedOk(r: Rotation)
    requires RotationOk(r) && CanServe(r)
    ensures RotationOk(AfterServing(r))
  {
  }

  // ---------------------------------------------------------------------
  // Fairness
  // ---------------------------------------------------------------------

  datatype Event = Arrive(task: Task) | Take

  function Step(r: Rotation, e: Event): Rotation {
    match e
    case Arrive(t) => Arrived(r, t)
    case Take => if CanServe(r) then AfterServing(r) else r
  }

  /** The documents that a run of events serves, in order. */
  function Served(r: Rotation, events: seq<Event>): seq<int>
    decreases |events|
  {
    if events == [] then []
    else (if events[0].Take? && CanServe(r) then [ServedDocument(r)] else []) + Served(Step(r, events[0]), events[1..])
  }

  /** The rotation after a run of events. */
  function Replay(r: Rotation, events: seq<Event>): Rotation
    decreases |events|
  {
    if events == [] then r else Replay(Step(r, events[0]), events[1..])
  }

  /** The tasks that a run of events takes from the queues, in order. */
  function Started(r: Rotation, events: seq<Event>): seq<Task>
    decreases |events|
  {
    if events == [] then []
    else
      (if events[0].Take? && CanServe(r) then [QueueOf(r, ServedDocument(r))[0]] else []) +
      Started(Step(r, events[0]), events[1..])
  }

  function Takes(n: nat): seq<Event> {
    seq(n, _ => Take)
  }

  const NOBODY := Rotation(map[], [], 0)

  lemma {:induction false} RunsConcat(r: Rotation, first: seq<Event>, second: seq<Event>)
    ensures Replay(r, first + second) == Replay(Replay(r, first), second)
    ensures Started(r, first + second) == Started(r, first) + Started(Replay(r, first), second)
    decreases |first|
  {
    hide Step, CanServe, ServedDocument;
    if first == [] {
      assert first + second == second;
    } else {
      RunsConcat(Step(r, first[0]), first[1..], second);
      assert (first + second)[1..] == first[1..] + second;
    }
  }

  lemma OneEvent(r: Rotation, e: Event)
    ensures Replay(r, [e]) == Step(r, e)
    ensures Started(r, [e]) == if e.Take? && CanServe(r) then [QueueOf(r, ServedDocument(r))[0]] else []
  {
    hide Step, CanServe, ServedDocument;
    var none: seq<Event> := [];
    assert [e][1..] == none;
    assert Replay(Step(r, e), none) == Step(r, e) && Started(Step(r, e), none) == [];
  }

  lemma OneMoreTake(n: nat)
    ensures Takes(n + 1) == Takes(n) + [Take] && Takes(0) == []
  {
  }

  /** Every queue holds tasks of its document only. */
  ghost predicate Tagged(r: Rotation) {
    forall d, i :: d in r.queues && 0 <= i < |r.queues[d]| ==> r.queues[d][i].docId == d
  }

  lemma StepKeepsRotation(r: Rotation, e: Event)
    requires RotationOk(r) && Tagged(r)
    ensures RotationOk(Step(r, e)) && Tagged(Step(r, e))
    ensures e.Take? && CanServe(r) ==> QueueOf(r, ServedDocument(r))[0].docId == ServedDocument(r)
  {
    hide RotationOk, FirstWithWork, Inserted;
    match e
    case Arrive(t) =>
      ArrivedOk(r, t);
      InsertedMembers(QueueOf(r, t.docId), t);
    case Take =>
      if CanServe(r) {
        ServedOk(r);
      }
  }

  lemma {:induction false} ReplayKeeps(r: Rotation, events: seq<Event>)
    requires RotationOk(r) && Tagged(r)
    ensures RotationOk(Replay(r, events)) && Tagged(Replay(r, events))
    decreases |events|
  {
    hide RotationOk, Tagged, Step;
    if events != [] {
      StepKeepsRotation(r, events[0]);
      ReplayKeeps(Step(r, events[0]), events[1..]);
    }
  }

  lemma NobodyOk()
    ensures RotationOk(NOBODY) && Tagged(NOBODY)
  {
  }

  /** The tasks started belong to the documents served. */
  lemma {:induction false} StartedIsServed(r: Rotation, events: seq<Event>)
    requires RotationOk(r) && Tagged(r)
    ensures |Started(r, events)| == |Served(r, events)|
    ensures forall i :: 0 <= i < |Started(r, events)| ==> Started(r, events)[i].docId == Served(r, events)[i]
    decreases |events|
  {
    hide RotationOk, Tagged, Step, CanServe, ServedDocument;
    if events != [] {
      StepKeepsRotation(r, events[0]);
      StartedIsServed(Step(r, events[0]), events[1..]);
    }
  }

  /** Position of a document in the order of turns. */
  function Place(r: Rotation, d: int): (p: nat)
    requires d in r.order
    ensures p < |r.order| && r.order[p] == d
  {
    IndexOf(r.order, d)
  }

  /** `e` has its turn before `d`. */
  ghost predicate Before(r: Rotation, e: int, d: int) {
    && e in r.order && d in r.order && r.index < |r.order|
    && Ahead(r.index, Place(r, e), |r.order|) < Ahead(r.index, Place(r, d), |r.order|)
  }

  lemma PlaceIsUnique(r: Rotation, p: nat)
    requires Distinct(r.order) && p < |r.order|
    ensures Place(r, r.order[p]) == p
  {
  }

  /** A document with work is not passed over. */
  lemma WorkIsNotPassed(r: Rotation, i: nat)
    requires RotationOk(r) && i < |r.order| && Waiting(r, r.order[i])
    ensures CanServe(r) && FirstWithWork(r, 0) <= Ahead(r.index, i, |r.order|)
  {
    assert Turn(r, Ahead(r.index, i, |r.order|)) == r.order[i];
  }

  lemma WaitingHasTurn(r: Rotation, d: int)
    requires RotationOk(r) && Waiting(r, d)
    ensures d in r.order && Distinct(r.order)
  {
  }

  /** The served document comes before, or is, any document with work. */
  lemma ServedComesFirst(r: Rotation, d: int)
    requires RotationOk(r) && CanServe(r) && Waiting(r, d) && d != ServedDocument(r)
    ensures Before(r, ServedDocument(r), d)
  {
    hide FirstWithWork, Waiting, IndexOf, Distinct, QueueOf, Place;
    var n, a := |r.order|, FirstWithWork(r, 0);
    var p := Wrap(r.index + a, n);
    WaitingHasTurn(r, d);
    hide RotationOk;
    var i :| 0 <= i < n && r.order[i] == d;
    WorkIsNotPassed(r, i);
    PlaceIsUnique(r, i);
    PlaceIsUnique(r, p);
  }

  /** Whoever comes before a waiting document after a service came before it already, and is not the one just served. */
  lemma ServingMovesOn(r: Rotation, e: int, d: int)
    requires RotationOk(r) && CanServe(r) && Before(r, ServedDocument(r), d) && Before(AfterServing(r), e, d)
    ensures Before(r, e, d) && e != ServedDocument(r)
  {
    hide FirstWithWork, Place, IndexOf, Distinct, QueueOf, Waiting;
    var n, a := |r.order|, FirstWithWork(r, 0);
    PlaceIsUnique(r, Wrap(r.index + a, n));
    hide RotationOk;
    assert AfterServing(r).order == r.order;
    SamePlaces(r, AfterServing(r), e);
    SamePlaces(r, AfterServing(r), d);
    TurnsMoveOn(r.index, a, Place(r, e), Place(r, d), n);
  }

  lemma SamePlaces(r: Rotation, r1: Rotation, d: int)
    requires r1.order == r.order && d in r.order
    ensures Place(r1, d) == Place(r, d)
  {
  }

  /** Moving the turn past position `a` turns ahead. */
  lemma TurnsMoveOn(index: nat, a: nat, x: nat, y: nat, n: nat)
    requires index < n && a < n && x < n && y < n && a < Ahead(index, y, n)
    requires var next := Wrap(Wrap(index + a, n) + 1, n); Ahead(next, x, n) < Ahead(next, y, n)
    ensures a < Ahead(index, x, n) < Ahead(index, y, n)
  {
  }

  /** An arrival puts nobody but a new document before a waiting one. */
  lemma ArrivalKeepsTurns(r: Rotation, t: Task, e: int, d: int)
    requires RotationOk(r) && d in r.order && Before(Arrived(r, t), e, d)
    ensures Before(r, e, d) || e !in r.order
  {
    var r1 := Arrived(r, t);
    if e in r.order {
      var p, q := Place(r, e), Place(r, d);
      assert r1.order[p] == e && r1.order[q] == d;
      ArrivedOk(r, t);
      PlaceIsUnique(r1, p);
      PlaceIsUnique(r1, q);
    }
  }

  /**
    * Whatever arrives, while a document has work and is not served, no other document is served twice; and all
    * that are served either had their turn before it or came later.
    */
  lemma {:induction false} RotationIsFair(r: Rotation, events: seq<Event>, d: int)
    requires RotationOk(r) && Waiting(r, d) && d !in Served(r, events)
    ensures Distinct(Served(r, events))
    ensures forall e :: e in Served(r, events) ==> Before(r, e, d) || e !in r.order
    decreases |events|
  {
    if events != [] {
      var r1, rest := Step(r, events[0]), Served(Step(r, events[0]), events[1..]);
      hide Before, FirstWithWork, Inserted, Distinct;
      assert d in r.order;
      match events[0]
      case Arrive(t) =>
        ArrivedOk(r, t);
        assert Served(r, events) == rest;
        InsertedIsThere(QueueOf(r, t.docId), t);
        RotationIsFair(r1, events[1..], d);
        forall e | e in rest
          ensures Before(r, e, d) || e !in r.order
        {
          if Before(r1, e, d) {
            ArrivalKeepsTurns(r, t, e, d);
          }
        }
      case Take =>
        if CanServe(r) {
          var s := ServedDocument(r);
          assert Served(r, events) == [s] + rest;
          assert s in Served(r, events) && forall e :: e in rest ==> e in Served(r, events);
          ServedOk(r);
          ServedComesFirst(r, d);
          RotationIsFair(r1, events[1..], d);
          forall e | e in rest
            ensures e != s && (Before(r, e, d) || e !in r.order)
          {
            if Before(r1, e, d) {
              ServingMovesOn(r, e, d);
            }
            assert r1.order == r.order;
            TurnInOrder(r);
          }
          DistinctCons(s, rest);
        } else {
          assert Served(r, events) == rest;
          RotationIsFair(r1, events[1..], d);
        }
    }
  }

  /** No two of the tasks are of the same document. */
  predicate OfDifferentDocuments(tasks: seq<Task>) {
    forall i, j :: 0 <= i < j < |tasks| ==> tasks[i].docId != tasks[j].docId
  }

  /**
    * In the history of a rotation, from any point on at which a document has work: as long as none of its tasks is
    * started, no other document has two started.
    */
  lemma HistoryIsFair(before: seq<Event>, since: seq<Event>, d: int)
    requires Waiting(Replay(NOBODY, before), d)
    ensures var tasks := Started(Replay(NOBODY, before), since);
            && Started(NOBODY, before + since) == Started(NOBODY, before) + tasks
            && ((forall i :: 0 <= i < |tasks| ==> tasks[i].docId != d) ==> OfDifferentDocuments(tasks))
  {
    hide RotationOk, Tagged, Step, Waiting, Replay, Served, Started;
    RunsConcat(NOBODY, before, since);
    NobodyOk();
    ReplayKeeps(NOBODY, before);
    var r := Replay(NOBODY, before);
    StartedIsServed(r, since);
    var tasks := Started(r, since);
    if forall i :: 0 <= i < |tasks| ==> tasks[i].docId != d {
      RotationIsFair(r, since, d);
    }
  }

  lemma DistinctCons(s: int, rest: seq<int>)
    requires Distinct(rest) && s !in rest
    ensures Distinct([s] + rest)
  {
    assert forall i :: 0 <= i < |rest| ==> rest[i] in rest;
  }

  lemma TurnInOrder(r: Rotation)
    requires CanServe(r)
    ensures ServedDocument(r) in r.order
  {
  }

  lemma InsertedIsThere(q: seq<Task>, t: Task)
    ensures Inserted(q, t) != []
  {
  }
}
