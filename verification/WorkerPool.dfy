/** The fixed set of workers, picked in turn. */
module Workers {
  import opened Collections

  datatype Task = Task(taskId: nat, docId: int, priority: bool)

  datatype Worker = Worker(current: Option<Task>, tasksProcessed: nat)

  predicate IsIdle(w: Worker) {
    w.current.None?
  }

  /** `i % n` for numbers less than twice `n`. */
  function Wrap(i: nat, n: nat): (r: nat)
    requires i < 2 * n
    ensures r < n
  {
    if i < n then i else i - n
  }

  lemma ModIsWrap(i: nat, n: nat)
    requires i < 2 * n
    ensures i % n == Wrap(i, n)
  {
    if i >= n {
      assert i == n + (i - n);
      assert (n + (i - n)) % n == (i - n) % n;
    }
  }

  /** How far position `p` lies ahead of the cursor, going round. */
  function Ahead(cursor: nat, p: nat, n: nat): (d: nat)
    requires cursor < n && p < n
    ensures d < n && Wrap(cursor + d, n) == p
  {
    if p >= cursor then p - cursor else p + n - cursor
  }

  /** The first idle worker from the cursor on, going round. */
  predicate IsFirstIdle(workers: seq<Worker>, cursor: nat, w: nat) {
    && w < |workers| && IsIdle(workers[w]) && cursor < |workers|
    && forall i :: 0 <= i < |workers| && IsIdle(workers[i]) ==>
         Ahead(cursor, w, |workers|) <= Ahead(cursor, i, |workers|)
  }

  /** The workers once tasks have been handed to some of them, in order. */
  function Assigned(workers: seq<Worker>, at: seq<nat>, tasks: seq<Task>): (w: seq<Worker>)
    requires |at| == |tasks| && forall i :: 0 <= i < |at| ==> at[i] < |workers|
    ensures |w| == |workers|
  {
    if at == [] then workers
    else
      var n := |at| - 1;
      var before := Assigned(workers, at[..n], tasks[..n]);
      before[at[n] := before[at[n]].(current := Some(tasks[n]))]
  }

  /** Where the cursor is once the workers `at` have been picked, in order. */
  function CursorAfter(cursor: nat, at: seq<nat>, n: nat): nat
    requires n > 0
  {
    if at == [] then cursor else (at[|at| - 1] + 1) % n
  }

  /** Each task goes to the first idle worker from the cursor on. */
  ghost predicate PickedInTurn(workers: seq<Worker>, cursor: nat, at: seq<nat>, tasks: seq<Task>)
    requires |at| == |tasks| && |workers| > 0
  {
    && (forall i :: 0 <= i < |at| ==> at[i] < |workers|)
    && forall i :: 0 <= i < |at| ==>
         IsFirstIdle(Assigned(workers, at[..i], tasks[..i]), CursorAfter(cursor, at[..i], |workers|), at[i])
  }

  lemma PickedNext(workers: seq<Worker>, cursor: nat, at: seq<nat>, tasks: seq<Task>, w: nat, t: Task)
    requires |at| == |tasks| && w < |workers| && PickedInTurn(workers, cursor, at, tasks)
    requires IsFirstIdle(Assigned(workers, at, tasks), CursorAfter(cursor, at, |workers|), w)
    ensures PickedInTurn(workers, cursor, at + [w], tasks + [t])
    ensures var before := Assigned(workers, at, tasks);
            Assigned(workers, at + [w], tasks + [t]) == before[w := before[w].(current := Some(t))]
  {
    hide IsFirstIdle;
    var n, at1, tasks1 := |at|, at + [w], tasks + [t];
    assert at1[..n] == at && tasks1[..n] == tasks;
    forall i | 0 <= i < |at1|
      ensures IsFirstIdle(Assigned(workers, at1[..i], tasks1[..i]), CursorAfter(cursor, at1[..i], |workers|), at1[i])
    {
      if i < n {
        assert at1[..i] == at[..i] && tasks1[..i] == tasks[..i];
      }
    }
  }

  class WorkerPool {
    var workers: seq<Worker>
    var cursor: nat

    ghost predicate Valid()
      reads this
    {
      cursor < |workers|
    }

    constructor (size: nat)
      requires size >= 1
      ensures Valid() && |workers| == size && cursor == 0
      ensures forall i :: 0 <= i < size ==> workers[i] == Worker(None, 0)
    {
      workers := seq(size, _ => Worker(None, 0));
      cursor := 0;
    }

    /** Picks the first idle worker from the cursor on, going round, and moves the cursor past it. */
    method Acquire() returns (worker: Option<nat>)
      requires Valid()
      modifies `cursor
      ensures Valid()
      ensures worker.None? <==> forall i :: 0 <= i < |workers| ==> !IsIdle(workers[i])
      ensures worker.None? ==> cursor == old(cursor)
      ensures worker.Some? ==>
                IsFirstIdle(workers, old(cursor), worker.value) && cursor == (worker.value + 1) % |workers|
    {
      var n := |workers|;
      for offset := 0 to n
        invariant cursor == old(cursor)
        invariant forall i :: 0 <= i < n && Ahead(cursor, i, n) < offset ==> !IsIdle(workers[i])
      {
        ModIsWrap(cursor + offset, n);
        var index := (cursor + offset) % n;
        if IsIdle(workers[index]) {
          ModIsWrap(index + 1, n);
          cursor := (index + 1) % n;
          return Some(index);
        }
      }
      worker := None;
    }

    method Assign(worker: nat, task: Task)
      requires Valid() && worker < |workers| && IsIdle(workers[worker])
      modifies `workers
      ensures Valid() && workers == old(workers)[worker := old(workers[worker]).(current := Some(task))]
    {
      workers := workers[worker := workers[worker].(current := Some(task))];
    }

    method Release(worker: nat)
      requires Valid() && worker < |workers|
      modifies `workers
      ensures Valid() && workers == old(workers)[worker := Worker(None, old(workers[worker]).tasksProcessed + 1)]
    {
      workers := workers[worker := Worker(None, workers[worker].tasksProcessed + 1)];
    }
  }
}
