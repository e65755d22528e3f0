/** Two promises that the engine does not keep, each with a run that shows it. */
module EngineLimits {
  import opened Collections
  import opened Ids
  import opened LockTable
  import opened WaitFor
  import opened LockRuns
  import opened LockHolding
  import opened Records
  import opened Buffering
  import opened EngineState
  import opened EngineRuns

  /** An engine with nothing going on. */
  predicate Idle(s: State) {
    s.locks == map[] && s.active == map[] && s.trace == map[] && s.pool == map[]
  }

  /** The engine once transaction `t`, alone, has written `image` to `p`. */
  function Written(s: State, t: TxId, p: PageId, image: Bytes): State {
    s.(log := s.log + [Record.Begin(t), Update(t, p, At(s.disk, p), image)],
       locks := map[PageLock(s, p) := LockInfo(map[t := X], [])],
       pool := map[p := Frame(image, 0, true)],
       active := map[t := Tx(Running, [(p, At(s.disk, p))])],
       trace := map[t := [Wrote(p, image)]])
  }

  function WriterSteps(s: State, t: TxId, p: PageId, image: Bytes): seq<Action> {
    [Start(t), Lock(Ask(t, PageLock(s, p), X, 0)), Fetch(p), WritePage(t, p, image)]
  }

  lemma WriterRun(s: State, t: TxId, p: PageId, image: Bytes)
    requires Idle(s) && t !in Begun(s.log) && At(s.disk, p) != [] && image != []
    ensures EnabledRun(s, WriterSteps(s, t, p, image))
    ensures Execute(s, WriterSteps(s, t, p, image)) == Written(s, t, p, image)
  {
    hide At, Begun, Execute, EnabledRun;
    var r := PageLock(s, p);
    var s1 := Perform(s, Start(t));
    ExecuteOne(s, Start(t));
    assert Enabled(s1, Lock(Ask(t, r, X, 0)));
    var s2 := Perform(s1, Lock(Ask(t, r, X, 0)));
    assert s2.locks == map[r := LockInfo(map[t := X], [])];
    ExecuteThen(s, [Start(t)], Lock(Ask(t, r, X, 0)));
    var s3 := Perform(s2, Fetch(p));
    ExecuteThen(s, [Start(t)] + [Lock(Ask(t, r, X, 0))], Fetch(p));
    assert s3.pool == map[p := Frame(At(s.disk, p), 0, false)];
    ExecuteThen(s, [Start(t)] + [Lock(Ask(t, r, X, 0))] + [Fetch(p)], WritePage(t, p, image));
    var s4 := Perform(s3, WritePage(t, p, image));
    assert s.log + [Record.Begin(t)] + [Update(t, p, At(s.disk, p), image)] ==
           s.log + [Record.Begin(t), Update(t, p, At(s.disk, p), image)];
    assert s4.pool == map[p := Frame(image, 0, true)];
    assert [Start(t)] + [Lock(Ask(t, r, X, 0))] + [Fetch(p)] + [WritePage(t, p, image)] == WriterSteps(s, t, p, image);
    assert [] + [(p, At(s.disk, p))] == [(p, At(s.disk, p))];
    assert [] + [Wrote(p, image)] == [Wrote(p, image)];
    assert s4.active == map[t := Tx(Running, [(p, At(s.disk, p))])];
    assert s4.trace == map[t := [Wrote(p, image)]];
    assert s4 == Written(s, t, p, image);
  }

  const ABORT_STEPS: seq<Action> := [StartAbort(1), UndoWrite(1), EndAbort(1)]

  lemma ReleasedAlone(r: Resource, t: TxId)
    ensures Released(map[r := LockInfo(map[t := X], [])], t) == map[]
  {
    var table := map[r := LockInfo(map[t := X], [])];
    assert Without(table[r], t).holders == map[];
  }

  /** The engine once that transaction has undone its write. */
  function RolledBack(s: State, t: TxId, p: PageId, image: Bytes): State {
    var w := Written(s, t, p, image);
    w.(pool := map[], disk := Put(s.disk, p, At(s.disk, p)), active := map[t := Tx(Aborting(0), [(p, At(s.disk, p))])])
  }

  lemma RollBackRun(s: State, p: PageId, image: Bytes)
    ensures EnabledRun(Written(s, 1, p, image), [StartAbort(1), UndoWrite(1)])
    ensures Execute(Written(s, 1, p, image), [StartAbort(1), UndoWrite(1)]) == RolledBack(s, 1, p, image)
  {
    hide At, Put;
    var w, before := Written(s, 1, p, image), At(s.disk, p);
    ExecuteOne(w, StartAbort(1));
    var s1 := Perform(w, StartAbort(1));
    assert s1.active == map[1 := Tx(Aborting(1), [(p, before)])];
    ExecuteThen(w, [StartAbort(1)], UndoWrite(1));
    var s2 := Perform(s1, UndoWrite(1));
    assert s2.active == map[1 := Tx(Aborting(0), [(p, before)])];
    assert s2.pool == map[];
    assert [StartAbort(1)] + [UndoWrite(1)] == [StartAbort(1), UndoWrite(1)];
  }

  /** Aborting that transaction leaves the engine idle again, with its records in the log. */
  lemma AbortRun(s: State, p: PageId, image: Bytes)
    requires Idle(s)
    ensures EnabledRun(Written(s, 1, p, image), ABORT_STEPS)
    ensures Execute(Written(s, 1, p, image), ABORT_STEPS) ==
            s.(log := s.log + [Record.Begin(1), Update(1, p, At(s.disk, p), image), Record.Abort(1)],
               disk := Put(s.disk, p, At(s.disk, p)))
  {
    hide At, Put, Execute, EnabledRun;
    var w, before := Written(s, 1, p, image), At(s.disk, p);
    RollBackRun(s, p, image);
    ReleasedAlone(PageLock(s, p), 1);
    hide Released;
    ExecuteThen(w, [StartAbort(1), UndoWrite(1)], EndAbort(1));
    var s3 := Perform(RolledBack(s, 1, p, image), EndAbort(1));
    assert s3.active == map[] && s3.trace == map[];
    assert w.log + [Record.Abort(1)] == s.log + [Record.Begin(1), Update(1, p, before, image), Record.Abort(1)];
    assert [StartAbort(1), UndoWrite(1)] + [EndAbort(1)] == ABORT_STEPS;
  }

  lemma CommitRun(s: State, t: TxId, p: PageId, image: Bytes)
    requires Idle(s)
    ensures EnabledRun(Written(s, t, p, image), [LogCommit(t)])
    ensures Execute(Written(s, t, p, image), [LogCommit(t)]).log == Written(s, t, p, image).log + [Record.Commit(t)]
    ensures Execute(Written(s, t, p, image), [LogCommit(t)]).serial == s.serial + [[Wrote(p, image)]]
    ensures Execute(Written(s, t, p, image), [LogCommit(t)]).disk == s.disk
  {
    ExecuteOne(Written(s, t, p, image), LogCommit(t));
  }

  function LosingRun(doc: PageId -> int, disk: Disk, p: PageId, b: Bytes, c: Bytes): seq<Action> {
    WriterSteps(Opened(doc, disk), 1, p, b) + ABORT_STEPS + WriterSteps(Opened(doc, disk), 2, p, c) + [LogCommit(2)]
  }

  lemma LosingRunEnds(doc: PageId -> int, disk: Disk, p: PageId, b: Bytes, c: Bytes)
    requires At(disk, p) != [] && b != [] && c != []
    ensures EnabledRun(Opened(doc, disk), LosingRun(doc, disk, p, b, c))
    ensures var s := Execute(Opened(doc, disk), LosingRun(doc, disk, p, b, c));
            s.log == LosingRecords(p, At(disk, p), b, c) && s.serial == [[Wrote(p, c)]]
  {
    hide Perform, Enabled;
    var a := At(disk, p);
    var s0 := Opened(doc, disk);
    WriterRun(s0, 1, p, b);
    AbortRun(s0, p, b);
    var s1 := s0.(log := s0.log + [Record.Begin(1), Update(1, p, a, b), Record.Abort(1)], disk := Put(disk, p, a));
    AtPut(disk, p, a, p);
    WriterRun(s1, 2, p, c);
    CommitRun(s1, 2, p, c);
    hide Execute, EnabledRun, WriterSteps, At, Put;
    ExecuteConcat(s0, WriterSteps(s0, 1, p, b), ABORT_STEPS);
    ExecuteConcat(s0, WriterSteps(s0, 1, p, b) + ABORT_STEPS, WriterSteps(s1, 2, p, c));
    ExecuteConcat(s0, WriterSteps(s0, 1, p, b) + ABORT_STEPS + WriterSteps(s1, 2, p, c), [LogCommit(2)]);
    SameSteps(s0, s1, p, c);
    assert s1.log + [Record.Begin(2), Update(2, p, a, c)] + [Record.Commit(2)] == LosingRecords(p, a, b, c);
    assert [] + [[Wrote(p, c)]] == [[Wrote(p, c)]];
  }

  lemma SameSteps(s: State, s1: State, p: PageId, image: Bytes)
    requires s1.doc == s.doc
    ensures WriterSteps(s1, 2, p, image) == WriterSteps(s, 2, p, image)
  {
  }

  /**
    * A committed write is lost in a crash if an aborted transaction wrote the page before it: recovery undoes the
    * aborted transaction once more, over the committed contents.
    */
  lemma AbortThenCommitIsLost(doc: PageId -> int, disk: Disk, p: PageId, b: Bytes, c: Bytes)
    requires At(disk, p) != [] && b != [] && c != [] && c != At(disk, p)
    ensures EnabledRun(Opened(doc, disk), LosingRun(doc, disk, p, b, c))
    ensures var s := Execute(Opened(doc, disk), LosingRun(doc, disk, p, b, c));
            && Value(disk, s.serial, p) == c
            && Recovered(s.log, s.disk, p) == At(disk, p) != c
  {
    LosingRunEnds(doc, disk, p, b, c);
    hide Execute, EnabledRun, LosingRun, At, Recovered;
    LosingLog(disk, Execute(Opened(doc, disk), LosingRun(doc, disk, p, b, c)).disk, p, At(disk, p), b, c);
    assert LastWrite([Wrote(p, c)], p) == Some(c);
  }

  function LosingRecords(p: PageId, a: Bytes, b: Bytes, c: Bytes): seq<Record> {
    [Record.Begin(1), Update(1, p, a, b), Record.Abort(1), Record.Begin(2), Update(2, p, a, c), Record.Commit(2)]
  }

  lemma LosingLog(initial: Disk, d: Disk, p: PageId, a: Bytes, b: Bytes, c: Bytes)
    requires a != []
    ensures Recovered(LosingRecords(p, a, b, c), d, p) == a
  {
    var log := LosingRecords(p, a, b, c);
    assert log[0] == Record.Begin(1) && log[5] == Record.Commit(2);
    assert 1 in Begun(log) && 1 !in Committed(log);
    assert Undoes(log[1], Losers(log), p);
  }

  function ReaderSteps(u: TxId, r: Resource, p: PageId): seq<Action> {
    [Start(u), Lock(Ask(u, r, S, 0)), ReadPage(u, p), LogCommit(u)]
  }

  /** Nobody has used the id, and nobody holds or awaits the lock of the page. */
  ghost predicate CanRead(s: State, u: TxId, p: PageId) {
    PageLock(s, p) !in s.locks && u !in Begun(s.log) && u !in s.active && !IsWaiting(s.locks, u)
  }

  lemma ReaderLocks(s: State, u: TxId, p: PageId)
    requires CanRead(s, u, p)
    ensures var r := PageLock(s, p);
            && EnabledRun(s, [Start(u), Lock(Ask(u, r, S, 0))])
            && Execute(s, [Start(u), Lock(Ask(u, r, S, 0))]) ==
               s.(log := s.log + [Record.Begin(u)], locks := s.locks[r := LockInfo(map[u := S], [])],
                  active := s.active[u := Tx(Running, [])], trace := s.trace[u := []])
  {
    hide Begun, IsWaiting;
    var r := PageLock(s, p);
    ExecuteOne(s, Start(u));
    var s1 := Perform(s, Start(u));
    assert Enabled(s1, Lock(Ask(u, r, S, 0)));
    ExecuteThen(s, [Start(u)], Lock(Ask(u, r, S, 0)));
    assert Perform(s1, Lock(Ask(u, r, S, 0))).locks == s.locks[r := LockInfo(map[u := S], [])];
    assert [Start(u)] + [Lock(Ask(u, r, S, 0))] == [Start(u), Lock(Ask(u, r, S, 0))];
  }

  lemma ReaderCommits(s: State, u: TxId, p: PageId)
    requires CanRead(s, u, p)
    ensures EnabledRun(s, ReaderSteps(u, PageLock(s, p), p))
    ensures Execute(s, ReaderSteps(u, PageLock(s, p), p)).serial == s.serial + [[Saw(p, Shown(s, p))]]
  {
    hide Begun, View, Execute, EnabledRun, IsWaiting;
    ReaderLocks(s, u, p);
    var first := [Start(u), Lock(Ask(u, PageLock(s, p), S, 0))];
    var s2 := Execute(s, first);
    ExecuteThen(s, first, ReadPage(u, p));
    var s3 := Perform(s2, ReadPage(u, p));
    ExecuteThen(s, first + [ReadPage(u, p)], LogCommit(u));
    assert first + [ReadPage(u, p)] + [LogCommit(u)] == ReaderSteps(u, PageLock(s, p), p);
    assert [] + [Saw(p, Shown(s, p))] == [Saw(p, Shown(s, p))];
  }

  /**
    * Marking a victim that has written would break isolation: with its lock gone and its write not yet undone,
    * another transaction reads contents that were never committed.
    */
  lemma VictimThatWroteLeaks(doc: PageId -> int, disk: Disk, p: PageId, b: Bytes)
    requires At(disk, p) != [] && b != [] && b != At(disk, p)
    ensures var s0 := Opened(doc, disk);
            && EnabledRun(s0, WriterSteps(s0, 1, p, b)) && Execute(s0, WriterSteps(s0, 1, p, b)) == Written(s0, 1, p, b)
            && EnabledRun(Marked(Written(s0, 1, p, b), 1), ReaderSteps(2, PageLock(s0, p), p))
            && !Legal(disk, Execute(Marked(Written(s0, 1, p, b), 1), ReaderSteps(2, PageLock(s0, p), p)).serial)
  {
    hide Execute, EnabledRun, At;
    var s0 := Opened(doc, disk);
    WriterRun(s0, 1, p, b);
    ReleasedAlone(PageLock(s0, p), 1);
    hide Released, Perform, Enabled;
    assert s0.log == [];
    assert 2 !in Begun(Marked(Written(s0, 1, p, b), 1).log);
    ReaderCommits(Marked(Written(s0, 1, p, b), 1), 2, p);
    assert [] + [[Saw(p, b)]] == [[Saw(p, b)]];
    DirtyRead(disk, [], p, b);
  }

  lemma DirtyRead(disk: Disk, serial: seq<seq<Op>>, p: PageId, b: Bytes)
    requires b != Value(disk, serial, p)
    ensures !Legal(disk, serial + [[Saw(p, b)]])
  {
    hide Value;
    var all, ops := serial + [[Saw(p, b)]], [Saw(p, b)];
    var k := |serial|;
    assert all[..k] == serial && all[k] == ops && ops[..0] == [];
    assert !ReadsRight(disk, all[..k], all[k]) by {
      assert ops[0].Saw?;
    }
  }

  /** Once a victim with a changed page has given up its locks, any new transaction can read the change and commit. */
  lemma MarkedWriterLeaks(s: State, t: TxId, p: PageId, u: TxId, initial: Disk)
    requires InState(s, t, Running) && Shown(s, p) != Value(initial, s.serial, p)
    requires CanRead(Marked(s, t), u, p)
    ensures EnabledRun(Marked(s, t), ReaderSteps(u, PageLock(s, p), p))
    ensures !Legal(initial, Execute(Marked(s, t), ReaderSteps(u, PageLock(s, p), p)).serial)
  {
    hide Legal, Value, View, Execute, EnabledRun, CanRead, ReaderSteps;
    ReaderCommits(Marked(s, t), u, p);
    DirtyRead(initial, s.serial, p, Shown(s, p));
  }

  /** No run after the marking commits a transaction that has read what was never committed. */
  ghost predicate StaysLegal(s: State, initial: Disk) {
    forall run :: EnabledRun(s, run) ==> Legal(initial, Execute(s, run).serial)
  }

  /**
    * A running transaction whose every written page differs from its committed contents, and is awaited by nobody,
    * can be marked as a victim without harm exactly if it has written nothing.
    */
  lemma MarkingIsSafe(s: State, t: TxId, u: TxId, initial: Disk)
    requires Inv(s, initial) && InState(s, t, Running)
    requires forall i :: 0 <= i < |s.active[t].undo| ==>
               var p := s.active[t].undo[i].0;
               Shown(s, p) != Value(initial, s.serial, p) && CanRead(Marked(s, t), u, p)
    ensures StaysLegal(Marked(s, t), initial) <==> s.active[t].undo == []
  {
    hide Legal, Value, View, Execute, EnabledRun, CanRead, ReaderSteps, Inv, Released;
    if s.active[t].undo == [] {
      assert Perform(s, MarkVictim(t)) == Marked(s, t);
      forall run | EnabledRun(Marked(s, t), run)
        ensures Legal(initial, Execute(Marked(s, t), run).serial)
      {
        PerformKeeps(s, MarkVictim(t), initial);
        RunKeeps(Marked(s, t), run, initial);
        InvIsLegal(Execute(Marked(s, t), run), initial);
      }
    } else {
      var p := s.active[t].undo[0].0;
      MarkedWriterLeaks(s, t, p, u, initial);
    }
  }

  lemma InvIsLegal(s: State, initial: Disk)
    requires Inv(s, initial)
    ensures Legal(initial, s.serial)
  {
    hide LocksOk, Guarded, LogOk, Traced, Exclusive, Chained, ShowsRight, FileOk, Legal;
  }
}
