/** Every step of the engine keeps its invariants. */
module EngineKeeps {
  import opened Collections
  import opened Ids
  import opened LockTable
  import opened LockRuns
  import opened LockHolding
  import opened Records
  import opened Recovery
  import opened Buffering
  import opened EngineState
  import opened EngineLog

  lemma ShowsFrame(s: State, s1: State, initial: Disk, p: PageId)
    requires ShowsRight(s, initial, p) && Shown(s1, p) == Shown(s, p)
    requires Base(s1.log, |s1.log|, initial, p) == Base(s.log, |s.log|, initial, p)
    requires forall t :: Modifies(s1, t, p) <==> Modifies(s, t, p)
    requires forall t :: Modifies(s, t, p) && Modifies(s1, t, p) ==> OwnView(s1, t, p) == OwnView(s, t, p)
    ensures ShowsRight(s1, initial, p)
  {
    hide Modifies, OwnView, Base, View;
  }

  /** What the invariant says about one page. */
  lemma InvHolds(s: State, initial: Disk, p: PageId)
    requires Inv(s, initial)
    ensures LogOk(s.log, s.active) && Exclusive(s.log, s.active)
    ensures ShowsRight(s, initial, p)
    ensures Base(s.log, |s.log|, initial, p) == Value(initial, s.serial, p)
    ensures forall t :: t in s.active ==> t in s.trace && LastWrite(s.trace[t], p) == LastAfter(s.log, t, p)
  {
    hide LocksOk, Guarded, LogOk, Exclusive, Chained, FileOk, ShowsRight, Base, Value, Legal, ReadsRight;
  }

  /** Steps that touch only locks, frames and the file, and change nothing that a reader sees. */
  lemma SameLogKeeps(s: State, s1: State, initial: Disk)
    requires Inv(s, initial)
    requires s1.doc == s.doc && s1.log == s.log && s1.active == s.active && s1.trace == s.trace && s1.serial == s.serial
    requires LocksOk(s1.locks) && Guarded(s1) && FileOk(s1, initial)
    requires forall p :: Shown(s1, p) == Shown(s, p)
    ensures Inv(s1, initial)
  {
    hide LocksOk, Guarded, LogOk, Traced, Exclusive, Chained, FileOk, Base, View, LastAfter, FirstIn, Legal,
        ReadsRight, Value;
    forall p
      ensures ShowsRight(s1, initial, p)
    {
      assert ShowsRight(s, initial, p);
      ShowsFrame(s, s1, initial, p);
    }
  }

  lemma LockKeeps(s: State, step: Step, initial: Disk)
    requires Inv(s, initial) && Enabled(s, Lock(step))
    ensures Inv(Perform(s, Lock(step)), initial)
  {
    hide LocksOk, LogOk, Traced, Exclusive, Chained, ShowsRight, SerialOk, Holding, Apply, Allowed;
    var s1 := Perform(s, Lock(step));
    StepKeepsHolding(s.locks, step, Resource(0, 0), 0, S);
    forall t, i | t in s1.trace && 0 <= i < |s1.trace[t]|
      ensures Holding(s1.locks, PageLock(s1, s1.trace[t][i].page), t, LockMode(s1.trace[t][i]))
    {
      StepKeepsHolding(s.locks, step, PageLock(s, s.trace[t][i].page), t, LockMode(s.trace[t][i]));
    }
    SameLogKeeps(s, s1, initial);
  }

  lemma FetchKeeps(s: State, p: PageId, initial: Disk)
    requires Inv(s, initial) && Enabled(s, Fetch(p))
    ensures Inv(Perform(s, Fetch(p)), initial)
  {
    hide LocksOk, LogOk, Traced, Exclusive, Chained, ShowsRight, SerialOk, Holding, At, NoUpdates;
    SameLogKeeps(s, Perform(s, Fetch(p)), initial);
  }

  /** A page without updates in the log is never written back with other than its initial contents. */
  lemma UntouchedShows(s: State, initial: Disk, p: PageId)
    requires LogOk(s.log, s.active) && ShowsRight(s, initial, p) && NoUpdates(s.log, p)
    ensures Shown(s, p) == At(initial, p)
  {
    hide View, At, ReadsRight;
    forall t
      ensures !Modifies(s, t, p)
    {
      SomeUpdate(s.log, s.active, t, p);
    }
    assert s.log[..|s.log|] == s.log;
    assert forall k :: 0 <= k < |s.log| ==> !Redoes(s.log[k], Committed(s.log), p);
  }

  lemma FlushKeepsFile(s: State, p: PageId, initial: Disk)
    requires Inv(s, initial) && p in s.pool
    ensures FileOk(s.(disk := Flushed(s.pool, s.disk, p)), initial)
    ensures forall q :: View(s.pool, Flushed(s.pool, s.disk, p), q) == Shown(s, q)
    ensures At(Flushed(s.pool, s.disk, p), p) == s.pool[p].page
  {
    hide LocksOk, LogOk, Traced, Exclusive, Chained, SerialOk, Holding, ShowsRight, Guarded, NoUpdates, Flushed, At;
    var d := Flushed(s.pool, s.disk, p);
    forall q
      ensures At(d, q) == if q == p then s.pool[p].page else At(s.disk, q)
    {
      FlushedAt(s.pool, s.disk, p, q);
    }
    assert ShowsRight(s, initial, p);
    if NoUpdates(s.log, p) {
      UntouchedShows(s, initial, p);
    }
  }

  lemma EvictKeeps(s: State, p: PageId, initial: Disk)
    requires Inv(s, initial) && Enabled(s, Evict(p))
    ensures Inv(Perform(s, Evict(p)), initial)
  {
    FlushKeepsFile(s, p, initial);
    hide LocksOk, LogOk, Traced, Exclusive, Chained, ShowsRight, SerialOk, Holding, At, NoUpdates, Flushed;
    SameLogKeeps(s, Perform(s, Evict(p)), initial);
  }

  lemma FlushKeeps(s: State, p: PageId, initial: Disk)
    requires Inv(s, initial) && Enabled(s, Flush(p))
    ensures Inv(Perform(s, Flush(p)), initial)
  {
    hide LocksOk, LogOk, Traced, Exclusive, Chained, ShowsRight, SerialOk, Holding, At, NoUpdates, Flushed;
    if p in s.pool {
      FlushKeepsFile(s, p, initial);
      SameLogKeeps(s, Perform(s, Flush(p)), initial);
    }
  }

  /** Whoever may read a page is the only unfinished transaction that can have updated it. */
  lemma HolderIsWriter(s: State, t: TxId, u: TxId, p: PageId)
    requires LocksOk(s.locks) && Guarded(s) && Traced(s.log, s.active, s.trace)
    requires Holding(s.locks, PageLock(s, p), t, S) && u in s.active && LastAfter(s.log, u, p).Some?
    ensures u == t
  {
    hide LocksOk, LastAfter, FirstIn, FirstBefore, Holding;
    assert LastWrite(s.trace[u], p) == LastAfter(s.log, u, p);
    var k := LastWriteAt(s.trace[u], p);
    ExclusiveIsAlone(s.locks, PageLock(s, p), u, t, S);
  }

  /** What the holder of a page's lock reads: its own last write, or the last committed contents. */
  lemma HolderSees(s: State, t: TxId, p: PageId, initial: Disk)
    requires Inv(s, initial) && InState(s, t, Running) && Holding(s.locks, PageLock(s, p), t, S)
    ensures Shown(s, p) == match LastAfter(s.log, t, p) case Some(v) => v case None => Base(s.log, |s.log|, initial, p)
  {
    assert ShowsRight(s, initial, p);
    hide LocksOk, Guarded, LogOk, Traced, Exclusive, Chained, FileOk, SerialOk, Base, View, LastAfter, Holding,
        PageLock;
    forall u | Modifies(s, u, p)
      ensures u == t
    {
      HolderIsWriter(s, t, u, p);
    }
    if LastAfter(s.log, t, p).Some? {
      assert Modifies(s, t, p);
      assert s.active[t].undo[Left(s.active[t])..] == [];
    }
  }

  /** What is read agrees with the serial execution so far. */
  lemma ReadIsRight(s: State, t: TxId, p: PageId, initial: Disk)
    requires Inv(s, initial) && Enabled(s, ReadPage(t, p))
    ensures t in s.trace && ReadsRight(initial, s.serial, s.trace[t] + [Saw(p, Shown(s, p))])
  {
    HolderSees(s, t, p, initial);
    hide LocksOk, Guarded, LogOk, Exclusive, Chained, FileOk, ShowsRight, Base, View, LastAfter, FirstBefore,
        FirstIn, Holding, LastWrite, Value, Legal;
    assert LastWrite(s.trace[t], p) == LastAfter(s.log, t, p);
    assert Base(s.log, |s.log|, initial, p) == Value(initial, s.serial, p);
    assert ReadsRight(initial, s.serial, s.trace[t]);
    hide ReadsRight;
    ReadsRightAppend(initial, s.serial, s.trace[t], Saw(p, Shown(s, p)));
  }

  lemma ReadTraced(s: State, t: TxId, op: Op)
    requires Traced(s.log, s.active, s.trace) && t in s.trace && op.Saw?
    ensures Traced(s.log, s.active, s.trace[t := s.trace[t] + [op]])
  {
    hide LastAfter, FirstBefore, FirstIn, LastWrite;
    var trace1 := s.trace[t := s.trace[t] + [op]];
    forall u, q | u in s.active
      ensures LastWrite(trace1[u], q) == LastAfter(s.log, u, q)
    {
      assert LastWrite(s.trace[u], q) == LastAfter(s.log, u, q);
      LastWriteAppend(s.trace[t], op, q);
    }
  }

  lemma ReadKeeps(s: State, t: TxId, p: PageId, initial: Disk)
    requires Inv(s, initial) && Enabled(s, ReadPage(t, p))
    ensures Inv(Perform(s, ReadPage(t, p)), initial)
  {
    hide LocksOk, Guarded, LogOk, Traced, Exclusive, Chained, FileOk, SerialOk, Base, View, LastAfter, FirstIn,
        Holding, PageLock, ReadsRight;
    var s1, op := Perform(s, ReadPage(t, p)), Saw(p, Shown(s, p));
    ReadIsRight(s, t, p, initial);
    ReadTraced(s, t, op);
    ReadSerial(s, t, p, initial);
    ReadGuard(s, t, op);
    FileFrame(s, s1, initial);
    forall q
      ensures ShowsRight(s1, initial, q)
    {
      assert ShowsRight(s, initial, q);
      ShowsFrame(s, s1, initial, q);
    }
  }

  lemma FileFrame(s: State, s1: State, initial: Disk)
    requires FileOk(s, initial) && s1.disk == s.disk && s1.pool == s.pool
    requires forall p :: NoUpdates(s1.log, p) ==> NoUpdates(s.log, p)
    ensures FileOk(s1, initial)
  {
  }

  lemma ReadGuard(s: State, t: TxId, op: Op)
    requires Guarded(s) && t in s.trace && Holding(s.locks, PageLock(s, op.page), t, LockMode(op))
    ensures Guarded(s.(trace := s.trace[t := s.trace[t] + [op]]))
  {
    hide Holding;
  }

  lemma ReadSerial(s: State, t: TxId, p: PageId, initial: Disk)
    requires SerialOk(s, initial) && Enabled(s, ReadPage(t, p))
    requires ReadsRight(initial, s.serial, s.trace[t] + [Saw(p, Shown(s, p))])
    ensures SerialOk(Perform(s, ReadPage(t, p)), initial)
  {
    hide ReadsRight, Legal, Value, Base, View, Holding;
  }

  // ---------------------------------------------------------------------
  // Writing
  // ---------------------------------------------------------------------

  lemma WriteLog(s: State, t: TxId, p: PageId, image: Bytes)
    requires LogOk(s.log, s.active) && Enabled(s, WritePage(t, p, image))
    ensures LogOk(Perform(s, WritePage(t, p, image)).log, Perform(s, WritePage(t, p, image)).active)
    ensures Committed(Perform(s, WritePage(t, p, image)).log) == Committed(s.log) && t !in Committed(s.log)
  {
    hide Holding, View, Begun, Committed;
    var r := Update(t, p, Shown(s, p), image);
    BegunNext(s.log, r);
    var log1 := s.log + [r];
    assert forall i :: 0 <= i < |s.log| ==> log1[i] == s.log[i];
  }

  lemma WriteTraced(s: State, t: TxId, p: PageId, image: Bytes)
    requires Traced(s.log, s.active, s.trace) && Enabled(s, WritePage(t, p, image))
    ensures var s1 := Perform(s, WritePage(t, p, image)); Traced(s1.log, s1.active, s1.trace)
  {
    hide Holding, View, LastWrite, LastAfter, FirstIn, FirstBefore;
    var s1, b := Perform(s, WritePage(t, p, image)), Shown(s, p);
    var r := Update(t, p, b, image);
    forall u, q | u in s1.active
      ensures LastWrite(s1.trace[u], q) == LastAfter(s1.log, u, q)
    {
      assert LastWrite(s.trace[u], q) == LastAfter(s.log, u, q);
      AfterAppend(s.log, r, u, q);
      LastWriteAppend(s.trace[t], Wrote(p, image), q);
    }
    forall u, q | u in s1.active
      ensures FirstIn(s1.active[u].undo, q) == FirstBefore(s1.log, u, q)
    {
      assert FirstIn(s.active[u].undo, q) == FirstBefore(s.log, u, q);
      BeforeAppend(s.log, r, u, q);
      FirstInAppend(s.active[t].undo, (p, b), q);
    }
  }

  lemma WriteExclusive(s: State, t: TxId, p: PageId, image: Bytes)
    requires LocksOk(s.locks) && Guarded(s) && LogOk(s.log, s.active) && Traced(s.log, s.active, s.trace)
    requires Exclusive(s.log, s.active) && Enabled(s, WritePage(t, p, image))
    ensures var s1 := Perform(s, WritePage(t, p, image)); Exclusive(s1.log, s1.active)
  {
    hide LocksOk, Guarded, LogOk, Traced, LastAfter, View, Holding;
    var log1 := s.log + [Update(t, p, Shown(s, p), image)];
    WriterReads(s, t, p);
    forall i | 0 <= i < |s.log| && log1[i].Update? && log1[i].txId in s.active && log1[i].pageId == p
      ensures log1[i].txId == t
    {
      UpdateShows(s.log, s.active, i);
      HolderIsWriter(s, t, s.log[i].txId, p);
    }
    assert forall i :: 0 <= i < |s.log| ==> log1[i] == s.log[i];
  }

  lemma WriterReads(s: State, t: TxId, p: PageId)
    ensures Holding(s.locks, PageLock(s, p), t, X) ==> Holding(s.locks, PageLock(s, p), t, S)
  {
  }

  lemma WriteChained(s: State, t: TxId, p: PageId, image: Bytes, initial: Disk)
    requires Inv(s, initial) && Enabled(s, WritePage(t, p, image))
    ensures Chained(Perform(s, WritePage(t, p, image)).log, initial)
  {
    WriterReads(s, t, p);
    HolderSees(s, t, p, initial);
    WriteLog(s, t, p, image);
    hide LocksOk, Guarded, LogOk, Traced, Exclusive, FileOk, SerialOk, ShowsRight, Base, View, Holding, Committed;
    var r := Update(t, p, Shown(s, p), image);
    var log1 := s.log + [r];
    forall i | 0 <= i < |log1| && log1[i].Update? && log1[i].txId !in Committed(log1) &&
        FirstUndo(log1, {log1[i].txId}, log1[i].pageId) == i
      ensures log1[i].before == Base(log1, i, initial, log1[i].pageId)
    {
      BaseAppend(s.log, r, i, initial, log1[i].pageId);
      UndoAppend(s.log, r, {log1[i].txId}, log1[i].pageId);
      SomeUpdate(s.log, s.active, t, p);
    }
  }

  lemma WriteAfter(s: State, t: TxId, p: PageId, image: Bytes, initial: Disk, q: PageId)
    requires LogOk(s.log, s.active) && Enabled(s, WritePage(t, p, image))
    ensures var s1 := Perform(s, WritePage(t, p, image));
            && Base(s1.log, |s1.log|, initial, q) == Base(s.log, |s.log|, initial, q)
            && forall u :: LastAfter(s1.log, u, q) == if u == t && q == p then Some(image) else LastAfter(s.log, u, q)
  {
    WriteLog(s, t, p, image);
    hide LogOk, Base, Holding, Committed, LastAfter, View;
    var s1, r := Perform(s, WritePage(t, p, image)), Update(t, p, Shown(s, p), image);
    BaseAppend(s.log, r, 0, initial, q);
    forall u
      ensures LastAfter(s1.log, u, q) == if u == t && q == p then Some(image) else LastAfter(s.log, u, q)
    {
      AfterAppend(s.log, r, u, q);
    }
  }

  lemma WriteElsewhere(s: State, t: TxId, p: PageId, image: Bytes, initial: Disk, q: PageId)
    requires LogOk(s.log, s.active) && ShowsRight(s, initial, q) && Enabled(s, WritePage(t, p, image)) && q != p
    ensures ShowsRight(Perform(s, WritePage(t, p, image)), initial, q)
  {
    WriteAfter(s, t, p, image, initial, q);
    hide LogOk, Base, Holding, Committed, LastAfter, FirstIn, At;
    var s1 := Perform(s, WritePage(t, p, image));
    assert s1.active[t].undo[|s1.active[t].undo|..] == [] && s.active[t].undo[|s.active[t].undo|..] == [];
    ShowsFrame(s, s1, initial, q);
  }

  lemma WriteHere(s: State, t: TxId, p: PageId, image: Bytes, initial: Disk)
    requires Inv(s, initial) && Enabled(s, WritePage(t, p, image))
    ensures ShowsRight(Perform(s, WritePage(t, p, image)), initial, p)
  {
    WriterReads(s, t, p);
    WriteAfter(s, t, p, image, initial, p);
    hide LocksOk, Guarded, LogOk, Traced, Exclusive, Chained, FileOk, SerialOk, Base, Holding, Committed, LastAfter,
        FirstIn, At;
    var s1 := Perform(s, WritePage(t, p, image));
    forall u | Modifies(s1, u, p)
      ensures u == t
    {
      if u != t {
        HolderIsWriter(s, t, u, p);
      }
    }
    NoneLeft(s1.active[t].undo, p);
    assert Modifies(s1, t, p) && OwnView(s1, t, p) == image;
  }

  lemma NoneLeft(undo: seq<(PageId, Bytes)>, p: PageId)
    ensures FirstIn(undo[|undo|..], p) == None
  {
  }

  lemma WriteRest(s: State, t: TxId, p: PageId, image: Bytes, initial: Disk)
    requires Guarded(s) && FileOk(s, initial) && SerialOk(s, initial) && Traced(s.log, s.active, s.trace)
    requires Enabled(s, WritePage(t, p, image))
    requires forall q ::
             Base(s.log + [Update(t, p, Shown(s, p), image)], |s.log| + 1, initial, q) ==
             Base(s.log, |s.log|, initial, q)
    ensures var s1 := Perform(s, WritePage(t, p, image)); Guarded(s1) && FileOk(s1, initial) && SerialOk(s1, initial)
  {
    hide Holding, View, At, Base, Value, ReadsRight, Legal, LastAfter, FirstBefore, FirstIn, LastWrite;
    var s1 := Perform(s, WritePage(t, p, image));
    assert forall q :: NoUpdates(s1.log, q) ==> NoUpdates(s.log, q) by {
      assert forall i :: 0 <= i < |s.log| ==> s1.log[i] == s.log[i];
    }
    ReadsRightAppend(initial, s.serial, s.trace[t], Wrote(p, image));
  }

  lemma WriteKeeps(s: State, t: TxId, p: PageId, image: Bytes, initial: Disk)
    requires Inv(s, initial) && Enabled(s, WritePage(t, p, image))
    ensures Inv(Perform(s, WritePage(t, p, image)), initial)
  {
    hide LocksOk, Guarded, LogOk, Traced, Exclusive, Chained, FileOk, SerialOk, ShowsRight, Base, Holding, View;
    WriteLog(s, t, p, image);
    WriteTraced(s, t, p, image);
    WriteExclusive(s, t, p, image);
    WriteChained(s, t, p, image, initial);
    var s1 := Perform(s, WritePage(t, p, image));
    forall q
      ensures ShowsRight(s1, initial, q)
      ensures Base(s1.log, |s1.log|, initial, q) == Base(s.log, |s.log|, initial, q)
    {
      assert ShowsRight(s, initial, q);
      WriteAfter(s, t, p, image, initial, q);
      if q == p {
        WriteHere(s, t, p, image, initial);
      } else {
        WriteElsewhere(s, t, p, image, initial, q);
      }
    }
    WriteRest(s, t, p, image, initial);
  }

  // ---------------------------------------------------------------------
  // Committing
  // ---------------------------------------------------------------------

  /** Committing moves the committed contents of a page to what its writer last wrote, and of other pages not at all. */
  lemma CommitBase(s: State, t: TxId, initial: Disk, p: PageId)
    requires LogOk(s.log, s.active) && Exclusive(s.log, s.active) && t in s.active
    ensures Base(s.log + [Commit(t)], |s.log| + 1, initial, p) ==
            match LastAfter(s.log, t, p) case Some(v) => v case None => Base(s.log, |s.log|, initial, p)
  {
    hide Begun, Committed;
    if LastAfter(s.log, t, p).Some? {
      hide LogOk;
      BaseCommitOwn(s.log, t, initial, p);
    } else {
      NoUpdateBy(s.log, s.active, t, p);
      BaseCommit(s.log, t, |s.log|, initial, p);
      BaseTail(s.log, Commit(t), initial, p);
    }
  }

  lemma NoUpdateBy(log: seq<Record>, active: map<TxId, Tx>, t: TxId, p: PageId)
    requires LogOk(log, active) && LastAfter(log, t, p) == None
    ensures forall i :: 0 <= i < |log| ==> !Updates(log[i], {t}, p)
  {
    forall i | 0 <= i < |log|
      ensures !Updates(log[i], {t}, p)
    {
      assert !Redoes(log[i], {t}, p);
    }
  }

  lemma BaseTail(log: seq<Record>, r: Record, initial: Disk, p: PageId)
    requires !r.Update?
    ensures Base(log + [r], |log| + 1, initial, p) == Base(log + [r], |log|, initial, p)
  {
    assert (log + [r])[..|log|] == log && (log + [r])[..|log| + 1] == log + [r];
    RedoneAppend(log, r, Committed(log + [r]), p, At(initial, p));
  }

  /** Records other than updates and commits leave every history function alone. */
  lemma NeutralHistory(log: seq<Record>, r: Record, t: TxId, p: PageId)
    requires !r.Update?
    ensures LastAfter(log + [r], t, p) == LastAfter(log, t, p)
    ensures FirstBefore(log + [r], t, p) == FirstBefore(log, t, p)
  {
    AfterAppend(log, r, t, p);
    BeforeAppend(log, r, t, p);
  }

  lemma NeutralExclusive(log: seq<Record>, r: Record, active: map<TxId, Tx>, active1: map<TxId, Tx>)
    requires Exclusive(log, active) && !r.Update?
    requires forall i :: 0 <= i < |log| && log[i].Update? && log[i].txId in active1 ==> log[i].txId in active
    ensures Exclusive(log + [r], active1)
  {
    assert forall i :: 0 <= i < |log| ==> (log + [r])[i] == log[i];
  }

  lemma CommitChained(s: State, t: TxId, initial: Disk)
    requires LogOk(s.log, s.active) && Exclusive(s.log, s.active) && Chained(s.log, initial) && t in s.active
    ensures Chained(s.log + [Commit(t)], initial)
  {
    hide LogOk, Base;
    var log1 := s.log + [Commit(t)];
    BegunNext(s.log, Commit(t));
    hide Committed;
    forall i | 0 <= i < |log1| && log1[i].Update? && log1[i].txId !in Committed(log1) &&
        FirstUndo(log1, {log1[i].txId}, log1[i].pageId) == i
      ensures log1[i].before == Base(log1, i, initial, log1[i].pageId)
    {
      UndoAppend(s.log, Commit(t), {log1[i].txId}, log1[i].pageId);
      assert log1[i] == s.log[i];
      forall j | 0 <= j < i
        ensures !Updates(s.log[j], {t}, log1[i].pageId)
      {
      }
      BaseCommit(s.log, t, i, initial, log1[i].pageId);
    }
  }

  lemma CommitModifies(s: State, t: TxId, u: TxId, p: PageId)
    requires Enabled(s, LogCommit(t))
    ensures var s1 := Perform(s, LogCommit(t));
            && (Modifies(s1, u, p) <==> Modifies(s, u, p) && u != t)
            && (Modifies(s1, u, p) ==> OwnView(s1, u, p) == OwnView(s, u, p))
            && (Modifies(s, t, p) ==> LastAfter(s.log, t, p) == Some(OwnView(s, t, p)))
            && (!Modifies(s, t, p) ==> LastAfter(s.log, t, p) == None)
            && Shown(s1, p) == Shown(s, p)
  {
    hide LastAfter, FirstIn, View;
    NeutralHistory(s.log, Record.Commit(t), u, p);
    NeutralHistory(s.log, Record.Commit(t), t, p);
    NoneLeft(s.active[t].undo, p);
  }

  lemma CommitShows(s: State, t: TxId, initial: Disk, p: PageId)
    requires Inv(s, initial) && Enabled(s, LogCommit(t))
    ensures ShowsRight(Perform(s, LogCommit(t)), initial, p)
  {
    hide Inv, Enabled, Perform, Modifies, OwnView, Base, LastAfter, View, LogOk, Exclusive;
    var s1 := Perform(s, LogCommit(t));
    InvHolds(s, initial, p);
    CommitAppends(s, t);
    CommitBase(s, t, initial, p);
    assert |s1.log| == |s.log| + 1;
    forall u
      ensures Modifies(s1, u, p) <==> Modifies(s, u, p) && u != t
      ensures Modifies(s1, u, p) ==> OwnView(s1, u, p) == OwnView(s, u, p)
    {
      CommitModifies(s, t, u, p);
    }
    CommitModifies(s, t, t, p);
    if Modifies(s, t, p) {
      WriterAlone(s, t, initial, p);
    }
  }

  lemma CommitAppends(s: State, t: TxId)
    requires Enabled(s, LogCommit(t))
    ensures t in s.active && t in s.trace
    ensures var s1 := Perform(s, LogCommit(t));
            && s1.log == s.log + [Record.Commit(t)] && s1.serial == s.serial + [s.trace[t]] && s1.trace == s.trace
            && s1.active.Keys == s.active.Keys && s1.active[t].status.Committing?
            && forall u :: u in s.active && u != t ==> s1.active[u] == s.active[u]
  {
  }

  lemma WriterAlone(s: State, t: TxId, initial: Disk, p: PageId)
    requires Inv(s, initial) && Modifies(s, t, p)
    ensures forall u :: Modifies(s, u, p) ==> u == t
  {
    hide LocksOk, Guarded, LogOk, Traced, Chained, ShowsRight, FileOk, SerialOk, LastAfter;
    forall u | Modifies(s, u, p)
      ensures u == t
    {
      OneWriter(s.log, s.active, t, u, p);
    }
  }

  lemma CommitSerial(s: State, t: TxId, initial: Disk)
    requires Inv(s, initial) && Enabled(s, LogCommit(t))
    ensures SerialOk(Perform(s, LogCommit(t)), initial)
  {
    hide Inv, Enabled, Perform, Base, Value, Legal, ReadsRight, LastAfter, LastWrite, LogOk, Exclusive, ShowsRight;
    CommitAppends(s, t);
    var s1, serial1 := Perform(s, LogCommit(t)), s.serial + [s.trace[t]];
    forall p
      ensures Base(s1.log, |s1.log|, initial, p) == Value(initial, serial1, p)
    {
      InvHolds(s, initial, p);
      CommitBase(s, t, initial, p);
      ValueNext(initial, s.serial, s.trace[t], p);
    }
    CommitLegal(s, t, initial);
    forall u | u in s1.trace && u in s1.active && !s1.active[u].status.Committing?
      ensures ReadsRight(initial, serial1, s1.trace[u])
    {
      InvReads(s, initial, u);
      ReadersUnaffected(s, t, u, initial);
    }
  }

  lemma ValueNext(initial: Disk, serial: seq<seq<Op>>, ops: seq<Op>, p: PageId)
    ensures Value(initial, serial + [ops], p) ==
            match LastWrite(ops, p)
            case Some(v) => v
            case None => Value(initial, serial, p)
  {
    hide LastWrite;
    assert (serial + [ops])[..|serial|] == serial;
  }

  lemma InvReads(s: State, initial: Disk, u: TxId)
    requires Inv(s, initial) && u in s.trace && u in s.active && !s.active[u].status.Committing?
    ensures ReadsRight(initial, s.serial, s.trace[u]) && LocksOk(s.locks) && Guarded(s)
  {
    hide ReadsRight, LocksOk, Guarded, LogOk, Traced, Exclusive, Chained, ShowsRight, FileOk, Legal;
  }

  lemma CommitLegal(s: State, t: TxId, initial: Disk)
    requires Inv(s, initial) && Enabled(s, LogCommit(t)) && t in s.trace
    ensures Legal(initial, s.serial + [s.trace[t]])
  {
    hide ReadsRight, LocksOk, Guarded, LogOk, Exclusive, Chained, ShowsRight, FileOk, Traced;
    var serial1 := s.serial + [s.trace[t]];
    assert serial1[..|s.serial|] == s.serial;
    forall k | 0 <= k < |serial1|
      ensures ReadsRight(initial, serial1[..k], serial1[k])
    {
      assert k < |s.serial| ==> serial1[..k] == s.serial[..k];
    }
  }

  /** A commit does not change what other unfinished transactions have read. */
  lemma ReadersUnaffected(s: State, t: TxId, u: TxId, initial: Disk)
    requires LocksOk(s.locks) && Guarded(s) && t in s.trace && u in s.trace && u != t
    requires ReadsRight(initial, s.serial, s.trace[u])
    ensures ReadsRight(initial, s.serial + [s.trace[t]], s.trace[u])
  {
    hide LocksOk, Holding, LastWrite;
    var ops, serial1 := s.trace[u], s.serial + [s.trace[t]];
    assert serial1[..|s.serial|] == s.serial;
    forall k | 0 <= k < |ops| && ops[k].Saw?
      ensures Value(initial, serial1, ops[k].page) == Value(initial, s.serial, ops[k].page)
    {
      var p := ops[k].page;
      if LastWrite(s.trace[t], p).Some? {
        var j := LastWriteAt(s.trace[t], p);
        ExclusiveIsAlone(s.locks, PageLock(s, p), t, u, S);
        assert false;
      }
    }
  }

  lemma CommitLog(s: State, t: TxId)
    requires LogOk(s.log, s.active) && Traced(s.log, s.active, s.trace) && Enabled(s, LogCommit(t))
    ensures var s1 := Perform(s, LogCommit(t)); LogOk(s1.log, s1.active) && Traced(s1.log, s1.active, s1.trace)
  {
    var s1 := Perform(s, LogCommit(t));
    BegunNext(s.log, Commit(t));
    hide Begun, Committed, LastWrite, LastAfter, FirstIn, FirstBefore;
    assert forall i :: 0 <= i < |s.log| ==> s1.log[i] == s.log[i];
    NeutralTraced(s, s1, Commit(t));
  }

  /** Appending a record that is no update, with undo lists and traces unchanged or gone. */
  lemma NeutralTraced(s: State, s1: State, r: Record)
    requires Traced(s.log, s.active, s.trace) && !r.Update? && s1.log == s.log + [r]
    requires s1.active.Keys == s1.trace.Keys && s1.active.Keys <= s.active.Keys
    requires forall t :: t in s1.active ==> s1.active[t].undo == s.active[t].undo && s1.trace[t] == s.trace[t]
    requires forall t :: t in s1.active && s1.active[t].status != s.active[t].status ==> s1.active[t].status.Committing?
    ensures Traced(s1.log, s1.active, s1.trace)
  {
    hide LastWrite, LastAfter, FirstIn, FirstBefore;
    forall t, p | t in s1.active
      ensures LastWrite(s1.trace[t], p) == LastAfter(s1.log, t, p)
      ensures FirstIn(s1.active[t].undo, p) == FirstBefore(s1.log, t, p)
    {
      NeutralHistory(s.log, r, t, p);
      assert LastWrite(s.trace[t], p) == LastAfter(s.log, t, p);
      assert FirstIn(s.active[t].undo, p) == FirstBefore(s.log, t, p);
    }
  }

  lemma NeutralFile(s: State, s1: State, r: Record, initial: Disk)
    requires FileOk(s, initial) && !r.Update? && s1.log == s.log + [r] && s1.disk == s.disk && s1.pool == s.pool
    ensures FileOk(s1, initial)
  {
    assert forall i :: 0 <= i < |s.log| ==> s1.log[i] == s.log[i];
    FileFrame(s, s1, initial);
  }

  lemma LogCommitKeeps(s: State, t: TxId, initial: Disk)
    requires Inv(s, initial) && Enabled(s, LogCommit(t))
    ensures Inv(Perform(s, LogCommit(t)), initial)
  {
    hide LocksOk, LogOk, Traced, Exclusive, Chained, FileOk, SerialOk, ShowsRight, Base, Holding;
    var s1 := Perform(s, LogCommit(t));
    CommitLog(s, t);
    NeutralExclusive(s.log, Commit(t), s.active, s1.active);
    CommitChained(s, t, initial);
    forall p
      ensures ShowsRight(s1, initial, p)
    {
      CommitShows(s, t, initial, p);
    }
    NeutralFile(s, s1, Commit(t), initial);
    CommitSerial(s, t, initial);
  }

  // ---------------------------------------------------------------------
  // Starting and ending
  // ---------------------------------------------------------------------

  /** Releasing a transaction's locks leaves those of the others in place. */
  lemma ReleaseKeepsGuards(s: State, t: TxId, trace1: map<TxId, seq<Op>>, s1: State)
    requires LocksOk(s.locks) && Guarded(s) && s1.doc == s.doc && s1.locks == Released(s.locks, t) && s1.trace == trace1
    requires forall u :: u in trace1 ==> (u in s.trace && u != t && trace1[u] == s.trace[u]) || trace1[u] == []
    ensures LocksOk(s1.locks) && Guarded(s1)
  {
    hide LocksOk, Holding;
    StepKeepsHolding(s.locks, Finish(t), Resource(0, 0), 0, S);
    forall u, i | u in s1.trace && 0 <= i < |s1.trace[u]|
      ensures Holding(s1.locks, PageLock(s1, s1.trace[u][i].page), u, LockMode(s1.trace[u][i]))
    {
      StepKeepsHolding(s.locks, Finish(t), PageLock(s, s.trace[u][i].page), u, LockMode(s.trace[u][i]));
    }
  }

  /** The invariants of the log after appending a begin or abort record. */
  lemma NeutralLog(s: State, s1: State, r: Record, initial: Disk)
    requires LogOk(s.log, s.active) && Chained(s.log, initial) && (r.Begin? || r.Abort?) && s1.log == s.log + [r]
    requires forall t :: t in s1.active ==>
               (t in s.active && (s1.active[t].status.Committing? <==> s.active[t].status.Committing?))
               || (r == Begin(t) && t !in Begun(s.log) && !s1.active[t].status.Committing?)
    ensures LogOk(s1.log, s1.active) && Chained(s1.log, initial)
    ensures forall p :: Base(s1.log, |s1.log|, initial, p) == Base(s.log, |s.log|, initial, p)
  {
    BegunNext(s.log, r);
    hide Begun, Committed, Base;
    assert forall i :: 0 <= i < |s.log| ==> s1.log[i] == s.log[i];
    forall i | 0 <= i < |s1.log| && s1.log[i].Update? && s1.log[i].txId !in Committed(s1.log) &&
        FirstUndo(s1.log, {s1.log[i].txId}, s1.log[i].pageId) == i
      ensures s1.log[i].before == Base(s1.log, i, initial, s1.log[i].pageId)
    {
      UndoAppend(s.log, r, {s1.log[i].txId}, s1.log[i].pageId);
      BaseAppend(s.log, r, i, initial, s1.log[i].pageId);
    }
    forall p
      ensures Base(s1.log, |s1.log|, initial, p) == Base(s.log, |s.log|, initial, p)
    {
      BaseAppend(s.log, r, 0, initial, p);
    }
  }

  lemma SerialFrame(s: State, s1: State, initial: Disk)
    requires SerialOk(s, initial) && s1.serial == s.serial
    requires forall p :: Base(s1.log, |s1.log|, initial, p) == Base(s.log, |s.log|, initial, p)
    requires forall t :: t in s1.trace && t in s1.active && !s1.active[t].status.Committing? ==>
               s1.trace[t] == [] ||
               (t in s.trace && t in s.active && !s.active[t].status.Committing? && s1.trace[t] == s.trace[t])
    ensures SerialOk(s1, initial)
  {
    hide Legal, ReadsRight, Base, Value;
    ReadsNothing(initial, s.serial);
  }

  lemma ReadsNothing(initial: Disk, serial: seq<seq<Op>>)
    ensures ReadsRight(initial, serial, [])
  {
  }

  lemma NeverBegan(s: State, t: TxId)
    requires LogOk(s.log, s.active) && t !in Begun(s.log)
    ensures forall p :: LastAfter(s.log, t, p) == None && FirstBefore(s.log, t, p) == None
  {
    hide LogOk, LastAfter, FirstBefore;
    forall p
      ensures LastAfter(s.log, t, p) == None && FirstBefore(s.log, t, p) == None
    {
      SomeUpdate(s.log, s.active, t, p);
    }
  }

  lemma StartShows(s: State, t: TxId, initial: Disk, p: PageId)
    requires ShowsRight(s, initial, p) && Enabled(s, Start(t)) && LastAfter(s.log, t, p) == None
    requires var s1 := Perform(s, Start(t)); Base(s1.log, |s1.log|, initial, p) == Base(s.log, |s.log|, initial, p)
    ensures ShowsRight(Perform(s, Start(t)), initial, p)
  {
    hide Base, LastAfter, Begun, View, FirstIn;
    var s1 := Perform(s, Start(t));
    forall u
      ensures LastAfter(s1.log, u, p) == LastAfter(s.log, u, p)
    {
      NeutralHistory(s.log, Record.Begin(t), u, p);
    }
    ShowsFrame(s, s1, initial, p);
  }

  lemma StartKeeps(s: State, t: TxId, initial: Disk)
    requires Inv(s, initial) && Enabled(s, Start(t))
    ensures Inv(Perform(s, Start(t)), initial)
  {
    var s1 := Perform(s, Start(t));
    NeverBegan(s, t);
    hide LocksOk, LogOk, Traced, Exclusive, Chained, FileOk, SerialOk, ShowsRight, Base, Holding, LastAfter,
        FirstBefore, Begun, At;
    NeutralLog(s, s1, Record.Begin(t), initial);
    StartTraced(s, t);
    forall i | 0 <= i < |s.log| && s.log[i].Update? && s.log[i].txId in s1.active
      ensures s.log[i].txId in s.active
    {
      UpdateShows(s.log, s.active, i);
    }
    NeutralExclusive(s.log, Record.Begin(t), s.active, s1.active);
    NeutralFile(s, s1, Record.Begin(t), initial);
    SerialFrame(s, s1, initial);
    forall p
      ensures ShowsRight(s1, initial, p)
    {
      assert ShowsRight(s, initial, p);
      StartShows(s, t, initial, p);
    }
  }

  lemma StartTraced(s: State, t: TxId)
    requires Traced(s.log, s.active, s.trace) && t !in s.active
    requires forall p :: LastAfter(s.log, t, p) == None && FirstBefore(s.log, t, p) == None
    ensures Traced(s.log + [Begin(t)], s.active[t := Tx(Running, [])], s.trace[t := []])
  {
    hide LastAfter, FirstBefore;
    var active1, trace1 := s.active[t := Tx(Running, [])], s.trace[t := []];
    forall u, p | u in active1
      ensures LastWrite(trace1[u], p) == LastAfter(s.log + [Begin(t)], u, p)
      ensures FirstIn(active1[u].undo, p) == FirstBefore(s.log + [Begin(t)], u, p)
    {
      NeutralHistory(s.log, Begin(t), u, p);
      if u != t {
        assert LastWrite(s.trace[u], p) == LastAfter(s.log, u, p);
        assert FirstIn(s.active[u].undo, p) == FirstBefore(s.log, u, p);
      }
    }
  }

  /** Ending a transaction whose modified pages, if any, show their committed contents again. */
  lemma EndShows(s: State, s1: State, t: TxId, initial: Disk, p: PageId)
    requires ShowsRight(s, initial, p) && s1.active == s.active - {t} && Shown(s1, p) == Shown(s, p)
    requires Base(s1.log, |s1.log|, initial, p) == Base(s.log, |s.log|, initial, p)
    requires forall u :: LastAfter(s1.log, u, p) == LastAfter(s.log, u, p)
    requires Modifies(s, t, p) ==> Shown(s, p) == Base(s.log, |s.log|, initial, p)
    requires Exclusive(s.log, s.active)
    ensures ShowsRight(s1, initial, p)
  {
    hide Exclusive, Base, LastAfter, FirstIn, View;
    if Modifies(s, t, p) {
      forall u
        ensures !Modifies(s1, u, p)
      {
        if Modifies(s1, u, p) {
          assert Modifies(s, u, p);
          OneWriter(s.log, s.active, t, u, p);
        }
      }
    } else {
      ShowsFrame(s, s1, initial, p);
    }
  }

  lemma EndCommitKeeps(s: State, t: TxId, initial: Disk)
    requires Inv(s, initial) && Enabled(s, EndCommit(t))
    ensures Inv(Perform(s, EndCommit(t)), initial)
  {
    var s1 := Perform(s, EndCommit(t));
    ReleaseKeepsGuards(s, t, s1.trace, s1);
    hide LocksOk, Guarded, Base, Chained, LastAfter, FirstBefore, FirstIn, LastWrite, At, Committed, Begun, View;
    forall p
      ensures ShowsRight(s1, initial, p)
    {
      assert ShowsRight(s, initial, p);
      EndShows(s, s1, t, initial, p);
    }
    hide LogOk, Traced, Exclusive, FileOk, SerialOk, ShowsRight;
    EndCommitRest(s, t, initial);
  }

  lemma EndCommitRest(s: State, t: TxId, initial: Disk)
    requires LogOk(s.log, s.active) && Traced(s.log, s.active, s.trace) && Exclusive(s.log, s.active)
    requires FileOk(s, initial) && SerialOk(s, initial)
    requires Enabled(s, EndCommit(t))
    ensures var s1 := Perform(s, EndCommit(t));
            LogOk(s1.log, s1.active) && Traced(s1.log, s1.active, s1.trace) && Exclusive(s1.log, s1.active) &&
            FileOk(s1, initial) && SerialOk(s1, initial)
  {
    var s1 := Perform(s, EndCommit(t));
    hide Base, LastAfter, FirstBefore, FirstIn, LastWrite, At, Committed, Begun, Legal, ReadsRight, Value;
    FileFrame(s, s1, initial);
    SerialFrame(s, s1, initial);
    assert forall u, p :: u in s1.active ==> LastWrite(s1.trace[u], p) == LastWrite(s.trace[u], p);
  }

  /** When everything has been undone, a page shows what was committed before the transaction first wrote it. */
  lemma UndoneShows(s: State, t: TxId, initial: Disk, p: PageId)
    requires Inv(s, initial) && InState(s, t, Aborting(0)) && Modifies(s, t, p)
    ensures Shown(s, p) == Base(s.log, |s.log|, initial, p)
  {
    assert ShowsRight(s, initial, p);
    hide LocksOk, Guarded, FileOk, SerialOk, Base, FirstIn, At, View, LastWrite;
    var tx, i := s.active[t], FirstUndo(s.log, {t}, p);
    assert tx.undo[0..] == tx.undo;
    assert FirstIn(tx.undo, p) == FirstBefore(s.log, t, p);
    SomeUpdate(s.log, s.active, t, p);
    assert s.log[i].before == Base(s.log, i, initial, p);
    forall j | i <= j < |s.log|
      ensures !Updates(s.log[j], Committed(s.log), p)
    {
      if i < j && s.log[j].Update? && s.log[j].pageId == p {
        NobodyAfter(s.log, s.active, t, p, i, j);
      }
    }
    BaseStays(s.log, i, initial, p);
  }

  lemma EndAbortKeeps(s: State, t: TxId, initial: Disk)
    requires Inv(s, initial) && Enabled(s, EndAbort(t))
    ensures Inv(Perform(s, EndAbort(t)), initial)
  {
    var s1 := Perform(s, EndAbort(t));
    ReleaseKeepsGuards(s, t, s1.trace, s1);
    hide LocksOk, Guarded, LogOk, Traced, Exclusive, Chained, FileOk, SerialOk, Base, LastAfter, FirstBefore,
        FirstIn, LastWrite, At, View, Begun, Committed;
    NeutralLog(s, s1, Abort(t), initial);
    forall p
      ensures ShowsRight(s1, initial, p)
    {
      assert ShowsRight(s, initial, p);
      forall u
        ensures LastAfter(s1.log, u, p) == LastAfter(s.log, u, p)
      {
        NeutralHistory(s.log, Abort(t), u, p);
      }
      if Modifies(s, t, p) {
        UndoneShows(s, t, initial, p);
      }
      EndShows(s, s1, t, initial, p);
    }
    hide ShowsRight;
    NeutralExclusive(s.log, Abort(t), s.active, s1.active);
    NeutralFile(s, s1, Abort(t), initial);
    SerialFrame(s, s1, initial);
    SameKeys(s, t);
    NeutralTraced(s, s1, Abort(t));
  }

  lemma SameKeys(s: State, t: TxId)
    requires Traced(s.log, s.active, s.trace)
    ensures (s.active - {t}).Keys == (s.trace - {t}).Keys
  {
  }

  lemma NeverWrote(s: State, t: TxId, p: PageId)
    requires LogOk(s.log, s.active) && Traced(s.log, s.active, s.trace) && t in s.active && s.active[t].undo == []
    ensures LastAfter(s.log, t, p) == None
  {
    assert FirstIn(s.active[t].undo, p) == FirstBefore(s.log, t, p);
    SomeUpdate(s.log, s.active, t, p);
  }

  /** Steps that change only the status of an uncommitted transaction, and perhaps forget what it read. */
  lemma StatusKeeps(s: State, s1: State, t: TxId, status: Status, initial: Disk)
    requires Inv(s, initial) && t in s.active && t in s.trace && !s.active[t].status.Aborting?
    requires !s.active[t].status.Committing?
    requires s1 == s.(locks := s1.locks, active := SetStatus(s, t, status), trace := s1.trace)
    requires s1.trace == s.trace || (s1.trace == s.trace[t := []] && s.active[t].undo == [])
    requires status == Aborting(|s.active[t].undo|) || (status == Victim && s.active[t].undo == [])
    requires LocksOk(s1.locks) && Guarded(s1)
    ensures Inv(s1, initial)
  {
    hide LocksOk, Guarded, Exclusive, Chained, FileOk, SerialOk, Base, LastAfter, FirstBefore, FirstIn, At, View,
        Begun, Committed;
    forall p
      ensures ShowsRight(s1, initial, p)
    {
      assert ShowsRight(s, initial, p);
      ShowsFrame(s, s1, initial, p);
    }
    assert Traced(s1.log, s1.active, s1.trace) by {
      forall u, p | u in s1.active
        ensures LastWrite(s1.trace[u], p) == LastAfter(s1.log, u, p)
      {
        assert LastWrite(s.trace[u], p) == LastAfter(s.log, u, p);
        if s1.trace[u] != s.trace[u] {
          NeverWrote(s, t, p);
        }
      }
    }
    hide Traced, ShowsRight;
    StatusRest(s, s1, t, status, initial);
  }

  lemma StatusRest(s: State, s1: State, t: TxId, status: Status, initial: Disk)
    requires Exclusive(s.log, s.active) && FileOk(s, initial) && SerialOk(s, initial)
    requires t in s.active && t in s.trace && !s.active[t].status.Committing?
    requires s1 == s.(locks := s1.locks, active := SetStatus(s, t, status), trace := s1.trace)
    requires s1.trace == s.trace || s1.trace == s.trace[t := []]
    ensures Exclusive(s1.log, s1.active) && FileOk(s1, initial) && SerialOk(s1, initial)
  {
    hide Base, At, Value, Legal, ReadsRight;
    FileFrame(s, s1, initial);
    SerialFrame(s, s1, initial);
  }

  lemma StartAbortKeeps(s: State, t: TxId, initial: Disk)
    requires Inv(s, initial) && Enabled(s, StartAbort(t))
    ensures Inv(Perform(s, StartAbort(t)), initial)
  {
    var s1 := Perform(s, StartAbort(t));
    assert Guarded(s1) && LocksOk(s1.locks) by {
      hide LocksOk;
    }
    hide Inv, Guarded, LocksOk;
    StatusKeeps(s, s1, t, Aborting(|s.active[t].undo|), initial);
  }

  lemma MarkVictimKeeps(s: State, t: TxId, initial: Disk)
    requires Inv(s, initial) && Enabled(s, MarkVictim(t))
    ensures Inv(Perform(s, MarkVictim(t)), initial)
  {
    var s1 := Perform(s, MarkVictim(t));
    ReleaseKeepsGuards(s, t, s1.trace, s1);
    hide Inv, Guarded, LocksOk;
    StatusKeeps(s, s1, t, Victim, initial);
  }
}
