/** Whole runs of the engine: durability across crashes, live atomicity and serialisability in commit order. */
module EngineRuns {
  import opened Collections
  import opened Ids
  import opened LockHolding
  import opened Records
  import opened Recovery
  import opened Buffering
  import opened EngineState
  import opened EngineLog
  import opened EngineKeeps

  // ---------------------------------------------------------------------
  // Undoing one write
  // ---------------------------------------------------------------------

  lemma FirstInNext(undo: seq<(PageId, Bytes)>, k: nat, p: PageId)
    requires 0 < k <= |undo|
    ensures FirstIn(undo[k - 1..], p) == if undo[k - 1].0 == p then Some(undo[k - 1].1) else FirstIn(undo[k..], p)
  {
    assert undo[k - 1..][1..] == undo[k..];
  }

  lemma {:induction false} FirstInSuffix(undo: seq<(PageId, Bytes)>, k: nat)
    requires k < |undo|
    ensures FirstIn(undo, undo[k].0).Some?
  {
    if k > 0 {
      FirstInSuffix(undo[1..], k - 1);
    }
  }

  /** The page an undo step restores is one that its transaction, and no other, has modified. */
  lemma UndoneIsModified(s: State, t: TxId, initial: Disk)
    requires Inv(s, initial) && Enabled(s, UndoWrite(t))
    ensures var p := s.active[t].undo[s.active[t].status.left - 1].0;
            Modifies(s, t, p) && !NoUpdates(s.log, p) && forall u :: Modifies(s, u, p) ==> u == t
  {
    hide LocksOk, Guarded, Chained, ShowsRight, FileOk, SerialOk, LastAfter, FirstBefore, LastWrite;
    var undo, left := s.active[t].undo, s.active[t].status.left;
    var p := undo[left - 1].0;
    FirstInSuffix(undo, left - 1);
    assert FirstIn(undo, p) == FirstBefore(s.log, t, p);
    SomeUpdate(s.log, s.active, t, p);
    forall u | Modifies(s, u, p)
      ensures u == t
    {
      OneWriter(s.log, s.active, t, u, p);
    }
  }

  /** One undo step changes what its own page shows, and no other view. */
  lemma UndoOwnView(s: State, t: TxId, u: TxId, q: PageId)
    requires Enabled(s, UndoWrite(t))
    ensures var s1 := Perform(s, UndoWrite(t));
            var (p, before) := s.active[t].undo[s.active[t].status.left - 1];
            && (Modifies(s1, u, q) <==> Modifies(s, u, q))
            && (Modifies(s1, u, q) ==> OwnView(s1, u, q) == if u == t && q == p then before else OwnView(s, u, q))
  {
    hide LastAfter, FirstIn, Put;
    FirstInNext(s.active[t].undo, s.active[t].status.left, q);
  }

  lemma UndoFile(s: State, t: TxId, q: PageId)
    requires Enabled(s, UndoWrite(t))
    ensures var s1 := Perform(s, UndoWrite(t));
            var (p, before) := s.active[t].undo[s.active[t].status.left - 1];
            && At(s1.disk, q) == (if q == p then before else At(s.disk, q))
            && Shown(s1, q) == (if q == p then before else Shown(s, q))
            && (q in s1.pool ==> q in s.pool && q != p && s1.pool[q] == s.pool[q])
            && s1.log == s.log
  {
    hide At, Put;
    var (p, before) := s.active[t].undo[s.active[t].status.left - 1];
    AtPut(s.disk, p, before, q);
  }

  lemma ShowsOwn(s: State, t: TxId, p: PageId, initial: Disk)
    requires Modifies(s, t, p) && OwnView(s, t, p) == Shown(s, p)
    requires forall u :: Modifies(s, u, p) ==> u == t
    ensures ShowsRight(s, initial, p)
  {
    hide Modifies, OwnView, Base, View;
  }

  lemma UndoShows(s: State, t: TxId, initial: Disk, q: PageId)
    requires Inv(s, initial) && Enabled(s, UndoWrite(t))
    ensures ShowsRight(Perform(s, UndoWrite(t)), initial, q)
  {
    hide Inv, ShowsRight, Base, OwnView, Modifies, Perform, View, LastWrite, LastAfter;
    UndoneIsModified(s, t, initial);
    InvHolds(s, initial, q);
    var s1 := Perform(s, UndoWrite(t));
    var p := s.active[t].undo[s.active[t].status.left - 1].0;
    UndoFile(s, t, q);
    hide Enabled;
    forall u
      ensures Modifies(s1, u, q) <==> Modifies(s, u, q)
      ensures Modifies(s1, u, q) ==> OwnView(s1, u, q) == if u == t && q == p then Shown(s1, q) else OwnView(s, u, q)
    {
      UndoOwnView(s, t, u, q);
    }
    if q != p {
      ShowsFrame(s, s1, initial, q);
    } else {
      ShowsOwn(s1, t, p, initial);
    }
  }

  lemma UndoKeepsFile(s: State, s1: State, p: PageId, before: Bytes, initial: Disk)
    requires FileOk(s, initial) && !NoUpdates(s.log, p)
    requires s1.log == s.log && s1.pool == s.pool - {p} && s1.disk == Put(s.disk, p, before)
    ensures FileOk(s1, initial)
  {
    hide At, Put, NoUpdates;
    forall q
      ensures At(s1.disk, q) == if q == p then before else At(s.disk, q)
    {
      AtPut(s.disk, p, before, q);
    }
  }

  lemma UndoAllShow(s: State, t: TxId, initial: Disk)
    requires Inv(s, initial) && Enabled(s, UndoWrite(t))
    ensures forall q {:trigger ShowsRight(Perform(s, UndoWrite(t)), initial, q)} ::
            ShowsRight(Perform(s, UndoWrite(t)), initial, q)
  {
    hide Inv, Enabled, Perform, ShowsRight;
    forall q
      ensures ShowsRight(Perform(s, UndoWrite(t)), initial, q)
    {
      UndoShows(s, t, initial, q);
    }
  }

  lemma UndoKeeps(s: State, t: TxId, initial: Disk)
    requires Inv(s, initial) && Enabled(s, UndoWrite(t))
    ensures Inv(Perform(s, UndoWrite(t)), initial)
  {
    hide LocksOk, Guarded, LogOk, Traced, Exclusive, Chained, ShowsRight, FileOk, SerialOk, Put, NoUpdates, Modifies;
    var s1 := Perform(s, UndoWrite(t));
    UndoAllShow(s, t, initial);
    UndoneIsModified(s, t, initial);
    var (p, before) := s.active[t].undo[s.active[t].status.left - 1];
    UndoKeepsFile(s, s1, p, before, initial);
    UndoRest(s, t, initial);
  }

  lemma UndoRest(s: State, t: TxId, initial: Disk)
    requires Guarded(s) && LogOk(s.log, s.active) && Traced(s.log, s.active, s.trace)
    requires Exclusive(s.log, s.active) && SerialOk(s, initial)
    requires Enabled(s, UndoWrite(t))
    ensures var s1 := Perform(s, UndoWrite(t));
            Guarded(s1) && LogOk(s1.log, s1.active) && Traced(s1.log, s1.active, s1.trace) &&
            Exclusive(s1.log, s1.active) && SerialOk(s1, initial)
  {
    hide Holding, Base, LastAfter, FirstBefore, FirstIn, LastWrite, Put, Begun, Committed, Legal, ReadsRight, Value;
    var s1 := Perform(s, UndoWrite(t));
    SerialFrame(s, s1, initial);
    assert forall u, p :: u in s1.active ==> FirstIn(s1.active[u].undo, p) == FirstIn(s.active[u].undo, p);
  }

  // ---------------------------------------------------------------------
  // Crash and recovery
  // ---------------------------------------------------------------------

  /** Every loser's first update of a page carries the contents last committed before it. */
  lemma LoserBefore(log: seq<Record>, active: map<TxId, Tx>, initial: Disk, p: PageId)
    requires LogOk(log, active) && Chained(log, initial) && FirstUndo(log, Losers(log), p) < |log|
    ensures var i := FirstUndo(log, Losers(log), p); log[i].before == Base(log, i, initial, p)
  {
    hide Base;
    var i := FirstUndo(log, Losers(log), p);
    var t := log[i].txId;
    var j := FirstUndo(log, {t}, p);
    assert Undoes(log[i], {t}, p);
    assert j < |log| ==> Undoes(log[j], Losers(log), p);
  }

  /**
    * What recovery makes of a page, in every run: the contents last committed before the first update of
    * a transaction that did not commit, or the last committed contents if there is no such update.
    */
  lemma RecoversTo(s: State, initial: Disk, p: PageId)
    requires Inv(s, initial)
    ensures var i := FirstUndo(s.log, Losers(s.log), p);
            Recovered(s.log, s.disk, p) == Base(s.log, if i < |s.log| then i else |s.log|, initial, p)
  {
    hide LocksOk, Guarded, Traced, Exclusive, ShowsRight, SerialOk;
    var i, w := FirstUndo(s.log, Losers(s.log), p), Committed(s.log);
    if i < |s.log| {
      LoserBefore(s.log, s.active, initial, p);
    } else {
      assert s.log[..|s.log|] == s.log;
      if LastRedo(s.log, w, p) < 0 {
        forall k | 0 <= k < |s.log| && s.log[k].Update?
          ensures s.log[k].pageId != p
        {
          assert s.log[k].txId in w ==> Redoes(s.log[k], w, s.log[k].pageId);
          assert s.log[k].txId !in w ==> Undoes(s.log[k], Losers(s.log), s.log[k].pageId);
        }
        assert NoUpdates(s.log, p);
      }
    }
  }

  /** The committed contents at the end are what the last winner wrote, if any wrote. */
  lemma LastWinnerShows(log: seq<Record>, initial: Disk, p: PageId)
    ensures var i := LastRedo(log, Committed(log), p); i >= 0 ==> Base(log, |log|, initial, p) == log[i].after
  {
    assert log[..|log|] == log;
  }

  /** If the last winner's update comes before position `n`, nothing committed changes from there on. */
  lemma LastWinnerBefore(log: seq<Record>, active: map<TxId, Tx>, n: nat, initial: Disk, p: PageId)
    requires LogOk(log, active) && n <= |log| && LastRedo(log, Committed(log), p) < n
    ensures Base(log, n, initial, p) == Base(log, |log|, initial, p)
  {
    hide Begun, Committed, Base;
    forall j | n <= j < |log|
      ensures !Updates(log[j], Committed(log), p)
    {
      assert !Redoes(log[j], Committed(log), p);
    }
    BaseStays(log, n, initial, p);
  }

  /**
    * Recovery restores the last committed contents of a page exactly if no transaction that did not commit updated
    * it, or the last committed update comes before the first such one, or happens to have put the same image back.
    */
  lemma CrashSafe(s: State, initial: Disk, p: PageId)
    requires Inv(s, initial)
    ensures var i, w := FirstUndo(s.log, Losers(s.log), p), LastRedo(s.log, Committed(s.log), p);
            Recovered(s.log, s.disk, p) == Value(initial, s.serial, p) <==>
            i == |s.log| || w < i || s.log[w].after == s.log[i].before
  {
    RecoversTo(s, initial, p);
    var i, w := FirstUndo(s.log, Losers(s.log), p), LastRedo(s.log, Committed(s.log), p);
    assert Base(s.log, |s.log|, initial, p) == Value(initial, s.serial, p);
    LastWinnerShows(s.log, initial, p);
    if i < |s.log| {
      LoserBefore(s.log, s.active, initial, p);
      if w < i {
        LastWinnerBefore(s.log, s.active, i, initial, p);
      }
    }
    hide Inv, LocksOk, Guarded, Traced, Exclusive, Chained, ShowsRight, FileOk, LogOk, Base, Value, Recovered,
        SerialOk, Begun, Committed;
  }

  lemma WinnersComeFirst(log: seq<Record>, p: PageId)
    requires NoWinnerAfterLoser(log, p)
    ensures FirstUndo(log, Losers(log), p) == |log| || LastRedo(log, Committed(log), p) < FirstUndo(log, Losers(log), p)
  {
    hide Begun, Committed;
    var i, w := FirstUndo(log, Losers(log), p), LastRedo(log, Committed(log), p);
    assert i < |log| ==> Updates(log[i], Losers(log), p);
    assert w >= 0 ==> Updates(log[w], Committed(log), p);
  }

  /** In particular if no committed update follows one of a transaction that did not commit. */
  lemma CleanPagesRecover(s: State, initial: Disk, p: PageId)
    requires Inv(s, initial) && NoWinnerAfterLoser(s.log, p)
    ensures Recovered(s.log, s.disk, p) == Value(initial, s.serial, p)
  {
    hide Inv, Recovered, Value, Begun, Committed, NoWinnerAfterLoser;
    CrashSafe(s, initial, p);
    WinnersComeFirst(s.log, p);
  }

  lemma AbortsKeepHistory(log: seq<Record>, aborts: seq<Record>, n: nat, initial: Disk, p: PageId)
    requires n <= |log| && forall i :: 0 <= i < |aborts| ==> aborts[i].Abort?
    ensures Base(log + aborts, n, initial, p) == Base(log, n, initial, p)
    ensures Base(log + aborts, |log + aborts|, initial, p) == Base(log, |log|, initial, p)
    ensures NoUpdates(log + aborts, p) ==> NoUpdates(log, p)
  {
    AbortsChangeNothing(log, aborts);
    var all := log + aborts;
    assert all[..n] == log[..n] && all[..|log|] == log[..|log|];
    assert forall i :: 0 <= i < |log| ==> all[i] == log[i];
    assert forall i :: |log| <= i < |all| ==> all[i] == aborts[i - |log|];
    BaseStays(all, |log|, initial, p);
  }

  lemma CrashLog(s: State, aborts: seq<Record>, initial: Disk)
    requires LogOk(s.log, s.active) && Chained(s.log, initial) && AbortsOf(aborts, Losers(s.log))
    ensures LogOk(s.log + aborts, map[]) && Chained(s.log + aborts, initial)
  {
    hide Begun, Committed, Base, Losers;
    var all := s.log + aborts;
    AbortsChangeNothing(s.log, aborts);
    assert forall i :: 0 <= i < |s.log| ==> all[i] == s.log[i];
    assert forall i :: |s.log| <= i < |all| ==> all[i] == aborts[i - |s.log|];
    hide Chained;
    CrashChained(s.log, aborts, initial);
  }

  lemma CrashChained(log: seq<Record>, aborts: seq<Record>, initial: Disk)
    requires Chained(log, initial) && forall i :: 0 <= i < |aborts| ==> aborts[i].Abort?
    ensures Chained(log + aborts, initial)
  {
    hide Committed, Base, FirstUndo;
    var all := log + aborts;
    AbortsChangeNothing(log, aborts);
    assert forall i :: 0 <= i < |log| ==> all[i] == log[i];
    assert forall i :: |log| <= i < |all| ==> all[i] == aborts[i - |log|];
    forall i | 0 <= i < |all| && all[i].Update? && all[i].txId !in Committed(all)
               && FirstUndo(all, {all[i].txId}, all[i].pageId) == i
      ensures all[i].before == Base(all, i, initial, all[i].pageId)
    {
      AbortsKeepHistory(log, aborts, i, initial, all[i].pageId);
      UndoneBeforeAborts(log, aborts, {all[i].txId}, all[i].pageId);
    }
  }

  lemma UndoneBeforeAborts(log: seq<Record>, aborts: seq<Record>, txs: set<TxId>, p: PageId)
    requires forall i :: 0 <= i < |aborts| ==> aborts[i].Abort?
    ensures FirstUndo(log + aborts, txs, p) < |log| ==> FirstUndo(log, txs, p) == FirstUndo(log + aborts, txs, p)
  {
    var all := log + aborts;
    var i, j := FirstUndo(all, txs, p), FirstUndo(log, txs, p);
    assert forall k :: 0 <= k < |log| ==> all[k] == log[k];
    assert j < |log| ==> Undoes(all[j], txs, p);
    assert i < |log| ==> Undoes(log[i], txs, p);
  }

  lemma CrashKeeps(s: State, aborts: seq<Record>, initial: Disk)
    requires Inv(s, initial) && Enabled(s, CrashAndRecover(aborts))
    ensures Inv(Perform(s, CrashAndRecover(aborts)), initial)
    ensures forall p :: Shown(Perform(s, CrashAndRecover(aborts)), p) == Value(initial, s.serial, p)
  {
    var s1 := Perform(s, CrashAndRecover(aborts));
    CrashLog(s, aborts, initial);
    hide LocksOk, Guarded, LogOk, Traced, Exclusive, Chained, Base, Legal, ReadsRight, Value, Recovered, PutAll, At,
        ShowsRight;
    forall p
      ensures Shown(s1, p) == Value(initial, s.serial, p)
      ensures Base(s1.log, |s1.log|, initial, p) == Value(initial, s.serial, p)
      ensures NoUpdates(s1.log, p) ==> At(s1.disk, p) == At(initial, p)
    {
      CleanPagesRecover(s, initial, p);
      WritesRecover(s.log, s.disk, p);
      AbortsKeepHistory(s.log, aborts, 0, initial, p);
      assert Base(s.log, |s.log|, initial, p) == Value(initial, s.serial, p);
      assert ShowsRight(s, initial, p);
      if NoUpdates(s.log, p) {
        UntouchedShows(s, initial, p);
        NothingModified(s, p);
        CommittedShows(s, initial, p);
      }
    }
    NothingActive(s1, initial);
  }

  lemma NothingModified(s: State, p: PageId)
    requires LogOk(s.log, s.active) && NoUpdates(s.log, p)
    ensures forall t :: !Modifies(s, t, p)
  {
    forall t
      ensures !Modifies(s, t, p)
    {
      SomeUpdate(s.log, s.active, t, p);
    }
  }

  lemma CommittedShows(s: State, initial: Disk, p: PageId)
    requires ShowsRight(s, initial, p) && SerialOk(s, initial) && forall t :: !Modifies(s, t, p)
    ensures Shown(s, p) == Value(initial, s.serial, p)
  {
    hide Base, View, Value;
    assert Base(s.log, |s.log|, initial, p) == Value(initial, s.serial, p);
  }

  lemma NothingActive(s: State, initial: Disk)
    requires s.locks == map[] && s.active == map[] && s.trace == map[] && s.pool == map[]
    requires Legal(initial, s.serial) && LogOk(s.log, map[]) && Chained(s.log, initial)
    requires forall p :: Shown(s, p) == Base(s.log, |s.log|, initial, p) == Value(initial, s.serial, p)
    requires forall p :: NoUpdates(s.log, p) ==> At(s.disk, p) == At(initial, p)
    ensures Inv(s, initial)
  {
    hide Base, Value, Legal, At, LogOk, Chained, NoUpdates;
    assert LocksOk(s.locks);
    assert Traced(s.log, s.active, s.trace);
    assert forall p :: ShowsRight(s, initial, p);
  }

  // ---------------------------------------------------------------------
  // Whole runs
  // ---------------------------------------------------------------------

  lemma PerformKeeps(s: State, a: Action, initial: Disk)
    requires Inv(s, initial) && Enabled(s, a)
    ensures Inv(Perform(s, a), initial)
  {
    hide Inv, Enabled, Perform;
    match a
    case Start(t) => StartKeeps(s, t, initial);
    case Lock(step) => LockKeeps(s, step, initial);
    case Fetch(p) => FetchKeeps(s, p, initial);
    case Evict(p) => EvictKeeps(s, p, initial);
    case Flush(p) => FlushKeeps(s, p, initial);
    case ReadPage(t, p) => ReadKeeps(s, t, p, initial);
    case WritePage(t, p, image) => WriteKeeps(s, t, p, image, initial);
    case LogCommit(t) => LogCommitKeeps(s, t, initial);
    case EndCommit(t) => EndCommitKeeps(s, t, initial);
    case MarkVictim(t) => MarkVictimKeeps(s, t, initial);
    case StartAbort(t) => StartAbortKeeps(s, t, initial);
    case UndoWrite(t) => UndoKeeps(s, t, initial);
    case EndAbort(t) => EndAbortKeeps(s, t, initial);
    case CrashAndRecover(aborts) => CrashKeeps(s, aborts, initial);
  }

  lemma OpenedInv(doc: PageId -> int, disk: Disk)
    ensures Inv(Opened(doc, disk), disk)
  {
    var s := Opened(doc, disk);
    forall p
      ensures Base(s.log, |s.log|, disk, p) == At(disk, p)
    {
      assert s.log[..0] == [];
    }
    assert Legal(disk, []);
    NothingActive(s, disk);
  }

  lemma {:induction false} RunKeeps(s: State, run: seq<Action>, initial: Disk)
    requires Inv(s, initial) && EnabledRun(s, run)
    ensures Inv(Execute(s, run), initial)
    decreases |run|
  {
    if run != [] {
      hide Inv, Enabled, Perform;
      PerformKeeps(s, run[0], initial);
      RunKeeps(Perform(s, run[0]), run[1..], initial);
    }
  }

  /**
    * The main result. Whatever transactions, evictions, flushes, victims, aborts and crashes a run interleaves:
    * the committed transactions read what they would have read executed one at a time in commit order; every
    * page that no unfinished transaction has modified shows the outcome of that serial execution; and so does,
    * after a crash now, every recovered page on which no committed update follows an uncommitted one.
    */
  lemma EngineIsSerialisableAndDurable(doc: PageId -> int, disk: Disk, run: seq<Action>)
    requires EnabledRun(Opened(doc, disk), run)
    ensures var s := Execute(Opened(doc, disk), run);
            && Legal(disk, s.serial)
            && (forall p :: (forall t :: !Modifies(s, t, p)) ==> Shown(s, p) == Value(disk, s.serial, p))
            && (forall p :: NoWinnerAfterLoser(s.log, p) ==> Recovered(s.log, s.disk, p) == Value(disk, s.serial, p))
  {
    hide Perform, Enabled, LocksOk, Guarded, LogOk, Traced, Exclusive, Chained, FileOk, Base, Value, Legal,
        ReadsRight, Modifies, OwnView, Recovered, View, NoWinnerAfterLoser;
    OpenedInv(doc, disk);
    RunKeeps(Opened(doc, disk), run, disk);
    var s := Execute(Opened(doc, disk), run);
    forall p
      ensures (forall t :: !Modifies(s, t, p)) ==> Shown(s, p) == Value(disk, s.serial, p)
      ensures NoWinnerAfterLoser(s.log, p) ==> Recovered(s.log, s.disk, p) == Value(disk, s.serial, p)
    {
      if NoWinnerAfterLoser(s.log, p) {
        CleanPagesRecover(s, disk, p);
      }
      assert ShowsRight(s, disk, p);
      if forall t :: !Modifies(s, t, p) {
        CommittedShows(s, disk, p);
      }
    }
  }

  /** Undoing every write of an active transaction restores, page by page, the last committed contents. */
  lemma AbortRestores(doc: PageId -> int, disk: Disk, run: seq<Action>, t: TxId, p: PageId)
    requires EnabledRun(Opened(doc, disk), run)
    requires InState(Execute(Opened(doc, disk), run), t, Aborting(0))
    requires Modifies(Execute(Opened(doc, disk), run), t, p)
    ensures Shown(Execute(Opened(doc, disk), run), p) == Value(disk, Execute(Opened(doc, disk), run).serial, p)
  {
    hide Perform, Enabled;
    OpenedInv(doc, disk);
    RunKeeps(Opened(doc, disk), run, disk);
    var s := Execute(Opened(doc, disk), run);
    UndoneShows(s, t, disk, p);
    hide LocksOk, Guarded, LogOk, Traced, Exclusive, Chained, FileOk, ShowsRight, Base, Value, Legal, ReadsRight,
        View, Modifies;
    assert Base(s.log, |s.log|, disk, p) == Value(disk, s.serial, p);
  }

  // ---------------------------------------------------------------------
  // Runs put together
  // ---------------------------------------------------------------------

  lemma {:induction false} ExecuteConcat(s: State, first: seq<Action>, second: seq<Action>)
    requires EnabledRun(s, first) && EnabledRun(Execute(s, first), second)
    ensures EnabledRun(s, first + second) && Execute(s, first + second) == Execute(Execute(s, first), second)
    decreases |first|
  {
    hide Enabled, Perform;
    if first == [] {
      assert first + second == second;
    } else {
      ExecuteConcat(Perform(s, first[0]), first[1..], second);
      assert (first + second)[1..] == first[1..] + second;
    }
  }

  lemma ExecuteOne(s: State, a: Action)
    requires Enabled(s, a)
    ensures EnabledRun(s, [a]) && Execute(s, [a]) == Perform(s, a)
  {
    hide Enabled, Perform;
    assert [a][1..] == [];
  }

  lemma ExecuteThen(s: State, run: seq<Action>, a: Action)
    requires EnabledRun(s, run) && Enabled(Execute(s, run), a)
    ensures EnabledRun(s, run + [a]) && Execute(s, run + [a]) == Perform(Execute(s, run), a)
  {
    hide Enabled, Perform;
    ExecuteOne(Execute(s, run), a);
    ExecuteConcat(s, run, [a]);
  }
}
