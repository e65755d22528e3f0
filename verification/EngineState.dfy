/** The transactional engine as a state machine: locks, log, page file, buffer pool and active transactions. */
module EngineState {
  import opened Collections
  import opened Ids
  import opened LockTable
  import opened LockRuns
  import opened LockHolding
  import opened Records
  import opened Recovery
  import opened Buffering

  /** What a transaction read from, or wrote to, a page. */
  datatype Op = Saw(page: PageId, value: Bytes) | Wrote(page: PageId, value: Bytes)

  datatype Status = Running | Victim | Committing | Aborting(left: nat)

  /** The in-memory record of a transaction; `undo` holds the before-images of its writes, oldest first. */
  datatype Tx = Tx(status: Status, undo: seq<(PageId, Bytes)>)

  /**
    * `doc` gives the document that owns each page. `trace` is what each active transaction has read and written,
    * and `serial` the traces of the committed ones, in commit order.
    */
  datatype State = State(
    doc: PageId -> int,
    locks: Table,
    log: seq<Record>,
    disk: Disk,
    pool: Pool,
    active: map<TxId, Tx>,
    trace: map<TxId, seq<Op>>,
    serial: seq<seq<Op>>)

  /** The atomic steps; a process crash can come between any two of them. */
  datatype Action =
    | Start(txId: TxId)
    | Lock(step: Step)
    | Fetch(page: PageId)
    | Evict(page: PageId)
    | Flush(page: PageId)
    | ReadPage(txId: TxId, page: PageId)
    | WritePage(txId: TxId, page: PageId, image: Bytes)
    | LogCommit(txId: TxId)
    | EndCommit(txId: TxId)
    | MarkVictim(txId: TxId)
    | StartAbort(txId: TxId)
    | UndoWrite(txId: TxId)
    | EndAbort(txId: TxId)
    | CrashAndRecover(aborts: seq<Record>)

  function PageLock(s: State, p: PageId): Resource {
    Resource(s.doc(p), p)
  }

  function Shown(s: State, p: PageId): Bytes {
    View(s.pool, s.disk, p)
  }

  predicate InState(s: State, txId: TxId, status: Status) {
    txId in s.active && txId in s.trace && s.active[txId].status == status
  }

  /** No committed update follows an update of a transaction that did not commit, on this page. */
  ghost predicate NoWinnerAfterLoser(log: seq<Record>, p: PageId) {
    forall i, j :: 0 <= i < j < |log| && Updates(log[i], Losers(log), p) ==> !Updates(log[j], Committed(log), p)
  }

  ghost predicate Enabled(s: State, a: Action) {
    match a
    case Start(txId) => txId !in Begun(s.log) && txId !in s.active
    case Lock(step) => !step.Finish? && InState(s, step.txId, Running) && Allowed(s.locks, step)
    case Fetch(p) => p !in s.pool
    case Evict(p) => p in s.pool
    case Flush(p) => true
    case ReadPage(txId, p) => InState(s, txId, Running) && Holding(s.locks, PageLock(s, p), txId, S)
    case WritePage(txId, p, image) =>
      InState(s, txId, Running) && Holding(s.locks, PageLock(s, p), txId, X) && p in s.pool && image != []
      && Shown(s, p) != []
    case LogCommit(txId) => InState(s, txId, Running)
    case EndCommit(txId) => InState(s, txId, Committing)
    case MarkVictim(txId) =>
      (InState(s, txId, Running) || InState(s, txId, Victim)) && s.active[txId].undo == []
    case StartAbort(txId) => InState(s, txId, Running) || InState(s, txId, Victim)
    case UndoWrite(txId) =>
      txId in s.active && s.active[txId].status.Aborting? && 0 < s.active[txId].status.left <= |s.active[txId].undo|
    case EndAbort(txId) => InState(s, txId, Aborting(0))
    case CrashAndRecover(aborts) => AbortsOf(aborts, Losers(s.log)) && forall p :: NoWinnerAfterLoser(s.log, p)
  }

  function SetStatus(s: State, txId: TxId, status: Status): map<TxId, Tx>
    requires txId in s.active
  {
    s.active[txId := s.active[txId].(status := status)]
  }

  /** The state after a transaction has been marked as a victim: its locks are gone, its writes not undone. */
  function Marked(s: State, txId: TxId): State
    requires txId in s.active
  {
    s.(locks := Released(s.locks, txId), active := SetStatus(s, txId, Victim), trace := s.trace[txId := []])
  }

  ghost function Perform(s: State, a: Action): State
    requires Enabled(s, a)
  {
    match a
    case Start(txId) =>
      s.(log := s.log + [Begin(txId)], active := s.active[txId := Tx(Running, [])], trace := s.trace[txId := []])
    case Lock(step) =>
      s.(locks := Apply(s.locks, step))
    case Fetch(p) =>
      s.(pool := s.pool[p := Frame(At(s.disk, p), 0, false)])
    case Evict(p) =>
      s.(pool := s.pool - {p}, disk := Flushed(s.pool, s.disk, p))
    case Flush(p) =>
      if p in s.pool then s.(pool := s.pool[p := s.pool[p].(dirty := false)], disk := Flushed(s.pool, s.disk, p)) else s
    case ReadPage(txId, p) =>
      s.(trace := s.trace[txId := s.trace[txId] + [Saw(p, Shown(s, p))]])
    case WritePage(txId, p, image) =>
      s.(log := s.log + [Update(txId, p, Shown(s, p), image)],
         pool := s.pool[p := Frame(image, s.pool[p].pinCount, true)],
         active := s.active[txId := s.active[txId].(undo := s.active[txId].undo + [(p, Shown(s, p))])],
         trace := s.trace[txId := s.trace[txId] + [Wrote(p, image)]])
    case LogCommit(txId) =>
      s.(log := s.log + [Commit(txId)], active := SetStatus(s, txId, Committing), serial := s.serial + [s.trace[txId]])
    case EndCommit(txId) =>
      s.(locks := Released(s.locks, txId), active := s.active - {txId}, trace := s.trace - {txId})
    case MarkVictim(txId) => Marked(s, txId)
    case StartAbort(txId) =>
      s.(active := SetStatus(s, txId, Aborting(|s.active[txId].undo|)))
    case UndoWrite(txId) =>
      var left := s.active[txId].status.left;
      var (p, before) := s.active[txId].undo[left - 1];
      s.(pool := s.pool - {p}, disk := Put(s.disk, p, before), active := SetStatus(s, txId, Aborting(left - 1)))
    case EndAbort(txId) =>
      s.(log := s.log + [Abort(txId)], locks := Released(s.locks, txId), active := s.active - {txId},
         trace := s.trace - {txId})
    case CrashAndRecover(aborts) =>
      State(s.doc, map[], s.log + aborts, PutAll(s.disk, Writes(s.log)), map[], map[], map[], s.serial)
  }

  ghost predicate EnabledRun(s: State, run: seq<Action>)
    decreases |run|
  {
    run != [] ==> Enabled(s, run[0]) && EnabledRun(Perform(s, run[0]), run[1..])
  }

  ghost function Execute(s: State, run: seq<Action>): State
    requires EnabledRun(s, run)
    decreases |run|
  {
    if run == [] then s else Execute(Perform(s, run[0]), run[1..])
  }

  /** A freshly opened engine over an existing page file, with an empty log. */
  function Opened(doc: PageId -> int, disk: Disk): State {
    State(doc, map[], [], disk, map[], map[], map[], [])
  }

  // ---------------------------------------------------------------------
  // Serial execution
  // ---------------------------------------------------------------------

  /** The last value a trace wrote to a page. */
  function LastWrite(ops: seq<Op>, p: PageId): Option<Bytes> {
    if ops == [] then None
    else
      var last := ops[|ops| - 1];
      if last.Wrote? && last.page == p then Some(last.value) else LastWrite(ops[..|ops| - 1], p)
  }

  /** What a page holds after executing traces one after another from the initial file. */
  function Value(initial: Disk, serial: seq<seq<Op>>, p: PageId): Bytes {
    if serial == [] then At(initial, p)
    else
      match LastWrite(serial[|serial| - 1], p)
      case Some(v) => v
      case None => Value(initial, serial[..|serial| - 1], p)
  }

  /** Executed alone after `serial`, a transaction would have read what its trace says it read. */
  ghost predicate ReadsRight(initial: Disk, serial: seq<seq<Op>>, ops: seq<Op>) {
    forall k :: 0 <= k < |ops| && ops[k].Saw? ==>
      ops[k].value == match LastWrite(ops[..k], ops[k].page)
                      case Some(v) => v
                      case None => Value(initial, serial, ops[k].page)
  }

  ghost predicate Legal(initial: Disk, serial: seq<seq<Op>>) {
    forall k :: 0 <= k < |serial| ==> ReadsRight(initial, serial[..k], serial[k])
  }

  // ---------------------------------------------------------------------
  // Invariants
  // ---------------------------------------------------------------------

  /** After-image of the last update of a page by a transaction. */
  function LastAfter(log: seq<Record>, t: TxId, p: PageId): Option<Bytes> {
    var i := LastRedo(log, {t}, p);
    if i >= 0 then Some(log[i].after) else None
  }

  /** Before-image of the first update of a page by a transaction. */
  function FirstBefore(log: seq<Record>, t: TxId, p: PageId): Option<Bytes> {
    var i := FirstUndo(log, {t}, p);
    if i < |log| then Some(log[i].before) else None
  }

  /** The first before-image of a page in an undo list. */
  function FirstIn(undo: seq<(PageId, Bytes)>, p: PageId): Option<Bytes> {
    if undo == [] then None
    else if undo[0].0 == p then Some(undo[0].1)
    else FirstIn(undo[1..], p)
  }

  /** The last committed contents of a page, as the first `n` records tell. */
  function Base(log: seq<Record>, n: nat, initial: Disk, p: PageId): Bytes
    requires n <= |log|
  {
    Redone(log[..n], Committed(log), p, At(initial, p))
  }

  function LockMode(op: Op): Mode {
    if op.Saw? then S else X
  }

  /** A transaction holds the lock of every page it has read or written. */
  ghost predicate Guarded(s: State) {
    forall t, i :: t in s.trace && 0 <= i < |s.trace[t]| ==>
      Holding(s.locks, PageLock(s, s.trace[t][i].page), t, LockMode(s.trace[t][i]))
  }

  /** Updates come from transactions that began and carry both images; only committing ones have committed. */
  ghost predicate LogOk(log: seq<Record>, active: map<TxId, Tx>) {
    && (forall i :: 0 <= i < |log| && log[i].Update? ==>
        log[i].txId in Begun(log) && log[i].before != [] && log[i].after != [])
    && (forall t :: t in active ==> t in Begun(log) && (t in Committed(log) <==> active[t].status.Committing?))
    && Committed(log) <= Begun(log)
  }

  /** The undo lists and traces tell what the log tells. */
  ghost predicate Traced(log: seq<Record>, active: map<TxId, Tx>, trace: map<TxId, seq<Op>>) {
    && active.Keys == trace.Keys
    && (forall t :: t in active && active[t].status.Aborting? ==> active[t].status.left <= |active[t].undo|)
    && (forall t :: t in active && active[t].status.Victim? ==> active[t].undo == [])
    && (forall t, p {:trigger LastWrite(trace[t], p)} {:trigger LastAfter(log, t, p)} :: t in active ==>
        LastWrite(trace[t], p) == LastAfter(log, t, p))
    && (forall t, p {:trigger FirstIn(active[t].undo, p)} {:trigger FirstBefore(log, t, p)} :: t in active ==>
        FirstIn(active[t].undo, p) == FirstBefore(log, t, p))
  }

  /** Once an unfinished transaction has updated a page, nobody else does. */
  ghost predicate Exclusive(log: seq<Record>, active: map<TxId, Tx>) {
    forall i, j ::
      0 <= i < j < |log| && log[i].Update? && log[j].Update? && log[i].txId in active &&
      log[j].pageId == log[i].pageId ==>
      log[j].txId == log[i].txId
  }

  /** The first before-image a loser logs for a page is its last committed contents at that time. */
  ghost predicate Chained(log: seq<Record>, initial: Disk) {
    forall i ::
      0 <= i < |log| && log[i].Update? && log[i].txId !in Committed(log) &&
      FirstUndo(log, {log[i].txId}, log[i].pageId) == i ==>
      log[i].before == Base(log, i, initial, log[i].pageId)
  }

  /** An unfinished, uncommitted transaction has updated the page. */
  predicate Modifies(s: State, t: TxId, p: PageId) {
    t in s.active && !s.active[t].status.Committing? && LastAfter(s.log, t, p).Some?
  }

  function Left(tx: Tx): nat {
    if tx.status.Aborting? then tx.status.left else |tx.undo|
  }

  /** What a page shows while `t` has modified it: the last after-image, or what has been undone so far. */
  function OwnView(s: State, t: TxId, p: PageId): Bytes
    requires Modifies(s, t, p)
  {
    var tx := s.active[t];
    match if Left(tx) <= |tx.undo| then FirstIn(tx.undo[Left(tx)..], p) else None
    case Some(before) => before
    case None => LastAfter(s.log, t, p).value
  }

  ghost predicate ShowsRight(s: State, initial: Disk, p: PageId) {
    && (forall t {:trigger Modifies(s, t, p)} :: Modifies(s, t, p) ==> Shown(s, p) == OwnView(s, t, p))
    && ((forall t {:trigger Modifies(s, t, p)} :: !Modifies(s, t, p)) ==>
        Shown(s, p) == Base(s.log, |s.log|, initial, p))
  }

  ghost predicate NoUpdates(log: seq<Record>, p: PageId) {
    forall i :: 0 <= i < |log| && log[i].Update? ==> log[i].pageId != p
  }

  /** The file holds the initial contents of pages without updates, and what clean frames show. */
  ghost predicate FileOk(s: State, initial: Disk) {
    && (forall p :: NoUpdates(s.log, p) ==> At(s.disk, p) == At(initial, p))
    && (forall p :: p in s.pool && !s.pool[p].dirty ==> s.pool[p].page == At(s.disk, p))
  }

  ghost predicate SerialOk(s: State, initial: Disk) {
    && Legal(initial, s.serial)
    && (forall p {:trigger Value(initial, s.serial, p)} ::
        Base(s.log, |s.log|, initial, p) == Value(initial, s.serial, p))
    && (forall t :: t in s.trace && t in s.active && !s.active[t].status.Committing? ==>
        ReadsRight(initial, s.serial, s.trace[t]))
  }

  ghost predicate Inv(s: State, initial: Disk) {
    && LocksOk(s.locks)
    && Guarded(s)
    && LogOk(s.log, s.active)
    && Traced(s.log, s.active, s.trace)
    && Exclusive(s.log, s.active)
    && Chained(s.log, initial)
    && (forall p {:trigger ShowsRight(s, initial, p)} :: ShowsRight(s, initial, p))
    && FileOk(s, initial)
    && SerialOk(s, initial)
  }
}
