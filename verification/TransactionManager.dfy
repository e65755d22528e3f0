/** Transactions over the lock manager, the buffer pool, the page file and the log. */
module Transactions {
  import opened Collections
  import opened Ids
  import opened LockTable
  import opened LockManagement
  import opened WaitFor
  import opened LockRuns
  import opened LockHolding
  import opened Records
  import opened Storage
  import opened Recency
  import opened Buffering
  import opened EngineState
  import opened EngineLog
  import opened EngineRuns
  import EngineKeeps
  import Recovery

  /** No frame is pinned: how every method leaves the pool. */
  ghost predicate Unpinned(pool: Pool) {
    forall p :: p in pool ==> pool[p].pinCount == 0
  }

  /** Why a page may fail to be loaded. */
  const LOAD_ERRORS: set<Error> := {PoolFull, ReservedRegion, ShortRead, Corrupted}

  class TransactionManager {
    const storage: StorageManager
    const pool: BufferPool
    const locks: LockManager
    const doc: PageId -> int
    /** The version a page image carries: the highest of its records'. */
    const version: Bytes -> nat
    var log: seq<Record>
    var nextTxId: TxId
    var active: map<TxId, Tx>
    /** What each active transaction has read and written, what the committed ones did, and the file at the start. */
    ghost var trace: map<TxId, seq<Op>>
    ghost var serial: seq<seq<Op>>
    ghost const initial: Disk

    /** The engine's state as the state machine sees it. */
    ghost function Engine(): State
      reads this, pool, storage, locks
    {
      State(doc, locks.lockTable, log, storage.disk, pool.pageTable, active, trace, serial)
    }

    ghost predicate Valid()
      reads this, pool, pool.lru, storage, locks
    {
      && pool.storage == storage && pool.Valid() && pool.pending == {} && Unpinned(pool.pageTable)
      && locks.Valid()
      && Inv(Engine(), initial)
      && (forall t :: t in Begun(log) ==> t < nextTxId)
    }

    constructor (storage: StorageManager, frames: nat, doc: PageId -> int, version: Bytes -> nat)
      ensures Valid() && fresh(pool) && fresh(pool.lru) && fresh(locks)
      ensures this.storage == storage && this.doc == doc && this.version == version
      ensures Engine() == Opened(doc, storage.disk) && initial == storage.disk && nextTxId == 1
    {
      this.storage, this.doc, this.version := storage, doc, version;
      pool := new BufferPool(storage, frames);
      locks := new LockManager();
      log, nextTxId, active := [], 1, map[];
      trace, serial, initial := map[], [], storage.disk;
      new;
      OpenedInv(doc, storage.disk);
    }

    /** Starts a transaction under a fresh id and logs it. */
    method StartTransaction() returns (tx: TxId)
      requires Valid()
      modifies this
      ensures Valid() && tx == old(nextTxId) && nextTxId == old(nextTxId) + 1
      ensures Enabled(old(Engine()), Start(tx)) && Engine() == Perform(old(Engine()), Start(tx))
    {
      tx := nextTxId;
      hide PoolOk, Inv, Linked, At, TableOk, Tracked, Begun, Unpinned;
      BeginsFresh(Engine(), initial, tx);
      StartKeepsInv(Engine(), tx, initial);
      nextTxId := nextTxId + 1;
      log := log + [Record.Begin(tx)];
      active := active[tx := Tx(Running, [])];
      trace := trace[tx := []];
    }

    /** Requests a page lock; the promise for it is `locks.outcomes[request]`. */
    method AcquireLock(tx: TxId, p: PageId, mode: Mode) returns (request: Result<nat>)
      requires Valid() && !IsWaiting(locks.lockTable, tx)
      modifies locks
      ensures Valid()
      ensures request.Ok? <==> InState(old(Engine()), tx, Running)
      ensures request.Err? ==> request.error == NotActive && Engine() == old(Engine())
      ensures request.Ok? ==>
                var action := Lock(Ask(tx, Resource(doc(p), p), mode, request.value));
                && Enabled(old(Engine()), action) && Engine() == Perform(old(Engine()), action)
                && request.value in locks.outcomes
                && (locks.outcomes[request.value].Granted? ==> Holding(locks.lockTable, Resource(doc(p), p), tx, mode))
                && (locks.outcomes[request.value].Granted? <==>
                      GrantedAtOnce(Entry(old(locks.lockTable), Resource(doc(p), p)), tx, mode))
    {
      hide PoolOk, GrantedAtOnce;
      SameTransactions(Engine(), initial);
      if tx !in active || active[tx].status != Running {
        return Err(NotActive);
      }
      ghost var s := Engine();
      GrantedHolds(Entry(locks.lockTable, Resource(doc(p), p)), Request(locks.nextRequest, tx, mode));
      PerformKeeps(s, Lock(Ask(tx, Resource(doc(p), p), mode, locks.nextRequest)), initial);
      hide Inv;
      var id := locks.Acquire(tx, Resource(doc(p), p), mode);
      request := Ok(id);
    }

    /** Pins a page: an eviction if there is no room, and a fetch if the page was not resident. */
    method Load(p: PageId) returns (page: Result<Bytes>, ghost steps: seq<Action>)
      requires Valid()
      modifies pool, pool.lru, storage`disk
      ensures pool.Valid() && pool.pending == {}
      ensures EnabledRun(old(Engine()), steps) && Inv(Execute(old(Engine()), steps), initial)
      ensures var s := Execute(old(Engine()), steps);
              && SameButFrames(old(Engine()), s) && Unpinned(s.pool)
              && (page.Err? ==> Engine() == s)
              && (page.Ok? ==> p in s.pool && page.value == s.pool[p].page && Engine() == Pinned(s, p))
      ensures page.Ok? <==> old(pool.CanLoad(p))
      ensures page.Err? ==> page.error in LOAD_ERRORS
    {
      hide PoolOk, Inv, Enabled, Perform, Linked, At, Flushed, IsVictim, TableOk, Tracked, Execute, EnabledRun,
          LoadSteps, Begun, Dropped, SameButFrames, BufferPool.CanLoad;
      ghost var s := Engine();
      ghost var evicted: Option<PageId>;
      page, evicted := pool.FetchPage(p);
      steps := LoadSteps(p, p in s.pool, evicted, page.Ok?);
      LoadRuns(s, p, evicted, page.Ok?, initial);
      assert page.Err? ==> Engine() == Execute(s, steps);
      assert page.Ok? ==> Engine() == Pinned(Execute(s, steps), p);
    }

    /** Reads a page whose lock has been granted. */
    method ReadLocked(tx: TxId, p: PageId) returns (image: Result<Bytes>, ghost steps: seq<Action>)
      requires Valid() && Holding(locks.lockTable, Resource(doc(p), p), tx, S)
      modifies this`trace, pool, pool.lru, storage`disk
      ensures Valid()
      ensures EnabledRun(old(Engine()), steps) && Engine() == Execute(old(Engine()), steps)
      ensures image.Ok? <==> InState(old(Engine()), tx, Running) && old(pool.CanLoad(p))
      ensures image == Err(NotActive) <==> !InState(old(Engine()), tx, Running)
      ensures image == Err(NotActive) ==> Engine() == old(Engine())
      ensures image.Err? && image.error != NotActive ==> image.error in LOAD_ERRORS
      ensures image.Ok? ==>
                image.value == old(pool.Visible(p)) &&
                trace == old(trace)[tx := old(trace[tx]) + [Saw(p, image.value)]]
      ensures image.Err? ==> trace == old(trace)
    {
      hide PoolOk, Inv, Enabled, Perform, Linked, At, TableOk, Tracked, Execute, EnabledRun, Begun, EntryHolds,
          BufferPool.CanLoad;
      SameTransactions(Engine(), initial);
      if tx !in active || active[tx].status != Running {
        NoSteps(Engine());
        return Err(NotActive), [];
      }
      image, steps := Load(p);
      if image.Err? {
        return;
      }
      ghost var s := Execute(old(Engine()), steps);
      assert Shown(s, p) == Shown(old(Engine()), p) == old(pool.Visible(p));
      ReadRuns(s, tx, p, initial);
      ExecuteThen(old(Engine()), steps, ReadPage(tx, p));
      pool.UnpinPage(p, false);
      trace := trace[tx := trace[tx] + [Saw(p, image.value)]];
      steps := steps + [ReadPage(tx, p)];
      assert pool.pageTable == s.pool;
      assert Engine() == Perform(s, ReadPage(tx, p));
    }

    /**
      * Modifies a page whose lock has been granted: capture the before-image, change the page, log both images,
      * remember the before-image, and unpin the page dirty.
      */
    method WriteLocked(tx: TxId, p: PageId, mutator: Bytes -> Bytes, expectedVersion: Option<nat>)
      returns (image: Result<Bytes>, ghost steps: seq<Action>)
      requires Valid() && Holding(locks.lockTable, Resource(doc(p), p), tx, X)
      requires pool.Visible(p) != [] && mutator(pool.Visible(p)) != []
      modifies this, pool, pool.lru, storage`disk
      ensures Valid()
      ensures EnabledRun(old(Engine()), steps) && Engine() == Execute(old(Engine()), steps)
      ensures var current := version(old(pool.Visible(p)));
              var loaded := InState(old(Engine()), tx, Running) && old(pool.CanLoad(p));
              && (image.Ok? <==> loaded && (expectedVersion.Some? ==> expectedVersion.value == current))
              && (image == Err(StaleVersion) <==>
                    loaded && expectedVersion.Some? && expectedVersion.value != current)
      ensures image == Err(NotActive) <==> !InState(old(Engine()), tx, Running)
      ensures image == Err(NotActive) ==> Engine() == old(Engine())
      ensures image.Err? && !image.error.NotActive? && !image.error.StaleVersion? ==> image.error in LOAD_ERRORS
      ensures image.Ok? ==>
                var before := old(pool.Visible(p));
                && image.value == mutator(before)
                && active == old(active)[tx := Tx(Running, old(active[tx]).undo + [(p, before)])]
                && trace == old(trace)[tx := old(trace[tx]) + [Wrote(p, image.value)]]
                && log == old(log) + [Update(tx, p, before, image.value)]
                && pool.Visible(p) == image.value && forall q :: q != p ==> pool.Visible(q) == old(pool.Visible(q))
      ensures nextTxId == old(nextTxId) && serial == old(serial)
      ensures image.Err? ==>
                && log == old(log) && active == old(active) && trace == old(trace)
                && forall q :: pool.Visible(q) == old(pool.Visible(q))
    {
      hide PoolOk, Inv, Enabled, Perform, Linked, At, TableOk, Tracked, Execute, EnabledRun, Begun, EntryHolds,
          Unpinned, SameButFrames, View, BufferPool.CanLoad;
      SameTransactions(Engine(), initial);
      if tx !in active || active[tx].status != Running {
        NoSteps(Engine());
        return Err(NotActive), [];
      }
      image, steps := Load(p);
      ghost var s := Execute(old(Engine()), steps);
      SameViews(old(Engine()), s);
      if image.Err? {
        return;
      }
      ResidentView(s.pool, s.disk, p);
      assert image.value == old(pool.Visible(p));
      var before := image.value;
      if expectedVersion.Some? && expectedVersion.value != version(before) {
        NotPinned(s.pool, p);
        pool.UnpinPage(p, false);
        assert pool.pageTable == s.pool;
        return Err(StaleVersion), steps;
      }
      var after := mutator(before);
      WriteRuns(s, tx, p, after, initial, nextTxId);
      ExecuteThen(old(Engine()), steps, WritePage(tx, p, after));
      LogAndInstall(tx, p, before, after, s);
      steps := steps + [WritePage(tx, p, after)];
      image := Ok(after);
      InstalledViews(s, Engine(), tx, p, after);
    }

    /** The tail of a write: log both images, install the after-image, remember the before-image, unpin dirty. */
    method LogAndInstall(tx: TxId, p: PageId, before: Bytes, after: Bytes, ghost s: State)
      requires pool.storage == storage && pool.Valid() && pool.pending == {} && locks.Valid()
      requires tx in s.active && tx in s.trace
      requires p in s.pool && Engine() == Pinned(s, p) && before == s.pool[p].page
      requires Enabled(s, WritePage(tx, p, after)) && Inv(Perform(s, WritePage(tx, p, after)), initial)
      requires Unpinned(Perform(s, WritePage(tx, p, after)).pool)
      requires forall u :: u in Begun(Perform(s, WritePage(tx, p, after)).log) ==> u < nextTxId
      modifies this, pool
      ensures Valid() && Engine() == Perform(s, WritePage(tx, p, after))
      ensures log == s.log + [Update(tx, p, before, after)] && serial == s.serial
      ensures active == s.active[tx := s.active[tx].(undo := s.active[tx].undo + [(p, before)])]
      ensures trace == s.trace[tx := s.trace[tx] + [Wrote(p, after)]] && nextTxId == old(nextTxId)
    {
      hide PoolOk, Inv, Linked, At, TableOk, Tracked, Begun, EntryHolds, Unpinned;
      ResidentView(s.pool, s.disk, p);
      NotPinned(Perform(s, WritePage(tx, p, after)).pool, p);
      hide View;
      pool.Change(p, after);
      log := log + [Update(tx, p, before, after)];
      active := active[tx := active[tx].(undo := active[tx].undo + [(p, before)])];
      trace := trace[tx := trace[tx] + [Wrote(p, after)]];
      pool.UnpinPage(p, true);
      assert pool.pageTable == s.pool[p := Frame(after, 0, true)];
    }

    /** Brings the pages a transaction modified to the file. */
    method FlushModified(undo: seq<(PageId, Bytes)>) returns (ghost steps: seq<Action>)
      requires Valid()
      modifies pool, storage`disk
      ensures Valid()
      ensures EnabledRun(old(Engine()), steps) && Engine() == Execute(old(Engine()), steps)
      ensures forall q :: pool.Visible(q) == old(pool.Visible(q))
      ensures forall k :: 0 <= k < |undo| ==> At(storage.disk, undo[k].0) == pool.Visible(undo[k].0)
    {
      hide PoolOk, Inv, Linked, At, TableOk, Tracked, Begun, Perform, Enabled, Execute, EnabledRun, Flushed, Unpinned;
      steps := [];
      NoSteps(Engine());
      for i := 0 to |undo|
        invariant Valid()
        invariant EnabledRun(old(Engine()), steps) && Engine() == Execute(old(Engine()), steps)
        invariant forall q :: pool.Visible(q) == old(pool.Visible(q))
        invariant forall k :: 0 <= k < i ==> At(storage.disk, undo[k].0) == pool.Visible(undo[k].0)
      {
        FlushRuns(Engine(), undo[i].0, initial);
        ExecuteThen(old(Engine()), steps, Flush(undo[i].0));
        steps := steps + [Flush(undo[i].0)];
        var written := pool.FlushPage(undo[i].0);
      }
    }

    /** Commits: log record first, then the modified pages to the file, then the locks. */
    method CommitTransaction(tx: TxId) returns (committed: Result<()>, ghost steps: seq<Action>)
      requires Valid()
      modifies this, pool, storage`disk, locks
      ensures Valid()
      ensures EnabledRun(old(Engine()), steps) && Engine() == Execute(old(Engine()), steps)
      ensures committed.Ok? <==> InState(old(Engine()), tx, Running)
      ensures committed.Err? ==> committed.error == NotActive && Engine() == old(Engine())
      ensures nextTxId == old(nextTxId)
      ensures forall q :: pool.Visible(q) == old(pool.Visible(q))
      ensures committed.Ok? ==>
                && serial == old(serial) + [old(trace[tx])] && log == old(log) + [Record.Commit(tx)]
                && active == old(active) - {tx} && locks.lockTable == Released(old(locks.lockTable), tx)
                && trace == old(trace) - {tx}
                && forall k :: 0 <= k < |old(active[tx].undo)| ==>
                     At(storage.disk, old(active[tx].undo)[k].0) == old(pool.Visible(active[tx].undo[k].0))
    {
      hide PoolOk, Inv, Linked, At, TableOk, Tracked, Begun, Perform, Enabled, Execute, EnabledRun, Flushed,
          Unpinned, View, Released, BufferPool.Valid, LockManager.Valid;
      ghost var s0 := Engine();
      SameTransactions(s0, initial);
      if tx !in active || active[tx].status != Running {
        NoSteps(s0);
        return Err(NotActive), [];
      }
      var undo := active[tx].undo;
      LogCommitRuns(s0, tx, initial, nextTxId);
      ExecuteOne(s0, LogCommit(tx));
      EnterCommit(tx);
      steps := [LogCommit(tx)];

      ghost var flushes := FlushModified(undo);
      ExecuteConcat(s0, steps, flushes);
      steps := steps + flushes;

      EndCommitRuns(Engine(), tx, initial);
      ExecuteThen(s0, steps, EndCommit(tx));
      steps := steps + [EndCommit(tx)];
      LeaveCommitted(tx);
      assert active == old(active) - {tx};
      committed := Ok(());
    }

    /** The commit point: the COMMIT record. */
    method EnterCommit(tx: TxId)
      requires Valid() && InState(Engine(), tx, Running)
      modifies this`log, this`serial, this`active
      ensures Valid()
      ensures Enabled(old(Engine()), LogCommit(tx)) && Engine() == Perform(old(Engine()), LogCommit(tx))
      ensures log == old(log) + [Record.Commit(tx)] && serial == old(serial) + [old(trace[tx])]
      ensures active == old(active)[tx := old(active[tx]).(status := Committing)]
    {
      hide PoolOk, Inv, Linked, At, TableOk, Tracked, Begun, Unpinned;
      LogCommitRuns(Engine(), tx, initial, nextTxId);
      log := log + [Record.Commit(tx)];
      serial := serial + [trace[tx]];
      active := active[tx := active[tx].(status := Committing)];
    }

    /** The shrinking phase of a commit. */
    method LeaveCommitted(tx: TxId)
      requires Valid() && InState(Engine(), tx, Committing)
      modifies this`active, this`trace, locks
      ensures Valid()
      ensures Enabled(old(Engine()), EndCommit(tx)) && Engine() == Perform(old(Engine()), EndCommit(tx))
      ensures active == old(active) - {tx} && trace == old(trace) - {tx}
      ensures locks.lockTable == Released(old(locks.lockTable), tx)
    {
      hide PoolOk, Inv, Linked, At, TableOk, Tracked, Begun, Unpinned, Released;
      EndCommitRuns(Engine(), tx, initial);
      locks.ReleaseAll(tx);
      active := active - {tx};
      trace := trace - {tx};
    }

    /** Writes the before-images back, newest first, straight to the file, dropping the frames. */
    method RollBack(tx: TxId) returns (ghost steps: seq<Action>)
      requires Valid() && tx in active && active[tx].status == Aborting(|active[tx].undo|)
      modifies this`active, pool, pool.lru, storage`disk
      ensures Valid()
      ensures EnabledRun(old(Engine()), steps) && Engine() == Execute(old(Engine()), steps)
      ensures InState(Engine(), tx, Aborting(0)) && active == old(active)[tx := old(active[tx]).(status := Aborting(0))]
      ensures forall q :: FirstIn(old(active[tx]).undo, q) == None ==> pool.Visible(q) == old(pool.Visible(q))
    {
      hide PoolOk, Inv, Linked, At, Put, TableOk, Tracked, Begun, Perform, Enabled, Execute, EnabledRun, Unpinned,
          View, FirstIn;
      NoSteps(Engine());
      SameTransactions(Engine(), initial);
      steps := [];
      var undo := active[tx].undo;
      var i := |undo|;
      while i > 0
        invariant Valid() && 0 <= i <= |undo|
        invariant EnabledRun(old(Engine()), steps) && Engine() == Execute(old(Engine()), steps)
        invariant tx in active && active == old(active)[tx := Tx(Aborting(i), undo)]
        invariant forall q :: FirstIn(undo, q) == None ==> pool.Visible(q) == old(pool.Visible(q))
      {
        i := i - 1;
        UndoRuns(Engine(), tx, initial);
        ExecuteThen(old(Engine()), steps, UndoWrite(tx));
        steps := steps + [UndoWrite(tx)];
        UndoOne(tx);
      }
      SameTransactions(Engine(), initial);
    }

    /** Writes one before-image back. */
    method UndoOne(tx: TxId)
      requires Valid() && Enabled(Engine(), UndoWrite(tx))
      modifies this`active, pool, pool.lru, storage`disk
      ensures Valid()
      ensures Enabled(old(Engine()), UndoWrite(tx)) && Engine() == Perform(old(Engine()), UndoWrite(tx))
      ensures forall q :: FirstIn(old(active[tx]).undo, q) == None ==> pool.Visible(q) == old(pool.Visible(q))
    {
      hide PoolOk, Inv, Linked, At, Put, TableOk, Tracked, Begun, Unpinned, Members, Distinct, FirstIn, View;
      UndoRuns(Engine(), tx, initial);
      var left := active[tx].status.left;
      var (p, before) := active[tx].undo[left - 1];
      UnpinnedWithout(pool.pageTable, p);
      pool.Invalidate(p);
      PoolOverFile(pool.pageTable, storage.disk, pool.pending, pool.lru.order, pool.capacity, p, before);
      storage.WritePage(p, before);
      active := active[tx := active[tx].(status := Aborting(left - 1))];
      forall q | FirstIn(old(active[tx]).undo, q) == None
        ensures pool.Visible(q) == old(pool.Visible(q))
      {
        assert Shown(Engine(), q) == Shown(old(Engine()), q);
      }
    }

    /** Aborts an active transaction, undoing its writes newest first. */
    method AbortTransaction(tx: TxId) returns (ghost steps: seq<Action>)
      requires Valid() && (tx in active ==> active[tx].status.Running? || active[tx].status.Victim?)
      modifies this, pool, pool.lru, storage`disk, locks
      ensures Valid()
      ensures EnabledRun(old(Engine()), steps) && Engine() == Execute(old(Engine()), steps)
      ensures active == old(active) - {tx} && trace == old(trace) - {tx}
      ensures serial == old(serial) && nextTxId == old(nextTxId)
      ensures tx !in old(active) ==> Engine() == old(Engine())
      ensures tx in old(active) ==>
                log == old(log) + [Record.Abort(tx)] && locks.lockTable == Released(old(locks.lockTable), tx)
      ensures forall q :: !Modifies(old(Engine()), tx, q) ==> pool.Visible(q) == old(pool.Visible(q))
      ensures forall q :: Modifies(old(Engine()), tx, q) ==> pool.Visible(q) == Value(initial, serial, q)
    {
      hide PoolOk, Inv, Linked, At, TableOk, Tracked, Begun, Perform, Enabled, Execute, EnabledRun, Unpinned, View,
          FirstIn, Value, LastAfter, Released, Modifies;
      ghost var s0 := Engine();
      NoSteps(s0);
      SameTransactions(s0, initial);
      if tx !in active {
        StrangerModifiesNothing(s0, tx);
        return [];
      }
      steps := UndoAll(tx);
      EndAbortRuns(Engine(), tx, initial, nextTxId);
      ExecuteThen(s0, steps, EndAbort(tx));
      steps := steps + [EndAbort(tx)];
      LeaveAborted(tx);
    }

    /** The undo phase of an abort. */
    method UndoAll(tx: TxId) returns (ghost steps: seq<Action>)
      requires Valid() && (InState(Engine(), tx, Running) || InState(Engine(), tx, Victim))
      modifies this`active, pool, pool.lru, storage`disk
      ensures Valid() && InState(Engine(), tx, Aborting(0))
      ensures EnabledRun(old(Engine()), steps) && Engine() == Execute(old(Engine()), steps)
      ensures active == old(active)[tx := old(active[tx]).(status := Aborting(0))]
      ensures forall q :: !Modifies(old(Engine()), tx, q) ==> pool.Visible(q) == old(pool.Visible(q))
      ensures forall q :: Modifies(old(Engine()), tx, q) ==> pool.Visible(q) == Value(initial, serial, q)
    {
      hide PoolOk, Inv, Linked, At, TableOk, Tracked, Begun, Perform, Enabled, Execute, EnabledRun, Unpinned, View,
          FirstIn, Value, LastAfter, Released, Modifies;
      ghost var s0 := Engine();
      StartAbortRuns(s0, tx, initial);
      ExecuteOne(s0, StartAbort(tx));
      EnterAbort(tx);
      ghost var undone := RollBack(tx);
      steps := [StartAbort(tx)];
      ExecuteConcat(s0, steps, undone);
      steps := steps + undone;
      forall q
        ensures !Modifies(s0, tx, q) ==> FirstIn(s0.active[tx].undo, q) == None
        ensures Modifies(s0, tx, q) ==> pool.Visible(q) == Value(initial, serial, q)
      {
        AbortedView(s0, Engine(), tx, q, initial);
      }
    }

    method EnterAbort(tx: TxId)
      requires Valid() && (InState(Engine(), tx, Running) || InState(Engine(), tx, Victim))
      modifies this`active
      ensures Valid()
      ensures Enabled(old(Engine()), StartAbort(tx)) && Engine() == Perform(old(Engine()), StartAbort(tx))
      ensures active == old(active)[tx := old(active[tx]).(status := Aborting(|old(active[tx]).undo|))]
    {
      hide PoolOk, Inv, Linked, At, TableOk, Tracked, Begun, Unpinned;
      StartAbortRuns(Engine(), tx, initial);
      active := active[tx := active[tx].(status := Aborting(|active[tx].undo|))];
    }

    /** Logs the ABORT record and releases the locks. */
    method LeaveAborted(tx: TxId)
      requires Valid() && InState(Engine(), tx, Aborting(0))
      modifies this`log, this`active, this`trace, locks
      ensures Valid()
      ensures Enabled(old(Engine()), EndAbort(tx)) && Engine() == Perform(old(Engine()), EndAbort(tx))
      ensures active == old(active) - {tx} && trace == old(trace) - {tx}
      ensures log == old(log) + [Record.Abort(tx)] && locks.lockTable == Released(old(locks.lockTable), tx)
    {
      hide PoolOk, Inv, Linked, At, TableOk, Tracked, Begun, Unpinned, Released;
      EndAbortRuns(Engine(), tx, initial, nextTxId);
      log := log + [Record.Abort(tx)];
      locks.ReleaseAll(tx);
      active := active - {tx};
      trace := trace - {tx};
    }

    /**
      * Marks a deadlock victim and releases its locks; its next call fails and it is aborted. A victim that has
      * not written leaves the engine in order; the locks of one that has are gone before its writes are undone.
      */
    method MarkDeadlockVictim(tx: TxId)
      requires Valid() && (tx in active ==> active[tx].status.Running? || active[tx].status.Victim?)
      modifies this`active, this`trace, locks
      ensures tx !in old(active) ==> Engine() == old(Engine())
      ensures tx in old(active) ==> Engine() == Marked(old(Engine()), tx)
      ensures tx in old(active) && old(active[tx].undo) == [] ==>
                Enabled(old(Engine()), MarkVictim(tx)) && Engine() == Perform(old(Engine()), MarkVictim(tx))
      ensures tx !in old(active) || old(active[tx].undo) == [] ==> Valid()
      ensures pool.Valid() && locks.Valid()
    {
      hide PoolOk, Inv, Linked, At, TableOk, Tracked, Begun, Unpinned, Released;
      if tx !in active {
        return;
      }
      SameTransactions(Engine(), initial);
      if active[tx].undo == [] {
        VictimRuns(Engine(), tx, initial);
      }
      locks.ReleaseAll(tx);
      active := active[tx := active[tx].(status := Victim)];
      trace := trace[tx := []];
    }
  }

  lemma BeginsFresh(s: State, initial: Disk, t: TxId)
    requires Inv(s, initial) && forall u :: u in Begun(s.log) ==> u < t
    ensures Enabled(s, Start(t))
  {
  }

  lemma StartKeepsInv(s: State, t: TxId, initial: Disk)
    requires Inv(s, initial) && Enabled(s, Start(t)) && forall u :: u in Begun(s.log) ==> u < t
    ensures Inv(Perform(s, Start(t)), initial)
    ensures forall u :: u in Begun(s.log + [Record.Begin(t)]) ==> u < t + 1
  {
    PerformKeeps(s, Start(t), initial);
    Recovery.BegunNext(s.log, Record.Begin(t));
  }

  lemma SameTransactions(s: State, initial: Disk)
    requires Inv(s, initial)
    ensures s.active.Keys == s.trace.Keys
  {
  }

  // ---------------------------------------------------------------------
  // The methods' steps
  // ---------------------------------------------------------------------

  /** Frames and file may differ, as long as readers see no difference. */
  ghost predicate SameButFrames(s: State, s1: State) {
    && s1 == s.(pool := s1.pool, disk := s1.disk)
    && forall p :: Shown(s1, p) == Shown(s, p)
  }

  ghost function Pinned(s: State, p: PageId): State
    requires p in s.pool
  {
    s.(pool := s.pool[p := s.pool[p].(pinCount := 1)])
  }

  function LoadSteps(p: PageId, hit: bool, evicted: Option<PageId>, loaded: bool): seq<Action> {
    if hit then []
    else (if evicted.Some? then [Evict(evicted.value)] else []) + (if loaded then [Fetch(p)] else [])
  }

  /** The engine after making room for a page, if need be, and loading it. */
  ghost function LoadedState(s: State, p: PageId, evicted: Option<PageId>, loaded: bool): State
    requires evicted.Some? ==> evicted.value in s.pool
  {
    var s1 := if evicted.Some? then s.(pool := s.pool - {evicted.value},
                                       disk := Flushed(s.pool, s.disk, evicted.value)) else s;
    if loaded then s1.(pool := s1.pool[p := Frame(At(s1.disk, p), 0, false)]) else s1
  }

  lemma LoadRuns(s: State, p: PageId, evicted: Option<PageId>, loaded: bool, initial: Disk)
    requires Inv(s, initial) && Unpinned(s.pool)
    requires p in s.pool ==> evicted == None && loaded
    requires evicted.Some? ==> evicted.value in s.pool
    ensures var steps := LoadSteps(p, p in s.pool, evicted, loaded);
            && EnabledRun(s, steps) && Inv(Execute(s, steps), initial)
            && Execute(s, steps) == if p in s.pool then s else LoadedState(s, p, evicted, loaded)
    ensures var s1 := if p in s.pool then s else LoadedState(s, p, evicted, loaded);
            && SameButFrames(s, s1) && Unpinned(s1.pool)
            && (loaded ==> p in s1.pool)
  {
    if p !in s.pool {
      var s1 := s;
      if evicted.Some? {
        EvictRuns(s, evicted.value, initial);
        s1 := Perform(s, Evict(evicted.value));
      }
      FetchRuns(s1, p, initial);
      hide Inv, At, Flushed;
      assert loaded ==> Perform(s1, Fetch(p)) == LoadedState(s, p, evicted, loaded);
      assert !loaded ==> s1 == LoadedState(s, p, evicted, loaded);
      hide Enabled, Perform, LoadedState;
      LoadStepsRun(s, s1, p, evicted, loaded);
    }
  }

  lemma LoadStepsRun(s: State, s1: State, p: PageId, evicted: Option<PageId>, loaded: bool)
    requires evicted.Some? ==> Enabled(s, Evict(evicted.value)) && s1 == Perform(s, Evict(evicted.value))
    requires evicted.None? ==> s1 == s
    requires loaded ==> Enabled(s1, Fetch(p))
    ensures var steps := LoadSteps(p, false, evicted, loaded);
            EnabledRun(s, steps) && Execute(s, steps) == if loaded then Perform(s1, Fetch(p)) else s1
  {
    hide Enabled, Perform;
    NoSteps(s);
    if evicted.Some? {
      ExecuteThen(s, [], Evict(evicted.value));
    }
    var first := if evicted.Some? then [Evict(evicted.value)] else [];
    assert [] + [Evict(if evicted.Some? then evicted.value else 0)] ==
           [Evict(if evicted.Some? then evicted.value else 0)];
    if loaded {
      ExecuteThen(s, first, Fetch(p));
    } else {
      assert first + [] == first;
    }
  }

  lemma NoSteps(s: State)
    ensures EnabledRun(s, []) && Execute(s, []) == s
  {
  }

  lemma SameViews(s: State, s1: State)
    requires SameButFrames(s, s1)
    ensures s1 == s.(pool := s1.pool, disk := s1.disk)
    ensures forall q :: View(s1.pool, s1.disk, q) == View(s.pool, s.disk, q)
  {
    forall q
      ensures View(s1.pool, s1.disk, q) == View(s.pool, s.disk, q)
    {
      assert Shown(s1, q) == Shown(s, q);
    }
  }

  lemma NotPinned(pool: Pool, p: PageId)
    requires Unpinned(pool)
    ensures p in pool ==> pool[p].pinCount == 0
  {
  }

  lemma EvictRuns(s: State, p: PageId, initial: Disk)
    requires Inv(s, initial) && p in s.pool && Unpinned(s.pool)
    ensures Enabled(s, Evict(p)) && Inv(Perform(s, Evict(p)), initial)
    ensures SameButFrames(s, Perform(s, Evict(p))) && Unpinned(Perform(s, Evict(p)).pool)
  {
    PerformKeeps(s, Evict(p), initial);
    EngineKeeps.FlushKeepsFile(s, p, initial);
    hide Inv, At, Flushed;
  }

  lemma FetchRuns(s: State, p: PageId, initial: Disk)
    requires Inv(s, initial) && p !in s.pool && Unpinned(s.pool)
    ensures Enabled(s, Fetch(p)) && Inv(Perform(s, Fetch(p)), initial)
    ensures SameButFrames(s, Perform(s, Fetch(p))) && Unpinned(Perform(s, Fetch(p)).pool)
  {
    PerformKeeps(s, Fetch(p), initial);
    hide Inv, At;
  }

  lemma ReadRuns(s: State, t: TxId, p: PageId, initial: Disk)
    requires Inv(s, initial) && InState(s, t, Running) && Holding(s.locks, PageLock(s, p), t, S) && p in s.pool
    requires Unpinned(s.pool)
    ensures Enabled(s, ReadPage(t, p)) && Inv(Perform(s, ReadPage(t, p)), initial)
    ensures Perform(s, ReadPage(t, p)) == s.(trace := s.trace[t := s.trace[t] + [Saw(p, s.pool[p].page)]])
  {
    PerformKeeps(s, ReadPage(t, p), initial);
  }

  lemma InstalledViews(s: State, s1: State, t: TxId, p: PageId, image: Bytes)
    requires Enabled(s, WritePage(t, p, image)) && s1 == Perform(s, WritePage(t, p, image))
    ensures forall q :: View(s1.pool, s1.disk, q) == if q == p then image else View(s.pool, s.disk, q)
  {
  }

  lemma WriteRuns(s: State, t: TxId, p: PageId, image: Bytes, initial: Disk, bound: TxId)
    requires Inv(s, initial) && InState(s, t, Running) && Holding(s.locks, PageLock(s, p), t, X) && p in s.pool
    requires Unpinned(s.pool)
    requires image != [] && Shown(s, p) != [] && forall u :: u in Begun(s.log) ==> u < bound
    ensures Enabled(s, WritePage(t, p, image)) && Inv(Perform(s, WritePage(t, p, image)), initial)
    ensures forall u :: u in Begun(Perform(s, WritePage(t, p, image)).log) ==> u < bound
    ensures Unpinned(Perform(s, WritePage(t, p, image)).pool)
  {
    PerformKeeps(s, WritePage(t, p, image), initial);
    Recovery.BegunNext(s.log, Update(t, p, s.pool[p].page, image));
  }

  lemma LogCommitRuns(s: State, t: TxId, initial: Disk, bound: TxId)
    requires Inv(s, initial) && InState(s, t, Running) && forall u :: u in Begun(s.log) ==> u < bound
    ensures Enabled(s, LogCommit(t)) && Inv(Perform(s, LogCommit(t)), initial)
    ensures Perform(s, LogCommit(t)) ==
            s.(log := s.log + [Record.Commit(t)], active := SetStatus(s, t, Committing),
               serial := s.serial + [s.trace[t]])
    ensures forall u :: u in Begun(s.log + [Record.Commit(t)]) ==> u < bound
  {
    PerformKeeps(s, LogCommit(t), initial);
    Recovery.BegunNext(s.log, Record.Commit(t));
  }

  /** Flushing a page brings what it shows to the file, and takes no other page's contents away from it. */
  lemma FlushRuns(s: State, p: PageId, initial: Disk)
    requires Inv(s, initial) && Unpinned(s.pool)
    ensures Enabled(s, Flush(p)) && Inv(Perform(s, Flush(p)), initial) && Unpinned(Perform(s, Flush(p)).pool)
    ensures Perform(s, Flush(p)) ==
            s.(pool := if p in s.pool then s.pool[p := s.pool[p].(dirty := false)] else s.pool,
               disk := Flushed(s.pool, s.disk, p))
    ensures At(Perform(s, Flush(p)).disk, p) == Shown(s, p)
    ensures forall q :: At(s.disk, q) == Shown(s, q) ==> At(Perform(s, Flush(p)).disk, q) == At(s.disk, q)
  {
    PerformKeeps(s, Flush(p), initial);
    if p in s.pool {
      EngineKeeps.FlushKeepsFile(s, p, initial);
    }
    hide Inv, At, Flushed;
    forall q
      ensures At(Flushed(s.pool, s.disk, p), q) == if q == p && p in s.pool && s.pool[p].dirty then s.pool[p].page
              else At(s.disk, q)
    {
      FlushedAt(s.pool, s.disk, p, q);
    }
    assert p !in s.pool ==> Flushed(s.pool, s.disk, p) == s.disk by {
      NothingFlushed(s.pool, s.disk, p);
    }
  }

  lemma NothingFlushed(pool: Pool, d: Disk, p: PageId)
    ensures p !in pool ==> Flushed(pool, d, p) == d
  {
  }

  lemma EndCommitRuns(s: State, t: TxId, initial: Disk)
    requires Inv(s, initial) && InState(s, t, Committing)
    ensures Enabled(s, EndCommit(t)) && Inv(Perform(s, EndCommit(t)), initial)
    ensures Perform(s, EndCommit(t)) ==
              s.(locks := Released(s.locks, t), active := s.active - {t}, trace := s.trace - {t})
  {
    PerformKeeps(s, EndCommit(t), initial);
  }

  lemma UndoInRange(s: State, t: TxId, initial: Disk)
    requires Inv(s, initial) && t in s.active && s.active[t].status.Aborting?
    ensures s.active[t].status.left <= |s.active[t].undo|
  {
    hide LocksOk, Guarded, LogOk, Exclusive, Chained, ShowsRight, FileOk, SerialOk, LastAfter, LastWrite, FirstIn;
  }

  lemma UndoRuns(s: State, t: TxId, initial: Disk)
    requires Inv(s, initial) && t in s.active && s.active[t].status.Aborting? && s.active[t].status.left > 0
    ensures Enabled(s, UndoWrite(t)) && Inv(Perform(s, UndoWrite(t)), initial)
    ensures var (p, before) := s.active[t].undo[s.active[t].status.left - 1];
            && Perform(s, UndoWrite(t)) ==
               s.(pool := s.pool - {p}, disk := Put(s.disk, p, before),
                  active := SetStatus(s, t, Aborting(s.active[t].status.left - 1)))
            && FirstIn(s.active[t].undo, p).Some?
            && forall q :: q != p ==> Shown(Perform(s, UndoWrite(t)), q) == Shown(s, q)
  {
    hide Inv, FirstIn, Put;
    UndoInRange(s, t, initial);
    PerformKeeps(s, UndoWrite(t), initial);
    var left := s.active[t].status.left;
    FirstInSuffix(s.active[t].undo, left - 1);
    forall q | q != s.active[t].undo[left - 1].0
      ensures Shown(Perform(s, UndoWrite(t)), q) == Shown(s, q)
    {
      UndoFile(s, t, q);
    }
  }

  lemma UnpinnedWithout(pool: Pool, p: PageId)
    ensures Unpinned(pool) ==> Unpinned(pool - {p})
  {
  }

  /** Writing a page that is not resident under the pool. */
  lemma PoolOverFile(pool: Pool, d: Disk, pending: set<PageId>, order: seq<PageId>, capacity: nat, p: PageId,
                     image: Bytes)
    requires PoolOk(pool, d, pending, order, capacity) && p !in pool
    ensures PoolOk(pool, Put(d, p, image), pending, order, capacity)
  {
    hide At, Put, Members;
    forall q
      ensures At(Put(d, p, image), q) == if q == p then image else At(d, q)
    {
      AtPut(d, p, image, q);
    }
  }

  lemma StartAbortRuns(s: State, t: TxId, initial: Disk)
    requires Inv(s, initial) && (InState(s, t, Running) || InState(s, t, Victim))
    ensures Enabled(s, StartAbort(t)) && Inv(Perform(s, StartAbort(t)), initial)
    ensures Perform(s, StartAbort(t)) == s.(active := SetStatus(s, t, Aborting(|s.active[t].undo|)))
  {
    PerformKeeps(s, StartAbort(t), initial);
  }

  lemma EndAbortRuns(s: State, t: TxId, initial: Disk, bound: TxId)
    requires Inv(s, initial) && InState(s, t, Aborting(0)) && forall u :: u in Begun(s.log) ==> u < bound
    ensures Enabled(s, EndAbort(t)) && Inv(Perform(s, EndAbort(t)), initial)
    ensures Perform(s, EndAbort(t)) ==
            s.(log := s.log + [Record.Abort(t)], locks := Released(s.locks, t), active := s.active - {t},
               trace := s.trace - {t})
    ensures forall u :: u in Begun(s.log + [Record.Abort(t)]) ==> u < bound
  {
    PerformKeeps(s, EndAbort(t), initial);
    Recovery.BegunNext(s.log, Record.Abort(t));
  }

  lemma StrangerModifiesNothing(s: State, t: TxId)
    requires t !in s.active
    ensures forall p :: !Modifies(s, t, p)
  {
  }

  lemma VictimRuns(s: State, t: TxId, initial: Disk)
    requires Inv(s, initial) && (InState(s, t, Running) || InState(s, t, Victim)) && s.active[t].undo == []
    ensures Enabled(s, MarkVictim(t)) && Inv(Perform(s, MarkVictim(t)), initial)
  {
    PerformKeeps(s, MarkVictim(t), initial);
  }

  /** Once everything is undone, the pages the transaction had modified show their last committed contents. */
  lemma AbortedView(s0: State, s: State, t: TxId, p: PageId, initial: Disk)
    requires Inv(s0, initial) && Inv(s, initial) && InState(s, t, Aborting(0))
    requires t in s0.active && !s0.active[t].status.Committing? && s0.active[t].undo == s.active[t].undo
    ensures !Modifies(s0, t, p) ==> FirstIn(s0.active[t].undo, p) == None
    ensures Modifies(s0, t, p) ==> Shown(s, p) == Value(initial, s.serial, p)
  {
    assert FirstIn(s0.active[t].undo, p) == FirstBefore(s0.log, t, p);
    assert FirstIn(s.active[t].undo, p) == FirstBefore(s.log, t, p);
    SomeUpdate(s0.log, s0.active, t, p);
    SomeUpdate(s.log, s.active, t, p);
    if Modifies(s0, t, p) {
      assert Modifies(s, t, p);
      EngineKeeps.UndoneShows(s, t, initial, p);
      hide LocksOk, Guarded, LogOk, Traced, Exclusive, Chained, FileOk, ShowsRight, Base, Value, Legal, ReadsRight,
          View, Modifies;
      assert Base(s.log, |s.log|, initial, p) == Value(initial, s.serial, p);
    }
  }
}
