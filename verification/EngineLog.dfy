/** How the log functions change as records are appended. */
module EngineLog {
  import opened Collections
  import opened Ids
  import opened Records
  import opened Recovery
  import opened EngineState

  lemma RedoAppend(log: seq<Record>, r: Record, txs: set<TxId>, p: PageId)
    ensures LastRedo(log + [r], txs, p) == if Redoes(r, txs, p) then |log| else LastRedo(log, txs, p)
  {
    assert (log + [r])[..|log|] == log;
  }

  lemma {:induction false} UndoAppend(log: seq<Record>, r: Record, txs: set<TxId>, p: PageId)
    ensures FirstUndo(log, txs, p) < |log| ==> FirstUndo(log + [r], txs, p) == FirstUndo(log, txs, p)
    ensures FirstUndo(log, txs, p) == |log| ==>
              FirstUndo(log + [r], txs, p) == if Undoes(r, txs, p) then |log| else |log| + 1
  {
    if log == [] {
      assert log + [r] == [r] && [r][1..] == [];
    } else {
      UndoAppend(log[1..], r, txs, p);
      assert (log + [r])[1..] == log[1..] + [r];
    }
  }

  lemma AfterAppend(log: seq<Record>, r: Record, t: TxId, p: PageId)
    ensures LastAfter(log + [r], t, p) == if Redoes(r, {t}, p) then Some(r.after) else LastAfter(log, t, p)
  {
    RedoAppend(log, r, {t}, p);
    assert forall k :: 0 <= k < |log| ==> (log + [r])[k] == log[k];
  }

  lemma BeforeAppend(log: seq<Record>, r: Record, t: TxId, p: PageId)
    ensures FirstBefore(log + [r], t, p) ==
            if FirstBefore(log, t, p).Some? then FirstBefore(log, t, p)
            else if Undoes(r, {t}, p) then Some(r.before)
            else None
  {
    UndoAppend(log, r, {t}, p);
    assert forall k :: 0 <= k < |log| ==> (log + [r])[k] == log[k];
  }

  lemma RedoneAppend(log: seq<Record>, r: Record, txs: set<TxId>, p: PageId, base: Bytes)
    ensures Redone(log + [r], txs, p, base) == if Redoes(r, txs, p) then r.after else Redone(log, txs, p, base)
  {
    RedoAppend(log, r, txs, p);
  }

  /** Appending anything but a commit leaves the committed contents as they were. */
  lemma BaseAppend(log: seq<Record>, r: Record, n: nat, initial: Disk, p: PageId)
    requires n <= |log| && !r.Commit?
    ensures Base(log + [r], n, initial, p) == Base(log, n, initial, p)
    ensures !Redoes(r, Committed(log), p) ==> Base(log + [r], |log| + 1, initial, p) == Base(log, |log|, initial, p)
  {
    BegunNext(log, r);
    assert (log + [r])[..n] == log[..n];
    assert (log + [r])[..|log| + 1] == log + [r] && log[..|log|] == log;
    RedoneAppend(log, r, Committed(log), p, At(initial, p));
  }

  /** A set of transactions that updates the page in the same records. */
  lemma {:induction false} SameRedo(log: seq<Record>, txs: set<TxId>, others: set<TxId>, p: PageId)
    requires forall i :: 0 <= i < |log| ==> (Redoes(log[i], txs, p) <==> Redoes(log[i], others, p))
    ensures LastRedo(log, txs, p) == LastRedo(log, others, p)
  {
    var i, j := LastRedo(log, txs, p), LastRedo(log, others, p);
    assert i >= 0 ==> Redoes(log[i], others, p);
    assert j >= 0 ==> Redoes(log[j], txs, p);
  }

  /** Committing changes the committed contents just of the pages that the transaction updated. */
  lemma BaseCommit(log: seq<Record>, t: TxId, n: nat, initial: Disk, p: PageId)
    requires n <= |log|
    requires forall i :: 0 <= i < n ==> !Updates(log[i], {t}, p)
    ensures Base(log + [Commit(t)], n, initial, p) == Base(log, n, initial, p)
  {
    BegunNext(log, Commit(t));
    var prefix := log[..n];
    assert (log + [Commit(t)])[..n] == prefix;
    forall i | 0 <= i < n
      ensures Redoes(prefix[i], Committed(log) + {t}, p) <==> Redoes(prefix[i], Committed(log), p)
    {
      assert !Updates(log[i], {t}, p);
    }
    SameRedo(prefix, Committed(log) + {t}, Committed(log), p);
  }

  /** If the transaction wrote last, its last after-image becomes the committed contents. */
  lemma BaseCommitOwn(log: seq<Record>, t: TxId, initial: Disk, p: PageId)
    requires LastAfter(log, t, p).Some?
    requires forall j :: LastRedo(log, {t}, p) < j < |log| && log[j].Update? && log[j].pageId == p ==> log[j].txId == t
    ensures Base(log + [Commit(t)], |log| + 1, initial, p) == LastAfter(log, t, p).value
  {
    var all, txs := log + [Commit(t)], Committed(log) + {t};
    BegunNext(log, Commit(t));
    assert all[..|log| + 1] == all;
    RedoneAppend(log, Commit(t), txs, p, At(initial, p));
    var i, k := LastRedo(log, {t}, p), LastRedo(log, txs, p);
    assert Redoes(log[i], txs, p);
    forall j | i < j < |log|
      ensures !Redoes(log[j], txs, p)
    {
      assert Redoes(log[j], txs, p) ==> Redoes(log[j], {t}, p);
    }
  }

  /** Without a winner's update of the page from `n` on, the committed contents stay as they are. */
  lemma BaseStays(log: seq<Record>, n: nat, initial: Disk, p: PageId)
    requires n <= |log| && forall j :: n <= j < |log| ==> !Updates(log[j], Committed(log), p)
    ensures Base(log, n, initial, p) == Base(log, |log|, initial, p)
  {
    var w := Committed(log);
    assert log[..|log|] == log;
    var i, j := LastRedo(log[..n], w, p), LastRedo(log, w, p);
    assert i >= 0 ==> Redoes(log[i], w, p);
    assert j >= 0 ==> j < n && Redoes(log[..n][j], w, p);
  }

  lemma SomeUpdate(log: seq<Record>, active: map<TxId, Tx>, t: TxId, p: PageId)
    requires LogOk(log, active)
    ensures LastAfter(log, t, p).Some? <==> FirstBefore(log, t, p).Some?
    ensures LastAfter(log, t, p).Some? ==> t in Begun(log) && !NoUpdates(log, p)
  {
    var i, j := LastRedo(log, {t}, p), FirstUndo(log, {t}, p);
    assert i >= 0 ==> Undoes(log[i], {t}, p);
    assert j < |log| ==> Redoes(log[j], {t}, p);
  }

  /** A recorded update shows up as a last after-image. */
  lemma UpdateShows(log: seq<Record>, active: map<TxId, Tx>, i: nat)
    requires LogOk(log, active) && i < |log| && log[i].Update?
    ensures LastAfter(log, log[i].txId, log[i].pageId).Some?
  {
    assert Redoes(log[i], {log[i].txId}, log[i].pageId);
  }

  lemma OneWriter(log: seq<Record>, active: map<TxId, Tx>, t: TxId, u: TxId, p: PageId)
    requires Exclusive(log, active) && t in active && u in active
    requires LastAfter(log, t, p).Some? && LastAfter(log, u, p).Some?
    ensures t == u
  {
    var i, j := LastRedo(log, {t}, p), LastRedo(log, {u}, p);
  }

  /** After its last update of a page, and even after its first, only the transaction itself updates it. */
  lemma NobodyAfter(log: seq<Record>, active: map<TxId, Tx>, t: TxId, p: PageId, i: nat, j: nat)
    requires Exclusive(log, active) && t in active && i < j < |log|
    requires Updates(log[i], {t}, p) && log[j].Update? && log[j].pageId == p
    ensures log[j].txId == t
  {
  }

  lemma {:induction false} FirstInAppend(undo: seq<(PageId, Bytes)>, e: (PageId, Bytes), p: PageId)
    ensures FirstIn(undo + [e], p) ==
            if FirstIn(undo, p).Some? then FirstIn(undo, p) else if e.0 == p then Some(e.1) else None
  {
    if undo == [] {
      assert FirstIn([e], p) == if e.0 == p then Some(e.1) else FirstIn([e][1..], p);
    } else {
      FirstInAppend(undo[1..], e, p);
      assert (undo + [e])[1..] == undo[1..] + [e];
    }
  }

  lemma {:induction false} LastWriteAt(ops: seq<Op>, p: PageId) returns (k: nat)
    requires LastWrite(ops, p).Some?
    ensures k < |ops| && ops[k] == Wrote(p, LastWrite(ops, p).value)
  {
    k := |ops| - 1;
    if ops[k] != Wrote(p, LastWrite(ops, p).value) {
      k := LastWriteAt(ops[..k], p);
    }
  }

  lemma LastWriteAppend(ops: seq<Op>, op: Op, p: PageId)
    ensures LastWrite(ops + [op], p) == if op == Wrote(p, op.value) then Some(op.value) else LastWrite(ops, p)
  {
    assert (ops + [op])[..|ops|] == ops;
  }

  lemma ReadsRightAppend(initial: Disk, serial: seq<seq<Op>>, ops: seq<Op>, op: Op)
    requires ReadsRight(initial, serial, ops)
    requires op.Saw? ==> op.value == match LastWrite(ops, op.page)
                                     case Some(v) => v
                                     case None => Value(initial, serial, op.page)
    ensures ReadsRight(initial, serial, ops + [op])
  {
    var all := ops + [op];
    forall k | 0 <= k < |all| && all[k].Saw?
      ensures all[k].value == match LastWrite(all[..k], all[k].page)
                              case Some(v) => v
                              case None => Value(initial, serial, all[k].page)
    {
      if k < |ops| {
        assert all[..k] == ops[..k] && all[k] == ops[k];
      } else {
        assert all[..k] == ops;
      }
    }
  }
}
