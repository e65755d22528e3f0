/** Crash recovery: analyse the log, redo the winners forwards, undo the losers backwards. */
module Recovery {
  import opened Collections
  import opened Ids
  import opened Records

  /** The page images that the redo pass writes, in order. */
  function RedoWrites(log: seq<Record>, winners: set<TxId>): seq<(PageId, Bytes)> {
    if log == [] then []
    else
      var r := log[|log| - 1];
      RedoWrites(log[..|log| - 1], winners) +
      if r.Update? && Redoes(r, winners, r.pageId) then [(r.pageId, r.after)] else []
  }

  /** The page images that the undo pass writes, in order. */
  function UndoWrites(log: seq<Record>, losers: set<TxId>): seq<(PageId, Bytes)> {
    if log == [] then []
    else
      UndoWrites(log[1..], losers) +
      if log[0].Update? && Undoes(log[0], losers, log[0].pageId) then [(log[0].pageId, log[0].before)] else []
  }

  function Writes(log: seq<Record>): seq<(PageId, Bytes)> {
    RedoWrites(log, Committed(log)) + UndoWrites(log, Losers(log))
  }

  lemma PutNext(d: Disk, writes: seq<(PageId, Bytes)>, p: PageId, image: Bytes)
    ensures PutAll(d, writes + [(p, image)]) == Put(PutAll(d, writes), p, image)
  {
    assert (writes + [(p, image)])[..|writes|] == writes;
  }

  lemma {:induction false} PutSum(d: Disk, first: seq<(PageId, Bytes)>, second: seq<(PageId, Bytes)>)
    ensures PutAll(d, first + second) == PutAll(PutAll(d, first), second)
  {
    if second == [] {
      assert first + second == first;
    } else {
      var n := |second| - 1;
      PutSum(d, first, second[..n]);
      assert (first + second)[..|first| + n] == first + second[..n];
    }
  }

  lemma {:induction false} RedoSettles(log: seq<Record>, winners: set<TxId>, d: Disk, p: PageId)
    ensures At(PutAll(d, RedoWrites(log, winners)), p) == Redone(log, winners, p, At(d, p))
  {
    if log != [] {
      var rest, r := log[..|log| - 1], log[|log| - 1];
      RedoSettles(rest, winners, d, p);
      if r.Update? && Redoes(r, winners, r.pageId) {
        PutNext(d, RedoWrites(rest, winners), r.pageId, r.after);
        AtPut(PutAll(d, RedoWrites(rest, winners)), r.pageId, r.after, p);
      } else {
        assert RedoWrites(log, winners) == RedoWrites(rest, winners);
      }
    }
  }

  lemma {:induction false} UndoSettles(log: seq<Record>, losers: set<TxId>, d: Disk, p: PageId)
    ensures At(PutAll(d, UndoWrites(log, losers)), p) == Undone(log, losers, p, At(d, p))
  {
    if log != [] {
      var r := log[0];
      UndoSettles(log[1..], losers, d, p);
      if r.Update? && Undoes(r, losers, r.pageId) {
        PutNext(d, UndoWrites(log[1..], losers), r.pageId, r.before);
        AtPut(PutAll(d, UndoWrites(log[1..], losers)), r.pageId, r.before, p);
      } else {
        assert UndoWrites(log, losers) == UndoWrites(log[1..], losers);
      }
    }
  }

  /** For every log, the writes of a whole recovery leave each page as specified. */
  lemma WritesRecover(log: seq<Record>, d: Disk, p: PageId)
    ensures At(PutAll(d, Writes(log)), p) == Recovered(log, d, p)
  {
    PutSum(d, RedoWrites(log, Committed(log)), UndoWrites(log, Losers(log)));
    RedoSettles(log, Committed(log), d, p);
    UndoSettles(log, Losers(log), PutAll(d, RedoWrites(log, Committed(log))), p);
  }

  lemma GrownPut(d: Disk, p: PageId, image: Bytes)
    ensures Put(Grown(d, p), p, image) == Put(d, p, image)
  {
  }

  // ---------------------------------------------------------------------
  // Recovery interrupted and run again
  // ---------------------------------------------------------------------

  /** ABORT records of transactions that lost. */
  ghost predicate AbortsOf(aborts: seq<Record>, losers: set<TxId>) {
    forall i :: 0 <= i < |aborts| ==> aborts[i].Abort? && aborts[i].txId in losers
  }

  lemma {:induction false} AbortsChangeNothing(log: seq<Record>, aborts: seq<Record>)
    requires forall i :: 0 <= i < |aborts| ==> aborts[i].Abort?
    ensures Begun(log + aborts) == Begun(log) && Committed(log + aborts) == Committed(log)
    ensures Writes(log + aborts) == Writes(log)
  {
    if aborts == [] {
      assert log + aborts == log;
    } else {
      var n := |aborts| - 1;
      var all := log + aborts;
      AbortsChangeNothing(log, aborts[..n]);
      assert all[..|log| + n] == log + aborts[..n];
      assert forall i :: 0 <= i < |all| - 1 ==> all[i] == (log + aborts[..n])[i];
      assert Begun(all) == Begun(log + aborts[..n]);
      assert Committed(all) == Committed(log + aborts[..n]);
      UndoSkipsLast(log + aborts[..n], aborts[n], Losers(log));
      assert all == log + aborts[..n] + [aborts[n]];
    }
  }

  lemma {:induction false} UndoSkipsLast(log: seq<Record>, r: Record, losers: set<TxId>)
    requires !r.Update?
    ensures UndoWrites(log + [r], losers) == UndoWrites(log, losers)
  {
    if log == [] {
      assert (log + [r])[1..] == [];
    } else {
      UndoSkipsLast(log[1..], r, losers);
      assert (log + [r])[1..] == log[1..] + [r];
    }
  }

  lemma {:induction false} UntouchedPage(d: Disk, writes: seq<(PageId, Bytes)>, p: PageId)
    requires forall i :: 0 <= i < |writes| ==> writes[i].0 != p
    ensures At(PutAll(d, writes), p) == At(d, p)
  {
    if writes != [] {
      UntouchedPage(d, writes[..|writes| - 1], p);
      AtPut(PutAll(d, writes[..|writes| - 1]), writes[|writes| - 1].0, writes[|writes| - 1].1, p);
    }
  }

  lemma {:induction false} RedoWritesTouch(log: seq<Record>, txs: set<TxId>)
    ensures forall w :: w in RedoWrites(log, txs) ==> LastRedo(log, txs, w.0) >= 0
  {
    if log != [] {
      RedoWritesTouch(log[..|log| - 1], txs);
    }
  }

  lemma {:induction false} UndoWritesTouch(log: seq<Record>, txs: set<TxId>)
    ensures forall w :: w in UndoWrites(log, txs) ==> FirstUndo(log, txs, w.0) < |log|
  {
    if log != [] {
      UndoWritesTouch(log[1..], txs);
    }
  }

  /** Stopping after any number of page writes and ABORT records does not change what recovery restores. */
  lemma InterruptionIsHarmless(log: seq<Record>, d: Disk, k: nat, aborts: seq<Record>, p: PageId)
    requires k <= |Writes(log)| && AbortsOf(aborts, Losers(log))
    ensures Recovered(log + aborts, PutAll(d, Writes(log)[..k]), p) == Recovered(log, d, p)
  {
    AbortsChangeNothing(log, aborts);
    var d1 := PutAll(d, Writes(log)[..k]);
    WritesRecover(log, d, p);
    WritesRecover(log, d1, p);
    WritesRecover(log + aborts, d1, p);
    if LastRedo(log, Committed(log), p) < 0 && FirstUndo(log, Losers(log), p) == |log| {
      RedoWritesTouch(log, Committed(log));
      UndoWritesTouch(log, Losers(log));
      forall i | 0 <= i < k
        ensures Writes(log)[..k][i].0 != p
      {
        assert Writes(log)[i] in RedoWrites(log, Committed(log)) || Writes(log)[i] in UndoWrites(log, Losers(log));
      }
      UntouchedPage(d, Writes(log)[..k], p);
    }
  }

  /** How far one attempt at recovery got before the process died. */
  datatype Attempt = Attempt(writes: nat, aborts: seq<Record>)

  ghost predicate Possible(log: seq<Record>, attempts: seq<Attempt>) {
    forall i :: 0 <= i < |attempts| ==> attempts[i].writes <= |Writes(log)| && AbortsOf(attempts[i].aborts, Losers(log))
  }

  function LogAfter(log: seq<Record>, attempts: seq<Attempt>): seq<Record>
    decreases |attempts|
  {
    if attempts == [] then log else LogAfter(log + attempts[0].aborts, attempts[1..])
  }

  function DiskAfter(log: seq<Record>, d: Disk, attempts: seq<Attempt>): Disk
    requires forall i :: 0 <= i < |attempts| ==> attempts[i].writes <= |Writes(log)|
    decreases |attempts|
  {
    if attempts == [] then d else DiskAfter(log, PutAll(d, Writes(log)[..attempts[0].writes]), attempts[1..])
  }

  /** Any number of interrupted attempts followed by a whole recovery restore what one recovery does. */
  lemma {:induction false} RecoveryIsIdempotent(log: seq<Record>, d: Disk, attempts: seq<Attempt>, p: PageId)
    requires Possible(log, attempts)
    ensures Recovered(LogAfter(log, attempts), DiskAfter(log, d, attempts), p) == Recovered(log, d, p)
    decreases |attempts|
  {
    if attempts != [] {
      var a := attempts[0];
      var d1 := PutAll(d, Writes(log)[..a.writes]);
      InterruptionIsHarmless(log, d, a.writes, a.aborts, p);
      AbortsChangeNothing(log, a.aborts);
      SameWritesSameDisk(log, log + a.aborts, d1, attempts[1..]);
      RecoveryIsIdempotent(log + a.aborts, d1, attempts[1..], p);
    }
  }

  lemma {:induction false} SameWritesSameDisk(log: seq<Record>, log1: seq<Record>, d: Disk, attempts: seq<Attempt>)
    requires Writes(log) == Writes(log1)
    requires forall i :: 0 <= i < |attempts| ==> attempts[i].writes <= |Writes(log)|
    ensures DiskAfter(log, d, attempts) == DiskAfter(log1, d, attempts)
    decreases |attempts|
  {
    if attempts != [] {
      SameWritesSameDisk(log, log1, PutAll(d, Writes(log)[..attempts[0].writes]), attempts[1..]);
    }
  }

  class RecoveryManager {
    var log: seq<Record>
    var disk: Disk

    constructor (log: seq<Record>, disk: Disk)
      ensures this.log == log && this.disk == disk
    {
      this.log, this.disk := log, disk;
    }

    /** Pass 1: classifies the transactions found in the log. */
    method Analyse(records: seq<Record>) returns (winners: set<TxId>, losers: set<TxId>, started: set<TxId>)
      ensures winners == Committed(records) && losers == Losers(records) && started == Begun(records)
    {
      started := {};
      var committed: set<TxId> := {};
      for i := 0 to |records|
        invariant started == Begun(records[..i]) && committed == Committed(records[..i])
      {
        assert records[..i + 1] == records[..i] + [records[i]];
        BegunNext(records[..i], records[i]);
        match records[i] {
          case Begin(txId) => started := started + {txId};
          case Commit(txId) => committed := committed + {txId};
          case _ =>
        }
      }
      assert records[..|records|] == records;
      losers := {};
      var rest := started;
      while rest != {}
        invariant rest <= started && losers == (started - rest) - committed
        decreases rest
      {
        var txId := Next(rest);
        if txId !in committed {
          losers := losers + {txId};
        }
        rest := rest - {txId};
      }
      winners := committed;
    }

    /** Pass 2: writes the after-images of committed transactions, forwards. */
    method Redo(records: seq<Record>, winners: set<TxId>) returns (applied: nat)
      modifies `disk
      ensures disk == PutAll(old(disk), RedoWrites(records, winners))
      ensures applied == |RedoWrites(records, winners)|
    {
      applied := 0;
      for i := 0 to |records|
        invariant disk == PutAll(old(disk), RedoWrites(records[..i], winners))
        invariant applied == |RedoWrites(records[..i], winners)|
      {
        assert records[..i + 1][..i] == records[..i];
        var record := records[i];
        if record.Update? && record.txId in winners && record.after != [] {
          PutNext(old(disk), RedoWrites(records[..i], winners), record.pageId, record.after);
          GrownPut(disk, record.pageId, record.after);
          disk := Grown(disk, record.pageId);
          disk := Put(disk, record.pageId, record.after);
          applied := applied + 1;
        } else {
          assert RedoWrites(records[..i + 1], winners) == RedoWrites(records[..i], winners);
        }
      }
      assert records[..|records|] == records;
    }

    /** Pass 3: from the end of the log back to its start, writes the before-images of the losers. */
    method Undo(records: seq<Record>, losers: set<TxId>) returns (reverted: nat)
      modifies `disk
      ensures disk == PutAll(old(disk), UndoWrites(records, losers))
      ensures reverted == |UndoWrites(records, losers)|
    {
      reverted := 0;
      var i := |records|;
      while i > 0
        invariant 0 <= i <= |records|
        invariant disk == PutAll(old(disk), UndoWrites(records[i..], losers))
        invariant reverted == |UndoWrites(records[i..], losers)|
      {
        i := i - 1;
        assert records[i..][1..] == records[i + 1..];
        var record := records[i];
        if record.Update? && record.txId in losers && record.before != [] {
          PutNext(old(disk), UndoWrites(records[i + 1..], losers), record.pageId, record.before);
          GrownPut(disk, record.pageId, record.before);
          disk := Grown(disk, record.pageId);
          disk := Put(disk, record.pageId, record.before);
          reverted := reverted + 1;
        } else {
          assert UndoWrites(records[i..], losers) == UndoWrites(records[i + 1..], losers);
        }
      }
    }

    /** The whole routine; its page writes are `Writes(log)` in that order, and its ABORT records follow them. */
    method Recover() returns (redone: nat, undone: nat)
      modifies this
      ensures disk == PutAll(old(disk), Writes(old(log)))
      ensures forall p :: At(disk, p) == Recovered(old(log), old(disk), p)
      ensures old(log) <= log && AbortsOf(log[|old(log)|..], Losers(old(log)))
      ensures forall txId :: txId in Losers(old(log)) ==> Abort(txId) in log
      ensures |log| == |old(log)| + |Losers(old(log))|
      ensures redone == |RedoWrites(old(log), Committed(old(log)))|
      ensures undone == |UndoWrites(old(log), Losers(old(log)))|
    {
      hide Begun, Committed, LastRedo, FirstUndo, RedoWrites, UndoWrites, PutAll, Put, At;
      var records := log;
      var winners, losers, started := Analyse(records);
      redone := Redo(records, winners);
      undone := Undo(records, losers);
      PutSum(old(disk), RedoWrites(records, winners), UndoWrites(records, losers));
      forall p
        ensures At(disk, p) == Recovered(old(log), old(disk), p)
      {
        WritesRecover(records, old(disk), p);
      }
      var rest := losers;
      while rest != {}
        invariant rest <= losers && disk == PutAll(old(disk), Writes(records))
        invariant records <= log && AbortsOf(log[|records|..], losers)
        invariant forall txId :: txId in losers - rest ==> Abort(txId) in log
        invariant |log| == |records| + |losers| - |rest|
        decreases rest
      {
        var txId := Next(rest);
        assert (log + [Abort(txId)])[|records|..] == log[|records|..] + [Abort(txId)];
        log := log + [Abort(txId)];
        rest := rest - {txId};
      }
    }
  }

  lemma BegunNext(log: seq<Record>, r: Record)
    ensures Begun(log + [r]) == Begun(log) + (if r.Begin? then {r.txId} else {})
    ensures Committed(log + [r]) == Committed(log) + (if r.Commit? then {r.txId} else {})
  {
    var all := log + [r];
    assert forall i :: 0 <= i < |log| ==> all[i] == log[i];
    assert all[|log|] == r;
  }
}
