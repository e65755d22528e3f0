/** Log records and page files as values. */
module Records {
  import opened Ids

  type Bytes = seq<bv8>

  /** An empty image stands for a record without that image. */
  datatype Record =
    | Begin(txId: TxId)
    | Update(txId: TxId, pageId: PageId, before: Bytes, after: Bytes)
    | Commit(txId: TxId)
    | Abort(txId: TxId)
    | Checkpoint

  /** A file of pages; the file system fills a gap with blank pages. */
  datatype Disk = Disk(blank: Bytes, pages: seq<Bytes>)

  function At(d: Disk, p: PageId): Bytes {
    if p < |d.pages| then d.pages[p] else d.blank
  }

  /** The file grown so that page `p` is addressable. */
  function Grown(d: Disk, p: PageId): Disk {
    if p < |d.pages| then d else d.(pages := d.pages + seq(p + 1 - |d.pages|, _ => d.blank))
  }

  function Put(d: Disk, p: PageId, image: Bytes): Disk {
    Grown(d, p).(pages := Grown(d, p).pages[p := image])
  }

  lemma AtPut(d: Disk, p: PageId, image: Bytes, q: PageId)
    ensures At(Put(d, p, image), q) == if q == p then image else At(d, q)
    ensures At(Grown(d, p), q) == At(d, q)
  {
  }

  function PutAll(d: Disk, writes: seq<(PageId, Bytes)>): Disk {
    if writes == [] then d
    else Put(PutAll(d, writes[..|writes| - 1]), writes[|writes| - 1].0, writes[|writes| - 1].1)
  }

  function Begun(log: seq<Record>): set<TxId> {
    set i | 0 <= i < |log| && log[i].Begin? :: log[i].txId
  }

  function Committed(log: seq<Record>): set<TxId> {
    set i | 0 <= i < |log| && log[i].Commit? :: log[i].txId
  }

  function Losers(log: seq<Record>): set<TxId> {
    Begun(log) - Committed(log)
  }

  predicate Updates(r: Record, txs: set<TxId>, p: PageId) {
    r.Update? && r.pageId == p && r.txId in txs
  }

  predicate Redoes(r: Record, txs: set<TxId>, p: PageId) {
    Updates(r, txs, p) && r.after != []
  }

  predicate Undoes(r: Record, txs: set<TxId>, p: PageId) {
    Updates(r, txs, p) && r.before != []
  }

  /** Position of the last record that redoes `p`, or -1. */
  function LastRedo(log: seq<Record>, txs: set<TxId>, p: PageId): (i: int)
    ensures -1 <= i < |log|
    ensures i >= 0 ==> Redoes(log[i], txs, p)
    ensures forall j :: i < j < |log| ==> !Redoes(log[j], txs, p)
  {
    if log == [] || Redoes(log[|log| - 1], txs, p) then |log| - 1 else LastRedo(log[..|log| - 1], txs, p)
  }

  /** Position of the first record that undoes `p`, or the length of the log. */
  function FirstUndo(log: seq<Record>, txs: set<TxId>, p: PageId): (i: nat)
    ensures i <= |log|
    ensures i < |log| ==> Undoes(log[i], txs, p)
    ensures forall j :: 0 <= j < i ==> !Undoes(log[j], txs, p)
  {
    if log == [] || Undoes(log[0], txs, p) then 0 else 1 + FirstUndo(log[1..], txs, p)
  }

  /** What a page holds after its last redo, starting from `base`. */
  function Redone(log: seq<Record>, txs: set<TxId>, p: PageId, base: Bytes): Bytes {
    var i := LastRedo(log, txs, p);
    if i >= 0 then log[i].after else base
  }

  /** What a page holds once its updates have been undone back to the first, starting from `base`. */
  function Undone(log: seq<Record>, txs: set<TxId>, p: PageId, base: Bytes): Bytes {
    var i := FirstUndo(log, txs, p);
    if i < |log| then log[i].before else base
  }

  /** The before-image of the first loser's update if there is one, else the after-image of the last winner's. */
  function Recovered(log: seq<Record>, d: Disk, p: PageId): Bytes {
    Undone(log, Losers(log), p, Redone(log, Committed(log), p, At(d, p)))
  }
}
