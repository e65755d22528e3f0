/** The buffer pool: pinned and dirty frames over the page file, replaced least recently used first. */
module Buffering {
  import opened Collections
  import opened Ids
  import opened Records
  import opened Recency
  import opened Storage

  datatype Frame = Frame(page: Bytes, pinCount: nat, dirty: bool)

  type Pool = map<PageId, Frame>

  /** What a reader of page `p` sees: the frame over the file. */
  function View(pool: Pool, d: Disk, p: PageId): Bytes {
    if p in pool then pool[p].page else At(d, p)
  }

  /** The file once a dirty frame has been written back. */
  function Flushed(pool: Pool, d: Disk, p: PageId): Disk {
    if p in pool && pool[p].dirty then Put(d, p, pool[p].page) else d
  }

  /**
    * The recency list holds exactly the resident pages, there are no more of them than frames, a frame that is
    * not dirty shows what the file holds, and only pinned pages have changes that were not reported yet.
    */
  ghost predicate PoolOk(pool: Pool, d: Disk, pending: set<PageId>, order: seq<PageId>, capacity: nat) {
    && pool.Keys == Members(order) && |pool| <= capacity
    && (forall p :: p in pool && !pool[p].dirty && p !in pending ==> pool[p].page == At(d, p))
    && (forall p :: p in pending ==> p in pool && pool[p].pinCount > 0)
  }

  function DirtyPages(pool: Pool): set<PageId> {
    set p | p in pool && pool[p].dirty
  }

  /** The last unpinned page of a recency list. */
  ghost predicate IsVictim(order: seq<PageId>, pool: Pool, victim: PageId) {
    exists i :: 0 <= i < |order| && order[i] == victim && victim in pool && pool[victim].pinCount == 0
                && forall j :: i < j < |order| ==> order[j] in pool && pool[order[j]].pinCount > 0
  }

  lemma OneVictim(order: seq<PageId>, pool: Pool, victim: PageId)
    requires IsVictim(order, pool, victim)
    ensures victim in pool && pool[victim].pinCount == 0
    ensures forall v :: IsVictim(order, pool, v) ==> v == victim
  {
  }

  lemma NoVictim(order: seq<PageId>, pool: Pool)
    requires forall p :: p in pool ==> pool[p].pinCount > 0
    ensures forall v :: !IsVictim(order, pool, v)
  {
  }

  lemma ResidentView(pool: Pool, d: Disk, p: PageId)
    requires p in pool
    ensures View(pool, d, p) == pool[p].page
  {
  }

  /** The frames are the same, all of them clean. */
  predicate AllFlushed(before: Pool, after: Pool) {
    after.Keys == before.Keys && forall p :: p in after ==> after[p] == before[p].(dirty := false)
  }

  /** The same but for the pages that are still to come. */
  predicate PartFlushed(before: Pool, after: Pool, rest: set<PageId>) {
    && after.Keys == before.Keys
    && forall p :: p in after ==> after[p] == if p in rest then before[p] else before[p].(dirty := false)
  }

  lemma NoneFlushed(pool: Pool)
    ensures PartFlushed(pool, pool, pool.Keys) && DirtyPages(pool) - pool.Keys == {}
  {
  }

  lemma NoneLeft(before: Pool, after: Pool)
    requires PartFlushed(before, after, {})
    ensures AllFlushed(before, after) && forall p :: p in after ==> !after[p].dirty
    ensures DirtyPages(before) - {} == DirtyPages(before)
  {
  }

  lemma OneMoreFlushed(before: Pool, after: Pool, rest: set<PageId>, p: PageId)
    requires PartFlushed(before, after, rest) && p in rest && rest <= after.Keys
    ensures PartFlushed(before, after[p := after[p].(dirty := false)], rest - {p})
    ensures |DirtyPages(before) - (rest - {p})| == |DirtyPages(before) - rest| + if after[p].dirty then 1 else 0
  {
    var dirty := DirtyPages(before);
    assert dirty - (rest - {p}) == (dirty - rest) + if after[p].dirty then {p} else {};
  }

  /** Replacing a frame, with its changes reported or pending. */
  lemma ReframedOk(pool: Pool, d: Disk, pending: set<PageId>, order: seq<PageId>, capacity: nat, p: PageId, f: Frame,
                   still: bool)
    requires PoolOk(pool, d, pending, order, capacity) && p in pool
    requires still ==> f.pinCount > 0
    requires !still && !f.dirty ==> f.page == At(d, p)
    ensures PoolOk(pool[p := f], d, if still then pending + {p} else pending - {p}, order, capacity)
  {
    hide At, Members;
    assert pool[p := f].Keys == pool.Keys;
  }

  lemma FlushedAt(pool: Pool, d: Disk, p: PageId, q: PageId)
    ensures At(Flushed(pool, d, p), q) == if q == p && p in pool && pool[p].dirty then pool[p].page else At(d, q)
  {
    if p in pool && pool[p].dirty {
      AtPut(d, p, pool[p].page, q);
    }
  }

  lemma FlushedOk(pool: Pool, d: Disk, pending: set<PageId>, order: seq<PageId>, capacity: nat, p: PageId)
    requires PoolOk(pool, d, pending, order, capacity)
    ensures PoolOk(pool, Flushed(pool, d, p), pending, order, capacity)
    ensures forall q :: View(pool, Flushed(pool, d, p), q) == View(pool, d, q)
    ensures p in pool && p !in pending ==> At(Flushed(pool, d, p), p) == pool[p].page
  {
    hide At, Members, Flushed;
    forall q
      ensures At(Flushed(pool, d, p), q) == if q == p && p in pool && pool[p].dirty then pool[p].page else At(d, q)
    {
      FlushedAt(pool, d, p, q);
    }
  }

  /** Writing back and dropping an unpinned frame changes nothing that a reader sees. */
  lemma EvictedOk(pool: Pool, d: Disk, pending: set<PageId>, order: seq<PageId>, capacity: nat, p: PageId)
    requires PoolOk(pool, d, pending, order, capacity) && Distinct(order) && p in pool && pool[p].pinCount == 0
    ensures PoolOk(pool - {p}, Flushed(pool, d, p), pending, Dropped(order, p), capacity)
    ensures |pool - {p}| == |pool| - 1
    ensures forall q :: View(pool - {p}, Flushed(pool, d, p), q) == View(pool, d, q)
  {
    FlushedOk(pool, d, pending, order, capacity, p);
    DroppedOk(pool, Flushed(pool, d, p), pending, order, capacity, p);
  }

  lemma DroppedOk(pool: Pool, d: Disk, pending: set<PageId>, order: seq<PageId>, capacity: nat, p: PageId)
    requires PoolOk(pool, d, pending, order, capacity) && Distinct(order)
    ensures PoolOk(pool - {p}, d, pending - {p}, Dropped(order, p), capacity)
    ensures p in pool ==> |pool - {p}| == |pool| - 1
    ensures p !in pending ==> pending - {p} == pending
  {
    hide At, Members, Distinct, Dropped;
    DroppedMembers(order, p);
    FewerFrames(pool, p);
  }

  lemma FewerFrames(pool: Pool, p: PageId)
    ensures |pool - {p}| == |pool| - if p in pool then 1 else 0
    ensures (pool - {p}).Keys == pool.Keys - {p}
  {
    if p !in pool {
      assert pool - {p} == pool;
    } else {
      assert pool == (pool - {p})[p := pool[p]];
    }
  }

  lemma AddedOk(pool: Pool, d: Disk, pending: set<PageId>, order: seq<PageId>, capacity: nat, p: PageId, f: Frame)
    requires PoolOk(pool, d, pending, order, capacity) && Distinct(order) && p !in pool && |pool| < capacity
    requires f.page == At(d, p)
    ensures PoolOk(pool[p := f], d, pending, [p] + Dropped(order, p), capacity)
    ensures forall q :: View(pool[p := f], d, q) == View(pool, d, q)
  {
    hide At, Members, Distinct, Dropped;
    TouchedMembers(order, p);
    assert pool[p := f].Keys == pool.Keys + {p};
  }

  lemma TouchedOk(pool: Pool, d: Disk, pending: set<PageId>, order: seq<PageId>, capacity: nat, p: PageId)
    requires PoolOk(pool, d, pending, order, capacity) && Distinct(order) && p in pool
    ensures PoolOk(pool, d, pending, [p] + Dropped(order, p), capacity)
  {
    hide At, Members, Distinct, Dropped;
    TouchedMembers(order, p);
  }

  lemma TouchedMembers(order: seq<PageId>, p: PageId)
    requires Distinct(order)
    ensures Members([p] + Dropped(order, p)) == Members(order) + {p}
  {
    hide Members;
    DroppedMembers(order, p);
    MembersOfSum([p], Dropped(order, p));
    MembersOfOne(p);
  }

  lemma InTable(pool: Pool, d: Disk, pending: set<PageId>, order: seq<PageId>, capacity: nat, i: nat)
    requires PoolOk(pool, d, pending, order, capacity) && i < |order|
    ensures order[i] in pool
  {
    assert order[i] in Members(order);
  }

  lemma AllPinned(pool: Pool, d: Disk, pending: set<PageId>, order: seq<PageId>, capacity: nat)
    requires PoolOk(pool, d, pending, order, capacity)
    requires forall i :: 0 <= i < |order| ==> order[i] in pool && pool[order[i]].pinCount > 0
    ensures forall p :: p in pool ==> pool[p].pinCount > 0
  {
    forall p | p in pool
      ensures pool[p].pinCount > 0
    {
      assert p in Members(order);
    }
  }

  lemma PendingArePinned(pool: Pool, d: Disk, pending: set<PageId>, order: seq<PageId>, capacity: nat, p: PageId)
    requires PoolOk(pool, d, pending, order, capacity)
    ensures p in pending ==> p in pool && pool[p].pinCount > 0
  {
  }

  lemma PinnedOk(pool: Pool, d: Disk, pending: set<PageId>, order: seq<PageId>, capacity: nat, p: PageId)
    requires PoolOk(pool, d, pending, order, capacity) && p in pool
    ensures PoolOk(pool[p := pool[p].(pinCount := pool[p].pinCount + 1)], d, pending, order, capacity)
  {
    assert pool[p := pool[p].(pinCount := pool[p].pinCount + 1)].Keys == pool.Keys;
  }

  lemma CleanShowsFile(pool: Pool, d: Disk, pending: set<PageId>, order: seq<PageId>, capacity: nat)
    requires PoolOk(pool, d, pending, order, capacity)
    ensures |pool| <= capacity && (forall p :: p in pending ==> p in pool)
    ensures forall p :: p in pool && !pool[p].dirty && p !in pending ==> pool[p].page == At(d, p)
  {
  }

  class BufferPool {
    const storage: StorageManager
    const capacity: nat
    const lru: LRUCache
    var pageTable: Pool
    /** Pinned pages that a caller has changed and not yet reported as dirty. */
    ghost var pending: set<PageId>

    ghost predicate Valid()
      reads this, lru, storage
    {
      lru.Valid() && PoolOk(pageTable, storage.disk, pending, lru.order, capacity)
    }

    /** What a reader of page `p` sees. */
    ghost function Visible(p: PageId): Bytes
      reads this, storage
    {
      View(pageTable, storage.disk, p)
    }

    /** There is an unused frame, or one without pins. */
    ghost predicate HasRoom()
      reads this
    {
      |pageTable| < capacity || exists q :: q in pageTable && pageTable[q].pinCount == 0
    }

    /** The page is resident, or there is a frame for it and the file, once that frame is free, holds it intact. */
    ghost predicate CanLoad(p: PageId)
      reads this, lru, storage
    {
      || p in pageTable
      || (|pageTable| < capacity && storage.Readable(storage.disk, p))
      || (|pageTable| >= capacity &&
          exists v :: IsVictim(lru.order, pageTable, v) && storage.Readable(Flushed(pageTable, storage.disk, v), p))
    }

    constructor (storage: StorageManager, frames: nat)
      ensures Valid() && this.storage == storage && capacity == frames && fresh(lru)
      ensures pageTable == map[] && pending == {}
    {
      this.storage, capacity := storage, frames;
      lru := new LRUCache();
      pageTable, pending := map[], {};
    }

    /** One more pin on a page; a page that is not resident is read in, for which another may have to go. */
    method FetchPage(p: PageId) returns (page: Result<Bytes>, ghost evicted: Option<PageId>)
      requires Valid()
      modifies this, lru, storage`disk
      ensures Valid() && pending == old(pending)
      ensures forall q :: Visible(q) == old(Visible(q))
      ensures page.Ok? ==> page.value == Visible(p)
      ensures p in old(pageTable) ==>
                && page.Ok? && evicted == None && storage.disk == old(storage.disk)
                && pageTable == old(pageTable)[p := old(pageTable[p]).(pinCount := old(pageTable[p]).pinCount + 1)]
      ensures p !in old(pageTable) ==>
                && (evicted.Some? <==>
                    old(|pageTable| >= capacity && exists q :: q in pageTable && pageTable[q].pinCount == 0))
                && (evicted.Some? ==>
                    && evicted.value in old(pageTable) && IsVictim(old(lru.order), old(pageTable), evicted.value)
                    && storage.disk == Flushed(old(pageTable), old(storage.disk), evicted.value))
                && (evicted.None? ==> storage.disk == old(storage.disk))
                && var kept := if evicted.Some? then old(pageTable) - {evicted.value} else old(pageTable);
                   if page.Ok? then pageTable == kept[p := Frame(At(storage.disk, p), 1, false)] else pageTable == kept
      ensures var rest := if evicted.Some? then Dropped(old(lru.order), evicted.value) else old(lru.order);
              lru.order == if page.Ok? then [p] + Dropped(rest, p) else rest
      ensures page.Ok? <==> p in old(pageTable) || (old(HasRoom()) && storage.Readable(storage.disk, p))
      ensures page.Err? ==>
                page.error == if !old(HasRoom()) then PoolFull
                              else if p < storage.directoryPages then ReservedRegion
                              else if p >= |storage.disk.pages| then ShortRead
                              else Corrupted
      ensures page.Ok? <==> old(CanLoad(p))
    {
      hide PoolOk, InPlace, Distinct, Members, At, Dropped, IsVictim;
      ghost var order0, pool0 := lru.order, pageTable;
      evicted := None;
      CleanShowsFile(pageTable, storage.disk, pending, lru.order, capacity);
      if p in pageTable {
        var f := pageTable[p];
        PinnedOk(pageTable, storage.disk, pending, lru.order, capacity, p);
        TouchedOk(pageTable[p := f.(pinCount := f.pinCount + 1)], storage.disk, pending, lru.order, capacity, p);
        pageTable := pageTable[p := f.(pinCount := f.pinCount + 1)];
        lru.Touch(p);
        return Ok(f.page), None;
      }
      if |pageTable| >= capacity {
        var victim := EvictOne();
        if victim.Err? {
          NoVictim(order0, pool0);
          return Err(PoolFull), None;
        }
        evicted := Some(victim.value);
        OneVictim(order0, pool0, victim.value);
      }
      page := storage.ReadPage(p);
      if page.Ok? {
        AddedOk(pageTable, storage.disk, pending, lru.order, capacity, p, Frame(page.value, 1, false));
        pageTable := pageTable[p := Frame(page.value, 1, false)];
        lru.Touch(p);
      }
    }

    /** The caller changes the contents of a page it has pinned. */
    method Change(p: PageId, image: Bytes)
      requires Valid() && p in pageTable && pageTable[p].pinCount > 0
      modifies this
      ensures Valid() && pageTable == old(pageTable)[p := old(pageTable[p]).(page := image)]
      ensures pending == old(pending) + {p}
    {
      hide PoolOk;
      ReframedOk(pageTable, storage.disk, pending, lru.order, capacity, p, pageTable[p].(page := image), true);
      pageTable := pageTable[p := pageTable[p].(page := image)];
      pending := pending + {p};
    }

    /** Releases one pin and records whether the caller changed the page. */
    method UnpinPage(p: PageId, isDirty: bool)
      requires Valid() && (p in pending ==> isDirty)
      modifies this
      ensures Valid() && pending == old(pending) - {p}
      ensures p !in old(pageTable) ==> pageTable == old(pageTable)
      ensures p in old(pageTable) ==> var f := old(pageTable[p]);
                var pins := if f.pinCount > 0 then f.pinCount - 1 else 0;
                pageTable == old(pageTable)[p := Frame(f.page, pins, f.dirty || isDirty)]
    {
      hide PoolOk, At, Dropped, Distinct, Members, InPlace;
      CleanShowsFile(pageTable, storage.disk, pending, lru.order, capacity);
      if p !in pageTable {
        assert pending - {p} == pending;
        return;
      }
      var f := pageTable[p];
      var f1 := Frame(f.page, if f.pinCount > 0 then f.pinCount - 1 else 0, f.dirty || isDirty);
      ReframedOk(pageTable, storage.disk, pending, lru.order, capacity, p, f1, false);
      pageTable := pageTable[p := f1];
      pending := pending - {p};
    }

    /** Writes a dirty page back and clears its flag. */
    method FlushPage(p: PageId) returns (written: bool)
      requires Valid() && p !in pending
      modifies this`pageTable, storage`disk
      ensures Valid()
      ensures written == (p in old(pageTable) && old(pageTable[p]).dirty)
      ensures storage.disk == Flushed(old(pageTable), old(storage.disk), p)
      ensures pageTable == if p in old(pageTable) then old(pageTable)[p := old(pageTable[p]).(dirty := false)]
                           else old(pageTable)
      ensures forall q :: Visible(q) == old(Visible(q))
    {
      hide PoolOk, At, Put;
      if p !in pageTable || !pageTable[p].dirty {
        assert p in pageTable ==> pageTable == pageTable[p := pageTable[p].(dirty := false)];
        return false;
      }
      FlushedOk(pageTable, storage.disk, pending, lru.order, capacity, p);
      storage.WritePage(p, pageTable[p].page);
      ReframedOk(pageTable, storage.disk, pending, lru.order, capacity, p, pageTable[p].(dirty := false), false);
      assert pending - {p} == pending;
      pageTable := pageTable[p := pageTable[p].(dirty := false)];
      written := true;
    }

    /** Writes every dirty page back. */
    method FlushAll() returns (written: nat)
      requires Valid() && pending == {}
      modifies this`pageTable, storage`disk
      ensures Valid() && AllFlushed(old(pageTable), pageTable)
      ensures forall p :: p in pageTable ==> At(storage.disk, p) == old(Visible(p))
      ensures forall q :: Visible(q) == old(Visible(q))
      ensures written == |DirtyPages(old(pageTable))|
    {
      hide PoolOk, At, Put, Flushed, View, PartFlushed, DirtyPages;
      written := 0;
      var rest := pageTable.Keys;
      ghost var pool0 := pageTable;
      NoneFlushed(pool0);
      while rest != {}
        invariant Valid() && pending == {} && PartFlushed(pool0, pageTable, rest) && rest <= pageTable.Keys
        invariant forall q :: Visible(q) == old(Visible(q))
        invariant written == |DirtyPages(pool0) - rest|
        decreases rest
      {
        var p := Next(rest);
        OneMoreFlushed(pool0, pageTable, rest, p);
        var wrote := FlushPage(p);
        if wrote {
          written := written + 1;
        }
        rest := rest - {p};
      }
      NoneLeft(pool0, pageTable);
      CleanShowsFile(pageTable, storage.disk, pending, lru.order, capacity);
      forall p | p in pageTable
        ensures At(storage.disk, p) == old(Visible(p))
      {
        ResidentView(pageTable, storage.disk, p);
      }
    }

    /** Makes room: of the frames without pins the one used longest ago goes, its changes to the file. */
    method EvictOne() returns (victim: Result<PageId>)
      requires Valid()
      modifies this`pageTable, lru, storage`disk
      ensures Valid()
      ensures victim.Err? ==> victim.error == PoolFull && (forall q :: q in pageTable ==> pageTable[q].pinCount > 0)
      ensures victim.Err? ==>
                pageTable == old(pageTable) && storage.disk == old(storage.disk) && lru.order == old(lru.order)
      ensures victim.Ok? ==>
                && IsVictim(old(lru.order), old(pageTable), victim.value)
                && pageTable == old(pageTable) - {victim.value} && |pageTable| < old(|pageTable|)
                && storage.disk == Flushed(old(pageTable), old(storage.disk), victim.value)
                && lru.order == Dropped(old(lru.order), victim.value)
      ensures forall q :: Visible(q) == old(Visible(q))
    {
      hide PoolOk, At, Put, Dropped, Distinct, Members, InPlace;
      var candidates := lru.EvictionOrder();
      ghost var order := lru.order;
      for i := 0 to |candidates|
        invariant Valid() && pageTable == old(pageTable) && storage.disk == old(storage.disk) && lru.order == order
        invariant forall k :: |order| - i <= k < |order| ==> order[k] in pageTable && pageTable[order[k]].pinCount > 0
      {
        var candidate := candidates[i];
        assert candidate == order[|order| - 1 - i];
        InTable(pageTable, storage.disk, pending, order, capacity, |order| - 1 - i);
        if pageTable[candidate].pinCount == 0 {
          EvictedOk(pageTable, storage.disk, pending, order, capacity, candidate);
          PendingArePinned(pageTable, storage.disk, pending, order, capacity, candidate);
          ghost var pool0 := pageTable;
          if pageTable[candidate].dirty {
            var written := FlushPage(candidate);
            assert pageTable - {candidate} == pool0 - {candidate};
          }
          pageTable := pageTable - {candidate};
          lru.Remove(candidate);
          return Ok(candidate);
        }
      }
      AllPinned(pageTable, storage.disk, pending, order, capacity);
      victim := Err(PoolFull);
    }

    /** Drops a page without writing it back, so that readers see the file again. */
    method Invalidate(p: PageId)
      requires Valid()
      modifies this, lru
      ensures Valid() && pageTable == old(pageTable) - {p} && pending == old(pending) - {p}
      ensures Visible(p) == At(storage.disk, p)
      ensures forall q :: q != p ==> Visible(q) == old(Visible(q))
    {
      hide PoolOk, At, Dropped, Distinct, Members, InPlace;
      DroppedOk(pageTable, storage.disk, pending, lru.order, capacity, p);
      pageTable := pageTable - {p};
      pending := pending - {p};
      lru.Remove(p);
    }
  }
}
