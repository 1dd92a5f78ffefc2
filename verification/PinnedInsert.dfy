/** When an insert destroys the heap, and a concrete run in which it does, for a pool of any size. */
module PinnedInsert {
  import opened Bytes
  import opened PageSpec
  import opened ClockSpec
  import opened CacheSpec
  import opened CacheRuns
  import opened HeapSpec
  import opened HeapChain
  import opened BufferManager
  import opened HeapFile
  import Disk

  /** On a heap with pages and a next page id never used before, the insert leaves no chain of pages
      starting at the heap's first page exactly if no page fits, all pages can be requested and the
      next page cannot. */
  method InsertExactly(hf: HeapFile, d: Data) returns (r: Result<Option<RID>>)
    requires hf.Valid() && hf.dm.Room() >= 2 && hf.chain != [] && hf.dm.Next() !in hf.bm.store
    modifies hf, hf.bm.footprint, hf.dm
    ensures (forall c :: !IsChain(hf.bm.store, hf.firstPage, c))
       <==> HeapFile.Loses(old(hf.bm.cache), old(hf.chain), old(hf.Contents()), old(hf.dm.Next()), d)
    ensures HeapFile.Loses(old(hf.bm.cache), old(hf.chain), old(hf.Contents()), old(hf.dm.Next()), d) ==> r.Err?
  {
    hide BufferManager.Valid, TouchAll, IsChain, LinksTo, HeapFile.Loses, EveryKept, HeapFile.Starved;
    ghost var touched, lost;
    r, touched, lost := hf.Insert(d);
    if r.Err? && lost.Some? {
      LinkToNothing(hf.bm.store, hf.firstPage, hf.chain, lost.value);
    } else {
      assert IsChain(hf.bm.store, hf.firstPage, hf.chain);
    }
  }

  /** Every page of the heap is cached, and every frame pinned. */
  ghost predicate AllHeld(c: Cache, chain: seq<int>) {
    !c.HasRoom() && forall q :: q in chain ==> c.Resident(q)
  }

  lemma HeldLoses(c: Cache, chain: seq<int>, h: Heap, next: int, d: Data)
    requires AllHeld(c, chain) && FirstFit(h, d) == |chain| && !c.Resident(next)
    ensures HeapFile.Loses(c, chain, h, next, d)
  {
  }

  /** A full heap under pins: the insert throws, and the heap is gone. */
  method InsertUnderPins(hf: HeapFile, d: Data) returns (r: Result<Option<RID>>)
    requires hf.Valid() && hf.dm.Room() >= 2 && hf.chain != []
    requires AllHeld(hf.bm.cache, hf.chain) && FirstFit(hf.Contents(), d) == |hf.chain|
    requires hf.dm.Next() !in hf.bm.store && !hf.bm.cache.Resident(hf.dm.Next())
    modifies hf, hf.bm.footprint, hf.dm
    ensures r.Err? && forall c :: !IsChain(hf.bm.store, hf.firstPage, c)
  {
    hide BufferManager.Valid, HeapFile.Valid, IsChain, HeapFile.Loses, AllHeld;
    HeldLoses(hf.bm.cache, hf.chain, hf.Contents(), hf.dm.Next(), d);
    r := InsertExactly(hf, d);
  }

  // ----- a run that leads there -----

  /** Every frame that holds a page is pinned. */
  predicate NoneIdle(c: Cache) {
    |c.page| == |c.pins| && forall i :: 0 <= i < |c.page| && c.page[i] != NO_PAGE ==> c.pins[i] != 0
  }

  /** While frames are free, requests pin one after the other. */
  lemma PinNext(c: Cache, q: int)
    requires c.Valid() && NoneIdle(c) && c.free != [] && 0 <= q < I32_LIMIT && !c.Resident(q)
    ensures c.CanRequest(q)
    ensures var d := c.Request(q);
            NoneIdle(d) && |d.free| == |c.free| - 1 && d.table.Keys == c.table.Keys + {q}
  {
    var i := c.free[|c.free| - 1];
    assert i in Unpinned(c.pins);
  }

  lemma NoneFree(c: Cache)
    requires c.Valid() && NoneIdle(c) && c.free == []
    ensures !c.HasRoom()
  {
  }

  /** After creating a heap of one page in a new pool, that page alone is cached. */
  lemma OnlyFirst(size: nat, p: int)
    requires 0 < size && 0 <= p < I32_LIMIT
    ensures EmptyCache(size).Valid() && EmptyCache(size).HasRoom()
    ensures var c := Touch(EmptyCache(size), p);
            && c.BitsFollowPins() && c.HasRoom() && c.Resident(p) && NoneIdle(c.Request(p))
            && c.table.Keys == {p} && |c.free| == size - 1
            && c.Request(p).table == c.table && c.Request(p).free == c.free
  {
    var e := EmptyCache(size);
    EmptyCacheValid(size);
    assert 0 in Unpinned(e.pins);
    assert Unpinned(Touch(e, p).pins) == Unpinned(e.pins);
    TouchEffect(e, p);
  }

  /** Requests a page and keeps it pinned. */
  method Hold(hf: HeapFile, p: int)
    requires hf.Valid() && 0 <= p < I32_LIMIT && hf.bm.cache.CanRequest(p)
    modifies hf.bm.footprint, hf.bm.disk`pages, hf.bm.disk`numPages
    ensures hf.Valid() && hf.Contents() == old(hf.Contents()) && hf.bm.store == old(hf.bm.store)
    ensures hf.bm.cache == old(hf.bm.cache).Request(p)
  {
    hide BufferManager.Valid, Cache.Request;
    hf.Parts();
    var frame := hf.bm.Request(p);
    hf.Undisturbed([]);
  }

  /** Pins the heap's page and other pages until no frame is left. */
  method HoldAll(hf: HeapFile, ids: seq<int>)
    requires hf.Valid() && hf.chain == [hf.firstPage] && 0 <= hf.firstPage < I32_LIMIT
    requires EmptyCache(|ids| + 1).Valid() && EmptyCache(|ids| + 1).HasRoom()
    requires hf.bm.cache == Touch(EmptyCache(|ids| + 1), hf.firstPage)
    requires InRange(ids) && Distinct(ids) && hf.firstPage !in ids
    modifies hf.bm.footprint, hf.bm.disk`pages, hf.bm.disk`numPages
    ensures hf.Valid() && hf.Contents() == old(hf.Contents()) && hf.bm.store == old(hf.bm.store)
    ensures AllHeld(hf.bm.cache, hf.chain)
    ensures forall q :: hf.bm.cache.Resident(q) ==> q == hf.firstPage || q in ids
  {
    hide BufferManager.Valid, HeapFile.Valid, Cache.Request, Touch, EmptyCache;
    hf.Parts();
    OnlyFirst(|ids| + 1, hf.firstPage);
    Hold(hf, hf.firstPage);
    for k := 0 to |ids|
      invariant hf.Valid() && hf.Contents() == old(hf.Contents()) && hf.bm.store == old(hf.bm.store)
      invariant NoneIdle(hf.bm.cache) && |hf.bm.cache.free| == |ids| - k
      invariant hf.bm.cache.table.Keys == {hf.firstPage} + set j | 0 <= j < k :: ids[j]
    {
      hf.Parts();
      PinNext(hf.bm.cache, ids[k]);
      Hold(hf, ids[k]);
    }
    hf.Parts();
    NoneFree(hf.bm.cache);
  }

  /** A heap of one full page, created in a new pool. */
  method OneFullPage(bm: BufferManager, dm: Disk.DiskManager, d: Data) returns (hf: HeapFile)
    requires bm.Valid() && bm.cache == EmptyCache(|bm.pool|) && bm.cache.Valid() && bm.cache.HasRoom()
    requires dm == bm.disk && dm !in bm.footprint && dm.Room() >= 5 && |d| == MAX_RECORD
    modifies bm.footprint, dm
    ensures fresh(hf) && hf.bm == bm && hf.Valid() && hf.dm.Room() >= 2
    ensures hf.Contents() == [PageView([d], 0)] && hf.chain == [hf.firstPage] && 0 <= hf.firstPage < I32_LIMIT
    ensures bm.cache == Touch(old(bm.cache), hf.firstPage)
    ensures SameOutside(old(bm.store), bm.store, hf.chain) && !dm.Allocatable(hf.firstPage)
    ensures forall q :: dm.Allocatable(q) ==> old(dm.Allocatable(q))
  {
    hide BufferManager.Valid, Touch, TouchAll, EmptyCache, InsertRecord, EveryKept, Cache.Valid, HeapFile.Valid,
      HeapFile.FailsRight;
    FillsPage(d);
    bm.CacheValid();
    var created := HeapFile.Create(bm, dm, seq(16, i => 0));
    hf := created.value;
    hf.Parts();
    OnlyFirst(|bm.pool|, hf.firstPage);
    ghost var c, touched, lost := bm.cache, [], None;
    var stored;
    stored, touched, lost := hf.Insert(d);
    hf.Parts();
    forall k | 0 <= k < |touched|
      ensures touched[k] == hf.firstPage
    {
      assert touched[k] in touched;
    }
    SamePage(c, hf.firstPage, touched);
  }

  lemma FillsPage(d: Data)
    requires |d| == MAX_RECORD
    ensures InsertRecord([EMPTY_PAGE], d).heap == [PageView([d], 0)]
    ensures forall e: Data :: FirstFit([PageView([d], 0)], e) == 1
  {
    assert EMPTY_PAGE.Insert(d) == PageView([d], 0);
    assert FirstFit([EMPTY_PAGE], d) == 0;
  }

  /** In a new pool of any size over an opened file: a heap of one full page, every frame pinned, and
      one more insert. It throws, and no chain of pages starts at the heap's first page any more. */
  method InsertDestroysHeap(bm: BufferManager, dm: Disk.DiskManager, d: Data, e: Data)
      returns (hf: HeapFile, r: Result<Option<RID>>)
    requires bm.Valid() && bm.cache == EmptyCache(|bm.pool|) && bm.cache.Valid() && bm.cache.HasRoom()
    requires dm == bm.disk && dm !in bm.footprint && dm.Room() >= 5 && |bm.pool| + 1 <= I32_LIMIT
    requires |d| == MAX_RECORD && forall p :: p in bm.store ==> !dm.Allocatable(p)
    modifies bm.footprint, dm
    ensures r.Err? && forall c :: !IsChain(bm.store, hf.firstPage, c)
  {
    hide BufferManager.Valid, Touch, TouchAll, EmptyCache, HeapFile.Valid, IsChain, AllHeld, FirstFit;
    FillsPage(d);
    bm.CacheValid();
    hf := OneFullPage(bm, dm, d);
    hf.Parts();
    var ids := OtherPages(|bm.pool| - 1, hf.firstPage, dm.Next());
    HoldAll(hf, ids);
    hf.Parts();
    r := InsertUnderPins(hf, e);
  }
}
