/** A concrete scan on which an iterator step returns the view of another record. */
module StaleView {
  import opened Bytes
  import opened PageSpec
  import opened ClockSpec
  import opened CacheSpec
  import opened CacheRuns
  import opened HeapSpec
  import opened HeapChain
  import opened ScanSpec
  import opened BufferManager
  import opened HeapFile
  import opened HeapIterator
  import opened ViewLifetime
  import opened Restart
  import SP = SlottedPage
  import Disk

  /** A record of the largest size fills its page from the end of the directory. */
  lemma FullPage(page: Data)
    requires IsHeapPage(page) && |Meaning(page).slots| == 1 && |Meaning(page).slots[0]| == MAX_RECORD
    ensures page[16..PAGE_SIZE] == Meaning(page).slots[0]
  {
    assert SP.Placed(page, HEAP_HEADER, 0);
    assert Meaning(page).slots[0] == SP.RecordBytes(page, HEAP_HEADER, 0);
  }

  lemma TwoInserts(d: Data, e: Data)
    requires |d| == |e| == MAX_RECORD
    ensures InsertRecord([EMPTY_PAGE], d).heap == [PageView([d], 0)]
    ensures InsertRecord([PageView([d], 0)], e) == Inserted([PageView([d], 0), PageView([e], 0)], Some(Pos(1, 0)))
    ensures Scan([PageView([d], 0), PageView([e], 0)]) == [Pos(0, 0), Pos(1, 0)]
  {
    var h := [PageView([d], 0), PageView([e], 0)];
    assert EMPTY_PAGE.Insert(d) == PageView([d], 0) && EMPTY_PAGE.Insert(e) == PageView([e], 0);
    assert FirstFit([EMPTY_PAGE], d) == 0 && FirstFit([PageView([d], 0)], e) == 1;
    AtLive(h, 0, 0);
    SkipPage(h, 0, 1);
    AtLive(h, 1, 0);
    SkipPage(h, 1, 1);
    AtEnd(h, 0);
  }

  /** A heap of two records of the largest size, a page each. */
  method TwoFullPages(bm: BufferManager, dm: Disk.DiskManager, d: Data, e: Data)
      returns (hf: HeapFile, second: int)
    requires bm.Valid() && dm == bm.disk && dm !in bm.footprint && bm.cache.HasRoom()
    requires dm.Room() >= 5 && |d| == |e| == MAX_RECORD
    modifies bm.footprint, dm
    ensures fresh(hf) && hf.bm == bm && hf.Valid()
    ensures hf.Contents() == [PageView([d], 0), PageView([e], 0)] && hf.chain == [hf.firstPage, second]
    ensures bm.cache.pins == old(bm.cache.pins)
  {
    hide BufferManager.Valid, Touch, TouchAll, InsertRecord,
      HeapFile.FailsRight, HeapFile.FailsEmpty, HeapFile.VisitedPages, EveryKept, Cache.Valid, IsChain;
    TwoInserts(d, e);
    var created := HeapFile.Create(bm, dm, seq(16, i => 0));
    hf := created.value;
    var stored;
    ghost var touched, lost;
    stored, touched, lost := hf.Insert(d);
    stored, touched, lost := hf.Insert(e);
    second := stored.value.value.pageId;
    hf.Parts();
  }

  /** A view of a full page shows another full page once its frame holds that one. */
  lemma FullPageShows(bm: BufferManager, i: nat, p: int, q: int, view: Span, d: Data, e: Data)
    requires bm.Valid() && HeapIterator.Denotes(bm.store, bm.pool, view, i, p, 0, d) && |d| == |e| == MAX_RECORD
    requires IsHeapPage(bm.store[p]) && |Meaning(bm.store[p]).slots| == 1
    requires Stays(bm.cache, q, i) && q in bm.store && IsHeapPage(bm.store[q]) && Meaning(bm.store[q]).slots == [e]
    ensures view.InBounds() && view.Read() == e
  {
    HeapIterator.ViewShows(bm, i, p, 0, view, d);
    bm.FrameBytes(i);
    assert SP.Placed(bm.store[p], HEAP_HEADER, 0);
    assert |bm.store[p][view.at..view.at + view.len]| == view.len;
    FullPage(bm.store[q]);
  }

  /** In a full pool, a step from one uncached page to another loads both into the same frame. */
  lemma BothInOneFrame(c: Cache, p: int, q: int)
    requires c.Valid() && c.HasRoom() && c.BitsFollowPins() && c.free == [] && p != q
    requires 0 <= p < I32_LIMIT && 0 <= q < I32_LIMIT && !c.Resident(p) && !c.Resident(q)
    ensures InRange([p]) && InRange([p, q])
    ensures var b := TouchAll(c, [p]);
            Touch(b, p) == b && Stays(TouchAll(b, [p, q]), q, b.table[p])
  {
    hide Cache.Valid, Touch, TouchAll, Cache.BitsFollowPins;
    var b := Touch(c, p);
    TouchNone(c);
    TouchNext(c, [], p);
    TouchEffect(c, p);
    TouchEffect(b, p);
    TouchNone(b);
    TouchNext(b, [], p);
    TouchNext(b, [p], q);
    assert [] + [p] == [p] && [p] + [q] == [p, q];
    LoadedThenLost(c, p, q);
  }

  /** So the view of the first page's record shows the second page's. */
  lemma StepShows(hf: HeapFile, c: Cache, frame: nat, view: Span, d: Data, e: Data)
    requires hf.Valid() && hf.Contents() == [PageView([d], 0), PageView([e], 0)] && |hf.chain| == 2
    requires |d| == |e| == MAX_RECORD && c.Valid() && c.HasRoom() && c.BitsFollowPins() && c.free == []
    requires forall q :: q in hf.chain ==> !c.Resident(q)
    requires InRange(hf.chain) && InRange(hf.chain[..1])
    requires var b := Touch(TouchAll(c, hf.chain[..1]), hf.chain[0]);
             hf.bm.cache == TouchAll(b, hf.chain) && frame == b.table[hf.chain[0]]
    requires HeapIterator.Denotes(hf.bm.store, hf.bm.pool, view, frame, hf.chain[0], 0, d)
    ensures view.InBounds() && view.Read() == e
  {
    hide BufferManager.Valid, Touch, TouchAll, HeapFile.Valid, Cache.Valid, HeapIterator.Denotes;
    hf.Parts();
    var p, q := hf.chain[0], hf.chain[1];
    assert hf.chain[..1] == [p] && hf.chain == [p, q];
    BothInOneFrame(c, p, q);
    hf.PageAt(p);
    hf.PageAt(q);
    FullPageShows(hf.bm, frame, p, q, view, d, e);
  }

  /** The first step over two full pages of which neither is cached, in a full pool of any size: it
      returns the id of the first record and a view that already shows the second record. */
  method FirstStep(hf: HeapFile, d: Data, e: Data) returns (rid: RID, shown: Data)
    requires hf.Valid() && |d| == |e| == MAX_RECORD && hf.Contents() == [PageView([d], 0), PageView([e], 0)]
    requires hf.bm.cache.HasRoom() && hf.bm.cache.BitsFollowPins() && hf.bm.cache.free == []
    requires forall q :: q in hf.chain ==> !hf.bm.cache.Resident(q)
    modifies hf.bm.footprint, hf.bm.disk`pages, hf.bm.disk`numPages
    ensures rid == RID(hf.firstPage, 0) && shown == e
    ensures hf.Valid() && hf.Contents() == old(hf.Contents())
  {
    hide BufferManager.Valid, Touch, LiveFrom, TouchAll, HeapFile.Valid, Cache.Valid, HeapIterator.Denotes,
      IsChain, HeapChain.Contents, Cache.BitsFollowPins;
    hf.Parts();
    TwoInserts(d, e);
    ghost var c := hf.bm.cache;
    var it := new HeapIterator(hf);
    var begun, r;
    ghost var touched, frame;
    begun, touched := it.Begin();
    it.First();
    r, frame := it.Next();
    it.First();
    hf.Parts();
    assert hf.chain[0..2] == hf.chain;
    StepShows(hf, c, frame, r.value.value.view, d, e);
    return r.value.value.rid, r.value.value.view.Read();
  }

  /** One use of a page beside a heap. */
  method UseOne(hf: HeapFile, p: int)
    requires hf.Valid() && hf.bm.cache.HasRoom() && 0 <= p < I32_LIMIT
    modifies hf.bm.footprint, hf.bm.disk`pages, hf.bm.disk`numPages
    ensures hf.Valid() && hf.Contents() == old(hf.Contents()) && hf.bm.cache == Touch(old(hf.bm.cache), p)
  {
    hide BufferManager.Valid;
    hf.Parts();
    var frame := hf.bm.Request(p);
    var done := hf.bm.Release(p);
    hf.Undisturbed([]);
  }

  /** As many pages as the pool has frames, used once each, fill the pool. */
  method FillPool(hf: HeapFile, ids: seq<int>)
    requires hf.Valid() && hf.bm.cache == EmptyCache(|ids|) && InRange(ids) && Distinct(ids) && ids != []
    requires forall q :: q in hf.chain ==> q !in ids
    modifies hf.bm.footprint, hf.bm.disk`pages, hf.bm.disk`numPages
    ensures hf.Valid() && hf.Contents() == old(hf.Contents())
    ensures hf.bm.cache.HasRoom() && hf.bm.cache.BitsFollowPins() && hf.bm.cache.free == []
    ensures forall q :: q in hf.chain ==> !hf.bm.cache.Resident(q)
  {
    hide BufferManager.Valid, Touch, TouchAll, HeapFile.Valid;
    hf.Parts();
    ghost var c := hf.bm.cache;
    EmptyCacheValid(|ids|);
    assert 0 in Unpinned(c.pins);
    TouchNone(c);
    for k := 0 to |ids|
      invariant hf.Valid() && hf.Contents() == old(hf.Contents())
      invariant hf.bm.cache == TouchAll(c, ids[..k])
    {
      assert ids[..k + 1] == ids[..k] + [ids[k]];
      TouchNext(c, ids[..k], ids[k]);
      UseOne(hf, ids[k]);
    }
    assert ids[..|ids|] == ids;
    AllMissed(c, ids);
    NoEviction(c, ids);
    forall q | q in hf.chain
      ensures q !in hf.bm.cache.table
    {
      assert q !in c.table && q !in ids;
    }
  }

  /** The step is wrong in a pool of every size: two full pages are stored and flushed, the database
      is reopened, other pages fill the pool, and a scan takes its first step. */
  method StepShowsWrongRecord(bm: BufferManager, dm: Disk.DiskManager, d: Data, e: Data, size: nat)
      returns (rid: RID, shown: Data, again: HeapFile)
    requires bm.Valid() && dm == bm.disk && dm !in bm.footprint && bm.cache.HasRoom()
    requires dm.Room() >= 5 && |d| == |e| == MAX_RECORD && 0 < size && size + 2 <= I32_LIMIT
    modifies bm.footprint, dm
    ensures again.Valid() && |again.bm.pool| == size
    ensures rid == RID(again.firstPage, 0) && Get(again.Contents(), Pos(0, 0)) == Some(d) && shown == e
  {
    hide BufferManager.Valid, Touch, HeapFile.Valid;
    var heap, second := TwoFullPages(bm, dm, d, e);
    heap.Parts();
    var disk, pool;
    disk, pool, again := FlushAndReopen(heap, size);
    var ids := OtherPages(size, heap.firstPage, second);
    FillPool(again, ids);
    rid, shown := FirstStep(again, d, e);
  }
}
