/** The heap file: records addressed by (page id, slot), pages reached only through the page cache. */
module HeapFile {
  import opened Bytes
  import opened CacheSpec
  import opened CacheRuns
  import opened StoreSpec
  import opened HeapSpec
  import opened HeapChain
  import opened BufferPool
  import opened BufferManager
  import Disk
  import SP = SlottedPage

  datatype RID = RID(pageId: int, slotId: nat)

  /** A record as `Get` hands it out: its id and a borrowed view into the frame's buffer. */
  datatype Record = Record(rid: RID, view: Span)

  class HeapFile {
    const bm: BufferManager
    const dm: Disk.DiskManager
    const fileId: Data
    var firstPage: int

    ghost var chain: seq<int>

    /** The pages are chained in the store, and the allocator will not hand one of them out again. */
    ghost predicate Valid()
      reads this, bm.disk, bm.footprint
    {
      && dm == bm.disk && bm.Valid() && this !in bm.footprint && dm !in bm.footprint
      && IsChain(bm.store, firstPage, chain)
      && forall i :: 0 <= i < |chain| ==> !dm.Allocatable(chain[i])
    }

    ghost function Contents(): Heap
      requires Valid()
      reads this, bm.disk, bm.footprint
    {
      HeapChain.Contents(bm.store, chain)
    }

    /** What the callers of the operations rely on, without the layers below. */
    lemma Parts()
      requires Valid()
      ensures bm.Valid() && bm.cache.Valid() && dm == bm.disk && this !in bm.footprint && dm !in bm.footprint
      ensures firstPage == if chain == [] then END else chain[0]
      ensures forall i :: 0 <= i < |chain| ==> 0 <= chain[i] < I32_LIMIT && !dm.Allocatable(chain[i])
      ensures Distinct(chain) && (dm.Room() > 0 ==> 0 <= dm.Next() < I32_LIMIT)
    {
    }

    /** Writes to other pages leave this heap as it was. */
    twostate lemma Undisturbed(touched: seq<int>)
      requires old(Valid()) && bm.Valid() && chain == old(chain) && firstPage == old(firstPage)
      requires SameOutside(old(bm.store), bm.store, touched) && forall q :: q in touched ==> q !in chain
      requires forall q :: q in chain ==> !dm.Allocatable(q)
      ensures Valid() && Contents() == old(Contents())
    {
      hide BufferManager.Valid;
      ChainFramed(old(bm.store), bm.store, firstPage, chain);
    }

    lemma Unchanged()
      requires Valid()
      ensures EveryKept(bm.store, bm.store, chain)
    {
      hide BufferManager.Valid;
      KeptUntouched(bm.store, firstPage, chain);
    }

    /** The place of page `p` in the chain. */
    ghost function Locate(p: int): (i: nat)
      requires p in chain
      reads this
      ensures i < |chain| && chain[i] == p
    {
      var i :| 0 <= i < |chain| && chain[i] == p; i
    }

    ghost function Place(rid: RID): Pos
      requires rid.pageId in chain
      reads this
    {
      Pos(Locate(rid.pageId), rid.slotId)
    }

    /** Reads nothing. The handle is a valid heap if the page really starts a chain of pages in use. */
    constructor (bm: BufferManager, dm: Disk.DiskManager, fileId: Data, firstPage: int, ghost chain: seq<int>)
      ensures this.bm == bm && this.dm == dm && this.fileId == fileId
      ensures this.firstPage == firstPage && this.chain == chain
      ensures && dm == bm.disk && dm !in bm.footprint && bm.Valid() && IsChain(bm.store, firstPage, chain)
              && (forall i :: 0 <= i < |chain| ==> !dm.Allocatable(chain[i]))
              ==> Valid()
    {
      this.bm, this.dm, this.fileId, this.firstPage := bm, dm, fileId, firstPage;
      this.chain := chain;
    }

    static method InitHeapPage(raw: array<byte>)
      requires raw.Length == PAGE_SIZE
      modifies raw
      ensures IsHeapPage(raw[..]) && Meaning(raw[..]) == EMPTY_PAGE && NextOf(raw[..]) == END
    {
      StoreI32(raw, 0, END);
      ghost var linked := raw[..];
      SP.SlottedPage(raw, HEAP_HEADER).Init();
      assert I32At(raw[..], 0) == I32At(linked, 0);
    }

    // ----- edits of one pinned frame, each marked dirty at once -----

    static method InitFrame(bm: BufferManager, f: Frame, ghost p: int)
      requires bm.Holds(f, p)
      modifies f.data, f`dirty, bm`dirty, bm`bytes, bm`store
      ensures bm.Valid() && Rewritten(old(bm.store), bm.store, p, EMPTY_PAGE, END)
      ensures f.dirty && bm.Holds(f, p)
    {
      hide Coherent, Cache.Valid;
      InitHeapPage(f.data);
      bm.MarkDirty(f);
    }

    static method LinkFrame(bm: BufferManager, f: Frame, ghost p: int, next: int)
      requires bm.Holds(f, p) && p in bm.store && IsHeapPage(bm.store[p]) && 0 <= next < I32_LIMIT
      modifies f.data, f`dirty, bm`dirty, bm`bytes, bm`store
      ensures bm.Valid() && Rewritten(old(bm.store), bm.store, p, Meaning(old(bm.store[p])), next)
      ensures SlotsKept(old(bm.store), bm.store, p, -1)
    {
      hide Coherent, Cache.Valid, SP.Kept;
      StoreI32(f.data, 0, next);
      SP.BodyDecides(old(f.data[..]), f.data[..], HEAP_HEADER);
      bm.MarkDirty(f);
    }

    static method InsertIntoFrame(bm: BufferManager, f: Frame, ghost p: int, d: Data) returns (slot: Option<nat>)
      requires bm.Holds(f, p) && p in bm.store && IsHeapPage(bm.store[p])
      modifies f.data, f`dirty, bm`dirty, bm`bytes, bm`store
      ensures bm.Valid()
      ensures var s, v := old(bm.store), Meaning(old(bm.store[p]));
              && slot == (if v.Fits(d) then Some(|v.slots|) else None)
              && (slot.None? ==> bm.store == s && f.data[..] == s[p])
              && (slot.Some? ==> Rewritten(s, bm.store, p, v.Insert(d), NextOf(s[p])))
              && SlotsKept(s, bm.store, p, -1)
    {
      hide Coherent, Cache.Valid, SP.Kept;
      slot := SP.SlottedPage(f.data, HEAP_HEADER).Insert(d);
      if slot.Some? {
        assert I32At(f.data[..], 0) == I32At(old(f.data[..]), 0);
        bm.MarkDirty(f);
      }
    }

    static method UpdateInFrame(bm: BufferManager, f: Frame, ghost p: int, slot: nat, d: Data) returns (ok: bool)
      requires bm.Holds(f, p) && p in bm.store && IsHeapPage(bm.store[p])
      modifies f.data, f`dirty, bm`dirty, bm`bytes, bm`store
      ensures bm.Valid()
      ensures var s, v := old(bm.store), Meaning(old(bm.store[p]));
              && ok == v.CanUpdate(slot, d)
              && (!ok ==> bm.store == s)
              && (ok ==> Rewritten(s, bm.store, p, v.Update(slot, d), NextOf(s[p])))
              && SlotsKept(s, bm.store, p, slot)
    {
      hide Coherent, Cache.Valid, SP.Kept;
      ok := SP.SlottedPage(f.data, HEAP_HEADER).Update(slot, d);
      if ok {
        assert I32At(f.data[..], 0) == I32At(old(f.data[..]), 0);
        bm.MarkDirty(f);
      }
    }

    static method DeleteInFrame(bm: BufferManager, f: Frame, ghost p: int, slot: nat) returns (ok: bool)
      requires bm.Holds(f, p) && p in bm.store && IsHeapPage(bm.store[p])
      modifies f.data, f`dirty, bm`dirty, bm`bytes, bm`store
      ensures bm.Valid()
      ensures var s, v := old(bm.store), Meaning(old(bm.store[p]));
              && ok == (slot < |v.slots|)
              && (!ok ==> bm.store == s)
              && (ok ==> Rewritten(s, bm.store, p, v.Delete(slot), NextOf(s[p])))
              && SlotsKept(s, bm.store, p, slot)
    {
      hide Coherent, Cache.Valid, SP.Kept;
      ok := SP.SlottedPage(f.data, HEAP_HEADER).Delete(slot);
      if ok {
        assert I32At(f.data[..], 0) == I32At(old(f.data[..]), 0);
        bm.MarkDirty(f);
      }
    }

    /** An insert into a frame that is dirty already, and so is not marked again. */
    static method InsertIntoDirty(bm: BufferManager, f: Frame, ghost p: int, d: Data) returns (slot: Option<nat>)
      requires bm.Holds(f, p) && f.dirty && p in bm.store && IsHeapPage(bm.store[p])
      modifies f.data, bm`bytes, bm`store
      ensures bm.Valid()
      ensures var s, v := old(bm.store), Meaning(old(bm.store[p]));
              && slot == (if v.Fits(d) then Some(|v.slots|) else None)
              && Rewritten(s, bm.store, p, if slot.Some? then v.Insert(d) else v, NextOf(s[p]))
    {
      hide Coherent, Cache.Valid;
      slot := SP.SlottedPage(f.data, HEAP_HEADER).Insert(d);
      assert I32At(f.data[..], 0) == I32At(old(f.data[..]), 0);
      bm.Follow(f);
    }

    static method FillNewFrame(bm: BufferManager, f: Frame, ghost p: int, d: Data) returns (slot: Option<nat>)
      requires bm.Holds(f, p)
      modifies f.data, f`dirty, bm`dirty, bm`bytes, bm`store
      ensures bm.Valid() && slot == (if EMPTY_PAGE.Fits(d) then Some(0) else None)
      ensures Rewritten(old(bm.store), bm.store, p, if slot.Some? then EMPTY_PAGE.Insert(d) else EMPTY_PAGE, END)
    {
      hide BufferManager.Valid;
      InitFrame(bm, f, p);
      slot := InsertIntoDirty(bm, f, p, d);
    }

    // ----- one balanced use of one page -----

    /** Nothing that the pages mean or that the pool holds has changed. */
    static twostate predicate Untouched(bm: BufferManager)
      reads bm
    {
      bm.store == old(bm.store) && bm.cache == old(bm.cache)
    }

    static method StartPage(bm: BufferManager, p: int) returns (r: Result<()>)
      requires bm.Valid() && 0 <= p < I32_LIMIT
      modifies bm.footprint, bm.disk`pages, bm.disk`numPages
      ensures bm.Valid() && (r.Ok? <==> old(bm.cache.CanRequest(p)))
      ensures r.Err? ==> r == Err(AllFramesPinned) && Untouched(bm)
      ensures r.Ok? ==> Rewritten(old(bm.store), bm.store, p, EMPTY_PAGE, END) && bm.cache == Touch(old(bm.cache), p)
    {
      hide BufferManager.Valid, Rewritten;
      var frame :- bm.Request(p);
      InitFrame(bm, frame, p);
      r := bm.Release(p);
    }

    /** One round of the insert walk: tries the page, and reads where the next one is. */
    static method TryPage(bm: BufferManager, p: int, d: Data) returns (r: Result<Option<nat>>, next: int)
      requires bm.Valid() && 0 <= p < I32_LIMIT && p in bm.store && IsHeapPage(bm.store[p])
      modifies bm.footprint, bm.disk`pages, bm.disk`numPages
      ensures bm.Valid() && (r.Ok? <==> old(bm.cache.CanRequest(p)))
      ensures r.Err? ==> r == Err(AllFramesPinned) && Untouched(bm)
      ensures r.Ok? ==>
        var s, v, slot := old(bm.store), Meaning(old(bm.store[p])), r.value;
        && bm.cache == Touch(old(bm.cache), p)
        && slot == (if v.Fits(d) then Some(|v.slots|) else None)
        && (slot.None? ==> bm.store == s && next == NextOf(s[p]))
        && (slot.Some? ==> Rewritten(s, bm.store, p, v.Insert(d), NextOf(s[p])))
        && SlotsKept(s, bm.store, p, -1)
    {
      hide BufferManager.Valid, Rewritten, SlotsKept;
      next := END;
      var frame :- bm.Request(p);
      var slot := InsertIntoFrame(bm, frame, p, d);
      var done := bm.Release(p);
      if slot.None? {
        next := NextOf(frame.data[..]);
      }
      r := Ok(slot);
    }

    /** Re-fetches the last page and links it to `next`. */
    static method LinkPage(bm: BufferManager, p: int, next: int) returns (r: Result<()>)
      requires bm.Valid() && 0 <= p < I32_LIMIT && 0 <= next < I32_LIMIT
      requires p in bm.store && IsHeapPage(bm.store[p])
      modifies bm.footprint, bm.disk`pages, bm.disk`numPages
      ensures bm.Valid() && (r.Ok? <==> old(bm.cache.CanRequest(p)))
      ensures r.Err? ==> r == Err(AllFramesPinned) && Untouched(bm)
      ensures r.Ok? ==>
        && bm.cache == Touch(old(bm.cache), p)
        && Rewritten(old(bm.store), bm.store, p, Meaning(old(bm.store[p])), next)
        && SlotsKept(old(bm.store), bm.store, p, -1)
    {
      hide BufferManager.Valid, Rewritten, SlotsKept;
      var frame :- bm.Request(p);
      LinkFrame(bm, frame, p, next);
      r := bm.Release(p);
    }

    static method NewPage(bm: BufferManager, p: int, d: Data) returns (r: Result<Option<nat>>)
      requires bm.Valid() && 0 <= p < I32_LIMIT
      modifies bm.footprint, bm.disk`pages, bm.disk`numPages
      ensures bm.Valid() && (r.Ok? <==> old(bm.cache.CanRequest(p)))
      ensures r.Err? ==> r == Err(AllFramesPinned) && Untouched(bm)
      ensures r.Ok? ==>
        && bm.cache == Touch(old(bm.cache), p)
        && r.value == (if EMPTY_PAGE.Fits(d) then Some(0) else None)
        && Rewritten(old(bm.store), bm.store, p, if r.value.Some? then EMPTY_PAGE.Insert(d) else EMPTY_PAGE, END)
    {
      hide BufferManager.Valid, Rewritten;
      var frame :- bm.Request(p);
      var slot := FillNewFrame(bm, frame, p, d);
      var done := bm.Release(p);
      r := Ok(slot);
    }

    static method ReadPage(bm: BufferManager, p: int, slot: nat) returns (r: Result<Option<Span>>)
      requires bm.Valid() && 0 <= p < I32_LIMIT && p in bm.store && IsHeapPage(bm.store[p])
      modifies bm.footprint, bm.disk`pages, bm.disk`numPages
      ensures bm.Valid() && bm.store == old(bm.store) && (r.Ok? <==> old(bm.cache.CanRequest(p)))
      ensures r.Err? ==> r == Err(AllFramesPinned) && Untouched(bm)
      ensures r.Ok? ==>
        && bm.cache == Touch(old(bm.cache), p) && p in bm.cache.table && bm.cache.table[p] < |bm.pool|
        && (r.value.Some? <==> Meaning(bm.store[p]).Live(slot))
      ensures r.Ok? && r.value.Some? ==>
        var view := r.value.value;
        && view.InBounds() && view.buf == bm.pool[bm.cache.table[p]].data
        && view.Read() == Meaning(bm.store[p]).slots[slot]
        && SP.EntryAt(HEAP_HEADER, |Meaning(bm.store[p]).slots|) <= view.at
        && SP.Lies(bm.store[p], HEAP_HEADER, slot, view.at, view.len)
    {
      hide BufferManager.Valid;
      var frame :- bm.Request(p);
      var view := SP.SlottedPage(frame.data, HEAP_HEADER).Get(slot);
      var done := bm.Release(p);
      r := Ok(view);
    }

    static method UpdatePage(bm: BufferManager, p: int, slot: nat, d: Data) returns (r: Result<bool>)
      requires bm.Valid() && 0 <= p < I32_LIMIT && p in bm.store && IsHeapPage(bm.store[p])
      modifies bm.footprint, bm.disk`pages, bm.disk`numPages
      ensures bm.Valid() && (r.Ok? <==> old(bm.cache.CanRequest(p)))
      ensures r.Err? ==> r == Err(AllFramesPinned) && Untouched(bm)
      ensures r.Ok? ==>
        var s, v := old(bm.store), Meaning(old(bm.store[p]));
        && bm.cache == Touch(old(bm.cache), p) && r.value == v.CanUpdate(slot, d)
        && (!r.value ==> bm.store == s)
        && (r.value ==> Rewritten(s, bm.store, p, v.Update(slot, d), NextOf(s[p])))
        && SlotsKept(s, bm.store, p, slot)
    {
      hide BufferManager.Valid, Rewritten, SlotsKept;
      var frame :- bm.Request(p);
      var ok := UpdateInFrame(bm, frame, p, slot, d);
      var done := bm.Release(p);
      r := Ok(ok);
    }

    static method DeletePage(bm: BufferManager, p: int, slot: nat) returns (r: Result<bool>)
      requires bm.Valid() && 0 <= p < I32_LIMIT && p in bm.store && IsHeapPage(bm.store[p])
      modifies bm.footprint, bm.disk`pages, bm.disk`numPages
      ensures bm.Valid() && (r.Ok? <==> old(bm.cache.CanRequest(p)))
      ensures r.Err? ==> r == Err(AllFramesPinned) && Untouched(bm)
      ensures r.Ok? ==>
        var s, v := old(bm.store), Meaning(old(bm.store[p]));
        && bm.cache == Touch(old(bm.cache), p) && r.value == (slot < |v.slots|)
        && (!r.value ==> bm.store == s)
        && (r.value ==> Rewritten(s, bm.store, p, v.Delete(slot), NextOf(s[p])))
        && SlotsKept(s, bm.store, p, slot)
    {
      hide BufferManager.Valid, Rewritten, SlotsKept;
      var frame :- bm.Request(p);
      var ok := DeleteInFrame(bm, frame, p, slot);
      var done := bm.Release(p);
      r := Ok(ok);
    }

    // ----- the operations -----

    /** A page id that no page in use has. */
    static method Allocate(bm: BufferManager, dm: Disk.DiskManager) returns (p: int)
      requires bm.Valid() && dm == bm.disk && dm.Room() > 0
      modifies dm`freePages, dm`nextPage
      ensures bm.Valid() && bm.store == old(bm.store) && bm.cache == old(bm.cache)
      ensures p == old(dm.Next()) && dm.Next() == old(dm.After()) && 0 <= p < I32_LIMIT
              && dm.Room() == old(dm.Room()) - 1
      ensures old(dm.Allocatable(p)) && !dm.Allocatable(p)
      ensures forall q :: q != p ==> (dm.Allocatable(q) <==> old(dm.Allocatable(q)))
    {
      p := dm.AllocatePage();
    }

    /** Creates a heap of one empty page. */
    static method Create(bm: BufferManager, dm: Disk.DiskManager, fileId: Data) returns (r: Result<HeapFile>)
      requires bm.Valid() && dm == bm.disk && dm !in bm.footprint && dm.Room() > 0
      modifies bm.footprint, dm
      ensures bm.Valid() && dm.Room() == old(dm.Room()) - 1 && (old(bm.cache.HasRoom()) ==> r.Ok?)
      ensures r.Err? ==> r == Err(AllFramesPinned) && Untouched(bm)
      ensures r.Ok? ==>
        var hf := r.value;
        var p := hf.firstPage;
        && hf.Valid() && fresh(hf) && hf.bm == bm && hf.dm == dm && hf.fileId == fileId
        && hf.chain == [p] && hf.Contents() == [EMPTY_PAGE]
        && old(bm.cache.CanRequest(p)) && bm.cache == Touch(old(bm.cache), p)
        && SameOutside(old(bm.store), bm.store, hf.chain)
        && old(dm.Allocatable(p)) && !dm.Allocatable(p)
        && forall q :: q != p ==> (dm.Allocatable(q) <==> old(dm.Allocatable(q)))
    {
      hide BufferManager.Valid;
      var p := Allocate(bm, dm);
      var done :- StartPage(bm, p);
      StartChain(old(bm.store), bm.store, p);
      var hf := new HeapFile(bm, dm, fileId, p, [p]);
      r := Ok(hf);
    }

    /** Opens a heap by its first page. Nothing is read, nothing is checked. */
    static method Open(bm: BufferManager, dm: Disk.DiskManager, fileId: Data, firstPage: int) returns (hf: HeapFile)
      ensures fresh(hf) && hf.bm == bm && hf.dm == dm && hf.fileId == fileId && hf.firstPage == firstPage
      ensures hf.chain == ChainFrom(bm.store, firstPage)
      ensures && dm == bm.disk && dm !in bm.footprint && bm.Valid() && IsChain(bm.store, firstPage, hf.chain)
              && (forall i :: 0 <= i < |hf.chain| ==> !dm.Allocatable(hf.chain[i]))
              ==> hf.Valid()
    {
      hf := new HeapFile(bm, dm, fileId, firstPage, ChainFrom(bm.store, firstPage));
    }

    /** A page of the chain, as the heap's contents show it. */
    lemma PageAt(p: int)
      requires Valid() && p in chain
      ensures 0 <= p < I32_LIMIT && p in bm.store && IsHeapPage(bm.store[p])
      ensures Contents()[Locate(p)] == Meaning(bm.store[p])
    {
    }

    /** The record's bytes, as a view into the frame that holds its page. The page need not be one
        of this heap's. */
    method Get(rid: RID) returns (r: Result<Option<Record>>)
      requires Valid() && 0 <= rid.pageId < I32_LIMIT
      requires rid.pageId in bm.store && IsHeapPage(bm.store[rid.pageId])
      modifies bm.footprint, bm.disk`pages, bm.disk`numPages
      ensures Valid() && Contents() == old(Contents()) && bm.store == old(bm.store)
      ensures r.Ok? <==> old(bm.cache.CanRequest(rid.pageId))
      ensures r.Err? ==> r == Err(AllFramesPinned) && Untouched(bm)
      ensures r.Ok? ==>
        && bm.cache == Touch(old(bm.cache), rid.pageId)
        && (r.value.Some? <==> Meaning(bm.store[rid.pageId]).Live(rid.slotId))
      ensures r.Ok? && r.value.Some? ==>
        var rec, page := r.value.value, bm.store[rid.pageId];
        && rec.rid == rid && rec.view.InBounds()
        && bm.cache.table[rid.pageId] < |bm.pool|
        && rec.view.buf == bm.pool[bm.cache.table[rid.pageId]].data
        && rec.view.Read() == Meaning(page).slots[rid.slotId]
        && SP.EntryAt(HEAP_HEADER, |Meaning(page).slots|) <= rec.view.at
        && SP.Lies(page, HEAP_HEADER, rid.slotId, rec.view.at, rec.view.len)
    {
      hide BufferManager.Valid;
      var view :- ReadPage(bm, rid.pageId, rid.slotId);
      r := Ok(if view.Some? then Some(Record(rid, view.value)) else None);
    }

    method Update(d: Data, rid: RID) returns (r: Result<bool>)
      requires Valid() && 0 <= rid.pageId < I32_LIMIT
      requires rid.pageId in bm.store && IsHeapPage(bm.store[rid.pageId])
      modifies bm.footprint, bm.disk`pages, bm.disk`numPages
      ensures Valid() && SameOutside(old(bm.store), bm.store, [rid.pageId])
      ensures SlotsKept(old(bm.store), bm.store, rid.pageId, rid.slotId)
      ensures r.Ok? <==> old(bm.cache.CanRequest(rid.pageId))
      ensures r.Err? ==> r == Err(AllFramesPinned) && Untouched(bm)
      ensures r.Ok? ==>
        var v := Meaning(old(bm.store[rid.pageId]));
        && bm.cache == Touch(old(bm.cache), rid.pageId)
        && r.value == v.CanUpdate(rid.slotId, d)
        && (r.value ==> Meaning(bm.store[rid.pageId]) == v.Update(rid.slotId, d))
        && (!r.value ==> bm.store == old(bm.store))
      ensures r.Ok? && rid.pageId in chain ==> Contents() == UpdateRecord(old(Contents()), Place(rid), d)
      ensures r.Err? || rid.pageId !in chain ==> Contents() == old(Contents())
    {
      hide BufferManager.Valid, SlotsKept, IsChain, Rewritten, HeapChain.Contents;
      ghost var s, p := bm.store, rid.pageId;
      ghost var v := Meaning(s[p]);
      PageKept(s, p, rid.slotId);
      if p in chain {
        PageAt(p);
        assert chain[Locate(p)] == p;
      }
      r := UpdatePage(bm, rid.pageId, rid.slotId, d);
      if r.Ok? && r.value {
        ghost var w := v.Update(rid.slotId, d);
        PageEdited(s, bm.store, firstPage, chain, p, w);
      }
    }

    method Delete(rid: RID) returns (r: Result<bool>)
      requires Valid() && 0 <= rid.pageId < I32_LIMIT
      requires rid.pageId in bm.store && IsHeapPage(bm.store[rid.pageId])
      modifies bm.footprint, bm.disk`pages, bm.disk`numPages
      ensures Valid() && SameOutside(old(bm.store), bm.store, [rid.pageId])
      ensures SlotsKept(old(bm.store), bm.store, rid.pageId, rid.slotId)
      ensures r.Ok? <==> old(bm.cache.CanRequest(rid.pageId))
      ensures r.Err? ==> r == Err(AllFramesPinned) && Untouched(bm)
      ensures r.Ok? ==>
        var v := Meaning(old(bm.store[rid.pageId]));
        && bm.cache == Touch(old(bm.cache), rid.pageId)
        && r.value == (rid.slotId < |v.slots|)
        && (r.value ==> Meaning(bm.store[rid.pageId]) == v.Delete(rid.slotId))
        && (!r.value ==> bm.store == old(bm.store))
      ensures r.Ok? && rid.pageId in chain ==> Contents() == DeleteRecord(old(Contents()), Place(rid))
      ensures r.Err? || rid.pageId !in chain ==> Contents() == old(Contents())
    {
      hide BufferManager.Valid, SlotsKept, IsChain, Rewritten, HeapChain.Contents;
      ghost var s, p := bm.store, rid.pageId;
      ghost var v := Meaning(s[p]);
      PageKept(s, p, rid.slotId);
      if p in chain {
        PageAt(p);
        assert chain[Locate(p)] == p;
      }
      r := DeletePage(bm, rid.pageId, rid.slotId);
      if r.Ok? && r.value {
        ghost var w := v.Delete(rid.slotId);
        PageEdited(s, bm.store, firstPage, chain, p, w);
      }
    }

    // ----- insertion -----

    /** The first page of a heap that has none yet. If its frame cannot be had, the handle is left
        pointing at a page that was never initialised. */
    method StartFirst() returns (r: Result<()>, ghost p: int)
      requires Valid() && chain == [] && dm.Room() > 0
      modifies this`firstPage, this`chain, bm.footprint, dm
      ensures dm.Next() == old(dm.After())
      ensures bm.Valid() && firstPage == p == old(dm.Next()) && 0 <= p < I32_LIMIT
      ensures r.Ok? <==> old(bm.cache.CanRequest(p))
      ensures r.Err? ==> r == Err(AllFramesPinned) && Untouched(bm) && chain == []
      ensures r.Ok? ==> Valid() && Contents() == [EMPTY_PAGE] && chain == [p] && bm.cache == Touch(old(bm.cache), p)
      ensures SameOutside(old(bm.store), bm.store, [p])
      ensures dm.Room() == old(dm.Room()) - 1 && old(dm.Allocatable(p))
      ensures forall q :: dm.Allocatable(q) <==> old(dm.Allocatable(q)) && q != p
    {
      hide BufferManager.Valid, Touch;
      firstPage := Allocate(bm, dm);
      p := firstPage;
      r := StartPage(bm, firstPage);
      if r.Ok? {
        StartChain(old(bm.store), bm.store, firstPage);
        chain := [firstPage];
      }
    }

    /** Tries page `i` of the chain. */
    method TryNth(page: int, d: Data, ghost i: nat) returns (r: Result<Option<nat>>, next: int)
      requires Valid() && i < |chain| && page == chain[i]
      modifies bm.footprint, bm.disk`pages, bm.disk`numPages
      ensures Valid() && 0 <= page < I32_LIMIT && (r.Ok? <==> old(bm.cache.CanRequest(page)))
      ensures r.Err? ==> r == Err(AllFramesPinned) && Untouched(bm)
      ensures r.Ok? ==>
        var v, slot := old(Contents())[i], r.value;
        && bm.cache == Touch(old(bm.cache), page)
        && slot == (if v.Fits(d) then Some(|v.slots|) else None)
        && (slot.None? ==> bm.store == old(bm.store) && next == if i + 1 < |chain| then chain[i + 1] else END)
        && (slot.Some? ==> Contents() == old(Contents())[i := v.Insert(d)])
      ensures SameOutside(old(bm.store), bm.store, chain) && EveryKept(old(bm.store), bm.store, chain)
    {
      hide BufferManager.Valid, Touch, SlotsKept, EveryKept;
      KeptUntouched(bm.store, firstPage, chain);
      r, next := TryPage(bm, page, d);
      if r.Ok? && r.value.Some? {
        KeptAlone(old(bm.store), bm.store, firstPage, chain, page);
        RewriteInChain(old(bm.store), bm.store, firstPage, chain, i, old(Contents())[i].Insert(d));
      }
    }

    /** The insert walk: tries the pages in chain order and stops at the first that fits. It is cut
        short at the first page whose frame cannot be had, and then nothing has changed. */
    method Walk(d: Data) returns (r: Result<Option<RID>>, last: int, ghost i: nat)
      requires Valid() && chain != []
      modifies bm.footprint, bm.disk`pages, bm.disk`numPages
      ensures Valid() && i <= FirstFit(old(Contents()), d) <= |chain|
      ensures InRange(chain) && Served(old(bm.cache), chain[..i])
      ensures r.Err? <==> i < |chain| && !old(bm.cache).CanRequest(chain[i])
      ensures r.Err? ==> r == Err(AllFramesPinned) && Contents() == old(Contents()) && bm.store == old(bm.store)
      ensures r.Err? ==> bm.cache == TouchAll(old(bm.cache), chain[..i])
      ensures r.Ok? ==> i == FirstFit(old(Contents()), d) && (r.value.Some? <==> i < |chain|)
      ensures r.Ok? && r.value.Some? ==>
        && r.value.value == RID(chain[i], |old(Contents())[i].slots|)
        && Contents() == old(Contents())[i := old(Contents())[i].Insert(d)]
        && Served(old(bm.cache), chain[..i + 1]) && bm.cache == TouchAll(old(bm.cache), chain[..i + 1])
      ensures r.Ok? && r.value.None? ==>
        && last == chain[|chain| - 1] && Contents() == old(Contents()) && bm.store == old(bm.store)
        && Served(old(bm.cache), chain) && bm.cache == TouchAll(old(bm.cache), chain)
      ensures SameOutside(old(bm.store), bm.store, chain) && EveryKept(old(bm.store), bm.store, chain)
    {
      hide BufferManager.Valid, HeapFile.Valid, TouchAll, Touch, Cache.Valid, EveryKept;
      Parts();
      Unchanged();
      ghost var h, c := Contents(), bm.cache;
      TouchNone(c);
      var page := firstPage;
      last, i := END, 0;
      while page != END
        invariant Valid() && bm.store == old(bm.store)
        invariant i <= |chain| && page == (if i < |chain| then chain[i] else END)
        invariant last == if i == 0 then END else chain[i - 1]
        invariant Served(c, chain[..i]) && bm.cache == TouchAll(c, chain[..i])
        invariant forall j :: 0 <= j < i ==> !h[j].Fits(d)
        decreases |chain| - i
      {
        assert chain[..i + 1] == chain[..i] + [chain[i]];
        StillServed(c, chain[..i], page);
        var slot, next;
        slot, next :- TryNth(page, d, i);
        TouchNext(c, chain[..i], page);
        if slot.Some? {
          return Ok(Some(RID(page, slot.value))), last, i;
        }
        last, page, i := page, next, i + 1;
      }
      assert chain[..|chain|] == chain;
      return Ok(None), last, i;
    }

    method EnsureFirst() returns (r: Result<()>, ghost touched: seq<int>)
      requires Valid() && dm.Room() > 0
      modifies this`firstPage, this`chain, bm.footprint, dm
      ensures bm.Valid() && dm.Room() >= old(dm.Room()) - 1
      ensures InRange(touched) && Served(old(bm.cache), touched) && bm.cache == TouchAll(old(bm.cache), touched)
      ensures r.Err? ==>
        && r == Err(AllFramesPinned) && old(chain) == chain == touched == [] && bm.store == old(bm.store)
        && firstPage == old(dm.Next()) && 0 <= firstPage
        && !old(bm.cache).CanRequest(firstPage) && !dm.Allocatable(firstPage)
      ensures r.Ok? ==> Valid() && chain != [] && old(chain) <= chain && touched <= chain
      ensures r.Ok? ==> Contents() == if old(chain) == [] then [EMPTY_PAGE] else old(Contents())
      ensures old(chain) != [] ==>
        r.Ok? && chain == old(chain) && bm.cache == old(bm.cache) && dm.Next() == old(dm.Next())
      ensures old(chain) != [] ==> bm.store == old(bm.store) && firstPage == old(firstPage) && touched == []
      ensures old(chain) == [] && r.Ok? ==> chain == touched == [firstPage] && bm.cache.Resident(firstPage)
      ensures old(chain) == [] ==> firstPage == old(dm.Next()) && dm.Next() == old(dm.After())
      ensures old(chain) == [] ==> (r.Ok? <==> old(bm.cache.CanRequest(dm.Next())))
      ensures SameOutside(old(bm.store), bm.store, chain)
      ensures r.Ok? ==> forall q :: dm.Allocatable(q) <==> old(dm.Allocatable(q)) && q !in chain
      ensures forall q :: q in chain ==> q in old(chain) || old(dm.Allocatable(q))
    {
      hide BufferManager.Valid, HeapFile.Valid, TouchAll, Touch, Cache.Valid;
      Parts();
      ghost var c := bm.cache;
      TouchNone(c);
      touched := [];
      r := Ok(());
      if firstPage == END {
        ghost var p;
        r, p := StartFirst();
        if r.Ok? {
          TouchNext(c, [], p);
          touched := [p];
          assert [] + [p] == [p];
        }
      } else {
        assert chain != [];
      }
    }

    /** Links the new page `p` behind the last one, then initialises and fills it. */
    static method AppendPage(bm: BufferManager, last: int, p: int, d: Data)
        returns (r: Result<Option<nat>>, ghost mid: Pages)
      requires bm.Valid() && 0 <= last < I32_LIMIT && 0 <= p < I32_LIMIT
      requires last in bm.store && IsHeapPage(bm.store[last]) && bm.cache.CanRequest(last)
      modifies bm.footprint, bm.disk`pages, bm.disk`numPages
      ensures bm.Valid() && Rewritten(old(bm.store), mid, last, Meaning(old(bm.store[last])), p)
      ensures SlotsKept(old(bm.store), mid, last, -1)
      ensures (r.Ok? <==> old(bm.cache).CanRequest(p)) && Served(old(bm.cache), [last])
      ensures r.Err? ==> r == Err(AllFramesPinned) && bm.store == mid && bm.cache == TouchAll(old(bm.cache), [last])
      ensures r.Ok? ==>
        && r.value == (if EMPTY_PAGE.Fits(d) then Some(0) else None)
        && Rewritten(mid, bm.store, p, if r.value.Some? then EMPTY_PAGE.Insert(d) else EMPTY_PAGE, END)
        && Served(old(bm.cache), [last, p]) && bm.cache == TouchAll(old(bm.cache), [last, p])
    {
      hide BufferManager.Valid, TouchAll, Touch, Cache.Valid, Rewritten, SlotsKept;
      ghost var c := bm.cache;
      bm.CacheValid();
      TouchNone(c);
      TouchNext(c, [], last);
      assert [] + [last] == [last] && [last] + [p] == [last, p];
      StillServed(c, [last], p);
      var done := LinkPage(bm, last, p);
      mid := bm.store;
      r := NewPage(bm, p, d);
      if r.Ok? {
        TouchNext(c, [last], p);
      }
    }

    /** Links and fills a new last page, when no page of the chain fits. If no frame can be had for
        it, the last page is left linked to a page that was never initialised. */
    method Append(d: Data, last: int) returns (r: Result<Option<RID>>, ghost p: int)
      requires Valid() && chain != [] && last == chain[|chain| - 1] && dm.Room() > 0 && bm.cache.CanRequest(last)
      modifies this`chain, bm.footprint, dm
      ensures bm.Valid() && p == old(dm.Next()) && 0 <= p < I32_LIMIT && dm.Room() == old(dm.Room()) - 1
      ensures (r.Ok? <==> old(bm.cache).CanRequest(p)) && InRange([last, p]) && Served(old(bm.cache), [last])
      ensures r.Err? ==>
        && r == Err(AllFramesPinned) && chain == old(chain) && bm.cache == TouchAll(old(bm.cache), [last])
        && LinksTo(bm.store, firstPage, chain, p) && HeapChain.Contents(bm.store, chain) == old(Contents())
        && bm.store.Keys == old(bm.store.Keys)
      ensures r.Ok? ==>
        && Valid() && chain == old(chain) + [p]
        && r.value == (if EMPTY_PAGE.Fits(d) then Some(RID(p, 0)) else None)
        && Contents() == old(Contents()) + [if r.value.Some? then EMPTY_PAGE.Insert(d) else EMPTY_PAGE]
        && Served(old(bm.cache), [last, p]) && bm.cache == TouchAll(old(bm.cache), [last, p])
      ensures SameOutside(old(bm.store), bm.store, chain) && EveryKept(old(bm.store), bm.store, old(chain))
      ensures old(dm.Allocatable(p))
      ensures forall q :: dm.Allocatable(q) <==> old(dm.Allocatable(q)) && q != p
    {
      hide BufferManager.Valid, TouchAll, IsChain, LinksTo, HeapChain.Contents, Rewritten, SameOutside, SlotsKept,
        EveryKept;
      Parts();
      ghost var s := bm.store;
      p := dm.Next();
      var newPage := Allocate(bm, dm);
      PageInChain(bm.store, firstPage, chain, |chain| - 1);
      var slot, mid := AppendPage(bm, last, newPage, d);
      if slot.Err? {
        RelinkLast(s, mid, firstPage, chain, newPage);
        return slot.PropagateFailure(), p;
      }
      ExtendChain(s, mid, bm.store, firstPage, chain, newPage,
                  if slot.value.Some? then EMPTY_PAGE.Insert(d) else EMPTY_PAGE);
      chain := chain + [newPage];
      return Ok(if slot.value.Some? then Some(RID(newPage, slot.value.value)) else None), p;
    }

    /** Every frame is pinned and the walk meets a page that is not cached before one that fits. */
    static ghost predicate Starved(c: Cache, chain: seq<int>, h: Heap, d: Data) {
      exists i :: 0 <= i < |chain| && i <= FirstFit(h, d) && !c.CanRequest(chain[i])
    }

    /** The heap has taken the record in, at the place that is returned. */
    static predicate Stored(h: Heap, d: Data, after: Heap, chain: seq<int>, at: Option<RID>) {
      var i := InsertRecord(h, d);
      && after == i.heap && |chain| == |after|
      && at == if i.pos.Some? then Some(RID(chain[i.pos.value.page], i.pos.value.slot)) else None
    }

    /** What the walk's place means for the record. */
    static lemma Places(h: Heap, d: Data, chain: seq<int>)
      requires h != [] && |h| == |chain|
      ensures var i := FirstFit(h, d);
              && (i < |h| ==> Stored(h, d, h[i := h[i].Insert(d)], chain, Some(RID(chain[i], |h[i].slots|))))
              && (i == |h| ==> forall p ::
                    Stored(h, d, h + [if EMPTY_PAGE.Fits(d) then EMPTY_PAGE.Insert(d) else EMPTY_PAGE], chain + [p],
                           if EMPTY_PAGE.Fits(d) then Some(RID(p, 0)) else None))
    {
    }

    /** A heap without pages takes a record like a heap of one empty page. */
    static lemma Begins(h: Heap, d: Data)
      ensures h == [] ==> InsertRecord(h, d) == InsertRecord([EMPTY_PAGE], d)
    {
    }

    /** The last page is linked to `next` and then no frame can be had for it: the pages of the chain
        can all be requested, none fits, and `next` cannot be requested. */
    static ghost predicate Loses(c: Cache, chain: seq<int>, h: Heap, next: int, d: Data) {
      FirstFit(h, d) == |chain| && !c.CanRequest(next) && !Starved(c, chain, h, d)
    }

    /** When an insertion fails, and whether it leaves a dangling link. */
    static ghost predicate FailsRight(c: Cache, chain: seq<int>, h: Heap, next: int, d: Data, failed: bool,
                                      lost: bool) {
      && (failed && !lost <==> Starved(c, chain, h, d))
      && (failed && lost <==> Loses(c, chain, h, next, d))
    }

    /** How the walk ended decides the outcome. */
    static lemma WalkDecides(c: Cache, chain: seq<int>, h: Heap, next: int, d: Data, i: nat)
      requires |h| == |chain| && i <= FirstFit(h, d)
      ensures i < |chain| && !c.CanRequest(chain[i]) ==>
                FailsRight(c, chain, h, next, d, true, false) && !c.HasRoom()
      ensures i == FirstFit(h, d) < |chain| && Served(c, chain[..i + 1]) ==>
                FailsRight(c, chain, h, next, d, false, false)
      ensures i == |chain| && Served(c, chain) ==>
                FailsRight(c, chain, h, next, d, !c.CanRequest(next), !c.CanRequest(next))
    {
      if i == FirstFit(h, d) < |chain| && Served(c, chain[..i + 1]) && !c.HasRoom() {
        forall k | 0 <= k <= i
          ensures c.Resident(chain[k])
        {
          assert c.Resident(chain[..i + 1][k]);
        }
      }
    }

    /** The same on a heap without pages: the first page and, for a record too long for it, a second
        one are both linked before their frames are requested. */
    static ghost predicate FailsEmpty(c: Cache, next: int, after: int, d: Data, failed: bool, lost: Option<int>,
                                      chain: seq<int>) {
      && (failed <==> !c.CanRequest(next) || (|d| > MAX_RECORD && !c.CanRequest(after)))
      && (failed ==> lost == Some(if c.CanRequest(next) then after else next))
      && (failed ==> chain == if c.CanRequest(next) then [next] else [])
    }

    /** A page just written is cached, so the walk does not fail there. */
    static lemma SecondPage(c: Cache, p: int, after: int, d: Data, failed: bool, lost: bool)
      requires c.Resident(p) && FailsRight(c, [p], [EMPTY_PAGE], after, d, failed, lost)
      ensures failed ==> lost
      ensures failed <==> |d| > MAX_RECORD && !c.CanRequest(after)
    {
    }

    /** The insertion when no page fits. */
    method Extend(d: Data, last: int) returns (r: Result<Option<RID>>, ghost touched: seq<int>, ghost lost: Option<int>)
      requires Valid() && chain != [] && last == chain[|chain| - 1] && dm.Room() > 0 && bm.cache.CanRequest(last)
      requires FirstFit(Contents(), d) == |chain|
      modifies this`chain, bm.footprint, dm
      ensures bm.Valid() && old(chain) <= chain && dm.Room() >= old(dm.Room()) - 1
      ensures (r.Err? <==> !old(bm.cache.CanRequest(dm.Next()))) && (r.Err? <==> lost.Some?)
      ensures lost.Some? ==> lost.value == old(dm.Next())
      ensures touched == if r.Err? then [last] else [last, old(dm.Next())]
      ensures InRange(touched) && Served(old(bm.cache), touched) && bm.cache == TouchAll(old(bm.cache), touched)
      ensures last in chain && (r.Ok? ==> chain == old(chain) + [old(dm.Next())])
      ensures SameOutside(old(bm.store), bm.store, chain) && EveryKept(old(bm.store), bm.store, old(chain))
      ensures forall q :: q in chain ==> q in old(chain) || old(dm.Allocatable(q))
      ensures r.Ok? ==> Valid() && Stored(old(Contents()), d, Contents(), chain, r.value)
      ensures r.Ok? ==> forall q :: dm.Allocatable(q) <==> old(dm.Allocatable(q)) && (q in old(chain) || q !in chain)
      ensures r.Err? ==> r == Err(AllFramesPinned) && chain == old(chain) && bm.store.Keys == old(bm.store.Keys)
      ensures lost.Some? ==>
        && LinksTo(bm.store, firstPage, chain, lost.value)
        && HeapChain.Contents(bm.store, chain) == old(Contents())
        && 0 <= lost.value && !dm.Allocatable(lost.value)
    {
      hide BufferManager.Valid, HeapFile.Valid, TouchAll, Touch, Cache.Valid, IsChain, HeapChain.Contents, Distinct,
        LinksTo, Stored, InsertRecord, Served, EveryKept;
      Parts();
      Places(Contents(), d, chain);
      ghost var p;
      r, p := Append(d, last);
      touched := if r.Err? then [last] else [last, p];
      lost := if r.Err? then Some(p) else None;
    }

    /** The pages an insertion uses: those up to the first that fits; or all, the last one again, and
        the new one. */
    static function VisitedPages(pages: seq<int>, i: nat, chain: seq<int>): seq<int> {
      if i < |pages| then pages[..i + 1]
      else if 0 < |pages| < |chain| then pages + [pages[|pages| - 1], chain[|pages|]]
      else pages
    }

    /** The insertion into a heap that has a page. */
    method InsertInChain(d: Data) returns (r: Result<Option<RID>>, ghost touched: seq<int>, ghost lost: Option<int>)
      requires Valid() && chain != [] && dm.Room() >= 1
      modifies this`chain, bm.footprint, dm
      ensures bm.Valid() && old(chain) <= chain && dm.Room() >= old(dm.Room()) - 1
      ensures InRange(touched) && Served(old(bm.cache), touched) && bm.cache == TouchAll(old(bm.cache), touched)
      ensures forall q :: q in touched ==> q in chain
      ensures r.Ok? ==> touched == VisitedPages(old(chain), FirstFit(old(Contents()), d), chain)
      ensures SameOutside(old(bm.store), bm.store, chain) && EveryKept(old(bm.store), bm.store, old(chain))
      ensures forall q :: q in chain ==> q in old(chain) || old(dm.Allocatable(q))
      ensures FailsRight(old(bm.cache), old(chain), old(Contents()), old(dm.Next()), d, r.Err?, lost.Some?)
      ensures r.Ok? ==> Valid() && Stored(old(Contents()), d, Contents(), chain, r.value)
      ensures r.Ok? ==> forall q :: dm.Allocatable(q) <==> old(dm.Allocatable(q)) && (q in old(chain) || q !in chain)
      ensures r.Err? ==> r == Err(AllFramesPinned) && !old(bm.cache).HasRoom() && chain == old(chain)
      ensures r.Err? ==> bm.store.Keys == old(bm.store.Keys) && (lost.Some? ==> lost.value == old(dm.Next()))
      ensures r.Err? && lost.None? ==> Valid() && Contents() == old(Contents())
      ensures r.Err? && lost.Some? ==>
        && LinksTo(bm.store, firstPage, chain, lost.value)
        && HeapChain.Contents(bm.store, chain) == old(Contents())
        && 0 <= lost.value && !dm.Allocatable(lost.value)
    {
      hide BufferManager.Valid, HeapFile.Valid, TouchAll, Touch, Cache.Valid, IsChain, HeapChain.Contents, Distinct,
        LinksTo, FailsRight, Served, Stored, InsertRecord, EveryKept;
      Parts();
      ghost var c, h, pages, next := bm.cache, Contents(), chain, dm.Next();
      var found, last, i := Walk(d);
      WalkDecides(c, chain, h, next, d, i);
      Places(h, d, pages);
      assert chain[..|chain|] == chain;
      Parts();
      lost := None;
      if found.Err? {
        return found, chain[..i], None;
      }
      if found.value.Some? {
        return found, chain[..i + 1], None;
      }
      UsesThenPair(c, pages, next);
      ghost var more;
      r, more, lost := Extend(d, last);
      touched := pages + more;
    }

    /** Inserts into the first page in chain order that fits, extending the chain if none does.
        It fails only if every frame is pinned. If it fails in the walk nothing has changed; if it
        fails later the chain leads to a page `lost` that was never initialised. */
    method Insert(d: Data) returns (r: Result<Option<RID>>, ghost touched: seq<int>, ghost lost: Option<int>)
      requires Valid() && dm.Room() >= 2
      modifies this, bm.footprint, dm
      ensures bm.Valid() && old(chain) <= chain && dm.Room() >= old(dm.Room()) - 2
      ensures InRange(touched) && Served(old(bm.cache), touched) && bm.cache == TouchAll(old(bm.cache), touched)
      ensures forall q :: q in touched ==> q in chain
      ensures r.Ok? && old(chain) != [] ==> touched == VisitedPages(old(chain), FirstFit(old(Contents()), d), chain)
      ensures r.Ok? && old(chain) == [] ==>
        touched == [firstPage] + VisitedPages([firstPage], FirstFit([EMPTY_PAGE], d), chain)
      ensures SameOutside(old(bm.store), bm.store, chain) && EveryKept(old(bm.store), bm.store, old(chain))
      ensures forall q :: q in chain ==> q in old(chain) || old(dm.Allocatable(q))
      ensures r.Ok? ==> Valid() && Stored(old(Contents()), d, Contents(), chain, r.value)
      ensures r.Ok? ==> forall q :: dm.Allocatable(q) <==> old(dm.Allocatable(q)) && q !in chain
      ensures r.Err? ==> r == Err(AllFramesPinned) && !old(bm.cache).HasRoom()
      ensures r.Err? && lost.None? ==> Valid() && chain == old(chain) && Contents() == old(Contents())
      ensures r.Err? && lost.Some? ==>
        && LinksTo(bm.store, firstPage, chain, lost.value)
        && HeapChain.Contents(bm.store, chain) == (if chain == old(chain) then old(Contents()) else [EMPTY_PAGE])
        && 0 <= lost.value && !dm.Allocatable(lost.value)
      ensures old(chain) != [] && r.Err? && lost.Some? ==>
        lost.value == old(dm.Next()) && bm.store.Keys == old(bm.store.Keys)
      ensures old(chain) != [] ==>
        FailsRight(old(bm.cache), old(chain), old(Contents()), old(dm.Next()), d, r.Err?, lost.Some?)
      ensures old(chain) == [] ==>
        FailsEmpty(old(bm.cache), old(dm.Next()), old(dm.After()), d, r.Err?, lost, chain)
    {
      hide BufferManager.Valid, HeapFile.Valid, TouchAll, Touch, Cache.Valid, Distinct, FailsRight, IsChain,
        InsertRecord, EveryKept;
      Parts();
      Unchanged();
      Begins(Contents(), d);
      ghost var c := bm.cache;
      var first;
      first, touched := EnsureFirst();
      if first.Err? {
        NoneToKeep(old(bm.store), bm.store);
        return first.PropagateFailure(), touched, Some(firstPage);
      }
      Parts();
      ghost var b, p, next, more := bm.cache, firstPage, dm.Next(), [];
      r, more, lost := InsertInChain(d);
      if old(chain) == [] {
        NoneToKeep(old(bm.store), bm.store);
        StillServed(c, touched, next);
        SecondPage(b, p, next, d, r.Err?, lost.Some?);
      }
      TouchAllAppends(c, touched, more);
      touched := touched + more;
    }
  }
}
