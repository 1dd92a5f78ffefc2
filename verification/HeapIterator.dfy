/** The sequential scan of a heap file: one page pinned at a time, no pin held between calls. */
module HeapIterator {
  import opened Bytes
  import opened CacheSpec
  import opened CacheRuns
  import opened StoreSpec
  import opened HeapSpec
  import opened HeapChain
  import opened ScanSpec
  import opened ViewLifetime
  import opened BufferPool
  import opened BufferManager
  import opened HeapFile
  import SP = SlottedPage

  class HeapIterator {
    const heap: HeapFile
    var currPage: int
    var currSlot: nat
    var hasNext: bool

    ghost var at: nat  // the place of `currPage` in the chain

    ghost predicate Placed()
      reads this, heap, heap.bm.disk, heap.bm.footprint
    {
      && heap.Valid() && this !in heap.bm.footprint
      && at <= |heap.chain| && currPage == if at < |heap.chain| then heap.chain[at] else END
    }

    /** The iterator stands on a live record, or past the last page. */
    ghost predicate Valid()
      reads this, heap, heap.bm.disk, heap.bm.footprint
    {
      && Placed()
      && if hasNext then Live(heap.Contents(), Pos(at, currSlot)) else at == |heap.chain| && currSlot == 0
    }

    /** The places still to come. */
    ghost function Remaining(): seq<Pos>
      requires Valid()
      reads this, heap, heap.bm.disk, heap.bm.footprint
    {
      LiveFrom(heap.Contents(), at, currSlot)
    }

    /** How far into the chain the scan has looked. */
    ghost function Seen(): (n: nat)
      requires Valid()
      reads this, heap, heap.bm.disk, heap.bm.footprint
      ensures at <= n <= |heap.chain|
    {
      if hasNext then at + 1 else at
    }

    /** The end iterator. */
    constructor (heap: HeapFile)
      requires heap.Valid()
      ensures Valid() && this.heap == heap && !hasNext
    {
      this.heap := heap;
      currPage, currSlot, hasNext := END, 0, false;
      at := |heap.chain|;
    }

    /** The first live slot of page `p` at or after `slot`, and where the next page is. */
    static method FindLive(bm: BufferManager, p: int, slot: nat) returns (r: Result<Option<nat>>, next: int)
      requires bm.Valid() && 0 <= p < I32_LIMIT && p in bm.store && IsHeapPage(bm.store[p])
      modifies bm.footprint, bm.disk`pages, bm.disk`numPages
      ensures bm.Valid() && bm.store == old(bm.store) && (r.Ok? <==> old(bm.cache.CanRequest(p)))
      ensures r.Err? ==> r == Err(AllFramesPinned) && HeapFile.Untouched(bm)
      ensures r.Ok? ==>
        var v, found := Meaning(bm.store[p]), r.value;
        && bm.cache == Touch(old(bm.cache), p)
        && (found.Some? ==>
              slot <= found.value && v.Live(found.value) && forall j :: slot <= j < found.value ==> !v.Live(j))
        && (found.None? ==> next == NextOf(bm.store[p]) && forall j :: slot <= j ==> !v.Live(j))
    {
      hide BufferManager.Valid;
      var found := None;
      next := END;
      var frame :- bm.Request(p);
      var sp := SP.SlottedPage(frame.data, HEAP_HEADER);
      var s := slot;
      while s < sp.GetNumSlots()
        invariant slot <= s && forall j :: slot <= j < s ==> !sp.Contents().Live(j)
      {
        if sp.Get(s).Some? {
          found := Some(s);
          break;
        }
        s := s + 1;
      }
      if found.None? {
        next := NextOf(frame.data[..]);
      }
      var done := bm.Release(p);
      r := Ok(found);
    }

    /** Looks for a live record in the current page; without one, moves to the next page. */
    method AdvanceInPage() returns (r: Result<()>)
      requires Placed() && at < |heap.chain| && !hasNext
      modifies this, heap.bm.footprint, heap.bm.disk`pages, heap.bm.disk`numPages
      ensures Placed() && heap.bm.store == old(heap.bm.store)
      ensures 0 <= old(currPage) < I32_LIMIT && (r.Ok? <==> old(heap.bm.cache.CanRequest(currPage)))
      ensures r.Err? ==> r == Err(AllFramesPinned) && HeapFile.Untouched(heap.bm)
      ensures r.Err? ==> !hasNext && at == old(at) && currSlot == old(currSlot)
      ensures r.Ok? ==> heap.bm.cache == Touch(old(heap.bm.cache), old(currPage))
      ensures LiveFrom(heap.Contents(), at, currSlot) == LiveFrom(heap.Contents(), old(at), old(currSlot))
      ensures r.Ok? ==> if hasNext then at == old(at) && Live(heap.Contents(), Pos(at, currSlot))
                        else at == old(at) + 1 && currSlot == 0
    {
      hide BufferManager.Valid, Touch, LiveFrom;
      heap.Parts();
      var found, next := FindLive(heap.bm, currPage, currSlot);
      if found.Err? {
        return found.PropagateFailure();
      }
      if found.value.Some? {
        SkipSlots(heap.Contents(), at, currSlot, found.value.value);
        currSlot, hasNext := found.value.value, true;
      } else {
        SkipPage(heap.Contents(), at, currSlot);
        currPage, currSlot, at := next, 0, at + 1;
      }
      r := Ok(());
    }

    predicate HasNext()
      reads this
    {
      hasNext
    }

    /** Comparison with the end iterator, field by field. */
    predicate IsEnd()
      reads this
    {
      currPage == END && currSlot == 0 && !hasNext
    }

    /** Moves to the first live record at or after the current place. If the frame of a page on the
        way cannot be had, the iterator is left there, looking like the end. */
    method Advance() returns (r: Result<()>, ghost touched: seq<int>)
      requires Placed() && at < |heap.chain|
      modifies this, heap.bm.footprint, heap.bm.disk`pages, heap.bm.disk`numPages
      ensures Placed() && heap.bm.store == old(heap.bm.store) && old(at) <= at
      ensures LiveFrom(heap.Contents(), at, currSlot) == LiveFrom(heap.Contents(), old(at), old(currSlot))
      ensures InRange(touched) && Served(old(heap.bm.cache), touched)
      ensures heap.bm.cache == TouchAll(old(heap.bm.cache), touched)
      ensures r.Ok? ==> Valid() && touched == heap.chain[old(at)..Seen()]
      ensures r.Err? ==> Stuck(old(heap.bm.cache)) && r == Err(AllFramesPinned) && touched == heap.chain[old(at)..at]
    {
      hide BufferManager.Valid, HeapFile.Valid, TouchAll, Touch, Cache.Valid, LiveFrom;
      heap.Parts();
      ghost var c := heap.bm.cache;
      TouchNone(c);
      hasNext := false;
      touched := [];
      while currPage != END
        invariant Placed() && heap.bm.store == old(heap.bm.store) && !hasNext
        invariant old(at) <= at && touched == heap.chain[old(at)..at]
        invariant at == |heap.chain| ==> currSlot == 0
        invariant LiveFrom(heap.Contents(), at, currSlot) == LiveFrom(heap.Contents(), old(at), old(currSlot))
        invariant InRange(touched) && Served(c, touched) && heap.bm.cache == TouchAll(c, touched)
        decreases |heap.chain| - at
      {
        StillServed(c, touched, currPage);
        ghost var page := currPage;
        r := AdvanceInPage();
        if r.Err? {
          return;
        }
        TouchNext(c, touched, page);
        touched := touched + [page];
        if hasNext {
          return;
        }
      }
      r := Ok(());
    }

    /** The page the iterator stands on could not be requested. */
    ghost predicate Stuck(c: Cache)
      reads this, heap, heap.bm.disk, heap.bm.footprint
    {
      Placed() && !hasNext && at < |heap.chain| && !c.CanRequest(heap.chain[at]) && !c.HasRoom()
    }

    /** Starts a scan at the first page; on a heap without pages this is the end. */
    method Begin() returns (r: Result<()>, ghost touched: seq<int>)
      requires heap.Valid() && this !in heap.bm.footprint
      modifies this, heap.bm.footprint, heap.bm.disk`pages, heap.bm.disk`numPages
      ensures Placed() && heap.bm.store == old(heap.bm.store)
      ensures InRange(touched) && Served(old(heap.bm.cache), touched)
      ensures heap.bm.cache == TouchAll(old(heap.bm.cache), touched)
      ensures LiveFrom(heap.Contents(), at, currSlot) == Scan(heap.Contents())
      ensures r.Ok? ==> Valid() && touched == heap.chain[..Seen()]
      ensures r.Err? ==> Stuck(old(heap.bm.cache)) && r == Err(AllFramesPinned) && touched == heap.chain[..at]
    {
      hide BufferManager.Valid, TouchAll, Touch, Cache.Valid;
      heap.Parts();
      TouchNone(heap.bm.cache);
      currPage, currSlot, at, hasNext := heap.firstPage, 0, 0, false;
      touched := [];
      r := Ok(());
      if currPage != END {
        r, touched := Advance();
      }
    }

    /** The record under the iterator (`operator*`); its view is fresh. */
    method Deref() returns (r: Result<Record>)
      requires Valid() && hasNext
      modifies heap.bm.footprint, heap.bm.disk`pages, heap.bm.disk`numPages
      ensures Valid() && heap.bm.store == old(heap.bm.store) && Remaining() == old(Remaining())
      ensures 0 <= currPage < I32_LIMIT && (r.Ok? <==> old(heap.bm.cache.CanRequest(currPage)))
      ensures r.Err? ==> r == Err(AllFramesPinned) && HeapFile.Untouched(heap.bm)
      ensures r.Ok? ==>
        && heap.bm.cache == Touch(old(heap.bm.cache), currPage)
        && heap.bm.cache.table[currPage] < |heap.bm.pool|
        && r.value.rid == RID(currPage, currSlot) && r.value.view.InBounds()
        && Denotes(heap.bm.store, heap.bm.pool, r.value.view, heap.bm.cache.table[currPage], currPage, currSlot,
                   heap.Contents()[at].slots[currSlot])
        && Some(r.value.view.Read()) == Get(heap.Contents(), Pos(at, currSlot))
    {
      hide BufferManager.Valid, Touch;
      heap.Parts();
      heap.PageAt(currPage);
      assert heap.Locate(currPage) == at;
      var rec :- heap.Get(RID(currPage, currSlot));
      ViewTaken(heap.bm, currPage, currSlot, rec.value.view);
      r := Ok(rec.value);
    }

    /** Steps past the current record (`operator++`); at the end it stays there. */
    method Increment() returns (r: Result<()>, ghost touched: seq<int>)
      requires Valid()
      modifies this, heap.bm.footprint, heap.bm.disk`pages, heap.bm.disk`numPages
      ensures Placed() && heap.bm.store == old(heap.bm.store) && old(at) <= at
      ensures InRange(touched) && Served(old(heap.bm.cache), touched)
      ensures heap.bm.cache == TouchAll(old(heap.bm.cache), touched)
      ensures old(hasNext) ==>
        old(Remaining()) != [] && LiveFrom(heap.Contents(), at, currSlot) == old(Remaining())[1..]
      ensures !old(hasNext) ==> r.Ok? && !hasNext && touched == [] && old(Remaining()) == []
      ensures r.Ok? ==> Valid() && (old(hasNext) ==> touched == heap.chain[old(at)..Seen()])
      ensures r.Err? ==> Stuck(old(heap.bm.cache)) && r == Err(AllFramesPinned) && touched == heap.chain[old(at)..at]
    {
      hide BufferManager.Valid, TouchAll, Touch, Cache.Valid;
      heap.Parts();
      First();
      TouchNone(heap.bm.cache);
      touched := [];
      r := Ok(());
      if hasNext {
        AtLive(heap.Contents(), at, currSlot);
        currSlot := currSlot + 1;
        r, touched := Advance();
      }
    }

    /** The first of the places to come is the current one. */
    lemma First()
      requires Valid()
      ensures hasNext <==> Remaining() != []
      ensures hasNext ==> Remaining()[0] == Pos(at, currSlot)
    {
      if hasNext {
        AtLive(heap.Contents(), at, currSlot);
      } else {
        AtEnd(heap.Contents(), currSlot);
      }
    }

    /** A view of record `d`, in slot `slot` of page `p`, taken when frame `i` held the page. */
    static ghost predicate Denotes(store: Pages, pool: seq<Frame>, view: Span, i: nat, p: int, slot: nat, d: Data) {
      && i < |pool| && view.InBounds() && view.buf == pool[i].data
      && p in store && |store[p]| == PAGE_SIZE && view.at + view.len <= PAGE_SIZE
      && SP.Lies(store[p], HEAP_HEADER, slot, view.at, view.len)
      && store[p][view.at..view.at + view.len] == d
    }

    static lemma ViewTaken(bm: BufferManager, p: int, slot: nat, view: Span)
      requires bm.Valid() && p in bm.store && p in bm.cache.table && bm.cache.table[p] < |bm.pool|
      requires view.InBounds() && view.buf == bm.pool[bm.cache.table[p]].data
      requires SP.Lies(bm.store[p], HEAP_HEADER, slot, view.at, view.len)
      ensures Denotes(bm.store, bm.pool, view, bm.cache.table[p], p, slot, view.Read())
    {
      bm.FrameBytes(bm.cache.table[p]);
      assert view.Read() == view.buf[..][view.at..view.at + view.len];
    }

    /** What a view shows later: the bytes now at its place in its frame. While the frame still
        holds the record's page, these are the record; otherwise they belong to another page. */
    static lemma ViewShows(bm: BufferManager, i: nat, p: int, slot: nat, view: Span, d: Data)
      requires bm.Valid() && Denotes(bm.store, bm.pool, view, i, p, slot, d)
      ensures view.InBounds() && i < |bm.cache.page| && (Stays(bm.cache, p, i) ==> view.Read() == d)
      ensures var q := bm.cache.page[i];
              q in bm.store ==> |bm.store[q]| == PAGE_SIZE && view.at + view.len <= PAGE_SIZE
                                && view.Read() == bm.store[q][view.at..view.at + view.len]
    {
      hide SP.WellFormed;
      bm.FrameBytes(i);
      assert view.Read() == view.buf[..][view.at..view.at + view.len];
    }

    /** The current record, then a step past it. The view is taken before the step and read by the
        caller after it: it still shows the record if the frame still holds the page. If the step
        fails, the record is lost to the caller. */
    method Next() returns (r: Result<Option<Record>>, ghost frame: nat)
      requires Valid()
      modifies this, heap.bm.footprint, heap.bm.disk`pages, heap.bm.disk`numPages
      ensures Placed() && heap.bm.store == old(heap.bm.store) && old(at) <= at
      ensures r.Ok? ==> Valid() && (r.value.Some? <==> old(hasNext))
      ensures r == Ok(None) ==> heap.bm.cache == old(heap.bm.cache) && Remaining() == old(Remaining()) == []
      ensures old(hasNext) ==> 0 <= old(currPage) < I32_LIMIT && old(Remaining()) != []
      ensures r.Ok? && old(hasNext) ==>
        Remaining() == old(Remaining())[1..] && r.value.value.rid == RID(old(currPage), old(currSlot))
      ensures r.Ok? && old(hasNext) ==>
        && Denotes(heap.bm.store, heap.bm.pool, r.value.value.view, frame, old(currPage), old(currSlot),
                   heap.Contents()[old(at)].slots[old(currSlot)])
        && (Stays(heap.bm.cache, old(currPage), frame) ==>
              r.value.value.view.Read() == heap.Contents()[old(at)].slots[old(currSlot)])
      ensures r.Ok? && old(hasNext) ==>
        && old(heap.bm.cache.CanRequest(currPage))
        && var c := Touch(old(heap.bm.cache), old(currPage));
           var rest := heap.chain[old(at)..Seen()];
           InRange(rest) && Served(c, rest) && heap.bm.cache == TouchAll(c, rest) && frame == c.table[old(currPage)]
      ensures r.Err? ==> r == Err(AllFramesPinned) && old(hasNext) && !old(heap.bm.cache).HasRoom()
      ensures r.Err? && !old(heap.bm.cache.CanRequest(currPage)) ==>
        Valid() && Remaining() == old(Remaining()) && heap.bm.cache == old(heap.bm.cache)
      ensures r.Err? && old(heap.bm.cache.CanRequest(currPage)) ==>
        && Stuck(Touch(old(heap.bm.cache), old(currPage)))
        && LiveFrom(heap.Contents(), at, currSlot) == old(Remaining())[1..]
    {
      hide BufferManager.Valid, HeapFile.Valid, TouchAll, Touch, Cache.Valid, LiveFrom, HeapIterator.Denotes;
      frame := 0;
      First();
      if !hasNext {
        return Ok(None), 0;
      }
      heap.Parts();
      ghost var p, slot, d := currPage, currSlot, heap.Contents()[at].slots[currSlot];
      var rec :- Deref();
      frame := heap.bm.cache.table[p];
      ghost var touched;
      var step;
      step, touched := Increment();
      heap.Parts();
      ViewShows(heap.bm, frame, p, slot, rec.view, d);
      if step.Err? {
        return step.PropagateFailure(), frame;
      }
      r := Ok(Some(rec));
    }
  }
}
