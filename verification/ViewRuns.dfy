/** Views across whole runs. A caller inserts, updates, deletes, reads and scans; if the heap's pages
    fit in the pool, every view it was ever given shows its record until that record is modified. */
module ViewRuns {
  import opened Bytes
  import opened CacheSpec
  import opened CacheRuns
  import opened StoreSpec
  import opened Residency
  import opened HeapSpec
  import opened HeapChain
  import opened ScanSpec
  import opened ViewLifetime
  import opened UsesLanding
  import opened BufferPool
  import opened BufferManager
  import opened HeapFile
  import opened HeapIterator
  import opened Calls
  import opened LastWrites
  import SP = SlottedPage

  /** The view is that of its record's directory entry. */
  ghost predicate Points(store: Pages, rec: Record) {
    rec.rid.pageId in store && SP.Lies(store[rec.rid.pageId], HEAP_HEADER, rec.rid.slotId, rec.view.at, rec.view.len)
  }

  /** The view lies in the frame that holds its record's page. */
  ghost predicate InFrame(c: Cache, pool: seq<Frame>, rec: Record) {
    && rec.rid.pageId in c.table && c.table[rec.rid.pageId] < |pool|
    && rec.view.buf == pool[c.table[rec.rid.pageId]].data
  }

  /** Then the view shows the record. */
  lemma ViewReads(hf: HeapFile, rec: Record)
    requires hf.Valid() && rec.rid.pageId in hf.chain && Points(hf.bm.store, rec)
             && InFrame(hf.bm.cache, hf.bm.pool, rec)
    ensures rec.view.InBounds() && Get(hf.Contents(), hf.Place(rec.rid)) == Some(rec.view.Read())
  {
    var p := rec.rid.pageId;
    hf.PageAt(p);
    hf.bm.FrameBytes(hf.bm.cache.table[p]);
    SP.KeptSame(hf.bm.store[p], HEAP_HEADER, -1);
    SP.KeptView(hf.bm.store[p], hf.bm.store[p], HEAP_HEADER, -1, rec.rid.slotId, rec.view.at, rec.view.len);
    assert rec.view.Read() == rec.view.buf[..][rec.view.at..rec.view.at + rec.view.len];
  }

  lemma KeptPoints(s: Pages, t: Pages, k: int, rec: Record)
    requires SlotsKept(s, t, rec.rid.pageId, k) && rec.rid.slotId != k && Points(s, rec)
    ensures Points(t, rec)
  {
    var p := rec.rid.pageId;
    SP.KeptView(s[p], t[p], HEAP_HEADER, k, rec.rid.slotId, rec.view.at, rec.view.len);
  }

  // ----- a whole scan -----

  /** A page and then some others. */
  lemma TouchFirst(c: Cache, p: int, rest: seq<int>)
    requires c.Valid() && c.HasRoom() && 0 <= p < I32_LIMIT && InRange(rest)
    ensures InRange([p] + rest) && TouchAll(c, [p] + rest) == TouchAll(Touch(c, p), rest)
  {
    hide Cache.Valid, Touch;
    TouchNone(c);
    TouchNext(c, [], p);
    assert [] + [p] == [p];
    TouchAllAppends(c, [p], rest);
  }

  /** A view just taken stays in its frame while the heap's pages fit. */
  lemma FreshStays(bm: BufferManager, c: Cache, chain: seq<int>, rest: seq<int>, rec: Record)
    requires AllFit(c, chain) && InRange(rest) && (forall q :: q in rest ==> q in chain)
    requires rec.rid.pageId in chain && 0 <= rec.rid.pageId < I32_LIMIT
    requires bm.cache == TouchAll(Touch(c, rec.rid.pageId), rest)
    requires var b := Touch(c, rec.rid.pageId).table;
             b[rec.rid.pageId] < |bm.pool| && rec.view.buf == bm.pool[b[rec.rid.pageId]].data
    ensures InFrame(bm.cache, bm.pool, rec) && AllFit(bm.cache, chain) && KeepsFrames(c, bm.cache)
  {
    hide Touch, TouchAll, Misses, Cache.Valid;
    FitTouch(c, chain, rec.rid.pageId);
    FitUses(Touch(c, rec.rid.pageId), chain, rest);
  }

  /** One step of a scan, with what it uses. */
  method ScanStep(it: HeapIterator) returns (rec: Record, ghost touched: seq<int>)
    requires it.Valid() && it.hasNext && it.heap.bm.cache.HasRoom()
    modifies it, it.heap.bm.footprint, it.heap.bm.disk`pages, it.heap.bm.disk`numPages
    ensures it.Valid() && it.heap.bm.store == old(it.heap.bm.store)
    ensures it.heap.Valid() && it.heap.Contents() == old(it.heap.Contents())
    ensures old(it.Remaining()) != [] && it.Remaining() == old(it.Remaining())[1..]
    ensures var pos := old(it.Remaining())[0];
            pos.page < |it.heap.chain| && rec.rid == RID(it.heap.chain[pos.page], pos.slot)
    ensures InRange(touched) && it.heap.bm.cache == TouchAll(old(it.heap.bm.cache), touched)
    ensures forall q :: q in touched ==> q in it.heap.chain
    ensures Points(it.heap.bm.store, rec)
    ensures AllFit(old(it.heap.bm.cache), it.heap.chain) ==> InFrame(it.heap.bm.cache, it.heap.bm.pool, rec)
  {
    hide BufferManager.Valid, TouchAll, Touch, Cache.Valid, LiveFrom, SP.Lies;
    var hf := it.heap;
    hf.Parts();
    it.First();
    ghost var c, p := hf.bm.cache, it.currPage;
    ghost var frame;
    var r;
    r, frame := it.Next();
    rec := r.value.value;
    ghost var rest := hf.chain[old(it.at)..it.Seen()];
    TouchFirst(c, p, rest);
    touched := [p] + rest;
    if AllFit(c, hf.chain) {
      FreshStays(hf.bm, c, hf.chain, rest, rec);
    }
  }

  lemma IdsStep(chain: seq<int>, recs: seq<Record>, rec: Record, places: seq<Pos>)
    requires places != [] && forall k :: 0 <= k < |places| ==> places[k].page < |chain|
    requires rec.rid == RID(chain[places[0].page], places[0].slot)
    ensures RidsOf(recs + [rec]) + IdsOf(chain, places[1..]) == RidsOf(recs) + IdsOf(chain, places)
  {
    assert places == [places[0]] + places[1..];
  }

  lemma FramesStay(c: Cache, d: Cache, pool: seq<Frame>, recs: seq<Record>)
    requires KeepsFrames(c, d) && forall rec :: rec in recs ==> InFrame(c, pool, rec)
    ensures forall rec :: rec in recs ==> InFrame(d, pool, rec)
  {
  }

  /** Drains a scan. Whatever is evicted on the way, the ids are those of the live records in order. */
  method ScanAll(hf: HeapFile) returns (recs: seq<Record>, ghost touched: seq<int>)
    requires hf.Valid() && hf.bm.cache.HasRoom()
    modifies hf.bm.footprint, hf.bm.disk`pages, hf.bm.disk`numPages
    ensures hf.Valid() && hf.bm.store == old(hf.bm.store) && hf.Contents() == old(hf.Contents())
    ensures InRange(touched) && hf.bm.cache == TouchAll(old(hf.bm.cache), touched)
    ensures forall q :: q in touched ==> q in hf.chain
    ensures InOrder(hf.chain, Scan(hf.Contents())) && RidsOf(recs) == IdsOf(hf.chain, Scan(hf.Contents()))
    ensures var places := Scan(hf.Contents());
            && |recs| == |places|
            && forall k :: 0 <= k < |recs| ==> recs[k].rid == RID(hf.chain[places[k].page], places[k].slot)
    ensures forall rec :: rec in recs ==> rec.rid.pageId in hf.chain && Points(hf.bm.store, rec)
    ensures AllFit(old(hf.bm.cache), hf.chain) ==> forall rec :: rec in recs ==> InFrame(hf.bm.cache, hf.bm.pool, rec)
  {
    hide BufferManager.Valid, HeapFile.Valid, HeapIterator.Valid, TouchAll, Touch, Cache.Valid, LiveFrom, Points,
      RidsOf, IdsOf, AllFit, InFrame, KeepsFrames;
    hf.Parts();
    ghost var c, places := hf.bm.cache, Scan(hf.Contents());
    ScanInOrder(hf.Contents(), hf.chain, 0, 0);
    var it := new HeapIterator(hf);
    var begun;
    begun, touched := it.Begin();
    recs := [];
    while it.HasNext()
      invariant it.heap == hf && it.Valid() && hf.Valid() && hf.bm.store == old(hf.bm.store)
      invariant hf.Contents() == old(hf.Contents())
      invariant InRange(touched) && hf.bm.cache == TouchAll(c, touched)
      invariant forall q :: q in touched ==> q in hf.chain
      invariant InOrder(hf.chain, it.Remaining())
      invariant RidsOf(recs) + IdsOf(hf.chain, it.Remaining()) == IdsOf(hf.chain, places)
      invariant forall rec :: rec in recs ==> rec.rid.pageId in hf.chain && Points(hf.bm.store, rec)
      invariant AllFit(c, hf.chain) ==> forall rec :: rec in recs ==> InFrame(hf.bm.cache, hf.bm.pool, rec)
      decreases |it.Remaining()|
    {
      ghost var rest, b := it.Remaining(), hf.bm.cache;
      var rec;
      ghost var more;
      rec, more := ScanStep(it);
      IdsStep(hf.chain, recs, rec, rest);
      TouchAllAppends(c, touched, more);
      if AllFit(c, hf.chain) {
        FramesKept(c, hf.chain, touched, more);
        FramesStay(b, hf.bm.cache, hf.bm.pool, recs);
      }
      touched := touched + more;
      recs := recs + [rec];
    }
    it.First();
    IdsMatch(recs, hf.chain, places);
  }

  /** Uses of pages that fit leave every cached page where it is, and the pages still fit. */
  lemma FramesKept(c: Cache, chain: seq<int>, before: seq<int>, more: seq<int>)
    requires AllFit(c, chain) && InRange(before) && InRange(more)
    requires forall q :: q in before + more ==> q in chain
    ensures AllFit(TouchAll(c, before), chain)
    ensures KeepsFrames(TouchAll(c, before), TouchAll(TouchAll(c, before), more))
    ensures AllFit(TouchAll(TouchAll(c, before), more), chain)
  {
    hide Touch, TouchAll, Misses, Cache.Valid;
    assert forall k :: 0 <= k < |before| ==> (before + more)[k] == before[k];
    assert forall k :: 0 <= k < |more| ==> (before + more)[|before| + k] == more[k];
    FitUses(c, chain, before);
    FitUses(TouchAll(c, before), chain, more);
  }

  // ----- runs of calls -----

  /** Every record of these pages but the modified one kept its place and its bytes. */
  ghost predicate KeptBut(s: Pages, t: Pages, chain: seq<int>, m: Option<RID>) {
    forall q :: q in chain ==> SlotsKept(s, t, q, if m.Some? && m.value.pageId == q then m.value.slotId else -1)
  }

  lemma KeptElse(s: Pages, t: Pages, first: int, chain: seq<int>, rid: RID)
    requires IsChain(s, first, chain) && SameOutside(s, t, [rid.pageId])
    requires SlotsKept(s, t, rid.pageId, rid.slotId)
    ensures KeptBut(s, t, chain, Some(rid))
  {
    forall q | q in chain && q != rid.pageId
      ensures SlotsKept(s, t, q, -1)
    {
      SP.KeptSame(s[q], HEAP_HEADER, -1);
    }
  }

  /** A page stands in the chain once. */
  lemma SamePlace(hf: HeapFile, rid: RID)
    requires hf.Valid() && rid.pageId in hf.chain
    ensures hf.Place(rid) == PlaceOf(hf.chain, rid)
  {
    hf.Parts();
  }

  method DoStore(hf: HeapFile, d: Data) returns (o: Outcome, ghost touched: seq<int>)
    requires hf.Valid() && hf.bm.cache.HasRoom() && hf.dm.Room() >= 2
    modifies hf, hf.bm.footprint, hf.dm
    ensures hf.Valid() && old(hf.chain) <= hf.chain && hf.dm.Room() >= old(hf.dm.Room()) - 2
    ensures InRange(touched) && hf.bm.cache == TouchAll(old(hf.bm.cache), touched)
    ensures forall q :: q in touched ==> q in hf.chain
    ensures o == Stored(IdAt(hf.chain, InsertRecord(old(hf.Contents()), d).pos))
    ensures KeptBut(old(hf.bm.store), hf.bm.store, old(hf.chain), None)
    ensures hf.Contents() == Apply(old(hf.Contents()), Insert(d)) && |hf.Contents()| == |hf.chain|
  {
    hide BufferManager.Valid, HeapFile.Valid, TouchAll, Touch, SlotsKept, Cache.Valid, InsertRecord;
    ghost var lost;
    var r;
    r, touched, lost := hf.Insert(d);
    o := Stored(r.value);
  }

  method DoChange(hf: HeapFile, rid: RID, d: Data) returns (o: Outcome, ghost touched: seq<int>)
    requires hf.Valid() && hf.bm.cache.HasRoom() && rid.pageId in hf.chain
    modifies hf.bm.footprint, hf.bm.disk`pages, hf.bm.disk`numPages
    ensures hf.Valid() && touched == [rid.pageId]
    ensures o == Changed(rid, CanUpdate(old(hf.Contents()), PlaceOf(hf.chain, rid), d))
    ensures InRange(touched) && hf.bm.cache == TouchAll(old(hf.bm.cache), touched)
    ensures KeptBut(old(hf.bm.store), hf.bm.store, hf.chain, Modified(o))
    ensures hf.Contents() == Apply(old(hf.Contents()), Update(PlaceOf(hf.chain, rid), d))
  {
    hide BufferManager.Valid, TouchAll, Touch, SlotsKept, Cache.Valid;
    hf.Parts();
    hf.PageAt(rid.pageId);
    SamePlace(hf, rid);
    TouchFirst(hf.bm.cache, rid.pageId, []);
    TouchNone(Touch(hf.bm.cache, rid.pageId));
    touched := [rid.pageId];
    assert touched + [] == touched;
    var r := hf.Update(d, rid);
    hf.Unchanged();
    KeptElse(old(hf.bm.store), hf.bm.store, hf.firstPage, hf.chain, rid);
    o := Changed(rid, r.value);
  }

  method DoRemove(hf: HeapFile, rid: RID) returns (o: Outcome, ghost touched: seq<int>)
    requires hf.Valid() && hf.bm.cache.HasRoom() && rid.pageId in hf.chain
    modifies hf.bm.footprint, hf.bm.disk`pages, hf.bm.disk`numPages
    ensures hf.Valid() && touched == [rid.pageId]
    ensures o == Changed(rid, HasSlot(old(hf.Contents()), PlaceOf(hf.chain, rid)))
    ensures InRange(touched) && hf.bm.cache == TouchAll(old(hf.bm.cache), touched)
    ensures KeptBut(old(hf.bm.store), hf.bm.store, hf.chain, Modified(o))
    ensures hf.Contents() == Apply(old(hf.Contents()), Delete(PlaceOf(hf.chain, rid)))
  {
    hide BufferManager.Valid, TouchAll, Touch, SlotsKept, Cache.Valid;
    hf.Parts();
    hf.PageAt(rid.pageId);
    SamePlace(hf, rid);
    TouchFirst(hf.bm.cache, rid.pageId, []);
    TouchNone(Touch(hf.bm.cache, rid.pageId));
    touched := [rid.pageId];
    assert touched + [] == touched;
    var r := hf.Delete(rid);
    hf.Unchanged();
    KeptElse(old(hf.bm.store), hf.bm.store, hf.firstPage, hf.chain, rid);
    o := Changed(rid, r.value);
  }

  method DoFetch(hf: HeapFile, rid: RID) returns (o: Outcome, ghost touched: seq<int>)
    requires hf.Valid() && hf.bm.cache.HasRoom() && rid.pageId in hf.chain
    modifies hf.bm.footprint, hf.bm.disk`pages, hf.bm.disk`numPages
    ensures hf.Valid() && hf.bm.store == old(hf.bm.store) && hf.Contents() == old(hf.Contents())
    ensures InRange(touched) && hf.bm.cache == TouchAll(old(hf.bm.cache), touched) && touched == [rid.pageId]
    ensures o.Fetched? && (o.rec.Some? <==> Live(hf.Contents(), PlaceOf(hf.chain, rid)))
    ensures o.rec.Some? ==>
      && o.rec.value.rid == rid && Points(hf.bm.store, o.rec.value)
      && InFrame(hf.bm.cache, hf.bm.pool, o.rec.value)
  {
    hide BufferManager.Valid, TouchAll, Touch, Cache.Valid, SP.Lies;
    hf.Parts();
    hf.PageAt(rid.pageId);
    SamePlace(hf, rid);
    TouchFirst(hf.bm.cache, rid.pageId, []);
    TouchNone(Touch(hf.bm.cache, rid.pageId));
    touched := [rid.pageId];
    assert touched + [] == touched;
    var r := hf.Get(rid);
    o := Fetched(r.value);
  }

  /** Starts the program's own scan over. */
  method DoBegin(it: HeapIterator) returns (ghost touched: seq<int>)
    requires it.heap.Valid() && it !in it.heap.bm.footprint && it.heap.bm.cache.HasRoom()
    modifies it, it.heap.bm.footprint, it.heap.bm.disk`pages, it.heap.bm.disk`numPages
    ensures it.Valid() && it.heap.bm.store == old(it.heap.bm.store)
    ensures it.heap.Valid() && it.heap.Contents() == old(it.heap.Contents())
    ensures it.Remaining() == Scan(it.heap.Contents())
    ensures InRange(touched) && it.heap.bm.cache == TouchAll(old(it.heap.bm.cache), touched)
    ensures forall q :: q in touched ==> q in it.heap.chain
  {
    hide BufferManager.Valid, TouchAll, Touch, Cache.Valid, LiveFrom;
    it.heap.Parts();
    var begun;
    begun, touched := it.Begin();
  }

  /** The program's own scan, if it has one. */
  ghost function LeftOf(it: HeapIterator, live: bool): Option<seq<Pos>>
    requires live ==> it.Valid()
    reads it, it.heap, it.heap.bm.disk, it.heap.bm.footprint
  {
    if live then Some(it.Remaining()) else None
  }

  /** One call. */
  method Perform(hf: HeapFile, it: HeapIterator, live: bool, call: Call, ids: seq<RID>)
      returns (o: Outcome, still: bool, ghost touched: seq<int>)
    requires hf.Valid() && hf.bm.cache.HasRoom() && hf.dm.Room() >= 2
    requires forall rid :: rid in ids ==> rid.pageId in hf.chain
    requires it.heap == hf && it !in hf.bm.footprint && (live ==> it.Valid())
    modifies hf, hf.bm.footprint, hf.dm, it
    ensures hf.Valid() && old(hf.chain) <= hf.chain && hf.dm.Room() >= old(hf.dm.Room()) - 2
    ensures still ==> it.Valid()
    ensures InRange(touched) && hf.bm.cache == TouchAll(old(hf.bm.cache), touched)
    ensures forall q :: q in touched ==> q in hf.chain
    ensures KeptBut(old(hf.bm.store), hf.bm.store, old(hf.chain), Modified(o))
    ensures forall rec :: rec in Views(o) ==> rec.rid.pageId in hf.chain && Points(hf.bm.store, rec)
    ensures AllFit(old(hf.bm.cache), hf.chain) ==>
      forall rec :: rec in Views(o) ==> InFrame(hf.bm.cache, hf.bm.pool, rec)
    ensures var p := Progress(old(hf.Contents()), ids, old(LeftOf(it, live)));
            && Answered(hf.chain, p, call, o)
            && After(hf.chain, p, call, o) == Progress(hf.Contents(), ids + Ids(o), LeftOf(it, still))
  {
    hide BufferManager.Valid, HeapFile.Valid, TouchAll, Touch, Cache.Valid, SlotsKept, Points, InFrame, AllFit,
      InsertRecord, LiveFrom, IndexOf, RidsOf, IdsOf;
    hf.Parts();
    hf.Unchanged();
    TouchNone(hf.bm.cache);
    o, still, touched := NotMade, live, [];
    match call {
      case Store(d) =>
        o, touched := DoStore(hf, d);
        still := false;
      case Change(k, d) =>
        if k < |ids| {
          o, touched := DoChange(hf, ids[k], d);
          still := false;
        }
      case Remove(k) =>
        if k < |ids| {
          o, touched := DoRemove(hf, ids[k]);
          still := false;
        }
      case Fetch(k) =>
        if k < |ids| {
          o, touched := DoFetch(hf, ids[k]);
        }
      case Walk =>
        var recs;
        recs, touched := ScanAll(hf);
        o := Walked(recs);
      case Begin =>
        touched := DoBegin(it);
        o, still := Begun, true;
      case Step =>
        if live {
          it.First();
          if it.HasNext() {
            var rec;
            rec, touched := ScanStep(it);
            o := Fetched(Some(rec));
          }
        }
    }
  }

  /** No call after the `j`-th modified the record. */
  predicate Unmodified(log: seq<Outcome>, j: nat, rid: RID) {
    forall i :: j < i < |log| ==> Modified(log[i]) != Some(rid)
  }

  /** Every view in the log whose record was not modified later points at its record, and if the
      heap's pages fit it lies in the page's frame. */
  ghost predicate Tracked(s: Pages, c: Cache, pool: seq<Frame>, chain: seq<int>, fit: bool, log: seq<Outcome>) {
    forall j, rec :: 0 <= j < |log| && rec in Views(log[j]) && Unmodified(log, j, rec.rid) ==>
      rec.rid.pageId in chain && Points(s, rec) && (fit ==> InFrame(c, pool, rec))
  }

  lemma TrackedNext(s: Pages, c: Cache, chain: seq<int>, fit: bool, log: seq<Outcome>, pool: seq<Frame>,
                    t: Pages, d: Cache, longer: seq<int>, fits: bool, o: Outcome)
    requires Tracked(s, c, pool, chain, fit, log) && KeptBut(s, t, chain, Modified(o)) && chain <= longer
    requires fits ==> fit && KeepsFrames(c, d)
    requires forall rec :: rec in Views(o) ==> rec.rid.pageId in longer && Points(t, rec)
    requires fits ==> forall rec :: rec in Views(o) ==> InFrame(d, pool, rec)
    ensures Tracked(t, d, pool, longer, fits, log + [o])
  {
    hide Points, SlotsKept;
    var all := log + [o];
    forall j, rec | 0 <= j < |all| && rec in Views(all[j]) && Unmodified(all, j, rec.rid)
      ensures rec.rid.pageId in longer && Points(t, rec) && (fits ==> InFrame(d, pool, rec))
    {
      if j < |log| {
        assert Unmodified(log, j, rec.rid) by {
          assert forall i :: j < i < |log| ==> all[i] == log[i];
        }
        assert Modified(all[|log|]) != Some(rec.rid);
        KeptPoints(s, t, if Modified(o).Some? && Modified(o).value.pageId == rec.rid.pageId
                         then Modified(o).value.slotId else -1, rec);
      }
    }
  }

  lemma {:induction false} FewerMisses(c: Cache, ps: seq<int>, k: nat)
    requires k <= |ps|
    ensures Misses(c, ps[..k]) <= Misses(c, ps)
    decreases |ps|
  {
    if k < |ps| {
      FewerMisses(c, ps[..|ps| - 1], k);
      assert ps[..|ps| - 1][..k] == ps[..k];
    } else {
      assert ps[..k] == ps;
    }
  }

  lemma FitsBefore(c: Cache, chain: seq<int>, longer: seq<int>)
    requires AllFit(c, longer) && chain <= longer
    ensures AllFit(c, chain)
  {
    FewerMisses(c, longer, |chain|);
    assert longer[..|chain|] == chain;
  }

  lemma Starts(hf: HeapFile, it: HeapIterator, start: Progress, calls: seq<Call>)
    requires hf.Valid() && start.heap == hf.Contents() && start.left == None
    requires forall rid :: rid in start.ids ==> rid.pageId in hf.chain
    ensures At(hf.chain, start, calls, [], 0) == start == Progress(start.heap, start.ids, LeftOf(it, false))
    ensures AllWithin(hf.chain, start, calls, []) && Performed(hf.chain, start, calls, [])
  {
    hide BufferManager.Valid;
  }

  /** What an answer adds is within the heap's pages. */
  lemma StillWithin(hf: HeapFile, it: HeapIterator, live: bool, p: Progress, ids: seq<RID>, call: Call, o: Outcome)
    requires hf.Valid() && it.heap == hf && (live ==> it.Valid())
    requires forall rid :: rid in ids ==> rid.pageId in hf.chain
    requires forall rec :: rec in Views(o) ==> rec.rid.pageId in hf.chain
    requires Answered(hf.chain, p, call, o)
    ensures Within(hf.chain, Progress(hf.Contents(), ids + Ids(o), LeftOf(it, live)))
    ensures forall rid :: rid in ids + Ids(o) ==> rid.pageId in hf.chain
  {
    hide BufferManager.Valid, LiveFrom, InsertRecord;
    if live {
      ScanInOrder(hf.Contents(), hf.chain, it.at, it.currSlot);
      forall pos | pos in it.Remaining()
        ensures pos.page < |hf.chain|
      {
        var k :| 0 <= k < |it.Remaining()| && it.Remaining()[k] == pos;
      }
    }
    forall rid | rid in Ids(o)
      ensures rid.pageId in hf.chain
    {
      if o.Walked? {
        var k :| 0 <= k < |Ids(o)| && Ids(o)[k] == rid;
        assert o.recs[k] in Views(o);
      }
    }
  }

  /** Any sequence of calls, with views given out before it. Every call is answered as the heap's
      meaning prescribes at that point, and the heap becomes what the calls make of its meaning. If the
      pages it then has fitted in the pool beside what was cached at the start, every view given out,
      before or on the way, shows at the end what the heap holds under its id, unless the record was
      modified after the view was taken. */
  method RunCalls(hf: HeapFile, calls: seq<Call>, known: seq<RID>, given: seq<Record>)
      returns (outs: seq<Outcome>, ghost touched: seq<int>)
    requires hf.Valid() && hf.bm.cache.HasRoom() && hf.dm.Room() >= 2 * |calls|
    requires forall rid :: rid in known ==> rid.pageId in hf.chain
    requires forall rec :: rec in given ==>
      rec.rid.pageId in hf.chain && Points(hf.bm.store, rec) && InFrame(hf.bm.cache, hf.bm.pool, rec)
    modifies hf, hf.bm.footprint, hf.dm
    ensures hf.Valid() && old(hf.chain) <= hf.chain && |outs| == |calls|
    ensures var start := Progress(old(hf.Contents()), known, None);
            && Performed(hf.chain, start, calls, outs) && AllWithin(hf.chain, start, calls, outs)
            && hf.Contents() == At(hf.chain, start, calls, outs, |calls|).heap
    ensures forall rid: RID :: rid.pageId in hf.chain ==>
      var w := Wrote(calls, outs, |calls|);
      Get(hf.Contents(), hf.Place(rid)) == if rid in w then Found(w[rid]) else Read(hf.chain, old(hf.Contents()), rid)
    ensures InRange(touched) && hf.bm.cache == TouchAll(old(hf.bm.cache), touched)
    ensures forall q :: q in touched ==> q in hf.chain
    ensures var log := [Walked(given)] + outs;
            forall rec, j :: AllFit(old(hf.bm.cache), hf.chain) && 0 <= j < |log| && rec in Views(log[j])
                             && Unmodified(log, j, rec.rid) ==>
              && rec.rid.pageId in hf.chain && rec.view.InBounds()
              && Get(hf.Contents(), hf.Place(rec.rid)) == Some(rec.view.Read())
  {
    hide BufferManager.Valid, HeapFile.Valid, TouchAll, Touch, Cache.Valid, KeptBut, Points, InFrame, AllFit, Tracked,
      KeepsFrames, Unmodified, Answered, After, At, Performed, AllWithin, Within, LeftOf, Wrote, Read,
      Get, Sized, Found;
    ghost var c, start := hf.bm.cache, Progress(hf.Contents(), known, None);
    hf.Parts();
    TouchNone(c);
    outs, touched := [], [];
    var ids, live := known, false;
    var it := new HeapIterator(hf);
    Starts(hf, it, start, calls);
    GivenTracked(hf, given, AllFit(c, hf.chain));
    assert [Walked(given)] + outs == [Walked(given)];
    for k := 0 to |calls|
      invariant hf.Valid() && old(hf.chain) <= hf.chain && hf.dm.Room() >= 2 * (|calls| - k)
      invariant InRange(touched) && hf.bm.cache == TouchAll(c, touched) && forall q :: q in touched ==> q in hf.chain
      invariant it.heap == hf && it !in hf.bm.footprint && (live ==> it.Valid()) && fresh(it)
      invariant |outs| == k && AllWithin(hf.chain, start, calls, outs) && Performed(hf.chain, start, calls, outs)
      invariant At(hf.chain, start, calls, outs, k) == Progress(hf.Contents(), ids, LeftOf(it, live))
      invariant forall rid :: rid in ids ==> rid.pageId in hf.chain
      invariant Tracked(hf.bm.store, hf.bm.cache, hf.bm.pool, hf.chain, AllFit(c, hf.chain), [Walked(given)] + outs)
    {
      ghost var s, b, chain := hf.bm.store, hf.bm.cache, hf.chain;
      ghost var p := Progress(hf.Contents(), ids, LeftOf(it, live));
      var o;
      ghost var more;
      o, live, more := Perform(hf, it, live, calls[k], ids);
      hf.Parts();
      if AllFit(c, hf.chain) {
        FitsBefore(c, chain, hf.chain);
        FramesKept(c, hf.chain, touched, more);
      }
      TrackedNext(s, b, chain, AllFit(c, chain), [Walked(given)] + outs, hf.bm.pool, hf.bm.store, hf.bm.cache, hf.chain,
                  AllFit(c, hf.chain), o);
      assert [Walked(given)] + outs + [o] == [Walked(given)] + (outs + [o]);
      StillWithin(hf, it, live, p, ids, calls[k], o);
      OneMore(chain, hf.chain, start, calls, outs, o);
      TouchAllAppends(c, touched, more);
      touched, outs, ids := touched + more, outs + [o], ids + Ids(o);
    }
    TrackedReads(hf, AllFit(c, hf.chain), [Walked(given)] + outs);
    RunWrites(hf, start, calls, outs);
  }

  /** What the heap holds after the run, by what the answers say was written. */
  lemma RunWrites(hf: HeapFile, start: Progress, calls: seq<Call>, outs: seq<Outcome>)
    requires hf.Valid() && |outs| == |calls| && Sized(start.heap)
    requires Performed(hf.chain, start, calls, outs) && AllWithin(hf.chain, start, calls, outs)
    requires hf.Contents() == At(hf.chain, start, calls, outs, |calls|).heap
    ensures forall rid: RID :: rid.pageId in hf.chain ==>
      var w := Wrote(calls, outs, |calls|);
      Get(hf.Contents(), hf.Place(rid)) == if rid in w then Found(w[rid]) else Read(hf.chain, start.heap, rid)
  {
    hide HeapFile.Valid, Performed, AllWithin, Wrote, Get, Sized, At;
    hf.Parts();
    forall rid: RID | rid.pageId in hf.chain
      ensures var w := Wrote(calls, outs, |calls|);
              Get(hf.Contents(), hf.Place(rid)) == if rid in w then Found(w[rid]) else Read(hf.chain, start.heap, rid)
    {
      SamePlace(hf, rid);
      LastWriteWins(hf.chain, start, calls, outs, |calls|, rid);
    }
  }

  lemma GivenTracked(hf: HeapFile, given: seq<Record>, fit: bool)
    requires forall rec :: rec in given ==>
      rec.rid.pageId in hf.chain && Points(hf.bm.store, rec) && InFrame(hf.bm.cache, hf.bm.pool, rec)
    ensures Tracked(hf.bm.store, hf.bm.cache, hf.bm.pool, hf.chain, fit, [Walked(given)])
  {
    hide Points, InFrame;
  }

  lemma TrackedReads(hf: HeapFile, fit: bool, log: seq<Outcome>)
    requires hf.Valid() && Tracked(hf.bm.store, hf.bm.cache, hf.bm.pool, hf.chain, fit, log)
    ensures forall rec, j :: fit && 0 <= j < |log| && rec in Views(log[j]) && Unmodified(log, j, rec.rid) ==>
      && rec.rid.pageId in hf.chain && rec.view.InBounds()
      && Get(hf.Contents(), hf.Place(rec.rid)) == Some(rec.view.Read())
  {
    hide BufferManager.Valid, HeapFile.Valid, Points, InFrame, Unmodified;
    forall rec, j | fit && 0 <= j < |log| && rec in Views(log[j]) && Unmodified(log, j, rec.rid)
      ensures && rec.rid.pageId in hf.chain && rec.view.InBounds()
              && Get(hf.Contents(), hf.Place(rec.rid)) == Some(rec.view.Read())
    {
      ViewReads(hf, rec);
    }
  }

  // ----- in pools where the pages do not fit -----

  lemma OneFrame(bm: BufferManager, c: Cache, rec: Record)
    requires bm.Valid() && |c.page| == |bm.pool| && c.Valid() && InFrame(c, bm.pool, rec)
    ensures InFrame(bm.cache, bm.pool, rec) <==> Stays(bm.cache, rec.rid.pageId, c.table[rec.rid.pageId])
  {
  }

  /** A view from `Get` and then an insert, in any pool: the view still lies in its page's frame exactly
      if that page is the last one of those the insert uses that landed in the frame, or none did. Then
      it still shows its record. */
  method ViewAcrossInsert(hf: HeapFile, rec: Record, d: Data) returns (r: Option<RID>, ghost uses: seq<int>)
    requires hf.Valid() && hf.chain != [] && hf.dm.Room() >= 2
    requires hf.bm.cache.HasRoom() && hf.bm.cache.BitsFollowPins() && rec.rid.pageId in hf.chain
    requires Points(hf.bm.store, rec) && InFrame(hf.bm.cache, hf.bm.pool, rec)
    modifies hf, hf.bm.footprint, hf.dm
    ensures hf.Valid() && rec.rid.pageId in hf.chain && Points(hf.bm.store, rec) && old(hf.bm.cache).Valid()
    ensures uses == HeapFile.VisitedPages(old(hf.chain), FirstFit(old(hf.Contents()), d), hf.chain)
    ensures (forall q :: q in uses ==> q in Firsts(uses)) && old(hf.bm.cache).Swept().victim.Some?
    ensures old(hf.bm.cache).table[rec.rid.pageId] < |old(hf.bm.cache).page|
    ensures var c, p := old(hf.bm.cache), rec.rid.pageId;
            InFrame(hf.bm.cache, hf.bm.pool, rec) <==> Held(c, Firsts(uses), uses, c.table[p]) == p
    ensures InFrame(hf.bm.cache, hf.bm.pool, rec) ==>
      rec.view.InBounds() && Get(hf.Contents(), hf.Place(rec.rid)) == Some(rec.view.Read())
  {
    hide BufferManager.Valid, HeapFile.Valid, TouchAll, Touch, Points, SlotsKept, InsertRecord, HeapFile.FailsRight,
      Held, Firsts, Cache.FreeApart;
    hf.Parts();
    hf.bm.CacheValid();
    ghost var c, s, p := hf.bm.cache, hf.bm.store, rec.rid.pageId;
    var stored;
    ghost var lost;
    stored, uses, lost := hf.Insert(d);
    r := stored.value;
    hf.Parts();
    KeptPoints(s, hf.bm.store, -1, rec);
    StaysExactly(c, p, uses);
    OneFrame(hf.bm, c, rec);
    if InFrame(hf.bm.cache, hf.bm.pool, rec) {
      ViewReads(hf, rec);
    }
  }
}
