/** What a scan's views really show when the caller reads them, in any pool: after each step, the bytes
    at the record's place of whatever page the view's frame then holds. */
module ShownRows {
  import opened Bytes
  import opened CacheSpec
  import opened CacheRuns
  import opened StoreSpec
  import opened HeapSpec
  import opened HeapChain
  import opened RowSpec
  import opened ViewLifetime
  import SP = SlottedPage

  /** The places are slots of the chain's pages. */
  ghost predicate OnPages(s: Pages, chain: seq<int>, places: seq<Pos>) {
    forall k :: 0 <= k < |places| ==>
      && places[k].page < |chain| && chain[places[k].page] in s && IsHeapPage(s[chain[places[k].page]])
      && places[k].slot < SP.NumSlots(s[chain[places[k].page]], HEAP_HEADER)
  }

  /** What the view of the first of these places shows after the step past it. */
  ghost function ShownBytes(s: Pages, c: Cache, chain: seq<int>, places: seq<Pos>): Data
    requires c.Valid() && c.HasRoom() && InRange(chain) && InOrder(chain, places)
    requires OnPages(s, chain, places) && places != []
  {
    var p, slot, d := chain[places[0].page], places[0].slot, AfterStep(c, chain, places);
    var i, at, len := Touch(c, p).table[p], SP.Offset(s[p], HEAP_HEADER, slot), SP.Length(s[p], HEAP_HEADER, slot);
    if i < |d.page| && d.page[i] in s && at + len <= |s[d.page[i]]| then s[d.page[i]][at..at + len] else []
  }

  ghost function ShownRecords(s: Pages, c: Cache, chain: seq<int>, places: seq<Pos>): (r: seq<Data>)
    requires c.Valid() && c.HasRoom() && InRange(chain) && InOrder(chain, places) && OnPages(s, chain, places)
    ensures |r| == |places|
    decreases |places|
  {
    if places == [] then []
    else [ShownBytes(s, c, chain, places)] + ShownRecords(s, AfterStep(c, chain, places), chain, places[1..])
  }

  lemma ShownStep(s: Pages, c: Cache, chain: seq<int>, places: seq<Pos>)
    requires c.Valid() && c.HasRoom() && InRange(chain) && InOrder(chain, places) && OnPages(s, chain, places)
    requires places != []
    ensures InOrder(chain, places[1..]) && OnPages(s, chain, places[1..])
    ensures ShownRecords(s, c, chain, places)[0] == ShownBytes(s, c, chain, places)
    ensures ShownRecords(s, c, chain, places)[1..] == ShownRecords(s, AfterStep(c, chain, places), chain, places[1..])
  {
  }

  /** A frame holds what it held or a page used since. */
  lemma {:induction false} FrameHolds(c: Cache, uses: seq<int>, i: nat)
    requires c.Valid() && c.HasRoom() && c.BitsFollowPins() && InRange(uses) && i < |c.page|
    ensures var d := TouchAll(c, uses); |d.page| == |c.page| && (d.page[i] == c.page[i] || d.page[i] in uses)
  {
    hide Cache.Valid, Touch;
    if uses != [] {
      var front, q := uses[..|uses| - 1], uses[|uses| - 1];
      FrameHolds(c, front, i);
      UsesFollowBits(c, front);
      OneFrame(TouchAll(c, front), q, i);
    }
  }

  lemma OneFrame(c: Cache, q: int, i: nat)
    requires c.Valid() && c.HasRoom() && c.BitsFollowPins() && 0 <= q < I32_LIMIT && i < |c.page|
    ensures |Touch(c, q).page| == |c.page| && (Touch(c, q).page[i] == c.page[i] || Touch(c, q).page[i] == q)
  {
    TouchEffect(c, q);
    if !c.Resident(q) && c.free == [] {
      SweepFindsVictim(c);
    }
  }

  /** The record in a slot, as the page's meaning and as the bytes its entry spans. */
  lemma EntryBytes(page: Data, slot: nat)
    requires IsHeapPage(page) && slot < SP.NumSlots(page, HEAP_HEADER)
    ensures slot < |Meaning(page).slots|
    ensures var at, len := SP.Offset(page, HEAP_HEADER, slot), SP.Length(page, HEAP_HEADER, slot);
            at + len <= |page| && page[at..at + len] == Meaning(page).slots[slot]
  {
    assert SP.Placed(page, HEAP_HEADER, slot);
    assert Meaning(page).slots[slot] == SP.RecordBytes(page, HEAP_HEADER, slot);
  }

  lemma PlacesOnPages(s: Pages, first: int, chain: seq<int>, places: seq<Pos>)
    requires IsChain(s, first, chain)
    requires forall k :: 0 <= k < |places| ==> HasSlot(HeapChain.Contents(s, chain), places[k])
    ensures OnPages(s, chain, places)
  {
  }

  /** If no step loses its view, the views show the records. */
  lemma {:induction false} LosslessShows(s: Pages, first: int, c: Cache, chain: seq<int>, places: seq<Pos>)
    requires c.Valid() && c.HasRoom() && c.BitsFollowPins() && InRange(chain) && IsChain(s, first, chain)
    requires InOrder(chain, places) && OnPages(s, chain, places) && Lossless(c, chain, places)
    ensures forall k :: 0 <= k < |places| ==> HasSlot(HeapChain.Contents(s, chain), places[k])
    ensures ShownRecords(s, c, chain, places) == RecordsAt(HeapChain.Contents(s, chain), places)
    decreases |places|
  {
    hide Touch, TouchAll, AfterStep, Misses, KeepsView, Lossless, RecordsAt, ShownBytes, Cache.FreeApart;
    if places == [] {
      NothingAt(HeapChain.Contents(s, chain));
    } else {
      LosslessStep(c, chain, places);
      ShownFirst(s, c, chain, places);
      LosslessShows(s, first, AfterStep(c, chain, places), chain, places[1..]);
      RecordsAtStep(HeapChain.Contents(s, chain), places[0], places[1..]);
      assert [places[0]] + places[1..] == places;
    }
  }

  lemma NothingAt(h: Heap)
    ensures RecordsAt(h, []) == []
  {
  }

  lemma ShownFirst(s: Pages, c: Cache, chain: seq<int>, places: seq<Pos>)
    requires c.Valid() && c.HasRoom() && InRange(chain) && InOrder(chain, places)
    requires OnPages(s, chain, places) && places != []
    requires var p := chain[places[0].page]; Stays(AfterStep(c, chain, places), p, Touch(c, p).table[p])
    ensures var p := chain[places[0].page];
            && places[0].slot < |Meaning(s[p]).slots|
            && ShownBytes(s, c, chain, places) == Meaning(s[p]).slots[places[0].slot]
  {
    hide Touch, AfterStep;
    EntryBytes(s[chain[places[0].page]], places[0].slot);
  }
}
