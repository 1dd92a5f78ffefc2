/** A query that returns a wrong row: a select over two rows, in a full pool of any size. */
module WrongRows {
  import opened Bytes
  import opened PageSpec
  import opened CacheSpec
  import opened CacheRuns
  import opened HeapSpec
  import opened HeapChain
  import opened ScanSpec
  import opened Codec
  import opened RowSpec
  import opened ViewLifetime
  import opened ShownRows
  import opened BufferManager
  import opened HeapFile
  import opened HeapIterator
  import opened Table
  import opened Operators
  import opened Restart
  import opened StaleView
  import opened EndToEnd
  import SP = SlottedPage
  import Disk

  /** A record of the largest size lies at the end of its page. */
  lemma FullEntry(page: Data)
    requires IsHeapPage(page) && |Meaning(page).slots| == 1 && |Meaning(page).slots[0]| == MAX_RECORD
    ensures 0 < SP.NumSlots(page, HEAP_HEADER)
    ensures SP.Offset(page, HEAP_HEADER, 0) == 16 && SP.Length(page, HEAP_HEADER, 0) == MAX_RECORD
  {
    assert SP.Placed(page, HEAP_HEADER, 0);
    assert Meaning(page).slots[0] == SP.RecordBytes(page, HEAP_HEADER, 0);
  }

  /** Both views of the scan show the second record. */
  lemma ShownTwice(hf: HeapFile, c: Cache, d: Data, e: Data)
    requires hf.Valid() && hf.Contents() == [PageView([d], 0), PageView([e], 0)] && |d| == |e| == MAX_RECORD
    requires c.Valid() && c.HasRoom() && c.BitsFollowPins() && c.free == []
    requires forall q :: q in hf.chain ==> !c.Resident(q)
    ensures InRange(hf.chain) && |hf.chain| == 2
    ensures var places := [Pos(0, 0), Pos(1, 0)];
            && InOrder(hf.chain, places) && OnPages(hf.bm.store, hf.chain, places)
            && ShownRecords(hf.bm.store, TouchAll(c, hf.chain[..1]), hf.chain, places) == [e, e]
  {
    hide BufferManager.Valid, Touch, TouchAll, HeapFile.Valid, Cache.FreeApart, Cache.Mapped, ShownBytes, ShownRecords,
      OnPages, SP.Offset, SP.Length;
    hf.Parts();
    var p, q := hf.chain[0], hf.chain[1];
    hf.PageAt(p);
    hf.PageAt(q);
    FullEntry(hf.bm.store[p]);
    FullEntry(hf.bm.store[q]);
    FullPage(hf.bm.store[q]);
    assert hf.chain[..1] == [p] && hf.chain[0..2] == [p, q] && hf.chain[1..2] == [q];
    BothInOneFrame(c, p, q);
    TwoPlaces(hf);
    var s, b := hf.bm.store, TouchAll(c, [p]);
    var b2 := TouchAll(b, [p, q]);
    UsesFollowBits(c, [p]);
    UsesFollowBits(b, [p, q]);
    SamePage(b2, q, [q]);
    TouchEffect(b2, q);
    BothShown(s, b, b2, hf.chain, e);
  }

  lemma TwoPlaces(hf: HeapFile)
    requires hf.Valid() && |hf.Contents()| == 2 && |hf.Contents()[0].slots| == |hf.Contents()[1].slots| == 1
    ensures OnPages(hf.bm.store, hf.chain, [Pos(0, 0), Pos(1, 0)])
  {
    PlacesOnPages(hf.bm.store, hf.firstPage, hf.chain, [Pos(0, 0), Pos(1, 0)]);
  }

  /** Step by step: the first leaves the second page in the frame, the second changes nothing. */
  lemma BothShown(s: map<int, Data>, b: Cache, b2: Cache, chain: seq<int>, e: Data)
    requires b.Valid() && b.HasRoom() && b2.Valid() && b2.HasRoom() && InRange(chain) && |chain| == 2
    requires InOrder(chain, [Pos(0, 0), Pos(1, 0)]) && OnPages(s, chain, [Pos(0, 0), Pos(1, 0)])
    requires forall p :: p in chain ==> p in s && SP.Sized(s[p], HEAP_HEADER)
    requires forall p :: p in chain ==>
      SP.Offset(s[p], HEAP_HEADER, 0) == 16 && SP.Length(s[p], HEAP_HEADER, 0) == MAX_RECORD
    requires |s[chain[1]]| == PAGE_SIZE && s[chain[1]][16..PAGE_SIZE] == e
    requires Touch(b, chain[0]) == b && TouchAll(b, chain[0..2]) == b2 && Stays(b2, chain[1], b.table[chain[0]])
    requires Touch(b2, chain[1]) == b2 && TouchAll(b2, chain[1..2]) == b2 && b2.Resident(chain[1])
    ensures ShownRecords(s, b, chain, [Pos(0, 0), Pos(1, 0)]) == [e, e]
  {
    hide Touch, TouchAll, ShownBytes, ShownRecords, Cache.Valid, SP.Offset, SP.Length, IsHeapPage;
    var places, rest := [Pos(0, 0), Pos(1, 0)], [Pos(1, 0)];
    assert places[1..] == rest && rest[1..] == [];
    ShownStep(s, b, chain, places);
    ShownStep(s, b2, chain, rest);
    ShownAt(s, b, chain, places, chain[1], e);
    ShownAt(s, b2, chain, rest, chain[1], e);
    ShownNone(s, b2, chain);
  }

  lemma ShownNone(s: map<int, Data>, c: Cache, chain: seq<int>)
    requires c.Valid() && c.HasRoom() && InRange(chain)
    ensures ShownRecords(s, c, chain, []) == []
  {
  }

  /** The view shows the full page that its frame holds after the step. */
  lemma ShownAt(s: map<int, Data>, c: Cache, chain: seq<int>, places: seq<Pos>, q: int, e: Data)
    requires c.Valid() && c.HasRoom() && InRange(chain) && InOrder(chain, places)
    requires OnPages(s, chain, places) && places != [] && places[0].slot == 0
    requires var page := s[chain[places[0].page]];
             SP.Offset(page, HEAP_HEADER, 0) == 16 && SP.Length(page, HEAP_HEADER, 0) == MAX_RECORD
    requires var p := chain[places[0].page]; Stays(AfterStep(c, chain, places), q, Touch(c, p).table[p])
    requires q in s && |s[q]| == PAGE_SIZE && s[q][16..PAGE_SIZE] == e
    ensures ShownBytes(s, c, chain, places) == e
  {
    hide Touch, AfterStep;
  }

  /** Rows of one text column that fill a page each. */
  function LongRow(x: Data): (r: seq<Value>)
  {
    [Text(x)]
  }

  lemma OneField(v: Value)
    ensures |Encoded([v])| == |FieldBytes(v)| && forall x :: v == Text(x) ==> |FieldBytes(v)| == 4 + |x|
  {
    assert [v][..0] == [] && Encoded([]) == [];
  }

  lemma LongRowFills(x: Data, schema: Schema)
    requires |x| == MAX_RECORD - 4 && |schema| == 1 && schema[0].typeId == TEXT_TYPE
    ensures |Encoded(LongRow(x))| == MAX_RECORD && DecodeRow(Encoded(LongRow(x)), schema) == Some(LongRow(x))
  {
    hide DecodeRow, Encoded, FieldBytes, Padded;
    OneField(Text(x));
    RowReadsBack(LongRow(x), schema);
    assert AllCanonical(LongRow(x)) == LongRow(x);
  }

  /** The table holds the rows `x` and `y`; neither of its pages is cached, and the pool is full. A
      select returns `y` twice. */
  method SelectShowsWrongRow(t: UserTable, x: Data, y: Data) returns (res: seq<Tuple>)
    requires |t.schema| == 1 && t.schema[0].typeId == TEXT_TYPE && |x| == |y| == MAX_RECORD - 4
    requires t.hf.Valid()
    requires t.hf.Contents() == [PageView([Encoded(LongRow(x))], 0), PageView([Encoded(LongRow(y))], 0)]
    requires t.hf.bm.cache.HasRoom() && t.hf.bm.cache.BitsFollowPins() && t.hf.bm.cache.free == []
    requires forall q :: q in t.hf.chain ==> !t.hf.bm.cache.Resident(q)
    modifies t.hf.bm.footprint, t.hf.bm.disk`pages, t.hf.bm.disk`numPages
    ensures res == [Tuple(LongRow(y), t.schema), Tuple(LongRow(y), t.schema)]
    ensures t.hf.Valid() && t.hf.Contents() == old(t.hf.Contents())
  {
    hide BufferManager.Valid, HeapFile.Valid, Touch, TouchAll, Cache.Valid, Encoded, ShownRecords, LiveFrom, DecodeRow,
      OnPages;
    t.hf.Parts();
    LongRowFills(x, t.schema);
    LongRowFills(y, t.schema);
    var scan := new SeqScanOp(t);
    WrongFromStart(scan, x, y);
    ScanPlan(scan);
    res := ExecuteAndCollect(SeqScan(scan));
  }

  lemma WrongFromStart(scan: SeqScanOp, x: Data, y: Data)
    requires scan.TableOk() && |x| == |y| == MAX_RECORD - 4
    requires |scan.rel.schema| == 1 && scan.rel.schema[0].typeId == TEXT_TYPE
    requires scan.rel.hf.Contents() == [PageView([Encoded(LongRow(x))], 0), PageView([Encoded(LongRow(y))], 0)]
    requires scan.rel.hf.bm.cache.free == []
    requires forall q :: q in scan.rel.hf.chain ==> !scan.rel.hf.bm.cache.Resident(q)
    ensures scan.Ready()
    ensures scan.Rows() == [Tuple(LongRow(y), scan.rel.schema), Tuple(LongRow(y), scan.rel.schema)]
  {
    hide BufferManager.Valid, HeapFile.Valid, Touch, TouchAll, Encoded, ShownRecords, LiveFrom, DecodeRow;
    LongRowFills(x, scan.rel.schema);
    LongRowFills(y, scan.rel.schema);
    TwoInserts(Encoded(LongRow(x)), Encoded(LongRow(y)));
    ShownTwice(scan.rel.hf, scan.rel.hf.bm.cache, Encoded(LongRow(x)), Encoded(LongRow(y)));
  }

  /** Such a run, in a pool of any size: two rows are stored and flushed, the database is reopened,
      other pages fill the pool, and a select returns the second row twice. */
  method QueryReturnsWrongRow(bm: BufferManager, dm: Disk.DiskManager, column: Column, x: Data, y: Data, size: nat)
      returns (res: seq<Tuple>, t: UserTable)
    requires bm.Valid() && dm == bm.disk && dm !in bm.footprint && bm.cache.HasRoom()
    requires dm.Room() >= 5 && column.typeId == TEXT_TYPE && |x| == |y| == MAX_RECORD - 4
    requires 0 < size && size + 2 <= I32_LIMIT
    modifies bm.footprint, dm
    ensures t.hf.Valid() && |t.hf.bm.pool| == size && t.schema == [column]
    ensures t.hf.Contents() == [PageView([Encoded(LongRow(x))], 0), PageView([Encoded(LongRow(y))], 0)]
    ensures res == [Tuple(LongRow(y), t.schema), Tuple(LongRow(y), t.schema)]
  {
    hide BufferManager.Valid, Touch, HeapFile.Valid, Encoded;
    LongRowFills(x, [column]);
    LongRowFills(y, [column]);
    var d := Encode(LongRow(x), [column]);
    var e := Encode(LongRow(y), [column]);
    var heap, second := TwoFullPages(bm, dm, d, e);
    heap.Parts();
    var disk, pool, again;
    disk, pool, again := FlushAndReopen(heap, size);
    var ids := OtherPages(size, heap.firstPage, second);
    FillPool(again, ids);
    t := new UserTable(again, [column], seq(16, i => 0));
    res := SelectShowsWrongRow(t, x, y);
  }
}
