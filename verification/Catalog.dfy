/** The system catalog: table rows and column rows in two heaps over one page cache, and the name
    cache in front of them. Generated ids are parameters. */
module Catalog {
  import opened Bytes
  import opened HeapSpec
  import opened HeapChain
  import opened ScanSpec
  import opened Codec
  import opened RowSpec
  import opened CatalogSpec
  import opened CacheSpec
  import opened CacheRuns
  import opened BufferManager
  import opened HeapFile
  import opened HeapIterator
  import Disk

  datatype RawColumn = RawColumn(name: Data, typeId: u32, ordinal: u16)

  /** The records at the places an iterator has still to visit. */
  ghost function Ahead(it: HeapIterator): seq<Data>
    requires it.Valid()
    reads it, it.heap, it.heap.bm.disk, it.heap.bm.footprint
  {
    ScannedRecords(it.heap.Contents(), it.at, it.currSlot);
    RecordsAt(it.heap.Contents(), it.Remaining())
  }

  lemma NothingAhead(it: HeapIterator)
    requires it.Valid() && !it.hasNext
    ensures Ahead(it) == []
  {
    AtEnd(it.heap.Contents(), it.currSlot);
  }

  /** The iterator positioned at the start of a scan, with all records ahead. */
  method StartScan(heap: HeapFile) returns (r: Result<HeapIterator>)
    requires heap.Valid()
    modifies heap.bm.footprint, heap.bm.disk`pages, heap.bm.disk`numPages
    ensures heap.Valid() && heap.bm.store == old(heap.bm.store) && heap.Contents() == old(heap.Contents())
    ensures Balanced(old(heap.bm.cache), heap.bm.cache)
    ensures r.Err? ==> r == Err(AllFramesPinned) && !Served(old(heap.bm.cache), heap.chain)
    ensures r.Ok? ==>
      && fresh(r.value) && r.value.heap == heap && r.value.Valid()
      && Ahead(r.value) == Records(heap.Contents()) && (r.value.IsEnd() <==> !r.value.hasNext)
  {
    hide BufferManager.Valid;
    ghost var c := heap.bm.cache;
    heap.Parts();
    var it := new HeapIterator(heap);
    var begun;
    ghost var touched;
    begun, touched := it.Begin();
    UsesBalanced(c, touched);
    if begun.Err? {
      return begun.PropagateFailure();
    }
    ScannedRecords(heap.Contents(), it.at, it.currSlot);
    ScannedRecords(heap.Contents(), 0, 0);
    r := Ok(it);
  }

  /** The bytes under the iterator: decoded before the iterator moves, so the view is still good. */
  method CurrentBytes(it: HeapIterator, ghost start: Cache) returns (r: Result<Data>)
    requires it.Valid() && it.hasNext && Balanced(start, it.heap.bm.cache)
    modifies it.heap.bm.footprint, it.heap.bm.disk`pages, it.heap.bm.disk`numPages
    ensures it.Valid() && it.hasNext && Ahead(it) == old(Ahead(it)) != []
    ensures it.heap.Valid() && it.heap.bm.store == old(it.heap.bm.store)
    ensures it.heap.Contents() == old(it.heap.Contents()) && Balanced(start, it.heap.bm.cache)
    ensures r.Err? ==> r == Err(AllFramesPinned) && !Served(start, it.heap.chain)
    ensures r.Ok? ==> r.value == Ahead(it)[0]
  {
    hide BufferManager.Valid, Touch, Cache.Valid;
    it.heap.Parts();
    AtLive(it.heap.Contents(), it.at, it.currSlot);
    if it.heap.bm.cache.CanRequest(it.currPage) {
      UseBalanced(it.heap.bm.cache, it.currPage);
    }
    var rec :- it.Deref();
    r := Ok(rec.view.Read());
  }

  method Step(it: HeapIterator, ghost start: Cache) returns (r: Result<()>)
    requires it.Valid() && it.hasNext && Balanced(start, it.heap.bm.cache)
    modifies it, it.heap.bm.footprint, it.heap.bm.disk`pages, it.heap.bm.disk`numPages
    ensures it.heap.Valid() && it.heap.bm.store == old(it.heap.bm.store)
    ensures it.heap.Contents() == old(it.heap.Contents()) && Balanced(start, it.heap.bm.cache)
    ensures old(Ahead(it)) != []
    ensures r.Err? ==> r == Err(AllFramesPinned) && !Served(start, it.heap.chain)
    ensures r.Ok? ==> it.Valid() && Ahead(it) == old(Ahead(it))[1..] && (it.IsEnd() <==> !it.hasNext)
  {
    hide BufferManager.Valid, TouchAll, Touch, Cache.Valid, LiveFrom, RecordsAt;
    it.First();
    ScannedRecords(it.heap.Contents(), it.at, it.currSlot);
    RestRecords(it.heap.Contents(), it.Remaining());
    ghost var touched;
    it.heap.Parts();
    ghost var c := it.heap.bm.cache;
    r, touched := it.Increment();
    UsesBalanced(c, touched);
  }

  /** Scans the table catalog for the first row of that name. It fails only if every frame is pinned and
      some page of the catalog is not cached. */
  method Lookup(heap: HeapFile, name: Data) returns (r: Result<Option<TableInfo>>)
    requires heap.Valid() && TableRowsOnly(Records(heap.Contents()))
    modifies heap.bm.footprint, heap.bm.disk`pages, heap.bm.disk`numPages
    ensures heap.Valid() && heap.bm.store == old(heap.bm.store) && heap.Contents() == old(heap.Contents())
    ensures Balanced(old(heap.bm.cache), heap.bm.cache)
    ensures r.Err? ==> r == Err(AllFramesPinned) && !Served(old(heap.bm.cache), heap.chain)
    ensures r.Ok? ==> r.value == LookupIn(Records(heap.Contents()), name)
  {
    hide BufferManager.Valid, HeapFile.Valid, HeapIterator.Valid, Ahead, RecordsFrom, Balanced, Served, DecodeTable;
    var it :- StartScan(heap);
    ghost var c, rows := old(heap.bm.cache), Records(heap.Contents());
    while !it.IsEnd()
      invariant it.heap == heap && fresh(it) && it.Valid() && (it.IsEnd() <==> !it.hasNext)
      invariant heap.Valid() && heap.bm.store == old(heap.bm.store) && heap.Contents() == old(heap.Contents())
      invariant Balanced(old(heap.bm.cache), heap.bm.cache)
      invariant LookupIn(Ahead(it), name) == LookupIn(rows, name)
      decreases |Ahead(it)|
    {
      var bytes :- CurrentBytes(it, c);
      var table := DecodeTable(bytes);
      if table.Some? && table.value.name == name {
        return Ok(table);
      }
      var done :- Step(it, c);
    }
    NothingAhead(it);
    return Ok(None);
  }

  /** Scans the column catalog for the columns of one table. */
  method GetColumns(heap: HeapFile, tableId: Uuid) returns (r: Result<Schema>)
    requires heap.Valid() && ColumnRowsOnly(Records(heap.Contents()))
    modifies heap.bm.footprint, heap.bm.disk`pages, heap.bm.disk`numPages
    ensures heap.Valid() && heap.bm.store == old(heap.bm.store) && heap.Contents() == old(heap.Contents())
    ensures Balanced(old(heap.bm.cache), heap.bm.cache)
    ensures r.Err? ==> r == Err(AllFramesPinned) && !Served(old(heap.bm.cache), heap.chain)
    ensures r.Ok? ==> r.value == ColumnsIn(Records(heap.Contents()), tableId)
  {
    hide BufferManager.Valid, HeapFile.Valid, HeapIterator.Valid, Ahead, RecordsFrom, Balanced, Served, DecodeColumn,
      ColumnsIn;
    var res: Schema := [];
    var it :- StartScan(heap);
    ghost var c, rows := old(heap.bm.cache), Records(heap.Contents());
    while !it.IsEnd()
      invariant it.heap == heap && fresh(it) && it.Valid() && (it.IsEnd() <==> !it.hasNext)
      invariant heap.Valid() && heap.bm.store == old(heap.bm.store) && heap.Contents() == old(heap.Contents())
      invariant Balanced(old(heap.bm.cache), heap.bm.cache)
      invariant res + ColumnsIn(Ahead(it), tableId) == ColumnsIn(rows, tableId)
      decreases |Ahead(it)|
    {
      var bytes :- CurrentBytes(it, c);
      ColumnsStep(res, Ahead(it), tableId);
      var column := DecodeColumn(bytes);
      if column.Some? && column.value.tableId == tableId {
        res := res + [column.value];
      }
      var done :- Step(it, c);
    }
    NothingAhead(it);
    NoColumnsIn(tableId);
    return Ok(res);
  }

  class Catalog {
    const bm: BufferManager
    const dm: Disk.DiskManager
    const tables: HeapFile
    const attributes: HeapFile

    ghost predicate Valid()
      reads tables, attributes, bm.disk, bm.footprint
    {
      && tables.bm == bm && attributes.bm == bm && dm == bm.disk && tables != attributes
      && tables.Valid() && attributes.Valid()
      && (forall p :: p in tables.chain ==> p !in attributes.chain)
      && FirstFitted(tables.Contents()) && TableRowsOnly(Records(tables.Contents()))
      && ColumnRowsOnly(Records(attributes.Contents()))
    }

    constructor (bm: BufferManager, dm: Disk.DiskManager, tables: HeapFile, attributes: HeapFile)
      ensures this.bm == bm && this.dm == dm && this.tables == tables && this.attributes == attributes
    {
      this.bm, this.dm, this.tables, this.attributes := bm, dm, tables, attributes;
    }

    /** A page in use by neither catalog heap. */
    ghost predicate Outside(p: int)
      reads tables, attributes, dm
    {
      !dm.Allocatable(p) && p !in tables.chain && p !in attributes.chain
    }

    /** Such pages stay what they are. */
    twostate predicate OthersKept()
      reads tables, attributes, dm, bm
    {
      forall p :: old(Outside(p)) ==>
        && Outside(p) && (p in bm.store <==> p in old(bm.store))
        && (p in bm.store ==> bm.store[p] == old(bm.store)[p])
    }

    /** Stores one table row. A row too long for a page is dropped without notice. */
    method AddTable(t: TableInfo) returns (r: Result<()>)
      requires Valid() && dm.Room() >= 2
      modifies tables, bm.footprint, dm
      ensures bm.Valid() && Balanced(old(bm.cache), bm.cache) && dm.Room() >= old(dm.Room()) - 2
      ensures r.Err? ==> r == Err(AllFramesPinned) && !old(bm.cache.HasRoom())
      ensures r.Ok? ==>
        && Valid() && OthersKept() && attributes.Contents() == old(attributes.Contents())
        && tables.Contents() == InsertRecord(old(tables.Contents()), TableBytes(t)).heap
    {
      hide BufferManager.Valid, RecordsFrom, InsertRecord, TableBytes, DecodeTable, EveryKept, TouchAll, Touch,
        Cache.Valid;
      tables.Parts();
      attributes.Parts();
      ghost var c := bm.cache;
      InsertFirstFitted(tables.Contents(), TableBytes(t));
      TableRowsKept(tables.Contents(), t);
      var stored;
      ghost var touched, lost;
      stored, touched, lost := tables.Insert(TableBytes(t));
      UsesBalanced(c, touched);
      if stored.Err? {
        return stored.PropagateFailure();
      }
      r := Ok(());
      attributes.Undisturbed(tables.chain);
    }

    /** Stores one column row. */
    method AddColumn(c: Column) returns (r: Result<()>)
      requires Valid() && dm.Room() >= 2
      modifies attributes, bm.footprint, dm
      ensures bm.Valid() && Balanced(old(bm.cache), bm.cache) && dm.Room() >= old(dm.Room()) - 2
      ensures r.Err? ==> r == Err(AllFramesPinned) && !old(bm.cache.HasRoom())
      ensures r.Ok? ==>
        && Valid() && OthersKept() && tables.Contents() == old(tables.Contents())
        && attributes.Contents() == InsertRecord(old(attributes.Contents()), ColumnBytes(c)).heap
    {
      hide BufferManager.Valid, RecordsFrom, InsertRecord, ColumnBytes, DecodeColumn, EveryKept, TouchAll, Touch,
        Cache.Valid;
      tables.Parts();
      attributes.Parts();
      ghost var b := bm.cache;
      ColumnRowsKept(attributes.Contents(), c);
      var stored;
      ghost var touched, lost;
      stored, touched, lost := attributes.Insert(ColumnBytes(c));
      UsesBalanced(b, touched);
      if stored.Err? {
        return stored.PropagateFailure();
      }
      r := Ok(());
      tables.Undisturbed(attributes.chain);
    }

    /** A heap of one empty page, apart from the catalog's own. */
    ghost predicate NewHeap(first: int)
      reads tables, attributes, dm, bm
    {
      IsChain(bm.store, first, [first]) && HeapChain.Contents(bm.store, [first]) == [EMPTY_PAGE] && Outside(first)
    }

    /** Creates a heap beside the catalog's own. */
    method AddHeap(fileId: Uuid) returns (r: Result<HeapFile>)
      requires Valid() && dm.Room() > 0
      modifies bm.footprint, dm
      ensures bm.Valid() && Balanced(old(bm.cache), bm.cache) && dm.Room() >= old(dm.Room()) - 1
      ensures r.Err? ==> r == Err(AllFramesPinned) && !old(bm.cache.HasRoom())
      ensures r.Ok? ==>
        var hf := r.value;
        && Valid() && OthersKept()
        && tables.Contents() == old(tables.Contents()) && attributes.Contents() == old(attributes.Contents())
        && fresh(hf) && hf.bm == bm && hf.Valid() && hf.Contents() == [EMPTY_PAGE] && hf.fileId == fileId
        && 0 <= hf.firstPage < I32_LIMIT && NewHeap(hf.firstPage)
        && var p := hf.firstPage; old(dm.Allocatable(p))
    {
      hide BufferManager.Valid, RecordsFrom, DecodeTable, DecodeColumn, Touch, Cache.Valid;
      tables.Parts();
      attributes.Parts();
      ghost var c := bm.cache;
      r := HeapFile.Create(bm, dm, fileId);
      if r.Ok? {
        r.value.Parts();
        UseBalanced(c, r.value.firstPage);
        tables.Undisturbed(r.value.chain);
        attributes.Undisturbed(r.value.chain);
      }
    }

    /** A new heap is still one after other pages were written. */
    twostate lemma StillNew(first: int)
      requires old(NewHeap(first)) && OthersKept()
      ensures NewHeap(first)
    {
      ChainFramed(old(bm.store), bm.store, first, [first]);
    }

    /** Creates a heap, a table row that leads to it, and the column rows. Rows that cannot be stored
        are dropped without notice; the ids come from outside. It fails only with every frame pinned, and
        then may have written part of this. */
    method CreateTable(name: Data, columns: seq<RawColumn>, tableId: Uuid, fileId: Uuid)
        returns (r: Result<Uuid>, ghost first: i32)
      requires Valid() && dm.Room() >= 3 + 2 * |columns|
      modifies tables, attributes, bm.footprint, dm
      ensures bm.Valid() && Balanced(old(bm.cache), bm.cache) && dm.Room() >= old(dm.Room()) - 3 - 2 * |columns|
      ensures r.Err? ==> r == Err(AllFramesPinned) && !old(bm.cache.HasRoom())
      ensures r.Ok? ==>
        && Valid() && r.value == tableId && OthersKept() && NewHeap(first) && old(dm.Allocatable(first))
        && tables.Contents()
           == InsertRecord(old(tables.Contents()), TableBytes(TableInfo(tableId, name, fileId, first))).heap
        && attributes.Contents() == InsertAll(old(attributes.Contents()), ColumnRows(Owned(columns, tableId)))
    {
      hide BufferManager.Valid, HeapFile.Valid, RecordsFrom, InsertRecord, InsertAll, TableBytes, ColumnBytes,
        FirstFitted, TableRowsOnly, ColumnRowsOnly, Catalog.NewHeap;
      first := 0;
      var hf :- AddHeap(fileId);
      label Created:
      first := hf.firstPage;
      var added :- AddTable(TableInfo(tableId, name, fileId, hf.firstPage));
      StillNew@Created(first);
      ghost var h := attributes.Contents();
      NoColumns(h, columns, tableId);
      for i := 0 to |columns|
        invariant Valid() && Balanced(old(bm.cache), bm.cache)
        invariant dm.Room() >= old(dm.Room()) - 3 - 2 * i && OthersKept() && NewHeap(first)
        invariant tables.Contents()
               == InsertRecord(old(tables.Contents()), TableBytes(TableInfo(tableId, name, fileId, first))).heap
        invariant attributes.Contents() == InsertAll(h, ColumnRows(Owned(columns[..i], tableId)))
      {
        label Before:
        OneMoreColumn(h, columns, tableId, i);
        var stored :- AddColumn(Owned(columns, tableId)[i]);
        StillNew@Before(first);
      }
      assert columns[..|columns|] == columns;
      tables.Parts();
      r := Ok(tableId);
    }
  }

  /** The columns with their table's id filled in. */
  function Owned(columns: seq<RawColumn>, tableId: Uuid): (r: Schema)
    ensures |r| == |columns| && ColumnsOf(r, tableId)
    ensures forall i :: 0 <= i < |columns| ==>
      r[i].name == columns[i].name && r[i].typeId == columns[i].typeId && r[i].ordinal == columns[i].ordinal
  {
    seq(|columns|, i requires 0 <= i < |columns| =>
          Column(tableId, columns[i].name, columns[i].typeId, columns[i].ordinal))
  }

  lemma NoColumns(h: Heap, columns: seq<RawColumn>, tableId: Uuid)
    ensures InsertAll(h, ColumnRows(Owned(columns[..0], tableId))) == h
  {
  }

  lemma OneMoreColumn(h: Heap, columns: seq<RawColumn>, tableId: Uuid, i: nat)
    requires i < |columns|
    ensures InsertAll(h, ColumnRows(Owned(columns[..i + 1], tableId)))
         == InsertRecord(InsertAll(h, ColumnRows(Owned(columns[..i], tableId))),
                         ColumnBytes(Owned(columns, tableId)[i])).heap
  {
    hide InsertRecord, ColumnBytes;
    var rows := ColumnRows(Owned(columns[..i + 1], tableId));
    assert rows[..i] == ColumnRows(Owned(columns[..i], tableId));
  }
}
