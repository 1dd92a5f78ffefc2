/** The cache of open tables by name, and its agreement with the catalog. */
module TableManager {
  import opened Bytes
  import opened HeapSpec
  import opened Codec
  import opened RowSpec
  import opened CatalogSpec
  import opened RowOrder
  import opened ColumnOrder
  import opened CacheSpec
  import opened CacheRuns
  import opened HeapChain
  import opened BufferManager
  import opened HeapFile
  import opened Table
  import opened Catalog

  ghost function HandleOf(t: UserTable): Handle
    requires |t.hf.fileId| == 16
    reads t.hf
  {
    Handle(t.tableId, t.hf.fileId, t.hf.firstPage, t.schema)
  }

  class TableManager {
    const catalog: Catalog
    var cache: map<Data, UserTable>

    ghost predicate Valid()
      reads this, catalog.tables, catalog.attributes, catalog.bm.disk, catalog.bm.footprint
    {
      && catalog.Valid() && this !in catalog.bm.footprint
      && forall name :: name in cache ==>
           var hf := cache[name].hf;
           |hf.fileId| == 16 && hf != catalog.tables && hf != catalog.attributes && hf !in catalog.bm.footprint
    }

    /** Every cached handle is what a fresh lookup would build. */
    ghost predicate Agrees()
      requires Valid()
      reads this, catalog.tables, catalog.attributes, catalog.bm.disk, catalog.bm.footprint
      reads set name | name in cache :: cache[name].hf
    {
      forall name :: name in cache ==>
        FreshHandle(catalog.tables.Contents(), catalog.attributes.Contents(), name) == Some(HandleOf(cache[name]))
    }

    constructor (catalog: Catalog)
      requires catalog.Valid()
      ensures this.catalog == catalog && cache == map[] && Valid() && Agrees()
    {
      this.catalog := catalog;
      cache := map[];
    }

    /** A miss: looks the table up and builds its handle; None stands for the exception on an unknown
        name. */
    method LoadTable(name: Data) returns (r: Result<Option<UserTable>>)
      requires Valid()
      modifies catalog.bm.footprint, catalog.bm.disk`pages, catalog.bm.disk`numPages
      ensures Valid() && Balanced(old(catalog.bm.cache), catalog.bm.cache) && catalog.bm.store == old(catalog.bm.store)
      ensures catalog.tables.Contents() == old(catalog.tables.Contents())
      ensures catalog.attributes.Contents() == old(catalog.attributes.Contents())
      ensures r.Err? ==> r == Err(AllFramesPinned) && !ScansServed(old(catalog.bm.cache))
      ensures r.Ok? ==>
        var f := FreshHandle(catalog.tables.Contents(), catalog.attributes.Contents(), name);
        && (r.value.None? <==> f.None?)
        && (r.value.Some? ==> |r.value.value.hf.fileId| == 16 && f == Some(HandleOf(r.value.value)))
      ensures r.Ok? && r.value.Some? ==> fresh(r.value.value) && fresh(r.value.value.hf) && Opened(r.value.value)
    {
      hide BufferManager.Valid, RecordsFrom, DecodeTable, DecodeColumn, FirstFitted, TableRowsOnly, ColumnRowsOnly;
      catalog.tables.Parts();
      var info :- Lookup(catalog.tables, name);
      catalog.attributes.Undisturbed([]);
      if info.None? {
        return Ok(None);
      }
      label Found:
      var columns := GetColumns(catalog.attributes, info.value.tableId);
      catalog.tables.Undisturbed@Found([]);
      if columns.Err? {
        return columns.PropagateFailure();
      }
      var hf := HeapFile.Open(catalog.bm, catalog.dm, info.value.fileId, info.value.firstPage);
      var table := new UserTable(hf, columns.value, info.value.tableId);
      return Ok(Some(table));
    }

    /** Every page of the catalog can be requested. */
    ghost predicate ScansServed(c: Cache)
      reads catalog.tables, catalog.attributes
    {
      Served(c, catalog.tables.chain) && Served(c, catalog.attributes.chain)
    }

    /** The handle's heap is the chain of pages at its first page. */
    ghost predicate Opened(t: UserTable)
      reads t.hf, catalog.bm
    {
      && t.hf.bm == catalog.bm && t.hf.dm == catalog.dm
      && t.hf.chain == ChainFrom(catalog.bm.store, t.hf.firstPage)
    }

    /** The cached handle if there is one, otherwise a new one, which is then cached. It fails only if
        the table is not cached, every frame is pinned and some page of the catalog is not in the pool. */
    method OpenTable(name: Data) returns (r: Result<Option<UserTable>>)
      requires Valid() && Agrees()
      modifies this, catalog.bm.footprint, catalog.bm.disk`pages, catalog.bm.disk`numPages
      ensures Valid() && Agrees() && Balanced(old(catalog.bm.cache), catalog.bm.cache)
      ensures catalog.bm.store == old(catalog.bm.store)
      ensures catalog.tables.Contents() == old(catalog.tables.Contents())
      ensures catalog.attributes.Contents() == old(catalog.attributes.Contents())
      ensures r.Err? ==> r == Err(AllFramesPinned) && name !in old(cache) && !ScansServed(old(catalog.bm.cache))
      ensures r.Ok? ==>
        var f := FreshHandle(catalog.tables.Contents(), catalog.attributes.Contents(), name);
        && (r.value.None? <==> f.None?)
        && (r.value.Some? ==> |r.value.value.hf.fileId| == 16 && f == Some(HandleOf(r.value.value)))
      ensures r.Ok? && r.value.Some? ==> cache == old(cache)[name := r.value.value]
      ensures r.Ok? && r.value.Some? && name !in old(cache) ==>
        fresh(r.value.value) && fresh(r.value.value.hf) && Opened(r.value.value)
      ensures r.Err? || r.value.None? ==> cache == old(cache)
      ensures name in old(cache) ==>
        && r == Ok(Some(old(cache)[name])) && cache == old(cache) && catalog.bm.cache == old(catalog.bm.cache)
      ensures r.Ok? ==>
        var row := LookupIn(Records(catalog.tables.Contents()), name);
        && (r.value.Some? <==> row.Some?)
        && (r.value.Some? ==>
              var t := r.value.value;
              && t.tableId == row.value.tableId && t.hf.fileId == row.value.fileId
              && t.hf.firstPage == row.value.firstPage
              && t.schema == ColumnsIn(Records(catalog.attributes.Contents()), row.value.tableId))
    {
      hide BufferManager.Valid, FreshHandle, LookupIn, ColumnsIn, RecordsFrom, FirstFitted, TableRowsOnly,
        ColumnRowsOnly, TableManager.ScansServed;
      if name in cache {
        HandleMeans(name);
        return Ok(Some(cache[name]));
      }
      r := LoadTable(name);
      HandleMeans(name);
      if r.Ok? && r.value.Some? {
        cache := cache[name := r.value.value];
      }
    }

    /** What a handle is built from. */
    lemma HandleMeans(name: Data)
      requires Valid()
      ensures var f, row := FreshHandle(catalog.tables.Contents(), catalog.attributes.Contents(), name),
                            LookupIn(Records(catalog.tables.Contents()), name);
              && (f.Some? <==> row.Some?)
              && (f.Some? ==>
                    && f.value.tableId == row.value.tableId && f.value.fileId == row.value.fileId
                    && f.value.firstPage == row.value.firstPage
                    && f.value.schema == ColumnsIn(Records(catalog.attributes.Contents()), row.value.tableId))
    {
    }

    /** Opening a table twice gives one table. */
    method OpenTwice(name: Data) returns (r: Result<Option<UserTable>>, again: Result<Option<UserTable>>)
      requires Valid() && Agrees()
      modifies this, catalog.bm.footprint, catalog.bm.disk`pages, catalog.bm.disk`numPages
      ensures Valid() && Agrees()
      ensures r.Ok? && r.value.Some? ==> again == r && name in cache && cache[name] == r.value.value
    {
      hide BufferManager.Valid, FreshHandle, LookupIn, ColumnsIn, RecordsFrom, FirstFitted, TableRowsOnly,
        ColumnRowsOnly, TableManager.ScansServed;
      r := OpenTable(name);
      again := OpenTable(name);
    }

    /** Creates a table. Every handle handed out before still agrees with the catalog. */
    method CreateTable(name: Data, columns: seq<RawColumn>, tableId: Uuid, fileId: Uuid)
        returns (id: Uuid, ghost first: i32)
      requires Valid() && Agrees() && catalog.bm.cache.HasRoom() && catalog.dm.Room() >= 3 + 2 * |columns|
      requires Fresh(catalog.tables.Contents(), catalog.attributes.Contents(), tableId)
      modifies catalog.tables, catalog.attributes, catalog.bm.footprint, catalog.dm
      ensures Valid() && Agrees() && cache == old(cache) && id == tableId
      ensures Balanced(old(catalog.bm.cache), catalog.bm.cache)
      ensures catalog.dm.Room() >= old(catalog.dm.Room()) - 3 - 2 * |columns|
      ensures catalog.OthersKept() && catalog.NewHeap(first) && old(catalog.dm.Allocatable(first))
      ensures catalog.tables.Contents()
           == InsertRecord(old(catalog.tables.Contents()), TableBytes(TableInfo(tableId, name, fileId, first))).heap
      ensures catalog.attributes.Contents()
           == InsertAll(old(catalog.attributes.Contents()), ColumnRows(Owned(columns, tableId)))
    {
      hide BufferManager.Valid, RecordsFrom, FreshHandle, FirstFitted, TableRowsOnly, ColumnRowsOnly, Fresh,
        InsertAll, InsertRecord, Catalog.NewHeap, Catalog.OthersKept;
      ghost var t, a := catalog.tables.Contents(), catalog.attributes.Contents();
      var created;
      created, first := catalog.CreateTable(name, columns, tableId, fileId);
      id := created.value;
      ghost var info := TableInfo(tableId, name, fileId, first);
      forall n | n in cache
        ensures FreshHandle(catalog.tables.Contents(), catalog.attributes.Contents(), n) == Some(HandleOf(cache[n]))
      {
        HandlesStable(t, a, info, Owned(columns, tableId), n);
      }
    }

    /** An open table of this database, with a heap of its own. */
    ghost predicate Beside(t: UserTable)
      reads t.hf, catalog.tables, catalog.attributes, catalog.bm.disk, catalog.bm.footprint, catalog.dm
    {
      && t.hf.bm == catalog.bm && t.hf.dm == catalog.dm && t.hf.Valid()
      && t.hf != catalog.tables && t.hf != catalog.attributes && t.hf.chain != []
      && forall q :: q in t.hf.chain ==> catalog.Outside(q)
    }

    /** Creates a table under a new name and opens it. The handle leads to the heap that was created,
        empty and valid; its schema is the stored columns, in the order they were given exactly if the
        pages that took their rows never decrease. */
    method CreateAndOpen(name: Data, columns: seq<RawColumn>, tableId: Uuid, fileId: Uuid) returns (t: UserTable)
      requires Valid() && Agrees() && catalog.bm.cache.HasRoom() && catalog.dm.Room() >= 3 + 2 * |columns|
      requires Fresh(catalog.tables.Contents(), catalog.attributes.Contents(), tableId)
      requires LookupIn(Records(catalog.tables.Contents()), name) == None && 40 + |name| <= MAX_RECORD
      modifies this, catalog.tables, catalog.attributes, catalog.bm.footprint, catalog.dm
      ensures Valid() && Agrees() && Balanced(old(catalog.bm.cache), catalog.bm.cache)
      ensures cache == old(cache)[name := t] && fresh(t) && fresh(t.hf)
      ensures Beside(t) && t.hf.Contents() == [EMPTY_PAGE] && t.tableId == tableId && t.hf.fileId == fileId
      ensures catalog.OthersKept() && catalog.dm.Room() >= old(catalog.dm.Room()) - 3 - 2 * |columns|
      ensures forall q :: q in t.hf.chain ==> old(catalog.dm.Allocatable(q))
      ensures var stored, rows := StoredColumns(Owned(columns, tableId)), ColumnRows(Owned(columns, tableId));
              var rise := PagesRise(old(catalog.attributes.Contents()), rows);
              && multiset(t.schema) == multiset(stored)
              && (rise ==> t.schema == stored)
              && (Distinct(stored) && t.schema == stored ==> rise)
      ensures forall c :: c in t.schema ==>
        exists i :: 0 <= i < |columns| && c == Column(tableId, columns[i].name, columns[i].typeId, columns[i].ordinal)
      ensures (forall i :: 0 <= i < |columns| ==> |columns[i].name| <= 8150) ==>
        && |t.schema| == |columns|
        && forall i :: 0 <= i < |columns| ==>
             Column(tableId, columns[i].name, columns[i].typeId, columns[i].ordinal) in t.schema
      ensures forall rows: seq<Data> ::
        && |rows| == |columns| && (forall i :: 0 <= i < |rows| ==> |rows[i]| == 26 + |columns[i].name| <= 8176)
        && PagesRise(old(catalog.attributes.Contents()), rows) ==>
          && |t.schema| == |columns|
          && forall i :: 0 <= i < |columns| ==>
               t.schema[i] == Column(tableId, columns[i].name, columns[i].typeId, columns[i].ordinal)
    {
      hide BufferManager.Valid, HeapFile.Valid, RecordsFrom, FirstFitted, TableRowsOnly, ColumnRowsOnly, InsertAll,
        InsertRecord, Fresh, ColumnsIn, TableBytes, ColumnBytes, PagesRise, StoredColumns, IsChain, TableManager.Agrees;
      ghost var tables, attributes := catalog.tables.Contents(), catalog.attributes.Contents();
      ghost var owned := Owned(columns, tableId);
      NotCached(name);
      var id;
      ghost var first;
      id, first := CreateTable(name, columns, tableId, fileId);
      NewHandle(tables, attributes, TableInfo(tableId, name, fileId, first), owned);
      catalog.tables.Parts();
      catalog.attributes.Parts();
      var found := OpenTable(name);
      t := found.value.value;
      NewHeapOpened(t);
      SchemaMeans(t.schema, columns, tableId, attributes);
    }

    lemma NotCached(name: Data)
      requires Valid() && Agrees() && LookupIn(Records(catalog.tables.Contents()), name) == None
      ensures name !in cache
    {
      hide BufferManager.Valid, HeapFile.Valid, LookupIn, RecordsFrom;
    }

    /** The chain at the new heap's first page is that page. */
    lemma NewHeapOpened(t: UserTable)
      requires Valid() && Opened(t) && catalog.NewHeap(t.hf.firstPage) && t.hf !in catalog.bm.footprint
      requires t.hf != catalog.tables && t.hf != catalog.attributes
      ensures Beside(t) && t.hf.Contents() == [EMPTY_PAGE] && t.hf.chain == [t.hf.firstPage]
    {
      hide BufferManager.Valid;
      catalog.tables.Parts();
      ChainUnique(catalog.bm.store, t.hf.firstPage, t.hf.chain, [t.hf.firstPage], 0);
    }

    /** A row inserted into an open table leaves the catalog as it is, and every handle agrees still. */
    method InsertRow(t: UserTable, values: seq<Value>) returns (r: Option<RID>)
      requires Valid() && Agrees() && Beside(t) && catalog.bm.cache.HasRoom() && catalog.dm.Room() >= 2
      requires |values| == |t.schema| && Known(t.schema)
      modifies t.hf, catalog.bm.footprint, catalog.dm
      ensures Valid() && Agrees() && Beside(t) && Balanced(old(catalog.bm.cache), catalog.bm.cache)
      ensures catalog.tables.Contents() == old(catalog.tables.Contents())
      ensures catalog.attributes.Contents() == old(catalog.attributes.Contents())
      ensures HeapFile.Stored(old(t.hf.Contents()), Encoded(values), t.hf.Contents(), t.hf.chain, r)
      ensures catalog.dm.Room() >= old(catalog.dm.Room()) - 2
      ensures SameOutside(old(catalog.bm.store), catalog.bm.store, t.hf.chain)
      ensures forall q :: catalog.dm.Allocatable(q) <==> old(catalog.dm.Allocatable(q)) && q !in t.hf.chain
      ensures forall q :: q in t.hf.chain ==> q in old(t.hf.chain) || old(catalog.dm.Allocatable(q))
    {
      hide BufferManager.Valid, HeapFile.Stored, HeapFile.FailsRight, EveryKept, TouchAll, Touch, RecordsFrom,
        FreshHandle, FirstFitted, TableRowsOnly, ColumnRowsOnly, Encoded;
      catalog.tables.Parts();
      catalog.attributes.Parts();
      t.hf.Parts();
      ghost var c := catalog.bm.cache;
      var stored;
      ghost var touched, lost;
      stored, touched, lost := t.Insert(values);
      r := stored.value;
      t.hf.Parts();
      UsesBalanced(c, touched);
      catalog.tables.Undisturbed(t.hf.chain);
      catalog.attributes.Undisturbed(t.hf.chain);
    }
  }

  /** A new name finds the new table, with the columns that were stored for it. */
  lemma NewHandle(tables: Heap, attributes: Heap, t: TableInfo, columns: seq<Column>)
    requires Sized(tables) && Sized(attributes) && FirstFitted(tables) && TableRowsOnly(Records(tables))
    requires Fresh(tables, attributes, t.tableId) && ColumnsOf(columns, t.tableId)
    requires LookupIn(Records(tables), t.name) == None && 40 + |t.name| <= MAX_RECORD
    ensures var f := FreshHandle(InsertRecord(tables, TableBytes(t)).heap,
                                 InsertAll(attributes, ColumnRows(columns)), t.name);
            var rise := PagesRise(attributes, ColumnRows(columns));
            && f.Some? && f.value.tableId == t.tableId && f.value.fileId == t.fileId && f.value.firstPage == t.firstPage
            && multiset(f.value.schema) == multiset(StoredColumns(columns))
            && (rise ==> f.value.schema == StoredColumns(columns))
            && (Distinct(StoredColumns(columns)) && f.value.schema == StoredColumns(columns) ==> rise)
  {
    hide RecordsFrom, InsertRecord, InsertAll, TableRowsOnly, FirstFitted, ColumnsIn, PagesRise, StoredColumns,
      LookupIn, ColumnRows;
    LookupStable(tables, t, t.name);
    ColumnsStored(attributes, columns, t.tableId, t.tableId);
    ColumnsInOrderExactly(attributes, columns, t.tableId);
  }

  /** The schema that was stored, column by column. */
  lemma SchemaMeans(schema: Schema, columns: seq<RawColumn>, tableId: Uuid, attributes: Heap)
    requires multiset(schema) == multiset(StoredColumns(Owned(columns, tableId)))
    requires PagesRise(attributes, ColumnRows(Owned(columns, tableId))) ==>
      schema == StoredColumns(Owned(columns, tableId))
    ensures forall c :: c in schema ==>
      exists i :: 0 <= i < |columns| && c == Column(tableId, columns[i].name, columns[i].typeId, columns[i].ordinal)
    ensures (forall i :: 0 <= i < |columns| ==> |columns[i].name| <= 8150) ==>
      && |schema| == |columns|
      && forall i :: 0 <= i < |columns| ==>
           Column(tableId, columns[i].name, columns[i].typeId, columns[i].ordinal) in schema
    ensures forall rows: seq<Data> ::
      && |rows| == |columns| && (forall i :: 0 <= i < |rows| ==> |rows[i]| == 26 + |columns[i].name| <= 8176)
      && PagesRise(attributes, rows) ==>
        && |schema| == |columns|
        && forall i :: 0 <= i < |columns| ==>
             schema[i] == Column(tableId, columns[i].name, columns[i].typeId, columns[i].ordinal)
  {
    hide PagesRise, StoredColumns;
    var owned := Owned(columns, tableId);
    StoredAmong(owned);
    forall c | c in schema
      ensures exists i :: 0 <= i < |columns|
                          && c == Column(tableId, columns[i].name, columns[i].typeId, columns[i].ordinal)
    {
      assert c in multiset(schema);
      var i :| 0 <= i < |owned| && owned[i] == c;
      assert c == Column(tableId, columns[i].name, columns[i].typeId, columns[i].ordinal);
    }
    if forall i :: 0 <= i < |columns| ==> |columns[i].name| <= 8150 {
      assert |multiset(schema)| == |multiset(owned)|;
      forall i | 0 <= i < |columns|
        ensures Column(tableId, columns[i].name, columns[i].typeId, columns[i].ordinal) in schema
      {
        assert owned[i] in multiset(owned);
      }
    }
    forall rows: seq<Data> | |rows| == |columns|
                             && (forall i :: 0 <= i < |rows| ==> |rows[i]| == 26 + |columns[i].name| <= 8176)
                             && PagesRise(attributes, rows)
      ensures |schema| == |columns|
      ensures forall i :: 0 <= i < |columns| ==>
                schema[i] == Column(tableId, columns[i].name, columns[i].typeId, columns[i].ordinal)
    {
      SpaceAndLengthsDecide(attributes, attributes, rows, ColumnRows(owned));
    }
  }
}
