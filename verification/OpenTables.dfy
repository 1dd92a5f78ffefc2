/** Any number of open tables over one catalog and one pool, and the same database after a restart. */
module OpenTables {
  import opened Bytes
  import opened HeapSpec
  import opened HeapChain
  import opened Codec
  import opened RowSpec
  import opened RowOrder
  import opened CatalogSpec
  import opened CacheRuns
  import opened BufferManager
  import opened HeapFile
  import opened Table
  import opened Catalog
  import opened TableManager
  import opened Restart
  import Disk

  /** The tables are valid, and no page belongs to two of them or to the catalog. */
  ghost predicate Apart(tm: TableManager, open: set<UserTable>)
    requires tm.Valid()
    reads tm, tm.catalog.tables, tm.catalog.attributes, tm.catalog.bm.disk, tm.catalog.bm.footprint, tm.catalog.dm
    reads set name | name in tm.cache :: tm.cache[name].hf
    reads set t | t in open :: t.hf
  {
    && (forall t :: t in open ==> tm.Beside(t))
    && (forall t, u :: t in open && u in open && t != u ==>
          t.hf != u.hf && forall q :: q in t.hf.chain ==> q !in u.hf.chain)
  }

  /** What the pages `s` make of an open table: its chain and contents, on pages of its own. */
  ghost predicate Held(tm: TableManager, s: map<int, Data>, u: UserTable, h: Heap)
    reads u.hf
  {
    && u.hf.bm == tm.catalog.bm && u.hf.dm == tm.catalog.dm && u.hf.chain != []
    && u.hf !in tm.catalog.bm.footprint && u.hf != tm.catalog.tables && u.hf != tm.catalog.attributes
    && IsChain(s, u.hf.firstPage, u.hf.chain) && HeapChain.Contents(s, u.hf.chain) == h
    && forall q :: q in u.hf.chain ==> q in s
  }

  lemma Holding(tm: TableManager, u: UserTable)
    requires tm.Beside(u)
    ensures Held(tm, tm.catalog.bm.store, u, u.hf.Contents())
  {
  }

  /** A table whose pages nobody wrote is what it was. */
  lemma Untroubled(tm: TableManager, s: map<int, Data>, u: UserTable, h: Heap)
    requires tm.Valid() && Held(tm, s, u, h)
    requires forall q :: q in u.hf.chain ==>
      tm.catalog.Outside(q) && q in tm.catalog.bm.store && tm.catalog.bm.store[q] == s[q]
    ensures tm.Beside(u) && u.hf.Contents() == h
  {
    hide BufferManager.Valid;
    tm.catalog.tables.Parts();
    ChainFramed(s, tm.catalog.bm.store, u.hf.firstPage, u.hf.chain);
  }

  /** Creating a table leaves every open table valid and unchanged, and adds the new one to them. */
  method CreateAmong(tm: TableManager, ghost open: set<UserTable>, name: Data, columns: seq<RawColumn>, tableId: Uuid,
                     fileId: Uuid)
      returns (t: UserTable)
    requires tm.Valid() && tm.Agrees() && Apart(tm, open)
    requires tm.catalog.bm.cache.HasRoom() && tm.catalog.dm.Room() >= 3 + 2 * |columns|
    requires Fresh(tm.catalog.tables.Contents(), tm.catalog.attributes.Contents(), tableId)
    requires LookupIn(Records(tm.catalog.tables.Contents()), name) == None && 40 + |name| <= MAX_RECORD
    modifies tm, tm.catalog.tables, tm.catalog.attributes, tm.catalog.bm.footprint, tm.catalog.dm
    ensures tm.Valid() && tm.Agrees() && t !in open && Apart(tm, open + {t}) && t.hf.Contents() == [EMPTY_PAGE]
    ensures forall u :: u in open ==> u.hf.Contents() == old(u.hf.Contents())
    ensures Balanced(old(tm.catalog.bm.cache), tm.catalog.bm.cache)
    ensures tm.catalog.dm.Room() >= old(tm.catalog.dm.Room()) - 3 - 2 * |columns|
  {
    hide BufferManager.Valid, TableManager.Valid, TableManager.Agrees, FreshHandle, LookupIn, RecordsFrom, PagesRise,
      StoredColumns, Fresh, HeapFile.Valid, ColumnRows, IsChain;
    ghost var s := tm.catalog.bm.store;
    forall u | u in open
      ensures Held(tm, s, u, u.hf.Contents())
    {
      Holding(tm, u);
    }
    t := tm.CreateAndOpen(name, columns, tableId, fileId);
    forall u | u in open
      ensures tm.Beside(u) && u.hf.Contents() == old(u.hf.Contents())
      ensures forall q :: q in t.hf.chain ==> q !in u.hf.chain
    {
      assert Held(tm, s, u, old(u.hf.Contents()));
      Untroubled(tm, s, u, old(u.hf.Contents()));
    }
  }

  lemma CatalogApart(tm: TableManager)
    requires tm.Valid()
    ensures tm.catalog.tables !in tm.catalog.bm.footprint && tm.catalog.attributes !in tm.catalog.bm.footprint
    ensures tm.catalog.dm == tm.catalog.bm.disk && tm.catalog.dm !in tm.catalog.bm.footprint
  {
    hide BufferManager.Valid;
    tm.catalog.tables.Parts();
    tm.catalog.attributes.Parts();
  }

  /** Inserting a row leaves every other open table valid and unchanged. */
  method InsertAmong(tm: TableManager, ghost open: set<UserTable>, t: UserTable, values: seq<Value>)
      returns (r: Option<RID>)
    requires tm.Valid() && tm.Agrees() && Apart(tm, open) && t in open
    requires tm.catalog.bm.cache.HasRoom() && tm.catalog.dm.Room() >= 2
    requires |values| == |t.schema| && Known(t.schema)
    modifies t.hf, tm.catalog.bm.footprint, tm.catalog.dm
    ensures tm.Valid() && tm.Agrees() && Apart(tm, open)
    ensures HeapFile.Stored(old(t.hf.Contents()), Encoded(values), t.hf.Contents(), t.hf.chain, r)
    ensures forall u :: u in open && u != t ==> u.hf.Contents() == old(u.hf.Contents())
    ensures tm.catalog.tables.Contents() == old(tm.catalog.tables.Contents())
    ensures tm.catalog.attributes.Contents() == old(tm.catalog.attributes.Contents())
    ensures Balanced(old(tm.catalog.bm.cache), tm.catalog.bm.cache)
    ensures tm.catalog.dm.Room() >= old(tm.catalog.dm.Room()) - 2
  {
    hide BufferManager.Valid, TableManager.Valid, TableManager.Agrees, HeapFile.Valid, IsChain, HeapFile.Stored,
      Encoded;
    ghost var s := tm.catalog.bm.store;
    forall u | u in open
      ensures Held(tm, s, u, u.hf.Contents())
    {
      Holding(tm, u);
    }
    CatalogApart(tm);
    r := tm.InsertRow(t, values);
    forall u | u in open && u != t
      ensures tm.Beside(u) && u.hf.Contents() == old(u.hf.Contents())
      ensures forall q :: q in t.hf.chain ==> q !in u.hf.chain
    {
      assert Held(tm, s, u, old(u.hf.Contents()));
      Untroubled(tm, s, u, old(u.hf.Contents()));
    }
  }

  // ----- after a restart -----

  /** Flushes the pool and starts over: a new disk manager, a new pool of any size, the catalog heaps
      opened at the same first pages, and a name cache without entries. */
  method CloseAndReopen(tm: TableManager, size: nat) returns (again: TableManager)
    requires tm.Valid() && 0 < size
    modifies tm.catalog.bm.footprint, tm.catalog.dm`pages, tm.catalog.dm`numPages
    ensures again.Valid() && again.Agrees() && again.cache == map[] && fresh(again)
    ensures again.catalog.tables.Contents() == old(tm.catalog.tables.Contents())
    ensures again.catalog.attributes.Contents() == old(tm.catalog.attributes.Contents())
    ensures again.catalog.tables.chain == old(tm.catalog.tables.chain)
    ensures again.catalog.attributes.chain == old(tm.catalog.attributes.chain)
    ensures again.catalog.bm.store == old(tm.catalog.bm.store) && |again.catalog.bm.pool| == size
    ensures again.catalog.bm.cache.HasRoom() && again.catalog.bm.cache.BitsFollowPins()
    ensures forall p :: p in again.catalog.bm.store ==> !again.catalog.dm.Allocatable(p)
    ensures fresh(again.catalog.bm.footprint) && fresh(again.catalog.bm.disk)
    ensures fresh(again.catalog.tables) && fresh(again.catalog.attributes)
  {
    hide BufferManager.Valid, RecordsFrom, DecodeTable, DecodeColumn, FirstFitted, TableRowsOnly, ColumnRowsOnly,
      IsChain, HeapChain.Contents;
    var tables, attributes := tm.catalog.tables, tm.catalog.attributes;
    Flush(tables);
    var disk, pool := Reopen(tm.catalog.bm, tm.catalog.dm, size);
    var tables2 := OpenAgain(tables, disk, pool);
    var attributes2 := OpenAgain(attributes, disk, pool);
    var catalog := new Catalog(pool, disk, tables2, attributes2);
    again := new TableManager(catalog);
  }

  /** After a restart, opening a table by the name of an open one gives the same handle over a valid heap
      with the same records. */
  method ReopenTable(tm: TableManager, name: Data, ghost u: UserTable, size: nat)
      returns (again: TableManager, t: UserTable)
    requires tm.Valid() && tm.Agrees() && name in tm.cache && u == tm.cache[name] && tm.Beside(u) && 0 < size
    modifies tm.catalog.bm.footprint, tm.catalog.dm`pages, tm.catalog.dm`numPages
    ensures again.Valid() && again.Agrees() && again.Beside(t) && |again.catalog.bm.pool| == size
    ensures |t.hf.fileId| == |u.hf.fileId| == 16 && HandleOf(t) == old(HandleOf(u))
    ensures t.hf.chain == old(u.hf.chain) && t.hf.Contents() == old(u.hf.Contents())
  {
    hide BufferManager.Valid, HeapFile.Valid, TableManager.Agrees, IsChain, FreshHandle;
    ghost var s, chain := tm.catalog.bm.store, u.hf.chain;
    Holding(tm, u);
    SameHandle(tm, name);
    ghost var apart := forall q :: q in chain ==>
      q in s && q !in tm.catalog.tables.chain && q !in tm.catalog.attributes.chain;
    assert apart;
    again := CloseAndReopen(tm, size);
    CatalogApart(again);
    forall q | q in chain
      ensures again.catalog.Outside(q)
    {
    }
    var found := again.OpenTable(name);
    t := found.value.value;
    SameHeap(again, t, s, chain);
  }

  lemma SameHandle(tm: TableManager, name: Data)
    requires tm.Valid() && tm.Agrees() && name in tm.cache
    ensures |tm.cache[name].hf.fileId| == 16
    ensures FreshHandle(tm.catalog.tables.Contents(), tm.catalog.attributes.Contents(), name)
         == Some(HandleOf(tm.cache[name]))
  {
    hide BufferManager.Valid, HeapFile.Valid, FreshHandle;
  }

  /** A handle opened over the same pages has the same chain. */
  lemma SameHeap(tm: TableManager, t: UserTable, s: map<int, Data>, chain: seq<int>)
    requires tm.Valid() && tm.Opened(t) && tm.catalog.bm.store == s && chain != []
    requires t.hf !in tm.catalog.bm.footprint && t.hf != tm.catalog.tables && t.hf != tm.catalog.attributes
    requires IsChain(s, t.hf.firstPage, chain)
    requires forall q :: q in chain ==> tm.catalog.Outside(q)
    ensures tm.Beside(t) && t.hf.chain == chain && t.hf.Contents() == HeapChain.Contents(s, chain)
  {
    hide BufferManager.Valid;
    tm.catalog.tables.Parts();
    ChainUnique(s, t.hf.firstPage, t.hf.chain, chain, 0);
    forall i | 0 <= i < |chain|
      ensures !tm.catalog.dm.Allocatable(chain[i])
    {
      assert tm.catalog.Outside(chain[i]);
    }
  }
}
