/** A user table: rows of values over a heap file. */
module Table {
  import opened Bytes
  import opened HeapSpec
  import opened Codec
  import opened RowSpec
  import opened CacheSpec
  import opened CacheRuns
  import opened HeapChain
  import opened BufferManager
  import opened HeapFile

  datatype Tuple = Tuple(values: seq<Value>, schema: Schema)

  class UserTable {
    const hf: HeapFile
    const schema: Schema
    const tableId: Uuid

    constructor (hf: HeapFile, schema: Schema, tableId: Uuid)
      ensures this.hf == hf && this.schema == schema && this.tableId == tableId
    {
      this.hf, this.schema, this.tableId := hf, schema, tableId;
    }

    /** Encodes the row and inserts the bytes. */
    method Insert(values: seq<Value>) returns (r: Result<Option<RID>>, ghost touched: seq<int>, ghost lost: Option<int>)
      requires |values| == |schema| && Known(schema)
      requires hf.Valid() && hf.dm.Room() >= 2
      modifies hf, hf.bm.footprint, hf.dm
      ensures hf.bm.Valid() && old(hf.chain) <= hf.chain && hf.dm.Room() >= old(hf.dm.Room()) - 2
      ensures InRange(touched) && Served(old(hf.bm.cache), touched)
      ensures hf.bm.cache == TouchAll(old(hf.bm.cache), touched)
      ensures forall q :: q in touched ==> q in hf.chain
      ensures r.Ok? && old(hf.chain) != [] ==>
        touched == HeapFile.VisitedPages(old(hf.chain), FirstFit(old(hf.Contents()), Encoded(values)), hf.chain)
      ensures r.Ok? && old(hf.chain) == [] ==>
        touched == [hf.firstPage]
                   + HeapFile.VisitedPages([hf.firstPage], FirstFit([EMPTY_PAGE], Encoded(values)), hf.chain)
      ensures SameOutside(old(hf.bm.store), hf.bm.store, hf.chain)
      ensures EveryKept(old(hf.bm.store), hf.bm.store, old(hf.chain))
      ensures forall q :: q in hf.chain ==> q in old(hf.chain) || old(hf.dm.Allocatable(q))
      ensures r.Ok? ==>
        hf.Valid() && HeapFile.Stored(old(hf.Contents()), Encoded(values), hf.Contents(), hf.chain, r.value)
      ensures r.Ok? ==> forall q :: hf.dm.Allocatable(q) <==> old(hf.dm.Allocatable(q)) && q !in hf.chain
      ensures r.Err? ==> r == Err(AllFramesPinned) && !old(hf.bm.cache).HasRoom()
      ensures r.Err? && lost.None? ==>
        hf.Valid() && hf.chain == old(hf.chain) && hf.Contents() == old(hf.Contents())
      ensures r.Err? && lost.Some? ==>
        && LinksTo(hf.bm.store, hf.firstPage, hf.chain, lost.value)
        && HeapChain.Contents(hf.bm.store, hf.chain)
           == (if hf.chain == old(hf.chain) then old(hf.Contents()) else [EMPTY_PAGE])
        && 0 <= lost.value && !hf.dm.Allocatable(lost.value)
      ensures old(hf.chain) != [] && r.Err? && lost.Some? ==>
        lost.value == old(hf.dm.Next()) && hf.bm.store.Keys == old(hf.bm.store.Keys)
      ensures old(hf.chain) == [] ==>
        HeapFile.FailsEmpty(old(hf.bm.cache), old(hf.dm.Next()), old(hf.dm.After()), Encoded(values), r.Err?, lost,
                            hf.chain)
      ensures old(hf.chain) != [] ==>
        HeapFile.FailsRight(old(hf.bm.cache), old(hf.chain), old(hf.Contents()), old(hf.dm.Next()), Encoded(values),
                            r.Err?, lost.Some?)
    {
      hide BufferManager.Valid, TouchAll, Touch, Cache.Valid, EveryKept, HeapFile.Stored, HeapFile.FailsRight,
        HeapFile.FailsEmpty, IsChain, LinksTo;
      var bytes := Encode(values, schema);
      r, touched, lost := hf.Insert(bytes);
    }

    /** Decodes the bytes the record's view shows now. */
    method Decode(rec: Record) returns (t: Option<Tuple>)
      requires Known(schema) && rec.view.InBounds()
      ensures var row := DecodeRow(rec.view.Read(), schema);
              t == if row.Some? then Some(Tuple(row.value, schema)) else None
    {
      var values := Codec.Decode(rec.view.Read(), schema);
      return if values.Some? then Some(Tuple(values.value, schema)) else None;
    }
  }
}
