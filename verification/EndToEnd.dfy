/** From inserts to query results over the real table, cache and operators. */
module EndToEnd {
  import opened Bytes
  import opened HeapSpec
  import opened Codec
  import opened RowSpec
  import opened RowOrder
  import opened CacheSpec
  import opened CacheRuns
  import opened Residency
  import opened ScanSpec
  import opened ViewLifetime
  import opened ScanLanding
  import opened HeapChain
  import opened BufferManager
  import opened HeapFile
  import opened HeapIterator
  import opened Table
  import opened Operators
  import opened Query

  // ----- the order of rows -----

  function RowOf(schema: Schema): Data -> seq<Option<seq<Value>>>
    requires Known(schema)
  {
    d => [DecodeRow(d, schema)]
  }

  lemma {:induction false} RowsAreImage(ds: seq<Data>, schema: Schema)
    requires Known(schema)
    ensures Image(ds, RowOf(schema)) == DecodeRows(ds, schema)
  {
    hide DecodeRow;
    if ds != [] {
      RowsAreImage(ds[1..], schema);
    }
  }

  /** Rows of a new table come back in insertion order if the pages that take them never decrease, and,
      the rows being different, only then. */
  lemma RowsInOrderExactly(rows: seq<seq<Value>>, schema: Schema)
    requires Known(schema) && schema != [] && AllRowsCarried(rows, schema)
    ensures var back := DecodeRows(Records(InsertAll([EMPTY_PAGE], Encodings(rows))), schema);
            && (PagesRise([EMPTY_PAGE], Encodings(rows)) ==> back == RowsKept(rows))
            && (Distinct(RowsKept(rows)) && back == RowsKept(rows) ==> PagesRise([EMPTY_PAGE], Encodings(rows)))
  {
    hide RecordsFrom, Image, DecodeRow, DecodeRows, Encoded, InsertAll, PagesRise, RowsKept, AllRowsCarried;
    var ds := Encodings(rows);
    NothingYet();
    ImageOne([], RowOf(schema));
    OrderExactly([EMPTY_PAGE], ds, RowOf(schema));
    RowsAreImage(Records(InsertAll([EMPTY_PAGE], ds)), schema);
    RowsAreImage(AllKept(ds), schema);
    KeptDecode(rows, schema);
  }

  // ----- inserting -----

  lemma OneMoreRow(h: Heap, rows: seq<seq<Value>>, i: nat)
    requires i < |rows|
    ensures InsertAll(h, Encodings(rows[..i + 1]))
            == InsertRecord(InsertAll(h, Encodings(rows[..i])), Encoded(rows[i])).heap
  {
    hide InsertRecord, Encoded;
    assert Encodings(rows[..i + 1])[..i] == Encodings(rows[..i]);
  }

  /** Inserts the rows one after the other. */
  method InsertRows(t: UserTable, rows: seq<seq<Value>>) returns (ghost touched: seq<int>)
    requires Known(t.schema) && forall i :: 0 <= i < |rows| ==> |rows[i]| == |t.schema|
    requires t.hf.Valid() && t.hf.bm.cache.HasRoom() && t.hf.dm.Room() >= 2 * |rows|
    modifies t.hf, t.hf.bm.footprint, t.hf.dm
    ensures t.hf.Valid() && old(t.hf.chain) <= t.hf.chain
    ensures t.hf.dm.Room() >= old(t.hf.dm.Room()) - 2 * |rows|
    ensures SameOutside(old(t.hf.bm.store), t.hf.bm.store, t.hf.chain)
    ensures forall q :: t.hf.dm.Allocatable(q) <==> old(t.hf.dm.Allocatable(q)) && q !in t.hf.chain
    ensures forall q :: q in t.hf.chain ==> q in old(t.hf.chain) || old(t.hf.dm.Allocatable(q))
    ensures t.hf.Contents() == InsertAll(old(t.hf.Contents()), Encodings(rows))
    ensures InRange(touched) && t.hf.bm.cache == TouchAll(old(t.hf.bm.cache), touched)
    ensures forall q :: q in touched ==> q in t.hf.chain
  {
    hide BufferManager.Valid, HeapFile.Valid, TouchAll, Touch, Cache.Valid, InsertRecord, InsertAll, Encoded,
      HeapFile.FailsRight, HeapFile.FailsEmpty, HeapFile.VisitedPages, EveryKept, IsChain, LinksTo, Encodings;
    t.hf.Parts();
    ghost var c, h := t.hf.bm.cache, t.hf.Contents();
    TouchNone(c);
    touched := [];
    NoRows(h, rows);
    for i := 0 to |rows|
      invariant t.hf.Valid() && old(t.hf.chain) <= t.hf.chain && t.hf.dm.Room() >= old(t.hf.dm.Room()) - 2 * i
      invariant SameOutside(old(t.hf.bm.store), t.hf.bm.store, t.hf.chain)
      invariant forall q :: t.hf.dm.Allocatable(q) <==> old(t.hf.dm.Allocatable(q)) && q !in t.hf.chain
      invariant forall q :: q in t.hf.chain ==> q in old(t.hf.chain) || old(t.hf.dm.Allocatable(q))
      invariant t.hf.Contents() == InsertAll(h, Encodings(rows[..i]))
      invariant InRange(touched) && t.hf.bm.cache == TouchAll(c, touched)
      invariant forall q :: q in touched ==> q in t.hf.chain
    {
      OneMoreRow(h, rows, i);
      var stored;
      ghost var more, lost;
      stored, more, lost := t.Insert(rows[i]);
      TouchAllAppends(c, touched, more);
      touched := touched + more;
    }
    assert rows[..|rows|] == rows;
  }

  lemma NoRows(h: Heap, rows: seq<seq<Value>>)
    ensures InsertAll(h, Encodings(rows[..0])) == h
  {
  }

  // ----- and selecting -----

  lemma ScanPlan(scan: SeqScanOp)
    requires scan.Ready()
    ensures SeqScan(scan).Ready() && SeqScan(scan).Rows() == scan.Rows()
  {
    var iter: object, hf: object, disk: object := scan.iter, scan.rel.hf, scan.rel.hf.bm.disk;
    assert iter is HeapIterator && hf is HeapFile;
  }

  /** No step of a scan of the table started now loses its view. */
  ghost predicate ScansTrue(hf: HeapFile)
    requires hf.Valid()
    reads hf, hf.bm.disk, hf.bm.footprint
  {
    && hf.bm.cache.Valid() && hf.bm.cache.HasRoom() && hf.bm.cache.BitsFollowPins() && InRange(hf.chain)
    && InOrder(hf.chain, Scan(hf.Contents())) && LosslessScan(hf.bm.cache, hf.chain, Scan(hf.Contents()))
  }

  /** That can be read off the pool as it is. */
  lemma ScansTrueExactly(hf: HeapFile)
    requires hf.Valid() && hf.bm.cache.HasRoom() && hf.bm.cache.BitsFollowPins()
    ensures hf.bm.cache.Valid() && hf.bm.cache.Swept().victim.Some? && InOrder(hf.chain, Scan(hf.Contents()))
    ensures ScansTrue(hf) <==> NoCollision(hf.bm.cache, hf.chain, Scan(hf.Contents()))
  {
    hide BufferManager.Valid, TouchAll, Touch, LiveFrom, Lossless, NoCollision;
    hf.Parts();
    ScanInOrder(hf.Contents(), hf.chain, 0, 0);
    LosslessNow(hf.bm.cache, hf.chain, Scan(hf.Contents()));
  }

  /** Selects all rows of a table that holds what a run of inserts left, in any pool in which a scan
      started now loses no view. Every row whose encoding fits on a page comes back once; in insertion
      order if the pages that took the rows never decrease, and, the rows being different, only then. */
  method SelectFilled(t: UserTable, ghost rows: seq<seq<Value>>) returns (res: seq<Tuple>)
    requires Known(t.schema) && t.schema != [] && AllRowsCarried(rows, t.schema)
    requires t.hf.Valid() && t.hf.Contents() == InsertAll([EMPTY_PAGE], Encodings(rows)) && ScansTrue(t.hf)
    modifies t.hf.bm.footprint, t.hf.bm.disk`pages, t.hf.bm.disk`numPages
    ensures t.hf.Valid() && t.hf.Contents() == old(t.hf.Contents()) && t.hf.bm.store == old(t.hf.bm.store)
    ensures multiset(OnlyValues(res)) == multiset(RowsKept(rows))
    ensures NonDecreasing(Encodings(rows)) ==> OnlyValues(res) == RowsKept(rows)
    ensures PagesRise([EMPTY_PAGE], Encodings(rows)) ==> OnlyValues(res) == RowsKept(rows)
    ensures Distinct(RowsKept(rows)) && OnlyValues(res) == RowsKept(rows) ==> PagesRise([EMPTY_PAGE], Encodings(rows))
    ensures AllFitPage(rows) && PagesRise([EMPTY_PAGE], Encodings(rows)) ==>
      |res| == |rows| && forall i :: 0 <= i < |res| ==> res[i] == Tuple(AllCanonical(rows[i]), t.schema)
  {
    hide BufferManager.Valid, HeapFile.Valid, TouchAll, Touch, Cache.Valid, InsertAll, Decodable, Encodings, RowsKept,
      PagesRise, TableRows, SeqScanOp.Ready, SeqScanOp.Rows, LosslessScan, Cache.BitsFollowPins;
    t.hf.Parts();
    SelectAll(rows, t.schema);
    var scan := new SeqScanOp(t);
    scan.FaithfulRows();
    ScanPlan(scan);
    res := ExecuteAndCollect(SeqScan(scan));
    RowsInOrderExactly(rows, t.schema);
    SelectedRows(InsertAll([EMPTY_PAGE], Encodings(rows)), t.schema);
    RowsReturned(res, rows, t.schema);
  }

  /** Where no row is too long and the order is kept, the rows themselves come back. */
  lemma RowsReturned(res: seq<Tuple>, rows: seq<seq<Value>>, schema: Schema)
    requires forall i :: 0 <= i < |res| ==> res[i].schema == schema
    ensures AllFitPage(rows) && OnlyValues(res) == RowsKept(rows) ==>
      |res| == |rows| && forall i :: 0 <= i < |res| ==> res[i] == Tuple(AllCanonical(rows[i]), schema)
  {
    hide Encoded, AllCanonical, RowsKept;
    if AllFitPage(rows) && OnlyValues(res) == RowsKept(rows) {
      AllRowsKept(rows);
      forall i | 0 <= i < |res|
        ensures res[i] == Tuple(AllCanonical(rows[i]), schema)
      {
        assert OnlyValues(res)[i] == Some(res[i].values);
      }
    }
  }

  /** A chain that grew misses at most the new pages more often. */
  lemma {:induction false} GrownMisses(c: Cache, chain: seq<int>, longer: seq<int>)
    requires chain <= longer
    ensures Misses(c, longer) <= Misses(c, chain) + |longer| - |chain|
    decreases |longer|
  {
    if |chain| < |longer| {
      GrownMisses(c, chain, longer[..|longer| - 1]);
    } else {
      assert chain == longer;
    }
  }

  /** Inserts rows into a new table and selects them all. The new pages must fit into the free frames
      beside those of the table that are not cached yet. */
  method InsertAndSelect(t: UserTable, rows: seq<seq<Value>>) returns (res: seq<Tuple>)
    requires Known(t.schema) && t.schema != [] && AllRowsCarried(rows, t.schema)
    requires t.hf.Valid() && t.hf.Contents() == [EMPTY_PAGE] && t.hf.dm.Room() >= 2 * |rows|
    requires t.hf.bm.cache.HasRoom() && t.hf.bm.cache.BitsFollowPins()
    requires Misses(t.hf.bm.cache, t.hf.chain) + |InsertAll([EMPTY_PAGE], Encodings(rows))| - 1 <= |t.hf.bm.cache.free|
    modifies t.hf, t.hf.bm.footprint, t.hf.dm
    ensures t.hf.Valid() && t.hf.Contents() == InsertAll([EMPTY_PAGE], Encodings(rows))
    ensures multiset(OnlyValues(res)) == multiset(RowsKept(rows))
    ensures NonDecreasing(Encodings(rows)) ==> OnlyValues(res) == RowsKept(rows)
    ensures PagesRise([EMPTY_PAGE], Encodings(rows)) ==> OnlyValues(res) == RowsKept(rows)
    ensures Distinct(RowsKept(rows)) && OnlyValues(res) == RowsKept(rows) ==> PagesRise([EMPTY_PAGE], Encodings(rows))
    ensures AllFitPage(rows) && PagesRise([EMPTY_PAGE], Encodings(rows)) ==>
      |res| == |rows| && forall i :: 0 <= i < |res| ==> res[i] == Tuple(AllCanonical(rows[i]), t.schema)
  {
    hide BufferManager.Valid, HeapFile.Valid, TouchAll, Touch, Cache.Valid, InsertAll, Encodings, RowsKept, PagesRise,
      LosslessScan, Misses, NonDecreasing;
    t.hf.Parts();
    ghost var c, chain := t.hf.bm.cache, t.hf.chain;
    ghost var touched := InsertRows(t, rows);
    t.hf.Parts();
    GrownMisses(c, chain, t.hf.chain);
    FitUses(c, t.hf.chain, touched);
    ScanInOrder(t.hf.Contents(), t.hf.chain, 0, 0);
    FitIsLosslessScan(t.hf.bm.cache, t.hf.chain, Scan(t.hf.Contents()));
    res := SelectFilled(t, rows);
  }

  /** The selected values are the decoded records. */
  lemma SelectedRows(h: Heap, schema: Schema)
    requires Decodable(h, schema)
    ensures OnlyValues(TableRows(h, schema)) == DecodeRows(Records(h), schema)
    ensures forall i :: 0 <= i < |TableRows(h, schema)| ==> TableRows(h, schema)[i].schema == schema
  {
    hide TableRows, RecordsFrom, DecodeRow;
    RowsAreRecords(h, schema);
  }
}
