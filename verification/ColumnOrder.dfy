/** In which order the columns of a new table come back: the schema that rows are decoded with. */
module ColumnOrder {
  import opened Bytes
  import opened HeapSpec
  import opened Codec
  import opened RowSpec
  import opened RowOrder
  import opened CatalogSpec

  /** What a scan for the columns of table `own` makes of a row. */
  function ColumnOf(own: Uuid): Data -> seq<Column> {
    d =>
      var c := DecodeColumn(d);
      if c.Some? && c.value.tableId == own then [c.value] else []
  }

  lemma {:induction false} ColumnsAreImage(rows: seq<Data>, own: Uuid)
    ensures ColumnsIn(rows, own) == Image(rows, ColumnOf(own))
  {
    hide DecodeColumn;
    if rows != [] {
      ColumnsAreImage(rows[1..], own);
    }
  }

  lemma RowOfColumn(c: Column, own: Uuid)
    requires c.tableId == own && Storable(ColumnBytes(c))
    ensures ColumnOf(own)(ColumnBytes(c)) == [c]
  {
    ColumnReadsBack(c);
  }

  lemma {:induction false} KeptColumns(columns: seq<Column>, own: Uuid)
    requires ColumnsOf(columns, own)
    ensures Image(AllKept(ColumnRows(columns)), ColumnOf(own)) == StoredColumns(columns)
  {
    hide ColumnBytes, ColumnOf, Image;
    ImageOne([], ColumnOf(own));
    if columns != [] {
      var n := |columns| - 1;
      var front, c := columns[..n], columns[n];
      KeptColumns(front, own);
      assert ColumnRows(columns)[..n] == ColumnRows(front);
      ImageSplit(AllKept(ColumnRows(front)), Kept(ColumnBytes(c)), ColumnOf(own));
      ImageOne(ColumnBytes(c), ColumnOf(own));
      if Storable(ColumnBytes(c)) {
        RowOfColumn(c, own);
      }
    }
  }

  /** A new table's columns come back in the order they were stored if the pages that take their rows
      never decrease, and, the columns being different, only then. */
  lemma ColumnsInOrderExactly(h: Heap, columns: seq<Column>, own: Uuid)
    requires Sized(h) && ColumnsOf(columns, own) && ColumnsIn(Records(h), own) == []
    ensures var back := ColumnsIn(Records(InsertAll(h, ColumnRows(columns))), own);
            && (PagesRise(h, ColumnRows(columns)) ==> back == StoredColumns(columns))
            && (Distinct(StoredColumns(columns)) && back == StoredColumns(columns) ==>
                  PagesRise(h, ColumnRows(columns)))
  {
    hide RecordsFrom, ColumnsIn, Image, ColumnOf, ColumnBytes, InsertAll, PagesRise;
    var rows, f := ColumnRows(columns), ColumnOf(own);
    ColumnsAreImage(Records(h), own);
    ColumnsAreImage(Records(InsertAll(h, rows)), own);
    KeptColumns(columns, own);
    forall i | 0 <= i < |rows| && Storable(rows[i])
      ensures |f(rows[i])| == 1
    {
      RowOfColumn(columns[i], own);
    }
    OrderExactly(h, rows, f);
  }

  /** They do not always: with 40 bytes left on the only page, a column with a name of 20 bytes needs a
      new page, and the next one, with a name of 5 bytes, still fits in front of it. */
  lemma {:induction false} ColumnsReordered(h: Heap, c: Column, d: Column, own: Uuid)
    requires Sized(h) && |h| == 1 && h[0].free == 40 && ColumnsIn(Records(h), own) == []
    requires c.tableId == d.tableId == own && |c.name| == 20 && |d.name| == 5
    ensures ColumnsIn(Records(InsertAll(h, ColumnRows([c, d]))), own) == [d, c]
  {
    hide RecordsFrom, ColumnsIn, Image, ColumnOf, ColumnBytes;
    var f, r, s := ColumnOf(own), ColumnBytes(c), ColumnBytes(d);
    var b := InsertRecord(h, r).heap;
    TwoRows(h, c, d);
    ColumnsAreImage(Records(h), own);
    ColumnsAreImage(Records(InsertRecord(b, s).heap), own);
    var x, y := ImageInserted(h, r, f);
    var u, v := ImageInserted(b, s, f);
    RecordsDone(h, 1, 0);
    RecordsStep(b, 1, 0);
    RecordsStep(b, 1, 1);
    RecordsDone(b, 2, 0);
    RowOfColumn(c, own);
    RowOfColumn(d, own);
    ImageOne(r, f);
    assert Shown(r) + [] == [r];
  }

  /** A record that does not fit on the only page goes to a new one. */
  lemma NewPageFor(h: Heap, d: Data)
    requires Sized(h) && |h| == 1 && !h[0].Fits(d) && Storable(d)
    ensures FirstFit(h, d) == 1 && InsertRecord(h, d).heap == h + [EMPTY_PAGE.Insert(d)]
  {
  }

  lemma {:induction false} TwoRows(h: Heap, c: Column, d: Column)
    requires Sized(h) && |h| == 1 && h[0].free == 40 && |c.name| == 20 && |d.name| == 5
    ensures var r, s := ColumnBytes(c), ColumnBytes(d);
            var b := InsertRecord(h, r).heap;
            && Storable(r) && Storable(s) && FirstFit(h, r) == 1 && FirstFit(b, s) == 0
            && |b| == 2 && b[1].slots == [r] && Sized(b)
            && InsertAll(h, ColumnRows([c, d])) == InsertRecord(b, s).heap
  {
    hide ColumnBytes, InsertRecord;
    var r, s := ColumnBytes(c), ColumnBytes(d);
    NewPageFor(h, r);
    TwoInserts(h, r, s);
    assert ColumnRows([c, d]) == [r, s];
  }

  lemma TwoInserts(h: Heap, d: Data, e: Data)
    ensures InsertAll(h, [d, e]) == InsertRecord(InsertRecord(h, d).heap, e).heap
  {
    hide InsertRecord;
    assert [d, e][..1] == [d] && [d][..0] == [];
    assert InsertAll(h, [d]) == InsertRecord(InsertAll(h, []), d).heap;
  }
}
