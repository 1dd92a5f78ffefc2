/** What queries return: the list functions characterised, and rows from insert to result. */
module Query {
  import opened Bytes
  import opened HeapSpec
  import opened ScanSpec
  import opened Codec
  import opened RowSpec
  import opened Table
  import opened Operators

  /** A filter keeps exactly the rows that satisfy the predicate, as often as they occur. */
  lemma {:induction false} FilterExact(rows: seq<Tuple>, pred: Tuple -> bool, t: Tuple)
    ensures multiset(FilterRows(rows, pred))[t] == if pred(t) then multiset(rows)[t] else 0
  {
    if rows != [] {
      FilterExact(rows[1..], pred, t);
      assert rows == [rows[0]] + rows[1..];
    }
  }

  /** The scan's rows are the records it shows, decoded one by one under the schema. */
  lemma TuplesMean(ds: seq<Data>, schema: Schema)
    requires Decodes(ds, schema)
    ensures |TuplesOf(ds, schema)| == |ds|
    ensures forall k :: 0 <= k < |ds| ==>
      TuplesOf(ds, schema)[k].schema == schema && DecodeRow(ds[k], schema) == Some(TuplesOf(ds, schema)[k].values)
  {
  }

  /** A table's rows are its records in scan order, decoded. */
  lemma RowsAreRecords(h: Heap, schema: Schema)
    requires Decodable(h, schema)
    ensures |TableRows(h, schema)| == |Records(h)|
    ensures forall i :: 0 <= i < |Records(h)| ==>
      TableRows(h, schema)[i].schema == schema
      && DecodeRows(Records(h), schema)[i] == Some(TableRows(h, schema)[i].values)
  {
    ScanExact(h, 0, 0);
    ScannedRecords(h, 0, 0);
  }

  /** If every record decodes in the scan, every live record does. */
  lemma RecordsDecodable(h: Heap, schema: Schema)
    requires Known(schema) && forall i :: 0 <= i < |Records(h)| ==> DecodeRow(Records(h)[i], schema).Some?
    ensures Decodable(h, schema)
  {
    ScanExact(h, 0, 0);
    ScannedRecords(h, 0, 0);
    forall pos: Pos | Live(h, pos)
      ensures DecodeRow(h[pos.page].slots[pos.slot], schema).Some?
    {
      var k :| 0 <= k < |LiveFrom(h, 0, 0)| && LiveFrom(h, 0, 0)[k] == pos;
      assert Records(h)[k] == h[pos.page].slots[pos.slot];
    }
  }

  function OnlyValues(rows: seq<Tuple>): (r: seq<Option<seq<Value>>>)
    ensures |r| == |rows|
  {
    seq(|rows|, i requires 0 <= i < |rows| => Some(rows[i].values))
  }

  /** From insert to result: rows inserted into a new table and selected without condition come back,
      each that fits on a page once, and in insertion order if encoded lengths do not decrease. */
  lemma SelectAll(rows: seq<seq<Value>>, schema: Schema)
    requires Known(schema) && schema != [] && AllRowsCarried(rows, schema)
    ensures var h := InsertAll([EMPTY_PAGE], Encodings(rows));
            && Decodable(h, schema)
            && multiset(OnlyValues(TableRows(h, schema))) == multiset(RowsKept(rows))
            && (NonDecreasing(Encodings(rows)) ==> OnlyValues(TableRows(h, schema)) == RowsKept(rows))
  {
    hide RecordsFrom, DecodeRow, Encoded, InsertAll, TableRows, Decodable, AllRowsCarried, Known;
    var h := InsertAll([EMPTY_PAGE], Encodings(rows));
    var back := DecodeRows(Records(h), schema);
    RowsComeBack(rows, schema);
    KeptAreSome(rows);
    forall i | 0 <= i < |Records(h)|
      ensures DecodeRow(Records(h)[i], schema).Some?
    {
      assert back[i] in multiset(back);
      assert back[i] in multiset(RowsKept(rows));
    }
    RecordsDecodable(h, schema);
    RowsAreRecords(h, schema);
    assert OnlyValues(TableRows(h, schema)) == back;
  }

  lemma {:induction false} KeptAreSome(rows: seq<seq<Value>>)
    ensures forall r :: r in RowsKept(rows) ==> r.Some?
  {
    if rows != [] {
      KeptAreSome(rows[..|rows| - 1]);
    }
  }
}
