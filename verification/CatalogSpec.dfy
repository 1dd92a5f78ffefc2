/** The catalog's rows, what its scans return, and why an insert cannot change an answer already given. */
module CatalogSpec {
  import opened Bytes
  import opened HeapSpec
  import opened Codec
  import opened RowSpec

  datatype TableInfo = TableInfo(tableId: Uuid, name: Data, fileId: Uuid, firstPage: i32)

  function StringBytes(s: Data): Data {
    U32Bytes(|s| % U32_LIMIT) + s
  }

  function TableBytes(t: TableInfo): (r: Data)
    ensures |r| == 40 + |t.name|
  {
    U32Bytes(Bits32(t.firstPage)) + t.fileId + t.tableId + StringBytes(t.name)
  }

  /** None where the code would read past the row. */
  function DecodeTable(b: Data): Option<TableInfo> {
    if |b| < 40 || |b| < 40 + U32At(b, 36) then None
    else Some(TableInfo(b[20..36], b[40..40 + U32At(b, 36)], b[4..20], I32At(b, 0)))
  }

  function ColumnBytes(c: Column): (r: Data)
    ensures |r| == 26 + |c.name|
  {
    StringBytes(c.name) + U16Bytes(c.ordinal) + c.tableId + U32Bytes(c.typeId)
  }

  function DecodeColumn(b: Data): Option<Column> {
    if |b| < 4 || |b| < 26 + U32At(b, 0) then None
    else
      var n := 4 + U32At(b, 0);
      Some(Column(b[n + 2..n + 18], b[4..n], U32At(b, n + 18), U16At(b, n)))
  }

  lemma TableReadsBack(t: TableInfo)
    requires |t.name| < U32_LIMIT
    ensures DecodeTable(TableBytes(t)) == Some(t)
  {
    hide U32At, U16At, U32Bytes, U16Bytes;
    var b := TableBytes(t);
    FieldReads(b, 0, U32Bytes(Bits32(t.firstPage)));
    FieldReads(b, 36, U32Bytes(|t.name|));
    assert b[20..36] == t.tableId && b[4..20] == t.fileId && b[40..40 + |t.name|] == t.name;
  }

  lemma ColumnReadsBack(c: Column)
    requires |c.name| < U32_LIMIT
    ensures DecodeColumn(ColumnBytes(c)) == Some(c)
  {
    hide U32At, U16At, U32Bytes, U16Bytes;
    var b, n := ColumnBytes(c), 4 + |c.name|;
    FieldReads(b, 0, U32Bytes(|c.name|));
    FieldReads(b, n, U16Bytes(c.ordinal));
    FieldReads(b, n + 18, U32Bytes(c.typeId));
    assert b[n + 2..n + 18] == c.tableId && b[4..n] == c.name;
  }

  // ----- the rows byte by byte -----

  /** A table row: page id, file id, table id, and the name behind its length. */
  lemma TableLayout(t: TableInfo)
    ensures var b := TableBytes(t);
            && |b| == 40 + |t.name|
            && IsLittleEndian(b[..4], if t.firstPage < 0 then t.firstPage + 4294967296 else t.firstPage)
            && b[4..20] == t.fileId && b[20..36] == t.tableId
            && IsLittleEndian(b[36..40], |t.name| % 4294967296) && b[40..] == t.name
  {
    hide U32Bytes;
    var b := TableBytes(t);
    LittleEndian(Bits32(t.firstPage));
    LittleEndian(|t.name| % U32_LIMIT);
    assert b[..4] == U32Bytes(Bits32(t.firstPage)) && b[36..40] == U32Bytes(|t.name| % U32_LIMIT);
  }

  /** A column row: the name behind its length, ordinal, table id and type id. */
  lemma ColumnLayout(c: Column)
    ensures var b, n := ColumnBytes(c), 4 + |c.name|;
            && |b| == 26 + |c.name|
            && IsLittleEndian(b[..4], |c.name| % 4294967296) && b[4..n] == c.name
            && b[n] as nat == c.ordinal % 256 && b[n + 1] as nat == c.ordinal / 256
            && b[n + 2..n + 18] == c.tableId && IsLittleEndian(b[n + 18..], c.typeId)
  {
    hide U32Bytes, U16Bytes;
    var b, n := ColumnBytes(c), 4 + |c.name|;
    LittleEndian(|c.name| % U32_LIMIT);
    LittleEndian(c.typeId);
    LittleEndian(c.ordinal);
    assert b[..4] == U32Bytes(|c.name| % U32_LIMIT) && b[n + 18..] == U32Bytes(c.typeId);
    assert b[n..n + 2] == U16Bytes(c.ordinal);
    assert b[n] == b[n..n + 2][0] && b[n + 1] == b[n..n + 2][1];
  }

  // ----- the scans -----

  /** The first row of that name. */
  function LookupIn(rows: seq<Data>, name: Data): Option<TableInfo> {
    if rows == [] then None
    else
      var t := DecodeTable(rows[0]);
      if t.Some? && t.value.name == name then t else LookupIn(rows[1..], name)
  }

  /** The columns of that table, in scan order. */
  function ColumnsIn(rows: seq<Data>, tableId: Uuid): Schema {
    if rows == [] then []
    else
      var c := DecodeColumn(rows[0]);
      (if c.Some? && c.value.tableId == tableId then [c.value] else []) + ColumnsIn(rows[1..], tableId)
  }

  lemma NoColumnsIn(tableId: Uuid)
    ensures ColumnsIn([], tableId) == []
  {
  }

  /** One row of the scan for columns. */
  lemma ColumnsStep(res: Schema, rows: seq<Data>, tableId: Uuid)
    requires rows != []
    ensures var c := DecodeColumn(rows[0]);
            var more := if c.Some? && c.value.tableId == tableId then res + [c.value] else res;
            res + ColumnsIn(rows, tableId) == more + ColumnsIn(rows[1..], tableId)
  {
    hide DecodeColumn;
  }

  lemma {:induction false} LookupSplit(a: seq<Data>, b: seq<Data>, name: Data)
    ensures LookupIn(a + b, name) == if LookupIn(a, name).Some? then LookupIn(a, name) else LookupIn(b, name)
  {
    if a == [] {
      assert a + b == b;
    } else {
      assert (a + b)[1..] == a[1..] + b;
      LookupSplit(a[1..], b, name);
    }
  }

  lemma {:induction false} ColumnsSplit(a: seq<Data>, b: seq<Data>, tableId: Uuid)
    ensures ColumnsIn(a + b, tableId) == ColumnsIn(a, tableId) + ColumnsIn(b, tableId)
  {
    if a == [] {
      assert a + b == b;
    } else {
      assert (a + b)[1..] == a[1..] + b;
      ColumnsSplit(a[1..], b, tableId);
    }
  }

  /** The answer to a lookup is the first row of that name, and there is none only if no row has it. */
  lemma {:induction false} LookupMeans(rows: seq<Data>, name: Data) returns (i: nat)
    ensures i <= |rows|
    ensures forall j :: 0 <= j < i ==> DecodeTable(rows[j]).None? || DecodeTable(rows[j]).value.name != name
    ensures LookupIn(rows, name).None? <==> i == |rows|
    ensures LookupIn(rows, name).Some? ==>
      LookupIn(rows, name) == DecodeTable(rows[i]) && LookupIn(rows, name).value.name == name
  {
    hide DecodeTable;
    if rows == [] {
      i := 0;
    } else {
      var t := DecodeTable(rows[0]);
      if t.Some? && t.value.name == name {
        i := 0;
      } else {
        var k := LookupMeans(rows[1..], name);
        i := k + 1;
        forall j | 0 <= j < i
          ensures DecodeTable(rows[j]).None? || DecodeTable(rows[j]).value.name != name
        {
          assert j > 0 ==> rows[j] == rows[1..][j - 1];
        }
      }
    }
  }

  /** The columns of a table are those of its rows, in the order of the rows: the places where they
      come from rise, and no other row is one of the table's. */
  lemma {:induction false} ColumnsMean(rows: seq<Data>, tableId: Uuid) returns (from: seq<nat>)
    ensures |from| == |ColumnsIn(rows, tableId)|
    ensures forall k :: 0 <= k < |from| ==>
      from[k] < |rows| && DecodeColumn(rows[from[k]]) == Some(ColumnsIn(rows, tableId)[k])
    ensures forall j, k :: 0 <= j < k < |from| ==> from[j] < from[k]
    ensures forall i :: 0 <= i < |rows| ==>
      (i in from <==> DecodeColumn(rows[i]).Some? && DecodeColumn(rows[i]).value.tableId == tableId)
  {
    hide DecodeColumn;
    if rows == [] {
      from := [];
    } else {
      var n := |rows| - 1;
      assert rows == rows[..n] + [rows[n]];
      ColumnsSplit(rows[..n], [rows[n]], tableId);
      NoColumnsIn(tableId);
      from := ColumnsMean(rows[..n], tableId);
      var c := DecodeColumn(rows[n]);
      if c.Some? && c.value.tableId == tableId {
        from := from + [n];
      }
    }
  }

  // ----- first fit and equal lengths -----

  /** No page in front of a record's page has room for it. Inserts keep this. */
  ghost predicate FirstFitted(h: Heap) {
    forall i, s, j :: 0 <= j < i < |h| && 0 <= s < |h[i].slots| ==> !h[j].Fits(h[i].slots[s])
  }

  lemma InsertFirstFitted(h: Heap, d: Data)
    requires Sized(h) && FirstFitted(h)
    ensures FirstFitted(InsertRecord(h, d).heap)
  {
    var g := if h == [] then [EMPTY_PAGE] else h;
    var k := FirstFit(g, d);
    var r := InsertRecord(h, d).heap;
    forall i, s, j | 0 <= j < i < |r| && 0 <= s < |r[i].slots|
      ensures !r[j].Fits(r[i].slots[s])
    {
      if i < |g| && s < |g[i].slots| {
        assert !g[j].Fits(g[i].slots[s]);
      }
    }
  }

  lemma {:induction false} LaterTooLong(h: Heap, k: nat, i: nat, s: nat)
    requires FirstFitted(h) && k < i
    ensures forall d :: d in RecordsFrom(h, i, s) ==> k < |h| && !h[k].Fits(d)
    decreases |h| - i, if i < |h| then |h[i].slots| - s else 0
  {
    hide RecordsFrom;
    if i < |h| {
      RecordsStep(h, i, s);
      if s >= |h[i].slots| {
        LaterTooLong(h, k, i + 1, 0);
      } else {
        LaterTooLong(h, k, i, s + 1);
        assert !h[k].Fits(h[i].slots[s]);
      }
    } else {
      RecordsDone(h, i, s);
    }
  }

  lemma {:induction false} FoundRow(rows: seq<Data>, name: Data) returns (d: Data)
    requires LookupIn(rows, name).Some?
    ensures d in rows && DecodeTable(d) == LookupIn(rows, name) && DecodeTable(d).value.name == name
  {
    var t := DecodeTable(rows[0]);
    if t.Some? && t.value.name == name {
      d := rows[0];
    } else {
      d := FoundRow(rows[1..], name);
    }
  }

  /** Every row is an encoded table row. */
  predicate TableRowsOnly(rows: seq<Data>) {
    forall i :: 0 <= i < |rows| ==> DecodeTable(rows[i]).Some? && |rows[i]| == 40 + |DecodeTable(rows[i]).value.name|
  }

  predicate ColumnRowsOnly(rows: seq<Data>) {
    forall i :: 0 <= i < |rows| ==> DecodeColumn(rows[i]).Some?
  }

  lemma TableRowsKept(h: Heap, t: TableInfo)
    requires Sized(h) && TableRowsOnly(Records(h))
    ensures TableRowsOnly(Records(InsertRecord(h, TableBytes(t)).heap))
  {
    hide RecordsFrom, DecodeTable, TableBytes;
    var before, after := InsertedRecord(h, TableBytes(t));
    var rows := before + Kept(TableBytes(t)) + after;
    if Storable(TableBytes(t)) {
      TableReadsBack(t);
    }
    forall i | 0 <= i < |rows|
      ensures DecodeTable(rows[i]).Some? && |rows[i]| == 40 + |DecodeTable(rows[i]).value.name|
    {
      assert rows[i] in before + after || rows[i] in Kept(TableBytes(t));
    }
  }

  lemma ColumnRowsKept(h: Heap, c: Column)
    requires Sized(h) && ColumnRowsOnly(Records(h))
    ensures ColumnRowsOnly(Records(InsertRecord(h, ColumnBytes(c)).heap))
  {
    hide RecordsFrom, DecodeColumn, ColumnBytes;
    var before, after := InsertedRecord(h, ColumnBytes(c));
    var rows := before + Kept(ColumnBytes(c)) + after;
    if Storable(ColumnBytes(c)) {
      ColumnReadsBack(c);
    }
    forall i | 0 <= i < |rows|
      ensures DecodeColumn(rows[i]).Some?
    {
      assert rows[i] in before + after || rows[i] in Kept(ColumnBytes(c));
    }
  }

  /** A lookup that has an answer keeps it when a row is inserted, even one of the same name: equal
      names have rows of equal length, and first fit never places the later one earlier. A lookup
      without an answer finds the new row exactly if the name is its own and the row can be stored. */
  lemma LookupStable(h: Heap, t: TableInfo, name: Data)
    requires Sized(h) && FirstFitted(h) && TableRowsOnly(Records(h))
    ensures var g := InsertRecord(h, TableBytes(t)).heap;
            LookupIn(Records(g), name)
            == if LookupIn(Records(h), name).Some? then LookupIn(Records(h), name)
               else if t.name == name && Storable(TableBytes(t)) then Some(t)
               else None
  {
    hide RecordsFrom, DecodeTable, TableBytes;
    var d := TableBytes(t);
    var before, after := InsertedRecord(h, d);
    var r := InsertRecord(h, d);
    InsertChangesOne(h, d);
    LookupSplit(before, after, name);
    LookupSplit(before + Kept(d), after, name);
    LookupSplit(before, Kept(d), name);
    if Storable(d) {
      TableReadsBack(t);
      assert LookupIn([], name) == None;
      assert LookupIn([d], name) == if t.name == name then Some(t) else None;
      if t.name == name && LookupIn(after, name).Some? {
        var e := FoundRow(after, name);
        var k := r.pos.value.page;
        LaterTooLong(h, k, k + 1, 0);
        assert e in before + after;
      }
    }
  }

  lemma ColumnsOne(c: Column, tableId: Uuid)
    ensures ColumnsIn(Kept(ColumnBytes(c)), tableId)
         == if Storable(ColumnBytes(c)) && c.tableId == tableId then [c] else []
  {
    hide DecodeColumn, ColumnBytes;
    assert ColumnsIn([], tableId) == [];
    if Storable(ColumnBytes(c)) {
      ColumnReadsBack(c);
    }
  }

  /** An inserted column row adds its column to the scan of its own table and leaves every other
      table's columns as they were. */
  lemma ColumnInserted(h: Heap, c: Column, tableId: Uuid)
    requires Sized(h)
    ensures var g := InsertRecord(h, ColumnBytes(c)).heap;
            && (c.tableId != tableId ==> ColumnsIn(Records(g), tableId) == ColumnsIn(Records(h), tableId))
            && (c.tableId == tableId ==>
                  multiset(ColumnsIn(Records(g), tableId))
                  == multiset(ColumnsIn(Records(h), tableId))
                     + if Storable(ColumnBytes(c)) then multiset{c} else multiset{})
  {
    hide RecordsFrom, ColumnsIn, ColumnBytes, InsertRecord;
    var d := ColumnBytes(c);
    var before, after := InsertedRecord(h, d);
    ColumnsSplit(before, after, tableId);
    ColumnsSplit(before + Kept(d), after, tableId);
    ColumnsSplit(before, Kept(d), tableId);
    ColumnsOne(c, tableId);
  }

  function ColumnRows(columns: seq<Column>): (r: seq<Data>)
    ensures |r| == |columns|
  {
    seq(|columns|, i requires 0 <= i < |columns| => ColumnBytes(columns[i]))
  }

  function StoredColumns(columns: seq<Column>): seq<Column> {
    if columns == [] then []
    else StoredColumns(columns[..|columns| - 1])
         + if Storable(ColumnBytes(columns[|columns| - 1])) then [columns[|columns| - 1]] else []
  }

  lemma {:induction false} StoredAmong(columns: seq<Column>)
    ensures forall c :: c in StoredColumns(columns) ==> c in columns
    ensures (forall i :: 0 <= i < |columns| ==> |columns[i].name| <= 8150) ==> StoredColumns(columns) == columns
  {
    hide ColumnBytes;
    if columns != [] {
      StoredAmong(columns[..|columns| - 1]);
      assert columns == columns[..|columns| - 1] + [columns[|columns| - 1]];
    }
  }

  predicate ColumnsOf(columns: seq<Column>, tableId: Uuid) {
    forall i :: 0 <= i < |columns| ==> columns[i].tableId == tableId
  }

  /** Storing a new table's columns leaves every other table's columns as they were; the new table's
      own come back, each once, in scan order. */
  lemma {:induction false} ColumnsStored(h: Heap, columns: seq<Column>, own: Uuid, tableId: Uuid)
    requires Sized(h) && ColumnsOf(columns, own)
    ensures var g := InsertAll(h, ColumnRows(columns));
            && Sized(g)
            && (tableId != own ==> ColumnsIn(Records(g), tableId) == ColumnsIn(Records(h), tableId))
            && (tableId == own ==>
                  multiset(ColumnsIn(Records(g), tableId))
                  == multiset(ColumnsIn(Records(h), tableId)) + multiset(StoredColumns(columns)))
  {
    hide RecordsFrom, ColumnsIn, ColumnBytes, InsertRecord;
    InsertAllSized(h, ColumnRows(columns));
    if columns != [] {
      var front, c := columns[..|columns| - 1], columns[|columns| - 1];
      ColumnsStored(h, front, own, tableId);
      assert ColumnRows(columns)[..|columns| - 1] == ColumnRows(front);
      ColumnInserted(InsertAll(h, ColumnRows(front)), c, tableId);
    }
  }

  // ----- the name cache -----

  /** What a table handle is built from. */
  datatype Handle = Handle(tableId: Uuid, fileId: Uuid, firstPage: int, schema: Schema)

  /** What a fresh lookup would build now. */
  function FreshHandle(tables: Heap, attributes: Heap, name: Data): Option<Handle> {
    match LookupIn(Records(tables), name)
    case None => None
    case Some(t) => Some(Handle(t.tableId, t.fileId, t.firstPage, ColumnsIn(Records(attributes), t.tableId)))
  }

  /** The id is in no row of either catalog. */
  ghost predicate Fresh(tables: Heap, attributes: Heap, id: Uuid) {
    && (forall d, t :: d in Records(tables) && DecodeTable(d) == Some(t) ==> t.tableId != id)
    && ColumnsIn(Records(attributes), id) == []
  }

  /** Creating a table with a fresh id changes no handle that a lookup could already build. */
  lemma HandlesStable(tables: Heap, attributes: Heap, t: TableInfo, columns: seq<Column>, name: Data)
    requires Sized(tables) && Sized(attributes) && FirstFitted(tables) && TableRowsOnly(Records(tables))
    requires Fresh(tables, attributes, t.tableId) && ColumnsOf(columns, t.tableId)
    requires FreshHandle(tables, attributes, name).Some?
    ensures FreshHandle(InsertRecord(tables, TableBytes(t)).heap, InsertAll(attributes, ColumnRows(columns)), name)
         == FreshHandle(tables, attributes, name)
  {
    hide RecordsFrom, DecodeTable, TableBytes, InsertAll, ColumnRows, InsertRecord;
    LookupStable(tables, t, name);
    var d := FoundRow(Records(tables), name);
    ColumnsStored(attributes, columns, t.tableId, LookupIn(Records(tables), name).value.tableId);
  }
}
