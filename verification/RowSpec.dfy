/** The stored rows of a heap in scan order, and what a run of inserts leaves to be scanned. */
module RowSpec {
  import opened Bytes
  import opened PageSpec
  import opened HeapSpec
  import opened ScanSpec
  import opened Codec

  /** The records at the given places. */
  function RecordsAt(h: Heap, places: seq<Pos>): (r: seq<Data>)
    requires forall k :: 0 <= k < |places| ==> HasSlot(h, places[k])
    ensures |r| == |places|
  {
    seq(|places|, k requires 0 <= k < |places| && HasSlot(h, places[k]) => h[places[k].page].slots[places[k].slot])
  }

  /** The live records at or after slot `s` of page `i`, in scan order. */
  function RecordsFrom(h: Heap, i: nat, s: nat): seq<Data>
    decreases |h| - i, if i < |h| then |h[i].slots| - s else 0
  {
    if i >= |h| then []
    else if s >= |h[i].slots| then RecordsFrom(h, i + 1, 0)
    else if h[i].Live(s) then [h[i].slots[s]] + RecordsFrom(h, i, s + 1)
    else RecordsFrom(h, i, s + 1)
  }

  function Records(h: Heap): seq<Data> {
    RecordsFrom(h, 0, 0)
  }

  lemma RecordsAtStep(h: Heap, pos: Pos, rest: seq<Pos>)
    requires HasSlot(h, pos) && forall k :: 0 <= k < |rest| ==> HasSlot(h, rest[k])
    ensures forall k :: 0 <= k < |[pos] + rest| ==> HasSlot(h, ([pos] + rest)[k])
    ensures RecordsAt(h, [pos] + rest) == [h[pos.page].slots[pos.slot]] + RecordsAt(h, rest)
  {
    var all := [pos] + rest;
    forall k | 0 <= k < |all|
      ensures HasSlot(h, all[k]) && (k > 0 ==> all[k] == rest[k - 1])
    {
    }
  }

  lemma RestRecords(h: Heap, places: seq<Pos>)
    requires places != [] && forall k :: 0 <= k < |places| ==> HasSlot(h, places[k])
    ensures forall k :: 0 <= k < |places[1..]| ==> HasSlot(h, places[1..][k])
    ensures RecordsAt(h, places[1..]) == RecordsAt(h, places)[1..]
  {
    assert forall k :: 0 <= k < |places[1..]| ==> places[1..][k] == places[k + 1];
  }

  /** The records at the places of the scan. */
  lemma {:induction false} ScannedRecords(h: Heap, i: nat, s: nat)
    ensures forall k :: 0 <= k < |LiveFrom(h, i, s)| ==> HasSlot(h, LiveFrom(h, i, s)[k])
    ensures RecordsAt(h, LiveFrom(h, i, s)) == RecordsFrom(h, i, s)
    decreases |h| - i, if i < |h| then |h[i].slots| - s else 0
  {
    hide RecordsAt;
    if i >= |h| {
    } else if s >= |h[i].slots| {
      ScannedRecords(h, i + 1, 0);
    } else {
      ScannedRecords(h, i, s + 1);
      if h[i].Live(s) {
        RecordsAtStep(h, Pos(i, s), LiveFrom(h, i, s + 1));
      }
    }
  }

  /** The records of a heap are those at the places of its scan. */
  lemma RecordsAreScanned(h: Heap)
    ensures |Records(h)| == |Scan(h)|
    ensures forall k :: 0 <= k < |Scan(h)| ==>
      HasSlot(h, Scan(h)[k]) && Records(h)[k] == h[Scan(h)[k].page].slots[Scan(h)[k].slot]
  {
    ScannedRecords(h, 0, 0);
  }

  // ----- where an inserted record appears in the scan -----

  lemma {:induction false} SameLaterPages(h: Heap, g: Heap, i: nat, s: nat)
    requires |h| == |g| && forall j :: i <= j < |h| ==> h[j].slots == g[j].slots
    ensures RecordsFrom(h, i, s) == RecordsFrom(g, i, s)
    decreases |h| - i, if i < |h| then |h[i].slots| - s else 0
  {
    if i >= |h| {
    } else if s >= |h[i].slots| {
      SameLaterPages(h, g, i + 1, 0);
    } else {
      SameLaterPages(h, g, i, s + 1);
    }
  }

  /** One step of the scan. */
  lemma RecordsStep(h: Heap, i: nat, s: nat)
    requires i < |h|
    ensures RecordsFrom(h, i, s) == if s >= |h[i].slots| then RecordsFrom(h, i + 1, 0)
                                    else Shown(h[i].slots[s]) + RecordsFrom(h, i, s + 1)
  {
  }

  lemma RecordsDone(h: Heap, i: nat, s: nat)
    requires |h| <= i
    ensures RecordsFrom(h, i, s) == []
  {
  }

  /** What a record adds to a scan: nothing if it is empty. */
  function Shown(d: Data): seq<Data> {
    if d == [] then [] else [d]
  }

  lemma InFront<T>(x: seq<T>, a: seq<T>, d: seq<T>, b: seq<T>)
    ensures x + (a + b) == x + a + b && x + (a + d + b) == x + a + d + b
  {
  }

  /** The scan from the new slot on. */
  lemma AppendedLast(h: Heap, k: nat, d: Data)
    requires k < |h| && h[k].Fits(d)
    ensures RecordsFrom(h, k, |h[k].slots|) == RecordsFrom(h, k + 1, 0)
    ensures RecordsFrom(h[k := h[k].Insert(d)], k, |h[k].slots|) == Shown(d) + RecordsFrom(h, k + 1, 0)
  {
    hide RecordsFrom;
    var g, s := h[k := h[k].Insert(d)], |h[k].slots|;
    RecordsStep(h, k, s);
    RecordsStep(g, k, s);
    RecordsStep(g, k, s + 1);
    SameLaterPages(h, g, k + 1, 0);
  }

  /** A record appended to page `k` is scanned right behind the page's other records. */
  lemma {:induction false} AppendedInScan(h: Heap, k: nat, d: Data, i: nat, s: nat) returns (before: seq<Data>)
    requires k < |h| && h[k].Fits(d)
    requires i < k || (i == k && s <= |h[k].slots|)
    ensures RecordsFrom(h, i, s) == before + RecordsFrom(h, k + 1, 0)
    ensures RecordsFrom(h[k := h[k].Insert(d)], i, s) == before + Shown(d) + RecordsFrom(h, k + 1, 0)
    decreases |h| - i, |h[i].slots| - s
  {
    hide RecordsFrom, Shown;
    if i == k && s == |h[k].slots| {
      AppendedLast(h, k, d);
      before := [];
    } else {
      RecordsStep(h, i, s);
      RecordsStep(h[k := h[k].Insert(d)], i, s);
      if s >= |h[i].slots| {
        before := AppendedInScan(h, k, d, i + 1, 0);
      } else {
        var x := Shown(h[i].slots[s]);
        before := AppendedInScan(h, k, d, i, s + 1);
        InFront(x, before, Shown(d), RecordsFrom(h, k + 1, 0));
        before := x + before;
      }
    }
  }

  /** A page without records at the end adds nothing. */
  lemma {:induction false} EmptyTail(h: Heap, v: PageView, i: nat, s: nat)
    requires v.slots == [] && i <= |h|
    ensures RecordsFrom(h + [v], i, s) == RecordsFrom(h, i, s)
    decreases |h| - i, if i < |h| then |h[i].slots| - s else 0
  {
    if i == |h| {
    } else if s >= |h[i].slots| {
      EmptyTail(h, v, i + 1, 0);
    } else {
      EmptyTail(h, v, i, s + 1);
    }
  }

  /** The records that an insert stores and a scan shows. */
  predicate Storable(d: Data) {
    d != [] && |d| <= MAX_RECORD
  }

  function Kept(d: Data): seq<Data> {
    if Storable(d) then [d] else []
  }

  lemma NothingYet()
    ensures Records([]) == [] && Records([EMPTY_PAGE]) == []
  {
    assert RecordsFrom([EMPTY_PAGE], 1, 0) == [];
  }

  /** An insert puts the record, if it can be stored, behind the records of the pages up to its own. */
  lemma InsertedRecord(h: Heap, d: Data) returns (before: seq<Data>, after: seq<Data>)
    requires Sized(h)
    ensures Records(h) == before + after
    ensures Records(InsertRecord(h, d).heap) == before + Kept(d) + after
    ensures InsertRecord(h, d).pos.Some? ==> after == RecordsFrom(h, InsertRecord(h, d).pos.value.page + 1, 0)
    ensures InsertRecord(h, d).pos.None? ==> after == []
  {
    var g := if h == [] then [EMPTY_PAGE] else h;
    NothingYet();
    assert Records(g) == Records(h);
    InsertChangesOne(h, d);
    var k := FirstFit(g, d);
    if k < |g| {
      before := AppendedInScan(g, k, d, 0, 0);
      after := RecordsFrom(g, k + 1, 0);
    } else {
      EmptyTail(g, EMPTY_PAGE, 0, 0);
      before, after := Records(g), [];
      if EMPTY_PAGE.Fits(d) {
        var e := g + [EMPTY_PAGE];
        var b := AppendedInScan(e, |g|, d, 0, 0);
        assert b == Records(g);
        assert e[|g| := EMPTY_PAGE.Insert(d)] == g + [EMPTY_PAGE.Insert(d)];
      }
    }
  }

  function InsertAll(h: Heap, ds: seq<Data>): Heap {
    if ds == [] then h else InsertRecord(InsertAll(h, ds[..|ds| - 1]), ds[|ds| - 1]).heap
  }

  function AllKept(ds: seq<Data>): seq<Data> {
    if ds == [] then [] else AllKept(ds[..|ds| - 1]) + Kept(ds[|ds| - 1])
  }

  lemma {:induction false} InsertAllSized(h: Heap, ds: seq<Data>)
    requires Sized(h)
    ensures Sized(InsertAll(h, ds))
  {
    if ds != [] {
      InsertAllSized(h, ds[..|ds| - 1]);
      InsertChangesOne(InsertAll(h, ds[..|ds| - 1]), ds[|ds| - 1]);
    }
  }

  /** After any run of inserts a scan shows the old records and the storable new ones, no more. */
  lemma {:induction false} RunScansAll(h: Heap, ds: seq<Data>)
    requires Sized(h)
    ensures multiset(Records(InsertAll(h, ds))) == multiset(Records(h)) + multiset(AllKept(ds))
  {
    if ds != [] {
      var front, d := ds[..|ds| - 1], ds[|ds| - 1];
      var b := InsertAll(h, front);
      InsertAllSized(h, front);
      RunScansAll(h, front);
      var before, after := InsertedRecord(b, d);
      assert multiset(before + Kept(d) + after) == multiset(before + after) + multiset(Kept(d));
    }
  }

  /** Every page but the last is too full for a record of `n` bytes. */
  predicate Packed(h: Heap, n: nat) {
    forall i :: 0 <= i < |h| - 1 ==> h[i].free < n + SLOT_SIZE
  }

  predicate NonDecreasing(ds: seq<Data>) {
    forall i, j :: 0 <= i < j < |ds| ==> |ds[i]| <= |ds[j]|
  }

  /** Inserting into a packed heap extends the scan at its end and leaves the heap packed. */
  lemma PackedInsert(h: Heap, d: Data)
    requires Sized(h) && Packed(h, |d|)
    ensures Packed(InsertRecord(h, d).heap, |d|)
    ensures Records(InsertRecord(h, d).heap) == Records(h) + Kept(d)
  {
    var g := if h == [] then [EMPTY_PAGE] else h;
    var k := FirstFit(g, d);
    var before, after := InsertedRecord(h, d);
    assert k >= |g| - 1;
    assert after == [];
  }

  /** Records of non-decreasing length come back in insertion order. */
  lemma {:induction false} RunScansInOrder(ds: seq<Data>)
    requires NonDecreasing(ds)
    ensures Records(InsertAll([EMPTY_PAGE], ds)) == AllKept(ds)
    ensures ds != [] ==> Packed(InsertAll([EMPTY_PAGE], ds), |ds[|ds| - 1]|)
  {
    if ds == [] {
      NothingYet();
    } else {
      var front, d := ds[..|ds| - 1], ds[|ds| - 1];
      RunScansInOrder(front);
      InsertAllSized([EMPTY_PAGE], front);
      PackedInsert(InsertAll([EMPTY_PAGE], front), d);
    }
  }

  /** Without that condition the order can change: a short record overtakes a long one. */
  lemma ShorterOvertakes(a: Data, b: Data, c: Data)
    requires |a| == |b| == 8000 && |c| == 100
    ensures Records(InsertAll([EMPTY_PAGE], [a, b, c])) == [a, c, b]
  {
    hide RecordsFrom, InsertAll;
    ThreeInserts(a, b, c);
    var h := [PageView([a, c], 72), PageView([b], 176)];
    RecordsStep(h, 0, 0);
    RecordsStep(h, 0, 1);
    RecordsStep(h, 0, 2);
    RecordsStep(h, 1, 0);
    RecordsStep(h, 1, 1);
    RecordsDone(h, 2, 0);
  }

  lemma LongInserts(a: Data, b: Data)
    requires |a| == |b| == 8000
    ensures InsertRecord([EMPTY_PAGE], a).heap == [PageView([a], 176)]
    ensures InsertRecord([PageView([a], 176)], b).heap == [PageView([a], 176), PageView([b], 176)]
  {
    assert EMPTY_PAGE.Insert(a) == PageView([a], 176) && EMPTY_PAGE.Insert(b) == PageView([b], 176);
    assert FirstFit([EMPTY_PAGE], a) == 0 && FirstFit([PageView([a], 176)], b) == 1;
  }

  lemma ShortInsert(a: Data, b: Data, c: Data)
    requires |c| == 100
    ensures InsertRecord([PageView([a], 176), PageView([b], 176)], c).heap == [PageView([a, c], 72), PageView([b], 176)]
  {
    assert PageView([a], 176).Insert(c) == PageView([a, c], 72);
    assert FirstFit([PageView([a], 176), PageView([b], 176)], c) == 0;
  }

  lemma ThreeInserts(a: Data, b: Data, c: Data)
    requires |a| == |b| == 8000 && |c| == 100
    ensures InsertAll([EMPTY_PAGE], [a, b, c]) == [PageView([a, c], 72), PageView([b], 176)]
  {
    hide InsertRecord;
    LongInserts(a, b);
    ShortInsert(a, b, c);
    assert [a, b, c][..2] == [a, b] && [a, b][..1] == [a] && [a][..0] == [];
    assert InsertAll([EMPTY_PAGE], [a]) == InsertRecord(InsertAll([EMPTY_PAGE], []), a).heap;
  }

  // ----- rows -----

  function DecodeRow(bytes: Data, schema: Schema): Option<seq<Value>>
    requires Known(schema)
  {
    match Decoded(bytes, schema) case None => None case Some(c) => Some(c.values)
  }

  function DecodeRows(ds: seq<Data>, schema: Schema): (r: seq<Option<seq<Value>>>)
    requires Known(schema)
    ensures |r| == |ds|
  {
    seq(|ds|, i requires 0 <= i < |ds| => DecodeRow(ds[i], schema))
  }

  function Encodings(rows: seq<seq<Value>>): (r: seq<Data>)
    ensures |r| == |rows|
  {
    seq(|rows|, i requires 0 <= i < |rows| => Encoded(rows[i]))
  }

  /** The rows whose encoding fits on a page, as they are read back. */
  function RowsKept(rows: seq<seq<Value>>): seq<Option<seq<Value>>> {
    if rows == [] then []
    else RowsKept(rows[..|rows| - 1])
         + if |Encoded(rows[|rows| - 1])| <= MAX_RECORD then [Some(AllCanonical(rows[|rows| - 1]))] else []
  }

  /** Those rows and no others, each where it was among the others. */
  lemma {:induction false} RowsKeptAre(rows: seq<seq<Value>>) returns (from: seq<nat>)
    ensures |from| == |RowsKept(rows)|
    ensures forall k :: 0 <= k < |from| ==>
      from[k] < |rows| && |Encoded(rows[from[k]])| <= 8176 && RowsKept(rows)[k] == Some(AllCanonical(rows[from[k]]))
    ensures forall j, k :: 0 <= j < k < |from| ==> from[j] < from[k]
    ensures forall i: nat :: i < |rows| && |Encoded(rows[i])| <= 8176 ==> i in from
  {
    hide Encoded, AllCanonical;
    from := [];
    if rows != [] {
      var last := |rows| - 1;
      from := RowsKeptAre(rows[..last]);
      if |Encoded(rows[last])| <= MAX_RECORD {
        from := from + [last];
        assert from[|from| - 1] == last;
      }
    }
  }

  predicate AllFitPage(rows: seq<seq<Value>>) {
    forall i :: 0 <= i < |rows| ==> |Encoded(rows[i])| <= MAX_RECORD
  }

  lemma {:induction false} AllRowsKept(rows: seq<seq<Value>>)
    requires AllFitPage(rows)
    ensures |RowsKept(rows)| == |rows|
    ensures forall i :: 0 <= i < |rows| ==> RowsKept(rows)[i] == Some(AllCanonical(rows[i]))
  {
    hide Encoded, AllCanonical;
    if rows != [] {
      AllRowsKept(rows[..|rows| - 1]);
    }
  }

  predicate AllRowsCarried(rows: seq<seq<Value>>, schema: Schema) {
    forall i :: 0 <= i < |rows| ==> AllCarried(rows[i], schema)
  }

  lemma RowReadsBack(row: seq<Value>, schema: Schema)
    requires Known(schema) && schema != [] && AllCarried(row, schema)
    ensures DecodeRow(Encoded(row), schema) == Some(AllCanonical(row)) && Encoded(row) != []
  {
    NotEmpty(row);
    RoundTrip(row, schema, []);
    assert Encoded(row) + [] == Encoded(row);
  }

  lemma {:induction false} KeptDecode(rows: seq<seq<Value>>, schema: Schema)
    requires Known(schema) && schema != [] && AllRowsCarried(rows, schema)
    ensures DecodeRows(AllKept(Encodings(rows)), schema) == RowsKept(rows)
  {
    hide DecodeRow, Encoded, AllCanonical, AllCarried;
    if rows != [] {
      var n := |rows| - 1;
      var front, row := rows[..n], rows[n];
      KeptDecode(front, schema);
      assert Encodings(rows)[..n] == Encodings(front);
      RowReadsBack(row, schema);
      assert AllKept(Encodings(rows)) == AllKept(Encodings(front)) + Kept(Encoded(row));
    }
  }

  lemma DecodeSplit(a: seq<Data>, d: Data, b: seq<Data>, schema: Schema)
    requires Known(schema)
    ensures multiset(DecodeRows(a + [d] + b, schema))
            == multiset(DecodeRows(a + b, schema)) + multiset{DecodeRow(d, schema)}
  {
    hide DecodeRow;
    assert DecodeRows(a + [d] + b, schema) == DecodeRows(a, schema) + [DecodeRow(d, schema)] + DecodeRows(b, schema);
    assert DecodeRows(a + b, schema) == DecodeRows(a, schema) + DecodeRows(b, schema);
  }

  lemma OneLess<T>(s: seq<T>, a: seq<T>, d: T, b: seq<T>)
    requires multiset([d] + s) == multiset(a + [d] + b)
    ensures multiset(s) == multiset(a + b)
  {
    assert multiset(s) == multiset([d] + s) - multiset{d};
    assert multiset(a + b) == multiset(a + [d] + b) - multiset{d};
  }

  /** Where a permutation puts the first element. */
  lemma FirstElsewhere<T>(s: seq<T>, t: seq<T>) returns (a: seq<T>, b: seq<T>)
    requires s != [] && multiset(s) == multiset(t)
    ensures t == a + [s[0]] + b && multiset(s[1..]) == multiset(a + b)
  {
    assert s[0] in multiset(t);
    var k :| 0 <= k < |t| && t[k] == s[0];
    a, b := t[..k], t[k + 1..];
    assert [s[0]] + s[1..] == s && a + [s[0]] + b == t;
    OneLess(s[1..], a, s[0], b);
  }

  /** Decoding row by row respects permutation. */
  lemma {:induction false} DecodePermuted(s: seq<Data>, t: seq<Data>, schema: Schema)
    requires Known(schema) && multiset(s) == multiset(t)
    ensures multiset(DecodeRows(s, schema)) == multiset(DecodeRows(t, schema))
    decreases |s|
  {
    hide DecodeRow, DecodeRows;
    if s == [] {
      assert |multiset(t)| == 0;
    } else {
      var a, b := FirstElsewhere(s, t);
      DecodePermuted(s[1..], a + b, schema);
      DecodeSplit([], s[0], s[1..], schema);
      DecodeSplit(a, s[0], b, schema);
      assert [] + [s[0]] + s[1..] == s && [] + s[1..] == s[1..];
    }
  }

  /** Rows inserted into a new table and scanned back: every row whose encoding fits on a page comes
      back once, and in insertion order if encoded lengths do not decrease. */
  lemma RowsComeBack(rows: seq<seq<Value>>, schema: Schema)
    requires Known(schema) && schema != [] && AllRowsCarried(rows, schema)
    ensures var back := DecodeRows(Records(InsertAll([EMPTY_PAGE], Encodings(rows))), schema);
            && multiset(back) == multiset(RowsKept(rows))
            && (NonDecreasing(Encodings(rows)) ==> back == RowsKept(rows))
  {
    hide DecodeRow, Encoded, AllCanonical, AllCarried, RecordsFrom;
    var ds := Encodings(rows);
    KeptDecode(rows, schema);
    RunScansAll([EMPTY_PAGE], ds);
    NothingYet();
    DecodePermuted(Records(InsertAll([EMPTY_PAGE], ds)), AllKept(ds), schema);
    if NonDecreasing(ds) {
      RunScansInOrder(ds);
    }
  }
}
