/** Volcano operators over a table, and the list functions they compute. The predicate and the
    projected columns are parameters, as in the source. */
module Operators {
  import opened Bytes
  import opened HeapSpec
  import opened ScanSpec
  import opened Codec
  import opened RowSpec
  import opened CacheSpec
  import opened CacheRuns
  import opened Residency
  import opened ViewLifetime
  import opened BufferManager
  import opened HeapFile
  import opened HeapIterator
  import opened Table
  import opened HeapChain
  import opened ShownRows

  // ----- the list functions -----

  function FilterRows(rows: seq<Tuple>, pred: Tuple -> bool): seq<Tuple> {
    if rows == [] then []
    else if pred(rows[0]) then [rows[0]] + FilterRows(rows[1..], pred)
    else FilterRows(rows[1..], pred)
  }

  /** The values at the 1-based positions in `cols`, in row order. */
  function ProjectFrom(values: seq<Value>, cols: set<nat>, k: nat): seq<Value>
    decreases |values| - k
  {
    if k >= |values| then []
    else if k + 1 in cols then [values[k]] + ProjectFrom(values, cols, k + 1)
    else ProjectFrom(values, cols, k + 1)
  }

  function ProjectRow(t: Tuple, cols: set<nat>, schema: Schema): Tuple {
    Tuple(ProjectFrom(t.values, cols, 0), schema)
  }

  function ProjectRows(rows: seq<Tuple>, cols: set<nat>, schema: Schema): (r: seq<Tuple>)
    ensures |r| == |rows|
  {
    seq(|rows|, i requires 0 <= i < |rows| => ProjectRow(rows[i], cols, schema))
  }

  function Take(rows: seq<Tuple>, n: nat): seq<Tuple> {
    if |rows| <= n then rows else rows[..n]
  }

  /** How many selected positions come before the value at `p`. */
  function Rank(cols: set<nat>, k: nat, p: nat): nat
    decreases p - k
  {
    if k >= p then 0 else (if k + 1 in cols then 1 else 0) + Rank(cols, k + 1, p)
  }

  /** A projection keeps exactly the selected positions, in row order. */
  lemma {:induction false} ProjectExact(values: seq<Value>, cols: set<nat>, k: nat, p: nat)
    requires k <= p <= |values|
    ensures |ProjectFrom(values, cols, k)| == Rank(cols, k, |values|)
    ensures p < |values| && p + 1 in cols ==>
      Rank(cols, k, p) < |ProjectFrom(values, cols, k)| && ProjectFrom(values, cols, k)[Rank(cols, k, p)] == values[p]
    decreases |values| - k
  {
    if k < |values| {
      ProjectExact(values, cols, k + 1, if k < p then p else k + 1);
    }
  }

  lemma {:induction false} RankCounts(cols: set<nat>, k: nat, p: nat)
    requires k <= p
    ensures Rank(cols, k, p) == |set c | c in cols && k < c <= p|
    decreases p - k
  {
    var chosen := set c | c in cols && k < c <= p;
    if k < p {
      RankCounts(cols, k + 1, p);
      var rest := set c | c in cols && k + 1 < c <= p;
      assert chosen == if k + 1 in cols then {k + 1} + rest else rest;
    } else {
      assert chosen == {};
    }
  }

  /** The row holds the values at the selected positions and no others, in order, under the schema. */
  ghost predicate IsProjection(row: Tuple, t: Tuple, cols: set<nat>, schema: Schema) {
    && row.schema == schema && |row.values| == Rank(cols, 0, |t.values|)
    && forall p: nat :: p < |t.values| && p + 1 in cols ==>
         Rank(cols, 0, p) < |row.values| && row.values[Rank(cols, 0, p)] == t.values[p]
  }

  lemma ProjectMeans(t: Tuple, cols: set<nat>, schema: Schema)
    ensures IsProjection(ProjectRow(t, cols, schema), t, cols, schema)
  {
    ProjectExact(t.values, cols, 0, |t.values|);
    forall p: nat | p < |t.values| && p + 1 in cols
      ensures Rank(cols, 0, p) < |ProjectFrom(t.values, cols, 0)|
      ensures ProjectFrom(t.values, cols, 0)[Rank(cols, 0, p)] == t.values[p]
    {
      ProjectExact(t.values, cols, 0, p);
    }
  }

  /** `kept` are the satisfying rows and no others, in order: those at the positions `from`. */
  ghost predicate Picks(kept: seq<Tuple>, from: seq<nat>, rows: seq<Tuple>, pred: Tuple -> bool) {
    && |kept| == |from|
    && (forall k :: 0 <= k < |from| ==> from[k] < |rows| && kept[k] == rows[from[k]] && pred(kept[k]))
    && (forall j, k :: 0 <= j < k < |from| ==> from[j] < from[k])
    && (forall i: nat :: i < |rows| && pred(rows[i]) ==> i in from)
  }

  lemma {:induction false} FilterLast(rows: seq<Tuple>, pred: Tuple -> bool)
    requires rows != []
    ensures FilterRows(rows, pred)
         == FilterRows(rows[..|rows| - 1], pred) + if pred(rows[|rows| - 1]) then [rows[|rows| - 1]] else []
  {
    var front := rows[..|rows| - 1];
    if front != [] {
      FilterLast(rows[1..], pred);
      assert front[1..] == rows[1..][..|rows| - 2];
    }
  }

  lemma PicksLast(kept: seq<Tuple>, from: seq<nat>, rows: seq<Tuple>, pred: Tuple -> bool)
    requires rows != [] && Picks(kept, from, rows[..|rows| - 1], pred)
    ensures var last := |rows| - 1;
            if pred(rows[last]) then Picks(kept + [rows[last]], from + [last], rows, pred)
            else Picks(kept, from, rows, pred)
  {
    var last := |rows| - 1;
    var from' := if pred(rows[last]) then from + [last] else from;
    forall i: nat | i < |rows| && pred(rows[i])
      ensures i in from'
    {
      if i < last {
        assert rows[..last][i] == rows[i];
        assert i in from;
      }
    }
  }

  /** A filter keeps the satisfying rows and no others, each where it was among the others. */
  lemma {:induction false} FilterMeans(rows: seq<Tuple>, pred: Tuple -> bool) returns (from: seq<nat>)
    ensures Picks(FilterRows(rows, pred), from, rows, pred)
  {
    if rows == [] {
      from := [];
    } else {
      var last := |rows| - 1;
      from := FilterMeans(rows[..last], pred);
      FilterLast(rows, pred);
      PicksLast(FilterRows(rows[..last], pred), from, rows, pred);
      from := if pred(rows[last]) then from + [last] else from;
    }
  }

  // ----- the rows of a table -----

  /** Every live record decodes under the schema; otherwise the code reads past the record. */
  ghost predicate Decodable(h: Heap, schema: Schema) {
    Known(schema) && forall pos: Pos :: Live(h, pos) ==> DecodeRow(h[pos.page].slots[pos.slot], schema).Some?
  }

  ghost function TupleAt(h: Heap, schema: Schema, pos: Pos): Tuple
    requires Decodable(h, schema) && Live(h, pos)
  {
    Tuple(DecodeRow(h[pos.page].slots[pos.slot], schema).value, schema)
  }

  ghost function TuplesAt(h: Heap, schema: Schema, places: seq<Pos>): (r: seq<Tuple>)
    requires Decodable(h, schema) && forall k :: 0 <= k < |places| ==> Live(h, places[k])
    ensures |r| == |places|
  {
    seq(|places|, k requires 0 <= k < |places| => TupleAt(h, schema, places[k]))
  }

  ghost function TableRows(h: Heap, schema: Schema): seq<Tuple>
    requires Decodable(h, schema)
  {
    var places := Scan(h);
    ScanExact(h, 0, 0);
    assert places == LiveFrom(h, 0, 0);
    TuplesAt(h, schema, places)
  }

  /** Every one of the records decodes; on others the code reads past the bytes. */
  predicate Decodes(ds: seq<Data>, schema: Schema) {
    Known(schema) && forall i :: 0 <= i < |ds| ==> DecodeRow(ds[i], schema).Some?
  }

  function TuplesOf(ds: seq<Data>, schema: Schema): (r: seq<Tuple>)
    requires Decodes(ds, schema)
    ensures |r| == |ds|
  {
    seq(|ds|, i requires 0 <= i < |ds| => Tuple(DecodeRow(ds[i], schema).value, schema))
  }

  // ----- the scan -----

  class SeqScanOp {
    const rel: UserTable
    const iter: HeapIterator

    /** The table is valid, and the pool is used by requests and releases only. */
    ghost predicate TableOk()
      reads rel.hf, rel.hf.bm.disk, rel.hf.bm.footprint
    {
      && iter.heap == rel.hf && rel.hf.Valid() && iter !in rel.hf.bm.footprint && Known(rel.schema)
      && rel.hf.bm.cache.Valid() && rel.hf.bm.cache.HasRoom() && rel.hf.bm.cache.BitsFollowPins()
      && InRange(rel.hf.chain)
    }

    /** The places from slot `t` of page `i` on, as a scan over the chain. */
    lemma PlacesOk(i: nat, t: nat)
      requires rel.hf.Valid()
      ensures var places := LiveFrom(rel.hf.Contents(), i, t);
              InOrder(rel.hf.chain, places) && OnPages(rel.hf.bm.store, rel.hf.chain, places)
    {
      ScanInOrder(rel.hf.Contents(), rel.hf.chain, i, t);
      ScanExact(rel.hf.Contents(), i, t);
      PlacesOnPages(rel.hf.bm.store, rel.hf.firstPage, rel.hf.chain, LiveFrom(rel.hf.Contents(), i, t));
    }

    /** What the views of a scan started now would show. */
    ghost function FromStart(): seq<Data>
      requires TableOk()
      reads rel.hf, rel.hf.bm.disk, rel.hf.bm.footprint
    {
      PlacesOk(0, 0);
      var places := Scan(rel.hf.Contents());
      var c := TouchAll(rel.hf.bm.cache, rel.hf.chain[..BeginEnd(rel.hf.chain, places)]);
      ShownRecords(rel.hf.bm.store, c, rel.hf.chain, places)
    }

    /** What the views of the rest of the scan will show. */
    ghost function Showing(): seq<Data>
      requires TableOk() && iter.Valid()
      reads iter, rel.hf, rel.hf.bm.disk, rel.hf.bm.footprint
    {
      PlacesOk(iter.at, iter.currSlot);
      ShownRecords(rel.hf.bm.store, rel.hf.bm.cache, rel.hf.chain, iter.Remaining())
    }

    /** The scan can be started: what its views would show decodes. */
    ghost predicate Ready()
      reads rel.hf, rel.hf.bm.disk, rel.hf.bm.footprint
    {
      TableOk() && Decodes(FromStart(), rel.schema)
    }

    /** Open, and what the views of the rest will show decodes. */
    ghost predicate Valid()
      reads iter, rel.hf, rel.hf.bm.disk, rel.hf.bm.footprint
    {
      TableOk() && iter.Valid() && Decodes(Showing(), rel.schema)
    }

    /** All pages of the table fit in the pool beside what is cached. */
    ghost predicate Resident()
      requires TableOk()
      reads rel.hf, rel.hf.bm.disk, rel.hf.bm.footprint
    {
      AllFit(rel.hf.bm.cache, rel.hf.chain)
    }

    /** The rows that a scan started now returns. */
    ghost function Rows(): seq<Tuple>
      requires Ready()
      reads rel.hf, rel.hf.bm.disk, rel.hf.bm.footprint
    {
      TuplesOf(FromStart(), rel.schema)
    }

    /** The rows that the rest of the scan returns. */
    ghost function Rest(): seq<Tuple>
      requires Valid()
      reads iter, rel.hf, rel.hf.bm.disk, rel.hf.bm.footprint
    {
      TuplesOf(Showing(), rel.schema)
    }

    /** No step of a scan started now loses its view, and the records decode. */
    ghost predicate Faithful()
      reads rel.hf, rel.hf.bm.disk, rel.hf.bm.footprint
    {
      && TableOk() && Decodable(rel.hf.Contents(), rel.schema)
      && InOrder(rel.hf.chain, Scan(rel.hf.Contents()))
      && LosslessScan(rel.hf.bm.cache, rel.hf.chain, Scan(rel.hf.Contents()))
    }

    constructor (rel: UserTable)
      requires rel.hf.Valid()
      ensures this.rel == rel && iter.heap == rel.hf && iter.Valid() && fresh(iter)
    {
      this.rel := rel;
      iter := new HeapIterator(rel.hf);
    }

    /** Then a scan started now returns the table's rows. */
    lemma FaithfulRows()
      requires Faithful()
      ensures Ready() && Rows() == TableRows(rel.hf.Contents(), rel.schema)
    {
      hide BufferManager.Valid, TouchAll, Touch, Cache.Valid, LiveFrom, Lossless, ShownRecords, Cache.BitsFollowPins;
      var h, chain, places := rel.hf.Contents(), rel.hf.chain, Scan(rel.hf.Contents());
      var uses := chain[..BeginEnd(chain, places)];
      PlacesOk(0, 0);
      ScanExact(h, 0, 0);
      UsesFollowBits(rel.hf.bm.cache, uses);
      LosslessShows(rel.hf.bm.store, rel.hf.firstPage, TouchAll(rel.hf.bm.cache, uses), chain, places);
    }

    /** A resident table can be scanned at any time. */
    lemma ResidentIsFaithful()
      requires TableOk() && Resident() && Decodable(rel.hf.Contents(), rel.schema)
      ensures Faithful()
    {
      rel.hf.Parts();
      ScanInOrder(rel.hf.Contents(), rel.hf.chain, 0, 0);
      FitIsLosslessScan(rel.hf.bm.cache, rel.hf.chain, Scan(rel.hf.Contents()));
    }

    method Open()
      requires Ready()
      modifies iter, rel.hf.bm.footprint, rel.hf.bm.disk`pages, rel.hf.bm.disk`numPages
      ensures Valid() && rel.hf.bm.store == old(rel.hf.bm.store) && Rest() == old(Rows())
      ensures rel.hf.Contents() == old(rel.hf.Contents())
      ensures old(Resident()) ==> Resident()
    {
      hide BufferManager.Valid, TouchAll, Touch, Cache.Valid, LiveFrom, ShownRecords, Decodes;
      ghost var c, h := rel.hf.bm.cache, rel.hf.Contents();
      PlacesOk(0, 0);
      ghost var touched;
      var begun;
      begun, touched := iter.Begin();
      rel.hf.Parts();
      SeenFirst();
      UsesFollowBits(c, touched);
      if AllFit(c, rel.hf.chain) {
        FitUses(c, rel.hf.chain, touched);
      }
    }

    /** The scan has looked as far as the page of its first remaining place. */
    lemma SeenFirst()
      requires iter.heap == rel.hf && iter.Valid() && InOrder(rel.hf.chain, iter.Remaining())
      ensures iter.Seen() == BeginEnd(rel.hf.chain, iter.Remaining())
    {
      iter.First();
    }

    /** The view of a step reads what the pool shows at its place. */
    static lemma StepReads(bm: BufferManager, first: int, c: Cache, chain: seq<int>, places: seq<Pos>, frame: nat,
                           view: Span, d: Data)
      requires bm.Valid() && IsChain(bm.store, first, chain)
      requires c.Valid() && c.HasRoom() && c.BitsFollowPins() && InRange(chain) && InOrder(chain, places)
      requires OnPages(bm.store, chain, places) && places != []
      requires bm.cache == AfterStep(c, chain, places)
      requires var p := chain[places[0].page]; frame == Touch(c, p).table[p]
      requires HeapIterator.Denotes(bm.store, bm.pool, view, frame, chain[places[0].page], places[0].slot, d)
      ensures view.InBounds() && view.Read() == ShownBytes(bm.store, c, chain, places)
    {
      hide Touch, TouchAll, Cache.FreeApart;
      var p, a := chain[places[0].page], places[0].page;
      var b, uses := Touch(c, p), chain[a..StepEnd(chain, places)];
      HeapIterator.ViewShows(bm, frame, p, places[0].slot, view, d);
      TouchEffect(c, p);
      FrameHolds(b, uses, frame);
      assert b.page[frame] == p;
      assert forall q :: q in uses ==> q in chain;
    }

    /** One step of the iterator, in terms of the places still to come. */
    method Advance() returns (rec: Record, ghost frame: nat)
      requires TableOk() && iter.Valid() && iter.hasNext
      requires InOrder(rel.hf.chain, iter.Remaining()) && iter.Remaining() != []
      requires OnPages(rel.hf.bm.store, rel.hf.chain, iter.Remaining())
      modifies iter, rel.hf.bm.footprint, rel.hf.bm.disk`pages, rel.hf.bm.disk`numPages
      ensures rel.hf.Valid() && iter.Valid() && rel.hf.bm.store == old(rel.hf.bm.store)
      ensures rel.hf.Contents() == old(rel.hf.Contents())
      ensures iter.Remaining() == old(iter.Remaining())[1..]
      ensures rel.hf.bm.cache == AfterStep(old(rel.hf.bm.cache), rel.hf.chain, old(iter.Remaining()))
      ensures rec.view.InBounds()
      ensures rec.view.Read()
           == ShownBytes(rel.hf.bm.store, old(rel.hf.bm.cache), rel.hf.chain, old(iter.Remaining()))
    {
      hide BufferManager.Valid, TouchAll, Touch, Cache.Valid, LiveFrom, HeapIterator.Denotes, ShownBytes, OnPages,
        Cache.BitsFollowPins;
      rel.hf.Parts();
      SeenFirst();
      iter.First();
      ghost var c, places, d := rel.hf.bm.cache, iter.Remaining(), rel.hf.Contents()[iter.at].slots[iter.currSlot];
      var r;
      r, frame := iter.Next();
      rel.hf.Parts();
      SeenFirst();
      rec := r.value.value;
      StepReads(rel.hf.bm, rel.hf.firstPage, c, rel.hf.chain, places, frame, rec.view, d);
    }

    /** What a step leaves of the pool. */
    lemma AfterStepOk(c: Cache, chain: seq<int>, places: seq<Pos>)
      requires c.Valid() && c.HasRoom() && c.BitsFollowPins() && InRange(chain) && places != []
      requires InOrder(chain, places)
      ensures AfterStep(c, chain, places).BitsFollowPins()
      ensures AllFit(c, chain) ==> AllFit(AfterStep(c, chain, places), chain)
    {
      hide TouchAll, Touch, Cache.Valid, Misses;
      var a, e := places[0].page, StepEnd(chain, places);
      TouchEffect(c, chain[a]);
      UsesFollowBits(Touch(c, chain[a]), chain[a..e]);
      if AllFit(c, chain) {
        FitTouch(c, chain, chain[a]);
        FitUses(Touch(c, chain[a]), chain, chain[a..e]);
      }
    }

    method Next() returns (r: Option<Tuple>)
      requires Valid()
      modifies iter, rel.hf.bm.footprint, rel.hf.bm.disk`pages, rel.hf.bm.disk`numPages
      ensures Valid() && rel.hf.bm.store == old(rel.hf.bm.store)
      ensures rel.hf.Contents() == old(rel.hf.Contents())
      ensures if old(Rest()) == [] then r == None && Rest() == []
              else r == Some(old(Rest())[0]) && Rest() == old(Rest())[1..]
      ensures old(Resident()) ==> Resident()
    {
      hide BufferManager.Valid, TouchAll, Touch, Cache.Valid, LiveFrom, ShownBytes, ShownRecords, AfterStep, AllFit,
        Cache.BitsFollowPins;
      iter.First();
      if !iter.HasNext() {
        return None;
      }
      rel.hf.Parts();
      PlacesOk(iter.at, iter.currSlot);
      ghost var c, places := rel.hf.bm.cache, iter.Remaining();
      AfterStepOk(c, rel.hf.chain, places);
      ShownStep(rel.hf.bm.store, c, rel.hf.chain, places);
      ghost var frame;
      var rec;
      rec, frame := Advance();
      PlacesOk(iter.at, iter.currSlot);
      r := rel.Decode(rec);
    }
  }

  // ----- operator trees -----

  /** A node of a plan: the virtual calls of the source dispatch on it. */
  datatype Operator =
    | SeqScan(scan: SeqScanOp)
    | Filter(filter: FilterOp)
    | Project(project: ProjectionOp)
    | Limit(limit: LimitOp)
  {

    ghost function Height(): nat {
      match this
      case SeqScan(_) => 0
      case Filter(f) => f.height
      case Project(p) => p.height
      case Limit(l) => l.height
    }

    /** The scan at the bottom. */
    ghost function Leaf(): SeqScanOp {
      match this
      case SeqScan(s) => s
      case Filter(f) => f.leaf
      case Project(p) => p.leaf
      case Limit(l) => l.leaf
    }

    /** The mutable objects of the tree. */
    ghost function Parts(): set<object> {
      match this
      case SeqScan(s) => {s.iter}
      case Filter(f) => f.parts
      case Project(p) => p.parts
      case Limit(l) => l.parts
    }

    /** Everything the tree's meaning depends on. */
    ghost function Frame(): set<object> {
      {Leaf().rel.hf, Leaf().rel.hf.bm.disk, Leaf().iter} + Leaf().rel.hf.bm.footprint + Parts()
    }

    /** `child` sits right below this node. */
    ghost predicate Over(child: Operator) {
      && child.Height() < Height() && child.Leaf() == Leaf() && child.Parts() <= Parts()
      && (Limit? ==> limit !in child.Parts())
    }

    ghost predicate Linked()
      decreases Height()
    {
      && Leaf().iter in Parts()
      && Parts() !! ({Leaf().rel.hf as object, Leaf().rel.hf.bm.disk} + Leaf().rel.hf.bm.footprint)
      && match this
         case SeqScan(_) => true
         case Filter(f) => Over(f.child) && f.child.Linked()
         case Project(p) => Over(p.child) && p.child.Linked()
         case Limit(l) => l in l.parts && Over(l.child) && l.child.Linked()
    }

    ghost predicate Sound()
      reads Frame()
    {
      Linked() && Leaf().TableOk()
    }

    /** The tree can be opened: what the scan at the bottom would show decodes. */
    ghost predicate Ready()
      reads Frame()
    {
      Sound() && Leaf().Ready()
    }

    /** The tree is open. */
    ghost predicate Active()
      reads Frame()
    {
      Sound() && Leaf().Valid()
    }

    ghost predicate Resident()
      requires Sound()
      reads Frame()
    {
      Leaf().Resident()
    }

    /** The list function that the tree stands for. */
    ghost function Of(rows: seq<Tuple>): seq<Tuple>
      requires Linked()
      decreases Height()
    {
      match this
      case SeqScan(s) => rows
      case Filter(f) => FilterRows(f.child.Of(rows), f.pred)
      case Project(p) => ProjectRows(p.child.Of(rows), p.cols, p.schema)
      case Limit(l) => Take(l.child.Of(rows), l.limit)
    }

    /** `res` is what the topmost operator makes of the rows below it, in counts and elements, when
        the scan at the bottom returns `rows`. */
    ghost predicate Makes(rows: seq<Tuple>, res: seq<Tuple>)
      requires Linked()
    {
      match this
      case SeqScan(_) => res == rows
      case Filter(f) => exists from :: Picks(res, from, f.child.Of(rows), f.pred)
      case Project(p) =>
        && |res| == |p.child.Of(rows)|
        && forall k :: 0 <= k < |res| ==> IsProjection(res[k], p.child.Of(rows)[k], p.cols, p.schema)
      case Limit(l) =>
        && |res| == (if |l.child.Of(rows)| < l.limit then |l.child.Of(rows)| else l.limit)
        && forall k :: 0 <= k < |res| ==> res[k] == l.child.Of(rows)[k]
    }

    /** Every tree's list function does so, one operator at a time. */
    lemma OfMakes(rows: seq<Tuple>)
      requires Linked()
      ensures Makes(rows, Of(rows))
    {
      match this
      case SeqScan(_) =>
      case Filter(f) =>
        var from := FilterMeans(f.child.Of(rows), f.pred);
        assert Picks(Of(rows), from, f.child.Of(rows), f.pred);
      case Project(p) =>
        forall k | 0 <= k < |p.child.Of(rows)|
          ensures IsProjection(Of(rows)[k], p.child.Of(rows)[k], p.cols, p.schema)
        {
          ProjectMeans(p.child.Of(rows)[k], p.cols, p.schema);
        }
      case Limit(l) =>
    }

    /** The rows of the whole tree, if it is opened now. */
    ghost function Rows(): (r: seq<Tuple>)
      requires Ready()
      reads Frame()
      ensures Makes(Leaf().Rows(), r)
    {
      OfMakes(Leaf().Rows());
      Of(Leaf().Rows())
    }

    /** The rows still to come. */
    ghost function Rest(): seq<Tuple>
      requires Active()
      reads Frame()
      decreases Height()
    {
      match this
      case SeqScan(s) => s.Rest()
      case Filter(f) => FilterRows(f.child.Rest(), f.pred)
      case Project(p) => ProjectRows(p.child.Rest(), p.cols, p.schema)
      case Limit(l) => if l.produced >= l.limit then [] else Take(l.child.Rest(), l.limit - l.produced)
    }

    method Open()
      requires Ready()
      modifies Parts(), Leaf().rel.hf.bm.footprint, Leaf().rel.hf.bm.disk`pages, Leaf().rel.hf.bm.disk`numPages
      ensures Active() && Leaf().rel.hf.bm.store == old(Leaf().rel.hf.bm.store)
      ensures Rest() == old(Rows())
      ensures old(Resident()) ==> Resident()
      decreases Height(), 1
    {
      match this
      case SeqScan(s) => s.Open();
      case Filter(f) => f.Open();
      case Project(p) => p.Open();
      case Limit(l) => l.Open();
    }

    method Next() returns (r: Option<Tuple>)
      requires Active()
      modifies Parts(), Leaf().rel.hf.bm.footprint, Leaf().rel.hf.bm.disk`pages, Leaf().rel.hf.bm.disk`numPages
      ensures Active() && Leaf().rel.hf.bm.store == old(Leaf().rel.hf.bm.store)
      ensures if old(Rest()) == [] then r == None && Rest() == []
              else r == Some(old(Rest())[0]) && Rest() == old(Rest())[1..]
      ensures old(Resident()) ==> Resident()
      decreases Height(), 1
    {
      match this
      case SeqScan(s) => r := s.Next();
      case Filter(f) =>
        ghost var skipped;
        r, skipped := f.Next();
      case Project(p) => r := p.Next();
      case Limit(l) => r := l.Next();
    }
  }

  class FilterOp {
    const child: Operator
    const pred: Tuple -> bool
    ghost const height: nat
    ghost const leaf: SeqScanOp
    ghost const parts: set<object>

    constructor (child: Operator, pred: Tuple -> bool)
      requires child.Linked()
      ensures this.child == child && this.pred == pred && Filter(this).Linked()
    {
      this.child, this.pred := child, pred;
      height, leaf, parts := child.Height() + 1, child.Leaf(), child.Parts();
    }

    method Open()
      requires Filter(this).Ready()
      modifies parts, leaf.rel.hf.bm.footprint, leaf.rel.hf.bm.disk`pages, leaf.rel.hf.bm.disk`numPages
      ensures Filter(this).Active() && leaf.rel.hf.bm.store == old(leaf.rel.hf.bm.store)
      ensures Filter(this).Rest() == old(Filter(this).Rows())
      ensures old(Filter(this).Resident()) ==> Filter(this).Resident()
      decreases height, 0
    {
      child.Open();
    }

    /** Pulls from the child until a row satisfies the predicate; the `skipped` ones do not. */
    method Next() returns (r: Option<Tuple>, ghost skipped: nat)
      requires Filter(this).Active()
      modifies parts, leaf.rel.hf.bm.footprint, leaf.rel.hf.bm.disk`pages, leaf.rel.hf.bm.disk`numPages
      ensures Filter(this).Active() && leaf.rel.hf.bm.store == old(leaf.rel.hf.bm.store)
      ensures if old(Filter(this).Rest()) == [] then r == None && Filter(this).Rest() == []
              else r == Some(old(Filter(this).Rest())[0]) && Filter(this).Rest() == old(Filter(this).Rest())[1..]
      ensures skipped <= |old(child.Rest())| && forall k :: 0 <= k < skipped ==> !pred(old(child.Rest())[k])
      ensures r.None? ==> skipped == |old(child.Rest())| && child.Rest() == []
      ensures r.Some? ==>
        && pred(r.value) && skipped < |old(child.Rest())| && r.value == old(child.Rest())[skipped]
        && child.Rest() == old(child.Rest())[skipped + 1..]
      ensures old(Filter(this).Resident()) ==> Filter(this).Resident()
      decreases height, 0
    {
      hide SeqScanOp.TableOk, SeqScanOp.Ready, SeqScanOp.Valid, SeqScanOp.Resident, SeqScanOp.Rest, SeqScanOp.Rows,
        HeapIterator.Valid, Decodes;
      skipped := 0;
      ghost var all := child.Rest();
      while true
        invariant child.Active() && leaf.rel.hf.bm.store == old(leaf.rel.hf.bm.store)
        invariant skipped <= |all| && child.Rest() == all[skipped..] && forall k :: 0 <= k < skipped ==> !pred(all[k])
        invariant old(child.Resident()) ==> child.Resident()
        invariant FilterRows(child.Rest(), pred) == old(FilterRows(child.Rest(), pred))
        decreases |child.Rest()|
      {
        var tup := child.Next();
        if tup.None? {
          return None, skipped;
        }
        if pred(tup.value) {
          return tup, skipped;
        }
        skipped := skipped + 1;
      }
    }
  }

  class ProjectionOp {
    const child: Operator
    const cols: set<nat>
    const schema: Schema
    ghost const height: nat
    ghost const leaf: SeqScanOp
    ghost const parts: set<object>

    constructor (child: Operator, cols: set<nat>, schema: Schema)
      requires child.Linked()
      ensures this.child == child && this.cols == cols && this.schema == schema && Project(this).Linked()
    {
      this.child, this.cols, this.schema := child, cols, schema;
      height, leaf, parts := child.Height() + 1, child.Leaf(), child.Parts();
    }

    method Open()
      requires Project(this).Ready()
      modifies parts, leaf.rel.hf.bm.footprint, leaf.rel.hf.bm.disk`pages, leaf.rel.hf.bm.disk`numPages
      ensures Project(this).Active() && leaf.rel.hf.bm.store == old(leaf.rel.hf.bm.store)
      ensures Project(this).Rest() == old(Project(this).Rows())
      ensures old(Project(this).Resident()) ==> Project(this).Resident()
      decreases height, 0
    {
      child.Open();
    }

    method Next() returns (r: Option<Tuple>)
      requires Project(this).Active()
      modifies parts, leaf.rel.hf.bm.footprint, leaf.rel.hf.bm.disk`pages, leaf.rel.hf.bm.disk`numPages
      ensures Project(this).Active() && leaf.rel.hf.bm.store == old(leaf.rel.hf.bm.store)
      ensures if old(Project(this).Rest()) == [] then r == None && Project(this).Rest() == []
              else r == Some(old(Project(this).Rest())[0]) && Project(this).Rest() == old(Project(this).Rest())[1..]
      ensures old(child.Rest()) == [] ==> r == None
      ensures old(child.Rest()) != [] ==>
        && r.Some? && IsProjection(r.value, old(child.Rest())[0], cols, schema)
        && child.Rest() == old(child.Rest())[1..]
      ensures old(Project(this).Resident()) ==> Project(this).Resident()
      decreases height, 0
    {
      hide SeqScanOp.TableOk, SeqScanOp.Ready, SeqScanOp.Valid, SeqScanOp.Resident, SeqScanOp.Rest, SeqScanOp.Rows,
        HeapIterator.Valid, Decodes;
      var tup := child.Next();
      if tup.None? {
        return None;
      }
      assert allocated(child.Frame());
      var row := ProjectTuple(tup.value);
      return Some(row);
    }

    /** Keeps the values whose 1-based position is selected. */
    method ProjectTuple(tup: Tuple) returns (row: Tuple)
      ensures row == ProjectRow(tup, cols, schema)
      ensures row.schema == schema && |row.values| == Rank(cols, 0, |tup.values|)
      ensures forall p: nat :: p < |tup.values| && p + 1 in cols ==>
        Rank(cols, 0, p) < |row.values| && row.values[Rank(cols, 0, p)] == tup.values[p]
    {
      ProjectMeans(tup, cols, schema);
      var projected := [];
      for idx := 0 to |tup.values|
        invariant projected + ProjectFrom(tup.values, cols, idx) == ProjectFrom(tup.values, cols, 0)
      {
        if idx + 1 in cols {
          projected := projected + [tup.values[idx]];
        }
      }
      return Tuple(projected, schema);
    }
  }

  class LimitOp {
    const child: Operator
    const limit: nat
    var produced: nat
    ghost var pulled: seq<Tuple>  // the rows of the child when it was opened
    ghost const height: nat
    ghost const leaf: SeqScanOp
    ghost const parts: set<object>

    constructor (child: Operator, limit: nat)
      requires child.Linked()
      ensures this.child == child && this.limit == limit && produced == 0 && Limit(this).Linked()
    {
      this.child, this.limit, produced := child, limit, 0;
      height, leaf, parts := child.Height() + 1, child.Leaf(), child.Parts() + {this};
    }

    /** Since it was opened the child has been pulled successfully as often as rows were produced,
        and never more than `limit` times. */
    ghost predicate Paced()
      requires Limit(this).Active()
      reads Limit(this).Frame()
    {
      produced <= limit && produced <= |pulled| && child.Rest() == pulled[produced..]
    }

    method Open()
      requires Limit(this).Ready()
      modifies parts, leaf.rel.hf.bm.footprint, leaf.rel.hf.bm.disk`pages, leaf.rel.hf.bm.disk`numPages
      ensures Limit(this).Active() && leaf.rel.hf.bm.store == old(leaf.rel.hf.bm.store)
      ensures Limit(this).Rest() == old(Limit(this).Rows())
      ensures old(Limit(this).Resident()) ==> Limit(this).Resident()
      ensures Paced() && produced == 0
      decreases height, 0
    {
      hide SeqScanOp.TableOk, SeqScanOp.Ready, SeqScanOp.Valid, SeqScanOp.Resident, SeqScanOp.Rest, SeqScanOp.Rows,
        HeapIterator.Valid, Decodes;
      ghost var rows := child.Rows();
      assert this !in child.Frame();
      produced := 0;
      assert child.Ready() && child.Rows() == rows && (old(child.Resident()) ==> child.Resident());
      child.Open();
      pulled := child.Rest();
      assert child.Active() && child.Rest() == pulled == rows;
    }

    /** What the child has still to give. */
    ghost function Supply(): seq<Tuple>
      requires Limit(this).Active()
      reads Limit(this).Frame()
    {
      child.Rest()
    }

    method Next() returns (r: Option<Tuple>)
      requires Limit(this).Active()
      modifies parts, leaf.rel.hf.bm.footprint, leaf.rel.hf.bm.disk`pages, leaf.rel.hf.bm.disk`numPages
      ensures Limit(this).Active() && leaf.rel.hf.bm.store == old(leaf.rel.hf.bm.store)
      ensures if old(Limit(this).Rest()) == [] then r == None && Limit(this).Rest() == []
              else r == Some(old(Limit(this).Rest())[0]) && Limit(this).Rest() == old(Limit(this).Rest())[1..]
      ensures old(Limit(this).Resident()) ==> Limit(this).Resident()
      ensures var all := old(Supply());
              if old(produced) < limit && all != [] then
                r == Some(all[0]) && Supply() == all[1..] && produced == old(produced) + 1
              else r == None && produced == old(produced)
      ensures old(Paced()) ==> Paced()
      ensures old(produced) >= limit ==> r == None && unchanged(leaf.iter) && unchanged(leaf.rel.hf.bm)
      decreases height, 0
    {
      hide SeqScanOp.TableOk, SeqScanOp.Ready, SeqScanOp.Valid, SeqScanOp.Resident, SeqScanOp.Rest, SeqScanOp.Rows,
        HeapIterator.Valid, Decodes;
      if produced >= limit {
        return None;
      }
      r := child.Next();
      if r.None? {
        return;
      }
      ghost var rest := child.Rest();
      assert this !in child.Frame();
      produced := produced + 1;
      assert child.Active() && child.Rest() == rest;
    }
  }

  // ----- draining -----

  /** Opens the plan, collects every row, and returns exactly the rows that the plan's list function
      makes of what the scan's views show in the pool as it is. */
  method ExecuteAndCollect(plan: Operator) returns (res: seq<Tuple>)
    requires plan.Ready()
    modifies plan.Parts(), plan.Leaf().rel.hf.bm.footprint, plan.Leaf().rel.hf.bm.disk`pages,
             plan.Leaf().rel.hf.bm.disk`numPages
    ensures plan.Active() && plan.Leaf().rel.hf.bm.store == old(plan.Leaf().rel.hf.bm.store)
    ensures res == old(plan.Rows()) && plan.Rest() == []
    ensures plan.Makes(old(plan.Leaf().Rows()), res)
    ensures old(plan.Resident()) ==> plan.Resident()
  {
    hide SeqScanOp.TableOk, SeqScanOp.Ready, SeqScanOp.Valid, SeqScanOp.Resident, SeqScanOp.Rest, SeqScanOp.Rows,
      HeapIterator.Valid, Decodes, Operator.Linked, Operator.Rest, Operator.Rows,
      Operator.Makes;
    res := [];
    plan.Open();
    while true
      invariant plan.Active() && plan.Leaf().rel.hf.bm.store == old(plan.Leaf().rel.hf.bm.store)
      invariant res + plan.Rest() == old(plan.Rows())
      invariant old(plan.Resident()) ==> plan.Resident()
      decreases |plan.Rest()|
    {
      var tup := plan.Next();
      if tup.None? {
        break;
      }
      res := res + [tup.value];
    }
  }
}
