/** How long the view that an iterator step returns keeps showing its record. `Next` takes the view,
    releases the page and moves on before the caller reads. */
module ViewLifetime {
  import opened Bytes
  import opened CacheSpec
  import opened CacheRuns
  import opened Residency
  import opened HeapSpec
  import opened ScanSpec

  /** Page `p` is cached, in frame `i`. */
  predicate Stays(c: Cache, p: int, i: nat) {
    p in c.table && c.table[p] == i
  }

  /** The page at place `a` was just used; a step then looks on as far as place `e - 1`. Either the
      pages it goes on to do not miss more often than frames are free, or the clock would not pick
      this page's frame. */
  ghost predicate KeepsView(b: Cache, chain: seq<int>, a: nat, e: nat)
    requires b.Sized() && a < e <= |chain| && chain[a] in b.table
  {
    !(Misses(b, chain[a + 1..e]) > |b.free| && b.Swept().victim == Some(b.table[chain[a]]))
  }

  /** A step's view still shows its record after the step exactly under that condition. */
  lemma StepKeepsView(c: Cache, chain: seq<int>, a: nat, e: nat)
    requires c.Valid() && c.HasRoom() && c.BitsFollowPins()
    requires InRange(chain) && Distinct(chain) && a < e <= |chain|
    ensures var b := Touch(c, chain[a]);
            var d := TouchAll(b, chain[a..e]);
            && d.BitsFollowPins()
            && (Stays(d, chain[a], b.table[chain[a]]) <==> KeepsView(b, chain, a, e))
  {
    assert chain[a..e] == [chain[a]] + chain[a + 1..e];
    StaysAfterUse(c, chain[a], chain[a + 1..e]);
  }

  // ----- a whole scan -----

  predicate InOrder(chain: seq<int>, places: seq<Pos>) {
    && (forall k :: 0 <= k < |places| ==> places[k].page < |chain|)
    && (forall j, k :: 0 <= j < k < |places| ==> places[j].page <= places[k].page)
  }

  /** How far a step from the first of these places looks. */
  function StepEnd(chain: seq<int>, places: seq<Pos>): (e: nat)
    requires places != [] && InOrder(chain, places)
    ensures places[0].page < e <= |chain|
  {
    if |places| > 1 then places[1].page + 1 else |chain|
  }

  /** The pool after the step from the first of these places. */
  ghost function AfterStep(c: Cache, chain: seq<int>, places: seq<Pos>): (d: Cache)
    requires c.Valid() && c.HasRoom() && InRange(chain) && places != [] && InOrder(chain, places)
    ensures d.Valid() && d.HasRoom()
  {
    TouchAll(Touch(c, chain[places[0].page]), chain[places[0].page..StepEnd(chain, places)])
  }

  /** No step of the scan over these places loses its view: a condition on the pool before the scan. */
  ghost predicate Lossless(c: Cache, chain: seq<int>, places: seq<Pos>)
    requires c.Valid() && c.HasRoom() && InRange(chain) && InOrder(chain, places)
    decreases |places|
  {
    places != [] ==>
      && KeepsView(Touch(c, chain[places[0].page]), chain, places[0].page, StepEnd(chain, places))
      && Lossless(AfterStep(c, chain, places), chain, places[1..])
  }

  /** How far the start of a scan looks for the first of these places. */
  function BeginEnd(chain: seq<int>, places: seq<Pos>): (e: nat)
    requires InOrder(chain, places)
    ensures e <= |chain|
  {
    if places == [] then |chain| else places[0].page + 1
  }

  /** The same for a scan not yet started. */
  ghost predicate LosslessScan(c: Cache, chain: seq<int>, places: seq<Pos>)
    requires c.Valid() && c.HasRoom() && InRange(chain) && InOrder(chain, places)
  {
    Lossless(TouchAll(c, chain[..BeginEnd(chain, places)]), chain, places)
  }

  /** After every step, the frame the view was taken from still holds the record's page. */
  ghost predicate EveryViewStays(c: Cache, chain: seq<int>, places: seq<Pos>)
    requires c.Valid() && c.HasRoom() && InRange(chain) && InOrder(chain, places)
    decreases |places|
  {
    places != [] ==>
      var p := chain[places[0].page];
      && Stays(AfterStep(c, chain, places), p, Touch(c, p).table[p])
      && EveryViewStays(AfterStep(c, chain, places), chain, places[1..])
  }

  /** The condition is exact. */
  lemma {:induction false} LosslessExactly(c: Cache, chain: seq<int>, places: seq<Pos>)
    requires c.Valid() && c.HasRoom() && c.BitsFollowPins()
    requires InRange(chain) && Distinct(chain) && InOrder(chain, places)
    ensures Lossless(c, chain, places) <==> EveryViewStays(c, chain, places)
    decreases |places|
  {
    hide TouchAll, Touch, Cache.Valid, KeepsView, Misses;
    if places != [] {
      StepKeepsView(c, chain, places[0].page, StepEnd(chain, places));
      LosslessExactly(AfterStep(c, chain, places), chain, places[1..]);
    }
  }

  // ----- residency -----

  /** If the pages fit in the pool beside what is cached, no step of any scan over them loses its view,
      and they still fit afterwards. */
  lemma {:induction false} FitIsLossless(c: Cache, chain: seq<int>, places: seq<Pos>)
    requires AllFit(c, chain) && InOrder(chain, places)
    ensures Lossless(c, chain, places)
    decreases |places|
  {
    hide Cache.Valid, Touch, TouchAll, Misses, KeepsView;
    if places != [] {
      var a, e := places[0].page, StepEnd(chain, places);
      var b := Touch(c, chain[a]);
      FitTouch(c, chain, chain[a]);
      FitUses(b, chain, chain[a..e]);
      StepKeepsView(c, chain, a, e);
      FitIsLossless(AfterStep(c, chain, places), chain, places[1..]);
    }
  }

  /** What one step of a lossless scan does. */
  lemma LosslessStep(c: Cache, chain: seq<int>, places: seq<Pos>)
    requires c.Valid() && c.HasRoom() && c.BitsFollowPins()
    requires InRange(chain) && Distinct(chain) && InOrder(chain, places) && places != []
    requires Lossless(c, chain, places)
    ensures var p, d := chain[places[0].page], AfterStep(c, chain, places);
            && Stays(d, p, Touch(c, p).table[p])
            && d.BitsFollowPins() && Lossless(d, chain, places[1..])
            && (AllFit(c, chain) ==> AllFit(d, chain))
  {
    hide TouchAll, Touch, Cache.Valid, KeepsView, Misses;
    var a, e := places[0].page, StepEnd(chain, places);
    StepKeepsView(c, chain, a, e);
    if AllFit(c, chain) {
      FitTouch(c, chain, chain[a]);
      FitUses(Touch(c, chain[a]), chain, chain[a..e]);
    }
  }

  lemma FitIsLosslessScan(c: Cache, chain: seq<int>, places: seq<Pos>)
    requires AllFit(c, chain) && InOrder(chain, places)
    ensures LosslessScan(c, chain, places)
  {
    var uses := chain[..BeginEnd(chain, places)];
    FitUses(c, chain, uses);
    FitIsLossless(TouchAll(c, uses), chain, places);
  }

  /** The places of a scan are in page order. */
  lemma ScanInOrder(h: Heap, chain: seq<int>, i: nat, s: nat)
    requires |h| == |chain|
    ensures InOrder(chain, LiveFrom(h, i, s))
  {
    ScanExact(h, i, s);
    var l := LiveFrom(h, i, s);
    forall j, k | 0 <= j < k < |l|
      ensures l[j].page <= l[k].page
    {
      assert l[j].Before(l[k]);
    }
  }

  /** Then a view taken from `Get` also shows its record after any further uses of these pages. */
  lemma ResidentViews(c: Cache, chain: seq<int>, p: int, uses: seq<int>)
    requires AllFit(c, chain) && InRange(uses) && (forall k :: 0 <= k < |uses| ==> uses[k] in chain)
    requires p in c.table
    ensures Stays(TouchAll(c, uses), p, c.table[p]) && AllFit(TouchAll(c, uses), chain)
  {
    FitUses(c, chain, uses);
  }
}
