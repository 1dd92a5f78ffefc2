/** Which frames the pages of a scan land in, read off the pool before the scan; and from that, which
    scans lose no view. */
module ScanLanding {
  import opened Bytes
  import opened CacheSpec
  import opened CacheRuns
  import opened HeapSpec
  import opened ViewLifetime

  /** Where page `j` of the chain goes when the pages are used in order: it stays where it is cached,
      takes the next free frame while there are some, and then the clock's present choice. */
  ghost function Landing(c: Cache, chain: seq<int>, j: nat): nat
    requires c.Valid() && c.Swept().victim.Some? && j < |chain|
  {
    var missed := Misses(c, chain[..j]);
    if chain[j] in c.table then c.table[chain[j]]
    else if missed < |c.free| then c.free[|c.free| - 1 - missed]
    else c.Swept().victim.value
  }

  /** Another page has landed in page `i`'s frame before page `n`. */
  ghost predicate Displaced(c: Cache, chain: seq<int>, i: nat, n: nat)
    requires c.Valid() && c.Swept().victim.Some? && i < n <= |chain|
  {
    exists t :: i < t < n && Landing(c, chain, t) == Landing(c, chain, i)
  }

  /** The pool while the pages are used in order. */
  ghost predicate AsPlanned(c: Cache, chain: seq<int>, n: nat, d: Cache)
    requires c.Valid() && c.Swept().victim.Some? && n <= |chain|
  {
    forall i :: 0 <= i < n ==>
      (chain[i] in d.table <==> !Displaced(c, chain, i, n))
      && (chain[i] in d.table ==> d.table[chain[i]] == Landing(c, chain, i))
  }

  /** What the next page meets: free frames in order, or one frame reused. */
  lemma NextFrame(c: Cache, chain: seq<int>, n: nat)
    requires c.Valid() && c.HasRoom() && c.BitsFollowPins() && InRange(chain) && Distinct(chain) && n < |chain|
    ensures c.Swept().victim.Some?
    ensures var b, q := TouchAll(c, chain[..n]), chain[n];
            && b.BitsFollowPins() && b.HasRoom()
            && (q in b.table ==> b.table[q] == Landing(c, chain, n))
            && (q !in b.table && b.free != [] ==> b.free[|b.free| - 1] == Landing(c, chain, n))
            && (q !in b.table && b.free == [] ==> b.Swept().victim == Some(Landing(c, chain, n)))
  {
    hide Touch, TouchAll, Cache.Mapped, Cache.FreeApart, Misses;
    QuietSweep(c);
    UsesFollowBits(c, chain[..n]);
    var b, q := TouchAll(c, chain[..n]), chain[n];
    assert q !in chain[..n];
    if Misses(c, chain[..n]) <= |c.free| {
      NoEviction(c, chain[..n]);
      assert b.refs == c.refs;
    } else {
      OneFrameReused(c, chain[..n]);
      if q in b.table {
        OnlyUsed(c, chain[..n], q);
      }
      StillFirst(b, c.Swept().victim.value);
    }
  }

  /** The hand stands on the frame it gave out, which is unpinned again. */
  lemma StillFirst(b: Cache, v: nat)
    requires b.Valid() && b.BitsFollowPins() && b.hand == v && v < |b.pins| && b.pins[v] == 0
    ensures b.Swept().victim == Some(v)
  {
  }

  lemma NextFree(c: Cache, chain: seq<int>, n: nat, i: nat)
    requires c.Valid() && c.Swept().victim.Some? && i < n < |chain|
    ensures Displaced(c, chain, i, n + 1) <==> Displaced(c, chain, i, n) || Landing(c, chain, n) == Landing(c, chain, i)
  {
    hide Landing;
    if Landing(c, chain, n) == Landing(c, chain, i) {
      assert i < n < n + 1;
    }
  }

  /** The plan holds at every page. */
  lemma {:induction false} PlanHolds(c: Cache, chain: seq<int>, n: nat)
    requires c.Valid() && c.HasRoom() && c.BitsFollowPins() && InRange(chain) && Distinct(chain) && n <= |chain|
    ensures c.Swept().victim.Some? && AsPlanned(c, chain, n, TouchAll(c, chain[..n]))
  {
    hide Touch, TouchAll, Landing, Misses, Displaced, Cache.FreeApart;
    QuietSweep(c);
    if n > 0 {
      var m := n - 1;
      PlanHolds(c, chain, m);
      NextFrame(c, chain, m);
      assert chain[..n] == chain[..m] + [chain[m]];
      TouchNext(c, chain[..m], chain[m]);
      var b := TouchAll(c, chain[..m]);
      TouchEffect(b, chain[m]);
      var d := Touch(b, chain[m]);
      NoneBetween(c, chain, m);
      forall i | 0 <= i < n
        ensures (chain[i] in d.table <==> !Displaced(c, chain, i, n))
                && (chain[i] in d.table ==> d.table[chain[i]] == Landing(c, chain, i))
      {
        if i < m {
          NextFree(c, chain, m, i);
          assert chain[i] != chain[m];
        }
      }
    }
  }

  lemma NoneBetween(c: Cache, chain: seq<int>, m: nat)
    requires c.Valid() && c.Swept().victim.Some? && m < |chain|
    ensures !Displaced(c, chain, m, m + 1)
  {
  }

  // ----- scans without loss, read off the pool before the scan -----

  /** How far the step from the `k`-th of these places looks. */
  function Reach(chain: seq<int>, places: seq<Pos>, k: nat): (e: nat)
    requires k < |places| && InOrder(chain, places)
    ensures places[k].page < e <= |chain|
  {
    if k + 1 < |places| then places[k + 1].page + 1 else |chain|
  }

  /** No page that a step goes on to lands in the frame of the page it started from. */
  ghost predicate NoCollision(c: Cache, chain: seq<int>, places: seq<Pos>)
    requires c.Valid() && c.Swept().victim.Some? && InOrder(chain, places)
  {
    forall k, t :: 0 <= k < |places| && places[k].page < t < Reach(chain, places, k) ==>
      Landing(c, chain, t) != Landing(c, chain, places[k].page)
  }

  /** One step from the page used last. */
  lemma StepPlanned(c: Cache, chain: seq<int>, a: nat, e: nat)
    requires c.Valid() && c.HasRoom() && c.BitsFollowPins() && InRange(chain) && Distinct(chain) && a < e <= |chain|
    ensures var b := TouchAll(c, chain[..a + 1]);
            && c.Swept().victim.Some? && Touch(b, chain[a]) == b && b.BitsFollowPins()
            && TouchAll(b, chain[a..e]) == TouchAll(c, chain[..e])
            && (KeepsView(b, chain, a, e) <==> !Displaced(c, chain, a, e))
  {
    hide Touch, TouchAll, Landing, Misses, Displaced, Cache.FreeApart, KeepsView;
    var b := TouchAll(c, chain[..a + 1]);
    UsesFollowBits(c, chain[..a + 1]);
    PlanHolds(c, chain, a + 1);
    PlanHolds(c, chain, e);
    NoneBetween(c, chain, a);
    TouchEffect(b, chain[a]);
    StepKeepsView(b, chain, a, e);
    assert chain[..a + 1] + chain[a + 1..e] == chain[..e] && [chain[a]] + chain[a + 1..e] == chain[a..e];
    TouchAllAppends(c, chain[..a + 1], chain[a + 1..e]);
    TouchNone(b);
    TouchNext(b, [], chain[a]);
    assert [] + [chain[a]] == [chain[a]];
    TouchAllAppends(b, [chain[a]], chain[a + 1..e]);
  }

  lemma RestReach(chain: seq<int>, places: seq<Pos>)
    requires places != [] && InOrder(chain, places)
    ensures InOrder(chain, places[1..]) && Reach(chain, places, 0) == StepEnd(chain, places)
    ensures forall k :: 0 <= k < |places| - 1 ==> Reach(chain, places[1..], k) == Reach(chain, places, k + 1)
  {
  }

  lemma CollisionStep(c: Cache, chain: seq<int>, places: seq<Pos>)
    requires c.Valid() && c.Swept().victim.Some? && places != [] && InOrder(chain, places)
    ensures InOrder(chain, places[1..])
    ensures NoCollision(c, chain, places)
       <==> !Displaced(c, chain, places[0].page, StepEnd(chain, places)) && NoCollision(c, chain, places[1..])
  {
    hide Landing, Reach;
    RestReach(chain, places);
    forall k | 0 < k < |places|
      ensures places[k] == places[1..][k - 1] && Reach(chain, places, k) == Reach(chain, places[1..], k - 1)
    {
    }
    if NoCollision(c, chain, places) {
      forall k, t | 0 <= k < |places[1..]| && places[1..][k].page < t < Reach(chain, places[1..], k)
        ensures Landing(c, chain, t) != Landing(c, chain, places[1..][k].page)
      {
        assert places[1..][k] == places[k + 1];
      }
    }
  }

  lemma {:induction false} LosslessFrom(c: Cache, chain: seq<int>, places: seq<Pos>)
    requires c.Valid() && c.HasRoom() && c.BitsFollowPins() && InRange(chain) && Distinct(chain)
    requires InOrder(chain, places)
    ensures c.Swept().victim.Some?
    ensures Lossless(TouchAll(c, chain[..BeginEnd(chain, places)]), chain, places) <==> NoCollision(c, chain, places)
    decreases |places|
  {
    hide Touch, TouchAll, Landing, Misses, Displaced, Cache.FreeApart, Cache.Mapped, KeepsView, NoCollision;
    QuietSweep(c);
    if places != [] {
      var a, e := places[0].page, StepEnd(chain, places);
      StepPlanned(c, chain, a, e);
      CollisionStep(c, chain, places);
      LosslessFrom(c, chain, places[1..]);
    } else {
      Nothing(c, chain);
    }
  }

  lemma Nothing(c: Cache, chain: seq<int>)
    requires c.Valid() && c.Swept().victim.Some?
    ensures NoCollision(c, chain, [])
  {
  }

  /** A scan about to start loses no view exactly if, in the pool as it is now, no two pages that one
      step spans land in the same frame. */
  lemma LosslessNow(c: Cache, chain: seq<int>, places: seq<Pos>)
    requires c.Valid() && c.HasRoom() && c.BitsFollowPins() && InRange(chain) && Distinct(chain)
    requires InOrder(chain, places)
    ensures c.Swept().victim.Some? && (LosslessScan(c, chain, places) <==> NoCollision(c, chain, places))
  {
    hide Touch, TouchAll, Landing, Lossless, NoCollision;
    LosslessFrom(c, chain, places);
  }
}
