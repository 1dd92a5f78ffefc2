/** When a set of pages fits in the pool beside what is cached, nothing is evicted while they are used. */
module Residency {
  import opened Bytes
  import opened CacheSpec
  import opened CacheRuns

  /** The pages that are not cached yet are no more than the free frames. */
  ghost predicate AllFit(c: Cache, pages: seq<int>) {
    && c.Valid() && c.HasRoom() && c.BitsFollowPins()
    && InRange(pages) && Distinct(pages) && Misses(c, pages) <= |c.free|
  }

  /** Everything cached in `c` is still in the same frame in `d`. */
  ghost predicate KeepsFrames(c: Cache, d: Cache) {
    forall p :: p in c.table ==> p in d.table && d.table[p] == c.table[p]
  }

  lemma {:induction false} MissesSame(c: Cache, d: Cache, ps: seq<int>, q: int)
    requires d.table.Keys == c.table.Keys + {q} && q !in ps
    ensures Misses(d, ps) == Misses(c, ps)
  {
    if ps != [] {
      MissesSame(c, d, ps[..|ps| - 1], q);
    }
  }

  lemma {:induction false} OneMissLess(c: Cache, d: Cache, ps: seq<int>, q: int)
    requires d.table.Keys == c.table.Keys + {q} && q !in c.table && q in ps && Distinct(ps)
    ensures Misses(d, ps) == Misses(c, ps) - 1
  {
    var front := ps[..|ps| - 1];
    if ps[|ps| - 1] == q {
      MissesSame(c, d, front, q);
    } else {
      OneMissLess(c, d, front, q);
    }
  }

  lemma FitTouch(c: Cache, pages: seq<int>, q: int)
    requires AllFit(c, pages) && q in pages
    ensures 0 <= q < I32_LIMIT
    ensures AllFit(Touch(c, q), pages) && KeepsFrames(c, Touch(c, q))
  {
    TouchEffect(c, q);
    if !c.Resident(q) {
      if c.free == [] {
        OneMissLess(c, c.(table := c.table[q := 0]), pages, q);
      }
      OneMissLess(c, Touch(c, q), pages, q);
    }
  }

  /** Uses of the pages keep every cached page in its frame, and the pages still fit. */
  lemma {:induction false} FitUses(c: Cache, pages: seq<int>, uses: seq<int>)
    requires AllFit(c, pages) && InRange(uses) && forall k :: 0 <= k < |uses| ==> uses[k] in pages
    ensures AllFit(TouchAll(c, uses), pages) && KeepsFrames(c, TouchAll(c, uses))
  {
    if uses != [] {
      var front := uses[..|uses| - 1];
      FitUses(c, pages, front);
      FitTouch(TouchAll(c, front), pages, uses[|uses| - 1]);
    }
  }
}
