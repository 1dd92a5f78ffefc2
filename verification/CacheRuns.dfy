/** The pool over whole runs: what uses of pages leave unchanged, which states `request` and
    `release` can reach, and exactly when a page that was just released is still in its frame. */
module CacheRuns {
  import opened Bytes
  import opened ClockSpec
  import opened CacheSpec

  predicate InRange(ps: seq<int>) {
    forall k :: 0 <= k < |ps| ==> 0 <= ps[k] < I32_LIMIT
  }

  /** Every one of the requests finds a frame: some frame is unpinned, or the pages are all cached. */
  predicate Served(c: Cache, ps: seq<int>) {
    c.HasRoom() || forall k :: 0 <= k < |ps| ==> c.Resident(ps[k])
  }

  /** One balanced use of a page: request it, then release it. */
  ghost function Touch(c: Cache, pid: int): (d: Cache)
    requires c.Valid() && c.CanRequest(pid) && 0 <= pid < I32_LIMIT
    ensures d.Valid() && d.pins == c.pins && d.Resident(pid)
    ensures c.Resident(pid) ==> d.table == c.table
  {
    TouchKeeps(c, pid);
    c.Request(pid).Release(pid)
  }

  /** A balanced use leaves every pin count as it was. */
  lemma TouchKeeps(c: Cache, pid: int)
    requires c.Valid() && c.CanRequest(pid) && 0 <= pid < I32_LIMIT
    ensures c.Request(pid).Valid() && c.Request(pid).CanRelease(pid)
    ensures var d := c.Request(pid).Release(pid);
            d.Valid() && d.pins == c.pins && d.Resident(pid) && (c.Resident(pid) ==> d.table == c.table)
  {
    RequestKeeps(c, pid);
    RequestPins(c, pid);
    ReleaseKeeps(c.Request(pid), pid);
  }

  ghost function TouchAll(c: Cache, ps: seq<int>): (d: Cache)
    requires c.Valid() && InRange(ps) && Served(c, ps)
    ensures d.Valid() && d.pins == c.pins
    ensures c.HasRoom() || d.table == c.table
  {
    if ps == [] then c else Touch(TouchAll(c, ps[..|ps| - 1]), ps[|ps| - 1])
  }

  lemma TouchNone(c: Cache)
    requires c.Valid()
    ensures TouchAll(c, []) == c
  {
  }

  lemma TouchNext(c: Cache, ps: seq<int>, q: int)
    requires c.Valid() && InRange(ps) && Served(c, ps) && c.CanRequest(q) && 0 <= q < I32_LIMIT
    ensures TouchAll(c, ps).CanRequest(q) && InRange(ps + [q]) && Served(c, ps + [q])
    ensures TouchAll(c, ps + [q]) == Touch(TouchAll(c, ps), q)
  {
    assert (ps + [q])[..|ps + [q]| - 1] == ps;
  }

  /** Balanced uses do not change which requests succeed. */
  lemma StillServed(c: Cache, ps: seq<int>, q: int)
    requires c.Valid() && InRange(ps) && Served(c, ps)
    ensures TouchAll(c, ps).CanRequest(q) <==> c.CanRequest(q)
  {
  }

  lemma ServedPair(c: Cache, p: int, q: int)
    ensures Served(c, [p]) <==> c.CanRequest(p)
    ensures Served(c, [p, q]) <==> c.CanRequest(p) && c.CanRequest(q)
  {
    assert [p][0] == p && [p, q][0] == p && [p, q][1] == q;
  }

  /** Uses of some pages, then of the last one again and, if it can be had, of another page. */
  lemma UsesThenPair(c: Cache, ps: seq<int>, q: int)
    requires c.Valid() && InRange(ps) && Served(c, ps) && ps != [] && 0 <= q < I32_LIMIT
    ensures var b, last := TouchAll(c, ps), ps[|ps| - 1];
            var more := if c.CanRequest(q) then [last, q] else [last];
            && b.CanRequest(last) && (b.CanRequest(q) <==> c.CanRequest(q))
            && InRange(more) && Served(b, more) && InRange(ps + more) && Served(c, ps + more)
            && TouchAll(c, ps + more) == TouchAll(b, more)
  {
    hide Touch, TouchAll, Cache.Valid;
    var last := ps[|ps| - 1];
    StillServed(c, ps, q);
    StillServed(c, ps, last);
    ServedPair(c, last, q);
    TouchAllAppends(c, ps, if c.CanRequest(q) then [last, q] else [last]);
  }

  lemma {:induction false} TouchAllAppends(c: Cache, ps: seq<int>, qs: seq<int>)
    requires c.Valid() && InRange(ps) && InRange(qs) && Served(c, ps) && Served(c, qs)
    ensures InRange(ps + qs) && Served(c, ps + qs) && Served(TouchAll(c, ps), qs)
    ensures TouchAll(c, ps + qs) == TouchAll(TouchAll(c, ps), qs)
  {
    hide Cache.Valid, Touch;
    if qs == [] {
      assert ps + qs == ps;
    } else {
      var front := qs[..|qs| - 1];
      TouchAllAppends(c, ps, front);
      assert (ps + qs)[..|ps + qs| - 1] == ps + front;
    }
  }

  // ----- states reachable by requests and releases alone -----

  /** When bits follow pins, a sweep clears nothing and stops, within one turn, at the first
      unpinned frame. */
  lemma QuietSweep(c: Cache)
    requires c.Valid() && c.BitsFollowPins() && c.HasRoom()
    ensures c.Swept().victim.Some? && c.Swept().refs == c.refs
    ensures IsFirst(Unpinned(c.pins), c.hand, |c.pins|, c.Swept().victim.value)
    ensures RunSweep(c.pins, c.refs, c.hand, |c.pins|) == c.Swept()
  {
    assert Clear(c.pins, c.refs) == Unpinned(c.pins);
    VictimCharacterised(c.pins, c.refs, c.hand);
    var n := |c.pins|;
    var k := Distance(c.hand, c.Swept().victim.value, n);
    SkipAhead(c.pins, c.refs, c.hand, k, n);
    assert At(c.hand, k, n) == c.Swept().victim.value;
    assert Passed(c.pins, c.refs, c.hand, k) == c.refs;
  }

  lemma RequestBits(c: Cache, pid: int)
    requires c.Valid() && 0 <= pid < I32_LIMIT && c.CanRequest(pid) && c.BitsFollowPins()
    ensures c.Request(pid).BitsFollowPins()
  {
    if !c.Resident(pid) && c.free == [] {
      QuietSweep(c);
    }
  }

  lemma ReleaseBits(c: Cache, pid: int)
    requires c.Valid() && c.CanRelease(pid) && c.BitsFollowPins()
    ensures c.Release(pid).BitsFollowPins()
  {
  }

  datatype Use = Ask(pid: int) | Done(pid: int)

  /** Any sequence of calls; a call that fails changes nothing. */
  ghost function RunUses(c: Cache, uses: seq<Use>): (d: Cache)
    requires c.Valid()
    requires forall k :: 0 <= k < |uses| ==> 0 <= uses[k].pid < I32_LIMIT
    ensures d.Valid()
  {
    if uses == [] then c
    else
      var b := RunUses(c, uses[..|uses| - 1]);
      match uses[|uses| - 1]
      case Ask(pid) => if b.CanRequest(pid) then RequestKeeps(b, pid); b.Request(pid) else b
      case Done(pid) => if b.CanRelease(pid) then ReleaseKeeps(b, pid); b.Release(pid) else b
  }

  /** In every state a new pool reaches by requests and releases, the page table is a bijection
      with the loaded frames, the free stack holds the rest, and a bit is set exactly while its
      frame is pinned. */
  lemma {:induction false} ReachableStates(size: nat, uses: seq<Use>)
    requires 0 < size
    requires forall k :: 0 <= k < |uses| ==> 0 <= uses[k].pid < I32_LIMIT
    ensures EmptyCache(size).Valid()
    ensures RunUses(EmptyCache(size), uses).Valid() && RunUses(EmptyCache(size), uses).BitsFollowPins()
  {
    EmptyCacheValid(size);
    if uses != [] {
      var front := uses[..|uses| - 1];
      ReachableStates(size, front);
      var b := RunUses(EmptyCache(size), front);
      match uses[|uses| - 1]
      case Ask(pid) =>
        if b.CanRequest(pid) {
          RequestBits(b, pid);
        }
      case Done(pid) =>
        if b.CanRelease(pid) {
          ReleaseBits(b, pid);
        }
    }
  }

  // ----- when a released page is still in its frame -----

  /** The state after a balanced use, spelled out for states where bits follow pins. */
  lemma TouchEffect(c: Cache, q: int)
    requires c.Valid() && c.HasRoom() && c.BitsFollowPins() && 0 <= q < I32_LIMIT
    ensures Touch(c, q).BitsFollowPins()
    ensures c.Resident(q) ==> Touch(c, q) == c
    ensures !c.Resident(q) && c.free != [] ==>
      Touch(c, q) == c.PopFree().Assign(q, c.free[|c.free| - 1])
    ensures !c.Resident(q) && c.free == [] ==>
      c.Swept().victim.Some? && Touch(c, q) == c.Evict().Assign(q, c.Swept().victim.value)
  {
    TouchKeeps(c, q);
    RequestBits(c, q);
    ReleaseBits(c.Request(q), q);
    var d := Touch(c, q);
    assert d.refs == c.refs;
    if !c.Resident(q) && c.free == [] {
      QuietSweep(c);
    }
  }

  lemma {:induction false} UsesFollowBits(c: Cache, ps: seq<int>)
    requires c.Valid() && c.HasRoom() && c.BitsFollowPins() && InRange(ps)
    ensures TouchAll(c, ps).BitsFollowPins()
  {
    if ps != [] {
      UsesFollowBits(c, ps[..|ps| - 1]);
      TouchEffect(TouchAll(c, ps[..|ps| - 1]), ps[|ps| - 1]);
    }
  }

  /** What uses of pages keep: the pins, that bits follow them, and which requests succeed. */
  predicate Balanced(c: Cache, d: Cache) {
    d.pins == c.pins && (c.BitsFollowPins() ==> d.BitsFollowPins()) && (c.HasRoom() || d.table == c.table)
  }

  lemma UseBalanced(c: Cache, p: int)
    requires c.Valid() && c.CanRequest(p) && 0 <= p < I32_LIMIT
    ensures Balanced(c, Touch(c, p))
  {
    TouchKeeps(c, p);
    if c.BitsFollowPins() {
      RequestBits(c, p);
      ReleaseBits(c.Request(p), p);
    }
  }

  lemma {:induction false} UsesBalanced(c: Cache, ps: seq<int>)
    requires c.Valid() && InRange(ps) && Served(c, ps)
    ensures Balanced(c, TouchAll(c, ps))
  {
    hide Touch, Cache.Valid;
    if ps != [] {
      UsesBalanced(c, ps[..|ps| - 1]);
      UseBalanced(TouchAll(c, ps[..|ps| - 1]), ps[|ps| - 1]);
    }
  }

  /** How many of the pages are not cached. */
  function Misses(c: Cache, ps: seq<int>): (n: nat)
    ensures n <= |ps|
  {
    if ps == [] then 0
    else Misses(c, ps[..|ps| - 1]) + if ps[|ps| - 1] in c.table then 0 else 1
  }

  /** While the misses fit on the free stack, nothing is evicted. */
  lemma {:induction false} NoEviction(c: Cache, ps: seq<int>)
    requires c.Valid() && c.HasRoom() && c.BitsFollowPins() && InRange(ps) && Distinct(ps)
    requires Misses(c, ps) <= |c.free|
    ensures var d := TouchAll(c, ps);
            && d.BitsFollowPins() && d.hand == c.hand
            && |d.free| == |c.free| - Misses(c, ps) && d.free <= c.free
            && (forall p :: p in c.table ==> p in d.table && d.table[p] == c.table[p])
            && (forall p :: p in d.table <==> p in c.table || p in ps)
  {
    hide Cache.Valid, Touch;
    if ps != [] {
      var front, q := ps[..|ps| - 1], ps[|ps| - 1];
      NoEviction(c, front);
      assert q !in front;
      TouchEffect(TouchAll(c, front), q);
    }
  }

  /** Pages none of which is cached are all missed. */
  lemma {:induction false} AllMissed(c: Cache, ps: seq<int>)
    requires forall k :: 0 <= k < |ps| ==> !c.Resident(ps[k])
    ensures Misses(c, ps) == |ps|
  {
    if ps != [] {
      AllMissed(c, ps[..|ps| - 1]);
    }
  }

  /** Further uses of a cached page change nothing. */
  lemma {:induction false} SamePage(c: Cache, p: int, ps: seq<int>)
    requires c.Valid() && c.HasRoom() && c.BitsFollowPins() && c.Resident(p) && 0 <= p < I32_LIMIT
    requires forall k :: 0 <= k < |ps| ==> ps[k] == p
    ensures InRange(ps) && TouchAll(c, ps) == c
  {
    if ps != [] {
      SamePage(c, p, ps[..|ps| - 1]);
      TouchEffect(c, p);
    }
  }

  /** Uses bring in the pages used and no others. */
  lemma {:induction false} OnlyUsed(c: Cache, ps: seq<int>, q: int)
    requires c.Valid() && c.HasRoom() && c.BitsFollowPins() && InRange(ps)
    requires TouchAll(c, ps).Resident(q)
    ensures c.Resident(q) || q in ps
  {
    hide Cache.Valid, Touch;
    if ps != [] {
      var front, p := ps[..|ps| - 1], ps[|ps| - 1];
      UsesFollowBits(c, front);
      TouchEffect(TouchAll(c, front), p);
      assert p in ps && forall x :: x in front ==> x in ps;
      if q != p {
        OnlyUsed(c, front, q);
      }
    }
  }

  /** From `c` to `d`, pages `ps` have been used and frame `v` alone has been reused. */
  ghost predicate Reused(c: Cache, d: Cache, v: nat, ps: seq<int>) {
    && d.BitsFollowPins() && d.free == [] && d.hand == v
    && (forall p :: p in c.table && c.table[p] != v ==> p in d.table && d.table[p] == c.table[p])
    && (forall p :: p in c.table && c.table[p] == v && p !in ps ==> p !in d.table)
  }

  lemma FirstReuse(c: Cache, b: Cache, v: nat, ps: seq<int>, q: int)
    requires c.Valid() && b.Valid() && b.HasRoom() && b.BitsFollowPins() && b.free == [] && 0 <= q < I32_LIMIT
    requires b.Swept().victim == Some(v) && !b.Resident(q) && q !in c.table
    requires forall p :: p in c.table ==> p in b.table && b.table[p] == c.table[p]
    ensures Reused(c, Touch(b, q), v, ps + [q])
  {
    hide Cache.FreeApart;
    TouchEffect(b, q);
  }

  lemma NextReuse(c: Cache, b: Cache, v: nat, ps: seq<int>, q: int)
    requires c.Valid() && b.Valid() && b.HasRoom() && 0 <= q < I32_LIMIT
    requires v in Unpinned(b.pins) && Reused(c, b, v, ps)
    ensures Reused(c, Touch(b, q), v, ps + [q])
  {
    TouchEffect(b, q);
    assert b.Swept().victim == Some(v);
  }

  /** Once the misses exceed the free stack, the clock takes one frame and keeps reusing it. */
  lemma {:induction false} OneFrameReused(c: Cache, ps: seq<int>)
    requires c.Valid() && c.HasRoom() && c.BitsFollowPins() && InRange(ps) && Distinct(ps)
    requires Misses(c, ps) > |c.free|
    ensures c.Swept().victim.Some? && Reused(c, TouchAll(c, ps), c.Swept().victim.value, ps)
  {
    hide Touch, Reused;
    QuietSweep(c);
    var v := c.Swept().victim.value;
    var front, q := ps[..|ps| - 1], ps[|ps| - 1];
    var b := TouchAll(c, front);
    assert front + [q] == ps && q !in front;
    if Misses(c, front) > |c.free| {
      OneFrameReused(c, front);
      NextReuse(c, b, v, front, q);
    } else {
      NoEviction(c, front);
      assert b.refs == c.refs;
      FirstReuse(c, b, v, front, q);
    }
  }

  /** A cached page leaves its frame during later uses of other pages exactly when those miss more
      often than there are free frames and its frame is the one the clock would pick right now. */
  lemma StaysInFrame(c: Cache, p: int, qs: seq<int>)
    requires c.Valid() && c.HasRoom() && c.BitsFollowPins() && p in c.table
    requires InRange(qs) && Distinct(qs) && p !in qs
    ensures var d := TouchAll(c, qs);
            p in d.table && d.table[p] == c.table[p]
            <==> !(Misses(c, qs) > |c.free| && c.Swept().victim == Some(c.table[p]))
  {
    QuietSweep(c);
    if Misses(c, qs) > |c.free| {
      OneFrameReused(c, qs);
    } else {
      NoEviction(c, qs);
    }
  }

  /** The same for a page just used, and used once more before the others. */
  lemma StaysAfterUse(c: Cache, p: int, qs: seq<int>)
    requires c.Valid() && c.HasRoom() && c.BitsFollowPins() && 0 <= p < I32_LIMIT
    requires InRange(qs) && Distinct(qs) && p !in qs
    ensures var b := Touch(c, p);
            var d := TouchAll(b, [p] + qs);
            && d.BitsFollowPins()
            && (p in d.table && d.table[p] == b.table[p]
                <==> !(Misses(b, qs) > |b.free| && b.Swept().victim == Some(b.table[p])))
  {
    hide Touch, TouchAll, Cache.Valid;
    var b := Touch(c, p);
    TouchEffect(c, p);
    TouchEffect(b, p);
    TouchNone(b);
    TouchNext(b, [], p);
    assert [] + [p] == [p];
    TouchAllAppends(b, [p], qs);
    StaysInFrame(b, p, qs);
    if Misses(b, qs) > |b.free| {
      OneFrameReused(b, qs);
    } else {
      NoEviction(b, qs);
    }
  }

  /** In a full pool, a page that was just loaded is the next victim, however large the pool. */
  lemma LoadedThenLost(c: Cache, p: int, q: int)
    requires c.Valid() && c.HasRoom() && c.BitsFollowPins() && c.free == []
    requires 0 <= p < I32_LIMIT && 0 <= q < I32_LIMIT && p != q && !c.Resident(p)
    requires !Touch(c, p).Resident(q)
    ensures !Touch(Touch(c, p), q).Resident(p)
    ensures Touch(Touch(c, p), q).table[q] == Touch(c, p).table[p]
  {
    var d := Touch(c, p);
    TouchEffect(c, p);
    QuietSweep(c);
    assert d.pins[d.hand] == 0 && !d.refs[d.hand];
    TouchEffect(d, q);
  }

  /** Ids of other pages. */
  method OtherPages(count: nat, p: int, q: int) returns (ids: seq<int>)
    requires count + 2 <= I32_LIMIT
    ensures |ids| == count && InRange(ids) && Distinct(ids) && p !in ids && q !in ids
  {
    ids := [];
    var next := 0;
    while |ids| < count
      invariant |ids| <= count && InRange(ids) && Distinct(ids) && p !in ids && q !in ids
      invariant 0 <= next && forall k :: 0 <= k < |ids| ==> ids[k] < next
      invariant next <= |ids| + (if 0 <= p < next then 1 else 0) + (if 0 <= q < next && q != p then 1 else 0)
      decreases count + 2 - next, count - |ids|
    {
      if next != p && next != q {
        ids := ids + [next];
      }
      next := next + 1;
    }
  }
}
