/** Any sequence of page uses, repeated pages included: each frame ends up holding the last page that
    landed in it, where a page lands being fixed by the pool before the uses. */
module UsesLanding {
  import opened Bytes
  import opened CacheSpec
  import opened CacheRuns
  import opened Residency
  import opened ViewLifetime
  import opened ScanLanding

  /** The pages used, each once, in the order of their first use. */
  function Firsts(ps: seq<int>): seq<int> {
    if ps == [] then []
    else
      var f, q := Firsts(ps[..|ps| - 1]), ps[|ps| - 1];
      if q in f then f else f + [q]
  }

  lemma {:induction false} FirstsOf(ps: seq<int>)
    ensures Distinct(Firsts(ps)) && forall q :: q in Firsts(ps) <==> q in ps
  {
    if ps != [] {
      FirstsOf(ps[..|ps| - 1]);
      assert ps == ps[..|ps| - 1] + [ps[|ps| - 1]];
    }
  }

  function IndexIn(s: seq<int>, q: int): (i: nat)
    requires q in s
    ensures i < |s| && s[i] == q
  {
    if s[0] == q then 0 else 1 + IndexIn(s[1..], q)
  }

  lemma {:induction false} IndexStays(s: seq<int>, t: seq<int>, q: int)
    requires q in s && s <= t
    ensures IndexIn(t, q) == IndexIn(s, q)
  {
    if s[0] != q {
      IndexStays(s[1..], t[1..], q);
    }
  }

  /** Where page `q` lands whenever it is used. */
  ghost function Land(c: Cache, fs: seq<int>, q: int): nat
    requires c.Valid() && c.Swept().victim.Some? && q in fs
  {
    Landing(c, fs, IndexIn(fs, q))
  }

  lemma LandStays(c: Cache, fs: seq<int>, gs: seq<int>, q: int)
    requires c.Valid() && c.Swept().victim.Some? && q in fs && fs <= gs
    ensures q in gs && Land(c, gs, q) == Land(c, fs, q)
  {
    IndexStays(fs, gs, q);
    var j := IndexIn(fs, q);
    assert gs[j] == fs[j] && gs[..j] == fs[..j];
  }

  /** What frame `i` holds after the uses: the last page that landed there, or what it held. */
  ghost function Held(c: Cache, fs: seq<int>, uses: seq<int>, i: nat): int
    requires c.Valid() && c.Swept().victim.Some? && i < |c.page| && forall q :: q in uses ==> q in fs
  {
    if uses == [] then c.page[i]
    else if Land(c, fs, uses[|uses| - 1]) == i then uses[|uses| - 1]
    else Held(c, fs, uses[..|uses| - 1], i)
  }

  lemma {:induction false} HeldStays(c: Cache, fs: seq<int>, gs: seq<int>, uses: seq<int>, i: nat)
    requires c.Valid() && c.Swept().victim.Some? && i < |c.page| && fs <= gs && forall q :: q in uses ==> q in fs
    ensures (forall q :: q in uses ==> q in gs) && Held(c, gs, uses, i) == Held(c, fs, uses, i)
  {
    hide Land;
    forall q | q in uses
      ensures q in gs
    {
      LandStays(c, fs, gs, q);
    }
    if uses != [] {
      LandStays(c, fs, gs, uses[|uses| - 1]);
      HeldStays(c, fs, gs, uses[..|uses| - 1], i);
    }
  }

  /** A frame holds a page that landed there or that was there before. */
  lemma {:induction false} HeldLands(c: Cache, fs: seq<int>, uses: seq<int>, i: nat)
    requires c.Valid() && c.Swept().victim.Some? && i < |c.page| && forall q :: q in uses ==> q in fs
    ensures var q := Held(c, fs, uses, i); (q in uses && q in fs && Land(c, fs, q) == i) || q == c.page[i]
  {
    hide Land;
    if uses != [] && Land(c, fs, uses[|uses| - 1]) != i {
      HeldLands(c, fs, uses[..|uses| - 1], i);
    }
  }

  /** If only page `q` lands in a frame, the frame holds it once it was used. */
  lemma {:induction false} OnlyLanding(c: Cache, fs: seq<int>, uses: seq<int>, i: nat, q: int)
    requires c.Valid() && c.Swept().victim.Some? && i < |c.page| && (forall p :: p in uses ==> p in fs)
    requires q in uses && Land(c, fs, q) == i && forall p :: p in uses && Land(c, fs, p) == i ==> p == q
    ensures Held(c, fs, uses, i) == q
  {
    hide Land;
    var n := |uses| - 1;
    if Land(c, fs, uses[n]) != i {
      assert uses == uses[..n] + [uses[n]];
      OnlyLanding(c, fs, uses[..n], i, q);
    }
  }

  lemma {:induction false} MoreMissed(c: Cache, fs: seq<int>, j: nat, k: nat)
    requires j < k <= |fs| && !c.Resident(fs[j])
    ensures Misses(c, fs[..j]) < Misses(c, fs[..k])
  {
    assert fs[..k][..k - 1] == fs[..k - 1];
    if j < k - 1 {
      MoreMissed(c, fs, j, k - 1);
    }
  }

  /** Different pages land in different frames, the clock's choice aside. */
  lemma LandUnique(c: Cache, fs: seq<int>, p: int, q: int)
    requires c.Valid() && c.Swept().victim.Some? && p in fs && q in fs
    requires Land(c, fs, p) == Land(c, fs, q) != c.Swept().victim.value
    ensures p == q
  {
    hide Cache.Swept;
    var j, k := IndexIn(fs, p), IndexIn(fs, q);
    if !c.Resident(p) && !c.Resident(q) && j < k {
      MoreMissed(c, fs, j, k);
    } else if !c.Resident(p) && !c.Resident(q) && k < j {
      MoreMissed(c, fs, k, j);
    }
  }

  // ----- the free frames while pages are used -----

  /** From `c` to `b`, pages `ps` have been used and nothing was evicted. */
  ghost predicate Filled(c: Cache, b: Cache, ps: seq<int>) {
    var missed := Misses(c, Firsts(ps));
    && missed <= |c.free| && b.free == c.free[..|c.free| - missed] && b.hand == c.hand && b.BitsFollowPins()
    && KeepsFrames(c, b) && forall p :: p in b.table <==> p in c.table || p in ps
  }

  /** Free frames are taken in order; once they are gone, the clock's present choice is reused. */
  lemma {:induction false} FilledOrReused(c: Cache, ps: seq<int>)
    requires c.Valid() && c.HasRoom() && c.BitsFollowPins() && InRange(ps)
    ensures c.Swept().victim.Some?
    ensures Misses(c, Firsts(ps)) <= |c.free| ==> Filled(c, TouchAll(c, ps), ps)
    ensures Misses(c, Firsts(ps)) > |c.free| ==> Reused(c, TouchAll(c, ps), c.Swept().victim.value, ps)
  {
    hide Touch, Cache.FreeApart, Reused, Filled, Misses;
    QuietSweep(c);
    if ps == [] {
      FilledNone(c);
    } else {
      var front, q := ps[..|ps| - 1], ps[|ps| - 1];
      FilledOrReused(c, front);
      FirstsOf(front);
      UsesFollowBits(c, front);
      assert front + [q] == ps;
      if Misses(c, Firsts(front)) <= |c.free| {
        FillNext(c, TouchAll(c, front), front, q);
      } else {
        MissedNext(c, front, q);
        NextReuse(c, TouchAll(c, front), c.Swept().victim.value, front, q);
      }
    }
  }

  lemma FilledNone(c: Cache)
    requires c.Valid() && c.BitsFollowPins()
    ensures Misses(c, Firsts([])) == 0 && Filled(c, c, [])
  {
  }

  /** One more page, first used or not. */
  lemma MissedNext(c: Cache, ps: seq<int>, q: int)
    ensures Misses(c, Firsts(ps + [q])) == Misses(c, Firsts(ps)) + if q in Firsts(ps) || c.Resident(q) then 0 else 1
  {
    assert (ps + [q])[..|ps|] == ps;
    var f := Firsts(ps);
    assert (f + [q])[..|f|] == f;
  }

  lemma FillNext(c: Cache, b: Cache, ps: seq<int>, q: int)
    requires c.Valid() && b.Valid() && b.HasRoom() && 0 <= q < I32_LIMIT && Filled(c, b, ps) && b.pins == c.pins
    requires c.BitsFollowPins() && c.HasRoom() && c.Swept().victim.Some?
    ensures Misses(c, Firsts(ps + [q])) <= |c.free| ==> Filled(c, Touch(b, q), ps + [q])
    ensures Misses(c, Firsts(ps + [q])) > |c.free| ==>
      Reused(c, Touch(b, q), c.Swept().victim.value, ps + [q])
  {
    hide Touch, Cache.FreeApart, Misses, Reused;
    MissedNext(c, ps, q);
    FirstsOf(ps);
    TouchEffect(b, q);
    if !b.Resident(q) && b.free == [] {
      assert b.refs == c.refs;
      FirstReuse(c, b, c.Swept().victim.value, ps, q);
    }
  }

  // ----- where the next page goes -----

  /** The frames after the uses. */
  ghost predicate AsHeld(c: Cache, uses: seq<int>, d: Cache)
    requires c.Valid() && c.Swept().victim.Some?
  {
    FirstsOf(uses);
    |d.page| == |c.page| && forall i :: 0 <= i < |c.page| ==> d.page[i] == Held(c, Firsts(uses), uses, i)
  }

  /** A cached page is in the frame where it lands. */
  lemma ResidentLands(c: Cache, b: Cache, uses: seq<int>, fs: seq<int>, q: int)
    requires c.Valid() && c.Swept().victim.Some? && b.Valid() && AsHeld(c, uses, b) && q in b.table
    requires Firsts(uses) <= fs && q in fs
    ensures b.table[q] == Land(c, fs, q)
  {
    hide Landing, Cache.Swept;
    FirstsOf(uses);
    var i := b.table[q];
    HeldLands(c, Firsts(uses), uses, i);
    if q in uses && q in Firsts(uses) {
      LandStays(c, Firsts(uses), fs, q);
    }
    if q == c.page[i] {
      CachedLands(c, fs, q, i);
    }
  }

  lemma CachedLands(c: Cache, fs: seq<int>, q: int, i: nat)
    requires c.Valid() && c.Swept().victim.Some? && q in fs && i < |c.page| && c.page[i] == q && 0 <= q
    ensures Land(c, fs, q) == i
  {
  }

  /** A page that was used but is no longer cached lands in the frame that is being reused. */
  lemma DisplacedLands(c: Cache, b: Cache, uses: seq<int>, q: int)
    requires c.Valid() && c.Swept().victim.Some? && b.Valid() && AsHeld(c, uses, b)
    requires q in uses && q !in b.table && 0 <= q && q in Firsts(uses)
    requires Land(c, Firsts(uses), q) < |c.page|
    ensures Land(c, Firsts(uses), q) == c.Swept().victim.value
  {
    hide Landing, Cache.Swept;
    FirstsOf(uses);
    var fs := Firsts(uses);
    var x := Land(c, fs, q);
    if x != c.Swept().victim.value {
      forall p | p in uses && Land(c, fs, p) == x
        ensures p == q
      {
        LandUnique(c, fs, p, q);
      }
      OnlyLanding(c, fs, uses, x, q);
    }
  }

  lemma LandInPool(c: Cache, fs: seq<int>, q: int)
    requires c.Valid() && c.HasRoom() && c.BitsFollowPins() && q in fs
    ensures c.Swept().victim.Some? && Land(c, fs, q) < |c.page|
  {
    QuietSweep(c);
  }

  /** A page first used now, while frames are free or after. */
  lemma NewLands(c: Cache, ps: seq<int>, q: int)
    requires c.Valid() && c.Swept().victim.Some? && q !in ps && !c.Resident(q)
    ensures q in Firsts(ps + [q])
    ensures var missed := Misses(c, Firsts(ps));
            Land(c, Firsts(ps + [q]), q)
            == if missed < |c.free| then c.free[|c.free| - 1 - missed] else c.Swept().victim.value
  {
    hide Cache.Valid, Cache.Swept, Misses;
    FirstsOf(ps);
    assert (ps + [q])[..|ps|] == ps;
    var fs := Firsts(ps);
    LastIndex(fs, q);
    assert (fs + [q])[..|fs|] == fs;
  }

  lemma {:induction false} LastIndex(s: seq<int>, q: int)
    requires q !in s
    ensures q in s + [q] && IndexIn(s + [q], q) == |s|
  {
    if s != [] {
      assert (s + [q])[1..] == s[1..] + [q];
      LastIndex(s[1..], q);
    }
  }

  /** The frame that the next page takes is the one where it lands. */
  lemma NextLands(c: Cache, ps: seq<int>, q: int)
    requires c.Valid() && c.HasRoom() && c.BitsFollowPins() && InRange(ps) && 0 <= q < I32_LIMIT
    requires c.Swept().victim.Some? && AsHeld(c, ps, TouchAll(c, ps))
    ensures q in Firsts(ps + [q]) && Firsts(ps) <= Firsts(ps + [q])
    ensures var b, x := TouchAll(c, ps), Land(c, Firsts(ps + [q]), q);
            && b.BitsFollowPins() && x < |c.page|
            && (q in b.table ==> b.table[q] == x)
            && (q !in b.table && b.free != [] ==> b.free[|b.free| - 1] == x)
            && (q !in b.table && b.free == [] ==> b.Swept().victim == Some(x))
  {
    hide Touch, TouchAll, Landing, Misses, Land, Cache.FreeApart, Cache.Mapped, AsHeld, Filled, Reused;
    var b, v := TouchAll(c, ps), c.Swept().victim.value;
    FirstsOf(ps);
    FirstsOf(ps + [q]);
    assert (ps + [q])[..|ps|] == ps && (ps + [q])[|ps|] == q;
    UsesFollowBits(c, ps);
    LandInPool(c, Firsts(ps + [q]), q);
    if q in b.table {
      ResidentLands(c, b, ps, Firsts(ps + [q]), q);
    } else if q in ps {
      DisplacedNext(c, b, ps, q);
    } else {
      NewNext(c, b, ps, q);
    }
  }

  lemma DisplacedNext(c: Cache, b: Cache, ps: seq<int>, q: int)
    requires c.Valid() && c.HasRoom() && c.BitsFollowPins() && InRange(ps) && q in ps && q in Firsts(ps)
    requires c.Swept().victim.Some? && b == TouchAll(c, ps) && AsHeld(c, ps, b) && q !in b.table
    requires Firsts(ps) <= Firsts(ps + [q]) && q in Firsts(ps + [q])
    ensures b.free == [] && b.Swept().victim == Some(Land(c, Firsts(ps + [q]), q))
  {
    hide Touch, TouchAll, Landing, Misses, Cache.FreeApart, Cache.Mapped, AsHeld;
    QuietSweep(c);
    FilledOrReused(c, ps);
    UsesFollowBits(c, ps);
    LandInPool(c, Firsts(ps), q);
    DisplacedLands(c, b, ps, q);
    LandStays(c, Firsts(ps), Firsts(ps + [q]), q);
    StillFirst(b, c.Swept().victim.value);
  }

  lemma NewNext(c: Cache, b: Cache, ps: seq<int>, q: int)
    requires c.Valid() && c.HasRoom() && c.BitsFollowPins() && InRange(ps) && q !in ps && q in Firsts(ps + [q])
    requires c.Swept().victim.Some? && b == TouchAll(c, ps) && q !in b.table && b.BitsFollowPins()
    ensures b.free != [] ==> b.free[|b.free| - 1] == Land(c, Firsts(ps + [q]), q)
    ensures b.free == [] ==> b.Swept().victim == Some(Land(c, Firsts(ps + [q]), q))
  {
    hide Touch, TouchAll, Misses, Cache.FreeApart;
    QuietSweep(c);
    FilledOrReused(c, ps);
    if Misses(c, Firsts(ps)) <= |c.free| {
      assert b.refs == c.refs;
      NewLands(c, ps, q);
    } else {
      StillFirst(b, c.Swept().victim.value);
      if q !in c.table {
        NewLands(c, ps, q);
      }
    }
  }

  /** Whatever the uses, each frame holds the last page that landed in it, or what it held. */
  lemma {:induction false} FramesHeld(c: Cache, uses: seq<int>)
    requires c.Valid() && c.HasRoom() && c.BitsFollowPins() && InRange(uses)
    ensures c.Swept().victim.Some? && AsHeld(c, uses, TouchAll(c, uses))
  {
    hide Touch, TouchAll, Land, Cache.FreeApart;
    QuietSweep(c);
    if uses == [] {
      TouchNone(c);
    } else {
      var ps, q := uses[..|uses| - 1], uses[|uses| - 1];
      assert ps + [q] == uses;
      FramesHeld(c, ps);
      NextLands(c, ps, q);
      FirstsOf(ps);
      FirstsOf(uses);
      var b := TouchAll(c, ps);
      TouchNext(c, ps, q);
      TouchEffect(b, q);
      forall i | 0 <= i < |c.page|
        ensures Touch(b, q).page[i] == Held(c, Firsts(uses), uses, i)
      {
        HeldStays(c, Firsts(ps), Firsts(uses), ps, i);
      }
    }
  }

  /** A cached page is in its frame after any uses exactly if it is the last page that landed there, or
      none did; a frame that is not the clock's present choice keeps its page. */
  lemma StaysExactly(c: Cache, p: int, uses: seq<int>)
    requires c.Valid() && c.HasRoom() && c.BitsFollowPins() && c.Resident(p) && InRange(uses)
    ensures (forall q :: q in uses ==> q in Firsts(uses)) && c.Swept().victim.Some?
    ensures Stays(TouchAll(c, uses), p, c.table[p]) <==> Held(c, Firsts(uses), uses, c.table[p]) == p
    ensures c.table[p] != c.Swept().victim.value ==> Stays(TouchAll(c, uses), p, c.table[p])
  {
    hide Touch, TouchAll, Landing, Cache.FreeApart;
    FramesHeld(c, uses);
    FirstsOf(uses);
    var i, fs := c.table[p], Firsts(uses);
    if i != c.Swept().victim.value {
      HeldLands(c, fs, uses, i);
      var q := Held(c, fs, uses, i);
      if q in uses && q in fs && Land(c, fs, q) == i {
        OnlyOwner(c, fs, p, q);
      }
    }
  }

  /** In a frame that is not the clock's choice and holds a page, no other page lands. */
  lemma OnlyOwner(c: Cache, fs: seq<int>, p: int, q: int)
    requires c.Valid() && c.Swept().victim.Some? && c.Resident(p) && q in fs
    requires Land(c, fs, q) == c.table[p] != c.Swept().victim.value
    ensures p == q
  {
    hide Cache.Swept;
  }
}
