/** The scan order of a heap: page by page, slot by slot, live records only. */
module ScanSpec {
  import opened HeapSpec

  /** The live places at or after slot `s` of page `i`. */
  function LiveFrom(h: Heap, i: nat, s: nat): seq<Pos>
    decreases |h| - i, if i < |h| then |h[i].slots| - s else 0
  {
    if i >= |h| then []
    else if s >= |h[i].slots| then LiveFrom(h, i + 1, 0)
    else if h[i].Live(s) then [Pos(i, s)] + LiveFrom(h, i, s + 1)
    else LiveFrom(h, i, s + 1)
  }

  function Scan(h: Heap): seq<Pos> {
    LiveFrom(h, 0, 0)
  }

  /** One step of the scan. */
  lemma ScanStep(h: Heap, i: nat, s: nat)
    requires i < |h|
    ensures LiveFrom(h, i, s) ==
      if s >= |h[i].slots| then LiveFrom(h, i + 1, 0)
      else if h[i].Live(s) then [Pos(i, s)] + LiveFrom(h, i, s + 1)
      else LiveFrom(h, i, s + 1)
  {
  }

  lemma ScanDone(h: Heap, i: nat, s: nat)
    requires |h| <= i
    ensures LiveFrom(h, i, s) == []
  {
  }

  /** The places in `l` are exactly the live ones not before `from`, each once, in order. */
  ghost predicate ExactlyFrom(h: Heap, l: seq<Pos>, from: Pos) {
    && (forall k :: 0 <= k < |l| ==> Live(h, l[k]) && !l[k].Before(from))
    && (forall j, k :: 0 <= j < k < |l| ==> l[j].Before(l[k]))
    && (forall pos: Pos :: Live(h, pos) && !pos.Before(from) ==> pos in l)
  }

  /** Nothing live lies between the two places. */
  lemma SkipDead(h: Heap, l: seq<Pos>, from: Pos, to: Pos)
    requires ExactlyFrom(h, l, to) && !to.Before(from)
    requires forall pos: Pos :: Live(h, pos) && !pos.Before(from) ==> !pos.Before(to)
    ensures ExactlyFrom(h, l, from)
  {
  }

  lemma PutFirst(h: Heap, l: seq<Pos>, i: nat, s: nat)
    requires ExactlyFrom(h, l, Pos(i, s + 1)) && Live(h, Pos(i, s))
    ensures ExactlyFrom(h, [Pos(i, s)] + l, Pos(i, s))
  {
    var all := [Pos(i, s)] + l;
    forall j, k | 0 <= j < k < |all|
      ensures all[j].Before(all[k])
    {
      assert all[k] == l[k - 1] && !l[k - 1].Before(Pos(i, s + 1));
      assert j > 0 ==> all[j] == l[j - 1];
    }
    forall pos: Pos | Live(h, pos) && !pos.Before(Pos(i, s))
      ensures pos in all
    {
      if pos == Pos(i, s) {
        assert all[0] == pos;
      } else {
        assert !pos.Before(Pos(i, s + 1));
      }
    }
  }

  /** The scan yields exactly the live places not before its start, each once, in order. */
  lemma {:induction false} ScanExact(h: Heap, i: nat, s: nat)
    ensures ExactlyFrom(h, LiveFrom(h, i, s), Pos(i, s))
    decreases |h| - i, if i < |h| then |h[i].slots| - s else 0
  {
    hide LiveFrom, ExactlyFrom;
    if i >= |h| {
      ScanDone(h, i, s);
      NothingLive(h, i, s);
    } else {
      ScanStep(h, i, s);
      if s >= |h[i].slots| {
        ScanExact(h, i + 1, 0);
        SkipDead(h, LiveFrom(h, i + 1, 0), Pos(i, s), Pos(i + 1, 0));
      } else {
        ScanExact(h, i, s + 1);
        if h[i].Live(s) {
          PutFirst(h, LiveFrom(h, i, s + 1), i, s);
        } else {
          SkipDead(h, LiveFrom(h, i, s + 1), Pos(i, s), Pos(i, s + 1));
        }
      }
    }
  }

  lemma NothingLive(h: Heap, i: nat, s: nat)
    requires |h| <= i
    ensures ExactlyFrom(h, [], Pos(i, s))
  {
  }

  /** A whole scan yields every record that is not empty, each once, in page and slot order. */
  lemma ScanIsAll(h: Heap)
    ensures var l := Scan(h);
            && (forall pos: Pos :: pos in l <==> HasSlot(h, pos) && h[pos.page].slots[pos.slot] != [])
            && (forall j, k :: 0 <= j < k < |l| ==>
                  l[j].page < l[k].page || (l[j].page == l[k].page && l[j].slot < l[k].slot))
  {
    ScanExact(h, 0, 0);
    var l := Scan(h);
    forall pos: Pos | pos in l
      ensures HasSlot(h, pos) && h[pos.page].slots[pos.slot] != []
    {
      var k :| 0 <= k < |l| && l[k] == pos;
    }
    assert forall j, k :: 0 <= j < k < |l| ==> l[j].Before(l[k]);
  }

  /** Slots without live records can be skipped. */
  lemma {:induction false} SkipSlots(h: Heap, i: nat, s: nat, t: nat)
    requires i < |h| && s <= t <= |h[i].slots|
    requires forall j :: s <= j < t ==> !h[i].Live(j)
    ensures LiveFrom(h, i, s) == LiveFrom(h, i, t)
    decreases t - s
  {
    if s < t {
      assert !h[i].Live(s);
      assert LiveFrom(h, i, s) == LiveFrom(h, i, s + 1);
      SkipSlots(h, i, s + 1, t);
    }
  }

  lemma SkipPage(h: Heap, i: nat, s: nat)
    requires i < |h| && forall j :: s <= j ==> !h[i].Live(j)
    ensures LiveFrom(h, i, s) == LiveFrom(h, i + 1, 0)
  {
    if s < |h[i].slots| {
      SkipSlots(h, i, s, |h[i].slots|);
    }
  }

  lemma AtLive(h: Heap, i: nat, s: nat)
    requires i < |h| && h[i].Live(s)
    ensures LiveFrom(h, i, s) == [Pos(i, s)] + LiveFrom(h, i, s + 1)
  {
  }

  lemma AtEnd(h: Heap, s: nat)
    ensures LiveFrom(h, |h|, s) == []
  {
  }
}
