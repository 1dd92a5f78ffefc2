/** The clock sweep as a function of pin counts, reference bits and hand, and what it picks. */
module ClockSpec {
  import opened Bytes

  datatype Sweep = Sweep(victim: Option<nat>, refs: seq<bool>, hand: nat)

  /** One position of the hand around a clock of `n` frames. */
  function Advance(hand: nat, n: nat): (next: nat)
    requires hand < n
    ensures next == if hand + 1 < n then hand + 1 else 0
  {
    (hand + 1) % n
  }

  /** At most `steps` positions of the sweep: skip pinned frames, give a set bit a second chance. */
  function RunSweep(pins: seq<int>, refs: seq<bool>, hand: nat, steps: nat): (s: Sweep)
    requires |pins| == |refs| && hand < |pins|
    ensures |s.refs| == |pins| && s.hand < |pins|
    ensures s.victim.Some? ==> s.victim.value == s.hand && pins[s.hand] == 0
    decreases steps
  {
    if steps == 0 then Sweep(None, refs, hand)
    else if pins[hand] == 0 && !refs[hand] then Sweep(Some(hand), refs, hand)
    else RunSweep(pins, if pins[hand] == 0 then refs[hand := false] else refs, Advance(hand, |pins|), steps - 1)
  }

  /** How far the hand must move to reach frame `i` of `n`. */
  function Distance(hand: nat, i: nat, n: nat): (d: nat)
    requires hand < n && i < n
    ensures d < n
  {
    if hand <= i then i - hand else i + n - hand
  }

  function At(hand: nat, k: nat, n: nat): (i: nat)
    requires hand < n && k <= n
    ensures i < n
    ensures k < n ==> Distance(hand, i, n) == k
  {
    if hand + k < n then hand + k else hand + k - n
  }

  function Unpinned(pins: seq<int>): set<nat> {
    set i: nat | i < |pins| && pins[i] == 0
  }

  function Clear(pins: seq<int>, refs: seq<bool>): set<nat>
    requires |pins| == |refs|
  {
    set i: nat | i < |pins| && pins[i] == 0 && !refs[i]
  }

  /** `i` is the member of `s` that the hand reaches first. */
  ghost predicate IsFirst(s: set<nat>, hand: nat, n: nat, i: nat)
    requires hand < n && forall j :: j in s ==> j < n
  {
    i in s && forall j :: j in s ==> Distance(hand, i, n) <= Distance(hand, j, n)
  }

  lemma FirstIsUnique(s: set<nat>, hand: nat, n: nat, i: nat, j: nat)
    requires hand < n && forall j :: j in s ==> j < n
    requires IsFirst(s, hand, n, i) && IsFirst(s, hand, n, j)
    ensures i == j
  {
    assert Distance(hand, i, n) == Distance(hand, j, n);
  }

  lemma {:induction false} FirstExists(s: set<nat>, hand: nat, n: nat, k: nat) returns (i: nat)
    requires hand < n && k <= n && (forall j :: j in s ==> j < n)
    requires s != {} && forall j :: j in s ==> k <= Distance(hand, j, n)
    ensures IsFirst(s, hand, n, i)
    decreases n - k
  {
    var j :| j in s;
    assert k < n;
    i := At(hand, k, n);
    if i !in s {
      forall j | j in s
        ensures k + 1 <= Distance(hand, j, n)
      {
        assert At(hand, Distance(hand, j, n), n) == j;
      }
      i := FirstExists(s, hand, n, k + 1);
    }
  }

  /** The bits after the hand has passed `k` positions that it did not stop at. */
  ghost function Passed(pins: seq<int>, refs: seq<bool>, hand: nat, k: nat): (r: seq<bool>)
    requires |pins| == |refs| && hand < |pins|
    ensures |r| == |refs|
  {
    seq(|refs|, i requires 0 <= i < |refs| => refs[i] && (pins[i] != 0 || Distance(hand, i, |pins|) >= k))
  }

  lemma PassedOne(pins: seq<int>, refs: seq<bool>, hand: nat, k: nat)
    requires |pins| == |refs| && hand < |pins| && k < |pins|
    ensures var at := At(hand, k, |pins|);
            var before := Passed(pins, refs, hand, k);
            && before[at] == refs[at]
            && Passed(pins, refs, hand, k + 1) == if pins[at] == 0 then before[at := false] else before
  {
    var n := |pins|;
    var at := At(hand, k, n);
    forall i | 0 <= i < n && i != at
      ensures Distance(hand, i, n) != k
    {
      assert At(hand, Distance(hand, i, n), n) == i;
    }
  }

  lemma {:induction false} SkipAhead(pins: seq<int>, refs: seq<bool>, hand: nat, k: nat, steps: nat)
    requires |pins| == |refs| && hand < |pins|
    requires k <= |pins| && k <= steps
    requires forall i :: i in Clear(pins, refs) ==> k <= Distance(hand, i, |pins|)
    ensures RunSweep(pins, refs, hand, steps)
         == RunSweep(pins, Passed(pins, refs, hand, k), At(hand, k, |pins|), steps - k)
    decreases k
  {
    if k == 0 {
      assert Passed(pins, refs, hand, 0) == refs;
    } else {
      var at := At(hand, k - 1, |pins|);
      SkipAhead(pins, refs, hand, k - 1, steps);
      PassedOne(pins, refs, hand, k - 1);
      assert at !in Clear(pins, refs);
      assert At(hand, k, |pins|) == Advance(at, |pins|);
    }
  }

  /** The victim is the first unpinned frame with a clear bit; if every unpinned frame has its bit
      set, the first unpinned frame; and there is none exactly when every frame is pinned. The bits
      cleared are exactly those of the unpinned frames passed over, and the hand stays on the victim. */
  lemma VictimCharacterised(pins: seq<int>, refs: seq<bool>, hand: nat)
    requires |pins| == |refs| && hand < |pins|
    ensures var n := |pins|;
            var s := RunSweep(pins, refs, hand, 2 * n);
            && (s.victim.None? <==> Unpinned(pins) == {})
            && (s.victim.None? ==> s.refs == refs && s.hand == hand)
            && (Clear(pins, refs) != {} ==>
                  && s.victim.Some? && IsFirst(Clear(pins, refs), hand, n, s.victim.value)
                  && s.refs == Passed(pins, refs, hand, Distance(hand, s.victim.value, n)))
            && (Clear(pins, refs) == {} && s.victim.Some? ==>
                  && IsFirst(Unpinned(pins), hand, n, s.victim.value)
                  && s.refs == Passed(pins, refs, hand, n))
            && (s.victim.Some? ==> s.hand == s.victim.value)
  {
    var n := |pins|;
    if Clear(pins, refs) != {} {
      var i := FirstExists(Clear(pins, refs), hand, n, 0);
      var k := Distance(hand, i, n);
      SkipAhead(pins, refs, hand, k, 2 * n);
      assert At(hand, k, n) == i;
      assert i in Unpinned(pins);
    } else {
      SkipAhead(pins, refs, hand, n, 2 * n);
      var cleared := Passed(pins, refs, hand, n);
      assert At(hand, n, n) == hand;
      if Unpinned(pins) == {} {
        assert cleared == refs;
        SkipAhead(pins, refs, hand, n, n);
      } else {
        assert Clear(pins, cleared) == Unpinned(pins);
        var i := FirstExists(Unpinned(pins), hand, n, 0);
        var k := Distance(hand, i, n);
        SkipAhead(pins, cleared, hand, k, n);
        assert At(hand, k, n) == i;
        assert Passed(pins, cleared, hand, k) == cleared;
      }
    }
  }
}
