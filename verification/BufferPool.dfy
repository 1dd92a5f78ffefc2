/** The parts of the buffer pool: frames, the stack of free frames and the clock policy. */
module BufferPool {
  import opened Bytes
  import opened ClockSpec
  import opened CacheSpec

  class Frame {
    var pageId: int
    var pinCount: int
    var dirty: bool
    const data: array<byte>

    constructor ()
      ensures pageId == NO_PAGE && pinCount == 0 && !dirty
      ensures fresh(data) && data.Length == PAGE_SIZE
    {
      pageId, pinCount, dirty := NO_PAGE, 0, false;
      data := new byte[PAGE_SIZE];
    }
  }

  class FreeList {
    var list: seq<Frame>

    constructor ()
      ensures list == []
    {
      list := [];
    }

    method Add(frame: Frame)
      modifies this
      ensures list == old(list) + [frame]
    {
      list := list + [frame];
    }

    /** The frame added last, or null when there is none. */
    method Get() returns (frame: Frame?)
      modifies this
      ensures old(list) == [] ==> frame == null && list == []
      ensures old(list) != [] ==> frame != null && old(list) == list + [frame]
    {
      if Empty() {
        return null;
      }
      frame := list[|list| - 1];
      list := list[..|list| - 1];
    }

    predicate Empty()
      reads this
      ensures Empty() <==> list == []
    {
      |list| == 0
    }
  }

  class ClockPolicy {
    const frames: seq<Frame>
    const frameIndex: map<Frame, nat>
    var hand: nat
    var refs: seq<bool>

    ghost predicate Indexed() {
      forall i :: 0 <= i < |frames| ==> frames[i] in frameIndex && frameIndex[frames[i]] == i
    }

    ghost predicate Valid()
      reads this
    {
      Indexed() && 0 < |frames| && |refs| == |frames| && hand < |frames|
    }

    ghost function Pins(): (pins: seq<int>)
      reads frames
      ensures |pins| == |frames|
    {
      seq(|frames|, i requires 0 <= i < |frames| reads frames => frames[i].pinCount)
    }

    constructor (frames: seq<Frame>)
      requires 0 < |frames|
      requires forall i, j :: 0 <= i < j < |frames| ==> frames[i] != frames[j]
      ensures Valid() && this.frames == frames && hand == 0
      ensures refs == seq(|frames|, i => false)
    {
      var index: map<Frame, nat> := map[];
      for i := 0 to |frames|
        invariant forall j :: 0 <= j < i ==> frames[j] in index && index[frames[j]] == j
      {
        index := index[frames[i] := i];
      }
      this.frames := frames;
      frameIndex := index;
      hand := 0;
      refs := seq(|frames|, i => false);
    }

    /** The sweep of the clock hand, at most twice around. */
    method ChooseVictim() returns (victim: Frame?)
      requires Valid()
      modifies this
      ensures Valid()
      ensures var s := RunSweep(Pins(), old(refs), old(hand), 2 * |frames|);
              && refs == s.refs && hand == s.hand
              && (victim == null <==> s.victim.None?)
              && (victim != null ==> victim == frames[s.victim.value])
    {
      ghost var pins := Pins();
      ghost var goal := RunSweep(pins, refs, hand, 2 * |frames|);
      for scanned := 0 to 2 * |frames|
        invariant Valid() && Pins() == pins
        invariant goal == RunSweep(pins, refs, hand, 2 * |frames| - scanned)
      {
        var f := frames[hand];
        assert f.pinCount == pins[hand];
        if f.pinCount == 0 {
          if !refs[hand] {
            return f;
          }
          refs := refs[hand := false];
        }
        AdvanceHand();
      }
      return null;
    }

    method AdvanceHand()
      requires Valid()
      modifies this`hand
      ensures Valid() && hand == Advance(old(hand), |frames|)
    {
      hand := Advance(hand, |frames|);
    }

    method RecordAccess(f: Frame)
      requires Valid() && f in frames
      modifies this`refs
      ensures Valid() && refs == old(refs)[frameIndex[f] := true]
    {
      refs := refs[frameIndex[f] := true];
    }

    method RecordLoad(f: Frame)
      requires Valid() && f in frames
      modifies this`refs
      ensures Valid() && refs == old(refs)[frameIndex[f] := true]
    {
      refs := refs[frameIndex[f] := true];
    }

    method RecordUnpin(f: Frame)
      requires Valid() && f in frames
      modifies this`refs
      ensures Valid() && refs == old(refs)[frameIndex[f] := false]
    {
      refs := refs[frameIndex[f] := false];
    }
  }
}
