/** The calls a program makes on a heap file, and what each must answer, on the heap's meaning alone. */
module Calls {
  import opened Bytes
  import opened PageSpec
  import opened HeapSpec
  import opened ScanSpec
  import opened HeapFile

  /** A call of a program that knows the ids it was given so far, by their number, and has one scan of
      its own. */
  datatype Call =
    | Store(d: Data)
    | Change(k: nat, d: Data)
    | Remove(k: nat)
    | Fetch(k: nat)
    | Walk
    | Begin
    | Step

  /** What the program gets back. A call on an id or a scan it does not have is not made. */
  datatype Outcome =
    | Stored(at: Option<RID>)
    | Changed(rid: RID, ok: bool)
    | Fetched(rec: Option<Record>)
    | Walked(recs: seq<Record>)
    | Begun
    | NotMade

  function IdsOf(chain: seq<int>, places: seq<Pos>): (r: seq<RID>)
    requires forall k :: 0 <= k < |places| ==> places[k].page < |chain|
    ensures |r| == |places|
  {
    seq(|places|, k requires 0 <= k < |places| => RID(chain[places[k].page], places[k].slot))
  }

  function RidsOf(recs: seq<Record>): (r: seq<RID>)
    ensures |r| == |recs|
  {
    seq(|recs|, k requires 0 <= k < |recs| => recs[k].rid)
  }

  /** The records carry the ids of the places, one by one. */
  lemma IdsMatch(recs: seq<Record>, chain: seq<int>, places: seq<Pos>)
    requires forall k :: 0 <= k < |places| ==> places[k].page < |chain|
    ensures RidsOf(recs) == IdsOf(chain, places) <==>
      && |recs| == |places|
      && forall k :: 0 <= k < |recs| ==> recs[k].rid == RID(chain[places[k].page], places[k].slot)
  {
    if RidsOf(recs) == IdsOf(chain, places) {
      forall k | 0 <= k < |recs|
        ensures recs[k].rid == RID(chain[places[k].page], places[k].slot)
      {
        assert RidsOf(recs)[k] == IdsOf(chain, places)[k];
      }
    }
  }

  /** The record that the call modified. */
  function Modified(o: Outcome): Option<RID> {
    match o
    case Changed(rid, true) => Some(rid)
    case _ => None
  }

  function Views(o: Outcome): seq<Record> {
    match o
    case Fetched(Some(rec)) => [rec]
    case Walked(recs) => recs
    case _ => []
  }

  function Ids(o: Outcome): seq<RID> {
    match o
    case Stored(Some(rid)) => [rid]
    case Walked(recs) => RidsOf(recs)
    case _ => []
  }

  // ----- ids and places -----

  /** Where page `p` first stands in the chain. */
  function IndexOf(chain: seq<int>, p: int): (i: nat)
    ensures i <= |chain|
    ensures i < |chain| ==> chain[i] == p
    ensures p in chain ==> i < |chain|
  {
    if chain == [] || chain[0] == p then 0 else 1 + IndexOf(chain[1..], p)
  }

  function PlaceOf(chain: seq<int>, rid: RID): Pos {
    Pos(IndexOf(chain, rid.pageId), rid.slotId)
  }

  function IdAt(chain: seq<int>, pos: Option<Pos>): Option<RID> {
    if pos.Some? && pos.value.page < |chain| then Some(RID(chain[pos.value.page], pos.value.slot)) else None
  }

  lemma {:induction false} IndexLonger(chain: seq<int>, longer: seq<int>, p: int)
    requires chain <= longer && p in chain
    ensures IndexOf(longer, p) == IndexOf(chain, p)
  {
    if chain[0] != p {
      IndexLonger(chain[1..], longer[1..], p);
    }
  }

  // ----- what the program has, and what it must be answered -----

  /** The heap's meaning, the ids handed out, and what is left of the program's scan, if it has one. */
  datatype Progress = Progress(heap: Heap, ids: seq<RID>, left: Option<seq<Pos>>)

  /** The operation on the heap's meaning that a call stands for. */
  function OpOf(chain: seq<int>, p: Progress, call: Call): Option<Op> {
    match call
    case Store(d) => Some(Insert(d))
    case Change(k, d) => if k < |p.ids| then Some(Update(PlaceOf(chain, p.ids[k]), d)) else None
    case Remove(k) => if k < |p.ids| then Some(Delete(PlaceOf(chain, p.ids[k]))) else None
    case _ => None
  }

  /** A write ends the program's scan. */
  function LeftAfter(p: Progress, call: Call): Option<seq<Pos>> {
    match call
    case Store(_) => None
    case Change(k, _) => if k < |p.ids| then None else p.left
    case Remove(k) => if k < |p.ids| then None else p.left
    case Begin => Some(Scan(p.heap))
    case Step => if p.left.Some? && p.left.value != [] then Some(p.left.value[1..]) else p.left
    case _ => p.left
  }

  function After(chain: seq<int>, p: Progress, call: Call, o: Outcome): Progress {
    var op := OpOf(chain, p, call);
    Progress(if op.Some? then Apply(p.heap, op.value) else p.heap, p.ids + Ids(o), LeftAfter(p, call))
  }

  /** The outcome is what the heap's meaning prescribes. */
  predicate Answered(chain: seq<int>, p: Progress, call: Call, o: Outcome) {
    match call
    case Store(d) => o == Stored(IdAt(chain, InsertRecord(p.heap, d).pos))
    case Change(k, d) =>
      if k < |p.ids| then o == Changed(p.ids[k], CanUpdate(p.heap, PlaceOf(chain, p.ids[k]), d)) else o == NotMade
    case Remove(k) =>
      if k < |p.ids| then o == Changed(p.ids[k], HasSlot(p.heap, PlaceOf(chain, p.ids[k]))) else o == NotMade
    case Fetch(k) =>
      if k < |p.ids| then
        && o.Fetched? && (o.rec.Some? <==> Live(p.heap, PlaceOf(chain, p.ids[k])))
        && (o.rec.Some? ==> o.rec.value.rid == p.ids[k])
      else o == NotMade
    case Walk =>
      && (forall k :: 0 <= k < |Scan(p.heap)| ==> Scan(p.heap)[k].page < |chain|)
      && o.Walked? && RidsOf(o.recs) == IdsOf(chain, Scan(p.heap))
    case Begin => o == Begun
    case Step =>
      if p.left.Some? && p.left.value != [] then
        o.Fetched? && o.rec.Some? && Some(o.rec.value.rid) == IdAt(chain, Some(p.left.value[0]))
      else o == NotMade
  }

  /** How far the program is after `k` calls. */
  function At(chain: seq<int>, start: Progress, calls: seq<Call>, outs: seq<Outcome>, k: nat): Progress
    requires k <= |outs| <= |calls|
  {
    if k == 0 then start else After(chain, At(chain, start, calls, outs, k - 1), calls[k - 1], outs[k - 1])
  }

  /** Every call was answered as the heap's meaning prescribes at that point of the run. */
  ghost predicate Performed(chain: seq<int>, start: Progress, calls: seq<Call>, outs: seq<Outcome>)
    requires |outs| <= |calls|
  {
    forall k :: 0 <= k < |outs| ==> Answered(chain, At(chain, start, calls, outs, k), calls[k], outs[k])
  }

  // ----- a longer chain changes nothing -----

  /** The ids and places are those of the chain's pages. */
  ghost predicate Within(chain: seq<int>, p: Progress) {
    && |p.heap| <= |chain|
    && (forall rid :: rid in p.ids ==> rid.pageId in chain)
    && (p.left.Some? ==> forall pos :: pos in p.left.value ==> pos.page < |chain|)
  }

  lemma StepLonger(chain: seq<int>, longer: seq<int>, p: Progress, call: Call, o: Outcome)
    requires chain <= longer && Within(chain, p) && Within(chain, After(chain, p, call, o))
    requires Answered(chain, p, call, o)
    ensures After(longer, p, call, o) == After(chain, p, call, o) && Answered(longer, p, call, o)
  {
    hide InsertRecord, LiveFrom;
    match call
    case Store(d) =>
    case Change(k, _) =>
      if k < |p.ids| {
        IndexLonger(chain, longer, p.ids[k].pageId);
      }
    case Remove(k) =>
      if k < |p.ids| {
        IndexLonger(chain, longer, p.ids[k].pageId);
      }
    case Fetch(k) =>
      if k < |p.ids| {
        IndexLonger(chain, longer, p.ids[k].pageId);
      }
    case Walk =>
      assert IdsOf(longer, Scan(p.heap)) == IdsOf(chain, Scan(p.heap));
    case Begin =>
    case Step =>
  }

  ghost predicate AllWithin(chain: seq<int>, start: Progress, calls: seq<Call>, outs: seq<Outcome>)
    requires |outs| <= |calls|
  {
    forall k :: 0 <= k <= |outs| ==> Within(chain, At(chain, start, calls, outs, k))
  }

  lemma {:induction false} AtLonger(chain: seq<int>, longer: seq<int>, start: Progress, calls: seq<Call>,
                                    outs: seq<Outcome>, k: nat)
    requires k <= |outs| <= |calls| && chain <= longer
    requires AllWithin(chain, start, calls, outs) && Performed(chain, start, calls, outs)
    ensures At(longer, start, calls, outs, k) == At(chain, start, calls, outs, k)
    ensures k < |outs| ==> Answered(longer, At(chain, start, calls, outs, k), calls[k], outs[k])
  {
    hide After, Answered, Within;
    if k > 0 {
      AtLonger(chain, longer, start, calls, outs, k - 1);
      var p := At(chain, start, calls, outs, k - 1);
      assert Answered(chain, p, calls[k - 1], outs[k - 1]) && Within(chain, p);
      assert Within(chain, At(chain, start, calls, outs, k));
      StepLonger(chain, longer, p, calls[k - 1], outs[k - 1]);
    }
    if k < |outs| {
      var p := At(chain, start, calls, outs, k);
      assert Answered(chain, p, calls[k], outs[k]) && Within(chain, p);
      assert Within(chain, At(chain, start, calls, outs, k + 1));
      StepLonger(chain, longer, p, calls[k], outs[k]);
    }
  }

  lemma {:induction false} AtExtends(chain: seq<int>, start: Progress, calls: seq<Call>, outs: seq<Outcome>,
                                     o: Outcome, k: nat)
    requires k <= |outs| < |calls|
    ensures At(chain, start, calls, outs + [o], k) == At(chain, start, calls, outs, k)
  {
    hide After;
    if k > 0 {
      AtExtends(chain, start, calls, outs, o, k - 1);
    }
  }

  lemma WithinLonger(chain: seq<int>, longer: seq<int>, p: Progress)
    requires chain <= longer && Within(chain, p)
    ensures Within(longer, p)
  {
    forall rid | rid in p.ids
      ensures rid.pageId in longer
    {
      assert longer[IndexOf(chain, rid.pageId)] == rid.pageId;
    }
  }

  /** One more call, which may have made the chain longer. */
  lemma OneMore(chain: seq<int>, longer: seq<int>, start: Progress, calls: seq<Call>, outs: seq<Outcome>, o: Outcome)
    requires |outs| < |calls| && chain <= longer
    requires AllWithin(chain, start, calls, outs) && Performed(chain, start, calls, outs)
    requires var p := At(chain, start, calls, outs, |outs|);
             Answered(longer, p, calls[|outs|], o) && Within(longer, After(longer, p, calls[|outs|], o))
    ensures AllWithin(longer, start, calls, outs + [o]) && Performed(longer, start, calls, outs + [o])
    ensures At(longer, start, calls, outs + [o], |outs| + 1)
         == After(longer, At(chain, start, calls, outs, |outs|), calls[|outs|], o)
  {
    hide After, Answered, Within;
    var all := outs + [o];
    forall k | 0 <= k <= |outs|
      ensures At(longer, start, calls, all, k) == At(chain, start, calls, outs, k)
      ensures Within(longer, At(longer, start, calls, all, k))
      ensures k < |outs| ==> Answered(longer, At(longer, start, calls, all, k), calls[k], all[k])
    {
      AtLonger(chain, longer, start, calls, outs, k);
      AtExtends(longer, start, calls, outs, o, k);
      assert Within(chain, At(chain, start, calls, outs, k));
      WithinLonger(chain, longer, At(chain, start, calls, outs, k));
    }
  }
}
