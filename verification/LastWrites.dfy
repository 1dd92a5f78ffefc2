/** A run of calls seen as writes to a map: what an id holds is what the answers say was last written
    under it. */
module LastWrites {
  import opened Bytes
  import opened PageSpec
  import opened HeapSpec
  import opened HeapFile
  import opened Calls

  /** What one answered call wrote, and under which id. */
  function Write(call: Call, o: Outcome): Option<(RID, Data)> {
    match o
    case Stored(Some(rid)) => if call.Store? then Some((rid, call.d)) else None
    case Changed(rid, true) =>
      if call.Change? then Some((rid, call.d)) else if call.Remove? then Some((rid, [])) else None
    case _ => None
  }

  /** All that the first `k` calls wrote, the latest under each id. */
  function Wrote(calls: seq<Call>, outs: seq<Outcome>, k: nat): map<RID, Data>
    requires k <= |outs| <= |calls|
  {
    if k == 0 then map[]
    else
      var w := Wrote(calls, outs, k - 1);
      match Write(calls[k - 1], outs[k - 1])
      case None => w
      case Some((rid, d)) => w[rid := d]
  }

  /** What is read under an id; empty bytes read as nothing. */
  function Read(chain: seq<int>, h: Heap, rid: RID): Option<Data> {
    Get(h, PlaceOf(chain, rid))
  }

  function Found(d: Data): Option<Data> {
    if d == [] then None else Some(d)
  }

  /** Each place belongs to one id. */
  lemma PlacesApart(chain: seq<int>, i: nat, rid: RID)
    requires Distinct(chain) && i < |chain| && rid.pageId in chain
    ensures IndexOf(chain, chain[i]) == i && (PlaceOf(chain, rid).page == i <==> rid.pageId == chain[i])
  {
    assert chain[IndexOf(chain, chain[i])] == chain[i];
    assert chain[IndexOf(chain, rid.pageId)] == rid.pageId;
  }

  /** One call changes what is read under the id it wrote and under no other. */
  lemma OneCall(chain: seq<int>, p: Progress, call: Call, o: Outcome, rid: RID)
    requires Distinct(chain) && Sized(p.heap) && Within(chain, p) && Within(chain, After(chain, p, call, o))
    requires Answered(chain, p, call, o) && rid.pageId in chain
    ensures var w := Write(call, o);
            && Sized(After(chain, p, call, o).heap)
            && Read(chain, After(chain, p, call, o).heap, rid)
               == if w.Some? && w.value.0 == rid then Found(w.value.1) else Read(chain, p.heap, rid)
  {
    hide InsertRecord, UpdateRecord, DeleteRecord, CanUpdate, Sized, Get;
    match call
    case Store(d) =>
      InsertChangesOne(p.heap, d);
      var pos := InsertRecord(p.heap, d).pos;
      if pos.Some? {
        assert pos.value.page < |chain|;
        PlacesApart(chain, pos.value.page, rid);
        assert o == Stored(Some(RID(chain[pos.value.page], pos.value.slot)));
        assert Some(PlaceOf(chain, rid)) == pos <==> rid == RID(chain[pos.value.page], pos.value.slot);
      }
    case Change(k, d) =>
      if k < |p.ids| {
        PlacesApart(chain, IndexOf(chain, p.ids[k].pageId), rid);
        if CanUpdate(p.heap, PlaceOf(chain, p.ids[k]), d) {
          UpdateChangesOne(p.heap, PlaceOf(chain, p.ids[k]), d);
        } else {
          UpdateSpace(p.heap, PlaceOf(chain, p.ids[k]), d);
        }
      }
    case Remove(k) =>
      if k < |p.ids| {
        PlacesApart(chain, IndexOf(chain, p.ids[k].pageId), rid);
        if HasSlot(p.heap, PlaceOf(chain, p.ids[k])) {
          DeleteChangesOne(p.heap, PlaceOf(chain, p.ids[k]));
        } else {
          DeleteSpace(p.heap, PlaceOf(chain, p.ids[k]));
        }
      }
    case _ =>
  }

  /** After any run what is read under an id is what was last written under it, or what was there at
      the start. */
  lemma {:induction false} LastWriteWins(chain: seq<int>, start: Progress, calls: seq<Call>, outs: seq<Outcome>,
                                         k: nat, rid: RID)
    requires k <= |outs| <= |calls| && Distinct(chain) && Sized(start.heap) && rid.pageId in chain
    requires AllWithin(chain, start, calls, outs) && Performed(chain, start, calls, outs)
    ensures var w, p := Wrote(calls, outs, k), At(chain, start, calls, outs, k);
            && Sized(p.heap)
            && Read(chain, p.heap, rid) == (if rid in w then Found(w[rid]) else Read(chain, start.heap, rid))
  {
    hide After, Answered, Within, Read, Sized, Write;
    if k > 0 {
      LastWriteWins(chain, start, calls, outs, k - 1, rid);
      var p := At(chain, start, calls, outs, k - 1);
      assert Within(chain, p) && Answered(chain, p, calls[k - 1], outs[k - 1]);
      assert Within(chain, At(chain, start, calls, outs, k));
      OneCall(chain, p, calls[k - 1], outs[k - 1], rid);
    }
  }

  /** So a fetch on the way finds a record exactly if what was last written under its id is not empty. */
  lemma FetchFindsLast(chain: seq<int>, start: Progress, calls: seq<Call>, outs: seq<Outcome>, k: nat)
    requires k < |outs| <= |calls| && Distinct(chain) && Sized(start.heap)
    requires AllWithin(chain, start, calls, outs) && Performed(chain, start, calls, outs)
    requires calls[k].Fetch? && calls[k].k < |At(chain, start, calls, outs, k).ids|
    ensures var w, rid := Wrote(calls, outs, k), At(chain, start, calls, outs, k).ids[calls[k].k];
            outs[k].Fetched? && (outs[k].rec.Some? <==>
                                   if rid in w then w[rid] != [] else Read(chain, start.heap, rid).Some?)
  {
    hide After, Wrote, At;
    var p := At(chain, start, calls, outs, k);
    assert Within(chain, p) && Answered(chain, p, calls[k], outs[k]);
    var rid := p.ids[calls[k].k];
    LastWriteWins(chain, start, calls, outs, k, rid);
  }
}
