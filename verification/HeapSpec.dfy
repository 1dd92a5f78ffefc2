/** What a heap file means: a sequence of pages of optional records, and first-fit insertion. */
module HeapSpec {
  import opened Bytes
  import opened PageSpec

  type Heap = seq<PageView>

  /** A record's place: the page's position in the chain, and the slot within the page. */
  datatype Pos = Pos(page: nat, slot: nat) {
    predicate Before(that: Pos) {
      page < that.page || (page == that.page && slot < that.slot)
    }
  }

  /** The slotted area of a heap page starts behind the 8-byte heap header. */
  const HEAP_HEADER: nat := 8
  const EMPTY_PAGE := PageView([], PAGE_SIZE - HEAP_HEADER - HEADER_SIZE)
  const MAX_RECORD: nat := 8176

  predicate HasSlot(h: Heap, pos: Pos) {
    pos.page < |h| && pos.slot < |h[pos.page].slots|
  }

  function Get(h: Heap, pos: Pos): Option<Data> {
    if pos.page < |h| then h[pos.page].Get(pos.slot) else None
  }

  predicate Live(h: Heap, pos: Pos) {
    pos.page < |h| && h[pos.page].Live(pos.slot)
  }

  /** No page has more room than an empty one. */
  predicate Sized(h: Heap) {
    forall i :: 0 <= i < |h| ==> h[i].free <= EMPTY_PAGE.free
  }

  /** The first page in chain order with room for the record and its slot. */
  function FirstFit(h: Heap, d: Data): (i: nat)
    ensures i <= |h|
    ensures i < |h| ==> h[i].Fits(d)
    ensures forall j :: 0 <= j < i ==> !h[j].Fits(d)
  {
    if h == [] || h[0].Fits(d) then 0 else 1 + FirstFit(h[1..], d)
  }

  datatype Inserted = Inserted(heap: Heap, pos: Option<Pos>)

  function InsertRecord(h: Heap, d: Data): (r: Inserted)
    ensures r.pos.Some? ==> r.pos.value.page < |r.heap|
  {
    var g := if h == [] then [EMPTY_PAGE] else h;
    var i := FirstFit(g, d);
    if i < |g| then Inserted(g[i := g[i].Insert(d)], Some(Pos(i, |g[i].slots|)))
    else if EMPTY_PAGE.Fits(d) then Inserted(g + [EMPTY_PAGE.Insert(d)], Some(Pos(|g|, 0)))
    else Inserted(g + [EMPTY_PAGE], None)
  }

  predicate CanUpdate(h: Heap, pos: Pos, d: Data) {
    pos.page < |h| && h[pos.page].CanUpdate(pos.slot, d)
  }

  function UpdateRecord(h: Heap, pos: Pos, d: Data): Heap {
    if CanUpdate(h, pos, d) then h[pos.page := h[pos.page].Update(pos.slot, d)] else h
  }

  function DeleteRecord(h: Heap, pos: Pos): Heap {
    if HasSlot(h, pos) then h[pos.page := h[pos.page].Delete(pos.slot)] else h
  }

  // ----- one operation -----

  /** Insertion fails exactly on records too long for an empty page, and then no record changes.
      When it succeeds it creates the slot it returns and touches no other record. */
  lemma InsertChangesOne(h: Heap, d: Data)
    requires Sized(h)
    ensures var r := InsertRecord(h, d);
            && Sized(r.heap)
            && (r.pos.None? <==> |d| > MAX_RECORD)
            && (forall pos: Pos :: Some(pos) != r.pos ==> Get(r.heap, pos) == Get(h, pos))
            && (r.pos.Some? ==>
                  && !HasSlot(h, r.pos.value) && HasSlot(r.heap, r.pos.value)
                  && Get(r.heap, r.pos.value) == if d == [] then None else Some(d))
  {
    var g := if h == [] then [EMPTY_PAGE] else h;
    assert Sized(g);
    var r := InsertRecord(h, d);
    forall pos: Pos | Some(pos) != r.pos
      ensures Get(r.heap, pos) == Get(h, pos)
    {
      assert Get(g, pos) == Get(h, pos);
    }
  }

  /** What insertion does to the pages: an empty heap first gets an empty page; then the first page
      with room takes the record as its last, for the record's length and four bytes of its free space;
      if none has room, a new page is added, and stays empty if the record is too long for it. */
  lemma InsertPages(h: Heap, d: Data)
    requires Sized(h)
    ensures var g := if h == [] then [PageView([], 8180)] else h;
            var r := InsertRecord(h, d);
            && |g| <= |r.heap| <= |g| + 1
            && (|r.heap| == |g| + 1 <==> forall i :: 0 <= i < |g| ==> |d| + 4 > g[i].free)
            && (r.pos.None? ==> r.heap == g + [PageView([], 8180)])
            && (r.pos.Some? ==>
                  var p, was := r.pos.value.page, g + [PageView([], 8180)];
                  && p < |r.heap| && |d| + 4 <= was[p].free && (forall i :: 0 <= i < p ==> |d| + 4 > was[i].free)
                  && r.pos.value.slot == |was[p].slots|
                  && r.heap[p].slots == was[p].slots + [d] && r.heap[p].free == was[p].free - |d| - 4
                  && forall i :: 0 <= i < |r.heap| && i != p ==> r.heap[i] == was[i])
  {
    var g := if h == [] then [EMPTY_PAGE] else h;
    assert EMPTY_PAGE == PageView([], 8180);
    var i := FirstFit(g, d);
    assert i < |g| ==> g[i].Fits(d);
    assert forall j :: 0 <= j < i ==> !g[j].Fits(d);
  }

  lemma UpdateChangesOne(h: Heap, pos: Pos, d: Data)
    requires Sized(h) && CanUpdate(h, pos, d)
    ensures var g := UpdateRecord(h, pos, d);
            && Sized(g)
            && Get(g, pos) == (if d == [] then None else Some(d))
            && (forall q: Pos :: q != pos ==> Get(g, q) == Get(h, q))
            && (forall q: Pos :: HasSlot(g, q) <==> HasSlot(h, q))
  {
  }

  lemma DeleteChangesOne(h: Heap, pos: Pos)
    requires Sized(h) && HasSlot(h, pos)
    ensures var g := DeleteRecord(h, pos);
            && Sized(g) && Get(g, pos) == None
            && (forall q: Pos :: q != pos ==> Get(g, q) == Get(h, q))
            && (forall q: Pos :: HasSlot(g, q) <==> HasSlot(h, q))
  {
  }

  // ----- space -----

  predicate SameSpace(h: Heap, g: Heap) {
    |h| == |g| && forall i :: 0 <= i < |h| ==> h[i].free == g[i].free
  }

  lemma {:induction false} FitsSame(h: Heap, g: Heap, d: Data, e: Data)
    requires SameSpace(h, g) && |d| == |e|
    ensures FirstFit(h, d) == FirstFit(g, e)
  {
    if h != [] && !h[0].Fits(d) {
      FitsSame(h[1..], g[1..], d, e);
    }
  }

  /** An update is possible exactly if the slot exists and the bytes fit in place or in free space. One
      that is no longer leaves the page's free space as it was, a longer one costs its full length. */
  lemma UpdateSpace(h: Heap, pos: Pos, d: Data)
    ensures CanUpdate(h, pos, d) <==>
      HasSlot(h, pos) && (|d| <= |h[pos.page].slots[pos.slot]| || |d| <= h[pos.page].free)
    ensures var g := UpdateRecord(h, pos, d);
            && |g| == |h|
            && (!CanUpdate(h, pos, d) ==> g == h)
            && (CanUpdate(h, pos, d) ==>
                  && g[pos.page].slots == h[pos.page].slots[pos.slot := d]
                  && g[pos.page].free
                     == h[pos.page].free - (if |d| <= |h[pos.page].slots[pos.slot]| then 0 else |d|)
                  && forall i :: 0 <= i < |h| && i != pos.page ==> g[i] == h[i])
  {
  }

  /** Deleting leaves all free space as it was. */
  lemma DeleteSpace(h: Heap, pos: Pos)
    ensures var g := DeleteRecord(h, pos);
            && SameSpace(h, g) && (!HasSlot(h, pos) ==> g == h)
            && (HasSlot(h, pos) ==>
                  && g[pos.page].slots == h[pos.page].slots[pos.slot := []]
                  && forall i :: 0 <= i < |h| && i != pos.page ==> g[i] == h[i])
  {
  }

  /** So where a later record goes does not depend on deletes, nor on updates that do not grow. */
  lemma LaterInsertSame(h: Heap, pos: Pos, d: Data, e: Data)
    ensures InsertRecord(DeleteRecord(h, pos), e).pos == InsertRecord(h, e).pos
    ensures HasSlot(h, pos) && |d| <= |h[pos.page].slots[pos.slot]| ==>
      InsertRecord(UpdateRecord(h, pos, d), e).pos == InsertRecord(h, e).pos
  {
    hide FirstFit;
    FitsSame(h, DeleteRecord(h, pos), e, e);
    if HasSlot(h, pos) && |d| <= |h[pos.page].slots[pos.slot]| {
      FitsSame(h, UpdateRecord(h, pos, d), e, e);
    }
  }

  // ----- runs of operations -----

  datatype Op = Insert(d: Data) | Update(pos: Pos, d: Data) | Delete(pos: Pos)

  function Apply(h: Heap, op: Op): Heap {
    match op
    case Insert(d) => InsertRecord(h, d).heap
    case Update(pos, d) => UpdateRecord(h, pos, d)
    case Delete(pos) => DeleteRecord(h, pos)
  }

  function Run(h: Heap, ops: seq<Op>): Heap {
    if ops == [] then h else Apply(Run(h, ops[..|ops| - 1]), ops[|ops| - 1])
  }

  /** Pages and slots are only ever added, and a page's free space never grows. */
  ghost predicate Grown(h: Heap, g: Heap) {
    && |h| <= |g|
    && forall i :: 0 <= i < |h| ==> |h[i].slots| <= |g[i].slots| && g[i].free <= h[i].free
  }

  lemma ApplyGrows(h: Heap, op: Op)
    ensures Grown(h, Apply(h, op))
  {
  }

  lemma {:induction false} RunGrows(h: Heap, ops: seq<Op>)
    ensures Grown(h, Run(h, ops))
  {
    if ops != [] {
      var b := Run(h, ops[..|ops| - 1]);
      RunGrows(h, ops[..|ops| - 1]);
      ApplyGrows(b, ops[|ops| - 1]);
    }
  }

  lemma {:induction false} RunSized(h: Heap, ops: seq<Op>)
    requires Sized(h)
    ensures Sized(Run(h, ops))
  {
    if ops != [] {
      RunSized(h, ops[..|ops| - 1]);
    }
  }

  /** A place handed out once is never handed out again, whatever happens to its record. */
  lemma NeverReissued(h: Heap, pos: Pos, ops: seq<Op>, d: Data)
    requires Sized(h) && HasSlot(h, pos)
    ensures InsertRecord(Run(h, ops), d).pos != Some(pos)
  {
    RunGrows(h, ops);
    RunSized(h, ops);
    InsertChangesOne(Run(h, ops), d);
  }

  /** Of two successful inserts, the later one lands later in scan order if its record is at least
      as long, whatever updates, deletes and other inserts come between. */
  lemma InsertionOrder(h: Heap, d: Data, ops: seq<Op>, e: Data)
    requires InsertRecord(h, d).pos.Some? && |d| <= |e|
    requires InsertRecord(Run(InsertRecord(h, d).heap, ops), e).pos.Some?
    ensures InsertRecord(h, d).pos.value.Before(InsertRecord(Run(InsertRecord(h, d).heap, ops), e).pos.value)
  {
    var first := InsertRecord(h, d);
    var g := Run(first.heap, ops);
    RunGrows(first.heap, ops);
    var p, q := first.pos.value, InsertRecord(g, e).pos.value;
    assert forall j :: 0 <= j < p.page ==> !first.heap[j].Fits(d);
    assert q.page < |g| ==> g[q.page].Fits(e) && q.slot == |g[q.page].slots|;
  }

  // ----- conservation -----

  /** Directory entries and live record bytes. */
  function Used(slots: seq<Data>): nat {
    if slots == [] then 0 else Used(slots[..|slots| - 1]) + SLOT_SIZE + |slots[|slots| - 1]|
  }

  lemma {:induction false} UsedUpdate(slots: seq<Data>, i: nat, d: Data)
    requires i < |slots|
    ensures Used(slots[i := d]) + |slots[i]| == Used(slots) + |d|
    decreases |slots|
  {
    var n := |slots| - 1;
    if i < n {
      UsedUpdate(slots[..n], i, d);
      assert slots[i := d][..n] == slots[..n][i := d];
    } else {
      assert slots[i := d][..n] == slots[..n];
    }
  }

  /** What a page uses and what it offers never exceed an empty page together. */
  predicate Conserved(v: PageView) {
    Used(v.slots) + v.free <= EMPTY_PAGE.free
  }

  predicate AllConserved(h: Heap) {
    forall i :: 0 <= i < |h| ==> Conserved(h[i])
  }

  lemma InsertConserves(v: PageView, d: Data)
    requires Conserved(v) && v.Fits(d)
    ensures Conserved(v.Insert(d))
  {
    assert (v.slots + [d])[..|v.slots|] == v.slots;
  }

  lemma ApplyConserves(h: Heap, op: Op)
    requires AllConserved(h)
    ensures AllConserved(Apply(h, op))
  {
    match op
    case Insert(d) =>
      var g := if h == [] then [EMPTY_PAGE] else h;
      var i := FirstFit(g, d);
      assert Conserved(EMPTY_PAGE) && AllConserved(g);
      if i < |g| {
        InsertConserves(g[i], d);
      } else if EMPTY_PAGE.Fits(d) {
        InsertConserves(EMPTY_PAGE, d);
      }
    case Update(pos, d) =>
      if CanUpdate(h, pos, d) {
        UsedUpdate(h[pos.page].slots, pos.slot, d);
      }
    case Delete(pos) =>
      if HasSlot(h, pos) {
        UsedUpdate(h[pos.page].slots, pos.slot, []);
      }
  }

  /** No run creates space: on every page, live bytes, directory and free space stay within the page. */
  lemma {:induction false} RunConserves(h: Heap, ops: seq<Op>)
    requires AllConserved(h)
    ensures AllConserved(Run(h, ops))
  {
    if ops != [] {
      RunConserves(h, ops[..|ops| - 1]);
      ApplyConserves(Run(h, ops[..|ops| - 1]), ops[|ops| - 1]);
    }
  }
}
