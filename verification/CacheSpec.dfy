/** The buffer pool as a state machine over frame indices, without page contents:
    which frame holds which page, pins, reference bits, the page table, the free stack and the hand. */
module CacheSpec {
  import opened Bytes
  import opened ClockSpec

  const NO_PAGE := -1

  datatype Cache = Cache(page: seq<int>, pins: seq<int>, refs: seq<bool>,
                         table: map<int, nat>, free: seq<nat>, hand: nat) {

    predicate Sized() {
      0 < |page| && |pins| == |page| && |refs| == |page| && hand < |page|
    }

    /** The page table is a bijection with the loaded frames. */
    ghost predicate Mapped() {
      && (forall p :: p in table ==> 0 <= p < I32_LIMIT && table[p] < |page| && page[table[p]] == p)
      && (forall i :: 0 <= i < |page| && page[i] != NO_PAGE ==> page[i] in table && table[page[i]] == i)
    }

    /** The free stack holds exactly the unassigned frames, each once, and none is pinned. */
    ghost predicate FreeApart()
      requires Sized()
    {
      && (forall k :: 0 <= k < |free| ==> free[k] < |page| && page[free[k]] == NO_PAGE && pins[free[k]] == 0)
      && (forall j, k :: 0 <= j < k < |free| ==> free[j] != free[k])
      && (forall i :: 0 <= i < |page| && page[i] == NO_PAGE ==> i in free)
    }

    ghost predicate Valid() {
      && Sized() && Mapped() && FreeApart()
      && (forall i :: 0 <= i < |pins| ==> 0 <= pins[i])
    }

    /** What `request` and `release` alone keep true: a bit is set exactly while its frame is pinned. */
    predicate BitsFollowPins() {
      |refs| == |pins| && forall i :: 0 <= i < |pins| ==> (refs[i] <==> pins[i] > 0)
    }

    predicate Resident(pid: int) {
      pid in table
    }

    /** Some frame is unpinned; every free frame is. */
    predicate HasRoom() {
      Unpinned(pins) != {}
    }

    // ----- single steps of the buffer manager -----

    function Pin(i: nat): Cache
      requires i < |pins|
    {
      this.(pins := pins[i := pins[i] + 1])
    }

    function Unpin(i: nat): Cache
      requires i < |pins|
    {
      this.(pins := pins[i := pins[i] - 1])
    }

    function SetRef(i: nat, bit: bool): Cache
      requires i < |refs|
    {
      this.(refs := refs[i := bit])
    }

    function PopFree(): Cache
      requires free != []
    {
      this.(free := free[..|free| - 1])
    }

    function Swept(): Sweep
      requires Sized()
    {
      RunSweep(pins, refs, hand, 2 * |pins|)
    }

    function AfterSweep(): Cache
      requires Sized()
    {
      this.(refs := Swept().refs, hand := Swept().hand)
    }

    function Unassign(i: nat): Cache
      requires i < |page|
    {
      this.(table := if page[i] != NO_PAGE then table - {page[i]} else table, page := page[i := NO_PAGE])
    }

    function Evict(): Cache
      requires Sized() && Swept().victim.Some?
    {
      AfterSweep().Unassign(Swept().victim.value)
    }

    function Assign(pid: int, i: nat): Cache
      requires i < |page|
    {
      this.(table := table[pid := i], page := page[i := pid])
    }

    function Load(pid: int, i: nat): Cache
      requires i < |page| == |pins| == |refs|
    {
      Pin(i).Assign(pid, i).SetRef(i, true)
    }

    // ----- the operations -----

    predicate CanRequest(pid: int) {
      Resident(pid) || HasRoom()
    }

    /** The frame a page miss takes: the top of the free stack while it lasts, then the clock's victim. */
    function Target(): Option<nat>
      requires Sized()
    {
      if free != [] then Some(free[|free| - 1]) else Swept().victim
    }

    /** The pool once that frame is out of use. */
    function Vacate(): Cache
      requires Sized()
    {
      if free != [] then PopFree() else if Swept().victim.Some? then Evict() else AfterSweep()
    }

    ghost function Request(pid: int): Cache
      requires Valid()
    {
      if Resident(pid) then Pin(table[pid]).SetRef(table[pid], true)
      else if Target().Some? then Vacate().Load(pid, Target().value)
      else Vacate()
    }

    predicate CanRelease(pid: int)
      requires Sized() && forall p :: p in table ==> table[p] < |page|
    {
      Resident(pid) && pins[table[pid]] > 0
    }

    ghost function Release(pid: int): Cache
      requires Valid() && CanRelease(pid)
    {
      var i := table[pid];
      if pins[i] == 1 then Unpin(i).SetRef(i, false) else Unpin(i)
    }
  }

  function EmptyCache(size: nat): Cache {
    Cache(seq(size, i => NO_PAGE), seq(size, i => 0), seq(size, i => false), map[], seq(size, i => i), 0)
  }

  lemma EmptyCacheValid(size: nat)
    requires 0 < size
    ensures EmptyCache(size).Valid() && EmptyCache(size).BitsFollowPins()
    ensures var c := EmptyCache(size);
            && |c.page| == |c.free| == size && c.table == map[] && c.hand == 0
            && forall i :: 0 <= i < size ==> c.free[i] == i && c.page[i] == NO_PAGE && c.pins[i] == 0 && !c.refs[i]
  {
    var c := EmptyCache(size);
    forall i | 0 <= i < size
      ensures i in c.free
    {
      assert c.free[i] == i;
    }
  }

  // ----- the structure of the pool is kept, and pinned frames keep their page -----

  lemma SweepFindsVictim(c: Cache)
    requires c.Valid() && c.HasRoom() && c.free == []
    ensures c.Swept().victim.Some?
    ensures var v := c.Swept().victim.value;
            v < |c.page| && c.pins[v] == 0 && c.page[v] in c.table && c.table[c.page[v]] == v
  {
    VictimCharacterised(c.pins, c.refs, c.hand);
    var v := c.Swept().victim.value;
    assert c.page[v] != NO_PAGE;
  }

  /** Valid but for frame `i`, which has been taken out of use and not yet given a page. */
  ghost predicate Vacated(c: Cache, i: nat) {
    && c.Sized() && c.Mapped()
    && i < |c.page| && c.page[i] == NO_PAGE && c.pins[i] == 0
    && (forall j :: 0 <= j < |c.pins| ==> 0 <= c.pins[j])
    && (forall k :: 0 <= k < |c.free| ==>
          c.free[k] < |c.page| && c.page[c.free[k]] == NO_PAGE && c.pins[c.free[k]] == 0)
    && (forall j, k :: 0 <= j < k < |c.free| ==> c.free[j] != c.free[k])
    && (forall j :: 0 <= j < |c.page| && j != i && c.page[j] == NO_PAGE ==> j in c.free)
    && i !in c.free
  }

  lemma LoadKeeps(c: Cache, pid: int, i: nat)
    requires Vacated(c, i) && 0 <= pid < I32_LIMIT && !c.Resident(pid)
    ensures c.Load(pid, i).Valid()
  {
    var d := c.Load(pid, i);
    assert d.table == c.table[pid := i] && d.page == c.page[i := pid] && d.free == c.free;
    assert d.pins == c.pins[i := 1];
    forall k | 0 <= k < |d.free|
      ensures d.free[k] != i
    {
      assert c.free[k] in c.free;
    }
    assert d.Mapped();
  }

  /** With every frame pinned a miss finds no frame and changes nothing; otherwise it finds one. */
  lemma TargetVacated(c: Cache)
    requires c.Valid()
    ensures c.Target().Some? <==> c.HasRoom()
    ensures c.Target().None? ==> c.Vacate() == c
    ensures c.Target().Some? ==> Vacated(c.Vacate(), c.Target().value) && c.Vacate().table.Keys <= c.table.Keys
  {
    if c.free != [] {
      var i, d := c.free[|c.free| - 1], c.PopFree();
      assert i in Unpinned(c.pins);
      forall j | 0 <= j < |d.page| && j != i && d.page[j] == NO_PAGE
        ensures j in d.free
      {
        var k :| 0 <= k < |c.free| && c.free[k] == j;
        assert d.free[k] == j;
      }
    } else {
      VictimCharacterised(c.pins, c.refs, c.hand);
      if c.HasRoom() {
        EvictVacates(c);
      }
    }
  }

  lemma EvictVacates(c: Cache)
    requires c.Valid() && c.free == [] && c.Swept().victim.Some?
    ensures Vacated(c.Evict(), c.Swept().victim.value) && c.Evict().table.Keys <= c.table.Keys
  {
    var v := c.Swept().victim.value;
    assert v < |c.page| && c.pins[v] == 0;
    assert c.page[v] != NO_PAGE;
    var d := c.Evict();
    assert d.table == c.table - {c.page[v]} && d.page == c.page[v := NO_PAGE];
  }

  lemma RequestKeeps(c: Cache, pid: int)
    requires c.Valid() && 0 <= pid < I32_LIMIT && c.CanRequest(pid)
    ensures c.Request(pid).Valid()
  {
    TargetVacated(c);
    if !c.Resident(pid) {
      LoadKeeps(c.Vacate(), pid, c.Target().value);
    }
  }

  /** A request pins the page's frame and leaves every pinned frame where it was. The free stack
      never grows. */
  lemma RequestPins(c: Cache, pid: int)
    requires c.Valid() && 0 <= pid < I32_LIMIT && c.CanRequest(pid)
    ensures var d := c.Request(pid);
            && |d.page| == |c.page| && |d.pins| == |c.pins|
            && pid in d.table && d.table[pid] < |c.page| && d.free <= c.free
            && d.pins == c.pins[d.table[pid] := c.pins[d.table[pid]] + 1]
            && (forall i :: 0 <= i < |c.page| && c.pins[i] > 0 ==> d.page[i] == c.page[i])
  {
    TargetVacated(c);
    if !c.Resident(pid) && c.free == [] {
      SweepFindsVictim(c);
    }
  }

  lemma ReleaseKeeps(c: Cache, pid: int)
    requires c.Valid() && c.CanRelease(pid)
    ensures var d := c.Release(pid); d.Valid() && d.table == c.table && d.page == c.page && d.free == c.free
  {
  }
}
