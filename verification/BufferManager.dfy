/** The write-back page cache. `store` is what the pages mean to every layer above: the bytes in a
    frame where the page is cached, the bytes on disk otherwise. `cache` is the pool as a state
    machine over frame indices. `Valid` ties both to the concrete fields. */
module BufferManager {
  import opened Bytes
  import opened CacheSpec
  import opened StoreSpec
  import opened BufferPool
  import opened Disk

  datatype Error = AllFramesPinned | PageNotFound | PinCountZero

  datatype Result<+T> = Ok(value: T) | Err(error: Error) {
    predicate IsFailure() {
      Err?
    }

    function PropagateFailure<U>(): Result<U>
      requires Err?
    {
      Err(error)
    }

    function Extract(): T
      requires Ok?
    {
      value
    }
  }

  class BufferManager {
    const disk: DiskManager
    const pool: seq<Frame>
    const freeList: FreeList
    const policy: ClockPolicy
    var pageTable: map<int, Frame>

    ghost const owner: map<array<byte>, nat>  // the frame that owns each buffer
    ghost const footprint: set<object>  // everything the pool owns; the disk is shared

    ghost var cache: Cache
    ghost var store: Pages
    ghost var dirty: seq<bool>
    ghost var bytes: seq<Data>

    /** The objects are laid out once and for all: no two frames share anything. */
    ghost predicate Shape() {
      && 0 < |pool| && policy.frames == pool && policy.Indexed()
      && (forall i :: 0 <= i < |pool| ==> pool[i].data.Length == PAGE_SIZE)
      && (forall i :: 0 <= i < |pool| ==> pool[i].data in owner && owner[pool[i].data] == i)
      && this in footprint && freeList in footprint && policy in footprint && disk !in footprint
      && (forall i :: 0 <= i < |pool| ==> pool[i] in footprint && pool[i].data in footprint)
    }

    ghost function Index(f: Frame): (i: nat)
      requires Shape() && f in pool
      ensures i < |pool| && pool[i] == f
    {
      policy.frameIndex[f]
    }

    /** The concrete fields hold the abstract ones, the bytes of frame `except` aside. */
    ghost predicate TiedBut(except: int)
      requires Shape()
      reads disk, footprint
    {
      && cache.Sized() && |cache.page| == |dirty| == |bytes| == |pool|
      && (forall i :: 0 <= i < |pool| ==>
            && pool[i].pageId == cache.page[i] && pool[i].pinCount == cache.pins[i]
            && pool[i].dirty == dirty[i])
      && (forall i :: 0 <= i < |pool| && i != except ==> pool[i].data[..] == bytes[i])
      && policy.Valid() && policy.refs == cache.refs && policy.hand == cache.hand
      && |freeList.list| == |cache.free|
      && (forall k :: 0 <= k < |cache.free| ==> cache.free[k] < |pool| && freeList.list[k] == pool[cache.free[k]])
      && (forall p :: p in cache.table <==> p in pageTable)
      && (forall p :: p in cache.table ==> cache.table[p] < |pool| && pageTable[p] == pool[cache.table[p]])
      && disk.Valid()
    }

    ghost predicate Tied()
      requires Shape()
      reads disk, footprint
    {
      TiedBut(-1)
    }

    /** The part of `Valid` that also holds between the steps of one operation. */
    ghost predicate Sound()
      reads disk, footprint
    {
      Shape() && Tied() && Coherent(cache, dirty, bytes, disk.pages, store)
    }

    /** Valid, except that the frame at index `except` may have been written and not yet marked. */
    ghost predicate ValidBut(except: int)
      reads disk, footprint
    {
      && Shape() && TiedBut(except) && cache.Valid()
      && Coherent(cache, dirty, bytes, disk.pages, store) && PageSized(store)
    }

    ghost predicate Valid()
      reads disk, footprint
    {
      ValidBut(-1)
    }

    lemma CacheValid()
      requires Valid()
      ensures cache.Valid() && 0 < |cache.page| == |pool|
    {
    }

    /** A frame that holds a written page holds what the page means. */
    lemma FrameBytes(i: nat)
      requires Valid() && i < |pool|
      ensures i < |cache.page| && pool[i].data.Length == PAGE_SIZE
      ensures cache.page[i] in store ==> pool[i].data[..] == store[cache.page[i]]
      ensures cache.page[i] != NO_PAGE ==> cache.page[i] in cache.table && cache.table[cache.page[i]] == i
      ensures forall p :: p in cache.table ==> cache.table[p] < |pool| && cache.page[cache.table[p]] == p
    {
    }

    /** Frame `f` currently holds page `p`. */
    ghost predicate Holds(f: Frame, p: int)
      reads disk, footprint
    {
      && Valid() && f in pool && cache.page[Index(f)] == p && p != NO_PAGE
      && this in footprint && f in footprint && f.data in footprint && f.data.Length == PAGE_SIZE
      && (p in store ==> f.data[..] == store[p])
    }

    /** The frames of a new pool, all on the free list. */
    static method MakeFrames(size: nat)
        returns (frames: seq<Frame>, free: FreeList, ghost owners: map<array<byte>, nat>, ghost parts: set<object>)
      ensures |frames| == size && free.list == frames
      ensures fresh(parts) && free in parts
      ensures forall k :: 0 <= k < size ==> frames[k] in parts && frames[k].data in parts
      ensures forall k :: 0 <= k < size ==> frames[k].data.Length == PAGE_SIZE
      ensures forall k :: 0 <= k < size ==> frames[k].pageId == NO_PAGE && frames[k].pinCount == 0 && !frames[k].dirty
      ensures forall j, k :: 0 <= j < k < size ==> frames[j] != frames[k]
      ensures forall k :: 0 <= k < size ==> frames[k].data in owners && owners[frames[k].data] == k
    {
      frames, owners := [], map[];
      free := new FreeList();
      parts := {free};
      for i := 0 to size
        invariant |frames| == i && free.list == frames
        invariant fresh(parts) && free in parts
        invariant forall k :: 0 <= k < i ==> frames[k] in parts && frames[k].data in parts
        invariant forall k :: 0 <= k < i ==> frames[k].data.Length == PAGE_SIZE
        invariant forall k :: 0 <= k < i ==> frames[k].pageId == NO_PAGE && frames[k].pinCount == 0 && !frames[k].dirty
        invariant forall j, k :: 0 <= j < k < i ==> frames[j] != frames[k]
        invariant forall k :: 0 <= k < i ==> frames[k].data in owners && owners[frames[k].data] == k
      {
        var f := new Frame();
        assert f.data !in parts;
        owners := owners[f.data := i];
        parts := parts + {f, f.data};
        frames := frames + [f];
        free.Add(f);
      }
    }

    /** A pool of `size` empty frames over an opened disk. */
    constructor (disk: DiskManager, size: nat)
      requires disk.Valid() && 0 < size
      ensures Valid() && this.disk == disk && |pool| == size && fresh(footprint)
      ensures store == disk.pages
      ensures cache == EmptyCache(size)
      ensures freeList.list == pool && pageTable == map[]
      ensures forall f :: f in pool ==> f.pageId == NO_PAGE && f.pinCount == 0 && !f.dirty
    {
      var frames, free, owners, parts := MakeFrames(size);
      var clock := new ClockPolicy(frames);
      this.disk, pool, freeList, policy, pageTable := disk, frames, free, clock, map[];
      owner, footprint := owners, parts + {this, clock};
      cache := EmptyCache(size);
      dirty := seq(size, i => false);
      bytes := seq(size, i requires 0 <= i < size && i < |frames| reads frames, set f | f in frames :: f.data =>
                           frames[i].data[..]);
      store := disk.pages;
      new;
      EmptyCacheValid(size);
      assert Shape();
    }

    method Pin(f: Frame)
      requires Sound() && f in pool
      modifies f`pinCount, this`cache
      ensures Sound() && cache == old(cache).Pin(Index(f))
    {
      hide Coherent;
      f.pinCount := f.pinCount + 1;
      cache := cache.Pin(Index(f));
      SameAssignmentCoherent(old(cache), cache, dirty, bytes, disk.pages, store);
    }

    method Unpin(f: Frame)
      requires Sound() && f in pool
      modifies f`pinCount, this`cache
      ensures Sound() && cache == old(cache).Unpin(Index(f))
    {
      hide Coherent;
      f.pinCount := f.pinCount - 1;
      cache := cache.Unpin(Index(f));
      SameAssignmentCoherent(old(cache), cache, dirty, bytes, disk.pages, store);
    }

    /** The disk half of `Read`: the bytes land in the frame's buffer. */
    method Fill(pid: int, f: Frame)
      requires Shape() && Tied() && f in pool
      modifies f.data, this`bytes
      ensures Tied() && bytes == old(bytes)[Index(f) := bytes[Index(f)]]
      ensures pid in disk.pages ==> bytes[Index(f)] == disk.pages[pid]
    {
      disk.ReadPage(pid, f.data);
      bytes := bytes[Index(f) := f.data[..]];
    }

    /** The bookkeeping half of `Read`: frame `f` becomes the clean home of page `pid`. */
    method Enter(pid: int, f: Frame)
      requires Shape() && Tied() && f in pool && !f.dirty
      modifies f`pageId, f`dirty, this`pageTable, this`cache
      ensures Tied() && cache == old(cache).Assign(pid, Index(f))
    {
      hide Cache.Valid, Cache.FreeApart, Cache.Mapped;
      pageTable := pageTable[pid := f];
      f.pageId := pid;
      f.dirty := false;
      cache := cache.Assign(pid, Index(f));
    }

    /** Loads page `pid` into the unassigned frame `f`. */
    method Read(pid: int, f: Frame)
      requires Sound() && f in pool && 0 <= pid < I32_LIMIT && pid !in cache.table
      requires cache.page[Index(f)] == NO_PAGE
      modifies f`pageId, f`dirty, f.data, this`pageTable, this`cache, this`bytes
      ensures Sound() && cache == old(cache).Assign(pid, Index(f))
    {
      ghost var i := Index(f);
      assert !dirty[i];
      Fill(pid, f);
      LoadCoherent(cache, dirty, old(bytes), disk.pages, store, pid, i, bytes[i]);
      Enter(pid, f);
    }

    /** Writes a dirty frame back. */
    method Flush(f: Frame)
      requires Sound() && f in pool && f.dirty
      modifies f`dirty, disk`pages, disk`numPages, this`dirty
      ensures Sound() && dirty == old(dirty)[Index(f) := false]
    {
      ghost var i := Index(f);
      FlushCoherent(cache, dirty, bytes, disk.pages, store, i);
      disk.WritePage(f.pageId, f.data);
      f.dirty := false;
      dirty := dirty[i := false];
    }

    /** Afterwards the disk alone holds every page's meaning. */
    method FlushAll()
      requires Valid()
      modifies pool, disk`pages, disk`numPages, this`dirty
      ensures Valid() && disk.pages == store == old(store) && cache == old(cache)
      ensures forall f :: f in pool ==> !f.dirty && f.data[..] == old(f.data[..])
    {
      for i := 0 to |pool|
        invariant Sound()
        invariant forall k :: 0 <= k < i ==> !dirty[k]
      {
        if pool[i].dirty {
          Flush(pool[i]);
        }
      }
      CleanIsDisk(cache, dirty, bytes, disk.pages, store);
    }

    /** Takes the page out of a clean frame. */
    method Unmap(f: Frame)
      requires Sound() && f in pool && !f.dirty
      modifies f`pageId, f`dirty, this`pageTable, this`cache
      ensures Sound() && cache == old(cache).Unassign(Index(f))
    {
      hide Coherent;
      if f.pageId != NO_PAGE {
        pageTable := pageTable - {f.pageId};
      }
      f.pageId := NO_PAGE;
      f.dirty := false;
      cache := cache.Unassign(Index(f));
      UnassignCoherent(old(cache), dirty, bytes, disk.pages, store, Index(f));
    }

    /** The clock policy's choice, or null when every frame is pinned. */
    method ChooseVictim() returns (victim: Frame?)
      requires Sound()
      modifies policy, this`cache
      ensures Sound() && cache == old(cache).AfterSweep()
      ensures victim == null <==> old(cache).Swept().victim.None?
      ensures victim != null ==> victim in pool && old(cache).Swept().victim == Some(Index(victim))
    {
      hide Coherent;
      assert policy.Pins() == cache.pins;
      victim := policy.ChooseVictim();
      cache := cache.AfterSweep();
      SameAssignmentCoherent(old(cache), cache, dirty, bytes, disk.pages, store);
    }

    /** Frees the frame the clock policy picks, writing its page back if dirty. */
    method Evict() returns (r: Result<Frame>)
      requires Sound()
      modifies pool, policy, disk`pages, disk`numPages, this`pageTable, this`cache, this`dirty
      ensures Sound()
      ensures r.Err? <==> old(cache).Swept().victim.None?
      ensures r.Err? ==> r == Err(AllFramesPinned) && cache == old(cache).AfterSweep()
      ensures r.Ok? ==>
        r.value in pool && old(cache).Swept().victim == Some(Index(r.value)) && cache == old(cache).Evict()
    {
      hide Coherent;
      var victim := ChooseVictim();
      if victim == null {
        return Err(AllFramesPinned);
      }
      if victim.dirty {
        Flush(victim);
      }
      Unmap(victim);
      return Ok(victim);
    }

    /** The frame on top of the free stack. */
    method TakeFree() returns (f: Frame)
      requires Sound() && cache.free != []
      modifies freeList, this`cache
      ensures Sound() && cache == old(cache).PopFree()
      ensures f == pool[old(cache).free[|old(cache).free| - 1]]
    {
      hide Coherent;
      f := freeList.Get();
      cache := cache.PopFree();
      SameAssignmentCoherent(old(cache), cache, dirty, bytes, disk.pages, store);
    }

    method RecordAccess(f: Frame)
      requires Sound() && f in pool
      modifies policy`refs, this`cache
      ensures Sound() && cache == old(cache).SetRef(Index(f), true)
    {
      hide Coherent;
      policy.RecordAccess(f);
      cache := cache.SetRef(Index(f), true);
      SameAssignmentCoherent(old(cache), cache, dirty, bytes, disk.pages, store);
    }

    method RecordLoad(f: Frame)
      requires Sound() && f in pool
      modifies policy`refs, this`cache
      ensures Sound() && cache == old(cache).SetRef(Index(f), true)
    {
      hide Coherent;
      policy.RecordLoad(f);
      cache := cache.SetRef(Index(f), true);
      SameAssignmentCoherent(old(cache), cache, dirty, bytes, disk.pages, store);
    }

    method RecordUnpin(f: Frame)
      requires Sound() && f in pool
      modifies policy`refs, this`cache
      ensures Sound() && cache == old(cache).SetRef(Index(f), false)
    {
      hide Coherent;
      policy.RecordUnpin(f);
      cache := cache.SetRef(Index(f), false);
      SameAssignmentCoherent(old(cache), cache, dirty, bytes, disk.pages, store);
    }

    /** A frame without a page: from the free stack while it lasts, then by eviction. */
    method Obtain() returns (r: Result<Frame>)
      requires Sound()
      modifies pool, freeList, policy, disk`pages, disk`numPages, this`pageTable, this`cache, this`dirty
      ensures Sound() && cache == old(cache).Vacate()
      ensures r.Err? ==> r == Err(AllFramesPinned) && old(cache).Target().None?
      ensures r.Ok? ==> r.value in pool && old(cache).Target() == Some(Index(r.value))
    {
      hide Coherent;
      if !freeList.Empty() {
        var f := TakeFree();
        return Ok(f);
      }
      r := Evict();
    }

    /** A page hit. */
    method Hit(f: Frame)
      requires Sound() && f in pool
      modifies f`pinCount, policy`refs, this`cache
      ensures Sound() && cache == old(cache).Pin(Index(f)).SetRef(Index(f), true)
    {
      hide Coherent;
      Pin(f);
      RecordAccess(f);
    }

    /** A page miss, once a frame has been found. */
    method Load(pid: int, f: Frame)
      requires Sound() && f in pool && 0 <= pid < I32_LIMIT && pid !in cache.table
      requires cache.page[Index(f)] == NO_PAGE
      modifies f`pinCount, f`pageId, f`dirty, f.data, policy`refs, this`pageTable, this`cache, this`bytes
      ensures Sound() && cache == old(cache).Load(pid, Index(f))
    {
      hide Coherent;
      Pin(f);
      Read(pid, f);
      RecordLoad(f);
    }

    /** Brings a page that is not cached into a frame. */
    method Miss(pid: int) returns (r: Result<Frame>)
      requires Sound() && cache.Valid() && 0 <= pid < I32_LIMIT && pid !in cache.table
      modifies footprint, disk`pages, disk`numPages
      ensures Sound() && store == old(store)
      ensures cache == old(cache).Request(pid)
      ensures r.Ok? <==> old(cache).HasRoom()
      ensures r.Ok? ==> pid in cache.table && r.value == pool[cache.table[pid]]
      ensures r.Err? ==> r == Err(AllFramesPinned) && cache == old(cache)
      ensures forall g :: g in pool && r != Ok(g) ==> g.data[..] == old(g.data[..])
    {
      hide Coherent, Cache.Valid, TiedBut;
      TargetVacated(cache);
      r := Obtain();
      if r.Ok? {
        Load(pid, r.value);
      }
    }

    /** Pins the page's frame, loading the page first if it is not cached. */
    method Request(pid: int) returns (r: Result<Frame>)
      requires Valid() && 0 <= pid < I32_LIMIT
      modifies footprint, disk`pages, disk`numPages
      ensures Valid() && store == old(store) && cache == old(cache).Request(pid)
      ensures r.Ok? <==> old(cache).CanRequest(pid)
      ensures r.Err? ==> r == Err(AllFramesPinned) && cache == old(cache)
      ensures forall g :: g in pool && (r != Ok(g) || old(cache.Resident(pid))) ==> g.data[..] == old(g.data[..])
      ensures r.Ok? ==> Holds(r.value, pid) && cache.CanRelease(pid) && r.value == pool[cache.table[pid]]
    {
      hide Coherent, Cache.Vacate, Cache.Target;
      if cache.CanRequest(pid) {
        RequestKeeps(cache, pid);
        RequestPins(cache, pid);
      }
      if pid in pageTable {
        Hit(pageTable[pid]);
        FrameBytes(cache.table[pid]);
        return Ok(pageTable[pid]);
      }
      r := Miss(pid);
      if r.Ok? {
        FrameBytes(cache.table[pid]);
      }
    }

    /** Drops one pin; the policy hears of it when the last one goes. */
    method DropPin(f: Frame)
      requires Sound() && f in pool
      modifies f`pinCount, policy`refs, this`cache
      ensures Sound()
      ensures var i, c := Index(f), old(cache);
              cache == if c.pins[i] == 1 then c.Unpin(i).SetRef(i, false) else c.Unpin(i)
    {
      hide Coherent;
      Unpin(f);
      if f.pinCount == 0 {
        RecordUnpin(f);
      }
    }

    /** Ends one use of a cached page. */
    method Release(pid: int) returns (r: Result<()>)
      requires Valid()
      modifies footprint
      ensures Valid() && store == old(store)
      ensures forall f :: f in pool ==> f.data[..] == old(f.data[..])
      ensures r.Ok? <==> old(cache).CanRelease(pid)
      ensures r.Ok? ==> cache == old(cache).Release(pid)
      ensures r.Err? ==> cache == old(cache)
      ensures r.Err? ==> r == Err(if old(cache).Resident(pid) then PinCountZero else PageNotFound)
    {
      hide Coherent;
      if pid !in pageTable {
        return Err(PageNotFound);
      }
      var f := pageTable[pid];
      if f.pinCount <= 0 {
        return Err(PinCountZero);
      }
      ReleaseKeeps(cache, pid);
      DropPin(f);
      return Ok(());
    }

    /** Records that a frame was written: its bytes become the meaning of its page. */
    method MarkDirty(f: Frame)
      requires Shape() && f in pool && ValidBut(Index(f)) && cache.page[Index(f)] != NO_PAGE
      modifies f`dirty, this`dirty, this`bytes, this`store
      ensures Valid() && f.dirty && store == old(store)[f.pageId := f.data[..]]
    {
      hide Cache.Valid, Coherent;
      ghost var i := Index(f);
      MarkCoherent(cache, dirty, bytes, disk.pages, store, i, f.data[..]);
      f.dirty := true;
      dirty, bytes := dirty[i := true], bytes[i := f.data[..]];
      store := store[f.pageId := f.data[..]];
    }

    /** A frame already marked dirty was written again: its page's meaning follows. */
    ghost method Follow(f: Frame)
      requires Shape() && f in pool && ValidBut(Index(f)) && f.dirty
      modifies this`bytes, this`store
      ensures Valid() && store == old(store)[f.pageId := f.data[..]]
    {
      MarkCoherent(cache, dirty, bytes, disk.pages, store, Index(f), f.data[..]);
      assert dirty[Index(f) := true] == dirty;
      bytes := bytes[Index(f) := f.data[..]];
      store := store[f.pageId := f.data[..]];
    }
  }
}
