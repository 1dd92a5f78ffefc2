/** Closing and reopening a database: everything a heap holds is on disk after a flush. */
module Restart {
  import opened ClockSpec
  import opened CacheSpec
  import opened HeapChain
  import opened BufferManager
  import opened HeapFile
  import opened Disk

  method Flush(hf: HeapFile)
    requires hf.Valid()
    modifies hf.bm.footprint, hf.dm`pages, hf.dm`numPages
    ensures hf.Valid() && hf.dm.pages == hf.bm.store == old(hf.bm.store)
    ensures hf.Contents() == old(hf.Contents())
  {
    hf.bm.FlushAll();
  }

  /** A new disk manager over the file, and a new pool of any size over that. Every stored page stays in
      use. */
  method Reopen(bm: BufferManager, dm: DiskManager, size: nat) returns (disk: DiskManager, pool: BufferManager)
    requires bm.Valid() && dm == bm.disk && 0 < size && dm.pages == bm.store
    ensures pool.Valid() && pool.disk == disk && |pool.pool| == size && fresh(disk) && fresh(pool.footprint)
    ensures disk !in pool.footprint && pool.store == bm.store
    ensures pool.cache == EmptyCache(size) && pool.cache.HasRoom() && pool.cache.BitsFollowPins()
    ensures forall p :: p in pool.store ==> !disk.Allocatable(p)
  {
    EmptyCacheValid(size);
    disk := new DiskManager(dm.pages, dm.numPages);
    pool := new BufferManager(disk, size);
    assert 0 in Unpinned(pool.cache.pins);
  }

  /** A heap opened in a pool over the same pages finds the same chain and records. */
  method OpenAgain(hf: HeapFile, disk: DiskManager, pool: BufferManager) returns (again: HeapFile)
    requires hf.Valid() && pool.Valid() && disk == pool.disk && disk !in pool.footprint && pool.store == hf.bm.store
    requires forall p :: p in pool.store ==> !disk.Allocatable(p)
    ensures fresh(again) && again.Valid() && again.bm == pool && again.dm == disk && again.fileId == hf.fileId
    ensures again.firstPage == hf.firstPage && again.chain == hf.chain && again.Contents() == hf.Contents()
  {
    hide BufferManager.Valid;
    again := HeapFile.Open(pool, disk, hf.fileId, hf.firstPage);
    ChainUnique(pool.store, hf.firstPage, again.chain, hf.chain, 0);
    ChainFramed(hf.bm.store, pool.store, hf.firstPage, hf.chain);
  }

  /** After a flush, a new disk manager over the file, a new pool of any size and a heap opened at the
      same first page find the same chain and the same records, and no stored page, of this heap or of
      another, is handed out again. */
  method FlushAndReopen(hf: HeapFile, size: nat) returns (disk: DiskManager, pool: BufferManager, again: HeapFile)
    requires hf.Valid() && 0 < size
    modifies hf.bm.footprint, hf.dm`pages, hf.dm`numPages
    ensures again.Valid() && again.bm == pool && pool.disk == disk && |pool.pool| == size
    ensures again.chain == hf.chain && again.Contents() == old(hf.Contents()) && again.firstPage == hf.firstPage
    ensures hf.Valid() && hf.Contents() == old(hf.Contents())
    ensures fresh(again) && fresh(pool.footprint) && fresh(disk) && disk !in pool.footprint
    ensures pool.store == hf.bm.store == old(hf.bm.store)
    ensures pool.cache == EmptyCache(size) && pool.cache.HasRoom() && pool.cache.BitsFollowPins()
    ensures forall p :: p in pool.store ==> !disk.Allocatable(p)
  {
    hide BufferManager.Valid, HeapFile.Valid, EmptyCache;
    Flush(hf);
    hf.Parts();
    disk, pool := Reopen(hf.bm, hf.dm, size);
    again := OpenAgain(hf, disk, pool);
  }
}
