# A verified model of the storage, access and query stack

This project models a small relational database engine from the page layout up to query execution and
proves what each layer means to the one above it. `dafny verify dfyconfig.toml` checks everything.

| Layer | Files | Concrete form | What it is proved to be |
|---|---|---|---|
| Page | `PageSpec`, `SlottedPage` | one mutable 8192-byte array | a sequence of records and a free-space count |
| Clock | `ClockSpec`, `BufferPool` | reference bits and a hand, updated in a loop | the first clear unpinned frame, else the first unpinned one |
| Page cache | `CacheSpec`, `CacheRuns`, `UsesLanding`, `StoreSpec`, `BufferManager` | frame objects, page table, free list, policy, disk | a map from page id to bytes, and a state machine for residency, solved for any sequence of uses |
| Heap file | `HeapSpec`, `HeapChain`, `HeapFile` | linked pages reached through the cache | a sequence of pages of optional records, first-fit insertion |
| Scan | `ScanSpec`, `HeapIterator`, `Residency`, `ViewLifetime`, `ScanLanding`, `Calls`, `LastWrites`, `ViewRuns` | a nested loop over pages and slots; borrowed views | every live record once, in order; a map from ids to bytes over any run; exactly when a view is still good, over single steps, scans and whole runs of calls |
| Rows | `Codec`, `RowSpec`, `RowOrder`, `Table` | padding, fields, length prefixes | a round trip; what a run of inserts leaves to be read, and exactly when in insertion order |
| Catalog | `CatalogSpec`, `ColumnOrder`, `Catalog`, `TableManager`, `OpenTables` | rows in two heaps and a cache of handles | lookups that never change, handles that always agree, any number of open tables side by side, the same database after a restart |
| Queries | `Operators`, `ShownRows`, `Query`, `EndToEnd` | stateful pull operators | `take`, `map` and `filter` over the rows the scan's views show, which are the table's rows as long as no view is lost |
| Runs across layers | `Restart`, `StaleView`, `WrongRows`, `PinnedInsert` | | flush and reopen; failures, in pools of every size |

The state-changing parts are classes and methods over mutable fields and arrays, as in the source.
Each is proved against functions on plain values (`PageView`, `Cache`, `Heap`, `LiveFrom`, `Encoded`
and so on), and the laws are lemmas about those functions. `BufferManager.Valid` ties the frames, the
page table, the free list, the policy and the disk to an abstract `Cache` and to `store`: the bytes in
the frame where a page is cached, the bytes on disk otherwise. Pages whose bytes nobody ever wrote are
not in `store`, and nothing is claimed about them.

Pin neutrality is stated through `Touch`, one request followed by one release: every heap operation
and every iterator step ends in the cache state `TouchAll(old, pages used)`, which fixes the whole pool
and keeps every pin count. The exception thrown when every frame is pinned is a `Result`; each heap
operation and iterator step states exactly when it is thrown and what it leaves behind.

## Findings

Where the code and its documentation differ, the model follows the code.

1. **The view from `HeapIterator.Next` can be stale.** `Next` takes the view, releases the page and
   advances before the caller reads (`src/access/heap/heap_iterator.cpp:27-38`), although
   `src/access/heap/README.md` promises an eviction-safe scan without use after unpin.
   `StaleView.StepShowsWrongRecord` is a run, in a pool of any size, whose first scan step returns the
   first record's id and the second record's bytes. `ViewLifetime.StepKeepsView` and
   `ViewLifetime.LosslessExactly` give the exact condition, step by step: after the step the view's
   frame has lost the record's page if and only if the pages looked at next miss more often than frames
   are free and the clock would pick this very frame. `ScanLanding.LosslessNow` gives it for a whole
   scan, read off the pool before the scan: no two pages that one step spans land in the same frame.
   The operators are modelled on what the views really show, and `WrongRows.QueryReturnsWrongRow` is a
   select over two rows that returns the second one twice. When the heap's pages fit in the pool, every
   view from `Get` or a scan stays good over any run of calls until its record is modified
   (`ViewRuns.RunCalls`).
2. **A full pool keeps reusing one frame.** `record_load` sets the reference bit, `record_unpin` clears
   it, and the hand stays on its victim (`clock_policy.cpp:12-59`), so the page just loaded is the next
   victim, however large the pool (`CacheRuns.LoadedThenLost`, `CacheRuns.OneFrameReused`).
   `CLOCK_POLICY.md` says both that a load sets the bit (section 4.1) and that it clears it (section 5),
   and that unpinning needs no special handling.
3. **An insert that fails with every frame pinned can destroy the heap.** If all pages of the chain are
   cached and none fits, the last page is linked to the new page before that page's frame is requested
   (`src/access/heap/heap_file.cpp:74-86`); the request then throws. The heap's README calls this linking
   atomic. `HeapFile.HeapFile.Insert` states exactly when this happens, `HeapChain.ChainGoesOn` when a
   chain still starts at the first page, and `PinnedInsert.InsertExactly` joins the two.
   `PinnedInsert.InsertDestroysHeap` is such a run, in a new pool of any size.
4. A failed oversize insert leaves all records unchanged but links one more empty page.
5. Length zero means deleted: an empty record is inserted, gets an id, and reads as absent; updating to
   length zero deletes; updating a deleted slot revives it; deleting twice succeeds twice.
6. The free list only shrinks after construction; an evicted frame goes straight to the request.
7. `CreateTable` ignores failed inserts, so rows too long for a page are silently missing.
8. `GetColumns` returns scan order, and `OpenTable` decodes rows with it. That is the order in which the
   columns, if no two are the same, were stored if and only if the pages chosen by first fit for their
   rows never decrease (`ColumnOrder.ColumnsInOrderExactly`); `ColumnOrder.ColumnsReordered` is a case where they do.
9. A signed integer in an INT column comes back as the same 32 bits unsigned.

## Model

| member | source | states |
|---|---|---|
| `SlottedPage.SlottedPage.Init` | src/storage/page/slotted_page.cpp:51-55 | the page is well formed, has no records and all the space behind its header; bytes in front of it are untouched |
| `SlottedPage.SlottedPage.Insert` | src/storage/page/slotted_page.cpp:57-77 | succeeds exactly if record and slot fit; then the record is the last of the page, under the next slot number, below the old record area, and free space is less by its length and four bytes; all others keep their place and bytes; a refusal leaves every byte as it was; slot numbers stay below 65536 |
| `SlottedPage.SlottedPage.Get` | src/storage/page/slotted_page.cpp:79-92 | a view exactly of live slots, in bounds, showing the record's bytes and lying behind the directory |
| `SlottedPage.SlottedPage.Update` | src/storage/page/slotted_page.cpp:94-120 | succeeds exactly if the slot exists and the new bytes fit in place or in free space; then that record alone changes; free space is as it was for bytes no longer than the old, and less by their full length otherwise; all others keep their place and bytes |
| `SlottedPage.SlottedPage.Relocate` | src/storage/page/slotted_page.cpp:106-117 | the moving branch: the record is the new bytes, right below the old record area, free space shrinks by the full length, all other records keep their place and bytes |
| `SlottedPage.SlottedPage.Shrink` | src/storage/page/slotted_page.cpp:101-105 | the in-place branch: the record is the new bytes at its old offset, free space is unchanged, all other records keep their place and bytes |
| `SlottedPage.SlottedPage.Delete` | src/storage/page/slotted_page.cpp:122-129 | succeeds on every existing slot, dead or live, and empties that record alone; free space is unchanged; all others keep their place and bytes |
| `SlottedPage.SlottedPage.FreeSpace` | src/storage/page/slotted_page.cpp:140-146 | never underflows: it is the gap between directory and records that the page view offers |
| `SlottedPage.Appended` | src/storage/page/slotted_page.cpp:57-77 | a page image with one more entry and record below the old ones is well formed (directory below records, live records disjoint and in bounds) and means the old page with the record appended |
| `SlottedPage.Replaced` | src/storage/page/slotted_page.cpp:94-129 | a page image with one record rewritten, moved or dropped is well formed and means the old page with that record replaced |
| `SlottedPage.BodyDecides` | src/storage/page/slotted_page.cpp:131-146 | the bytes in front of the slotted area do not affect what the page means |
| `SlottedPage.KeptView` | src/storage/page/slotted_page.cpp:57-129 | a view of a record that kept its place denotes that record's present bytes in the changed page |
| `SlottedPage.LayoutBytes` | src/storage/page/slotted_page.cpp:131-146 | where the record count, the record area's start and each entry's offset and length lie, byte by byte |
| `ClockSpec.VictimCharacterised` | src/storage/buffer_manager/replacement_policies/clock_policy.cpp:12-32 | from any bits and hand, 2N steps end at the first clear unpinned frame in circular order, else the first unpinned one, else nothing exactly when all are pinned; the bits of exactly the unpinned frames passed are cleared |
| `ClockSpec.FirstIsUnique` | src/storage/buffer_manager/replacement_policies/clock_policy.cpp:12-36 | circular order from the hand has at most one first member of a set of frames |
| `ClockSpec.SkipAhead` | src/storage/buffer_manager/replacement_policies/clock_policy.cpp:12-36 | what one stretch of the sweep without a victim does to hand and bits |
| `BufferPool.ClockPolicy.ChooseVictim` | src/storage/buffer_manager/replacement_policies/clock_policy.cpp:12-32 | the loop over frames computes exactly that sweep: victim, new bits and new hand |
| `BufferPool.FreeList.Get` | src/storage/buffer_manager/free_list.cpp:12-20 | takes the frame added last, null exactly when empty |
| `CacheSpec.SweepFindsVictim` | src/storage/buffer_manager/buffer_manager.cpp:93-118 | with no free frame and one unpinned, eviction finds an unpinned frame whose page is mapped to it |
| `CacheSpec.TargetVacated` | src/storage/buffer_manager/buffer_manager.cpp:44-56 | a miss finds a frame exactly when some frame is unpinned; otherwise the pool does not change at all |
| `CacheSpec.EvictVacates` | src/storage/buffer_manager/buffer_manager.cpp:93-118 | eviction leaves one frame unassigned, unpinned and off the free list, and everything else consistent |
| `CacheSpec.RequestKeeps` | src/storage/buffer_manager/buffer_manager.cpp:31-62 | the page table stays a bijection with the loaded frames and the free list the rest |
| `CacheSpec.RequestPins` | src/storage/buffer_manager/buffer_manager.cpp:31-62 | a request raises one pin count by one, its page's; no pinned frame changes its page; the free list never grows |
| `CacheSpec.ReleaseKeeps` | src/storage/buffer_manager/buffer_manager.cpp:64-80 | a release moves no page |
| `CacheSpec.EmptyCacheValid` | src/storage/buffer_manager/buffer_manager.cpp:6-29 | a new pool has the structure that every operation keeps: no page mapped, every frame free once |
| `CacheRuns.ReachableStates` | src/storage/buffer_manager/buffer_manager.cpp:31-80 | over every run of requests and releases, failed ones included, the structure holds and a reference bit is set exactly while its frame is pinned |
| `CacheRuns.RequestBits` | src/storage/buffer_manager/buffer_manager.cpp:31-62 | a request keeps bits equal to being pinned, whether it hits, loads a free frame or evicts |
| `CacheRuns.QuietSweep` | src/storage/buffer_manager/replacement_policies/clock_policy.cpp:38-59 | in such states a sweep clears nothing and takes the first unpinned frame within N steps |
| `CacheRuns.TouchKeeps` | src/storage/buffer_manager/buffer_manager.cpp:31-80 | a request and its release leave every pin count as it was, whether or not the page was cached |
| `CacheRuns.TouchEffect` | src/storage/buffer_manager/buffer_manager.cpp:31-80 | the whole effect of such a pair: nothing on a hit, a free frame or the victim reassigned on a miss |
| `CacheRuns.NoEviction` | src/storage/buffer_manager/buffer_manager.cpp:46-55 | while misses fit on the free list nothing is evicted and every cached page keeps its frame |
| `CacheRuns.OneFrameReused` | src/storage/buffer_manager/replacement_policies/clock_policy.cpp:12-32 | once they do not, one single frame is reused for all further misses |
| `CacheRuns.StaysInFrame` | src/storage/buffer_manager/buffer_manager.cpp:46-55 | a cached page leaves its frame during later uses of different other pages if and only if these miss more often than frames are free and its frame is the clock's present choice |
| `CacheRuns.LoadedThenLost` | src/storage/buffer_manager/replacement_policies/clock_policy.cpp:45-59 | in a full pool of any size the page just loaded is the one the next miss throws out |
| `UsesLanding.FramesHeld` | src/storage/buffer_manager/buffer_manager.cpp:31-80 | after any uses, repeated pages included, each frame holds the last page that landed in it, or what it held, where a page's landing frame is read off the pool before: its cached place, the next free frame in the order of first uses, or the clock's present choice |
| `UsesLanding.StaysExactly` | src/storage/buffer_manager/buffer_manager.cpp:46-55 | a cached page is in its frame after any uses if and only if it is the last page that landed there or none did; only the frame of the clock's present choice can lose its page |
| `UsesLanding.LandUnique` | src/storage/buffer_manager/buffer_manager.cpp:44-62 | different pages land in different frames, the clock's choice aside |
| `BufferManager.BufferManager.constructor` | src/storage/buffer_manager/buffer_manager.cpp:6-29 | a pool of empty frames, all free, through which the pages mean what the disk holds |
| `BufferManager.BufferManager.Request` | src/storage/buffer_manager/buffer_manager.cpp:31-62 | fails exactly if the page is not cached and all frames are pinned; never changes what any page means; the pool makes exactly the abstract step; the frame holds the page's bytes, and every other frame keeps its own |
| `BufferManager.BufferManager.Release` | src/storage/buffer_manager/buffer_manager.cpp:64-80 | the two errors exactly on uncached and unpinned pages; otherwise the abstract step, with every byte and every page unchanged |
| `BufferManager.BufferManager.Evict` | src/storage/buffer_manager/buffer_manager.cpp:93-118 | throws exactly if the sweep finds nothing; writes a dirty victim back, so no page's meaning changes |
| `BufferManager.BufferManager.Read` | src/storage/buffer_manager/buffer_manager.cpp:120-125 | the frame becomes the clean home of the page and no page changes its meaning |
| `BufferManager.BufferManager.Flush` | src/storage/buffer_manager/buffer_manager.cpp:127-130 | writing a dirty frame back clears its flag and changes no page's meaning |
| `BufferManager.BufferManager.MarkDirty` | src/storage/buffer_manager/buffer_manager.cpp:82-84 | after bytes were written into a frame, marking it makes them the meaning of that one page |
| `BufferManager.BufferManager.FlushAll` | src/storage/buffer_manager/buffer_manager.cpp:86-90 | afterwards no frame is dirty and the disk alone holds every page's meaning; the pool and the bytes in it are as before |
| `StoreSpec.FlushCoherent` | src/storage/buffer_manager/buffer_manager.cpp:127-130 | frames, dirty flags and disk still represent the same page contents after a write-back |
| `StoreSpec.LoadCoherent` | src/storage/buffer_manager/buffer_manager.cpp:120-125 | and after a load into an unassigned frame |
| `StoreSpec.UnassignCoherent` | src/storage/buffer_manager/buffer_manager.cpp:104-115 | and after a clean frame is emptied |
| `StoreSpec.MarkCoherent` | src/storage/buffer_manager/buffer_manager.cpp:82-84 | marking a written frame updates one page's contents and no other's |
| `StoreSpec.CleanIsDisk` | src/storage/buffer_manager/buffer_manager.cpp:86-90 | if no frame is dirty the page contents are those on disk |
| `Disk.DiskManager.AllocatePage` | src/storage/disk_manager/disk_manager.cpp:36-48 | takes the freed page on top off its stack, else the next fresh id, which goes up by one; the page was allocatable and no longer is; no other page changes status |
| `Disk.DiskManager.DeallocatePage` | src/storage/disk_manager/disk_manager.cpp:50-52 | makes exactly this page allocatable again |
| `Disk.DiskManager.ReadPage` | src/storage/disk_manager/disk_manager.cpp:21-26 | a written page's bytes land in the buffer; a never-written one leaves it arbitrary |
| `Disk.DiskManager.WritePage` | src/storage/disk_manager/disk_manager.cpp:28-34 | exactly this page's image changes |
| `HeapSpec.InsertChangesOne` | src/access/heap/heap_file.cpp:43-104 | fails exactly on records over 8176 bytes, then no record changes; otherwise creates the one slot it returns and touches no other record |
| `HeapSpec.InsertPages` | src/access/heap/heap_file.cpp:43-104 | the first page with four bytes more than the record's length free takes it as its last record, for exactly that much; if there is none a page is added, which stays empty if the record is too long for it; all other pages stay as they are |
| `HeapSpec.UpdateChangesOne` | src/access/heap/heap_file.cpp:106-121 | a successful update changes its own place and no other, and no slot appears or vanishes |
| `HeapSpec.DeleteChangesOne` | src/access/heap/heap_file.cpp:123-139 | the same for deletion |
| `HeapSpec.UpdateSpace` | src/storage/page/slotted_page.cpp:94-120 | when an update is possible, and what it leaves of the page's free space: all of it if the bytes are no longer than the old, otherwise less by their full length; all other pages stay as they are |
| `HeapSpec.DeleteSpace` | src/storage/page/slotted_page.cpp:122-129 | deletion leaves the free space of every page as it was |
| `HeapSpec.LaterInsertSame` | src/access/heap/heap_file.cpp:57-139 | where a later record goes does not depend on deletions, nor on updates that do not grow |
| `HeapSpec.NeverReissued` | src/access/heap/heap_file.cpp:43-139 | after any run of inserts, updates and deletes no insert returns a place handed out before |
| `HeapSpec.InsertionOrder` | src/access/heap/heap_file.cpp:57-95 | of two successful inserts with any run between them, the later lands later in scan order if its record is at least as long |
| `HeapSpec.RunGrows` | src/storage/page/slotted_page.cpp:57-129 | over any run pages and slots are only added and free space never grows |
| `HeapSpec.RunConserves` | src/storage/page/slotted_page.cpp:57-146 | over any run live bytes, directory and free space of a page never exceed the page |
| `HeapChain.ChainUnique` | src/access/heap/heap_iterator.cpp:43-62 | page contents and first page id determine the chain |
| `HeapChain.RewriteInChain` | src/access/heap/heap_file.cpp:57-95 | rewriting the body of one page of a chain changes that page's contents alone |
| `HeapChain.ExtendChain` | src/access/heap/heap_file.cpp:74-88 | relinking the last page and writing the new one gives the chain one page longer, acyclic and ending in -1 |
| `HeapChain.ChainGoesOn` | src/access/heap/heap_file.cpp:74-85 | pages whose last link leads elsewhere belong to a whole chain if and only if one starts there that avoids them |
| `HeapChain.LinkToNothing` | src/access/heap/heap_file.cpp:74-85 | if the last link leads to a page never written, no chain starts at the first page |
| `HeapFile.HeapFile.InitHeapPage` | src/access/heap/heap_file.cpp:19-23 | the buffer is an empty heap page whose link is -1 |
| `HeapFile.HeapFile.Create` | src/access/heap/heap_file.cpp:172-184 | a heap of one empty page on an id no page in use had; never throws while a frame is unpinned |
| `HeapFile.HeapFile.Open` | src/access/heap/heap_file.cpp:186-191 | a valid heap if a chain of pages in use starts there; nothing is read |
| `HeapFile.HeapFile.Get` | src/access/heap/heap_file.cpp:25-41 | for a record id on any heap page: throws exactly if the page's frame cannot be had; otherwise a view exactly of live records, at the record's place, showing its bytes in the page's frame; nothing changes but the one use of the page |
| `HeapFile.HeapFile.Update` | src/access/heap/heap_file.cpp:106-121 | for a record id on any heap page: throws exactly if the frame cannot be had; success exactly if the page allows it; this heap becomes the updated heap, or stays the same if the page is not its own; all other records keep place and bytes |
| `HeapFile.HeapFile.Delete` | src/access/heap/heap_file.cpp:123-139 | the same for deletion |
| `HeapFile.HeapFile.Walk` | src/access/heap/heap_file.cpp:53-72 | stops at the first page in chain order that fits, or at the first whose frame cannot be had, and terminates; pages used are exactly those up to there; no stored record moves |
| `HeapFile.HeapFile.Append` | src/access/heap/heap_file.cpp:74-103 | a new last page holding the record if it fits an empty page; if its frame cannot be had, the old chain now ends in a link to it |
| `HeapFile.HeapFile.Insert` | src/access/heap/heap_file.cpp:43-104 | the heap becomes that of first-fit insertion with the id it returns, no stored record moves, the pages used are exactly those walked, or all, the last one again and the new one, and it fails only with every frame pinned. With pages: exactly if the walk meets an uncached page before one that fits (then nothing changed) or none fits and the next page's frame cannot be had (then the chain dangles). Without: exactly if the frame of the first page, or for a record too long for it of the second, cannot be had |
| `HeapFile.HeapFile.Undisturbed` | src/access/heap/heap_file.cpp:25-139 | writes to pages outside a heap leave it as it was |
| `PinnedInsert.InsertExactly` | src/access/heap/heap_file.cpp:43-104 | with a next page id never used, no chain starts at the first page after an insert if and only if no page fits, all pages can be requested and the next one cannot |
| `PinnedInsert.InsertUnderPins` | src/access/heap/heap_file.cpp:74-86 | any heap whose pages are all cached and full, with every frame pinned, is destroyed by an insert |
| `PinnedInsert.InsertDestroysHeap` | src/access/heap/heap_file.cpp:74-86 | in a new pool of any size: one full page, every frame pinned, one more insert; it throws and no chain starts at the first page any more |
| `ScanSpec.ScanExact` | src/access/heap/heap_iterator.cpp:40-63 | the scan order contains every live place from its start on, only those, each once, in page and slot order |
| `ScanSpec.ScanIsAll` | src/access/heap/heap_iterator.cpp:40-63 | a whole scan yields every record that is not empty, each once, by page and then by slot |
| `HeapIterator.HeapIterator.FindLive` | src/access/heap/heap_iterator.cpp:43-62 | the first live slot from a given one, or the next page's id if there is none; throws exactly if the page's frame cannot be had |
| `HeapIterator.HeapIterator.Advance` | src/access/heap/heap_iterator.cpp:40-63 | terminates at the first live place from here on, using exactly the pages looked at, each pinned and released in turn; throws at the first page whose frame cannot be had, and is then left there looking like the end, with no live record skipped |
| `HeapIterator.HeapIterator.Begin` | src/access/heap/heap_file.cpp:145-150 | everything live is still to come; a heap without pages gives the end; throws at the first page whose frame cannot be had |
| `HeapIterator.HeapIterator.Next` | src/access/heap/heap_iterator.cpp:27-38 | drops the first of the places to come and returns its id; the view lies at the record's place and shows the record as long as the frame holds that page; throws without effect if the record's page cannot be had, or having lost the record if a later page cannot |
| `HeapIterator.HeapIterator.Deref` | src/access/heap/heap_file.cpp:156-162 | the current record's id and bytes, with the iterator unmoved; throws exactly if its page cannot be had |
| `HeapIterator.HeapIterator.Increment` | src/access/heap/heap_file.cpp:164-169 | drops the first of the places to come; at the end it stays there |
| `HeapIterator.HeapIterator.ViewShows` | src/access/heap/heap_iterator.cpp:27-38 | what a view shows later: the record while its page stays, else the same offsets of whatever page the frame holds |
| `ViewLifetime.StepKeepsView` | src/access/heap/heap_iterator.cpp:27-38 | after a step the view's frame still holds the record's page if and only if the pages the step goes on to miss no more often than frames are free or the clock's choice is another frame |
| `ViewLifetime.LosslessExactly` | src/access/heap/heap_iterator.cpp:27-63 | the same if and only if for every step of a whole scan |
| `ScanLanding.PlanHolds` | src/storage/buffer_manager/buffer_manager.cpp:31-62 | using pages in order puts each into its landing frame, and it is still there if and only if no later page landed in it |
| `ScanLanding.LosslessNow` | src/access/heap/heap_iterator.cpp:27-63 | a scan about to start loses no view if and only if no two pages that one of its steps spans land in the same frame, landing read off the pool as it is: cached place, next free frame, or the clock's present choice |
| `ViewLifetime.FitIsLossless` | src/storage/buffer_manager/buffer_manager.cpp:46-55 | if the pages fit in the pool beside what is cached, no step of any scan loses its view |
| `ViewLifetime.ResidentViews` | src/storage/buffer_manager/buffer_manager.cpp:46-55 | a page cached before any uses of pages that fit is in the same frame after them |
| `ViewRuns.ScanAll` | src/access/heap/heap_iterator.cpp:9-38 | draining a scan yields the ids of the live records one by one in scan order, each its page's id and its slot, whatever is evicted on the way |
| `ViewRuns.ViewReads` | src/access/heap/heap_file.cpp:25-41 | a view at its record's place in the frame that holds the page reads what the heap holds under its id |
| `ViewRuns.ViewAcrossInsert` | src/access/heap/heap_file.cpp:25-104 | a view from `Get` and then an insert, in any pool: the view's frame still holds the record's page if and only if that page is the last one used by the insert that landed there, or none did; then the view shows the record |
| `ViewRuns.RunCalls` | src/access/heap/heap_file.cpp:25-139 | any run of inserts, updates, deletes, reads, whole scans and single scan steps: every call is answered as the heap's meaning prescribes at that point (new ids, success, presence, the ids of the scan), and the heap becomes what the calls make of its meaning, holding under each id what was last written under it; if its pages in the end fitted the pool at the start, every view given out before or during the run shows what the heap holds under its id, unless that record was modified after the view was taken |
| `ViewRuns.Perform` | src/access/heap/heap_file.cpp:25-139 | one call: its answer, the heap's meaning after it, the ids known and what is left of the program's scan |
| `Calls.OneMore` | src/access/heap/heap_file.cpp:25-139 | answers given over a shorter chain stay right as the chain grows |
| `LastWrites.LastWriteWins` | src/access/heap/heap_file.cpp:25-139 | after any run of calls, what is read under an id is what the answers say was last written under it (stored, updated, or nothing once deleted), or what was there at the start: the heap is a map |
| `LastWrites.FetchFindsLast` | src/access/heap/heap_file.cpp:25-41 | at any point of a run a fetch finds a record exactly if what was last written under its id is not empty |
| `LastWrites.OneCall` | src/access/heap/heap_file.cpp:43-139 | one call changes what is read under the id it wrote, and under no other |
| `Residency.FitUses` | src/storage/buffer_manager/buffer_manager.cpp:46-55 | uses of pages that fit keep every cached page in its frame, and they still fit |
| `StaleView.StepShowsWrongRecord` | src/access/heap/heap_iterator.cpp:27-38 | in a pool of any size: two full pages are stored, flushed and reopened, other pages fill the pool, and the first scan step returns the first record's id with the second record's bytes |
| `StaleView.FirstStep` | src/access/heap/heap_iterator.cpp:27-38 | so does the first step over any two full uncached pages in a full pool |
| `WrongRows.QueryReturnsWrongRow` | src/executor/operators/seq_scan_op.cpp:11-14 | in a pool of any size: two rows are stored, flushed and reopened, other pages fill the pool, and a select returns the second row twice |
| `WrongRows.SelectShowsWrongRow` | src/executor/executor.cpp:14-22 | so does a select over any two rows of a page each whose pages are not cached, in a full pool |
| `Codec.Encode` | src/model/dynamic_codec.cpp:39-56 | the loop computes the padded concatenation of the fields |
| `Codec.Decode` | src/model/dynamic_codec.cpp:58-74 | the loop computes the field-by-field reading, None where it would read past the bytes |
| `Codec.ApplyPadding` | src/model/dynamic_codec.cpp:24-31 | zero bytes, at most three, up to the next multiple of four, nothing else |
| `Codec.SkipPadding` | src/model/dynamic_codec.cpp:33-37 | the next multiple of four: the same place the writer padded to |
| `Codec.RoundTrip` | src/model/dynamic_codec.cpp:39-74 | for every INT/TEXT schema, decoding an encoded row with any bytes behind it gives the row back and stops where the encoding ends |
| `Codec.RoundTripExactly` | src/model/dynamic_codec.cpp:39-74 | a row comes back identical if and only if every value has its column's type and no string reaches 4 GiB |
| `Codec.EncodedInjective` | src/model/dynamic_codec.cpp:39-56 | different rows have different encodings, up to the sign of integers |
| `Codec.FieldsAligned` | src/model/dynamic_codec.cpp:24-56 | every field starts at a multiple of four and is found there whole |
| `Codec.DecodedIsTyped` | src/model/dynamic_codec.cpp:58-74 | whatever bytes are decoded, the values fit the schema |
| `Codec.ReadsBack` | include/util/data.h:22-52 | a written integer or string reads back anywhere in a buffer, with the offset moved past it |
| `Codec.RowLayout` | src/model/dynamic_codec.cpp:24-56 | an encoded row byte by byte: each field behind zero bytes up to the next multiple of four, and nothing else |
| `Codec.FieldLayout` | include/util/data.h:22-35 | a field byte by byte: integers the least significant byte first, negative ones in two's complement, strings behind their length |
| `Codec.CanonicalMeans` | include/util/data.h:22-43 | what an integer written signed is read back as; all other values come back as they are |
| `Codec.DecodeSound` | src/model/dynamic_codec.cpp:58-74 | if decoding succeeds on any bytes, they are made of fields one behind the other, each from the next multiple of four on, with the decoded values as their bytes say |
| `Codec.DecodeComplete` | src/model/dynamic_codec.cpp:58-74 | on all bytes so made decoding succeeds, with those values and that end |
| `Bytes.LittleEndian` | include/util/data.h:22-27 | a number's bytes are its digits in base 256, the least significant first |
| `Bytes.ReadLittleEndian` | include/util/data.h:37-43 | and are read so, signed numbers by the top bit of the last byte |
| `RowSpec.AppendedInScan` | src/access/heap/heap_file.cpp:57-65 | a record appended to a page is scanned right behind that page's other records |
| `RowSpec.InsertedRecord` | src/access/heap/heap_file.cpp:43-104 | an insert adds its record, if storable, to the scan behind the records of the pages up to its own, and nothing else |
| `RowSpec.PackedInsert` | src/access/heap/heap_file.cpp:57-95 | if every page but the last is too full for the record, the insert extends the scan at its end and leaves the heap so |
| `RowSpec.ScannedRecords` | src/access/heap/heap_iterator.cpp:40-63 | the records at the scanned places are the live records in scan order |
| `RowSpec.RecordsAreScanned` | src/access/heap/heap_iterator.cpp:40-63 | the records of a heap, one by one, are those at the places of its scan |
| `RowSpec.RunScansAll` | src/access/heap/heap_file.cpp:43-104 | after any run of inserts a scan shows the old records and the storable new ones, as a multiset |
| `RowSpec.RunScansInOrder` | src/access/heap/heap_file.cpp:43-104 | records of non-decreasing length come back in insertion order |
| `RowSpec.ShorterOvertakes` | src/access/heap/heap_file.cpp:57-65 | a concrete run of three inserts that a scan returns in another order |
| `RowSpec.DecodePermuted` | src/model/user_table.cpp:16-24 | decoding record by record takes permutations to permutations |
| `RowOrder.OrderExactly` | src/access/heap/heap_file.cpp:57-95 | whatever a reader makes of each record, a scan shows what a run of inserts stored in insertion order if the first-fit pages never decrease, and only then if the stored things differ |
| `RowOrder.ScansInOrderExactly` | src/access/heap/heap_file.cpp:43-104 | different records come back in insertion order if and only if the first-fit pages never decrease |
| `RowOrder.PlacesRiseExactly` | src/access/heap/heap_file.cpp:57-95 | the ids of a run's storable records increase in scan order if and only if their first-fit pages never decrease |
| `RowOrder.SpaceAndLengthsDecide` | src/access/heap/heap_file.cpp:57-95 | the first-fit pages of a run depend on the pages' free space and the records' lengths only |
| `RowSpec.RowsComeBack` | src/model/user_table.cpp:11-24 | rows inserted into a new table, scanned and decoded, are a permutation of those that fit on a page, in order if lengths do not decrease |
| `RowSpec.RowsKeptAre` | src/model/user_table.cpp:11-14 | the rows said to come back are those whose encoding is at most 8176 bytes long and no others, in insertion order, with signed integers as unsigned |
| `Table.UserTable.Insert` | src/model/user_table.cpp:11-14 | everything the heap's insert promises, for the encoded row: the heap, the id, the exact pages used, other pages and stored records untouched, the allocator, exactly when it fails and what it then leaves |
| `Table.UserTable.Decode` | src/model/user_table.cpp:16-24 | decodes the bytes the view shows now |
| `Operators.SeqScanOp.Open` | src/executor/operators/seq_scan_op.cpp:7-9 | in any pool: the rows to come are those a scan started now shows, whatever came before |
| `Operators.SeqScanOp.FaithfulRows` | src/executor/operators/seq_scan_op.cpp:7-14 | if no step of a scan started now loses its view, the rows it shows are the table's records, decoded, in scan order |
| `Operators.SeqScanOp.ResidentIsFaithful` | src/executor/operators/seq_scan_op.cpp:7-14 | a table that fits in the pool can be scanned at any time without losing a view |
| `Operators.SeqScanOp.Next` | src/executor/operators/seq_scan_op.cpp:11-14 | in any pool: the bytes the record's view shows after the step, decoded, or nothing, permanently |
| `Operators.SeqScanOp.StepReads` | src/access/heap/heap_iterator.cpp:27-38 | what the view of a step reads: the bytes at the record's place of the page its frame holds after the step |
| `ShownRows.LosslessShows` | src/access/heap/heap_iterator.cpp:27-63 | if no step loses its view, the views show the records |
| `Operators.FilterOp.Next` | src/executor/operators/filter_op.cpp:11-17 | skips the child's rows that do not satisfy the predicate and returns the first that does, or nothing if none is left; the rest is the child's rest behind it |
| `Operators.ProjectionOp.ProjectTuple` | src/executor/operators/projection_op.cpp:25-35 | as many values as positions are selected in the row, each selected value at the rank of its position, under the output schema |
| `Operators.ProjectionOp.Next` | src/executor/operators/projection_op.cpp:15-19 | the projection of the child's next row, nothing exactly if the child has none |
| `Operators.LimitOp.Next` | src/executor/operators/limit_op.cpp:12-20 | below the limit exactly the child's next row, counted, or nothing if it has none; at the limit nothing, and the child is not pulled |
| `Operators.Operator.Open` | src/executor/operators/filter_op.cpp:7-9 | opening any tree, again or for the first time, makes its list function of the rows a scan started now shows the rows to come |
| `Operators.Operator.Next` | src/executor/operators/filter_op.cpp:11-17 | any tree yields its rows one by one, stays exhausted, and leaves the heap and every page unchanged |
| `Operators.ExecuteAndCollect` | src/executor/executor.cpp:14-22 | draining any tree of scan, filter, projection and limit gives exactly its list function of the rows that a scan started now shows; by the topmost operator, in counts and elements: the satisfying rows in order, the projections one by one, or the first rows up to the limit |
| `Operators.Operator.OfMakes` | src/executor/executor.cpp:14-22 | a tree's list function, one operator at a time in counts and elements: all rows, the satisfying ones at rising positions, each row's projection, or the first `limit` rows and as many as there are below it |
| `Operators.FilterMeans` | src/executor/operators/filter_op.cpp:11-17 | a filtered list is made of the satisfying rows at rising positions, and none is missing |
| `Operators.ProjectMeans` | src/executor/operators/projection_op.cpp:25-35 | a projected row has a value for each selected position, at its rank, under the output schema |
| `Operators.RankCounts` | src/executor/operators/projection_op.cpp:29-33 | the rank of a position is the number of selected positions before it |
| `Query.FilterExact` | src/executor/operators/filter_op.cpp:11-17 | the filtered list holds exactly the satisfying rows, each as often as before |
| `Operators.ProjectExact` | src/executor/operators/projection_op.cpp:25-35 | from any position on, the projected values are exactly the selected ones, each at the rank of its position |
| `Query.RowsAreRecords` | src/executor/operators/seq_scan_op.cpp:11-14 | a table's rows are its records in scan order, decoded |
| `Query.TuplesMean` | src/model/user_table.cpp:16-24 | the rows of a scan are the records it shows, decoded one by one, under the table's schema |
| `Query.RecordsDecodable` | src/executor/operators/seq_scan_op.cpp:11-14 | if every record of the scan decodes, every live record does |
| `Query.SelectAll` | src/model/user_table.cpp:11-24 | the rows a scan of a new table decodes after a run of inserts are a permutation of those that fit on a page |
| `EndToEnd.RowsInOrderExactly` | src/model/user_table.cpp:11-24 | decoded rows come back in insertion order if the first-fit pages never decrease, and only then if they differ |
| `EndToEnd.InsertRows` | src/model/user_table.cpp:11-14 | inserting rows one by one makes of the heap what the run of inserts makes of its meaning, using and writing the table's own pages only, at most two new ones a row |
| `EndToEnd.SelectFilled` | src/executor/executor.cpp:14-22 | over the real table, cache and operators, in any pool in which a scan started now loses no view: the rows of a filled table come back once each if they fit on a page, in insertion order if the first-fit pages never decrease and only then if the rows differ; if all rows fit, the k-th row selected is then the k-th inserted, under the table's schema |
| `EndToEnd.ScansTrueExactly` | src/access/heap/heap_iterator.cpp:27-63 | that condition, read off the pool as it is |
| `EndToEnd.InsertAndSelect` | src/executor/executor.cpp:14-22 | rows inserted into a new table and selected, if the pages not yet cached fit into the free frames: the same result |
| `CatalogSpec.TableReadsBack` | src/catalog/catalog_codec.cpp:6-23 | a table row decodes to the table it was made from |
| `CatalogSpec.ColumnReadsBack` | src/catalog/catalog_codec.cpp:40-57 | a column row decodes to the column it was made from |
| `CatalogSpec.TableLayout` | src/catalog/catalog_codec.cpp:6-13 | a table row byte by byte: page id, file id, table id, name behind its length |
| `CatalogSpec.ColumnLayout` | src/catalog/catalog_codec.cpp:40-47 | a column row byte by byte: name behind its length, ordinal, table id, type id |
| `CatalogSpec.LookupMeans` | src/catalog/catalog_tables.cpp:4-18 | a lookup answers with the first row of that name, none exactly if no row has it |
| `CatalogSpec.ColumnsMean` | src/catalog/catalog_tables.cpp:20-35 | a table's columns are those of the rows with its id, all of them, in the order of the rows |
| `CatalogSpec.InsertFirstFitted` | src/access/heap/heap_file.cpp:57-95 | insertion keeps every row where no earlier page would have taken it |
| `CatalogSpec.LookupStable` | src/catalog/catalog_tables.cpp:4-18 | creating a table never changes what the lookup of an existing name returns, even of the same name |
| `CatalogSpec.ColumnsStored` | src/catalog/catalog_tables.cpp:20-35 | a lookup of a new table's id returns its stored columns, each once, and other ids return what they did |
| `ColumnOrder.ColumnsInOrderExactly` | src/catalog/catalog_tables.cpp:20-35 | a new table's columns come back in the order they were stored if the first-fit pages of their rows never decrease, and only then if they differ |
| `ColumnOrder.ColumnsReordered` | src/catalog/catalog_tables.cpp:20-35 | with 40 bytes left on the page, columns with names of 20 and then 5 bytes come back in the other order |
| `CatalogSpec.HandlesStable` | src/model/table_manager.cpp:8-24 | creating a table with a fresh id changes no existing table's handle |
| `Catalog.Lookup` | src/catalog/catalog_tables.cpp:4-18 | the scan through the cache returns the earliest stored row of that name; it throws only if every frame is pinned and some page of the catalog is not cached |
| `Catalog.GetColumns` | src/catalog/catalog_tables.cpp:20-35 | the scan returns the columns of that table in scan order; it throws only under the same condition |
| `Catalog.Catalog.CreateTable` | src/catalog/catalog.cpp:19-42 | both catalog heaps become those after inserting the table row and then each column row; the row leads to a page that is a whole heap of one empty page, used by nothing else; all other pages in use stay what they are; it throws only with every frame pinned |
| `TableManager.TableManager.OpenTable` | src/model/table_manager.cpp:8-20 | a cached name gives the cached table and touches neither cache nor pool; otherwise the handle has the ids and page of the earliest row of that name and the columns stored for it, none exactly if the name is unknown; a miss is cached and its heap is the chain at the stored page; it throws only on a miss whose scans do |
| `TableManager.TableManager.OpenTwice` | src/model/table_manager.cpp:8-20 | opening a known name twice gives one table, which stays cached |
| `TableManager.TableManager.CreateTable` | src/model/table_manager.cpp:22-24 | every handle handed out before still agrees with the catalog, and the new row leads to a new empty heap |
| `TableManager.TableManager.CreateAndOpen` | src/model/table_manager.cpp:8-24 | a table created under a new name opens as a valid empty heap of its own on a page that was free; every column of its schema is one of the given ones, with its name, type and ordinal under the new id, all of them if no name is longer than 8150 bytes, and then index by index if the first-fit pages of their rows never decrease, and, the columns being different, only then; all other pages in use stay what they are |
| `TableManager.TableManager.InsertRow` | src/model/user_table.cpp:11-14 | a row inserted into an open table leaves the catalog and all pages outside the table as they are and every handle agreeing |
| `OpenTables.CreateAmong` | src/model/table_manager.cpp:8-24 | with any number of tables open, creating one leaves every other heap valid and unchanged, and no page shared |
| `OpenTables.InsertAmong` | src/model/user_table.cpp:11-14 | so does inserting a row |
| `OpenTables.CloseAndReopen` | src/storage/buffer_manager/buffer_manager.cpp:86-90 | after a flush, a new disk manager, pool and catalog over the same first pages hold the same tables and columns, and no stored page is handed out again |
| `OpenTables.ReopenTable` | src/model/table_manager.cpp:8-20 | after a restart, opening a table by name gives the same handle over a valid heap with the same chain and records |
| `Restart.FlushAndReopen` | src/storage/buffer_manager/buffer_manager.cpp:86-90 | after a flush, a new pool of any size over the same file and a heap opened at the same page find the same chain, records and page contents, and no stored page, of this heap or another, is handed out again |

## Left out

- HeapFile.HeapFile.Get: the record id's page is a page of some heap; on any other page the code would read whatever its bytes say. The same holds for Update and Delete.
- HeapFile.HeapFile.Insert: page ids stay below 2^31, since the allocator's counter would overflow.
- HeapIterator.HeapIterator.Next: the exception at the end is the value None. Going on with a scan after its heap was written is not modelled.
- Catalog.Lookup: rows are well formed; the code would read past a malformed row. The same holds for `GetColumns`.
- Catalog.Catalog.CreateTable: what a failure half-way leaves in the catalog is not described. The ids come from outside; that they are fresh is assumed where it is needed.
- TableManager.TableManager.CreateTable: some frame is unpinned. The same holds for the members built on it, for `InsertRow`, for `ViewRuns`, `EndToEnd` and the operators.
- TableManager.TableManager.OpenTable: the table's own heap is opened unread, so its contents are stated for tables created here and after a restart only.
- Operators.SeqScanOp.Next: what the views will show decodes under the schema; on other bytes the code would read past them.
- EndToEnd.InsertAndSelect: the pages fit, a condition on the pool before the inserts; `SelectFilled` has the exact one.
- OpenTables.CloseAndReopen: the first pages of the two catalog heaps are known from before; how bootstrap finds them is not modelled.
- BufferManager.BufferManager.Request: page id -1 is excluded; it marks empty frames. Direct calls of `pin` and `unpin` from outside are excluded too.
- The null-frame branches of the heap operations and the pinned-victim exception of eviction cannot be reached and are not modelled.
- Source bytes that alias the page they are copied into.
- `Operator::Close`, which only forwards, and `Executor::Execute`, which drains without collecting.
- Bootstrap of the catalogs, the types catalog, UUID generation, file handling, the database server.
- Parser, planner and predicate evaluation; a predicate is a function parameter.
- MVCC headers, concurrency, logging and indexes, which the code does not use yet.
