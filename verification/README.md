# Verified model of the EDOS kernel's memory, caching and loading core

This project models the parts of the EDOS kernel that keep real state and claim to behave like something
simpler, and proves the claims with Dafny.

- **Copy-on-write memory.** Page tables are four levels of 512-entry tables held in frames (`PageTree`,
  `PhysicalMemory`), with the flat page map they refine as ghost state. Fork, its undo, demand faults and
  copy-on-write faults are methods on that state (`PhysicalMemory`, `Faults`, `DemandFaults`). `CowMachine`
  is a step machine over any number of address spaces, whose steps are those methods' contracts
  (`FaultSteps`); every run refines the machine in which fork copies every private page at once
  (`CowRefinement`), and `FrameLeaks` follows the frames a truncate loses.
- **The page cache.** `PageFill` is the in-flight fill registry as atomic steps of any number of threads.
  `PageCache` reads, writes, flushes and truncates one inode's pages as whole operations over a plain file;
  `Truncate` takes a truncated file's pages out of every process.
- **The block cache.** `BlockShards` and `BlockCache` are the sharded write-back cache in front of a disk;
  `Writeback` is the request and completion counter protocol behind `sync`, and `Durability` what the two
  promise together.
- **Locks.** `LockOrder` is the per-thread rank stack and the absence of deadlock it is there for.
- **Indexes and arithmetic.** `Reloc` and `Elf` (lazy relocation and image layout), `Paths` (symbolic links),
  `HeapCache` (per-CPU heap caches), `Dates` (FAT and Unix time).

`dafny verify dfyconfig.toml` checks everything. `hide` statements in proofs keep definitions out of sight
where they are not needed.

## Where the code and its promises part

Each of these is a lemma or a contract below; the code was modelled as it is.

- A failed fork leaves the parent's private entries read-only and copy-on-write. The frames and counts are
  restored exactly, and one fault per page restores the entry itself (`CowMachine.FailedForkRecovers`).
- The relocation fault path sets the writable bit without looking at the area
  (kernel/src/memory/fault.rs:440-443). A fault makes a page writable against its area exactly on a
  relocation page whose area has lost its write permission (`DemandFaults.FaultHonoursArea`). No image as
  loaded has one (`Elf.LoadedFaultsHonourAreas`), but an mprotect before the page's first read makes one
  (`DemandFaults.MprotectThenRead`, `DemandFaults.MprotectThenReadInput`).
- The loader maps every pre-faulted tail page writable (kernel/src/loader/mod.rs:718-719). Tail pages respect
  their areas exactly if every segment whose file bytes end inside a page is writable
  (`Elf.TailsHonourAreas`), so a read-execute segment of 100 bytes is writable (`Elf.ReadOnlyTail`).
- A page's distance from the load base is cut to 32 bits, so a page 4 GiB up is looked up in the relocation
  table as this one (`Elf.PageIndexIsExact`).
- Unmapping a page of a file counts its frame down and frees nothing, so the frame is lost: exactly when it
  has no live cached page and that entry was its one reference (`FrameLeaks.UnmapLeaks`). That is a private
  copy under a truncate (`FrameLeaks.TruncateLeaks`), or a forked child's entry after a truncate took the
  cached page before the child was known as a mapper (`FrameLeaks.ForkThenTruncateLeaks`). No later step of
  any run takes the frame up again (`FrameLeaks.LeakedForever`). munmap (kernel/src/syscalls/memory.rs:824)
  and exit (kernel/src/thread/thread.rs:644) drop file pages the same way.
- `INFLIGHT_CURRENT` can be -1 for a moment: a prefetch is visible before its issuer counts it
  (`PageFill.CounterCanBeNegative`); `PageFill.RunIsSafe` gives the exact value at every moment.
- The rename lock order is strict exactly when the two parents' inode numbers differ
  (`LockOrder.RenameOrder`); for distinct inodes with one number two renames can deadlock
  (`LockOrder.EqualNumbersCanDeadlock`). The inode cache gives one object per non-zero number and mount, so
  this concerns only the number 0 that stateless filesystems share.
- A prefetch in flight survives a truncate and can bring cut bytes back. It does not exactly when it carries
  only zeros past the new size, on the pages that do not stay cached (`PageCache.TruncateAndPrefetches`);
  `PageCache.TruncateThenRead` is a read that returns a cut byte.
- A write whose user copy faults leaves the bytes before the fault in the cache without marking the page
  dirty; a page that was to be replaced whole and was not cached holds zeros after them
  (`PageCache.Inode.WriteOnePage`, `PageCache.Inode.Write`).
- A forced pass that fails is published as complete like any other (kernel/src/fs/writeback.rs:99-112), so
  `sync` can return with blocks unwritten (`Writeback.FailedPassReleases`); otherwise every block the cache
  showed was on the disk at some moment of the wait (`Durability.SyncIsDurable`). That is the block cache
  only: the pass ignores whether the page caches could be flushed into it (kernel/src/fs/vfs.rs:1409-1411).
- On a journalled device a write that finds no room in its shard goes home at once, before any transaction
  enrols it (`BlockCache.Cache.WritePage`, `WentTo`). A block held back by the journal keeps its home through
  every cached write and every flush; a direct write of its page puts it home uncommitted and forgets it
  (`BlockCache.Cache.WriteDirect`, `BlockCache.HeldBackGoesHome`).
- A run of whole pages that fails may have stored any of its blocks, and the cached copies are not dropped.
  Clean pages stay the disk's whatever was stored exactly if those inside the run already held the data
  (`BlockCache.TornIsHarmless`); if not, evicting one changes what readers see (`BlockCache.EvictingStaleShows`,
  `BlockCache.StaleAfterFailedRun`).
- `from_unix_secs` says times before 1980 land on 1980's first instant; the code stores them 128 years later
  (`Dates.EpochWraps`), and the round trip holds exactly from 1980 to 2107 (`Dates.RoundTrip`).

## Model

| member | source | states |
|---|---|---|
| `Vmas.FindIsTheCover` | kernel/src/memory/vma.rs:160-167 | On a sorted set without overlaps the lookup returns the one area that holds the address. |
| `Vmas.OneVmaPerPage` | kernel/src/memory/cow.rs:257-284 | With page-aligned areas, permission and sharing are the same for every address of a page. |
| `PageTree.WalkIsFlat` | kernel/src/memory/fault.rs:766-794 | The four-level walk from a root finds an entry exactly where the flat map has one, and finds that entry. |
| `PageTree.JoinInvertsSplit` | kernel/src/memory/cow.rs:164-170 | The address fork rebuilds from the four indices of a user address is the address's page. |
| `PageTree.SplitInvertsJoin` | kernel/src/memory/fault.rs:672-676 | The fault path's index split gives back the indices fork joined, for every user index tuple. |
| `PageTree.InstallTable` | kernel/src/memory/fault.rs:736-763 | Installing a fresh empty table keeps the tables an unshared tree. |
| `PhysicalMemory.Memory.AllocateFrame` | kernel/src/memory/fault.rs:752-752 | A frame outside the counted set with count 1, or none exactly when every managed frame is counted. |
| `PhysicalMemory.Memory.EnsureTableEntry` | kernel/src/memory/fault.rs:736-763 | The next-level table, upgraded or fresh; no leaf changes on either path. |
| `PhysicalMemory.Memory.MapPageDirect` | kernel/src/memory/fault.rs:656-726 | Success adds exactly one leaf; failure changes no leaf, even if tables were allocated, and means the page was present or memory ran out. |
| `PhysicalMemory.Memory.IsPagePresent` | kernel/src/memory/fault.rs:766-794 | True exactly when the flat map has the page. |
| `PhysicalMemory.Memory.HandleCowFault` | kernel/src/memory/cow.rs:295-386 | Resolved exactly for a writable area over a copy-on-write page with a sole reference or a free frame; then upgraded in place or moved to a fresh frame with the same bytes. |
| `PhysicalMemory.Memory.CopyPage` | kernel/src/memory/cow.rs:349-381 | The copy's frame is fresh with count 1, the shared frame loses one reference, the bytes are equal. |
| `PhysicalMemory.Memory.CloneLeaf` | kernel/src/memory/cow.rs:163-190 | One more page is shared: the same entry on both sides, the frame's count up by one if managed. |
| `PhysicalMemory.Memory.CloneLevel` | kernel/src/memory/cow.rs:101-194 | A table is done when all the parent's pages under it are the child's, whatever point the walk has reached. |
| `PhysicalMemory.Memory.FreeBelow` | kernel/src/memory/cow.rs:207-253 | Undo drops every leaf and frees every table below a child's table and touches nothing else. |
| `PhysicalMemory.Memory.CloneUserPageTablesCow` | kernel/src/memory/cow.rs:49-99 | Success gives the child every parent page and counts each frame once per new entry; running out of frames anywhere restores counts and tables exactly and the parent's frames page for page. |
| `ForkSpec.ForkOne` | kernel/src/memory/cow.rs:163-190 | Handing one page to the child keeps the fork relation. |
| `ForkSpec.AccountOne` | kernel/src/memory/cow.rs:172-187 | A shared leaf and one count keep counts equal to the start plus the child's references. |
| `UndoSpec.CountsRestored` | kernel/src/memory/cow.rs:207-253 | When every child leaf has been dropped the counts are those before the fork. |
| `UndoSpec.ChildGone` | kernel/src/memory/cow.rs:72-88 | When every child table has been freed the tables are those before the fork. |
| `CowMachine.NextKeeps` | kernel/src/memory/cow.rs:101-386 | Every fork, failed fork, fault (won, lost or failed), write, unmapping and owner change keeps the counting and sharing invariant. |
| `CowRefinement.NextEager` | kernel/src/memory/cow.rs:101-386 | Each step is the same step of the machine whose fork copies at once. |
| `CowRefinement.ForkEager` | kernel/src/memory/cow.rs:49-194 | A fork shows in the eager machine as a copy of every page of the parent. |
| `CowRefinement.WriteEager` | kernel/src/memory/cow.rs:295-386 | A write through a writable entry reaches no other private page of any space. |
| `CowRefinement.CowCopyEager` | kernel/src/memory/cow.rs:349-381 | Resolving a private page is invisible; resolving a shared-in page keeps the bytes it showed. |
| `CowRefinement.RunRefinesEagerCopy` | kernel/src/memory/cow.rs:101-194 | In every run each load is the eager machine's, anonymous pages are each space's own, special mappings stay shared, and no entry is writable whose area is not. |
| `CowMachine.CacheFrameCount` | kernel/src/memory/fault.rs:209-269 | In every run a cache frame's count is the entries naming it plus one while its cached page lives. |
| `CowMachine.FailedForkRecovers` | kernel/src/memory/cow.rs:72-88 | After a failed fork each previously writable private page is restored exactly, in place, by one fault. |
| `CowMachine.BootInv` | kernel/src/memory/cow.rs:49-99 | Address spaces with nothing mapped satisfy the invariant runs start from. |
| `FrameLeaks.UnmapLeaks` | kernel/src/fs/vfs.rs:1498-1509 | Unmapping leaks a frame exactly if no live cached page owns it and this was its one reference. |
| `FrameLeaks.LeakedForever` | kernel/src/fs/vfs.rs:1498-1509 | In every run a leaked frame, private or orphaned, stays counted at zero and unnamed, and no step hands it out. |
| `FrameLeaks.TruncateLeaks` | kernel/src/fs/vfs.rs:1498-1509 | A run that leaks: a file page mapped privately, written, and cut. |
| `FrameLeaks.ForkThenTruncateLeaks` | kernel/src/syscalls/mod.rs:2736-2757 | A run that leaks: the page of a forked child whose cached page a truncate took before the child was registered. |
| `CowMachine.ForkContractIsStep` | kernel/src/memory/cow.rs:49-99 | What the fork method promises is a fork step. |
| `FaultSteps.FileFaultIsStep` | kernel/src/memory/fault.rs:177-269 | What a kept file fault promises is a mapping step. |
| `FaultSteps.FreshFaultIsStep` | kernel/src/memory/fault.rs:270-326 | What an anonymous fault, or a relocated page under a writable area, promises is a fresh-page step. |
| `FaultSteps.DemandFaultIsStep` | kernel/src/memory/fault.rs:476-594 | Every demand fault, won, lost to a race or failed, is one step of the machine, unless it is a relocation page whose area is read-only. |
| `FaultSteps.FailedForkIsStep` | kernel/src/memory/cow.rs:72-88 | What a fork that ran out of frames promises is a failed-fork step. |
| `FaultSteps.CutIsUnmaps` | kernel/src/fs/vfs.rs:1489-1511 | A truncate's cut of a process is a run of unmappings that drops each frame's count by the references released. |
| `FaultSteps.CowFaultIsStep` | kernel/src/memory/cow.rs:295-386 | What the copy-on-write method promises, for a fault anywhere in the page, is a copy-on-write step. |
| `Faults.LookupFaultVmaSound` | kernel/src/memory/fault.rs:99-140 | Faultable exactly for lazy anonymous, stack and file areas; never writable beyond the area; private file pages copy-on-write; page and slot at the right distance. |
| `DemandFaults.FaultHonoursArea` | kernel/src/memory/fault.rs:520-565 | A fault makes a page writable against its area exactly on the relocation path with a read-only area. |
| `DemandFaults.MprotectIsExact` | kernel/src/syscalls/memory.rs:598-652 | mprotect gives exactly its range the new permissions and no address another page. |
| `DemandFaults.MprotectThenRead` | kernel/src/memory/fault.rs:440-443 | After write permission is withdrawn from a relocation page not yet faulted, a read of it is served and maps it writable. |
| `DemandFaults.MprotectThenReadInput` | kernel/src/memory/fault.rs:440-443 | Such an input. |
| `Faults.FaultInFilePage` | kernel/src/memory/fault.rs:209-269 | One reference and one pin are taken and, unless the page is handed out, given back; a lost race or failure changes no page. |
| `Faults.MapFresh` | kernel/src/memory/fault.rs:295-326 | The frame just allocated takes the page with a count of one, or goes back and nothing in use has changed. |
| `Faults.FaultInZeroPage` | kernel/src/memory/fault.rs:270-326 | A fresh frame of zeros takes the page or goes back to the allocator; other counts and bytes are untouched. |
| `Faults.FaultInPage` | kernel/src/memory/fault.rs:164-327 | The rejections in order, and otherwise the two paths above. |
| `Faults.Process.StoreCachedPage` | kernel/src/memory/fault.rs:607-645 | The slot is recomputed from the areas as they now are; the pin is released whether or not there is one. |
| `DemandFaults.HandleDemandFault` | kernel/src/memory/fault.rs:476-594 | The rejections in order; every pin taken is released; a failure or a page already there leaves pages and counts; success adds exactly the faulting page, by the relocation, file or zero path, with its count; its flags, and exactly when they exceed the area. |
| `DemandFaults.FaultInRelocPage` | kernel/src/memory/fault.rs:346-464 | The faulting page becomes a private patched copy of the cache page; pins end where they began; failures change nothing. |
| `PageFill.InFlight.TryInstall` | kernel/src/fs/page_fill.rs:869-935 | Installs at every index of the range or at none, returning the first handle in the way. |
| `PageFill.InFlight.RemoveOwn` | kernel/src/fs/page_fill.rs:305-318 | Removes exactly the range's entries that are this handle. |
| `PageFill.NarrowedWindowIsLongestFreeTail` | kernel/src/fs/page_fill.rs:465-484 | The narrowed window is the longest free tail; none exactly when the last page is busy. |
| `PageFill.NextKeeps` | kernel/src/fs/page_fill.rs:213-1030 | Every lock section and atomic step of publishers, joiners, finalisers, prefetchers and the reaper keeps the registry invariant. |
| `PageFill.RegistryIsSafe` | kernel/src/fs/page_fill.rs:627-815 | A handle missing anywhere in its range is terminal; pending handles never share a page; a parked reader's pending handle has somebody who will publish it. |
| `PageFill.RemovalSparesSuccessors` | kernel/src/fs/page_fill.rs:291-333 | An entry leaves only through the holder of that very handle, after publication; none is overwritten. |
| `PageFill.FillsKeepCachedPages` | kernel/src/fs/page_fill.rs:970-1006 | No fill replaces a cached page. |
| `PageFill.HandleHistory` | kernel/src/fs/page_fill.rs:213-229 | A published verdict never changes; a handle counts as inserted only once all its pages are cached. |
| `PageFill.SuccessAfterPages` | kernel/src/fs/page_fill.rs:426-439 | In every run, before a handle succeeded there was a moment when all its pages were cached. |
| `PageFill.RunIsSafe` | kernel/src/fs/page_fill.rs:90-97 | In every run the counter is the unreleased handles minus those not yet counted, and successes had their pages. |
| `PageFill.CounterAtRest` | kernel/src/fs/page_fill.rs:250-287 | Whenever no thread is mid-fill the counter is the number of pending fills: each install is released once. |
| `PageFill.CounterCanBeNegative` | kernel/src/fs/page_fill.rs:508-527 | A run in which the counter is -1. |
| `PageCache.CopyPrefetched` | kernel/src/fs/page_fill.rs:396-424 | A finalised page is its first run's bytes, or zeros where no run covers it. |
| `PageCache.Inode.FinalizePrefetch` | kernel/src/fs/page_fill.rs:349-443 | Puts the prefetched pages in where none is cached, or nothing; the handle goes on every path; if what was in flight was the file's, the view is unchanged. |
| `PageCache.Inode.GetOrFill` | kernel/src/fs/page_fill.rs:611-815 | Returns with the page cached; the view is unchanged unless the caller asked for zeros. |
| `PageCache.Inode.BulkFill` | kernel/src/fs/page_fill.rs:858-1030 | All pages of the range cached, from one driver call or from joined fills; the view is unchanged. |
| `PageCache.Inode.IssuePrefetch` | kernel/src/fs/page_fill.rs:496-527 | Installed at every page of the window exactly when the whole window was free. |
| `PageCache.Inode.NarrowWindow` | kernel/src/fs/page_fill.rs:465-484 | The longest free tail of the window. |
| `PageCache.Inode.UncachedRanges` | kernel/src/fs/vfs.rs:468-487 | The maximal runs of exactly the uncached pages. |
| `PageCache.Inode.Read` | kernel/src/fs/vfs.rs:409-635 | A successful read is exactly the view's bytes for any cache, readahead state and driver answers; no read changes the view or replaces a page. |
| `PageCache.Inode.WriteOnePage` | kernel/src/fs/vfs.rs:957-997 | The bytes copied before a fault, or all, are in the page over what it showed, or over zeros for a whole page not cached; no other page and no dirty flag changes. |
| `PageCache.Inode.Write` | kernel/src/fs/vfs.rs:937-1010 | Exactly the addressed bytes change and their pages are listed dirty; a failure leaves a prefix of the bytes, and every dirty flag and key as it was. |
| `PageCache.ReadAfterWrite` | kernel/src/fs/vfs.rs:937-1010 | A later read gives the written bytes where they fall and the old view elsewhere. |
| `PageCache.Inode.MarkDirty` | kernel/src/fs/page_cache.rs:248-257 | Flag set on a cached page, key listed once. |
| `PageCache.Inode.FlushDirtyBulk` | kernel/src/fs/page_cache.rs:272-322 | All listed pages clean and stored; or, on failure, any of them stored and all still dirty and listed. The view never moves. |
| `PageCache.Inode.InvalidateFrom` | kernel/src/fs/page_cache.rs:354-369 | Exactly the pages and keys below the cut remain. |
| `PageCache.Inode.ZeroTail` | kernel/src/fs/page_cache.rs:333-344 | Only the last page's bytes past the size become zero. |
| `PageCache.Inode.Truncate` | kernel/src/fs/vfs.rs:1012-1043 | No page at or past the rounded-up size, zeros past the size in the last, all else untouched; prefetches stay sound exactly if they carry no cut byte. |
| `PageCache.TruncateAndPrefetches` | kernel/src/fs/vfs.rs:1031-1041 | Prefetches in flight stay sound exactly if each page of theirs stays cached or is zero from the new size on. |
| `PageCache.WindowsBelowAreSafe` | kernel/src/fs/vfs.rs:503-511 | Windows that end at or below the new size are safe. |
| `PageCache.TruncateThenRead` | kernel/src/fs/vfs.rs:1031-1041 | A truncate under a prefetch, the file grown again, and a read that returns a byte the truncate cut. |
| `Truncate.SameCut` | kernel/src/fs/vfs.rs:1478-1487 | The first cut slot is the one whose file page starts at or past the size; aligned, it is the cache's own cut. |
| `Truncate.ReleasedIsExact` | kernel/src/fs/vfs.rs:1498-1509 | Each frame is released as often as entries naming it were removed. |
| `Truncate.Process.CutMapping` | kernel/src/fs/vfs.rs:1458-1517 | Slots and entries from the cut on go; the frames released are those of the entries removed, one for one; those below stay. |
| `Truncate.Process.Cut` | kernel/src/fs/vfs.rs:1442-1519 | The same for every mapping of the inode, released frames included; other mappings are untouched. |
| `Truncate.InvalidateMappingsAbove` | kernel/src/fs/vfs.rs:1428-1522 | The same in every process, with the references each released. |
| `Truncate.NothingMappedPastCut` | kernel/src/fs/vfs.rs:1428-1522 | A page stays mapped exactly if it lies below the cut, for every offset and straddle. |
| `Truncate.OtherPagesKept` | kernel/src/fs/vfs.rs:1428-1522 | Pages outside the inode's mappings stay mapped. |
| `BlockShards.TouchOk` | kernel/src/fs/block_page_cache.rs:692-699 | A lookup reorders one shard and changes nothing else. |
| `BlockShards.SetDirtyOk` | kernel/src/fs/block_page_cache.rs:933-937 | Putting a key in or out of the dirty set ties it to its page's flag and moves the total by one. |
| `BlockCache.EvictionInvisible` | kernel/src/fs/block_page_cache.rs:572-604 | Evicting clean pages changes no view. |
| `BlockCache.Cache.MakeRoom` | kernel/src/fs/block_page_cache.rs:572-604 | Evicts only clean unpinned pages from the old end, stopping at the first that is not. |
| `BlockCache.Cache.InsertOrResolveRace` | kernel/src/fs/block_page_cache.rs:554-611 | An existing page wins; otherwise the page is cached if there is room and detached if not. |
| `BlockCache.Cache.AcquirePage` | kernel/src/fs/block_page_cache.rs:678-727 | A page filled from disk is the view's; acquiring for overwrite disturbs no other block. |
| `BlockCache.Cache.ReadPageForWrite` | kernel/src/fs/block_page_cache.rs:635-657 | The same through up to three attempts with flushes in between. |
| `BlockCache.Cache.PublishWrite` | kernel/src/fs/block_page_cache.rs:905-943 | A cached page is dirty and in the dirty set; a detached one is on the disk. |
| `BlockCache.Cache.RegisterDevice` | kernel/src/fs/block_page_cache.rs:526-526 | A device gains a journal; nothing a reader sees changes. |
| `BlockCache.Cache.Enrol` | kernel/src/fs/journal/tx.rs:108-123 | A dirty page is tracked at the transaction's number and held back exactly if that is not committed; a clean one is not tracked. |
| `BlockCache.Cache.Commit` | kernel/src/fs/journal/mod.rs:511-516 | The committed number only rises, and only releases blocks. |
| `BlockCache.Cache.WritePage` | kernel/src/fs/block_page_cache.rs:959-990 | The view changes at exactly that block or not at all; the block is cached and dirty, or at home if there was no room; blocks held back keep their home and stay held back. |
| `BlockCache.Cache.WritePartialPage` | kernel/src/fs/block_page_cache.rs:998-1043 | Exactly the addressed sectors change; blocks held back keep their home. |
| `BlockCache.Cache.WriteDirect` | kernel/src/fs/block_page_cache.rs:1071-1081 | A run of whole pages written behind the cache changes exactly those bytes of the view and puts its blocks home, held back or not; a failed one leaves each byte old or new. |
| `BlockCache.TornIsHarmless` | kernel/src/fs/block_page_cache.rs:1071-1081 | Whatever a failed run stored, clean pages stay the disk's: exactly if those inside the run already held its data. |
| `BlockCache.EvictingStaleShows` | kernel/src/fs/block_page_cache.rs:1071-1081 | Evicting a clean page leaves the view alone exactly if its block agrees with it. |
| `BlockCache.StaleAfterFailedRun` | kernel/src/fs/block_page_cache.rs:1071-1081 | A failed run after which eviction changes the view. |
| `BlockCache.HeldBackGoesHome` | kernel/src/fs/block_page_cache.rs:1459-1483 | A run in which a block enrolled in an uncommitted transaction is written home. |
| `BlockCache.Cache.InvalidatePages` | kernel/src/fs/block_page_cache.rs:1459-1483 | Exactly the range leaves the cache and dirty sets. |
| `BlockCache.Cache.WriteBytes` | kernel/src/fs/block_page_cache.rs:1052-1106 | Exactly the addressed bytes change; a failure leaves a prefix of them, and of a failed run each byte old or new. |
| `BlockCache.CoalesceRuns` | kernel/src/fs/block_page_cache.rs:799-817 | The runs cover the misses in order, each once, each consecutive and within one command. |
| `BlockCache.Cache.ReadMisses` | kernel/src/fs/block_page_cache.rs:799-845 | Reading in runs and scattering equals reading page by page. |
| `BlockCache.Cache.ReadPages` | kernel/src/fs/block_page_cache.rs:730-867 | Each page is the view's; the view is unchanged. |
| `BlockCache.Cache.ReadBytes` | kernel/src/fs/block_page_cache.rs:1110-1143 | Exactly the addressed bytes of the view. |
| `BlockCache.BatchLocksInOrder` | kernel/src/fs/block_page_cache.rs:1330-1339 | A sorted batch takes its write locks in strict key order. |
| `BlockCache.Cache.WriteBatch` | kernel/src/fs/block_page_cache.rs:1325-1401 | Pages written become clean with their bytes on disk; the others stay dirty; success means all. |
| `BlockCache.Cache.FlushShard` | kernel/src/fs/block_page_cache.rs:1217-1309 | One shard's committed dirty pages, in batches. |
| `BlockCache.Cache.FlushDirtyOnce` | kernel/src/fs/block_page_cache.rs:1207-1318 | Nothing lost, nothing visible, nothing uncommitted written; a forced pass that succeeds leaves only uncommitted pages dirty. |
| `Writeback.NextKeeps` | kernel/src/fs/writeback.rs:65-116 | Every step of the callers and the writeback thread keeps the counter invariant. |
| `Writeback.ForcedPassAnswers` | kernel/src/fs/writeback.rs:95-116 | A forced pass answers every request loaded before it began. |
| `Writeback.SyncWaitsForItsPass` | kernel/src/fs/block_page_cache.rs:1404-1427 | In every run a released caller had a forced pass wholly between its request and its release; completions never exceed requests. |
| `Writeback.OnlyForcedPassesComplete` | kernel/src/fs/writeback.rs:73-116 | Completion only rises, and only by publishing after a forced pass. |
| `Writeback.FailedPassReleases` | kernel/src/fs/writeback.rs:99-115 | A run in which a caller is released although its only pass failed. |
| `Durability.FlushOneShard` | kernel/src/fs/block_page_cache.rs:1207-1401 | One shard of a forced flush, at any moment, is a shard of a pass as the protocol counts it. |
| `Durability.SyncIsDurable` | kernel/src/fs/block_page_cache.rs:1404-1427 | For every block there was a moment between a caller's request and its release at which what the cache showed of it, unless held back, was on the disk; unless a forced pass in that time failed. |
| `LockOrder.RankStack.Enter` | kernel/src/debug/lock_order.rs:238-315 | Pushed exactly for a rank above the top with room; inversions counted; the stack stays sorted. |
| `LockOrder.RankStack.EnterSame` | kernel/src/debug/lock_order.rs:325-375 | The same for a rank not below the top. |
| `LockOrder.RankStack.Exit` | kernel/src/debug/lock_order.rs:381-421 | Pops, and reports whether the popped entry was the one named. |
| `LockOrder.NextKeeps` | kernel/src/debug/lock_order.rs:238-421 | Every acquire and release keeps the stack equal to the locks held and awaited, and an awaited lock above all held. |
| `LockOrder.NoDeadlock` | kernel/src/debug/lock_order.rs:238-421 | In every disciplined run no thread waits, through others, on itself. |
| `LockOrder.WriteBatchDisciplined` | kernel/src/fs/block_page_cache.rs:1330-1349 | The sorted write batch passes the rank check and the key order at each lock. |
| `LockOrder.RenameOrder` | kernel/src/fs/vfs.rs:1213-1230 | Two parents are locked in strict and argument-independent order exactly when their numbers differ. |
| `LockOrder.RenameDisciplined` | kernel/src/fs/vfs.rs:1213-1230 | With only lower-ranked locks below it, a rename passes both rank checks and takes the second parent in key order when the numbers differ. |
| `LockOrder.EqualNumbersCanDeadlock` | kernel/src/fs/vfs.rs:1217-1226 | With equal numbers a run ends in two renames waiting on each other. |
| `Reloc.Build` | kernel/src/loader/reloc.rs:60-116 | Refused exactly for a straddling record; otherwise a sorted permutation with each bucket its page's stretch. |
| `Reloc.LookupIsExact` | kernel/src/loader/reloc.rs:131-149 | The lookup is exactly the page's entries in order. |
| `Reloc.ApplyRelocsToPage` | kernel/src/loader/reloc.rs:162-181 | The loop patches the page with that lookup. |
| `Reloc.PatchIsEagerPage` | kernel/src/loader/reloc.rs:162-181 | A page patched with its own entries is that page of the eagerly relocated image. |
| `Reloc.FaultOrderDoesNotMatter` | kernel/src/memory/fault.rs:346-464 | After any sequence of faults a faulted page is the eager image's and any other the file's. |
| `Elf.ValidateIsExact` | kernel/src/loader/mod.rs:436-490 | Accepted exactly for a segment ending in the user half, fitting its memory and congruent modulo the page; then its pages stay in the user half. |
| `Elf.MapImage` | kernel/src/loader/mod.rs:702-846 | The areas of every segment; tail pages relocated by hand and all mapped writable; the relocation state of the one segment that carries relocations; and its errors. |
| `Elf.ProcessIsMapped` | kernel/src/memory/vma.rs:187-193 | A segment apart from the others is found whole among a process's areas, whatever areas elsewhere (a stack, a thread-local block) it was inserted beside. |
| `Elf.ImageIsTheFileThenZeros` | kernel/src/loader/mod.rs:725-768 | For a segment with file bytes that shares no page with another, a process sees the file's bytes and then zeros to the end of its last page. |
| `Elf.PureBssIsZero` | kernel/src/loader/mod.rs:741-750 | A page-aligned segment without file bytes reads as zeros throughout. |
| `Elf.LoadedSegment` | kernel/src/loader/mod.rs:436-490 | The same in the headers' terms, for the areas of a new process. |
| `Elf.RelocatedSegment` | kernel/src/loader/mod.rs:795-819 | With relocations: the carrying segment's pages show exactly their own records applied, whether faulted or pre-faulted, and other segments none. |
| `Elf.PageIndexIsExact` | kernel/src/memory/fault.rs:530-532 | A page's index from the load base is its own exactly within 4 GiB; beyond that it is another page's. |
| `Elf.TailsHonourAreas` | kernel/src/loader/mod.rs:718-768 | Pre-faulted pages respect their areas exactly if every segment with a tail page is writable. |
| `Elf.ReadOnlyTail` | kernel/src/loader/mod.rs:718-768 | A read-execute segment whose tail page is writable. |
| `Elf.LoadedFaultsHonourAreas` | kernel/src/loader/mod.rs:669-696 | While the areas are those of the load, no fault makes a page writable against its area. |
| `Elf.ResolveRelocSegment` | kernel/src/loader/mod.rs:669-694 | The one writable segment with relocations; none without any; an error otherwise. |
| `Paths.SplitIsExact` | kernel/src/fs/path.rs:26-34 | Splitting at slashes loses nothing. |
| `Paths.Normalize` | kernel/src/fs/path.rs:44-70 | The stack loop computes the fold of the components. |
| `Paths.NormalizeIsIdempotent` | kernel/src/fs/path.rs:44-70 | The result has only names, and a path of names is unchanged. |
| `Paths.NonEmptyFoldsAlike` | kernel/src/fs/path.rs:26-34 | Dropping empty components first makes no difference. |
| `Paths.StartsWith` | kernel/src/fs/path.rs:109-119 | True exactly for a prefix. |
| `Paths.StripPrefix` | kernel/src/fs/path.rs:122-128 | The rest of a path below the base, or the path itself. |
| `Paths.SpliceSymlink` | kernel/src/fs/mod.rs:174-203 | The loop's components and climb count. |
| `Paths.LinkResolvesLexically` | kernel/src/fs/vfs.rs:249-262 | Splice and escape give the lexical normalisation of where the link stands and what it says, past mount and root. |
| `Paths.ResolveLink` | kernel/src/fs/vfs.rs:249-262 | The two composed; the result is normalised. |
| `HeapCache.SizeClassIndex` | kernel/src/allocator.rs:70-77 | The smallest class that fits, if any. |
| `HeapCache.Limits` | kernel/src/allocator.rs:38-66 | No class parks more than 16 KiB per CPU; batches are positive and fit. |
| `HeapCache.Allocator.TryPercpuAlloc` | kernel/src/allocator.rs:350-388 | A block of the class's layout, with every other block of the batch parked. |
| `HeapCache.Allocator.ParkOrDrain` | kernel/src/allocator.rs:391-433 | The freed block is parked; drained blocks go back under the layout they were taken with. |
| `HeapCache.Allocator.Alloc` | kernel/src/allocator.rs:227-250 | The caller gets a block nobody holds; nothing else changes hands. |
| `HeapCache.Allocator.Dealloc` | kernel/src/allocator.rs:252-296 | Frees on any CPU keep every block in exactly one place. |
| `HeapCache.EachBlockInOnePlace` | kernel/src/allocator.rs:350-433 | Every block is live or in exactly one slot of its own class; no class exceeds 16 KiB. |
| `Dates.ClosedFormsAgree` | kernel/src/timer.rs:437-444 | The two day formulas agree from year 1 on. |
| `Dates.ClosedFormCounts` | kernel/src/fs/mod.rs:591-595 | From 1970 the formula is year-by-year and month-by-month counting. |
| `Dates.Civil` | kernel/src/fs/mod.rs:540-573 | The loops give the valid date and time of day of that second, the day count cut to 32 bits. |
| `Dates.PackedBits` | kernel/src/fs/mod.rs:478-488 | The shifts and ors are the sum of the masked fields. |
| `Dates.UnpackPacked` | kernel/src/fs/mod.rs:508-531 | Unpacking gives every field back but the odd second, the year modulo 128 from 1980. |
| `Dates.RoundTrip` | kernel/src/fs/mod.rs:497-584 | Seconds come back rounded down to even exactly for times from 1980 to 2107. |
| `Dates.EpochWraps` | kernel/src/fs/mod.rs:536-540 | The Unix epoch is stored as 2098. |

## Left out

- TLB contents and shootdowns, CR3 switches, physical-offset pointers, interrupts and memory ordering: steps are sequentially consistent and frames are numbers.
- The 16-bit width of frame counts and the 64-bit width of the request counters and file offsets: counts are unbounded; where 32 or 64 bits decide an outcome (segment bounds, day counts, shard hash) they are written out.
- Scheduling, parking, wake-ups and timeouts: only safety is stated, not that a wait ends.
- CowRefinement.RunRefinesEagerCopy: areas of a space do not change in a run (mprotect and munmap are not steps), processes do not exit, and the loader's pre-faulted pages are Elf's; a page's own frames are freed only by undoing a fork.
- DemandFaults.HandleDemandFault: threads without an address space are not modelled.
- PageFill.NextKeeps: one inode; a thread dies only while it fills, waits or is idle, as the reaper's contract has it.
- PageCache.Inode.Read and PageCache.Inode.Write: whole operations of one thread; concurrent fills are PageFill's. A driver may answer anything that agrees with the stored file.
- PageCache.Inode.Truncate: the filesystem's own truncate is an arbitrary result state.
- BlockCache.Cache: whole operations; writers inside a flush of the same page are not interleaved. Pins taken by the running operation itself are not counted, so more pages may be evicted than would be; no contents depend on it. A single block is written whole or not at all. A dirty page is never found evicted during a pass, so that branch of the flush loop is absent. Expiry of dirty pages is any choice.
- BlockCache.Cache.ReadBytes: the variant that copies straight to a user buffer is not modelled.
- Journal internals: a committed number per device and a tracker map stand for them; transactions, the ring and replay are not modelled, and neither is dropping a device's pages at unmount.
- LockOrder: lock implementations are a grant when no holder conflicts, with waiters ordered by arrival.
- Elf.LoadedSegment: segments with no file bytes at an unaligned address, records in pages past a segment's file part, TLS templates, program header parsing and prefetching are left out.
- HeapCache.Allocator: frees before the caches are enabled, heap expansion and statistics are left out; operations are whole, since each CPU's cache is its own.
- Dates.Civil: the tenths field of FAT timestamps is not modelled.
- Named pipes, devices, EFS, the VMA set's own updates, GPT and MBR probing, networking, graphics, logging and statistics: easy, hardware-bound or not visible here.
