# A verified model of BSR's replication core

BSR is a block-level replication engine for the kernel. This project models the parts of it in which
an error loses data silently, and proves what they promise:

* **Out-of-sync bitmap.** One page array holds the bitmaps of up to 32 peers with their 32-bit words interleaved. The
  word-level loop behind every bitmap operation is proved equal to the plain operation on one peer's bits; resize,
  recount and the chunked operations build on it. (`Words`, `BitmapLayout`, `BitmapStore`, `BitmapOps`, `BitmapScan`,
  `BitmapWeight`, `PageFlags`, `Bitmap`)
* **Activity log.** The slot cache behind it, reference counting, the log transactions on a striped ring, and what the
  offline tool reconstructs from the ring after a crash, a torn block included. (`LruCache`, `AlRefs`, `AlStripes`,
  `AlRecovery`, `AlRing`, `ActivityLog`)
* **Crash safety.** Bitmap, page write-out and log as one state machine whose steps interleave freely, shrinking the log
  included: exactly which runs lose no out-of-sync mark, wherever they crash, and that the log object follows the machine
  step by step, so that the replay of its area brings back every extent that a mark needs. (`CrashSafety`, `LostMarks`,
  `CrashRecovery`)
* **Resync against application IO.** The lock flags on resync extents, the cached out-of-sync count per extent on the same
  resync cache, exactly when such a count goes stale, the rounding of sector ranges to bitmap bits, and the mask of peers.
  (`ResyncLock`, `SyncCounts`, `LostCounts`, `FailedCounts`, `SyncBits`, `StaleCount`, `SyncRange`, `PeerMask`, `SetSyncAll`)
* **Bitmap transfer.** Run-length packets with a variable-length code, the plain-text fallback with its rewind, and the
  receiver: the whole exchange ends and leaves the union of both bitmaps. (`Vli`, `RunLengths`, `BitmapTransfer`)
* **Volume bitmap.** Conversion of the file system's cluster bitmap to 4 KiB blocks and marking it out of sync.
  (`VolumeBitmap`, `VolumeSync`)
* **Request intervals.** The augmented search tree for overlapping requests, on linked nodes changed in place.
  (`IntervalTree`, `IntervalNodes`)
* **Buffers.** The index ring with concurrent producers, the byte ring of the send buffer, and the corked send page.
  (`IndexRing`, `SendRing`, `SendBuffer`)

`Arithmetic` holds facts about quotients, remainders and powers of two, `Options` the option type. Methods and steps are
atomic; what may run between them is told where it matters: page writes, log transactions and the index ring are steps of
state machines, and changing bits and updating the cached counts, which the source does under two locks, are two methods
with the updates outstanding between them. Check everything with `dafny verify dfyconfig.toml`.

Where a promise does not hold of the code as it is, the model keeps the code, a lemma or method gives a concrete case,
built from a new object or as a run from an initial state, and the contract or a lemma states exactly when the promise
holds:

* A failed `bsr_al_begin_io_for_peer` puts its references back only if all extents it had taken were already in the log:
  exactly if all extents before the first one that resync or the log refuses are in the log
  (`ResyncLock.Device.BeginIoForPeer`, `ResyncLock.RollbackLeaks`).
* The striped ring covers the log area exactly if stripes times stripe size does not overflow 32 bits; the check multiplies
  in 32 bits (`AlStripes.StripesBijective`, `AlStripes.OverflowAccepted`).
* The ring keeps the last transactions exactly if the 32-bit transaction number does not wrap among them or the ring
  size divides 2^32 (`AlRing.RingKeepsLast`, `ActivityLog.WrapOverwrites`).
* Replay brings back more than the labels in memory for a slot that `bsr_al_shrink` has freed: what the log last told of
  it. Every label in use comes back, and if no slot was ever freed exactly the labels do
  (`ActivityLog.BsrActivityLog.CrashAndReplay`, `ActivityLog.FreedComesBack`).
* Completing resync IO keeps the lock invariant exactly if the extent is not the half-locked one
  (`ResyncLock.Device.RsCompleteIo`, `ResyncLock.HalfLockedDangles`).
* Cancelling all resync IO without a disk keeps it exactly if nothing was locked (`ResyncLock.Device.RsCancelAll`,
  `ResyncLock.CancelWithoutDisk`).
* Marking in sync leaves a cached `rs_left` stale exactly if the resync cache holds an extent with a bit to clear and is
  starving, or has all slots referenced and misses an earlier extent with a bit to clear
  (`SyncBits.PeerBits.UpdateSyncBits`, `StaleCount.CountGoesStale`).
* Between changing bits and updating their count, an extent may be pulled in with its new weight, and the update then
  counts the bits twice. A begin keeps what is owed exactly unless it pulls in an extent with an update outstanding; an
  update pays exactly unless the cache refuses it or it overwrites a count to which another one is still owed
  (`SyncBits.PeerBits.BeginResync`, `SyncBits.PeerBits.UpdateRsExtent`, `StaleCount.CountedTwice`).
* `bsr_set_sync` reaches every masked peer exactly if there are fewer than 32 peer slots; with 32, `(1 << n) - 1` is zero
  and it reaches none (`PeerMask.AllSelected`, `SetSyncAll.FullMaskMarksNone`).
* After a resize, pages without a dirty flag are on disk exactly if the metadata area holds zeros on every new page but
  those that hold a new bit of some peer which the resize sets (`Bitmap.BsrBitmap.Resize`, `Bitmap.UnflaggedNotWritten`).
* The loop of `__bm_many_bits_op` ends exactly if the bitmap has bits; without, its end is the largest 64-bit number
  (`Bitmap.ManyBitsEnds`).
* The two roundings of sector ranges differ exactly on a device smaller than one block that is marked in sync as a whole
  (`SyncRange.RoundingsAgree`, `SyncRange.RoundingsDiffer`).
* A run loses no mark exactly if no step drops an extent from the log on disk, or an old copy of a page takes a mark off
  the disk, while the mark has nowhere else to be found (`CrashSafety.SafeExactly`). The code has two such steps: it
  passes over an unchanged hinted page even while another context still writes it (`LostMarks.EarlySkipLosesMark`), and
  it frees slots whose extents have marks only in memory (`LostMarks.ShrinkLosesMark`). Waiting for such writes, and
  freeing a slot only when its marks are on disk, is enough (`CrashSafety.NoMarkIsLost`); for the first, never testing a
  page that is being written (`CrashSafety.NoSkipNoLoss`).
* A producer that swaps a full lap after it read the head can make a full index ring look empty
  (`IndexRing.FullLapLooksEmpty`, `IndexRing.StaleSwap`).
* A prepared packet that is never sent goes out if, and only if, the next one needs a new page
  (`SendBuffer.Stream.Prepare`, `SendBuffer.PreparedNeverSent`).

## Model

| member | source | states |
|---|---|---|
| BitmapLayout.WordIndexInjective | bsr/bsr_bitmap.c:460-475 | two (peer, bit) pairs share a 32-bit word only if peer and word are the same |
| BitmapLayout.LastBitOnPageIsGreatest | bsr/bsr_bitmap.c:477-484 | the last bit on a page is the greatest bit of that peer whose word is on the page; the next bit is on the next page |
| BitmapLayout.ExtentOnTwoPages | bsr/bsr_bitmap.c:1679-1695 | the bits of one activity-log extent, over all peers, lie on one page or two adjacent ones |
| BitmapLayout.ExtentIsMarked | bsr/bsr_bitmap.c:1679-1695 | every bit of an extent, of any peer, is on a page marked for it |
| BitmapLayout.PageBetween | bsr/bsr_bitmap.c:1679-1695 | every peer's bits of a range lie between the first peer's first page and the last peer's last page |
| BitmapOps.RunBits | bsr/bsr_bitmap.c:497-759 | applying an operation bit by bit changes exactly the bits of the range of one peer, each by the operation |
| BitmapOps.RunTotal | bsr/bsr_bitmap.c:497-759 | its total is the number of bits set, cleared or counted in the range |
| BitmapOps.RunDirty | bsr/bsr_bitmap.c:694-711 | its dirty set is exactly the set of pages whose contents differ |
| BitmapOps.RunWordStep | bsr/bsr_bitmap.c:560-690 | one word-wide step equals up to 32 bit-wide steps: same bits, same count, same dirty pages |
| Bitmap.BsrBitmap.BmOp | bsr/bsr_bitmap.c:497-759 | for every operation, peer and range: the bits become what the operation says and no other peer's bit changes; the finds return the first set or the first clear bit of the range, or the end value if there is none, the others the count; changed pages are flagged for the right kind of write-out and no others, the cached weight follows |
| Bitmap.BsrBitmap.Apply | bsr/bsr_bitmap.c:763-831 | the same under the lock, zero without bits; every peer's cached weight stays equal to its true weight |
| Bitmap.BsrBitmap.ManyBits | bsr/bsr_bitmap.c:1953-1991 | page-sized chunks equal one operation on the whole range |
| Bitmap.ManyBitsEnds | bsr/bsr_bitmap.c:1964-1973 | with the 64-bit end the source computes, the bit the loop stands at gets past it after some number of turns exactly if the bitmap has bits |
| Bitmap.BsrBitmap.constructor | bsr/bsr_bitmap.c:415-435 | no bits yet, whatever the metadata area holds |
| Bitmap.BsrBitmap.CountBits | bsr/bsr_bitmap.c:866-881 | the chunked recount makes every cached weight the true one and changes no bit |
| Bitmap.BsrBitmap.Resize | bsr/bsr_bitmap.c:909-1040 | when it fails and why; afterwards every sector has a bit and every bit a sector; bits below the smaller size stay, new bits get the requested value even over stale ones, weights stay true, the pages hold every bit and fit the metadata area; new pages get a flag exactly if bits are to be set and some peer has a new bit on them; what was written stays written exactly if every other new page is zero on disk |
| Bitmap.UnflaggedNotWritten | bsr/bsr_bitmap.c:909-1040 | a new bitmap whose page has no flag and is not on disk |
| PageFlags.GrownBlank | bsr/bsr_bitmap.c:997-1012 | a page of zeros stays so exactly unless new bits are set and some peer has one of them on it |
| PageFlags.RefitFlags | bsr/bsr_bitmap.c:985-1030 | which new pages get a flag, and exactly when what was written stays written |
| BitmapWeight.AppliedWeight | bsr/bsr_bitmap.c:713-746 | what an operation returns is the change of its peer's weight; other weights stay |
| BitmapWeight.AppliedTwice | bsr/bsr_bitmap.c:1953-1991 | two adjacent ranges after each other equal one operation on both |
| BitmapWeight.PagesHold | bsr/bsr_bitmap.c:966-979 | the page count of a resize is enough for every bit of every peer |
| BitmapWeight.RoomOnDisk | bsr/bsr_bitmap.c:883-900 | bits fit the metadata area exactly if they need no more pages than it has |
| BitmapWeight.Reallocated | bsr/bsr_bitmap.c:985-1030 | keeping the common pages keeps every peer's common bits and weights |
| Bitmap.BsrBitmap.MarkRange | bsr/bsr_bitmap.c:1679-1695 | exactly the pages from the first peer's first word to the last peer's last word are hinted, all of them pages that exist |
| Bitmap.BsrBitmap.MarkExtents | bsr/bsr_actlog.c:525-547 | for up to 64 evicted extents the 128-entry hint array does not overflow; exactly their pages are hinted, so every page with a bit of them is |
| Bitmap.BsrBitmap.WriteHinted | bsr/bsr_bitmap.c:1550-1571 | exactly the changed ones among the hinted pages are written, the dirty flags of the hinted pages go and no page stays hinted; unflagged pages are on disk afterwards exactly if they were before |
| Bitmap.BsrBitmap.WriteRange | bsr/bsr_bitmap.c:1572-1597 | which pages of the range are written and lose their flags, told by the flags before: all, those with a flag, or those with the lazy one; unflagged pages stay on disk, and writing all pages puts every page there |
| LruCache.Cache.Find | bsr/lru_cache.c:389-428 | finds the slot that carries a label, optionally only if the label is committed |
| LruCache.Cache.Get | bsr/lru_cache.c:523-632 | a failed get changes no slot; a successful one returns a slot with the label |
| LruCache.GetValid | bsr/lru_cache.c:523-632 | a get keeps labels unique, pending slots referenced, and the used and pending counts exact |
| LruCache.PutValid | bsr/lru_cache.c:762-784 | a put keeps the same |
| LruCache.CommittedValid | bsr/lru_cache.c:728-752 | a commit keeps the same |
| LruCache.DeletedValid | bsr/lru_cache.c:459-479 | so does deleting an unreferenced slot |
| LruCache.PickVictim | bsr/lru_cache.c:481-505 | a recycled slot is free, or unreferenced when no slot is free |
| AlRefs.ExtentsCover | bsr/bsr_actlog.c:747-751 | the extents from first to last are exactly those that hold a sector of the interval |
| AlRefs.GetRefs | bsr/lru_cache.c:523-632 | a successful get adds one reference on its extent and on no other |
| AlRefs.PutRefs | bsr/bsr_actlog.c:710-745 | putting a range takes one reference from each committed, referenced extent in it and from no other |
| AlRefs.IntervalsStayHot | bsr/bsr_actlog.c:747-906 | as long as references count the outstanding intervals, intervals that are in the log stay in it |
| AlRefs.NeedsStep | bsr/bsr_actlog.c:762-775 | what taking a range of extents needs is what the rest of it needs after the first one, whichever slot is recycled |
| AlRefs.RefusesWhen | bsr/lru_cache.c:523-632 | the log refuses an extent exactly if it is starving, the extent is announced but not committed, or it is not in the log and the log is locked, full or has all changes of a transaction pending |
| ResyncLock.LockedIsNoWritesCount | bsr/bsr_actlog.c:1728-1880 | in every state that keeps the invariant `resync_locked` is the number of extents flagged BME_NO_WRITES |
| ResyncLock.LockedMeansIdle | bsr/bsr_actlog.c:1728-1880 | while resync holds an extent, no activity-log extent inside it is referenced (agreed protocol up to 112) |
| ResyncLock.ReleaseLocked | bsr/bsr_actlog.c:1884-1920 | releasing keeps the invariant exactly when the extent is not the half-locked one, and then takes one grant |
| ResyncLock.HalfLockedDangles | bsr/bsr_actlog.c:1884-1920 | on a new device, completing a begin that had failed leaves `resync_wenr` dangling |
| ResyncLock.Rollback | bsr/bsr_actlog.c:765-770 | putting back a partly taken range restores all references exactly when all of it was in the log |
| ResyncLock.RollbackLeaks | bsr/bsr_actlog.c:747-780 | on a new device, a failed begin over 65 extents leaves references behind |
| ResyncLock.CancelWithoutDisk | bsr/bsr_actlog.c:1924-1937 | on a new device, cancelling without the metadata leaves a locked extent uncounted |
| ResyncLock.Device.FindActiveResyncExtent | bsr/bsr_actlog.c:332-377 | says so exactly if resync for a peer up to protocol 112 holds the extent over an activity-log extent, stepping aside from a half-locked one; keeps the invariant, all grants and all counts |
| ResyncLock.Device.SetBmePriority | bsr/bsr_actlog.c:380-402 | flags priority on exactly the no-writes extents over the activity-log extent; keeps the invariant |
| ResyncLock.Device.AlGet | bsr/bsr_actlog.c:405-427 | fails exactly when a resync extent is in the way, whose holders are then asked to hurry, or the log has no slot to give, and then changes no slot; keeps mutual exclusion and all grants |
| ResyncLock.Device.TryRsBeginIo | bsr/bsr_actlog.c:1728-1880 | succeeds exactly when it is not throttled, a slot can be had and (up to protocol 112) no activity-log extent inside is referenced; success adds one grant, failure none; what a failed try leaves: nothing changed, the extent given up without reference and flag, or half-locked and remembered, and when which; the invariant holds on every path; exactly when the extent is cached afterwards, and no count changes except that an extent pulled in gets the given weight |
| ResyncLock.Device.RsCompleteIo | bsr/bsr_actlog.c:1884-1920 | takes one grant away; keeps the invariant exactly when the extent is not the half-locked one |
| ResyncLock.Device.RsCancelAll | bsr/bsr_actlog.c:1924-1937 | drops all grants of the peer; keeps the invariant exactly if the metadata is there or nothing was locked |
| ResyncLock.Device.PutActlog | bsr/bsr_actlog.c:710-745 | references of the committed extents in the range go down by one; says so exactly if one of them lost its last reference |
| ResyncLock.Device.AlCommitted | bsr/bsr_actlog.c:697-704 | a commit keeps references conserved and brings every outstanding interval into the log |
| ResyncLock.Device.BeginIoNonblock | bsr/bsr_actlog.c:784-890 | takes all extents of the interval or none, and then every reference is as before; no buffers exactly if slots or changes are too few, which starves the log if no change is pending; blocked exactly if then resync for a peer up to protocol 112 holds an extent over the interval, and its holders are asked to hurry; conservation of references is kept, and referenced extents that were in the log stay in it |
| ResyncLock.Device.BeginIoForPeer | bsr/bsr_actlog.c:747-780 | success takes one reference on each extent, all committed, and keeps references conserved; what it needs, and what is enough, of the log and of resync before the call; it fails and restores all references exactly if some extent is refused and all before it were in the log; referenced extents stay in the log |
| ResyncLock.Device.CompleteIo | bsr/bsr_actlog.c:893-906 | references keep counting the outstanding intervals exactly if all of the completed interval is in the log |
| SyncBits.PeerBits.ChangeBits | bsr/bsr_actlog.c:1301-1310 | the bits of a slice change under the bitmap lock, and their number is then owed to the count of their extent and to no other |
| SyncBits.PeerBits.UpdateRsExtent | bsr/bsr_actlog.c:1107-1226 | locks, references and grants of the resync cache stay; `rs_left` of every cached extent equals its weight and what is still owed afterwards, exactly if the update is recorded and overwrites no count to which another one is owed; says cleared exactly when the failed bits are no fewer than the new count |
| SyncBits.PeerBits.UpdateSlice | bsr/bsr_actlog.c:1300-1325 | one slice with nothing between its two locks: bits, returned count, the resync cache after the lookup, the failed count of its extent, and the counts of all cached extents |
| SyncBits.PeerBits.UpdateSyncBits | bsr/bsr_actlog.c:1276-1379 | the sliced loop equals one operation on the whole range and returns the number of bits changed, or still set for failed requests; locks and grants stay; `rs_failed` of every extent cached afterwards, with the failed bits of the range added or reset, and extents without a hit as they were; counts that were right stay right exactly unless bits are cleared and the cache, as it was before, loses an update |
| SyncBits.PeerBits.BeginResync | bsr/bsr_actlog.c:1728-1880 | with the weight of the extent, a begin keeps every count its weight and what is owed, exactly unless it pulls in an extent with an update outstanding |
| SyncBits.PeerBits.EndResync | bsr/bsr_actlog.c:1884-1920 | completing resync IO keeps every count its weight and what is owed |
| SyncCounts.FetchParts | bsr/bsr_actlog.c:1121-1180 | a get followed by a put leaves the resync cache as it was, pulls the extent into an unreferenced slot, or only marks the cache starving, and when which |
| SyncCounts.SliceCounts | bsr/bsr_actlog.c:1300-1310 | changing bits within one resync extent leaves exactly that extent's count owing their number |
| SyncCounts.RecountedOwed | bsr/bsr_actlog.c:1728-1880 | pulling in an extent with its weight keeps what is owed exactly if nothing was owed to it |
| FailedCounts.SliceHits | bsr/bsr_actlog.c:1300-1325 | what a slice returns is the number of bits its extent has in the range that are changed or still set |
| FailedCounts.SliceAccount | bsr/bsr_actlog.c:1300-1325 | each slice books the failed count of its own extent, told by the cache before the call, and leaves the others |
| FailedCounts.SliceCached | bsr/bsr_actlog.c:1300-1325 | the last extent with a set bit in the range is cached afterwards if a slot could be had for it |
| LostCounts.LossStep | bsr/bsr_actlog.c:1300-1360 | what one slice adds to what is lost, told by the cache before the call |
| LostCounts.SliceAccurate | bsr/bsr_actlog.c:1300-1360 | a count once stale stays stale for the rest of the call |
| StaleCount.CountGoesStale | bsr/bsr_actlog.c:1107-1226 | a run from a new device and bitmap in which resync takes all 61 slots and a count goes stale |
| StaleCount.CountedTwice | bsr/bsr_actlog.c:1306-1325 | a run from a new device and bitmap in which resync begins between the two locks and a cleared bit is subtracted twice |
| SyncRange.OutOfSyncExact | bsr/bsr_actlog.c:1426-1469 | marking out of sync covers exactly the blocks a request touches |
| SyncRange.SetSyncClearsCovered | bsr/bsr_actlog.c:1519-1560 | marking in sync clears exactly the blocks whose sectors are all in the request, a partial last block included |
| SyncRange.ChangeSyncClearsCovered | bsr/bsr_actlog.c:1426-1469 | the other rounding never clears more, and clears the same exactly unless the device is one incomplete block |
| SyncRange.RoundingsAgree | bsr/bsr_actlog.c:1395-1603 | both roundings agree exactly unless the device is one incomplete block marked in sync as a whole |
| SyncRange.RoundingsDiffer | bsr/bsr_actlog.c:1395-1603 | a concrete device on which they differ |
| SetSyncAll.SyncDevice.SetSync | bsr/bsr_actlog.c:1489-1603 | for each selected peer every block the request touches is out of sync, or every block it covers in sync, and all else stays; which connected peers had a bit newly set; a peer's counts stay right exactly unless it is marked in sync and its cache, as it was before, loses an update |
| PeerMask.AsIntKeepsLowBits | bsr/bsr_actlog.c:1519-1519 | a value forced into an `int` keeps its low 32 bits |
| PeerMask.SlotMaskIs | bsr/bsr_actlog.c:1519-1519 | the mask of n slots, with the shift count modulo 32 and the wrapping of a 32-bit `int`, is 2^n - 1 up to 31 slots and zero for 32 |
| PeerMask.AllSelected | bsr/bsr_actlog.c:1519-1519 | every masked peer is selected exactly if there are fewer than 32 slots or none of them is masked |
| SetSyncAll.FullMaskMarksNone | bsr/bsr_actlog.c:1519-1519 | on a new bitmap for 32 peers, marking peer 0 out of sync leaves its bit clear |
| AlStripes.AcceptedExactly | bsr/bsr_main.c:6333-6371 | accepted are the unset layout, as one stripe of eight blocks, and exactly those of 32 KiB to 16 GiB by their 32-bit product |
| AlStripes.StripesBijective | bsr/bsr_main.c:6333-6371 | an accepted layout maps ring positions one to one onto the log area, exactly when the 32-bit product does not overflow |
| AlStripes.BlockInjective | bsr/bsr_actlog.c:479-495 | two ring positions never share a block |
| AlStripes.BlockSurjective | bsr/bsr_actlog.c:479-495 | every block of the area is some position's |
| AlStripes.OverflowEscapes | bsr/bsr_main.c:6333-6371 | every overflowing layout that is accepted sends some position outside the area |
| AlStripes.OverflowAccepted | bsr/bsr_main.c:6333-6371 | a concrete accepted layout that overflows |
| AlRecovery.AppliedAt | bsr-utils/user/shared/bsrmeta.c:2232-2262 | replaying one transaction gives changed slots their new label, windowed slots their label, and leaves the rest |
| AlRecovery.WindowComesRound | bsr/bsr_actlog.c:563-577 | every slot is in the window of one of any run of transactions as long as the table has windows |
| AlRecovery.ReplayShows | bsr-utils/user/shared/bsrmeta.c:2225-2265 | from the window of a slot on, replay gives what the whole log tells of it |
| AlRecovery.ShownLabels | bsr/bsr_actlog.c:525-577 | what the log tells of a slot with a label is that label |
| AlRecovery.SlotFollows | bsr/bsr_actlog.c:525-577 | once its window has come round and no slot is freed any more, the log tells exactly the label of a slot |
| AlRecovery.UnfreedShown | bsr/bsr_actlog.c:525-577 | if no slot was ever freed, the log tells exactly the labels |
| AlRecovery.ReplayRecovers | bsr-utils/user/shared/bsrmeta.c:2225-2265 | replaying all transactions, or as many as the table has windows, gives exactly what the whole log tells of every slot, and free for slots beyond |
| AlRecovery.ExtentsMaxFits | bsr/bsr_nl.c:2552-2578 | the limit on the number of slots leaves every window on disk even when one block is lost |
| AlRecovery.TooManySlots | bsr/bsr_nl.c:2552-2578 | with more slots than windows on disk, replay loses one |
| AlRing.RingKeepsLast | bsr/bsr_actlog.c:485-489 | the last transactions all keep their place exactly when the 32-bit number does not wrap among them or the ring size divides 2^32 |
| AlRing.PositionAge | bsr/bsr_actlog.c:485-489 | in such a stretch positions advance one by one around the ring |
| AlRing.ReadRing | bsr-utils/user/shared/bsrmeta.c:2163-2166 | blocks in position order |
| AlRing.FindRange | bsr-utils/user/shared/bsrmeta.c:2163-2195 | signed comparison of 32-bit numbers finds the oldest and the newest transaction of the ring |
| AlRing.ApplyTransaction | bsr-utils/user/shared/bsrmeta.c:2238-2262 | the two inner loops replay one transaction |
| AlRing.ApplyRange | bsr-utils/user/shared/bsrmeta.c:2229-2264 | the loop from oldest to newest replays the transactions in the order they were written |
| AlRing.Replay | bsr-utils/user/shared/bsrmeta.c:2144-2265 | the labels of all slots from the blocks on disk; what is returned says exactly whether there is a transaction, nothing readable, nothing to do, or damage without a transaction |
| ActivityLog.CollectUpdates | bsr/bsr_actlog.c:525-556 | the changes written are exactly the pending slots, at most 64, padded |
| ActivityLog.CollectContext | bsr/bsr_actlog.c:563-571 | the window written shows the committed labels, padded with free |
| ActivityLog.BsrActivityLog.constructor | bsr/bsr_nl.c:2552-2578 | an empty log within the slot limit |
| ActivityLog.BsrActivityLog.WriteTransaction | bsr/bsr_actlog.c:497-615 | one transaction that describes the slots as they are goes to the next place; all that are not overwritten stay readable |
| ActivityLog.BsrActivityLog.Commit | bsr/bsr_actlog.c:678-708 | pending labels are announced on disk and then made current; with none pending nothing happens |
| ActivityLog.BsrActivityLog.Get | bsr/lru_cache.c:523-632 | a reference as the cache gives it, whichever slot is recycled; the log stays recoverable and committed labels stay |
| ActivityLog.BsrActivityLog.Free | bsr/bsr_actlog.c:908-945 | the slot is free in memory, and the log on disk stays what it tells |
| ActivityLog.BsrActivityLog.CommitSlots | bsr/bsr_actlog.c:697-704 | once announced, the new labels are current |
| ActivityLog.BsrActivityLog.Initialize | bsr/bsr_actlog.c:1013-1035 | commits what is pending and fills the whole ring |
| ActivityLog.BsrActivityLog.CrashAndReplay | bsr-utils/user/shared/bsrmeta.c:2144-2265 | after a crash at any time, the next block torn or not, the ring filled or not, replay gives back exactly what the log tells of every slot: every label in use, and exactly the labels if no slot was ever freed; an empty ring gives none |
| ActivityLog.FreedComesBack | bsr/bsr_actlog.c:908-945 | on a new log, an extent logged and freed again is still told by the log |
| ActivityLog.WrapOverwrites | bsr/bsr_actlog.c:479-495 | a log of nine blocks in which a wrapped number has overwritten one of the last nine transactions |
| CrashSafety.EvictedIsHinted | bsr/bsr_actlog.c:525-547 | every page that holds a bit of an evicted extent is hinted |
| CrashSafety.BlockKeeps | bsr/bsr_actlog.c:579-612 | a log block keeps the invariant if the marks it could drop unseen, on pages passed over or in slots freed before, are on disk |
| CrashSafety.BlockExact | bsr/bsr_actlog.c:579-612 | a log block loses no mark exactly then |
| CrashSafety.TransferExact | bsr/bsr_bitmap.c:1550-1571 | writing an old copy of a page loses no mark exactly if the log lists the extent whose mark it takes off the disk |
| CrashSafety.FreeKeeps | bsr/bsr_actlog.c:908-945 | freeing a slot in memory keeps the invariant: what it loses is lost by a later block |
| CrashSafety.StepKeeps | bsr/bsr_actlog.c:497-708 | every step of every context keeps the invariant, but for such blocks and writes |
| CrashSafety.StepExact | bsr/bsr_actlog.c:497-708 | from a state with the invariant, a step loses no mark exactly if it is not one of them |
| CrashSafety.SafeExactly | bsr/bsr_actlog.c:497-708 | a run, shrinking the log included, is safe to crash in all its states exactly if none of its steps is one of them |
| CrashSafety.TightKeeps | bsr/bsr_actlog.c:497-945 | with both guards every mark whose extent memory no longer lists is on disk to stay |
| CrashSafety.NoMarkIsLost | bsr/bsr_actlog.c:497-945 | in every state of every run in which blocks wait for the writes passed over and slots are freed only when their marks are on disk, a bit set in memory is on disk or in an extent the on-disk log lists |
| CrashSafety.NoSkipNoLoss | bsr/bsr_bitmap.c:1550-1571 | every block waits for the writes passed over if no unchanged page is tested while it is being written |
| LostMarks.EarlySkipLosesMark | bsr/bsr_bitmap.c:1561-1563 | a run from an empty log in which testing the flags without waiting loses a mark |
| LostMarks.ShrinkLosesMark | bsr/bsr_actlog.c:908-945 | a run from an empty log, in which no page is passed over, that frees a slot and with the next block loses a mark |
| CrashRecovery.NextTold | bsr/bsr_actlog.c:497-615 | the table after a block is what the log tells with that block appended |
| CrashRecovery.Follow | bsr/bsr_actlog.c:497-945 | every step of the machine, carried out on the log object, keeps the two coupled: same slots, and the machine's table is what the log tells |
| CrashRecovery.CrashAndCover | bsr-utils/user/shared/bsrmeta.c:2144-2265 | any run carried out on the log object, and a crash at its end, torn block or not: if the run loses no mark, every mark in memory is on disk or in an extent that the replay of the log area brings back |
| CrashRecovery.FlushEvicted | bsr/bsr_actlog.c:525-580 | the pages hinted are those the machine's step asks for; once written, every bit of an evicted extent is on disk as in memory |
| IntervalTree.EndIsGreatest | bsr/bsr_interval.c:22-43 | the cached end is the greatest end of the subtree |
| IntervalTree.LeftDecides | bsr/bsr_interval.c:153-156 | if the left subtree reaches past the start of the range, the first overlap is in it or there is none |
| IntervalTree.LeftIsShort | bsr/bsr_interval.c:153-166 | otherwise nothing in it overlaps |
| IntervalTree.OverlappingExact | bsr/bsr_interval.c:127-138 | the list of overlaps holds exactly the overlapping intervals, in order |
| IntervalTree.InsertedIs | bsr/bsr_interval.c:47-74 | insertion keeps order and cached ends and adds the interval unless the same request is there |
| IntervalTree.RemovedIs | bsr/bsr_interval.c:114-126 | removal keeps order and cached ends and takes out just that interval |
| IntervalTree.RotatedIs | bsr/bsr_interval.c:70-72 | rotations anywhere keep the order of the tree and, repaired, the cached ends |
| IntervalTree.ReachedIsValid | bsr/bsr_interval.c:47-126 | every tree reached by insertions, removals and rotations is searchable and holds exactly the live intervals |
| IntervalNodes.Request.UpdateEnd | bsr/bsr_interval.c:22-43 | the node's end is recomputed from its children, in place |
| IntervalNodes.FindOverlap | bsr/bsr_interval.c:139-168 | the overlapping request lowest in tree order, or none exactly if nothing overlaps |
| IntervalNodes.Next | bsr/bsr_interval.c:177-180 | the request that follows in tree order, or none exactly if it is the last |
| IntervalNodes.NextOverlap | bsr/bsr_interval.c:170-186 | the next overlapping request in tree order, or none exactly if there is none |
| IntervalNodes.ForEachOverlap | bsr/bsr_interval.h:77-80 | every overlapping request once, in order, and no other |
| IntervalNodes.Contains | bsr/bsr_interval.c:87-109 | whether a request with that start and address is in the tree |
| IntervalNodes.Insert | bsr/bsr_interval.c:47-74 | links the node in place, which is then not empty, and repairs the ends up to the root, exactly if no request with its start and address is in the tree; else changes nothing |
| IntervalNodes.Remove | bsr/bsr_interval.c:114-126 | unlinks the node in place and repairs the ends up to the root; a request in no tree changes nothing |
| IntervalNodes.RotateLeft | bsr/bsr_interval.c:70-72 | an in-place rotation with both ends repaired |
| IntervalNodes.RotateRight | bsr/bsr_interval.c:70-72 | the mirror image |
| IndexRing.TargetIs | bsr/bsr_idx_ring.c:72-118 | there is room exactly unless the next slot is the oldest one in use |
| IndexRing.SwapKeeps | bsr/bsr_idx_ring.c:56-121 | a swap less than a lap after its reads hands out a slot that belongs to no ticket in use, holds no message, and that nobody has |
| IndexRing.StaleSwap | bsr/bsr_idx_ring.c:56-121 | however stale its reads, a swap keeps the ring good exactly when a slot is left |
| IndexRing.FullLapLooksEmpty | bsr/bsr_idx_ring.c:56-121 | a run in which a swap after a full lap makes the full ring look empty |
| IndexRing.StepKeeps | bsr/bsr_idx_ring.c:5-127 | every step of producers and consumer keeps the invariant |
| IndexRing.SlotHeldOnce | bsr/bsr_idx_ring.c:50-127 | in every run no two producers hold the same slot, none the slot being written out, and no other ticket in use has the slot |
| IndexRing.VisitedInOrder | bsr/bsr_main.c:5872-5977 | in every run the consumer writes out the committed messages in the order of acquisition, each once, none uncommitted |
| SendRing.StoredWindow | bsr/bsr_send_buf.c:373-385 | storing around the end of the ring appends to the waiting bytes |
| SendRing.TakenWindow | bsr/bsr_send_buf.c:425-437 | taking bytes out splits the waiting bytes |
| SendRing.Ring.Size | bsr/bsr_send_buf.c:244-256 | the exact number of waiting bytes |
| SendRing.Ring.Write | bsr/bsr_send_buf.c:322-404 | nothing above the highwater mark; else as much as fits is appended; the backlog count is exact |
| SendRing.Ring.Send | bsr/bsr_send_buf.c:492-497 | with the 99% mark a write is taken whole or not at all, and which of the two |
| SendRing.Ring.Read | bsr/bsr_send_buf.c:410-446 | the oldest bytes, at most 10 MiB; bytes taken out stay a prefix of bytes accepted |
| SendBuffer.Stream.Flush | bsr/bsr_main.c:1408-1444 | hands the waiting and the prepared bytes to the transport, or keeps its place on failure |
| SendBuffer.Stream.Prepare | bsr/bsr_main.c:1309-1327 | room for a packet within the page; the byte stream stays faithful exactly unless an unsent packet is flushed out |
| SendBuffer.PreparedNeverSent | bsr/bsr_main.c:1309-1327 | a run in which bytes of no packet go out |
| SendBuffer.Stream.Send | bsr/bsr_main.c:1446-1492 | the packet joins the stream; corked it waits, else everything waiting goes out with it; bytes already handed out are not overwritten |
| SendBuffer.Stream.SendPayload | bsr/bsr_main.c:2903-2974 | payload follows the packets before it in order, and all of it is out when the last segment is; it succeeds exactly if what waits, every page that fills up and the last one are taken by the transport; after an error exactly the segments before the one that failed are in the stream |
| SendBuffer.Stream.SendZeroCopy | bsr/bsr_main.c:2975-3025 | what waits goes out before payload that is sent without copying, and it succeeds exactly if the transport takes both |
| SendBuffer.Stream.Uncork | bsr/bsr_main.c:1521-1533 | everything waiting goes out |
| SendBuffer.Stream.DropUnsent | bsr/bsr_main.c:1494-1508 | what was handed out remains the whole stream |
| Vli.PrefixFree | bsr/bsr_vli.h:130-141 | no level's prefix begins with an earlier one |
| Vli.LevelTable | bsr/bsr_vli.h:92-102 | the greatest value of each level is the one the format documents |
| Vli.DecodeTotal | bsr/bsr_vli.h:146-165 | every look-ahead decodes, to a positive length from 2 to 64 bits |
| Vli.RoundTrip | bsr/bsr_vli.h:146-192 | a code word decodes to its number whatever follows it |
| RunLengths.DecodeNext | bsr/bsr_receiver.c:9399-9440 | a look-ahead of up to 64 bits decodes the next run of the stream |
| BitmapTransfer.FindRun | bsr/bsr_main.c:2348-2362 | the search in chunks finds the next bit of the wanted value, or the end |
| BitmapTransfer.EncodeRuns | bsr/bsr_main.c:2339-2404 | the stream holds the lengths of alternating runs from the start polarity on, as many whole runs as fit |
| BitmapTransfer.Fill | bsr/bsr_main.c:2311-2425 | as many whole runs as fit; compressed exactly when the bytes are no more than the plain bits, and then it covers exactly the bits between old and new offset; else the offset goes back to its 64-bit word |
| BitmapTransfer.SendPacket | bsr/bsr_main.c:2434-2527 | one packet within the buffer that carries the bits from the context on, compressed exactly when that pays, and whether another follows |
| BitmapTransfer.ReceiveRuns | bsr/bsr_receiver.c:9380-9440 | sets exactly the set bits the packet carries and ends at the sender's offset; fails exactly if the stream ends within a code word or a run of set bits ends past the bitmap |
| BitmapTransfer.ReceivePlain | bsr/bsr_receiver.c:9326-9358 | merges exactly the bits the packet carries and ends at the sender's offset; fails exactly if the packet has not the expected length |
| BitmapTransfer.Transfer | bsr/bsr_main.c:2567-2607 | the exchange ends; the receiver's bits become the union of both bitmaps, its other peers' bits and the sender stay as they are |
| BitmapTransfer.EveryDeviceFits | bsr/bsr_int.h:2706-2711 | every device up to the largest supported size has a bitmap that can be sent |
| VolumeBitmap.GroupBlocks | bsr/bsr_main.c:7746-7775 | the blocks written for a group of clusters are exactly those its clusters overlap |
| VolumeBitmap.SetBlocks | bsr/bsr_main.c:7779-7790 | the byte-wise store sets exactly the blocks of one group |
| VolumeBitmap.Convert | bsr/bsr_main.c:7746-7795 | for every cluster size from 512 bytes to 64 KiB a block is marked exactly when an allocated cluster overlaps it |
| VolumeSync.SetOosFromBitmap | bsr/bsr_main.c:7601-7671 | exactly the set bits within the bitmap are marked; the count is the number newly set; cached counts that were right stay right |

## Left out

- Bio submission, threads, timers, netlink, debugfs, log rolling and Windows-only branches: IO plumbing and platform calls.
- Metadata IO errors: writes succeed or the machine crashes in the middle. On an error the code still commits the log and has already advanced `al_tr_cycle`.
- LruCache: slots are a value; the free and LRU lists and the hash are not modelled, any admissible victim may be recycled.
- Bitmap.BsrBitmap: pages are sequences of words in a field; a page is replaced, not written through a pointer.
- Bitmap.BsrBitmap.Resize: the bitmap area of the metadata is whole pages; the flags BM_PAGE_IO_ERROR and BM_PAGE_IO_LOCK are not modelled.
- Bitmap.BsrBitmap.BmOp: merge and extract require a word-aligned start, as their callers pass. From another start the source stops the kernel if the range leaves its word, and else merges into the wrong bits.
- SetSyncAll.SyncDevice.SetSync: the returned peers are a set; as a number, `1 << 31` would sign-extend for slot 31.
- SyncBits.PeerBits.UpdateSyncBits: the two locks of each slice are taken without a step of another context between them, as in `UpdateSlice` and `SetSync`; `ChangeBits`, `UpdateRsExtent`, `BeginResync` and `EndResync` are the separate steps. The role checks are a parameter. Of several extents in one call only the last one is promised to be cached afterwards, as any admissible slot may be recycled for a later one.
- ResyncLock: the blocking `bsr_rs_begin_io` and `bsr_rs_del_all` are not modelled; they do not keep the exact lock count.
- ResyncLock.Device.BeginIoForPeer: the wait for a slot is one attempt; nothing else runs between its steps. Success has a necessary and a sufficient condition; between them the recycling order decides, when it takes slots of the interval's own extents.
- ResyncLock.Device.BeginIoNonblock: the simulated-usage counter of the source is zero.
- ActivityLog.CollectUpdates: the list of pending slots is walked in slot order; the order does not matter to a reader of the log.
- ActivityLog.BsrActivityLog.CrashAndReplay: magic and checksum are the classification of a block as readable; more than one torn block is not modelled.
- CrashSafety: resizing the bitmap, and bits set outside the activity log, are not steps of the machine; nor is the setting `al_updates` off, with which slots are committed and no block is written.
- CrashRecovery.Follow: replacing the log by one of another size is a step of the machine, and not carried over to the log object.
- CrashRecovery.FlushEvicted: pages are written one after the other; interleaved page writes are steps of the machine.
- BitmapTransfer: a bitmap that changes during the transfer; words of a plain packet beyond the bitmap are zero here and never merged.
- Vli: 64-bit shifts and masks are written on sequences of bits; byte packing of the stream is the padding to whole bytes.
- IntervalNodes.Insert: descends by recursion instead of a loop with a parent pointer; red-black balancing is any rotation.
- IntervalNodes.Next: nodes have no parent link, so the successor is searched from the root instead of by walking up.
- IndexRing: the 10% hysteresis after an overflow is an arbitrary refusal; the mode without a consumer is not modelled.
- SendRing.Ring.Write: one attempt; the retry loop repeats it, and packet statistics are not modelled.
- SendBuffer.Stream.Send: pages partly taken by the transport before an error are not modelled; the transport takes a page or not.
- VolumeBitmap.Convert: the caller's sizing of the output buffer is a precondition.
- UUID handling, the request state machine and two-phase commits are not part of this model.
