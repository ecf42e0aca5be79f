# A verified model of the storage engine

This project models the row storage engine of the repository, which reads and writes the SQLite
Database File Format, and proves what its parts promise. One piece of the column side is modelled
too: the assembly of nested Parquet values. The whole project is checked by
`dafny verify dfyconfig.toml`.

Code that changes things in place (the pager, the page cache, the log writer, cursors, leaf page
buffers, the lock state) is modelled by classes, arrays and loops, each proved equal to a function of
its inputs. The theorems are about those functions.

| files | what they model |
|---|---|
| `Disk`, `Journal`, `Atomicity`, `CrashRuns`, `JournalOps` | rollback-journal commit and recovery as I/O steps on a disk that may lose or reorder unsynced writes (section 3 of the SQLite Database File Format) |
| `Wal`, `WalSums`, `WalRuns`, `WalOps` | the write-ahead log: frames, checksums, scan, writer, resumption (sections 4.1 to 4.3) |
| `Checkpoint`, `Snapshots` | passive checkpoints, reader marks, leaving WAL mode (sections 4.3 and 4.5) |
| `Cache`, `PagerState`, `PagerOps`, `PagerRuns` | one connection: cache, overlay, dirty pages, commits, mode switches |
| `Trunks`, `Freelist`, `FreelistRuns` | the page allocator and its integrity check (section 1.5) |
| `TablePage`, `RowTree`, `TableScan`, `TableSeek`, `TableCursorOps` | the table cursor (section 1.6) |
| `IndexOrder`, `IndexTree`, `IndexScan`, `IndexSeek`, `IndexCursorOps` | the index cursor (section 1.6) |
| `CellCodec`, `PageImage`, `WrittenTree` | the cells and pages the write paths build, and what the cursors find on them |
| `DropTree` | giving back all pages of a table b-tree |
| `Overflow` | overflow chains (section 1.7) |
| `LeafLayout`, `LeafPage`, `Freeblocks`, `LeafEdits`, `LeafDelete`, `LeafRebuild`, `LeafOps`, `LeafExtremes` | editing a leaf page in place |
| `Varint`, `Values`, `Record`, `RecordOps` | the record codec (section 2.1) |
| `Locks` | the lock ladder under interleaved byte-range calls |
| `SchemaTree`, `Nested`, `Dremel` | Parquet schema levels and nested assembly |
| `Bytes`, `Sorting`, `Paging`, `Files` | shared definitions |

How the outside world is modelled. A file is its bytes. A power cut keeps everything synced and any
subset of the writes issued since, each of them whole; creating and deleting a file take effect at
once. Salts, page numbers
handed out by the allocator, reader marks and the moments at which other processes hold locks are
parameters, so the theorems hold for all of them. `synchronous` is FULL throughout. Page numbers and
sizes are bounded as in the source, with saturation and 32-bit wrap-around written out. Errors are
`Result` values.

Where the code does not do what its documentation says, the model follows the code. One lemma or run
shows an input on which the promise fails, and another result gives the exact condition under which it
holds:

- A journal whose checksum salt is zero does not protect a commit of two or more journaled pages: a
  zero-filled slot passes as a record for page 1 (`ZeroSaltNotAtomic`, `CommitAtomicIff`).
- A commit that only appends pages writes no journal, and is atomic only up to one page
  (`LargeUnjournaledCut`, `UnjournaledAtomicIff`).
- A log is resumed after its last valid frame rather than its last committed one, so the pages of a
  torn commit resurface with the next commit (`OrphanResurfaces`, `ResumeIff`).
- A reader whose mark is zero is not seen by checkpoints (`UnmarkedReaderMisled`, `UnmarkedReaderIff`).
- At the largest page count, allocation saturates and hands out a page in use (`FullFileReused`,
  `AllocateSafe`).
- A NaN is stored but reads back as NULL (`NaNReadsAsNull`, `RecordRoundTrip`).
- The fragment counter of a page saturates at 255, after which bytes are no longer accounted for
  (`SaturateCounter`, `DeleteAsFragment`).
- Past that point a page of 65536 bytes can collect more freeblocks than the walk accepts, and a deletion
  that needs them fails halfway (`CrowdPage`, `SpliceDelete`). Cells of at least three bytes never get
  there (`ChainWalkable`), and every table cell with a payload has three, as has every index cell with a
  payload of two bytes (`PayloadIsLong`).
- Pending does not keep out a reader that has already probed (`PendingLetsProbedIn`,
  `SharedAfterProbeIff`).

## Model

| member | source | states |
|---|---|---|
| Journal.ComputePageChecksum | src/row/pager/journal.rs:153-167 | The loop that steps back by 200 bytes sums exactly the bytes of the specification, 32-bit wrap-around included |
| Journal.ChecksumIs | src/row/pager/journal.rs:153-167 | The checksum is the nonce plus exactly the bytes at multiples of 200 from the end, the first byte of the page excepted, modulo 2^32 |
| Journal.HeaderRoundTrip | src/row/pager/journal.rs:104-151 | A serialized header parses back to itself and marks the file as hot |
| Journal.HotIff | src/row/pager/mod.rs:409-415 | A journal is hot if and only if it starts with the whole magic number |
| Journal.RecordReplays | src/row/pager/journal.rs:274-318 | Whatever the sector size, a record is restored to its own page if and only if its checksum is the one of the page; a record cut short anywhere is not |
| Journal.PageCountReads | src/row/pager/mod.rs:586-586 | The page count a commit journals is the file header's at offset 28, and the length of the file |
| JournalOps.Vfs.Perform | src/row/pager/journal.rs:189-250 | One I/O call: the disk moves by that step and the step is logged |
| JournalOps.WriteRecord | src/row/pager/journal.rs:228-242 | The record appended holds the page number, the page as it stands in the main file, and its checksum |
| JournalOps.WriteJournal | src/row/pager/journal.rs:189-250 | The steps of a journal: create, zero-padded header, one record per page in order, sync |
| JournalOps.WritePages | src/row/pager/mod.rs:619-623 | Dirty pages are written in ascending page order, each once |
| JournalOps.FlushLocked | src/row/pager/mod.rs:582-636 | A legacy commit at FULL performs exactly the commit steps, journal synced before the first page write, journal deleted last |
| JournalOps.RecoverHotJournal | src/row/pager/mod.rs:1132-1150 | Recovery performs exactly the open steps; if the header does not parse it fails and touches nothing |
| Atomicity.ReplayComplete | src/row/pager/journal.rs:274-318 | Over a whole journal the replay restores every recorded page, in order, and nothing else |
| Atomicity.ReplayQuiet | src/row/pager/journal.rs:274-318 | Over any journal torn while being written, everything the replay writes is a pre-transaction page at its own place |
| Atomicity.OpenRollsBack | src/row/pager/mod.rs:1132-1150 | From every disk a cut can leave before the delete, a completed open yields exactly the pre-transaction file |
| Atomicity.OpenRestartable | src/row/pager/mod.rs:1132-1150 | A power cut at any point of recovery leaves a disk that the next open can still roll back |
| CrashRuns.CutBeforeDelete | src/row/pager/mod.rs:582-636 | A power cut after any prefix of the commit steps before the journal is deleted leaves a disk that rolls back, whichever unsynced writes survived |
| CrashRuns.CommitCompletes | src/row/pager/mod.rs:582-636 | A commit that runs to its end leaves exactly the post-transaction file, synced, and no journal |
| CrashRuns.CommitAtomic | src/row/pager/mod.rs:582-636 | All or nothing under every power cut, from every disk without a matching leftover journal |
| CrashRuns.CommitAtomicIff | src/row/pager/mod.rs:582-636 | A journaled commit is all or nothing under every power cut if and only if its checksum salt is not zero or it journals a single page |
| CrashRuns.ZeroSaltNotAtomic | src/row/pager/mod.rs:1116-1122 | With salt zero and at least two journaled pages there is a power cut after which the next open damages page 1 |
| CrashRuns.UnjournaledAtomicIff | src/row/pager/mod.rs:582-636 | A commit that only adds pages, and so writes no journal, is old-or-new under every power cut if and only if it writes at most one page |
| CrashRuns.HistoriesAreAtomic | src/row/pager/mod.rs:582-636 | Over every history of journaled commits with a safe salt, power cuts, recoveries and cuts during recovery the open database is exactly what its completed transactions make it |
| CrashRuns.OpenAlwaysSucceeds | src/row/pager/mod.rs:1132-1150 | No history gets stuck: a closed database always opens, with the expected contents |
| Wal.ComputeChecksum | src/row/pager/wal.rs:257-282 | The word-pair loop computes the running checksum of the specification in either byte order |
| WalSums.ChecksumIs | src/row/pager/wal.rs:257-269 | Both sums in closed form: every word weighted by a Fibonacci number that falls to 0 for the first sum and to 1 for the second, modulo 2^32 |
| WalSums.FrameSumIs | src/row/pager/wal.rs:304-383 | A frame sum covers page number, database size and content, carried on from the frame before, in the same closed form |
| WalSums.NativeWord | src/row/pager/wal.rs:274-281 | The two word orders read reversed bytes alike |
| Wal.HeaderRoundTrip | src/row/pager/wal.rs:157-255 | Every valid header parses back from its bytes |
| Wal.ParsedIsValid | src/row/pager/wal.rs:157-201 | Whatever parses is a valid header, and its bytes are the serialization of it |
| Wal.CommittedPages | src/row/pager/wal.rs:304-383 | For every byte string the live map with its undo log equals the map copied whole at the last commit frame of the longest valid run |
| Wal.LastValidFrameState | src/row/pager/wal.rs:402-442 | It ends exactly where the scan of `committed_pages` ends, with the same running checksum |
| Wal.ScanOfCut | src/row/pager/wal.rs:304-383 | A log cut anywhere past its header scans as exactly the frames that lie whole before the cut |
| WalRuns.PartialInvisible | src/row/pager/wal.rs:304-383 | The frames of a commit without its commit frame change nothing that is read |
| WalRuns.WholeVisible | src/row/pager/wal.rs:304-383 | A whole commit overlays exactly its pages and sets its size |
| WalRuns.CutReadsCommitted | src/row/pager/wal.rs:304-383 | Cut the log at any byte past the header: what is read is the database after exactly the commits lying wholly inside the cut |
| WalRuns.EveryCutCounts | src/row/pager/wal.rs:304-383 | Every length past the header has such a number of commits, so the cut theorem covers every cut |
| WalRuns.ResumeIff | src/row/pager/wal.rs:402-442 | A commit appended after a torn one has its intended effect if and only if every orphan page is overwritten or was unchanged |
| WalRuns.ResumeAfterCommit | src/row/pager/wal.rs:402-442 | A log that is empty or ends in a commit frame is resumed safely |
| WalRuns.OrphanResurfaces | src/row/pager/wal.rs:579-640 | A page of a torn commit becomes visible with the next commit |
| WalOps.RescanFinds | src/row/pager/wal.rs:579-640 | A rescan of a file this code wrote finds its header, its last frame and the running checksum there |
| WalOps.HintMatchesRescan | src/row/pager/wal.rs:579-656 | Resuming from a cached hint gives exactly the position of a full rescan |
| WalOps.WalWriter.Create | src/row/pager/wal.rs:489-501 | A new writer has written its header and holds no frames |
| WalOps.WalWriter.AppendFrame | src/row/pager/wal.rs:505-544 | The frame is queued with its chained checksum and the file is untouched |
| WalOps.WalWriter.Sync | src/row/pager/wal.rs:550-557 | All queued frames reach the file, which is then exactly the encoded log |
| WalOps.WalWriter.HintNow | src/row/pager/wal.rs:649-656 | With nothing pending the hint describes exactly the synced log |
| WalOps.WalWriter.FrameCount | src/row/pager/wal.rs:667-672 | The number of frames, from the offset |
| WalOps.OpenExisting | src/row/pager/wal.rs:579-640 | Errors and position of resumption, and on a file this code wrote a valid writer after its last frame |
| WalOps.FlushWal | src/row/pager/mod.rs:662-765 | A FULL commit appends exactly its frames in ascending page order, the last with the database size, and the returned hint fits |
| WalOps.TurnsWriteTheLog | src/row/pager/mod.rs:662-765 | Whoever commits in turn and whatever hints they hold, the file is the log of all commits, and every cached hint resumes where a rescan would |
| WalOps.TurnsSurviveCuts | src/row/pager/wal.rs:304-383 | Writers commit in turn with whatever hints they hold, the file is cut at any byte past its header: what is read back is the database after exactly the commits wholly inside the cut |
| Checkpoint.SafeFrameIs | src/row/pager/checkpoint.rs:126-132 | A bound is within the log and below no live nonzero mark if and only if it is at most the one computed, which is so the greatest safe one |
| Checkpoint.PageCountIs | src/row/pager/checkpoint.rs:49-54 | The page count of a file is the least number of pages that hold its bytes, or 0 when a 32-bit number cannot say it |
| Checkpoint.CopyAscending | src/row/pager/checkpoint.rs:173-183 | The write loop leaves the file of the copying specification |
| Checkpoint.CopyReads | src/row/pager/checkpoint.rs:173-183 | After the copy each page in range reads as copied and every other page as before |
| Checkpoint.CheckpointPassive | src/row/pager/checkpoint.rs:59-192 | The whole pass: errors leave file and backfill alone, otherwise file, published backfill and report are those of the specification |
| Checkpoint.PassOnLog | src/row/pager/checkpoint.rs:59-192 | What a pass does on a log this code wrote, case by case: empty, nothing safe, nothing new, or a copy up to the safe frame |
| Checkpoint.PassPreservesView | src/row/pager/checkpoint.rs:59-192 | Under any reader marks every readable page of the overlay-over-file view is unchanged |
| Checkpoint.PassKeepsBackfillTrue | src/row/pager/checkpoint.rs:183-191 | The published backfill stays true: that many frames are in the main file |
| Checkpoint.CompletePassIsWhole | src/row/pager/checkpoint.rs:59-192 | When a pass reports complete, the main file alone is the view of the log over the file |
| Checkpoint.PassCompletesIff | src/row/pager/checkpoint.rs:126-191 | A pass reports complete if and only if everything was copied before or no live nonzero mark is below the end of the log |
| Snapshots.SnapshotIsolation | src/row/pager/checkpoint.rs:126-183 | A reader with a nonzero mark sees the same bytes for every page of its snapshot over every interleaving of commits and checkpoints that respect the mark |
| Snapshots.UnmarkedReaderIff | src/row/pager/mod.rs:432-437 | For any marks and any backfill: a pass keeps the view of a reader it does not see if and only if the reader loaded the page itself or the pass copies nothing different over it |
| Snapshots.ZeroMarkIgnored | src/row/pager/checkpoint.rs:126-132 | A mark of 0 among the marks does not hold a checkpoint back |
| Snapshots.UnmarkedReaderDisturbed | src/row/vfs/shm.rs:440-462 | A reader opens over an empty log with mark 0, a commit and a checkpoint follow: it then sees the new content of every page of that commit |
| Snapshots.UnmarkedReaderMisled | src/row/vfs/shm.rs:440-462 | Such a run on a concrete one-page file |
| Snapshots.TransactionsBounded | src/row/pager/checkpoint.rs:155-182 | Commits of pages within non-shrinking sizes make a log that a checkpoint copies whole |
| Snapshots.UnreadPassCompletes | src/row/pager/checkpoint.rs:126-192 | With no readers one pass completes and grows the file no further than the database |
| Snapshots.DrainLog | src/row/pager/mod.rs:946-961 | The pass loop never changes the view; when it succeeds the main file alone is the view |
| Snapshots.LeaveWal | src/row/pager/mod.rs:793-976 | Leaving WAL mode loses nothing but the version bytes of page 1; when refused it changes nothing that is read |
| Snapshots.PatchVersion | src/row/pager/mod.rs:1090-1101 | Bytes 18 and 19 change and no others |
| PagerState.WalCommit | src/row/pager/mod.rs:662-765 | Appending a commit makes the working pages the committed ones on disk |
| PagerState.LegacyCommit | src/row/pager/mod.rs:619-629 | Writing the dirty pages to the main file makes the working pages the committed ones on disk |
| PagerState.EnterWal | src/row/pager/mod.rs:793-920 | A fresh log and patched version bytes hold the same committed pages |
| PagerState.LogReady | src/row/pager/mod.rs:946-961 | A log of a connection meets what a checkpoint asks of it |
| PagerState.LeftWal | src/row/pager/mod.rs:793-976 | The drained and patched main file alone holds the committed pages |
| PagerOps.Pager.ReadPage | src/row/pager/mod.rs:1213-1246 | Through dirty pages, log overlay, cache and file: the page of the working map; the cache stays clear of dirty and overlaid pages |
| PagerOps.Pager.GetPageMut | src/row/pager/mod.rs:464-477 | The page becomes dirty with the contents it had and leaves the cache; nothing that is read changes |
| PagerOps.Pager.ReplacePage | src/row/pager/mod.rs:464-477 | Overwriting any page with any bytes through the mutable buffer changes exactly that page of the working map and keeps every layer in order |
| PagerOps.Pager.EditPage | src/row/pager/mod.rs:464-477 | An edit replaces exactly that page of the working map; a missing page changes nothing |
| PagerOps.Pager.Rollback | src/row/pager/mod.rs:777-780 | Back to exactly the committed map |
| PagerOps.Pager.Flush | src/row/pager/mod.rs:489-537 | The working map becomes the committed one, on disk |
| PagerOps.Pager.FlushToLog | src/row/pager/mod.rs:662-765 | The commit goes to the log and the overlay, and the dirty pages leave the cache |
| PagerOps.Pager.FlushToFile | src/row/pager/mod.rs:582-636 | The commit goes to the main file in ascending page order |
| PagerOps.Pager.SetJournalMode | src/row/pager/mod.rs:793-826 | Refused exactly while pages are dirty; otherwise the mode is the one asked for and the committed map changes in nothing but the version bytes |
| PagerOps.Pager.EnterWalMode | src/row/pager/mod.rs:793-920 | The log is created fresh and page 1 patched, with every other page as before |
| PagerOps.Pager.LeaveWalMode | src/row/pager/mod.rs:793-976 | The log is drained and removed and page 1 patched, with every other page as before |
| PagerOps.Pager.AllocatePage | src/row/pager/mod.rs:984-1019 | Does to the working map exactly what the freelist function says, errors included, whatever state the freelist is in |
| PagerOps.Pager.DeallocatePage | src/row/pager/mod.rs:1024-1065 | Does to the working map exactly what the freelist function says, for any page and whatever state the freelist is in |
| PagerOps.Pager.AllocateUnused | src/row/pager/mod.rs:984-1019 | On a consistent freelist with a page to give, the page returned was not in use and the file stays consistent |
| PagerOps.Pager.DeallocateUsed | src/row/pager/mod.rs:1024-1065 | On a consistent freelist a page in use becomes free, and no other |
| PagerOps.Pager.Grow | src/row/pager/mod.rs:984-1019 | The new page is zeroed and page 1 counts it |
| PagerOps.CreateLog | src/row/pager/mod.rs:884-920 | The recreated log is a header and nothing else |
| PagerRuns.ReadWalPages | src/row/pager/mod.rs:1170-1210 | The overlay of a connection: empty without a log, an error on a foreign page size, otherwise the committed pages |
| PagerRuns.OverlayFound | src/row/pager/mod.rs:1170-1210 | On a log this code wrote the overlay is what all its commits make |
| PagerRuns.Open | src/row/pager/mod.rs:403-458 | Opening files that hold a committed database gives a connection that sees exactly it |
| PagerRuns.Reopen | src/row/pager/mod.rs:403-458 | Closing without a commit and opening again yields the committed map |
| PagerRuns.Perform | src/row/pager/mod.rs:464-1065 | One operation does to the connection what it does to a working map over a committed map, and answers the same |
| PagerRuns.RunPager | src/row/pager/mod.rs:464-1246 | Over every run of reads, edits, allocations, deallocations, flushes, rollbacks, mode switches and reopenings the connection refines the two maps |
| PagerState.FileHeaderReads | src/row/pager/mod.rs:346-348 | The version bytes, the page count, the first trunk and the free count are read from where the format puts them |
| Cache.PopLeast | src/row/pager/mod.rs:190-214 | The heap pop: a least candidate, and exactly the others remain |
| Cache.LeastIsFirst | src/row/pager/mod.rs:190-214 | The entry with the least tick is the least recently used one |
| Cache.PageCache.constructor | src/row/pager/mod.rs:136-143 | An empty cache |
| Cache.PageCache.Get | src/row/pager/mod.rs:150-169 | A hit returns the page and makes it most recent; a miss changes nothing |
| Cache.PageCache.CompactHeap | src/row/pager/mod.rs:171-177 | The heap keeps exactly the current candidates |
| Cache.PageCache.EvictOne | src/row/pager/mod.rs:190-214 | Evicts exactly the least recently used page, and finds one whenever the cache is not empty |
| Cache.PageCache.Insert | src/row/pager/mod.rs:179-188 | The page becomes most recent, after the least recent one is evicted when full |
| Cache.PageCache.EvictOneIfFull | src/row/pager/mod.rs:216-221 | Evicts, and returns the bytes of, the least recent page exactly when full |
| Cache.PageCache.Invalidate | src/row/pager/mod.rs:223-226 | Exactly that page leaves |
| Cache.RunCache | src/row/pager/mod.rs:123-226 | After any run the cached set is that of an ideal recency list and within capacity |
| Trunks.RoundTrip | src/row/pager/freelist.rs:92-121 | A written trunk parses back |
| Trunks.MaxLeavesIs | src/row/pager/freelist.rs:73-75 | The capacity is the greatest number of entries that fit after the header |
| Trunks.ParseKeeps | src/row/pager/freelist.rs:92-106 | Every leaf of a page whose count fits is kept, in order; of an overclaimed count, exactly as many as fit |
| Trunks.ParseTrunk | src/row/pager/freelist.rs:92-106 | The parse loop, with an overclaimed leaf count cut to what fits |
| Trunks.WriteTrunk | src/row/pager/freelist.rs:108-121 | Whatever the page held before, it holds exactly the trunk afterwards |
| Freelist.AllocateGrows | src/row/pager/mod.rs:984-1019 | With an empty freelist the file grows by one page, the one returned |
| Freelist.AllocateTrunk | src/row/pager/mod.rs:984-1019 | An empty trunk is itself handed out and the chain continues with the next |
| Freelist.AllocateLeaf | src/row/pager/mod.rs:984-1019 | The last leaf of the first trunk is handed out |
| Freelist.AllocateSafe | src/row/pager/mod.rs:984-1019 | The returned page was not in use, and all other pages keep their contents, if and only if one is free or the page count is below its maximum; at the maximum it wipes and returns a page in use |
| Freelist.FullFileReused | src/row/pager/mod.rs:990-998 | The file on which it goes wrong: every page number taken and none free, the last page is wiped and handed out |
| Freelist.DeallocateSafe | src/row/pager/mod.rs:1024-1065 | Freeing a page in use other than page 1 succeeds, frees exactly it and keeps the rest of the file |
| FreelistRuns.StepKeeps | src/row/pager/mod.rs:984-1065 | Every step keeps the accounting and takes no page in use |
| FreelistRuns.RunsStayAccounted | src/row/pager/mod.rs:984-1065 | Over every run no page is lost, none is both live and free, every allocation returns a page not live, and the freelist check passes in every state |
| FreelistRuns.ConsistentChecks | src/row/integrity.rs:262-320 | A consistent chain passes every test of the freelist check |
| FreelistRuns.CheckFreelist | src/row/integrity.rs:262-320 | The check reports nothing if and only if an in-range, acyclic chain with the counted pages exists |
| FreelistRuns.BadLeaves | src/row/integrity.rs:305-309 | A leaf problem is reported exactly when a leaf is out of range |
| DropTree.FreeChainFrees | src/row/btree/mod.rs:677-708 | An overflow chain is freed page by page, read before each page is rewritten as free |
| DropTree.FreeCellsFrees | src/row/btree/mod.rs:892-910 | The overflow chains of all cells of a leaf are freed, each page once |
| DropTree.FreeNodeFrees | src/row/btree/mod.rs:873-969 | The free set grows by exactly the interior, leaf and overflow pages of the tree, each once, though freed pages become trunks during the walk; it completes if and only if the tree is within the visit limit |
| DropTree.FreeNodesFree | src/row/btree/mod.rs:873-969 | The same for the children of an interior page, one after another |
| DropTree.FreeOverflowChain | src/row/btree/mod.rs:677-708 | The loop with its set of seen pages |
| DropTree.FreeLeafCells | src/row/btree/mod.rs:892-910 | The loop over the cells of a leaf |
| DropTree.FreeBtreePages | src/row/btree/mod.rs:862-969 | The recursive walk over the working map of the pager |
| Overflow.SpillShape | src/row/btree/mod.rs:622-645 | For every usable size a header allows: a payload is kept whole up to the maximum; past it the cell keeps the one size between minimum and maximum that makes the rest fill whole pages, if there is one, and the minimum otherwise |
| Overflow.LocalSizeIs | src/row/btree/mod.rs:633-645 | Whatever allowed size leaves whole pages, that is the size kept |
| Overflow.SizesAre | src/row/btree/mod.rs:623-633 | The maximum, the minimum and the bytes per overflow page, by the inequalities they solve |
| Overflow.WriteOverflowChain | src/row/btree/table/insert.rs:91-121 | The pages written link up and carry the data in order; no other page changes |
| Overflow.GatherPages | src/row/btree/mod.rs:754-802 | The chain walk ends on every page contents; each missing, short or repeated page is its own error |
| Overflow.ReassemblePayload | src/row/btree/mod.rs:710-802 | Local payloads, spilled payloads and every error case |
| Overflow.SpillReassembles | src/row/btree/mod.rs:710-802 | Reassembly returns the original payload if and only if the chain is within the hop limit, whatever pages it uses |
| LeafLayout.CellLenLocal | src/row/btree/mod.rs:1711-1740 | The length of a cell depends on its own bytes only |
| LeafLayout.FreeBlocksApart | src/row/btree/mod.rs:1413-1484 | Freeblocks ascend, are disjoint and never touch |
| LeafLayout.FreeBlocksBounded | src/row/btree/mod.rs:1413-1434 | With the fragments within their counter a page never holds more freeblocks than the walk accepts |
| LeafLayout.PayloadIsLong | src/row/btree/mod.rs:1711-1740 | A table cell with a payload, and an index cell with a payload of two bytes or more, is at least three bytes long |
| LeafLayout.LongTilesBounded | src/row/btree/mod.rs:1413-1434 | Nor with cells of at least three bytes, whatever the fragments add up to |
| LeafLayout.WithoutTileTiling | src/row/btree/mod.rs:1544-1611 | Freeing a cell keeps the area tiled with no touching freeblocks and moves its bytes to the gap, a fragment or a freeblock |
| LeafLayout.OtherCellsStay | src/row/btree/mod.rs:1544-1611 | Every other cell keeps its place |
| LeafPage.ContentConserved | src/row/btree/mod.rs:1497-1611 | Content area = cells + freeblocks + fragments, and the freeblocks can all be walked |
| LeafPage.InsertReads | src/row/btree/mod.rs:1497-1529 | Every header field, the cell and the untouched bytes of an inserted page |
| Freeblocks.AddBlockIs | src/row/btree/mod.rs:1461-1484 | The in-order insert with its two merges gives exactly the freeblocks of the layout without the cell |
| Freeblocks.AbsorbIs | src/row/btree/mod.rs:1587-1596 | Deleting the first cell absorbs the freeblock after it and no more |
| Freeblocks.AbsorbBlocks | src/row/btree/mod.rs:1590-1594 | The loop that absorbs freeblocks at the content start |
| LeafEdits.InsertSound | src/row/btree/mod.rs:1497-1529 | The page stays well formed and its cells are the old ones with the new one at its index |
| LeafEdits.DeleteLayout | src/row/btree/mod.rs:1544-1611 | A page that reads as the old one without a cell is well formed and holds the other cells in order |
| LeafDelete.WriteChainReads | src/row/btree/mod.rs:1441-1454 | The freeblock chain read back is the chain written |
| LeafDelete.WriteChainKeeps | src/row/btree/mod.rs:1441-1454 | Bytes outside the list head and the freeblock heads do not change |
| LeafDelete.DeleteAsFragment | src/row/btree/mod.rs:1597-1605 | A cell under four bytes becomes fragment bytes, and conservation is kept if and only if the counter does not saturate |
| LeafDelete.DeleteAsFreeblock | src/row/btree/mod.rs:1606-1610 | A longer cell becomes a freeblock merged with its neighbours, conserving every byte |
| LeafDelete.DeleteFirst | src/row/btree/mod.rs:1587-1596 | The first cell of the content area joins the gap, with the freeblock after it |
| LeafRebuild.RebuildSound | src/row/btree/mod.rs:1241-1320 | A rebuilt page is well formed, holds exactly the given cells, wastes nothing and keeps the bytes before its header |
| LeafOps.PutBytes | src/row/btree/mod.rs:1176-1189 | The bytes are written in place and no others change |
| LeafOps.SpliceInsert | src/row/btree/mod.rs:1497-1529 | Declined, changing nothing, exactly when the gap is too small; otherwise exactly that cell is inserted |
| LeafOps.WalkFreeblocks | src/row/btree/mod.rs:1413-1434 | Reads back the whole chain, or gives up exactly past the cap |
| LeafOps.WriteFreeblockChain | src/row/btree/mod.rs:1441-1454 | The loop leaves the image of the specification |
| LeafOps.ClearCell | src/row/btree/mod.rs:1574-1585 | The pointer is dropped, the later ones move down, and the cell is zeroed |
| LeafOps.SpliceDelete | src/row/btree/mod.rs:1544-1611 | When it succeeds, that exactly that cell is removed and exactly when conservation is kept; when the freeblock chain is too long to walk, that it fails with the cell already cleared |
| LeafOps.Rebuild | src/row/btree/mod.rs:1241-1320 | Refused, changing nothing, exactly when the cells do not fit; otherwise the page holds exactly them |
| PageImage.RebuildIsImage | src/row/btree/mod.rs:1241-1320 | A rebuilt leaf byte for byte: what preceded the header, the header fields, one pointer per cell, zeros, and the cells joined in order up to the end of the page |
| PageImage.WritePage | src/row/btree/mod.rs:1213-1320 | Leaf and interior pages: refused, changing nothing, exactly when the cells do not fit; otherwise the buffer is exactly that image, the rightmost child included |
| PageImage.ImageHead | src/row/btree/mod.rs:1620-1645 | The image reads as its page type and its number of cells |
| PageImage.ImageCell | src/row/btree/mod.rs:1678-1695 | Pointer i of the image leads to cell i |
| PageImage.ImageRight | src/row/btree/mod.rs:1225-1239 | The rightmost child is found where it was written |
| CellCodec.CellHeadReads | src/row/btree/mod.rs:1711-1737 | Bytes that start with two varints read as a cell whose length is the first, whose rowid is the second and whose tail follows both |
| CellCodec.KeyCellReads | src/row/btree/mod.rs:1144-1168 | An interior cell reads as the child and the signed key it was built from |
| CellCodec.TableCellReads | src/row/btree/table/insert.rs:67-88 | A table cell anywhere in a page reads as its rowid and length, its payload reassembles whole, and the overflow page it names is the first of its chain |
| CellCodec.IndexCellReads | src/row/btree/index/insert.rs:83-100 | The payload of an index cell reassembles whole |
| CellCodec.TableCellValid | src/row/btree/mod.rs:1037-1064 | The length found by decoding a table cell is its own |
| CellCodec.IndexCellValid | src/row/btree/index/insert.rs:83-100 | The same for an index cell |
| WrittenTree.RebuiltReads | src/row/btree/mod.rs:1241-1320 | A rebuilt leaf, header at 100 on page 1 and at 0 elsewhere, reads through type, count, pointers and cell heads as exactly its cells |
| WrittenTree.SoundReads | src/row/btree/mod.rs:1678-1737 | Whatever edits led to it, a well-formed leaf reads through count, pointers and cell heads as exactly its cells |
| WrittenTree.LeafKindIs | src/row/btree/mod.rs:1213-1220 | The type byte a rebuilt leaf gets is the one its cursor expects |
| WrittenTree.WrittenIsStored | src/row/btree/mod.rs:1213-1239 | A table tree written page by page from rows and keys is a stored tree of exactly those rows, payloads included |
| WrittenTree.WrittenScans | src/row/btree/mod.rs:163-284 | Scanning a written table tree yields the rows that were saved, in order or in reverse, and the payload asked for at each row is the one saved, overflow pages included |
| WrittenTree.IndexIsStored | src/row/btree/index.rs:716-720 | An index tree written page by page from encoded keys is a stored index of exactly those keys |
| WrittenTree.IndexScans | src/row/btree/index.rs:103-134 | Scanning a written index yields its entries in order or in reverse |
| LeafOps.ApplyEdit | src/row/btree/mod.rs:1241-1611 | One edit that is not stuck: when it is accepted, what it does to the cells, and exactly when conservation survives |
| LeafOps.RunEdits | src/row/btree/mod.rs:1241-1611 | Every run of rebuilds, inserts and deletes on a page refines the same run on a sequence of cells and keeps the bytes before the header; it stops only before a stuck deletion, which cannot happen while the fragment counter is true, on pages up to 32768 bytes, or with cells of at least three bytes; the content area is conserved until the fragment counter would overflow |
| LeafOps.ChainWalkable | src/row/btree/mod.rs:1413-1434 | Three conditions, each enough for the freeblock walk never to give up |
| LeafOps.IsStuck | src/row/btree/mod.rs:1587-1609 | Decides from the page whether a deletion is stuck: it needs the freeblock chain, and the chain is past the cap |
| LeafOps.NeedsChainIs | src/row/btree/mod.rs:1587-1609 | A deletion walks the chain exactly when its cell does not become a fragment |
| LeafExtremes.SaturateCounter | src/row/btree/mod.rs:1597-1605 | A run of inserts and deletes after which 258 fragment bytes stand behind a counter of at most 255 |
| LeafExtremes.CrowdPage | src/row/btree/mod.rs:1413-1434 | A run of inserts and deletes on a 65536-byte page rebuilt with one two-byte cell that ends with more than 10000 freeblocks, where deleting the one cell left is stuck |
| RowTree.OrderedAscends | src/row/btree/mod.rs:163-205 | The in-order rows of an ordered tree are strictly ascending |
| TableScan.MoveYields | src/row/btree/mod.rs:469-563 | A move of the stack machine returns the first row ahead and leaves exactly the others ahead |
| TableScan.ScanIsTraversal | src/row/btree/mod.rs:163-265 | first/next yields the recursive in-order rows and last/prev exactly their reverse |
| TableSeek.LeafSearchFinds | src/row/btree/mod.rs:314-349 | Binary search in a leaf finds a rowid exactly when a cell has it |
| TableSeek.NodeSearchFinds | src/row/btree/mod.rs:350-387 | Binary search in an interior page finds the child a linear search would |
| TableSeek.SeekFinds | src/row/btree/mod.rs:290-396 | seek finds a row exactly when the traversal contains its rowid, on trees of any size; it fails exactly when the way to the leaf alone is longer than the visit limit |
| TableSeek.RowsBounded | src/row/btree/mod.rs:981-1030 | A tree has at most 65535 rows per page |
| TableSeek.CountIs | src/row/btree/mod.rs:981-1030 | count_table_rows counts the rows of the traversal, saturating, and fails exactly past the visit limit |
| TableSeek.CountIsExact | src/row/btree/mod.rs:981-1030 | From the root: the exact number of rows within the visit limit, where the count never saturates, and a failure past it |
| TableSeek.CountNeedsRoot | src/row/btree/mod.rs:981-1030 | A count that completes has read a root that is present, long enough and of a known type |
| TableCursorOps.TableCursor.Push | src/row/btree/mod.rs:408-463 | Visit limit, page read, header checks and the new frame |
| TableCursorOps.TableCursor.DecodeLeafCell | src/row/btree/mod.rs:584-607 | The current row is set to the decoded cell, which is the length and rowid of `CellHeadReads` |
| TableCursorOps.TableCursor.CurrentPayload | src/row/btree/mod.rs:267-284 | The payload of the current row, refused before any row |
| TablePage.CutPage | src/row/btree/mod.rs:1630-1699 | A header field reads the same from a page cut short if and only if the cut leaves it whole |
| TablePage.CutCell | src/row/btree/mod.rs:651-669 | The same for the child of an interior cell and the overflow page of a leaf cell |
| TableCursorOps.TableCursor.AdvanceForward | src/row/btree/mod.rs:469-521 | The forward loop over the frame stack |
| TableCursorOps.TableCursor.AdvanceBackward | src/row/btree/mod.rs:527-563 | The backward loop over the frame stack |
| TableCursorOps.TableCursor.First | src/row/btree/mod.rs:163-173 | Restarts forwards from the root |
| TableCursorOps.TableCursor.Next | src/row/btree/mod.rs:189-192 | One move forwards |
| TableCursorOps.TableCursor.Last | src/row/btree/mod.rs:208-215 | Restarts backwards from the root |
| TableCursorOps.TableCursor.Prev | src/row/btree/mod.rs:239-248 | One move backwards, refused before any `last` |
| TableCursorOps.TableCursor.SearchLeaf | src/row/btree/mod.rs:314-349 | The binary-search loop of a leaf |
| TableCursorOps.TableCursor.SearchInterior | src/row/btree/mod.rs:350-387 | The binary-search loop of an interior page |
| TableCursorOps.TableCursor.SeekRow | src/row/btree/mod.rs:290-396 | The descent, and the current row it leaves |
| TableCursorOps.ScanAll | src/row/btree/mod.rs:163-265 | A whole scan with the cursor collects exactly the traversal, or exactly its reverse |
| IndexOrder.BytesOrder | src/row/btree/index.rs:495-516 | Byte comparison is a total order |
| IndexOrder.BytesCompare | src/row/btree/index.rs:510-511 | It is the lexicographic one: less if and only if, at the first place where they differ, the byte is smaller or the string has ended |
| IndexOrder.ValuesOrder | src/row/btree/index.rs:486-516 | Value comparison across storage classes is a total order |
| IndexOrder.ValuesCompare | src/row/btree/index.rs:486-516 | It is the one with NULL before integers before text before blobs, integers by size, text and blobs byte by byte |
| IndexOrder.KeysOrder | src/row/btree/index.rs:518-526 | Key comparison is antisymmetric, transitive, and equal only on equal keys |
| IndexOrder.KeysCompare | src/row/btree/index.rs:518-526 | A key is below another if and only if, at the first column where they differ, its value comes before or it has ended |
| IndexScan.MoveYields | src/row/btree/index.rs:278-393 | A move of the step-counting stack machine returns the first entry ahead and leaves exactly the others |
| IndexScan.ParkedYields | src/row/btree/index.rs:278-321 | The first move after a descent returns the first entry ahead without visiting a page |
| IndexScan.ScanIsTraversal | src/row/btree/index.rs:103-134 | first/next yields the in-order entries, interior ones included, and last/prev exactly their reverse |
| IndexSeek.LowerBound | src/row/btree/index.rs:197-222 | The first entry not below the target |
| IndexSeek.SearchFinds | src/row/btree/index.rs:197-222 | Binary search on a page finds the lower bound of its entries |
| IndexSeek.SeekDownFinds | src/row/btree/index.rs:161-195 | The descent leaves exactly the entries not below the target ahead of the cursor, and fails exactly when the way down is longer than the visit limit |
| IndexSeek.SeekIsLowerBound | src/row/btree/index.rs:161-222 | seek returns the first in-order entry not below the target on trees of any size, unless the way down alone is longer than the visit limit; within the limit next then yields exactly the rest |
| IndexCursorOps.IndexCursor.Push | src/row/btree/index.rs:224-276 | Visit limit, page read, header checks and the new frame, in either direction |
| IndexCursorOps.IndexCursor.DecodeEntry | src/row/btree/index.rs:414-468 | The payload of an entry, reassembled |
| IndexCursorOps.IndexCursor.AdvanceUp | src/row/btree/index.rs:278-321 | The ascending loop over the frame stack |
| IndexCursorOps.IndexCursor.AdvanceDown | src/row/btree/index.rs:352-393 | The descending loop over the frame stack |
| IndexCursorOps.IndexCursor.First | src/row/btree/index.rs:103-108 | Restarts ascending from the root |
| IndexCursorOps.IndexCursor.Last | src/row/btree/index.rs:123-128 | Restarts descending from the root |
| IndexCursorOps.IndexCursor.SearchPage | src/row/btree/index.rs:197-222 | The binary-search loop of a page, errors included |
| IndexCursorOps.IndexCursor.SeekEntry | src/row/btree/index.rs:161-195 | The descent loop and the first move after it |
| Varint.RoundTrip | src/row/record/varint.rs:14-26 | Every 64-bit value decodes back from its encoding, whatever follows it |
| Varint.EncodingMinimal | src/row/record/encode.rs:27-58 | No shorter run of bytes decodes to the same value |
| Varint.DecodeFits | src/row/record/varint.rs:14-26 | A decoded value fits 64 bits |
| Varint.DecodeLocal | src/row/record/varint.rs:14-26 | Decoding depends on the bytes it consumes only |
| Varint.DecodeVarint | src/row/record/varint.rs:14-26 | The accumulating loop |
| Varint.WriteVarint | src/row/record/encode.rs:27-58 | The encoding loop appends exactly the encoding |
| Values.IntRoundTrip | src/row/record/encode.rs:117-129 | A signed integer that fits comes back from its big-endian body |
| Record.HeaderLen | src/row/record/encode.rs:217-251 | The header length search ends at a length that counts its own varint |
| Record.HeaderLenLeast | src/row/record/encode.rs:236-241 | No shorter header length would count itself |
| Record.IntegerTypeIs | src/row/record/encode.rs:85-103 | 0 and 1 take no bytes, and every other integer the narrowest of the six widths that holds it |
| Record.ValueRoundTrip | src/row/record/decode.rs:309-390 | A value decodes from its body, anywhere in a buffer, as itself, or as NULL if it is a NaN |
| Record.RecordRoundTrip | src/row/record/decode.rs:13-55 | Decoding an encoded record is the identity if and only if no value is a NaN |
| Record.NaNReadsAsNull | src/row/record/decode.rs:309-390 | A one-column record that holds a NaN decodes to NULL |
| Record.NaNIs | src/row/record/decode.rs:309-390 | Which eight bytes are a NaN, by their number: the sign apart, those above infinity |
| Record.ColumnAgrees | src/row/record/decode.rs:113-130 | Decoding one column agrees with the whole record, NULL past its end |
| Record.LazyAgrees | src/row/record/decode.rs:113-255 | Whenever the whole record decodes, each of the four lazy decoders agrees with it at every column |
| Record.SingleIsColumn | src/row/record/decode.rs:223-255 | The single-column fast path agrees with the general one on every record whose header reads, bad bodies included |
| RecordOps.FindHeaderLen | src/row/record/encode.rs:234-240 | The search loop, and that the length it finds counts its own varint |
| RecordOps.EncodeRecordInto | src/row/record/encode.rs:217-251 | The loop appends header and bodies of the encoding |
| RecordOps.DecodeRecordLoop | src/row/record/decode.rs:13-55 | The two loops of the whole decoder, every error case included |
| RecordOps.ParseHeaderInto | src/row/record/decode.rs:74-108 | Serial types and body offsets in one walk |
| RecordOps.DecodeSingleColumn | src/row/record/decode.rs:223-255 | The walk that stops at the wanted column |
| RecordOps.DecodeRecordOnly | src/row/record/decode.rs:189-221 | Wanted columns in the order asked for |
| RecordOps.DecodeRecordUpto | src/row/record/decode.rs:158-187 | The leading columns |
| Locks.CallKeeps | src/row/vfs/lock.rs:121-178 | Every single byte-range call, granted or refused, keeps ranges matching levels and no two processes in conflict |
| Locks.RunsExclude | src/row/vfs/lock.rs:111-178 | Over every interleaving of single calls by any number of processes: at most one at Reserved or above, and an Exclusive holder excludes every other holder |
| Locks.RefusalIsReal | src/row/vfs/lock.rs:121-150 | A refused climb leaves the level it was at with exactly its ranges |
| Locks.ProbeIff | src/row/vfs/lock.rs:123-132 | A climb can start if and only if no other process is at Pending or above |
| Locks.SharedAfterProbeIff | src/row/vfs/lock.rs:130-134 | Past the probe the shared lock is granted if and only if no other process is Exclusive |
| Locks.PendingLetsProbedIn | src/row/vfs/lock.rs:130-134 | A reachable run in which a reader gets Shared while another process is at Pending |
| Locks.FileLockState.Lock | src/row/vfs/lock.rs:211-220 | Granted exactly when no other holder conflicts; a refusal changes nothing |
| Locks.FileLockState.StepUp | src/row/vfs/lock.rs:121-150 | Makes exactly the calls of one rung of the interleaving model, and climbs one level or none |
| Locks.FileLockState.StepDown | src/row/vfs/lock.rs:152-176 | Makes exactly the release call of the rung; only the downgrade from Exclusive can fail |
| Locks.FileLockState.SetLevel | src/row/vfs/lock.rs:111-119 | Succeeds exactly by reaching the target; otherwise rests at a real level between start and target |
| SchemaTree.BuildChildrenLoop | src/column/parquet/schema_tree.rs:86-90 | The loop with its moving index |
| SchemaTree.BuildsTree | src/column/parquet/schema_tree.rs:68-99 | Building from the flattened list gives back the tree and consumes exactly its elements, wherever it lies |
| SchemaTree.BuildsTrees | src/column/parquet/schema_tree.rs:68-99 | The same for a list of children |
| SchemaTree.SchemaLevels | src/column/parquet/schema_tree.rs:63-99 | The definition level of every node is the number of elements on its path, the root excepted, that are not required, and its repetition level the number of those that are repeated |
| Nested.BuildRepeatedLoop | src/column/parquet/nested.rs:258-291 | The row loop over repetition and definition levels |
| Nested.TakeRow | src/column/parquet/nested.rs:258-291 | One row: null, empty, or the run of its elements |
| Nested.CollectRun | src/column/parquet/nested.rs:258-291 | The elements up to the next row start |
| Dremel.Recuts | src/column/parquet/nested.rs:258-291 | The walk cuts leveled columns back into the rows they came from, null, empty and list of null kept apart |
| Dremel.ListRebuilds | src/column/parquet/nested.rs:215-252 | Two- and three-level lists come back |
| Dremel.MapRebuilds | src/column/parquet/nested.rs:164-213 | Maps come back, keys with their values |
| Dremel.FirstLevel | src/column/parquet/nested.rs:151-157 | The definition level of the first leaf tells in every row whether the struct is there |
| Dremel.StructRebuilds | src/column/parquet/nested.rs:85-149 | Structs come back, null structs included |
| Dremel.Reconstructs | src/column/parquet/nested.rs:85-149 | From any leaf data that holds the striped columns, every row comes back |
| Dremel.RoundTrip | src/column/parquet/nested.rs:85-149 | Striping any rows of a supported field and reconstructing returns the same rows |
| Dremel.RowGroupRoundTrip | src/column/parquet/nested.rs:69-83 | Striping rows of a whole schema and reconstructing returns the column of every top-level field |
| Dremel.SchemaRoundTrip | src/column/parquet/nested.rs:69-83 | From the pre-order schema list: the tree built from it reconstructs every top-level column of striped rows, with no condition on levels |
| Dremel.DottedSplits | src/column/parquet/schema_tree.rs:43-59 | A list of names without dots can be read back from its dotted key, so the two ways of filing columns agree |
| Dremel.DottedCollides | src/column/parquet/schema_tree.rs:43-59 | With a dot inside a name two columns share a key |
| Dremel.AnnotatedIsLeveled | src/column/parquet/schema_tree.rs:63-99 | The levels of every built tree are the ones reconstruction relies on |

## Left out

- PagerRuns.Open: states the outcome for files that hold a committed database; other files lead to the errors of `ReadWalPages` or of the page 1 read, which are modelled but not characterised.
- PagerOps.Pager.AllocatePage: requires that a file about to grow does not already have a page of the new number; there the code would leave a cached copy of that page beside the dirty one.
- PagerOps.Pager.EditPage: keeps the page count and the version bytes of page 1, which are the pager's own; `ReplacePage` takes any bytes.
- PagerRuns.Perform: edits are those of `EditPage`, and allocation and release those on a consistent freelist.
- PagerRuns.RunPager: the same, over runs.
- PagerOps.Pager.FlushToFile: has no crash points and no journal, because those steps are the subject of `JournalOps.FlushLocked` and `CrashRuns`.
- PagerOps.Pager.LeaveWalMode: is for a single connection, so no reader marks stand in the way; `Snapshots.LeaveWal` has arbitrary marks.
- PagerOps.Pager.ReadPage: does not model the reuse of an evicted page's buffer, which does not change what is read.
- PagerOps.Pager.SetJournalMode: does not model the transaction lock level, the second reason for a refusal.
- Cache.PageCache.Get: the tick is a natural number, so its wrap-around after 2^64 uses is not modelled; nor is any bound on the size of the heap.
- DropTree.FreeBtreePages: covers table b-trees; the drop of index b-trees frees overflow pages before it decodes their keys again, and is not modelled. The pager is passed as its working map rather than as an object.
- Overflow.WriteOverflowChain: takes the page numbers from the caller instead of calling the allocator.
- IndexOrder.KeysOrder: excludes reals, whose comparison with large integers goes through floating point and is not transitive.
- IndexOrder.ValuesOrder: the same, for values.
- IndexSeek.SeekIsLowerBound: the same, for keys with reals; past the visit limit only the first entry is characterised.
- IndexCursorOps.IndexCursor.SearchPage: a key that holds a real is an error here.
- IndexCursorOps.IndexCursor.SeekEntry: a key that holds a real is an error here.
- Record.RecordRoundTrip: text is its encoded bytes and is taken as valid, and reals are their eight bytes; UTF-8 and UTF-16 validity are not modelled. Lengths are kept within what 64-bit header arithmetic holds.
- Wal.ComputeChecksum: the native word order is taken as little-endian.
- WalOps.FlushWal: the recreation of a log that vanished under a connection is not modelled.
- JournalOps.FlushLocked: the journal sector size is the page size, as the writer always sets it.
- SchemaTree.BuildsTree: a schema list that ends too early gives nothing here, where the source stops with an index out of range.
- Nested.BuildRepeatedLoop: scalar values are integers, and entries that run out give nothing here, where the source stops with an index out of range.
- CrashRuns.HistoriesAreAtomic: commits are journaled ones with a safe salt, the ones `CommitAtomicIff` shows to be atomic; a commit that only appends pages leaves page 1 as it was, so the file no longer has the length its header says. A write caught by a power cut survives whole or not at all; writes torn inside are not modelled for the journal. The log theorem cuts at every byte.
- CrashRuns.OpenAlwaysSucceeds: the same histories.
- Dremel.RoundTrip: columns are filed under lists of names, which is the same as under dotted strings for names without dots (`DottedSplits`).
- Dremel.RowGroupRoundTrip: the same.
- Record.ValueRoundTrip: text is taken as valid, as in `RecordRoundTrip`.
- SchemaTree.BuildsTrees: the early end, as in `BuildsTree`.
- WAL commits at `synchronous` NORMAL or OFF, where frames may not reach the file by the commit.
- Several connections sharing one file through their own caches, the `-shm` index and its locks.
- I/O errors other than a power cut and a refused lock.
- Splitting, merging and rebalancing of table and index b-trees on insert and delete.
- The jump from Shared to Exclusive used by recovery, and `begin_immediate` and `begin_exclusive`.
- Thrift, footers, pages, column readers and compression of Parquet files.
- DDL text, value formatting, `sqlite_master` helpers and the integrity checks of anything but the freelist.
