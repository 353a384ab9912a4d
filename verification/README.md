# NexusDB storage engine, container gate and adaptation policy: a verified model

NexusDB keeps tables of variable-length records in one paged file. A resizable
LRU buffer pool sits on the file, a write-ahead log of full page images makes
page writes recoverable, slotted pages hold the records, heap tables list their
data pages in a chain of directory pages, and a catalog chain names the tables.
Around the engine, containers start their workload through a gated fork, and a
policy resizes the pool under memory pressure. This project models that code in
Dafny and proves what it promises over every run, crashes included.

How the parts fit together:

- **Two layers.** `CrashMachine` is a small crashable machine: data file, log
  file, bytes still in the log stream, page cache. Its theorems (`CrashSafety`,
  `NoRollback`, `CrashConsistency`) hold for every run with crashes anywhere.
  The classes (`PageStorage`, `Log`, `Pool`, `Space`, `Linked`, `Table`,
  `TableCatalog`, `Db`) are the code, statement by statement, and every method
  that moves the disk is proved to do so along a run of the machine
  (`Quietly()`, `Wrote`, `Grew`), so the machine's theorems hold of the code.
- **Structure.** Every page has a use. `Well` says that the file is well formed,
  `Precedes` when an image may be an older version of a page. Any mixture of
  older images of a well-formed file is well formed (`EarlierIsWell`), and every
  write the engine makes is a later image, so any flush order survives a crash.
- **The loop closes.** From the files of a database at rest `Database.Open`
  yields a running one. Every call on it (`Db.CreateTable`, `Db.Insert`,
  `Db.Update`, `Db.Delete`, `Db.Get`, `Db.Scan`, `Db.Resize`, `Db.Adapt`) keeps
  it running, `Db.Close` and every crash leave the files of a database at rest
  again, and `Restart` brings back the same tables with the same rows.
  `EngineRuns` says the same of whole runs in which writes, page allocations,
  flushes and crashes interleave step by step, and `Creation` covers how the
  first files come about and who may disturb them.
- **Failures.** An input or output error can strike any call and tear the page
  being written; contracts say what still holds then. Whether that can happen is
  an input: a storage or log is `reliable` if no call into the operating system
  fails. On a pool, `Slack()` is the room left in a reliable log after writing
  every dirty page back (negative while a call may fail), `Fuel()` the number of
  fetches that are sure to find a frame, and `Jammed()` says that handles pin as
  many frames as the pool may fill. Where these rule a failure out, contracts
  say exactly which calls succeed and what the others answer.
- **Calls that never return.** At a file size of exactly 2^32 - 3 pages the step
  counter of a chain walk can never exceed its bound, and a ring of three or more
  pages is walked forever. The model stops such a walk once it has provably come
  round and answers `NeverReturns`, an error no code returns; contracts say
  exactly when that is the answer.

`dafny verify dfyconfig.toml` checks the whole project.

## Model

| member | source | states |
|---|---|---|
| `Bytes.DecodeEncode` | src/db/wal/wal.cpp:37-75 | a value that fits n bytes is read back from its little-endian field |
| `Bytes.EncodeDecode` | src/db/wal/wal.cpp:37-75 | n bytes are what printing their value in n bytes gives |
| `Bytes.PutU16Reads` | src/db/record/slotted_page.cpp:34-43 | a 16-bit field reads back what was written and no field that does not overlap it changes |
| `Bytes.PutU32Reads` | src/db/catalog/catalog.cpp:47-59 | the same for 32-bit fields |
| `Crc32.UpdateLoop` | src/db/wal/wal.cpp:79-88 | the byte loop with its eight bit steps computes the register update, for every start value |
| `Crc32.UpdateInjective` | src/db/wal/wal.cpp:79-88 | two different registers stay different however many equal bytes are folded in |
| `Crc32.BurstInjective` | src/db/wal/wal.cpp:79-88 | from one register, two different bursts of up to four bytes never meet |
| `Crc32.ChecksumDetectsBurst` | src/db/wal/wal.cpp:79-95 | replacing up to four consecutive bytes anywhere in any data changes the checksum |
| `LogFormat.ReadPrinted` | src/db/wal/wal.cpp:115-187 | a printed record followed by anything reads back as that record |
| `LogFormat.ReadTorn` | src/db/wal/wal.cpp:115-187 | every proper non-empty prefix of a record reads as a truncated tail, never as damage |
| `LogFormat.CompleteIsPrinted` | src/db/wal/wal.cpp:115-187 | bytes that read as a complete record are the printed form of it if and only if the reserved field is zero |
| `LogFormat.ScanPrinted` | src/db/wal/wal.cpp:321-357 | any records with rising numbers followed by any strict prefix of one more scan to exactly the whole records, with the last number, truncated exactly when the prefix is not empty |
| `LogFormat.AppendBehindTorn` | src/db/wal/wal.cpp:202-240 | a record appended behind any torn tail: behind 1 to 7 and 14 to 23 torn bytes the log always reads as damaged, behind 8 to 13 unless bytes of the new sequence number spell the page size, behind 24 or more unless the checksum happens to fit the spliced bytes: why the database truncates before it appends |
| `LogFormat.BurstIsCorrupt` | src/db/wal/wal.cpp:129-179 | any change inside four consecutive bytes of the header, of the checksum or of the payload is reported as corruption |
| `LogFormat.ByteFlipIsCorrupt` | src/db/wal/wal.cpp:129-179 | changing any single byte of a complete record is reported as corruption |
| `CrashMachine.LogReads` | src/db/wal/wal.cpp:252-308 | whatever part of the stream has reached the file, the file scans cleanly and yields exactly the records that landed whole |
| `CrashMachine.ReplayedSnoc` | src/db/wal/wal.cpp:359-412 | replaying one more record writes exactly one more page |
| `CrashMachine.ReplayedCovered` | src/db/wal/wal.cpp:359-412 | what is stored for a page the log covers does not matter to recovery |
| `CrashSafety.StepSound` | src/db/buffer/buffer_pool.cpp:261-282 | every step of the engine, failures, torn writes and crashes included, keeps the recovery invariant and moves what is read and what is recoverable only as a two-level store would |
| `CrashSafety.InitInv` | src/db/database/database.cpp:253-268 | a new file with an empty log satisfies the invariant |
| `CrashSafety.RunSound` | src/db/database/database.cpp:274-283 | the invariant holds after every run with any number of crashes, also in the middle of a replay |
| `CrashSafety.CheckpointSafe` | src/db/database/database.cpp:279-283 | whenever the log is truncated, the data file alone already equals the log replayed over it, and equals what clients read |
| `CrashSafety.StartRecovers` | src/db/wal/wal.cpp:359-412 | from every crashed state an undisturbed start is never refused and comes up on exactly the recoverable pages with an empty log |
| `CrashSafety.SteadyRun` | src/db/buffer/buffer_pool.cpp:261-282 | flushes in any order, evictions, crashes and restarts produce no page image that was not already logical, durable or in flight |
| `CrashSafety.QuietMeaning` | src/db/buffer/buffer_pool.cpp:94-127 | steps without a write through a handle keep the invariant and every logical page |
| `NoRollback.StepNeverRollsBack` | src/db/wal/wal.cpp:310-319 | over every step the recoverable image of each page is one it was really given, and its number in the page's history never goes down |
| `NoRollback.InitialLabels` | src/db/wal/wal.cpp:310-319 | at the start every page's stored image is the first of its history, both current and durable |
| `NoRollback.RunNeverRollsBack` | src/db/wal/wal.cpp:359-412 | over every run with crashes anywhere, recovery yields for each page the image that was durable before or one given to the page later |
| `NoRollback.FlushLands` | src/db/wal/wal.cpp:298-319 | once the log flush of a page succeeds, the newest image of that page is the durable one |
| `SlottedPageFacts.InsertMeaning` | src/db/record/slotted_page.cpp:155-206 | an insert appends one slot with the bytes, keeps every other slot byte for byte and keeps live records disjoint |
| `SlottedPageFacts.DeleteMeaning` | src/db/record/slotted_page.cpp:300-323 | a delete empties its slot and nothing else |
| `SlottedPageFacts.UpdateInPlace` | src/db/record/slotted_page.cpp:244-298 | an update that does not grow changes its slot only, on every valid page where the slot overlaps no other |
| `SlottedPageFacts.ConfinedExactly` | src/db/record/slotted_page.cpp:64-112 | an in-place update is confined to its slot if and only if the slot shares no byte with another live one |
| `SlottedPageFacts.OverlapIsAdmitted` | src/db/record/slotted_page.cpp:64-112 | validation cannot see an overlap: a live slot pointed at another record at least as long leaves a page that validates and on which an in-place update is not confined |
| `SlottedPageFacts.OverlapExists` | src/db/record/slotted_page.cpp:64-112 | such a page, made from two inserts |
| `SlottedPageFacts.UpdateMoved` | src/db/record/slotted_page.cpp:244-298 | a growing update moves the record, keeps its slot id and changes no other slot |
| `SlottedPageFacts.CompactMeaning` | src/db/record/slotted_page.cpp:325-385 | on every page that validates, even with overlaps, a successful compaction keeps every record and tombstone and makes the records disjoint |
| `SlottedPageFacts.LiveFits` | src/db/record/slotted_page.cpp:325-385 | on pages without overlaps compaction never fails |
| `SlottedPageFacts.CompactView` | src/db/record/slotted_page.cpp:325-385 | there it leaves exactly the page size minus the directory minus the live bytes free |
| `SlottedPageFacts.OpRefines` | src/db/record/slotted_page.cpp:155-385 | each operation, failures included, is the operation on a plain list of records with stable slot ids |
| `SlottedPageFacts.RunRefines` | src/db/record/slotted_page.cpp:155-385 | so is every run of operations |
| `SlottedPageFacts.RunFromEmpty` | src/db/record/slotted_page.cpp:45-62 | after every run from an empty page live records are pairwise disjoint in the record region and the directory does not meet it |
| `SlottedPageFacts.SlotsAreStable` | src/db/record/slotted_page.cpp:155-206 | no run removes a slot, and a slot no operation names keeps its bytes |
| `SlottedPageFacts.DeletedStaysDeleted` | src/db/record/slotted_page.cpp:300-323 | a deleted slot is never handed out or filled again |
| `SlottedPageBuffer.Init` | src/db/record/slotted_page.cpp:45-62 | the buffer becomes the empty page, whatever it held |
| `SlottedPageBuffer.ReadU16` | src/db/record/slotted_page.cpp:34-38 | the two bytes at an offset are the field's value |
| `SlottedPageBuffer.WriteU16` | src/db/record/slotted_page.cpp:40-43 | writes the field and no other byte |
| `SlottedPageBuffer.CopyInto` | src/db/record/slotted_page.cpp:155-206 | a copied record overwrites exactly its own range |
| `SlottedPageBuffer.Validate` | src/db/record/slotted_page.cpp:64-119 | the validation loop accepts exactly the valid pages |
| `SlottedPageBuffer.Insert` | src/db/record/slotted_page.cpp:155-206 | in-place insertion computes the specified status and bytes; a failure changes no byte |
| `SlottedPageBuffer.Read` | src/db/record/slotted_page.cpp:208-242 | returns the slot's record, or the specified error |
| `SlottedPageBuffer.Update` | src/db/record/slotted_page.cpp:244-298 | in-place and relocating update compute the specified bytes; a failure changes no byte |
| `SlottedPageBuffer.Delete` | src/db/record/slotted_page.cpp:300-323 | the tombstone is the specified one; a failure changes no byte |
| `SlottedPageBuffer.CountLive` | src/db/record/slotted_page.cpp:325-350 | the pre-pass counts the live bytes, and fails only if they exceed a page |
| `SlottedPageBuffer.Pack` | src/db/record/slotted_page.cpp:351-385 | the packing loop stages every live record back to back and points the directory at the new places |
| `SlottedPageBuffer.Compact` | src/db/record/slotted_page.cpp:325-385 | the two loops over directory and scratch buffer compute the specified page; a failure changes no byte |
| `SlottedPageBuffer.Scan` | src/db/record/slotted_page.cpp:387-415 | the visitor sees the live records in slot order up to and including the one it stops at |
| `RecencyList.ShrinkEvictsOldest` | src/db/buffer/buffer_pool.cpp:135-216 | evicting n pages takes only unpinned pages, each older than every unpinned page that stays |
| `RecencyList.ResidentsAreNewest` | src/db/buffer/buffer_pool.cpp:94-127 | with nothing pinned, the list holds exactly the capacity-many most recently used distinct pages, for every trace |
| `RecencyList.LargerPoolIncludesSmaller` | src/db/buffer/buffer_pool.cpp:94-127 | a larger list always contains the smaller one's pages |
| `PoolState.OldestIsVictim` | src/db/buffer/buffer_pool.cpp:106-112 | the unpinned frame with the smallest stamp holds the first unpinned page of the recency list |
| `PoolState.RestampKeepsAll` | src/db/buffer/buffer_pool.cpp:74-92 | renumbering the stamps keeps the recency list, the cached pages and every other part of the pool's state |
| `PoolState.PinMoved` | src/db/buffer/buffer_pool.cpp:360-377 | handing a pin from one handle to another keeps every pin count equal to the number of handles |
| `Storage.PageStorage.ReadPage` | src/db/storage/page_storage.cpp:97-137 | returns the stored page; not found exactly beyond the end of the file when no call can fail |
| `Storage.PageStorage.WritePage` | src/db/storage/page_storage.cpp:139-177 | replaces one allocated page; a failure can tear that page and no other |
| `Storage.PageStorage.AllocatePage` | src/db/storage/page_storage.cpp:179-211 | the new id is the old page count, the new page is zero, no id is used twice |
| `Storage.PageStorage.NumPages` | src/db/storage/page_storage.cpp:213-230 | the page count, or an error |
| `Storage.PageStorage.Close` | src/db/storage/page_storage.cpp:251-259 | closes and keeps every page |
| `Storage.PageStorage.PageExists` | src/db/storage/page_storage.cpp:232-238 | true only for a page of the file; exact when no call can fail |
| `Wal.Log.constructor` | src/db/wal/wal.cpp:202-240 | opening keeps the file and continues behind its last complete record |
| `Wal.Log.AppendPageImage` | src/db/wal/wal.cpp:252-296 | for any log, one with a torn tail included: success puts exactly the printed record behind the stream; a failure leaves the log alone or a cut record and a failed stream; with room left and no call that can fail it succeeds |
| `Wal.Log.Flush` | src/db/wal/wal.cpp:298-308 | success makes every appended record durable; a failure lets some first bytes through and no others |
| `Wal.Log.ScanFile` | src/db/wal/wal.cpp:321-357 | the read loop computes the scan of the file: the records, the truncation flag, or a refusal exactly of a damaged log when no call can fail |
| `Wal.Log.Recover` | src/db/wal/wal.cpp:359-412 | success leaves the replay of every complete record over storage; a failure leaves a replay of some first records with at most the next page torn; when no call can fail it succeeds if and only if the log reads whole and names only pages of the file |
| `Wal.Log.Reset` | src/db/wal/wal.cpp:414-428 | success empties the log; a failure leaves it as it was, flushed as far as it got, or empty; an open log is always emptied when no call can fail |
| `Wal.Log.Close` | src/db/wal/wal.cpp:242-250 | success leaves everything appended in the file |
| `BufferPool.Pool.constructor` | src/db/buffer/buffer_pool.cpp:30-56 | a new pool shows the file as it is and holds nothing; it is sound without a log and with every settled log whose replay would change nothing |
| `BufferPool.Pool.FindFrame` | src/db/buffer/buffer_pool.cpp:58-65 | the frame that holds the page, or none |
| `BufferPool.Pool.Size` | src/db/buffer/buffer_pool.cpp:313-321 | the number of residents |
| `BufferPool.ResidentsByAge` | src/db/buffer/buffer_pool.cpp:74-87 | lists exactly the residents, least recently used first |
| `BufferPool.Pool.RenumberClock` | src/db/buffer/buffer_pool.cpp:74-92 | the residents get the stamps 1..n in the same order of use and the clock becomes n; nothing else changes |
| `BufferPool.Pool.NextTimestamp` | src/db/buffer/buffer_pool.cpp:67-72 | the stamp is later than every stamp in use, renumbering at the 64-bit maximum included |
| `BufferPool.Pool.FindVictim` | src/db/buffer/buffer_pool.cpp:106-117 | finds the oldest unpinned frame, and none if and only if every unpinned frame carries the largest stamp |
| `BufferPool.Pool.AcquireFrame` | src/db/buffer/buffer_pool.cpp:94-127 | a free frame below capacity, else the recency list's victim, written back; a failure changes no frame; full if and only if nothing can be evicted |
| `BufferPool.Pool.FreeFrame` | src/db/buffer/buffer_pool.cpp:94-105 | a free frame whenever there is one |
| `BufferPool.Pool.PinResident` | src/db/buffer/buffer_pool.cpp:230-236 | a hit adds one pin and makes the page the most recent; no page moves |
| `BufferPool.Pool.Install` | src/db/buffer/buffer_pool.cpp:251-258 | a miss puts the page into the acquired frame with one pin as the most recent, in place of the victim |
| `BufferPool.Pool.Fetch` | src/db/buffer/buffer_pool.cpp:218-259 | logical pages stay; success pins the page and moves the recency list exactly as specified; a failure changes no frame, pin, stamp or list; when no call can fail the status is exactly the invalid id, the missing page, the full pool or success |
| `BufferPool.Pool.Miss` | src/db/buffer/buffer_pool.cpp:238-259 | a page that is not resident is read into a free frame or the victim's; full if and only if nothing can be evicted; a failure changes nothing |
| `BufferPool.Pool.SureFetches` | src/db/buffer/buffer_pool.cpp:94-117 | while the pool may not fail, every page can be fetched as long as there is fuel, and exactly the resident ones once handles pin every frame |
| `BufferPool.Pool.LogFrame` | src/db/wal/wal.cpp:310-319 | the page image is durable in the log before the page may be written |
| `BufferPool.Pool.StoreFrame` | src/db/buffer/buffer_pool.cpp:276-281 | writes the page whose image is in the log; torn or not, recovery yields the same pages |
| `BufferPool.Pool.FlushFrame` | src/db/buffer/buffer_pool.cpp:261-282 | writes one dirty page back behind the log along a run of the crash machine; a failure keeps it dirty; logical pages stay |
| `BufferPool.Pool.FlushPage` | src/db/buffer/buffer_pool.cpp:284-294 | a resident page is clean afterwards; not found if and only if it is not resident |
| `BufferPool.Pool.FlushAll` | src/db/buffer/buffer_pool.cpp:296-311 | exactly the dirty frames are tried, whatever happened to earlier ones; a frame stays dirty if and only if its write failed; the first failure is reported; there is none when no call can fail |
| `BufferPool.Pool.TrimFreeFrames` | src/db/buffer/buffer_pool.cpp:129-133 | drops free frames from the end only, never below the capacity, until the last one is in use |
| `BufferPool.Pool.Resize` | src/db/buffer/buffer_pool.cpp:135-216 | logical pages stay and every handle keeps its frame and page; success gives exactly the recency list after evicting the excess; a refusal or failure keeps capacity, residents, pins, stamps and list; when no call can fail only zero, too many frames and too many pins are refused |
| `BufferPool.Pool.Grow` | src/db/buffer/buffer_pool.cpp:147-156 | more frames; residents, pins, dirty marks and recency untouched |
| `BufferPool.Pool.ShrinkTo` | src/db/buffer/buffer_pool.cpp:158-208 | the shrink half of resize; refused if and only if more pages are pinned than the new capacity |
| `BufferPool.Pool.Commit` | src/db/buffer/buffer_pool.cpp:206-208 | the capacity drops and free frames are trimmed once few enough pages are left; no page moves |
| `BufferPool.Pool.Candidates` | src/db/buffer/buffer_pool.cpp:165-189 | lists exactly the unpinned residents, least recently used first |
| `BufferPool.Pool.FlushVictims` | src/db/buffer/buffer_pool.cpp:191-200 | success leaves every victim clean; no frame but the victims changes |
| `BufferPool.Pool.FreeVictims` | src/db/buffer/buffer_pool.cpp:202-205 | gives up exactly the first n candidates, which are the n oldest unpinned pages of the recency list |
| `BufferPool.Pool.EvictOldest` | src/db/buffer/buffer_pool.cpp:158-205 | evicts exactly the needed oldest unpinned pages, all written back first; refused if and only if too many are pinned, and then nothing changes |
| `BufferPool.Pool.Release` | src/db/buffer/buffer_pool.cpp:395-403 | takes back exactly the handle's pin; an empty handle is reported |
| `BufferPool.Pool.UnpinFrame` | src/db/buffer/buffer_pool.cpp:342-352 | takes one pin off a frame that has one |
| `BufferPool.Pool.MoveHandle` | src/db/buffer/buffer_pool.cpp:360-377 | the target gives up its pin and takes over the source's; pin counts equal handles throughout; self-assignment changes nothing |
| `BufferPool.Pool.Write` | src/db/buffer/buffer_pool.cpp:379-393 | the one step that changes a logical page: its bytes and its dirty mark together |
| `BufferPool.Pool.NewPage` | src/db/record/heap_table.cpp:262-277 | a page is added with its first image; a failure adds none, or one that nothing refers to |
| `BufferPool.FullMeansPinned` | src/db/buffer/buffer_pool.cpp:106-117 | below the 64-bit maximum of the clock nothing can be evicted if and only if every resident is pinned |
| `BufferPool.OnlyTheNewestIsSpared` | src/db/buffer/buffer_pool.cpp:106-117 | at the maximum the single exception is the page used last |
| `BufferPool.SparedPage` | src/db/buffer/buffer_pool.cpp:106-117 | a pool where that exception occurs: one unpinned page with the largest stamp is never chosen |
| `BufferPool.FetchTrace` | src/db/buffer/buffer_pool.cpp:218-259 | fetching any trace and releasing each page at once leaves exactly the most recently fetched distinct pages resident; with fuel for the trace and no call that can fail it succeeds if and only if every page is in the file |
| `Chain.AppendedMeaning` | src/db/record/heap_table.cpp:279-297 | writing an entry behind the last one lists exactly one more entry and keeps the link |
| `Chain.LinkedMeaning` | src/db/record/heap_table.cpp:299-320 | setting the link keeps every entry |
| `Chain.EmptyPageMeaning` | src/db/record/heap_table.cpp:57-69 | a new linked page validates, lists nothing and links to nothing |
| `Chain.ChainUnique` | src/db/record/heap_table.cpp:185-251 | for arbitrary page bytes at most one terminated chain leaves a page |
| `Chain.ChainAcyclic` | src/db/record/heap_table.cpp:185-251 | a terminated chain visits no page twice |
| `Chain.BoundNeverTrips` | src/db/record/heap_table.cpp:193-209 | below 2^32 - 2 pages the walk bound refuses no chain, by the pigeonhole principle |
| `Chain.BoundExactly` | src/db/record/heap_table.cpp:198-198 | a terminated chain passes the walk bound if and only if the file has less than 2^32 - 2 pages or the chain is no longer than what the wrapped bound, 0 or 1, allows |
| `Walk.StandNext` | src/db/record/heap_table.cpp:203-249 | one step of a walk over arbitrary pages: a page that passes its checks ends an acceptable chain, or the walk goes on behind it, or the page is linked to itself or back |
| `Walk.OnGoodChain` | src/db/record/heap_table.cpp:203-249 | if there is an acceptable chain, the walk is on it and every page it meets passes, so the walk never refuses it |
| `Walk.CountedStep` | src/db/record/heap_table.cpp:203-209 | the wrapped 32-bit counter stops a walk exactly when it has outlived the bound |
| `Walk.GuardCanTrip` | src/db/record/heap_table.cpp:193-209 | the counter can exceed the bound at all if and only if the file has not exactly 2^32 - 3 pages |
| `Walk.EndlessForever` | src/db/record/heap_table.cpp:203-249 | a walk that has come round twice passes every check for any number of further steps |
| `Walk.OnEndless` | src/db/record/heap_table.cpp:203-249 | where such a walk stands, every page passes and none ends the chain |
| `Walk.RingGoesRound` | src/db/record/heap_table.cpp:203-249 | at every size a ring of pages that list nothing passes every check and is no chain, so nothing but the counter stops a walk round it |
| `Walk.RingIsEndless` | src/db/record/heap_table.cpp:203-249 | at that size a ring of three empty pages, directory or catalog, is walked forever |
| `Structure.CatalogEntryReads` | src/db/catalog/catalog.cpp:110-132 | a printed catalog entry reads back as its name and root |
| `Structure.EarlierIsWell` | src/db/record/heap_table.cpp:279-335 | any mixture of earlier images of a well-formed file, one per page, is well formed |
| `Structure.WellTableOpens` | src/db/record/heap_table.cpp:185-251 | every table of a well-formed file opens and its links strictly increase |
| `Structure.WellCatalogOpens` | src/db/catalog/catalog.cpp:206-290 | the catalog of a well-formed file opens, every table it names opens, links strictly increase |
| `Structure.TableData` | src/db/record/heap_table.cpp:211-232 | what a table of a well-formed file lists are sound data pages, all different |
| `Structure.AppendKeeps` | src/db/record/heap_table.cpp:279-297 | listing one more admissible entry keeps the file well formed and the old image an earlier one |
| `Structure.LinkKeeps` | src/db/record/heap_table.cpp:299-320 | linking a new page behind the last one does the same |
| `CrashConsistency.CrashConsistent` | src/db/catalog/catalog.cpp:341-356 | whichever dirty pages were flushed before any crashes, the recovered catalog opens, every table opens, data pages are sound and links strictly increase; allocations in between are covered by the runs of the engine below |
| `CrashConsistency.SteadyKeepsDiscipline` | src/db/buffer/buffer_pool.cpp:261-282 | flushes, evictions, crashes and restarts keep every recoverable image an earlier one of what clients read |
| `CrashConsistency.PristineMeans` | src/db/database/database.cpp:107-119 | a page nobody wrote since the log was emptied, as the header, is on disk as it is read |
| `PageSpace.Space.Store` | src/db/record/heap_table.cpp:279-335 | a later image written through a pin keeps the file well formed and crash consistent and changes that page only |
| `PageSpace.Space.Add` | src/db/record/heap_table.cpp:262-277 | so does adding a page; a failed addition leaves at most an unused one |
| `TableRows.InsertRow` | src/db/record/heap_table.cpp:337-353 | a page insert adds exactly one row under an id never issued before |
| `TableRows.ChangeRow` | src/db/record/heap_table.cpp:445-487 | a page update or delete changes exactly one row and issues no id |
| `TableRows.RowsExactlyOnce` | src/db/record/heap_table.cpp:489-515 | a full scan meets every live record exactly once and nothing else |
| `Directory.Load` | src/db/record/heap_table.cpp:185-251 | for arbitrary page bytes: success returns the one terminated chain and everything it lists; when no call can fail and there is fuel for the walk it succeeds if and only if there is an acceptable chain, and never returns if and only if it walks in circles at the one size without a guard |
| `Directory.Visit` | src/db/record/heap_table.cpp:210-236 | one page of the walk: its header and ids are accepted exactly when they pass, and its link is returned |
| `Directory.ReadIds` | src/db/record/heap_table.cpp:219-232 | accepts a page's ids if and only if each is an existing page other than the root, when no call can fail |
| `PageSpace.Space.Pin` | src/db/buffer/buffer_pool.cpp:218-259 | pins and reads a page of a well-formed file and keeps it well formed; when no call can fail it fails exactly for a page that a full pool does not hold |
| `PageSpace.Space.Drop` | src/db/buffer/buffer_pool.cpp:395-403 | gives the pin back |
| `LinkedPages.Linked.Append` | src/db/record/heap_table.cpp:279-335 | memory equals the on-page chain before and after; success lists exactly one more entry, a failure none; with room, fuel and no call that can fail it succeeds |
| `LinkedPages.Linked.ExtendChain` | src/db/record/heap_table.cpp:299-322 | a new page is initialised on disk before the last page links to it; with room, fuel and no call that can fail it succeeds |
| `LinkedPages.Linked.ListInLast` | src/db/record/heap_table.cpp:279-297 | the last page lists one more entry, in memory and on the page, or nothing changes; it fails only if the page cannot be fetched |
| `LinkedPages.Linked.LinkBehind` | src/db/record/heap_table.cpp:312-322 | the new page becomes the end of the chain, in memory and on the page, or nothing changes; it fails only if the page cannot be fetched |
| `HeapTable.Table.TryInsertIntoPage` | src/db/record/heap_table.cpp:337-353 | inserts into one page and leaks no pin; when no call can fail the status is the page's, or full if the full pool does not hold the page |
| `HeapTable.Table.TryListed` | src/db/record/heap_table.cpp:337-353 | on a listed page it adds exactly one row, or says exactly why not |
| `HeapTable.Table.TryOthers` | src/db/record/heap_table.cpp:383-395 | tries the listed pages in order: the record goes to the first that can be had and has room |
| `HeapTable.Table.AllocateDataPage` | src/db/record/heap_table.cpp:262-277 | adds an empty data page that nothing lists; no row changes |
| `HeapTable.Table.AppendDataPageId` | src/db/record/heap_table.cpp:279-335 | the in-memory list and the directory gain the id together or not at all |
| `HeapTable.Table.InsertExisting` | src/db/record/heap_table.cpp:373-395 | uses the last page if it has room, else the first listed one that has; when no call can fail it is refused exactly if no listed page that can be had has room |
| `HeapTable.Table.InsertFresh` | src/db/record/heap_table.cpp:397-414 | the record is on the new page before the page is listed; a failure at any point changes no row; when no call can fail it succeeds unless handles pin every frame, and then leaves a page nothing lists |
| `HeapTable.Table.Insert` | src/db/record/heap_table.cpp:355-415 | adds one row under an id never issued; a failure changes no row; when nothing hinders it, a record of legal size goes to the first page with room and to a new page if none has, and it is refused, with the file grown by a page nothing lists, if and only if handles pin every frame and no resident page has room |
| `HeapTable.RefusedInsertGrows` | src/db/record/heap_table.cpp:337-414 | an input at which the documented failure contract does not hold: with the only frame pinned every record is refused as by a full pool, and the file has grown |
| `HeapTable.Table.IsDataPage` | src/db/record/heap_table.cpp:253-260 | answers exactly whether the table lists the page |
| `HeapTable.Table.Get` | src/db/record/heap_table.cpp:417-443 | returns the row; when no call can fail the error says exactly whether the id is malformed, unknown or deleted, or its page cannot be had in a full pool |
| `HeapTable.Table.Update` | src/db/record/heap_table.cpp:445-469 | changes exactly the one row; a failure changes nothing; when no call can fail it is refused exactly for a bad size, a missing row, a page without room for growth or one a full pool does not hold |
| `HeapTable.Table.Delete` | src/db/record/heap_table.cpp:471-487 | removes exactly the one row and never reissues its id; a failure changes nothing; when no call can fail it is refused exactly for a missing row or a page a full pool does not hold |
| `HeapTable.Table.ChangeRecord` | src/db/record/heap_table.cpp:445-487 | what update and delete share: one row changes or nothing does |
| `HeapTable.Table.Scan` | src/db/record/heap_table.cpp:489-515 | the visitor sees the rows in directory-then-slot order up to and including the one it stops at; with fuel and no call that can fail it always ends well |
| `HeapTable.Open` | src/db/record/heap_table.cpp:168-183 | for arbitrary page bytes: success yields a table whose directory is the on-page chain; with fuel and no call that can fail it opens if and only if there is an acceptable one, as there is at every directory page of a well-formed file below 2^32 - 2 pages |
| `HeapTable.Create` | src/db/record/heap_table.cpp:137-166 | yields an empty table on a new page; a failure leaves at most a page nothing refers to; with fuel and no call that can fail it succeeds below 2^32 - 3 pages |
| `HeapTable.ChainsApart` | src/db/record/heap_table.cpp:279-335 | two tables of the catalog share no directory page |
| `HeapTable.OtherTableKept` | src/db/record/heap_table.cpp:355-415 | an operation on one table leaves every row and the directory of every other one |
| `Catalog.IsValidTableName` | src/db/catalog/catalog.cpp:146-158 | accepts exactly 1 to 31 letters, digits and underscores |
| `Catalog.HasName` | src/db/catalog/catalog.cpp:292-299 | answers exactly whether a table has the name |
| `Catalog.LoadChain` | src/db/catalog/catalog.cpp:206-272 | the walk: the one terminated chain and its entries; with fuel and no call that can fail it succeeds if and only if there is an acceptable chain, and never returns if and only if it walks in circles at the one size without a guard |
| `Catalog.Visit` | src/db/catalog/catalog.cpp:230-268 | one page of the walk: its header and entries are accepted exactly when they pass, and its link is returned |
| `Catalog.CheckTables` | src/db/catalog/catalog.cpp:274-286 | with fuel and no call that can fail it accepts if and only if every named table opens |
| `Catalog.ReadEntries` | src/db/catalog/catalog.cpp:242-260 | accepts a page's entries if and only if names are terminated, valid and new along the whole chain and roots are page ids |
| `Catalog.Load` | src/db/catalog/catalog.cpp:206-290 | for arbitrary page bytes: success returns the one terminated chain with different names whose tables all open; with fuel and no call that can fail it succeeds if and only if every check holds |
| `Catalog.CostBound` | src/db/catalog/catalog.cpp:206-290 | a pool of two frames always has fuel for opening a catalog, however large the file |
| `Catalog.OpensExactly` | src/db/catalog/catalog.cpp:274-286 | a well-named chain opens if and only if every table it names opens |
| `Catalog.TableCatalog.NamesUnique` | src/db/catalog/catalog.cpp:329-357 | in every reachable catalog no two tables share a name and every root is a directory page |
| `Catalog.TableCatalog.FindTable` | src/db/catalog/catalog.cpp:301-314 | finds a listed name, and reports not found only if it is not listed |
| `Catalog.TableCatalog.OpenTable` | src/db/catalog/catalog.cpp:316-327 | opens the table of that name; below 2^32 - 2 pages, with fuel and no call that can fail, exactly a missing name is refused |
| `Catalog.TableCatalog.CreateTable` | src/db/catalog/catalog.cpp:329-427 | adds exactly one name with a new empty table, root page before entry; pages keep their use and only catalog pages change; a failure keeps every entry; with fuel and no call that can fail it refuses exactly invalid and taken names |
| `Catalog.Open` | src/db/catalog/catalog.cpp:189-204 | for arbitrary page bytes: with fuel and no call that can fail it opens if and only if every check holds, as at the catalog page of every well-formed file below 2^32 - 2 pages |
| `Catalog.PrunedIsWell` | src/db/catalog/catalog.cpp:371-427 | catalog pages a crash cut off from the chain can be given up at restart without touching the file |
| `Executor.OpenTable` | src/db/query/query_executor.cpp:65-75 | opens the table of a listed name; a name not listed is not found; nothing else is refused when calm |
| `Executor.CreateTable` | src/db/query/query_executor.cpp:61-63 | a new name gets a table without rows; every other table keeps its rows, header pages and page uses stay; when calm exactly the valid names not taken succeed |
| `Executor.Insert` | src/db/query/query_executor.cpp:65-86 | the named table gains exactly one row, every other table keeps its rows, header pages and page uses stay, the catalog stays valid; when calm it succeeds if and only if the name is listed and the size legal |
| `Executor.Get` | src/db/query/query_executor.cpp:88-97 | returns the row of the named table; when calm the status is exactly that of the row |
| `Executor.Update` | src/db/query/query_executor.cpp:99-107 | changes exactly the one row of the named table and no other table; when calm the status is exactly that of the row and its page |
| `Executor.Delete` | src/db/query/query_executor.cpp:109-116 | removes exactly the one row of the named table and touches no other table; when calm the status is exactly that of the row |
| `Executor.Scan` | src/db/query/query_executor.cpp:118-125 | the visitor sees exactly the rows of the named table in order, up to where it stops |
| `Executor.TablesStay` | src/db/catalog/catalog.cpp:341-356 | writing catalog pages and adding pages changes no row of any table |
| `DatabaseState.HeaderReads` | src/db/database/database.cpp:81-119 | a written header names its catalog root |
| `DatabaseState.ComesToRest` | src/db/database/database.cpp:306-332 | however a running database or one at rest stops, its files are those of a database at rest |
| `DatabaseState.RestOpens` | src/db/database/database.cpp:253-304 | the files of a database at rest have a readable log, an intact header and a catalog that opens with all its tables |
| `DatabaseState.SettledRecovers` | src/db/database/database.cpp:274-283 | a database nobody wrote to recovers to itself, whatever happens |
| `EngineRuns.StepKeeps` | src/db/record/heap_table.cpp:262-335 | every step of the engine, a write as tables and catalog make it, an allocation, a first image, a flush, a crash, keeps a database a database |
| `EngineRuns.RunKeeps` | src/db/database/database.cpp:253-332 | so does every run of such steps, with stops and starts anywhere |
| `EngineRuns.EveryStopIsSafe` | src/db/database/database.cpp:253-332 | from a database at rest, after every run, a stop with any part of the log stream on disk leaves a database at rest whose catalog opens below 2^32 - 2 pages |
| `EngineRuns.InterruptedAllocation` | src/db/record/heap_table.cpp:264-271 | a crash between allocating a page and writing its first image adds one unused page to what would be recovered and changes nothing else |
| `Database.InterruptedRun` | src/db/wal/wal.cpp:359-412 | wherever a replay stops, even inside a page write, the files recover to the same pages |
| `Database.Recover` | src/db/database/database.cpp:274-283 | for any two files: replay then truncation brings storage to exactly the replayed pages, and when no call can fail it succeeds if and only if the log is readable and names only pages of the file; between the files of a database a failure loses nothing and can be repeated |
| `Database.ReadHeader` | src/db/database/database.cpp:81-105 | returns the root of a valid header; when no call can fail it is refused exactly if there is none |
| `Database.Open` | src/db/database/database.cpp:214-304 | for any two files: comes up on exactly what they recover to; when no call can fail and the pool has a frame to spare it opens if and only if log, header and catalog pass their checks; the files of a database stay that database whatever happens, and open below 2^32 - 2 pages |
| `Database.Attach` | src/db/database/database.cpp:285-304 | with a frame to spare and no call that can fail it serves the recovered pages if and only if their catalog opens; giving up leaves a database at rest |
| `Database.Raise` | src/db/database/database.cpp:291-304 | opens the catalog over the mounted pool; a success serves the same pages, a failure gives up a database at rest |
| `Database.Mount` | src/db/database/database.cpp:285-290 | a pool over any file shows exactly that file and has fuel for its catalog; over a complete file it is crash consistent from the start |
| `Database.Db.CreateTable` | src/db/query/query_executor.cpp:61-63 | keeps the database running with an intact header; the new table is empty and every other one keeps its rows |
| `Database.Db.Insert` | src/db/query/query_executor.cpp:77-86 | keeps the database running; the named table gains exactly one row, every other keeps its rows |
| `Database.Db.Get` | src/db/query/query_executor.cpp:88-97 | keeps the database and its pages; returns exactly the row, or when calm exactly its status |
| `Database.Db.Update` | src/db/query/query_executor.cpp:99-107 | keeps the database running; exactly the one row changes |
| `Database.Db.Delete` | src/db/query/query_executor.cpp:109-116 | keeps the database running; exactly the one row goes |
| `Database.Db.Scan` | src/db/query/query_executor.cpp:118-125 | keeps the database and its pages; visits exactly the rows of the table in order |
| `Database.Db.Resize` | src/db/buffer/buffer_pool.cpp:135-216 | keeps the database and its pages under every resize, refused or not |
| `Database.Db.Adapt` | src/bridge/adaptation_policy.c:178-209 | one turn of the policy loop keeps the database and its pages, whatever becomes of the request |
| `Database.Db.Close` | src/db/database/database.cpp:306-332 | for every database, written to or not: success leaves every logical page in the data file and an empty log; a failure anywhere leaves a database at rest; it succeeds when no call can fail |
| `Database.Restart` | src/db/database/database.cpp:214-332 | close then open: the same pages, the same tables, and for every table the same data pages, so the same rows; it always works below 2^32 - 2 pages when no call can fail |
| `Database.SameCatalog` | src/db/catalog/catalog.cpp:206-290 | a file has one catalog at a root and one list of data pages per table, whatever its pages are taken to be used for |
| `Creation.NewImage` | src/db/database/database.cpp:121-180 | the finished temporary file is a complete database, whatever an earlier attempt left in it |
| `Creation.StepSafe` | src/db/database/database.cpp:121-251 | every step of creating, opening or serving, every failure, crash and outside deletion keeps a non-empty database path complete and not paired with an older log |
| `Creation.ServeSafe` | src/db/database/database.cpp:274-304 | one step of the engine that serves the published file, recovery included, keeps its two files those of a running database |
| `Creation.StopSafe` | src/db/database/database.cpp:306-332 | however the serving process stops, with any part of the log stream on disk, it leaves a database at rest |
| `Creation.AlwaysSafe` | src/db/database/database.cpp:121-251 | so it is after every sequence of opens, engine steps, failures and crashes |
| `Creation.NonEmptyOpens` | src/db/database/database.cpp:224-251 | a non-empty path holds a valid header and a catalog that opens, with no log from before its publication |
| `Creation.Rebuilds` | src/db/database/database.cpp:121-212 | whatever an interrupted creation left, an undisturbed open of a vacant path ends with a new database being served |
| `Creation.Reopens` | src/db/database/database.cpp:224-251 | an open of a non-empty path serves it and does not rebuild |
| `Policy.Ceiling` | src/bridge/adaptation_policy.c:73-90 | never below the floor, above the configured maximum or above the memory share |
| `Policy.Policy.Evaluate` | src/bridge/adaptation_policy.c:92-176 | computes the decision; a hold changes no memory, a request is remembered |
| `Policy.Policy.Apply` | src/bridge/adaptation_policy.c:178-209 | one turn of the loop with the real pool: logical pages and handles stay, the pool moves only quietly, and when no call can fail a request gets exactly the pool's answer |
| `Policy.NeverDuplicate` | src/bridge/adaptation_policy.c:92-209 | when only the policy resizes the pool, suppression never blocks a step |
| `Policy.StepsBounded` | src/bridge/adaptation_policy.c:92-176 | a request moves the right way by at most the configured step and never past floor or ceiling on its way |
| `Policy.TargetInRange` | src/bridge/adaptation_policy.c:92-176 | a request lies between floor and ceiling if and only if one step from the current capacity can get there |
| `Policy.StaysInRange` | src/bridge/adaptation_policy.c:92-209 | under a fixed limit a capacity inside the range stays inside |
| `Policy.RangeCanBeMissed` | src/bridge/adaptation_policy.c:92-176 | two requests outside the range, one from a pool below the floor and one from a pool above a lowered ceiling |
| `Policy.ReachesFloor` | src/bridge/adaptation_policy.c:92-209 | under high pressure however it varies, with requests granted or not, the floor is reached with exactly the rounded-up quotient of distance by step of granted requests, then held |
| `Policy.ReachesCeiling` | src/bridge/adaptation_policy.c:92-209 | under low pressure however it varies, the same for any one ceiling the memory limits allow |
| `Gate.GateSafe` | src/container/process.c:434-712 | over every interleaving of parent and child the workload runs only attached; a failed start left no child and ran nothing unless the status pipe could not be read; a successful one ran or was killed from outside |
| `Gate.LostStart` | src/container/process.c:648-690 | from every state in which the workload runs while the parent still reads the status pipe, a failing read makes the start fail after the workload ran |
| `Gate.FailedStartCanRun` | src/container/process.c:648-690 | a whole run in which that happens |
| `Gate.OrphanNeverRuns` | src/container/process.c:434-477 | if the parent dies before the release, the workload never runs |
| `Gate.StartsReturn` | src/container/process.c:494-712 | no interleaving is longer than a fixed bound, and until the parent has returned or died, parent or child can move without a death from outside |
| `Container.Host.GatedStart` | src/container/container.c:406-436 | a child is ours from its fork to its reaping; a successful start leaves exactly one more, attached; a failed one leaves none and ran nothing unless the status pipe could not be read |
| `Container.Host.IsAlive` | src/container/process.c:269-277 | an unreaped child always counts as alive, no pid of zero or less does |
| `Container.Host.Stop` | src/container/process.c:232-267 | success reaps exactly that child, a failure none |
| `Container.Slot.Start` | src/container/container.c:362-439 | success is running with a new attached child; every failure keeps the lifecycle state and leaves no child |
| `Container.Slot.Stop` | src/container/container.c:441-460 | success reaps the child; a failure keeps state, pid and child |
| `Container.Slot.Delete` | src/container/container.c:462-489 | refused while running or deleted; a failure keeps the state; no child is lost |

## Left out

- Streams, files and the operating system: the data file is a sequence of pages, the log a sequence of bytes, an I/O failure a nondeterministic result. Page allocation is atomic.
- Operating-system crashes, power loss and fsync order, which the engine does not promise to survive.
- Null arguments and message texts. Table names are byte sequences. Reads return copies of the bytes, not addresses into a frame.
- LinkedPages.Linked.Append: the header of the last page is not validated a second time, since a page of a valid chain always passes. One class serves directory and catalog; their pages differ in magic and entry size only.
- HeapTable.Table.Insert: a table is used through one object at a time. A second open object of the same root would have an outdated list in memory; the code does not coordinate them either. The header comment of the class (include/db/heap_table.h:62 and 141) says that a full pool is passed on unchanged, but the code treats it like a page without room; the model follows the code, and `HeapTable.RefusedInsertGrows` shows the difference.
- BufferPool.Pool.MoveHandle: the destructor's best-effort flush and handles that outlive their pool are not modelled.
- PageSpace.Space.Store: the pair of storage and pool that tables and catalogs are given is one object here, so that every write states which page it changes.
- Creation.StepSafe: removal of a leftover temporary file beside an existing database is best effort in the code and left out, since nothing reads that file.
- Policy.Ceiling: real numbers stand for doubles; rounding is not modelled.
- Gate.GateSafe: a status message is written whole. A start also succeeds when the child is killed between its release and its exec, as in the code.
- Container.Host.GatedStart: control groups are reduced to whether attaching worked; namespaces, signals and the Windows branches are not part of this model. The child's own end is not observed by the parent until it is reaped.
- Container.Slot.Delete: if the recorded pid has drifted from the state, the call stops whatever process has that pid, as the code does; that children stay unchanged is stated only when nothing has drifted.
- The registry of containers, their creation and adoption, the manager's metadata files, the command line, the dashboard and the benchmarks: plumbing around the lifecycle.
- The list of table names, the pool adapter, the memory bridge and the resource monitor: they pass calls on to what is modelled here.
