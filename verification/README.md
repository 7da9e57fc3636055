# HSCFS in Dafny

HSCFS is a log-structured file system. The host caches the metadata (super block, NAT and SIT), logs
every change to a journal ring on the SSD, and the SSD applies the journal later at its own pace. This
project models the parts of the host whose correctness is not local and proves what they are for.

- **Journal.** `Tables` gives a journal entry its meaning. `JournalFormat` is the byte format and its
  decoder, `JournalWriter` merges, packs and frames a journal into 4 KB blocks. The result is that decoding
  and replaying the blocks does what the raw entries do, on every state. `JournalRing` is the ring with an
  SSD that applies blocks whenever it likes, `JournalProcessor` the thread that drives it.
- **Replacement protection.** `ReplaceProtect` is the protocol between user, journal and server threads and
  the SSD, one action per critical section. `Coherence` proves over every interleaving that the SIT cache is
  never stale and that no assertion fails; `NatCounts` adds the references to NAT blocks. `ProtectManager` is
  the manager and its release task.
- **Caches.** `CacheManager` refines the LRU lists to timestamps. `SitNatCache` and `NodeCache` add
  reference counts; the latter always holds the ancestors of what it holds.
- **Allocators.** `SitEntry`, `Allocator`, `AllocatorSafety` and `SuperManager` cover node ids, segments and
  blocks on linked lists inside the tables they manage, `AllocatorRuns` what holds over every run. `Mkfs` and
  `MkfsTables` show that formatting establishes what the allocators need, so the whole chain holds from every
  accepted device on.
- **File index.** `NodePath` and `Places` are the geometry of the index tree, `FileTree` its nodes and links,
  `FileFree`, `FileFreeTree` and `FreeBlocks` the freeing of blocks, `FileResizer` the file as a whole.
- **Directories and data.** `Directory` is the layout of hash levels and the search in it, `FileIO` the
  page-by-page reading and writing.

Pure code is modelled by functions; code that works on fields and buffers by classes and loops, each proved
against a function or a relation on its state whose properties are lemmas. `dafny verify dfyconfig.toml`
checks everything.

## Where the code and its promises differ

- The comment beside `is_applied` (inc/journal/journal_processor.hh:27-31) says that the tail cannot re-enter
  a journal whose record is still listed. It can, when the SSD's head was observed inside a journal. The test
  stays safe, but applied transactions can then stay unreported while the ring is empty, until later journals
  move the head on (`JournalRing.MisalignedPollLeavesUnreported`). `JournalRing.AppliedTestExactly` says which
  journals the test recognises, `JournalRing.PollIsComplete` exactly when a poll reports everything applied. It
  always does as long as the tail has not come round to an unreported journal
  (`JournalRing.UnovertakenRunIsComplete`).
- The skip branches of `free_blocks_in_range` do not advance the running start. A shrink is right if and only if
  its first freed block is at most 1951, or there is nothing to free and the code skips everything
  (`FreeBlocks.FreeBlocksInRange`, with an input in `FileResizer.MappedBeyondBound`). Deleting a file always is.
- `add_seg_to_list` journals a SIT entry without adding a host version, which breaks the reference count
  (`Coherence.AddSegToListBreaksCount`, `Coherence.AddSegToListReadsStale`); the coherence theorem is about
  all other actions.
- The count of valid blocks has nine bits. It equals the population if and only if the segment has not been full
  since it was last empty (`SitEntry.CountLagsExactly`, with an input in `SitEntry.FullSegmentLags`).
- `SIZE_TO_BLOCK` wraps for the last 4095 sizes of 64 bits, so `expand` does not refuse them; it then runs into
  an assertion or out of node ids (`FileResizer.FileIndex.Expand`).
- Page numbers have 32 bits. A write is a splice if and only if it ends at 2^44 or before
  (`FileIO.SplicesExactly`).

## Model

| member | source | states |
|---|---|---|
| `JournalWriter.WritableEntriesIsLargest` | src/journal/journal_writer.cc:70-111 | the packing count is the largest number up to the request that fills the space exactly or leaves a header for a NOP; 0 if none does |
| `JournalWriter.WritableIsLargest` | src/journal/journal_writer.cc:70-111 | the same for the three entry sizes of the format |
| `JournalWriter.CountWritable` | src/journal/journal_writer.cc:70-111 | returns that largest count; in an empty block it is positive, so the collect loop always makes progress |
| `JournalWriter.OutputVector.GenerateOutputVector` | src/journal/journal_writer.cc:178-216 | the map holds, for every key of the journal, the index of its last entry |
| `JournalWriter.OutputVector.PrepareOutput` | src/journal/journal_writer.cc:122-126 | the output order lists every key once, each with its last value; NAT and SIT ascending, super block in any order |
| `JournalWriter.OutputVector.OutputToBuffer` | src/journal/journal_writer.cc:128-152 | writes the largest possible run of the remaining entries as one record and nothing else of the block; says exactly when it is finished and when the block is too short; never too short at offset 0 |
| `JournalWriter.WriteRecord` | src/journal/journal_writer.cc:139-151 | the bytes of the header and of the chosen entries, spliced into the block |
| `JournalWriter.CopyEntries` | src/journal/journal_writer.cc:146-147 | the entries' bytes, in order |
| `Tables.MergePreservesReplay` | src/journal/journal_writer.cc:155-163 | keeping only the last entry of each key, in any order, has the same effect on every table |
| `Tables.ReplayByKind` | src/journal/journal_writer.cc:218-234 | a mixed history is one history per table: regrouping by table changes nothing |
| `JournalWriter.RawReplayIsHistory` | src/journal/journal_writer.cc:218-234 | replaying the three lists of a journal is replaying its entries in the order they were appended, however they interleaved |
| `JournalFormat.DecodeEncodeEntries` | src/debug/debug_utils.cc:64-122 | the entries of a record decode to what was encoded |
| `JournalFormat.DecodeRecord` | src/debug/debug_utils.cc:168-194 | a record followed by anything decodes to its entries followed by the decoding of the rest |
| `JournalFormat.SizeIsValid` | src/debug/debug_utils.cc:48-61 | every record that is written passes the decoder's length test |
| `JournalFormat.DecodeFull` | src/debug/debug_utils.cc:190-193 | a block full of records decodes to exactly their entries and stops at its end |
| `JournalFormat.DecodeClosed` | src/debug/debug_utils.cc:179-189 | a NOP or END header stops the walk; the stale bytes behind it do not matter |
| `JournalWriter.JournalWriter.GetTailBlock` | src/journal/journal_writer.cc:236-241 | the block exists and what was emitted so far is unchanged |
| `JournalWriter.JournalWriter.EmitOnce` | src/journal/journal_writer.cc:290-328 | one round emits the next entries, or pads and closes the block, or notices the end; the NOP header always fits |
| `JournalWriter.JournalWriter.Emit` | src/journal/journal_writer.cc:285-329 | terminates, having emitted exactly the merged entries of one table behind what was there |
| `JournalWriter.JournalWriter.EmitKind` | src/journal/journal_writer.cc:218-234 | a table without entries emits nothing, any other its merged entries |
| `JournalWriter.JournalWriter.AppendEndEntry` | src/journal/journal_writer.cc:252-258 | the END header always fits and has its exact length; the last block then decodes to its own entries |
| `JournalWriter.JournalWriter.Collect` | src/journal/journal_writer.cc:281-333 | terminates for every journal and every previous buffer content; the blocks encode the journal and number at least one |
| `JournalWriter.EncodedReplay` | src/journal/journal_writer.cc:281-333 | for every journal and every state: decoding the produced blocks and replaying them equals replaying the raw entries |
| `JournalRing.PosDistinct` | src/journal/journal_processor.cc:40-42 | blocks fewer than a ring apart have different addresses |
| `JournalRing.WriteSlotsContents` | src/journal/journal_writer.cc:335-353 | the n buffer blocks land in the next n ring slots, across the wrap, and no other slot changes |
| `JournalRing.WriteKeepsContents` | src/journal/journal_processor.cc:153-177 | a written journal never touches a block that the SSD has not applied |
| `JournalRing.WriteKeepsCounters` | src/journal/journal_processor.cc:163-169 | tail and free count stay exact: N - 1 minus the circular distance from head to tail |
| `JournalRing.WriteKeepsReports` | src/journal/journal_processor.cc:179-182 | the new record describes the new journal, behind the others |
| `JournalRing.ObserveKeepsCounters` | src/journal/journal_processor.cc:223-233 | a poll frees exactly the slots the SSD has passed since the last one |
| `JournalRing.IsAppliedIsSafe` | inc/journal/journal_processor.hh:32-45 | whenever the head has reached a journal, a positive answer means that it has passed all of it; needs no assumption on where heads are observed |
| `JournalRing.IsAppliedIsExact` | inc/journal/journal_processor.hh:32-45 | as long as the tail has not come round to the journal again the answer is exact, both ways |
| `JournalRing.AppliedTestExactly` | inc/journal/journal_processor.hh:27-45 | in any state of the ring and however long ago the journal was written: the test answers yes if and only if the positions of journal, head and outstanding blocks are among those it can recognise |
| `JournalRing.PoppedAreApplied` | src/journal/journal_processor.cc:235-252 | every record that is popped belongs to an applied journal |
| `JournalRing.SyncInv` | src/journal/journal_processor.cc:184-252 | a whole poll keeps the ring's invariant |
| `JournalRing.RunSafety` | src/journal/journal_processor.cc:153-252 | over every run of writes, SSD progress and polls: exact free count, the SSD reads what was written in order, transactions are reported in commit order and only after their whole range was applied |
| `JournalRing.PollReportsExactly` | src/journal/journal_processor.cc:235-252 | a poll reports a transaction if and only if the test recognises its journal and every unreported one before it |
| `JournalRing.PollIsComplete` | src/journal/journal_processor.cc:235-252 | a poll reports every applied transaction if and only if it recognises the journal of each applied one not yet reported |
| `JournalRing.PollReportsApplied` | src/journal/journal_processor.cc:235-252 | as long as the tail has not come round to the first unreported journal, a poll reports exactly the applied transactions, wherever the head stands |
| `JournalRing.UnovertakenRunIsComplete` | src/journal/journal_processor.cc:153-252 | in every run whose polls all happen in that case, the reported transactions are at all times exactly those known to be applied |
| `JournalRing.AlignedSyncReportsAll` | src/journal/journal_processor.cc:235-252 | in particular a poll between two journals by an up-to-date host reports every applied transaction and leaves it up to date |
| `JournalRing.AlignedRunUpToDate` | src/journal/journal_processor.cc:235-252 | in every run whose polls all do, nothing applied is ever left unreported |
| `JournalRing.IdlePollChangesNothing` | src/journal/journal_processor.cc:184-197 | a poll with nothing newly applied changes nothing |
| `JournalRing.MisalignedPollLeavesUnreported` | inc/journal/journal_processor.hh:27-31 | the comment's no-re-entry claim fails after a poll inside a journal, on every ring: a run of two journals, of whatever blocks, ends with both applied, the ring empty and neither reported, however often it polls; a third journal lets all three be reported |
| `JournalProcessor.WriteToSsd` | src/journal/journal_writer.cc:335-353 | the loop writes exactly the next ring slots |
| `JournalProcessor.JournalProcessor.constructor` | src/journal/journal_processor.cc:22-48 | an empty ring at the position found on the SSD |
| `JournalProcessor.JournalProcessor.FetchNewJournal` | src/journal/journal_processor.cc:81-114 | the whole commit queue is taken, in order, behind what is pending |
| `JournalProcessor.JournalProcessor.ProcessPendingJournal` | src/journal/journal_processor.cc:116-144 | the oldest journal, and no other, goes to the ring if and only if there is room; otherwise it stays in hand |
| `JournalProcessor.JournalProcessor.FinishJournal` | src/journal/journal_processor.cc:137-143 | the ring after the write, its record included; commit order is kept |
| `JournalProcessor.JournalProcessor.WriteJournalToSsd` | src/journal/journal_processor.cc:153-177 | slots, tail, free count and range of the journal after the write, or nothing changed |
| `JournalProcessor.JournalProcessor.SyncWithSsd` | src/journal/journal_processor.cc:223-233 | head and free count after asking the SSD; whether anything was applied |
| `JournalProcessor.JournalProcessor.ProcessTxRecord` | src/journal/journal_processor.cc:235-252 | exactly the applied records at the front are dropped and their transactions reported, in order |
| `JournalProcessor.JournalProcessor.ProcessCpltJournal` | src/journal/journal_processor.cc:184-197 | one poll, skipped only when everything written is known to be applied |
| `JournalProcessor.JournalProcessor.IdleMeansDone` | src/journal/journal_processor.cc:71-79 | the thread reports itself idle if and only if every journal it ever fetched is written to the ring and known to be applied |
| `ReplaceProtect.AssertedHolds` | src/fs/replace_protect.cc:31-103 | in every state of the protocol no assertion of the next action can fail: list not empty, completed transaction at its front, not being processed twice, released block cached and counted, count not underflowing |
| `ReplaceProtect.CountedStep` | inc/cache/SIT_NAT_cache.hh:118-185 | each action keeps the count equal to live handles plus unreleased entries |
| `ReplaceProtect.ListedStep` | src/fs/write_back_helper.cc:113-135 | each action keeps the protection list equal to the unreported journals plus those on their way |
| `ReplaceProtect.NumberedStep` | src/fs/replace_protect.cc:31-65 | transaction ids stay in order, and the set being processed is exactly those between notification and mark |
| `ReplaceProtect.EncodedStep` | src/journal/journal_processor.cc:146-151 | what lies on the ring encodes the journals it belongs to |
| `ReplaceProtect.TruthStep` | src/fs/write_back_helper.cc:113-135 | committing, writing out and applying move a change along without altering what the metadata is |
| `Coherence.UnpinnedIsCurrent` | src/cache/SIT_NAT_cache.cc:18-36 | a block with no unreleased entry is current on the SSD, so it may be evicted |
| `Coherence.CoherentStep` | src/fs/SIT_utils.cc:40-89 | each action keeps every cached SIT block equal to the SSD's block with all unapplied journals replayed |
| `Coherence.InvStep` | src/fs/replace_protect.cc:31-164 | each action of user, journal and server threads and of the SSD keeps the whole invariant |
| `Coherence.EveryRunIsCoherent` | src/fs/replace_protect.cc:112-164 | in every interleaving: cached blocks are true, counts exact, an uncached block is never stale when read back, the list is in commit order, and no assertion can fail |
| `Coherence.TruthIsSsdPlusUnapplied` | src/journal/journal_processor.cc:116-144 | the truth is the SSD's tables plus the unapplied rest of the ring, the waiting journals and the running one, in order |
| `Coherence.EmptyListIsApplied` | src/fs/replace_protect.cc:82-88 | when the list is empty, every committed journal is on the ring and the SSD has applied all of it; its tables are then the truth but for the journal being collected |
| `Coherence.WaitMissesNothing` | src/fs/replace_protect.cc:67-88 | when both conditions of the longer wait hold, every committed journal is applied and every reference released |
| `Coherence.ListStaysEmpty` | src/fs/replace_protect.cc:71-74 | an empty list stays empty until a transaction is added |
| `Coherence.WaitIsSound` | src/fs/replace_protect.cc:67-80 | waiting for the list first and for the tasks later is enough, whatever the other threads do in between short of adding a transaction, which the caller must rule out |
| `Coherence.AddSegToListBreaksCount` | src/fs/super_manager.cc:170-186 | linking a full segment journals a SIT change without adding a version, which breaks the count in every state |
| `Coherence.AddSegToListReadsStale` | src/fs/super_manager.cc:170-186 | a run in which the block is evicted and read back stale because of it |
| `ProtectManager.ReleaseAll` | src/fs/replace_protect.cc:119-138 | one reference is given back per journal entry, however often a block occurs; nothing is read again, nothing underflows |
| `ProtectManager.SitBlocksCount` | src/fs/replace_protect.cc:129-138 | what the loop gives back is what the protocol counts |
| `ProtectManager.TaskIsCovered` | src/fs/replace_protect.cc:129-138 | in every state of the protocol a queued task's SIT references are there to be given back |
| `ProtectManager.NatTaskIsCovered` | src/fs/replace_protect.cc:119-127 | and so are its NAT references |
| `NatCounts.CountedStep` | src/fs/super_manager.cc:23-79 | each step keeps a NAT block's count equal to its live handles plus the journalled entries not given back |
| `NatCounts.AssertedHolds` | src/fs/replace_protect.cc:119-127 | no assertion on the NAT cache can fail: a block to be released is cached and its count positive |
| `NatCounts.EveryRunCounts` | src/fs/replace_protect.cc:112-164 | in every interleaving with NAT entries: counts exact, a NAT block with a handle or an unreleased entry is cached and cannot be evicted, no assertion fails, and the protocol's invariant holds |
| `NatCounts.WaitMissesNothing` | src/fs/replace_protect.cc:67-80 | when the wait for all tasks ends, only the journal being collected pins NAT blocks |
| `ProtectManager.DropHandles` | src/fs/replace_protect.cc:152-158 | the handles of the dirty nodes are dropped; nodes deleted meanwhile release their id and block once |
| `ProtectManager.ReplaceProtectManager.AddTx` | src/fs/replace_protect.cc:61-65 | the transaction is last in the list |
| `ProtectManager.ReplaceProtectManager.NotifyCpltTx` | src/fs/replace_protect.cc:31-59 | the oldest transaction leaves the list, is marked as being processed and queued; says whether the list is now empty |
| `ProtectManager.ReplaceProtectManager.MarkProtectProcessCplt` | src/fs/replace_protect.cc:90-103 | the transaction is no longer being processed; says whether any other is |
| `ProtectManager.ReplaceProtectManager.RunTask` | src/fs/replace_protect.cc:112-164 | NAT and SIT references of the applied journal are given back, the filled segments handed on in order, the node handles dropped, then the transaction is marked |
| `CacheManager.AddRefines` | inc/cache/cache_manager.hh:86-91 | adding a key matches stamping it |
| `CacheManager.PinRefines` | inc/cache/cache_manager.hh:115-123 | pinning matches in the timestamp model |
| `CacheManager.UnpinRefines` | inc/cache/cache_manager.hh:130-138 | unpinning counts as a use |
| `CacheManager.AccessRefines` | inc/cache/cache_manager.hh:141-153 | an access counts as a use, pinned or not: skipping pinned keys makes no difference |
| `CacheManager.RemoveRefines` | inc/cache/cache_manager.hh:156-169 | removing a key matches forgetting its stamp |
| `CacheManager.PopRefines` | inc/cache/cache_manager.hh:94-109 | the key given up is unpinned and has the oldest stamp of all unpinned keys |
| `CacheManager.NothingToReplace` | inc/cache/cache_manager.hh:94-109 | nothing is given up exactly when every key is pinned |
| `CacheManager.EveryRunRefines` | inc/cache/cache_manager.hh:79-191 | after every run of operations lists and timestamps describe the same state |
| `CacheManager.LruReplacer.PopReplaced` | inc/cache/cache_manager.hh:100-109 | removes and returns the first key of the list, which the caller has checked not to be empty |
| `CacheManager.ManagerSteps` | inc/cache/cache_manager.hh:220-304 | every operation keeps index keys equal to replacer keys, the lists disjoint and without repetition |
| `CacheManager.ManagerReplace` | inc/cache/cache_manager.hh:268-274 | replacement keeps them too and removes exactly one unpinned key |
| `CacheManager.ManagerRefines` | inc/cache/cache_manager.hh:220-304 | every operation changes the index as its name says and the order of use as the timestamps do; the entry replaced is the one used longest ago |
| `CacheManager.CacheManager.Add` | inc/cache/cache_manager.hh:227-237 | entry added under its key, unpinned, used last |
| `CacheManager.CacheManager.Get` | inc/cache/cache_manager.hh:244-250 | the entry if there is one; counts as a use only when asked to |
| `CacheManager.CacheManager.ReplaceOne` | inc/cache/cache_manager.hh:268-274 | gives up and returns the least recently used unpinned entry, or none when no key is unpinned |
| `CacheManager.CacheManager.Remove` | inc/cache/cache_manager.hh:277-281 | the entry and its key are gone, the others stay |
| `SitNatCache.ShrinkIsSafe` | src/cache/SIT_NAT_cache.cc:18-36 | replacement drops uncounted entries only, the least recently used first and no more than needed, keeps the others as they are, and stays too large only when all are pinned |
| `SitNatCache.SitNatCache.AddRefcount` | inc/cache/SIT_NAT_cache.hh:155-160 | counted once more, pinned at the first reference |
| `SitNatCache.SitNatCache.SubRefcount` | inc/cache/SIT_NAT_cache.hh:166-174 | counted once less; at zero unpinned and replacement runs |
| `SitNatCache.SitNatCache.GetInner` | inc/cache/SIT_NAT_cache.hh:191-206 | found or read from the SSD |
| `SitNatCache.FetchedSound` | inc/cache/SIT_NAT_cache.hh:191-206 | fetching keeps counts and pinning; a block that was cached keeps its content, another one comes from the SSD with no reference |
| `SitNatCache.SitNatCache.Get` | inc/cache/SIT_NAT_cache.hh:118-124 | cached afterwards, counted once more and used last; replacement then ran, and only uncounted blocks may have gone |
| `SitNatCache.SitNatCache.AddSsdVersion` | inc/cache/SIT_NAT_cache.hh:130-134 | counted once less, everything else as it was |
| `SitNatCache.SitNatCache.DoReplace` | src/cache/SIT_NAT_cache.cc:18-36 | the loop equals replacement down to the expected size |
| `NodeCache.AddRefSound` | inc/cache/node_block_cache.hh:251-258 | one more handle keeps counts, pinning and rootedness |
| `NodeCache.SubRefSound` | src/cache/node_block_cache.cc:20-57 | one handle less keeps them |
| `NodeCache.DeleteSound` | src/cache/node_block_cache.cc:20-57 | a deleted node's last reference takes it out of the cache and hands its share of the parent to the caller |
| `NodeCache.EvictSound` | src/cache/node_block_cache.cc:59-85 | an unpinned node has no cached child and no handle, so replacement keeps every ancestor cached |
| `NodeCache.AddSound` | inc/cache/node_block_cache.hh:181-204 | adding below a cached parent keeps counts, pinning and rootedness |
| `NodeCache.InsertedSound` | inc/cache/node_block_cache.hh:181-204 | parent counted, node added, node counted: the invariant holds with one more handle, and every other node keeps parent, block and state |
| `NodeCache.NoDescendantCached` | src/fs/file_utils.cc:238-274 | below an uncached node of a path nothing is cached, so the miss path never inserts a cached node |
| `NodeCache.NodeBlockCache.SubRefcount` | src/cache/node_block_cache.cc:20-57 | terminates; the deleted nodes that left released their id and block exactly once, bottom up |
| `NodeCache.NodeBlockCache.RemoveDeleted` | src/cache/node_block_cache.cc:27-46 | the id is freed, the block given up, the node gone |
| `NodeCache.NodeBlockCache.DoReplace` | src/cache/node_block_cache.cc:59-85 | terminates; small enough, or every node is referenced; what goes is taken in the order of use, no more than needed, and everything else stays |
| `NodeCache.NodeBlockCache.EvictOne` | src/cache/node_block_cache.cc:63-83 | the least recently used node goes and its parent is counted once less; deleted ancestors release their id and block, every other node stays with its parent, block and state |
| `NodeCache.NodeBlockCache.Get` | inc/cache/node_block_cache.hh:211-217 | a handle if cached, counted once more |
| `NodeCache.NodeBlockCache.Add` | inc/cache/node_block_cache.hh:181-204 | the node is cached with its parent and block and not given up by the replacement that follows; every other node still cached keeps its parent, block and state |
| `NodeCache.NodeBlockCache.DeleteNode` | src/cache/node_block_cache.cc:118-121 | only the state of the node changes |
| `NodeCache.NodeBlockCache.InsertPath` | src/fs/file_utils.cc:253-270 | inserting the missing part of a path never meets a cached node and always finds the parent; afterwards every node of the path is cached with its own block and below its predecessor, and every other node still cached keeps its parent, block and state |
| `NodeCache.NodeBlockCache.AddAndDrop` | src/fs/file_utils.cc:265-266 | one node of the path: added, and its handle dropped again, without its leaving the cache |
| `SitEntry.ChangeBits` | src/fs/SIT_utils.cc:62-82 | a change touches exactly the bit of its block |
| `SitEntry.ChangeKeepsLink` | inc/fs/fs.h:173-189 | the link in the upper 23 bits is never disturbed, the count stays in its 9 bits |
| `SitEntry.EveryRunCounts` | src/fs/SIT_utils.cc:62-82 | over every run of legal changes the count is the population of the bitmap or one less, and the link is what it was |
| `SitEntry.CountLagsExactly` | src/fs/SIT_utils.cc:62-82 | over every run the count is the population if and only if the segment has not been full since it was last empty (or since an exact start); otherwise it is one less |
| `SitEntry.FullSegmentLags` | src/fs/SIT_utils.cc:67-69 | an entry with 512 valid blocks and count 511 |
| `SitEntry.BytesRoundTrip` | inc/fs/fs.h:190-193 | an entry read by byte position is the entry that was journalled |
| `Allocator.NatRoundTrip` | inc/fs/fs.h:145-148 | owner at bytes 0 to 3, block address at bytes 4 to 7: reading gives back the entry that was journalled |
| `Allocator.WordWritten` | inc/fs/fs.h:9-50 | journalling one of the seven changing words at its offset changes that word, as read by position, and no other |
| `SuperManager.Flip` | src/fs/SIT_utils.cc:58-82 | bit and count of the entry after the change |
| `SuperManager.SuperManager.ChangeLpaState` | src/fs/SIT_utils.cc:40-89 | bit, count and journal entry; the invalid address is ignored |
| `SuperManager.SuperManager.AllocNid` | src/fs/super_manager.cc:23-55 | takes the head of the free list or fails when it is empty; NAT, super block and journal after it |
| `SuperManager.SuperManager.FreeNid` | src/fs/super_manager.cc:57-79 | pushes the id on the free list; NAT, super block and journal after it |
| `SuperManager.SuperManager.AllocSegment` | src/fs/super_manager.cc:137-168 | takes the head of the free segment list or fails when none is left |
| `SuperManager.SuperManager.AllocLpa` | src/fs/super_manager.cc:188-222 | appends to the active segment, replacing it first when full and remembering it as filled for its kind; fails exactly when that needs a segment and none is left |
| `SuperManager.SuperManager.GetAndClearUncommitNodeSegs` | src/fs/super_manager.cc:103-109 | hands over the filled node segments and leaves that list empty and the other alone |
| `SuperManager.SuperManager.GetAndClearUncommitDataSegs` | src/fs/super_manager.cc:111-117 | hands over the filled data segments and leaves that list empty and the other alone |
| `SuperManager.SuperManager.WriteBack` | src/fs/write_back_helper.cc:28-44 | a new address is allocated, then the old one given up |
| `AllocatorSafety.InvalidateKeepsInv` | src/fs/SIT_utils.cc:40-89 | invalidating a valid block keeps the segment invariant: it cannot lie in a free segment |
| `AllocatorSafety.AllocKeepsInv` | src/fs/super_manager.cc:188-222 | the block allocated was invalid and never handed out before; free, active and full segments stay apart; the free count is the length of the list |
| `AllocatorSafety.WriteBackMoves` | src/fs/write_back_helper.cc:28-44 | afterwards the new block is valid, the old one is not, and no other block's state changed |
| `AllocatorSafety.AllocNidKeepsInv` | src/fs/super_manager.cc:23-55 | the id handed out was free and not live; its entry then names its owner, itself for an inode, and no block; every other entry is as before and the chain stays without repetition |
| `AllocatorSafety.FreeNidKeepsInv` | src/fs/super_manager.cc:57-79 | the id is first in the free list and no longer live; every other entry is as before |
| `AllocatorRuns.NoBlockTwice` | src/fs/super_manager.cc:188-222 | over every run two allocations never return the same block, whatever is invalidated in between |
| `AllocatorRuns.AllocKeepsLane` | src/fs/super_manager.cc:188-222 | the uncommitted list of a kind is, in filling order, exactly its filled segments not yet taken over; the blocks handed out for a kind are exactly those of its filled segments and of the used part of its active one |
| `AllocatorRuns.KindsStayApart` | src/fs/super_manager.cc:196 | over every run that holds for both kinds, so every block handed out for a kind lies in a segment of that kind |
| `AllocatorRuns.OwnerKept` | src/fs/super_manager.cc:36-49 | over every run an allocated id keeps the owner it was allocated for until it is freed |
| `AllocatorRuns.RunsOutExactly` | src/fs/super_manager.cc:137-222 | in every state of a run, a block can be allocated if and only if a segment is free or a block of the active one was never handed out, an id if and only if the free list is not empty |
| `AllocatorRuns.EveryRunReplays` | src/fs/super_manager.cc:23-222 | write-ahead completeness: after every run, replaying the journal over the starting tables and reading super block, SIT and NAT back field by field gives exactly the cached ones |
| `Mkfs.AcceptedExactly` | mkfs/mkhscfs.cc:127-227 | a device is accepted exactly when its blocks can be addressed and a free segment remains |
| `Mkfs.LayoutIsSound` | mkfs/mkhscfs.cc:127-227 | disjoint regions inside the device, large enough for their tables; addresses and ids fit 32 bits, segment links 23 |
| `MkfsTables.FormatSit` | mkfs/mkhscfs.cc:230-302 | every main-area entry on the device is right: two active segments with the root's blocks, then one chain of all free segments; only SIT blocks are written |
| `MkfsTables.FillSlot` | mkfs/mkhscfs.cc:262-285 | the slot of a segment is filled; the first slot of a block clears the buffer |
| `MkfsTables.FormatNat` | mkfs/mkhscfs.cc:305-364 | every NAT entry on the device is right: the root, then one chain of all other ids from 3 on; only NAT blocks are written |
| `MkfsTables.FormatEstablishesInv` | mkfs/mkhscfs.cc:230-364 | a formatted device satisfies the allocators' invariant, and every segment is free or active |
| `MkfsTables.RootIsMapped` | mkfs/mkhscfs.cc:230-364 | the root's NAT entry names itself and a valid block of the active node segment; its two directory blocks are valid in the active data segment |
| `MkfsTables.OnlyRootIsValid` | mkfs/mkhscfs.cc:230-302 | no other block is valid |
| `MkfsTables.ReadBackIsMounted` | mkfs/mkhscfs.cc:230-364 | what is read back from a formatted device is what the allocators need to find |
| `MkfsTables.EveryFormattedRunIsSafe` | mkfs/mkhscfs.cc:127-364 | from what is read back from every accepted and formatted device, every run of the allocators is safe, and its journal, replayed and read field by field, gives the cached tables |
| `MkfsTables.Format` | mkfs/mkhscfs.cc:460-475 | formats a device or refuses it; the blocks written read back into a state from which runs start |
| `NodePath.PathExistsExactly` | src/fs/file_utils.cc:102-173 | there is a path exactly below max_blkno_limit |
| `NodePath.PathInverse` | src/fs/file_utils.cc:102-173 | the offsets determine the block: paths are injective, with an explicit inverse |
| `NodePath.PathOnto` | src/fs/file_utils.cc:102-173 | every valid sequence of offsets is the path of the block it leads to |
| `Places.NoffsetUnique` | src/fs/file_utils.cc:102-173 | no two nodes of the tree have the same number |
| `Places.PathPlaces` | src/fs/file_utils.cc:102-173 | offsets and numbers of a path name the same nodes, and the block lies below each of them |
| `Places.LeafUnique` | src/fs/file_utils.cc:102-173 | the node that holds a block's address is unique |
| `FileTree.NoSharing` | src/fs/file_utils.cc:412-421 | no node id is referenced twice |
| `FileTree.CreateLinked` | src/fs/file_utils.cc:412-427 | a new node hangs in its parent's slot and the tree stays linked |
| `FileTree.CreateAddr` | src/fs/file_utils.cc:412-427 | it changes no block's address |
| `FileTree.DeleteLinked` | src/fs/file_utils.cc:553-558 | deleting a childless node keeps the tree linked |
| `FileTree.DeleteAddr` | src/fs/file_utils.cc:553-558 | only blocks below it lose their address |
| `FileTree.CreateIds` | src/fs/super_manager.cc:23-55 | creating a node takes its id from the free ones; none is lost |
| `FileTree.DeleteIds` | src/fs/super_manager.cc:57-79 | deleting a node gives its id back; none is lost |
| `FileTree.DeletedIdIsNext` | src/fs/super_manager.cc:23-79 | the id freed last is the first to be given out again; recreating the node undoes the deletion of its id and link |
| `FileResizer.AddBlock` | src/fs/file_utils.cc:397-441 | succeeds if and only if there are enough free ids for the nodes that begin at the block; afterwards the nodes are exactly those of a file one block longer; no address changes |
| `FileResizer.NeededIs` | src/fs/file_utils.cc:397-441 | the nodes an expansion needs are exactly those whose first block lies in the added range |
| `FileResizer.FileIndex.constructor` | src/fs/file_utils.cc:693-706 | an empty file: the inode and nothing else |
| `FileResizer.FileIndex.GetAddrOfBlock` | src/fs/file_utils.cc:220-307 | the walk ends at the block's own leaf and returns the address that the map gives |
| `FileResizer.FileIndex.UpdateBlockMapping` | src/fs/file_utils.cc:309-322 | changes the address of that block and of no other |
| `FileResizer.FileIndex.Expand` | src/fs/file_utils.cc:366-442 | within the limit it succeeds if and only if there are enough free ids for the nodes whose first block lies in the added range, and uses exactly so many; a node then exists exactly where its first block is inside the file; no address changes, no id is lost; refused exactly above the limit, except for the last 4095 sizes of 64 bits, which never succeed |
| `FileResizer.FileIndex.Reduce` | src/fs/file_utils.cc:333-364 | every mapped block behind the new end is given up exactly once, in order, the nodes are those of the shorter file and lower mappings are unchanged, if and only if the first freed block is at most 1951, or there was nothing to free and everything is skipped |
| `FileResizer.FileIndex.DeleteFile` | src/fs/file_utils.cc:708-716 | every mapped address is given up exactly once and every node id becomes free |
| `FileResizer.MappedBeyondBound` | src/fs/file_utils.cc:540-541 | a concrete file of 1953 blocks to which the bound applies |
| `FileFree.ClearRange` | src/fs/file_utils.cc:505-515 | the addresses of a range are given up once each, in order; no other changes |
| `FileFree.ProcSingle` | src/fs/file_utils.cc:484-521 | clears what intersects the freed range; useless if and only if it begins in that range |
| `FileFreeTree.ProcNode` | src/fs/file_utils.cc:530-605 | for a node of nodes: all below it is gone when the running start is right, nothing at all happens when its first child is skipped, and nothing outside is touched either way; no child is left when it reports itself useless |
| `FileFreeTree.ProcChild` | src/fs/file_utils.cc:549-561 | looks up, processes and if useless deletes one child; fails where the code's assertion does |
| `FreeBlocks.ProcInode` | src/fs/file_utils.cc:455-476 | the inode's own addresses |
| `FreeBlocks.ProcSlots` | src/fs/file_utils.cc:610-647 | the loops over the inode's slots, with the running start as the code advances it |
| `FreeBlocks.ProcSlot` | src/fs/file_utils.cc:618-628 | one slot of the inode |
| `FreeBlocks.FreeBlocksInRange` | src/fs/file_utils.cc:444-660 | frees everything exactly once if and only if s <= 1951, or nothing (no mapped block, no node) lies in [s, e] and s is where the code gets through by skipping; beyond 1951 block s always keeps its address |
| `Directory.DepthLimit` | src/fs/directory.cc:546-555 | the block count of a directory is 2^(depth+2) - 2, and the file-size limit admits it exactly up to depth 27 |
| `Directory.BucketsDisjoint` | src/fs/directory.cc:224-249 | no block belongs to two buckets, of any levels |
| `Directory.BucketsCover` | src/fs/directory.cc:224-249 | every block of the directory belongs to a bucket |
| `Directory.BucketStartBlockIndex` | src/fs/directory.cc:240-249 | the 32-bit sum; up to depth 27 nothing wraps |
| `Directory.LookupInBounds` | src/fs/directory.cc:73-76 | the bound that lookup asserts holds |
| `Directory.ScanBucket` | src/fs/directory.cc:78-91 | the name if it is in one of the blocks, else the first place for it: the start of the block's free run, or slot 0 of an unallocated block |
| `Directory.SearchLevels` | src/fs/directory.cc:66-96 | the loop over the levels searches exactly the buckets the hash selects, in order |
| `Directory.Directory.Lookup` | src/fs/directory.cc:56-104 | finds the name if and only if a bucket selected by its hash holds it; otherwise returns a place if and only if one of those buckets has room, and then the first one, beginning at the block's free run |
| `Directory.Directory.AppendHashLevel` | src/fs/directory.cc:546-555 | one more level, the file exactly as large as its levels; succeeds if and only if the depth is below 27 and there are enough node ids; refused for its size exactly at depth 27 |
| `Directory.Directory.GetCreatePos` | src/fs/directory.cc:436-454 | succeeds if and only if a bucket of the name has room or a level can be appended, and appends only if none has; the place is the first one with room in the buckets of the name |
| `Directory.Directory.constructor` | src/fs/file_utils.cc:674-691 | level 0: two unallocated blocks |
| `FileIO.PieceIsSlice` | src/fs/file.cc:101-105 | a piece of a page is a piece of the file |
| `FileIO.PatchEffect` | src/fs/file.cc:144-148 | copying into one page writes those bytes, at the positions they alias to, and no others |
| `FileIO.File.Read` | src/fs/file.cc:77-117 | exactly the slice of the flat file, cut at its size, for every position and count |
| `FileIO.File.Write` | src/fs/file.cc:119-162 | exactly one splice into the flat file whenever the write ends at 2^44 or before; the size becomes the maximum of the old size and the end of the write, also for an empty write; fails exactly when it would touch the last page below 2^64 |
| `FileIO.SplicesExactly` | src/fs/file.cc:119-162 | a write at a position is a splice for every file and every content if and only if it ends at 2^44 or before |
| `FileIO.SplicedReads` | src/fs/file.cc:119-162 | reading back what was written gives it back, and the rest is unchanged |

## Left out

- src/communication, SPDK, NVMe channels, timers, DMA memory, logging and locks: foreign or without state of their own. The SSD is an environment that applies ring blocks in order; critical sections are the actions of the protocol.
- I/O errors and memory exhaustion: an exception ends the run, as do `no_free_nid` and `no_free_segment`.
- The NAT cache's content: `set_lpa_of_nid` edits a copy of the entry (src/fs/NAT_utils.cc:48-55), so `NatCounts` models handles, versions and eviction of NAT blocks but not what they hold.
- The links of the node and data segment lists: `SET_NEXT_SEG` ORs onto the old link. Full segments are a set, and `add_seg_to_list` appears only in the two lemmas that show what it breaks.
- Directory slots: names and free runs of a block are abstract because the bitmap writers shift 32-bit words; creating and removing entries inside a block and the position hint of `get_create_pos` are not modelled.
- Page cache truncation, page states and page reuse: a page's prepared content is given by a map, zero where nothing was written.
- `dirty_pos` and the dirty lists of the node cache, dentry cache, path lookup, SRMAP, file objects, the API layer, link counts and timestamps: easy members without deep properties.
- Deadlock freedom of the server thread: it is a task queue.
- 32- and 64-bit wrap-around of reference counts, transaction ids and cache sizes: unbounded here. Bit widths are modelled where they matter: SIT counts and links, ring addresses, device sizes, bucket indices.
- FileResizer.FileIndex.Expand: after node ids run out, nothing is said about the nodes, only that addresses and ids are unharmed.
- FileResizer.FileIndex.DeleteFile: one file at a time with the list of free ids; a deleted node's id is free at once, where the program waits for the last handle (that is `NodeCache.NodeBlockCache.SubRefcount`).
- FileFreeTree.ProcNode: models proc_double_node and proc_triple_node by one recursive method, since they differ only in the procedure they call; a lookup of the invalid node id counts as a failed assertion.
- JournalProcessor.JournalProcessor.ProcessPendingJournal: a journal comes with the blocks that `JournalWriter.JournalWriter.Collect` produces for it, because the two classes are joined in `ReplaceProtect`, where loading a journal means having blocks that encode it.
- ProtectManager.ReplaceProtectManager.RunTask: the filled segments are returned rather than linked into their lists, and dentry handles are not modelled.
- MkfsTables.Format: the root directory's own blocks and the SSD's internal database are not modelled.
- JournalWriter.CopyEntries: the record is assembled before it is placed in the block, so partly written records are not visible.
- AllocatorRuns.EveryRunReplays: of the super block, only the seven words that the allocators change are read back.
- NodeCache.NodeBlockCache.InsertPath: what the SSD returns is taken to be the path it was asked for.
