# Treeline in Dafny

A model of the storage core of Treeline, a page-grouped key-value store, with proofs about it, in Dafny 4.11.
To verify: `dafny verify dfyconfig.toml`.

| part | modules |
|---|---|
| the write-ahead log | `Coding`, `Crc32c`, `WalSeal`, `WalFormat`, `WalBytes`, `WalWriter`, `WalReader`, `WalTheorems`, `WalDamage`, `WalDetected`, `WalManager` |
| the slotted page | `Bytes`, `PageLayout`, `PageCompaction`, `PageSearch`, `PackedPage`, `PackedMap`, `StaleHints` |
| regression, segments and key mapping | `Plr`, `KeyMapping`, `SegmentModel`, `SegmentBuilder`, `SegmentFile` |
| locks, index and rewrites | `LockManager`, `SegmentIndex`, `SegmentProtocol`, `ProtocolInvariant`, `ProtocolQuiet`, `ProtocolWrites`, `ProtocolPublish`, `ProtocolTheorems`, `ProtocolLocks`, `ProtocolConserved`, `ProtocolProgress`, `ProtocolRecycled` |
| merges, scans and overflow pages | `RecordMerge`, `PageMerge`, `StoreScan`, `PageChain` |
| the memtable | `SkipLevels`, `SkipList`, `MemTable` |
| the buffer manager | `HashQueue`, `BufferPool`, `BufferManager` |

The main results:

- **Log.** Reading any byte prefix of a log returns exactly the entries that lie wholly inside it (`WalTheorems.ReadPrefix`,
  `WalManager.ReplayAfterCrash`). For any file at all, every entry returned is one FULL record or an uninterrupted
  FIRST, MIDDLE*, LAST run (`WalDamage.EntriesAreRuns`). Damage to one block, the incomplete last one included, costs only
  entries that touch it (`WalDamage.DamagedLog`), and if the first record that it touches fails its test, nothing is
  returned that was not written (`WalDetected.NoticedLogDamage`). The bytes themselves are given in numbers: lengths, type
  codes, block size and checksums (`WalBytes.LogInNumbers`, `WalBytes.CrcOfDigits`, `WalBytes.SmallestLog`).
- **Page.** Over every run of insertions, updates and removals the page is the finite map that the operations describe,
  and which of them fail follows from that map and the bytes that are left (`PackedMap.PackedMap.Run`). Fences, records and
  the directory never overlap, the space accounting is exact, an insertion fails only if its bytes would not fit without
  gaps, and the hinted, head-comparing binary search finds what a scan over the whole keys finds.
- **Segments.** Every line of the greedy regression is within its error of every point it took in, rises, and is no steeper
  than the records are dense. For every positive goal and error, the builder neither loses nor reorders a record, every page of
  a multi-page segment gets its goal of records give or take twice the error, no page is passed over, and segments are laid
  out so that lookups go to the page that has the record. All of this but the last two holds with any regression whose
  lines fit the records, rise and start on the first two pages (`SegmentBuilder.SegmentBuilder.CutBy`). When a record is
  taken in and when a segment is cut off, with how many pages and which records, is stated exactly
  (`SegmentBuilder.SegmentBuilder.Offer`); more consecutive keys than the record limit begin with a
  segment of 16 pages.
- **Rewrites.** Over every interleaving of readers, writers, scans and rewrites, a locked segment stays in the index with the
  bounds its holder saw, no id is both indexed and free, readers see exactly the current records, segments hold what threads
  were told to write and nothing else, whichever rewrites carry it along, and the segments that a scan visits tile the keys it
  passes (`ProtocolTheorems`). The lock table that the steps leave counts exactly the holders and is empty when all threads
  are done (`ProtocolLocks`). Every id is free, in the index or in the hands of one rewrite, and none leaks
  (`ProtocolConserved`). Nothing deadlocks: from every reachable state all threads can come to an end (`ProtocolProgress`).
- **Scans.** On a store at rest both scans return the first of exactly the records at or above the start key, in key order,
  whatever the estimate, and leave no page locked (`StoreScan`).
- **Memtable.** Whatever splice earlier insertions left, an insertion puts its record where the list stays sorted at every
  level, and a lookup finds the last genuine write of a key (`SkipList`, `MemTable`).
- **Buffer manager.** Over every run of fixing, writing, unfixing, flushing and resizing, clients see what they would see
  without frames and eviction: fixing a page reads what was last written to it, and it fails exactly if all frames hold
  other fixed pages (`BufferManager.BufferManager.Run`, `BufferManager.FixReadsLast`). Each operation's frames, page table,
  queues and disk are given exactly.

Where the code does not do what one would expect, the model keeps the code and says exactly when:

- `Append` samples the search hints before it counts the new slot (packed_map-inl.h:224-226). After it, lookups find every
  stored key if and only if each sampled slot has the head of the last slot before the one that its hint now stands for
  (`PageSearch.AppendServesIff`, `PackedMap.PackedMap.Append`). `PackedMap.PackedMap.Get` says of every key, whatever the
  hints, exactly when it is found. `StaleHints.LookupMisses` appends 34 keys of which one is not.
- A physical record with a valid checksum and the type value that the reader uses for "end of file" makes it stop
  (wal/reader.cc:255-300). `WalDamage.DamagedLog` excludes such a record in the damaged block, and
  `WalDamage.EofRecordEndsLog` shows what it does. `WalDamage.EofRecordCostsAll` gives a file in which only the first block is
  damaged and nothing is read at all.
- `FindLowerBoundary` can miss the last page if the model is steep (key.cc:54-104). `KeyMapping.FindLowerBoundary` is right if
  and only if the page is reached, and `KeyMapping.SteepModelMissesLastPage` gives a model where it is not. Every segment
  that the greedy builder emits reaches all its pages (`Plr.FinishTracks`, `SegmentModel.PageIsReached`);
  `SegmentBuilder.SteepLineMissesPage` gives a line that fits its records as closely and passes over a page.
- Region validation does not compare the last upper bound (segment_index.cc:209-224). `ProtocolTheorems.ValidationExact`
  says when an accepted region is what was seen. `ProtocolRecycled.ValidationMissesUpper` gives a run after which a fully
  locked region is accepted although it is not: another rewrite has used its id again under the same lower bound. Steps of
  the protocol validate a region only if no rewrite has used one of its ids since it was seen, and
  `ProtocolTheorems.ValidatedAsSeen` proves that this is enough.
- From the first record of a batch that does not fit on its page, the rest of that page's batch goes to the overflow page,
  also records whose keys are on the page (manager.cc:332-417), and lookups try the page first. `PageChain.ReadsLastIff` says
  exactly when lookups find the last values, `PageChain.LongerUpdateIsHidden` and `PageChain.LaterUpdateIsHidden` give
  batches after which they do not.
- The iterator over a page and its overflow page drops nothing (merge_iterator.h:61-70): scans and rewrites get each key once
  if and only if the two share none (`PageMerge.RowsSortedIff`), and otherwise the old and the new record
  (`PageMerge.SharedKeyComesTwice`), in an order that depends on where they start (`PageMerge.StartSwapsSharedKeys`).
- A deferred write is said not to overwrite what the memtable has (memtable.h:36-40). `MemTable.DeferredKeeps` says exactly
  when it does not: always, unless that is itself deferred with a lower tag (`MemTable.DeferredCanReplace`); the tag is the
  sequence number and, below it, the write type.
- `GreedyPLRBuilder::Finish` returns a horizontal line after one point (greedy.h:166-176), where segment_builder.cc:127-129
  expects no line. The builder's result is the same.

Doubles are modelled as reals and integers are unbounded; the page's 16-bit fields are bounded by its size. Bytes are integers
from 0 to 255.

## Model

| member | source | states |
|---|---|---|
| `Coding.Fixed32RoundTrip` | util/coding.h:52-95 | the four little-endian bytes of a word decode to it |
| `Coding.Varint32RoundTrip` | util/coding.cc:21-47 | decoding what was encoded gives the number and leaves the rest, whatever follows |
| `Coding.GetVarint32` | util/coding.cc:86-114 | the loop decodes like the reference decoder and fails exactly when that does |
| `Coding.PlacedLast` | util/coding.cc:92-112 | of the fifth group only four bits stay in the decoded word |
| `Crc32c.MaskInverse` | util/crc32c.h:34-43 | masking and unmasking a checksum undo each other |
| `Crc32c.Crc32cLawful` | util/crc32c.h:18-25 | extending the checksum of a string by another is the checksum of both, for the CRC of section 12.1 of RFC 3720 |
| `WalFormat.Encode` | wal/writer.cc:53-101 | an entry takes at least a header, and the cursor is left where its bytes end, inside a block |
| `WalFormat.LogNext` | wal/writer.cc:53-101 | the log of one entry more is the log before and the fragments of the entry, written where the log ended |
| `WalWriter.Writer.EmitPhysicalRecord` | wal/writer.cc:103-132 | one record with length, type and masked checksum is appended at the block offset |
| `WalWriter.Writer.AddEntry` | wal/writer.cc:53-101 | the do-while loop appends exactly the fragments of the entry |
| `WalBytes.Fixed32InNumbers` | util/coding.h:52-67 | a word as the numbers of its four bytes, lowest first |
| `WalBytes.VarintInNumbers` | util/coding.cc:21-47 | a number is stored in groups of seven bits, lowest first, all but the last raised by 128 |
| `WalBytes.CrcOfDigits` | util/crc32c.h:18-43 | the checksum of the digits 1 to 9 is 0xe3069283 |
| `WalBytes.RecordInNumbers` | wal/writer.cc:103-132 | a record is its masked checksum, its length lowest byte first, its type as 1, 2, 3 or 4, and its data |
| `WalBytes.LogInNumbers` | wal/format.h:15-44 | a log, entry by entry and fragment by fragment: blocks of 32768 bytes, zeros where fewer than seven are left, and which fragment has which type |
| `WalBytes.SmallestLog` | wal/writer.cc:53-132 | the seven bytes of the log of one empty entry, with the masked CRC32C |
| `WalBytes.SerializeInNumbers` | wal/manager.cc:140-186 | a write is its type as 0 or 1, the length of its key, the key and the value |
| `WalReader.Reader.ReadPhysicalRecord` | wal/reader.cc:208-302 | takes the next record of the file, refilling block by block, and makes progress |
| `WalReader.Reader.ReadEntry` | wal/reader.cc:74-193 | returns the first entry of what is left to read and leaves the rest, for any file |
| `WalReader.ReadLog` | wal/reader.cc:74-193 | terminates on any file and returns its entries |
| `WalTheorems.LogParserAccepts` | wal/reader.cc:208-302 | what the writer emits the reader parses, whole or cut short |
| `WalTheorems.ReadPrefix` | wal/reader.cc:74-193 | any byte prefix of a log reads as exactly the entries whose last byte is in it, in order |
| `WalTheorems.ReadAll` | wal/writer.cc:53-101 | a whole log reads as all its entries |
| `WalDamage.EntriesAreRuns` | wal/reader.cc:89-192 | for any file, each entry is the data of one FULL record or of an uninterrupted FIRST, MIDDLE*, LAST run, in file order and without overlap |
| `WalDamage.BlockLocal` | wal/reader.cc:208-302 | what is read from a block depends on that block only |
| `WalDamage.DamagedBlock` | wal/format.h:34-39 | with one block replaced, complete or the incomplete last one, all entries before and after those that touch it are read, whatever the block reads as |
| `WalDamage.DamagedLog` | wal/format.h:34-39 | the same for the real framing and checksums |
| `WalDamage.EofRecordEndsLog` | wal/reader.cc:255-300 | after a valid record of the end-of-file type nothing of the file is read any more |
| `WalDamage.EofRecordCostsAll` | wal/reader.cc:255-300 | a file that differs from a log in its first block only and from which nothing is read |
| `WalDetected.LogHasNoEof` | wal/reader.cc:255-300 | no record in a complete block of a log has the end-of-file type |
| `WalDetected.NoticedDamage` | wal/format.h:34-39 | if the reader finds no record in the damaged block that was not written there, it returns exactly the entries up to some entry that touches the block and all those that start after it |
| `WalDetected.NoticedLogDamage` | wal/reader.cc:208-302 | the same for the real framing and checksums |
| `WalDetected.RejectedIsNoticed` | wal/reader.cc:255-289 | that is the case if the first record that the damage touches fails the test |
| `WalDamage.DamagedCrcLog` | wal/format.h:34-39 | what damage costs logs sealed with the masked CRC32C |
| `WalManager.SerializeRoundTrip` | wal/manager.cc:84-109 | a logged write parses back to the same type, key and value |
| `WalManager.LogWrite` | wal/manager.cc:140-186 | appends the serialised write to the log |
| `WalManager.LogAll` | wal/manager.cc:140-186 | logging writes one after the other leaves their log |
| `WalManager.ReplayLog` | wal/manager.cc:67-112 | passes on the parsed entries of all files, oldest first, up to the first that the callback refuses |
| `WalManager.ReplayPrefix` | wal/manager.cc:67-112 | replaying any prefix of a log passes on exactly the writes that lie wholly in it |
| `WalManager.ReplayLogs` | wal/manager.cc:67-112 | replaying complete logs passes on all their writes in order |
| `WalManager.ReplayAfterCrash` | wal/manager.cc:67-112 | with the newest log cut short, all older writes and a prefix of the newest are replayed |
| `WalManager.ReplayCrcLog` | wal/manager.cc:67-112 | the replay of logs sealed with the masked CRC32C |
| `WalManager.CrashedCrcLogs` | wal/manager.cc:67-112 | what a crash costs such logs |
| `Bytes.MemCmpOrder` | page_grouping/persist/packed_map-inl.h:341-358 | comparing the common part and then the lengths is the lexicographic order |
| `Bytes.HeadInNumbers` | util/key.h:32-50 | a head is the first four bytes, highest first, and short keys are filled up with zeros |
| `Bytes.HeadMonotone` | util/key.h:32-50 | key heads never order two keys the wrong way round |
| `Bytes.HeadDecides` | util/key.h:32-50 | different heads decide the order of the keys |
| `PageLayout.InsertedLayout` | page_grouping/persist/packed_map-inl.h:112-132 | storing a record below the heap in a new slot keeps fences and records apart, inside the page and counted |
| `PageLayout.InsertedContent` | page_grouping/persist/packed_map-inl.h:112-132 | the page then holds the same records with the new one at its place |
| `PageLayout.DroppedLayout` | page_grouping/persist/packed_map-inl.h:261-270 | dropping a slot keeps the layout and every other record |
| `PageLayout.ShrunkLayout` | page_grouping/persist/packed_map-inl.h:81-89 | a shorter payload in place keeps the layout |
| `PageLayout.ShrunkContent` | page_grouping/persist/packed_map-inl.h:81-89 | only the payload of that record changes |
| `PageCompaction.RebuildStep` | page_grouping/persist/packed_map-inl.h:516-533 | copying the next record below the previous one extends a gapless copy of the page |
| `PageCompaction.RebuildDone` | page_grouping/persist/packed_map-inl.h:164-175 | a finished copy has the same records and exactly the predicted free space |
| `PageCompaction.BufferStep` | page_grouping/persist/packed_map-inl.h:583-598 | the same for the copy built in a buffer |
| `PageSearch.ScanMisses` | page_grouping/persist/packed_map-inl.h:309-362 | where all smaller keys end and all larger ones begin is where a scan from the left stops, without finding the key |
| `PageSearch.RangeEncloses` | page_grouping/persist/packed_map-inl.h:439-453 | with fresh hints everything before the hinted range is smaller and everything after it larger than the key |
| `PageSearch.PartialUpdate` | page_grouping/persist/packed_map-inl.h:279-289 | rewriting only the later hints after an insertion leaves what rewriting all of them would |
| `PageSearch.AppendSamples` | page_grouping/persist/packed_map-inl.h:224-226 | an append samples the directory without the new slot |
| `PageSearch.AppendFresh` | page_grouping/persist/packed_map-inl.h:224-226 | after an append the hints sample the whole directory evenly if and only if both distances sample the same heads |
| `PageSearch.AppendServesIff` | page_grouping/persist/packed_map-inl.h:224-226 | after an append every stored slot is in the range that the hints leave to its search if and only if each hint has the head of the last slot before the one it stands for |
| `PageSearch.AppendHidesKey` | page_grouping/persist/packed_map-inl.h:224-226 | after 34 appends of one-byte keys the condition fails and the search for the key in slot 17 is sent to slots 32 and 33 |
| `PackedPage.SearchedVisible` | page_grouping/persist/packed_map-inl.h:309-362 | whatever the hints, a search finds exactly the keys whose slots are in the range they leave |
| `PackedPage.AllVisibleIff` | page_grouping/persist/packed_map-inl.h:309-362 | all stored keys are found if and only if the hints mislead no search for one |
| `StaleHints.LookupMisses` | page_grouping/persist/packed_map-inl.h:204-228 | 34 appends to an empty page after which a lookup reports a stored key as absent |
| `PackedPage.InsertedSound` | page_grouping/persist/packed_map-inl.h:112-132 | storing a record keeps layout, heads and prefix, and inserts exactly that record |
| `PackedPage.RebuiltSound` | page_grouping/persist/packed_map-inl.h:164-175 | rebuilding keeps records, heads and prefix and leaves the predicted free space |
| `PackedPage.EntriesInsert` | page_grouping/persist/packed_map-inl.h:33-55 | inserting a record with a new key adds its entry to the map |
| `PackedPage.EntriesUpdate` | page_grouping/persist/packed_map-inl.h:77-110 | a new payload replaces the entry |
| `PackedPage.EntriesRemove` | page_grouping/persist/packed_map-inl.h:261-270 | removing a record removes its entry |
| `PackedPage.SearchedScan` | page_grouping/persist/packed_map-inl.h:309-362 | a search that the hints have not misled answers like a scan over the whole keys |
| `PackedPage.FencedPrefix` | page_grouping/persist/packed_map.h:34-42 | keys between the fences start with their common prefix |
| `PackedMap.PageInNumbers` | page_grouping/persist/packed_map.h:158-204 | a page of 4096 bytes has a directory from byte 116 on with room for 398 slots |
| `PackedMap.PackedMap.WithFences` | page_grouping/persist/packed_map-inl.h:17-31 | an empty map with those fences, whose prefix is their longest common one |
| `PackedMap.PackedMap.SetFences` | page_grouping/persist/packed_map-inl.h:177-190 | both fences stored without gaps and their longest common prefix found |
| `PackedMap.PackedMap.MakeHint` | page_grouping/persist/packed_map-inl.h:272-277 | the hints sample the directory evenly |
| `PackedMap.PackedMap.UpdateHint` | page_grouping/persist/packed_map-inl.h:279-289 | samples again from the computed hint on and keeps the earlier ones |
| `PackedMap.PackedMap.SearchHint` | page_grouping/persist/packed_map-inl.h:439-453 | the two loops give the range of the reference |
| `PackedMap.PackedMap.BinarySearch` | page_grouping/persist/packed_map-inl.h:334-361 | finds the key in the range or splits the range into smaller and larger keys |
| `PackedMap.PackedMap.LowerBound` | page_grouping/persist/packed_map-inl.h:309-362 | with fresh hints the slot where a scan over the whole keys stops, and whether it has the key, for every key; whatever the hints, finds exactly the visible keys |
| `PackedMap.PackedMap.Get` | page_grouping/persist/packed_map-inl.h:291-307 | returns the stored payload, and finds a key if and only if it is stored in a slot that the hints do not hide |
| `PackedMap.PackedMap.StoreKeyValue` | page_grouping/persist/packed_map-inl.h:112-132 | writes slot, key and payload just below the heap |
| `PackedMap.PackedMap.RemoveSlot` | page_grouping/persist/packed_map-inl.h:261-270 | removes exactly that record and samples the hints again |
| `PackedMap.PackedMap.Remove` | page_grouping/persist/packed_map-inl.h:253-259 | removes the entry and reports whether there was one |
| `PackedMap.PackedMap.CopyKeyValueRange` | page_grouping/persist/packed_map-inl.h:512-541 | the destination becomes a gapless copy of all records |
| `PackedMap.PackedMap.Compactify` | page_grouping/persist/packed_map-inl.h:164-175 | same records and fences, fresh hints, exactly the predicted free space; the overflow flag is lost |
| `PackedMap.PackedMap.RequestSpaceFor` | page_grouping/persist/packed_map-inl.h:141-149 | succeeds if and only if the bytes fit without gaps, and changes no record |
| `PackedMap.PackedMap.RemoveFromHeapAndCompact` | page_grouping/persist/packed_map-inl.h:557-609 | the other records survive, gapless, with exactly the predicted free space |
| `PackedMap.PackedMap.HandleDuplicateInsertion` | page_grouping/persist/packed_map-inl.h:77-110 | replaces the payload, failing without a change if and only if the longer payload does not fit without gaps |
| `PackedMap.PackedMap.InsertAt` | page_grouping/persist/packed_map-inl.h:49-54 | a record in a new slot; fresh hints stay fresh |
| `PackedMap.PackedMap.Insert` | page_grouping/persist/packed_map-inl.h:33-55 | stores the entry, failing without a change if and only if it does not fit without gaps; keeps the page sorted and the hints fresh |
| `PackedMap.PackedMap.UpdateOrRemove` | page_grouping/persist/packed_map-inl.h:57-75 | replaces the payload of a stored key and succeeds if and only if the key is there and the payload fits; otherwise leaves the key absent |
| `PackedMap.PackedMap.CanAppend` | page_grouping/persist/packed_map-inl.h:230-251 | the sign of comparing a key with the last one |
| `PackedMap.PackedMap.AppendLast` | page_grouping/persist/packed_map-inl.h:224-227 | the record behind the last one, and exactly when the hints are fresh and when they hide no key |
| `PackedMap.PackedMap.Append` | page_grouping/persist/packed_map-inl.h:204-228 | stores the entry, failing if and only if a new record would not fit; afterwards lookups find every stored key if and only if the condition on the directory before it holds |
| `PackedMap.PackedMap.Run` | page_grouping/persist/packed_map-inl.h:33-132 | over any run the page is the map that the operations describe, and each succeeds or fails as that map and the bytes left say |
| `Plr.Start` | page_grouping/plr/greedy.h:79-97 | the two extreme lines meet in the middle between the points |
| `Plr.StartCovers` | page_grouping/plr/greedy.h:79-97 | every line of the first cone is within the error of both points |
| `Plr.OfferNarrows` | page_grouping/plr/greedy.h:99-126 | an accepted point narrows the cone to lines within the error of it |
| `Plr.OfferCovers` | page_grouping/plr/greedy.h:99-126 | every line of the narrowed cone is within the error of every point so far |
| `Plr.FinishFits` | page_grouping/plr/greedy.h:128-133 | the line returned misses no point by more than the error |
| `Plr.FinishRises` | page_grouping/plr/greedy.h:128-133 | over rising points the line returned rises |
| `Plr.OfferGentle` | page_grouping/plr/greedy.h:99-126 | if positions rise by no more than keys, the middle of the cone stays no steeper than the diagonal |
| `Plr.OfferTracks` | page_grouping/plr/greedy.h:144-163 | a point is taken in, or it starts the next line with the last point |
| `Plr.FinishTracks` | page_grouping/plr/greedy.h:165-176 | the final line fits all points taken in, rises if there are two or more rising ones, is no steeper than they are dense, and starts no higher than between the first two |
| `Plr.StartExact` | page_grouping/plr/greedy.h:79-97 | the first cone has every line through its apex that is within the error of both points, and no other |
| `Plr.OfferExact` | page_grouping/plr/greedy.h:99-126 | taking points in, the cone stays exactly the lines through its apex that are within the error of all of them |
| `Plr.RefusedIff` | page_grouping/plr/greedy.h:99-126 | a point is refused if and only if none of those lines passes through it |
| `Plr.OfferRefusesIff` | page_grouping/plr/greedy.h:99-126 | a point is refused if and only if no line of the cone passes through it, and then the middle line is returned |
| `Plr.DiagonalFinish` | page_grouping/plr/greedy.h:128-133 | points on the diagonal give the diagonal |
| `KeyMapping.PageMonotone` | page_grouping/key.h:14-19 | larger keys are on later pages |
| `KeyMapping.FindLowerBoundary` | page_grouping/key.cc:54-104 | the smallest key of the page, if and only if the page is reached |
| `KeyMapping.SearchNotEmpty` | page_grouping/key.cc:85 | the search range is not empty if the page is reached and starts after the base key |
| `KeyMapping.SteepModelMissesLastPage` | page_grouping/key.cc:54-104 | a model for which the search ends before the first key of the last page |
| `KeyMapping.ComputePageLowerBoundaries` | page_grouping/manager_load.cc:75-100 | the first key of every page |
| `KeyMapping.BetweenBoundaries` | page_grouping/manager_load.cc:191-213 | a key is on a page exactly if it lies between the boundaries |
| `KeyMapping.PlaceRecords` | page_grouping/manager_load.cc:187-219 | every record is placed, in order, on the page that lookups go to |
| `KeyMapping.GetPageBoundsFor` | page_grouping/manager.cc:498-529 | exactly the keys of the page that the key is on |
| `SegmentModel.CutBounds` | page_grouping/segment_builder.cc:307-331 | the line crosses a bound within the error of that position |
| `SegmentModel.PageCount` | page_grouping/debug/pg_standalone.cc:22-71 | every page gets its goal of records give or take twice the error |
| `SegmentModel.PageIsReached` | page_grouping/key.h:14-19 | a line that rises by at most a page between neighbouring keys, and starts on the first two pages, passes over no page |
| `SegmentBuilder.LineIsGood` | page_grouping/plr/greedy.h:165-176 | the line of the greedy regression fits the records, rises, is no steeper than one position per key and starts at the first |
| `SegmentBuilder.SteepLineMissesPage` | page_grouping/segment_builder.cc:158-170 | a line within the error of its records, but steeper than they are dense, that passes over a page |
| `SegmentBuilder.SegmentBuilder.CutBy` | page_grouping/segment_builder.cc:130-186 | with any rising line that fits the records and starts on the first two pages: as many pages as the line fills, the records before it reaches their end, or a single page of its goal; every page gets its share, and no page is passed over if the line rises by at most a page per key |
| `SegmentBuilder.StraightCuts` | page_grouping/segment_builder.cc:107-170 | consecutive keys are taken in up to the limit, where the largest segment is cut off |
| `SegmentBuilder.SegmentBuilder.ComputeSegmentSizeIndex` | page_grouping/segment_builder.cc:287-305 | the largest segment that the line fills |
| `SegmentBuilder.SegmentBuilder.ComputeNumRecordsInSegment` | page_grouping/segment_builder.cc:307-332 | splits the records where the line reaches the end of the segment |
| `SegmentBuilder.SegmentBuilder.CreateSegmentUsing` | page_grouping/segment_builder.cc:334-350 | takes the records off the front |
| `SegmentBuilder.SegmentBuilder.TryAbsorb` | page_grouping/segment_builder.cc:107-130 | takes the record into the model, or returns a line that fits all records so far and passes over no page; refuses exactly at the record limit, the key limit or where the regression does |
| `SegmentBuilder.SegmentBuilder.Offer` | page_grouping/segment_builder.cc:83-186 | emits nothing exactly if the record joins the model or the single page, and otherwise first the segment that the line cuts off; emitted and held records are the held ones and the new one, in order; every page of the segments gets its share and can be found |
| `SegmentBuilder.SegmentBuilder.DrainRemainingRecordsAndReset` | page_grouping/segment_builder.cc:258-285 | nothing is lost or reordered when the rest is offered again, and the recursion ends |
| `SegmentBuilder.SegmentBuilder.Finish` | page_grouping/segment_builder.cc:188-256 | everything held is emitted, in order, in well-built segments, the first of which is the one that the final line cuts off |
| `SegmentBuilder.SegmentBuilder.CurrentBaseKey` | page_grouping/segment_builder.cc:359-366 | the smallest key that is not emitted yet |
| `SegmentBuilder.SegmentBuilder.BuildFromDataset` | page_grouping/segment_builder.cc:64-81 | the segments of a dataset hold exactly its records, in order; consecutive keys that exceed the record limit begin with a segment of 16 pages |
| `SegmentBuilder.LoadIntoNewSegment` | page_grouping/manager_load.cc:178-232 | every built segment, whatever goal and error, is laid out so that each record is on the page that lookups go to |
| `SegmentFile.RoomForAll` | page_grouping/persist/segment_file.h:157-169 | room for one page of a segment is room for all of it |
| `SegmentFile.SegmentFile.ExpandToIfNeeded` | page_grouping/persist/segment_file.h:157-169 | grows a file that is too short by the fewest steps of 256 pages |
| `SegmentFile.SegmentFile.AllocateSegment` | page_grouping/persist/segment_file.h:142-148 | a new segment lies wholly inside the file and behind all earlier ones |
| `SegmentFile.SegmentIdParts` | page_grouping/persist/segment_id.h:22-49 | an id gives back the file and the offset that it was made of |
| `SegmentFile.PageLockIdInjective` | page_grouping/lock_manager.cc:197-203 | no two pages of any segments share a lock id |
| `LockManager.GrantableCounts` | page_grouping/lock_manager.h:22-32 | the counters decide as the compatibility table does |
| `LockManager.LockManager.TryAcquireSegmentLock` | page_grouping/lock_manager.cc:16-57 | grants if and only if no lock that is held conflicts; the counters count the holders |
| `LockManager.LockManager.ReleaseSegmentLock` | page_grouping/lock_manager.cc:59-93 | takes one holder off and keeps no state without holders |
| `LockManager.LockManager.BeginUpgrade` | page_grouping/lock_manager.cc:95-108 | the reorganisation lock becomes exclusive; done exactly if there is no reader |
| `LockManager.LockManager.UpgradeComplete` | page_grouping/lock_manager.cc:110-121 | when the wait ends the upgraded lock is the only one |
| `LockManager.LockManager.TryAcquirePageLock` | page_grouping/lock_manager.cc:124-154 | shared with shared, exclusive with nothing |
| `LockManager.LockManager.ReleasePageLock` | page_grouping/lock_manager.cc:167-191 | takes one holder off |
| `SegmentIndex.HasAt` | page_grouping/segment_index.cc:269-282 | each entry is in the index with the next lower bound as its upper bound |
| `SegmentIndex.SegmentIndex.SegmentForKey` | page_grouping/segment_index.cc:23-26 | the segment whose bounds enclose the key |
| `SegmentIndex.SegmentIndex.NextSegmentForKey` | page_grouping/segment_index.cc:45-54 | the segment with the smallest lower bound above the key, if there is one |
| `SegmentIndex.SegmentIndex.FindRewriteRegion` | page_grouping/segment_index.cc:83-121 | a gapless region around the segment: neighbours with overflow pages, as far as the radius goes and no further |
| `SegmentIndex.SegmentIndex.FindNextOverflowRegion` | page_grouping/segment_index.cc:131-157 | the first maximal region of segments with overflow pages in the range |
| `SegmentIndex.SegmentIndex.StillValid` | page_grouping/segment_index.cc:209-224 | accepts exactly if the segments are still there one after the other, with lower bound, id, overflow flag and model as they were seen |
| `SegmentProtocol.EntryUnique` | page_grouping/segment_index.cc:251-282 | segments that share a key are the same |
| `SegmentProtocol.EntryFor` | page_grouping/segment_index.cc:260-267 | every key belongs to a segment |
| `SegmentProtocol.NextIsAdjacent` | page_grouping/segment_index.cc:56-75 | the next segment begins where this one ends |
| `ProtocolInvariant.LocksStep` | page_grouping/lock_manager.cc:16-122 | every step keeps the granted locks within the compatibility table |
| `ProtocolQuiet.QuietStep` | page_grouping/segment_index.cc:28-75 | locking, validating, reading and upgrading keep the invariant |
| `ProtocolQuiet.AcceptedIn` | page_grouping/segment_index.cc:209-224 | an accepted region whose last upper bound still holds is in the index as it was seen |
| `ProtocolWrites.WriteStep` | page_grouping/manager.cc:332-345 | writing a record under a write lock keeps the invariant |
| `ProtocolWrites.SameStart` | page_grouping/manager_rewrite.cc:491-503 | the first new segment starts where the region did |
| `ProtocolWrites.BuildStep` | page_grouping/manager_rewrite.cc:370-453 | writing the new segments under free ids keeps the invariant |
| `ProtocolWrites.InvalidateStep` | page_grouping/manager_rewrite.cc:461-489 | invalidating an old segment under its exclusive lock keeps the invariant |
| `ProtocolWrites.InvalidateRestStep` | page_grouping/manager_rewrite.cc:509-525 | clearing an old segment after publication and release keeps the invariant |
| `ProtocolWrites.FreeStep` | page_grouping/manager_rewrite.cc:526-534 | freeing the old ids after the locks are released keeps the invariant |
| `ProtocolPublish.SwapEntries` | page_grouping/manager_rewrite.cc:494-503 | after the exchange every segment is a new one or was there before, outside the region |
| `ProtocolPublish.SwapKeepsOther` | page_grouping/manager_rewrite.cc:494-503 | a segment outside the region stays in the index with its bounds |
| `ProtocolPublish.PublishStep` | page_grouping/manager_rewrite.cc:491-507 | publishing keeps the invariant |
| `ProtocolPublish.SwapAsSeen` | page_grouping/manager_rewrite.cc:494-503 | a segment that was seen is out of the index or in it as it was, unless its id is that of a new one |
| `ProtocolTheorems.StepInv` | page_grouping/manager_rewrite.cc:154-534 | every step of every thread keeps the invariant |
| `ProtocolTheorems.RunInv` | page_grouping/manager_rewrite.cc:154-534 | so does every run |
| `ProtocolTheorems.LockedStaysIndexed` | page_grouping/segment_index.cc:28-75 | in every reachable state a locked segment is in the index with the bounds its holder saw |
| `ProtocolTheorems.NeverIndexedAndFree` | page_grouping/manager_rewrite.cc:491-534 | in every reachable state no id is both indexed and free |
| `ProtocolTheorems.ReadersSeeCurrent` | page_grouping/manager.cc:145-181 | in every reachable state who holds a segment finds in it exactly the current records of its range |
| `ProtocolTheorems.ScansTile` | page_grouping/manager_scan.cc:345-390 | in every reachable state each key between where a scan started and where it is lies in exactly one of the segments it visited, and the next one begins where they end |
| `ProtocolLocks.TableStep` | page_grouping/lock_manager.cc:16-122 | what a step acquires and releases leaves a table that counts the holders |
| `ProtocolLocks.TableCounts` | page_grouping/lock_manager.cc:16-122 | over every run the lock table counts exactly the holders of each lock, and has a lock if and only if a thread holds it |
| `ProtocolLocks.AllReleased` | page_grouping/manager_scan.cc:345-390 | once every thread is done, every lock that was taken has been released |
| `ProtocolLocks.CanGrantIff` | page_grouping/lock_manager.h:22-32 | the lock manager grants from its table what the protocol grants from the holders |
| `ProtocolTheorems.WaitingOnlyDrains` | page_grouping/lock_manager.cc:95-122 | while an upgrade waits nobody becomes a reader |
| `ProtocolTheorems.UpgradedIsAlone` | page_grouping/lock_manager.cc:95-122 | an upgraded lock is the only one on its segment until it is released |
| `ProtocolTheorems.RunWrites` | page_grouping/manager_rewrite.cc:154-534 | what a run changes is what its steps were told to write: single records, and the records given to each rewrite that publishes |
| `ProtocolTheorems.RewritesLoseNothing` | page_grouping/manager_rewrite.cc:455-507 | over any run the records are those at its start overlaid by what the steps were told to write, and each segment holds the current ones of its range |
| `ProtocolTheorems.RewriteHoldsAll` | page_grouping/manager_rewrite.cc:455-507 | until it publishes, a rewrite has every current record of its region under the additional ones that it was given |
| `ProtocolTheorems.ValidationExact` | page_grouping/segment_index.cc:209-224 | an accepted region is what was seen if and only if its last upper bound still holds |
| `ProtocolTheorems.ValidatedAsSeen` | page_grouping/segment_index.cc:172-237 | in every reachable state an accepted region is what was seen if no rewrite has used one of its ids again |
| `ProtocolConserved.StepKept` | page_grouping/manager_rewrite.cc:370-534 | every step keeps each id where its owner says and forgets none |
| `ProtocolConserved.EveryIdOnce` | page_grouping/manager_rewrite.cc:370-534 | over every run each id that was ever used is free, in the index or owned by a rewrite, and only one of these |
| `ProtocolConserved.NothingLeaks` | page_grouping/manager_rewrite.cc:509-534 | once every thread is done each id is either in the index or free |
| `ProtocolProgress.NeverStuck` | page_grouping/lock_manager.cc:95-122 | a thread that is not done can go on, or is a rewrite that waits for a reader who can |
| `ProtocolProgress.NoDeadlock` | page_grouping/manager_rewrite.cc:154-534 | from every reachable state there is a run after which all threads are done |
| `ProtocolProgress.CanStart` | page_grouping/segment_index.cc:28-75 | when nobody else is at work every key can be read, written and its segment rewritten |
| `ProtocolProgress.CanRewrite` | page_grouping/segment_index.cc:172-237 | when nobody else is at work every region can be locked and is accepted |
| `ProtocolProgress.WhoMayJoin` | page_grouping/lock_manager.h:22-32 | with whom readers, writers and rewrites share a segment |
| `ProtocolProgress.NobodyJoins` | page_grouping/lock_manager.cc:95-122 | nobody joins a rewrite that has upgraded its locks |
| `ProtocolRecycled.ValidationMissesUpper` | page_grouping/segment_index.cc:209-224 | a run after which a fully locked region is accepted although its upper bound is wrong |
| `RecordMerge.MergeSorted` | page_grouping/manager_rewrite.cc:93-125 | a merge of sorted records is sorted |
| `RecordMerge.MergeOverlays` | page_grouping/manager_rewrite.cc:93-125 | it holds the older records overlaid by the newer ones |
| `RecordMerge.MergePage` | page_grouping/manager_rewrite.cc:424-437 | one page and the additional records before its last key, in merge order |
| `RecordMerge.MergeRegion` | page_grouping/manager_rewrite.cc:370-447 | feeding page after page and then the rest is the merge of the whole region |
| `RecordMerge.MergeTake` | page_grouping/pg_db_impl.cc:211-262 | merging the first n of each side gives the first n of the whole merge |
| `RecordMerge.GetRange` | page_grouping/pg_db_impl.cc:211-270 | the first n records of the merge, and every cache entry is unlocked once |
| `PageMerge.FromKeySplits` | page_grouping/persist/page.cc:249-253 | of records in order, seeking keeps exactly those whose keys are not below the key |
| `PageMerge.MergedKeeps` | page_grouping/persist/merge_iterator.h:61-70 | the records of page and overflow page together, none dropped |
| `PageMerge.MergedInOrder` | page_grouping/persist/merge_iterator.h:96-107 | in key order |
| `PageMerge.RowsSortedIff` | page_grouping/persist/merge_iterator.h:61-107 | each key comes once if and only if page and overflow page share none |
| `PageMerge.RowsOverlay` | page_grouping/persist/merge_iterator.h:61-107 | and then the records are those of both |
| `PageMerge.SharedKeyComesTwice` | page_grouping/persist/merge_iterator.h:61-107 | an update on the overflow page comes behind the old record |
| `PageMerge.RowsFromKey` | page_grouping/persist/merge_iterator.h:18-28 | from a key on the iterator yields the same records, in the same order unless two share a key |
| `PageMerge.StartSwapsSharedKeys` | page_grouping/persist/merge_iterator.h:18-28 | two records that share a key and swap when the iterator starts at it |
| `PageMerge.PageMergeIterator.constructor` | page_grouping/persist/merge_iterator.h:18-28 | what is left is the merge of the pages, from the key on if one is given |
| `PageMerge.PageMergeIterator.Next` | page_grouping/persist/merge_iterator.h:61-70 | one record less is left |
| `PageMerge.PageMergeIterator.RecordsLeft` | page_grouping/persist/merge_iterator.h:88-94 | how many are left |
| `StoreScan.StoreInOrder` | page_grouping/manager_scan.cc:13-75 | the records of a store are in key order |
| `StoreScan.ScanIsOf` | page_grouping/manager_scan.cc:13-75 | the first page from the key on and everything behind it are exactly the records at or above the key |
| `StoreScan.ScanRows` | page_grouping/manager_scan.cc:97-113 | appends the records of a page and its overflow page, from a key on if one is given, while any are wanted |
| `StoreScan.ScanPage` | page_grouping/manager_scan.cc:119-145 | the same for a whole page, which has to be locked |
| `StoreScan.WhereScansStart` | page_grouping/manager_scan.cc:13-75 | everything before the first page scanned is below the start key |
| `StoreScan.ScanWithEstimates` | page_grouping/manager_scan.cc:13-241 | the first of exactly the records at or above the start key, in key order, whatever the estimate, and no page stays locked |
| `StoreScan.ScanWhole` | page_grouping/manager_scan.cc:243-391 | the same by whole segments |
| `PageChain.WriteBatch` | page_grouping/manager.cc:332-440 | writes the longest prefix of a batch that fits to the page and the rest to its overflow page; if that is not allowed, stops there, counts the records written and leaves the overflow page alone |
| `PageChain.BatchOutcome` | page_grouping/manager.cc:332-440 | the records before the first that does not fit are on the page, one by one, and the rest behind them or nowhere |
| `PageChain.ReadsLastIff` | page_grouping/manager.cc:332-417 | after a batch lookups find the last values if and only if nothing was spilled whose key is on the page with another value |
| `PageChain.OneRecordIff` | page_grouping/manager.cc:332-389 | a single record is found if and only if it fits on the page or its key is not there |
| `PageChain.LongerUpdateIsHidden` | page_grouping/manager.cc:156-163 | an update that has outgrown the page is not found |
| `PageChain.LaterUpdateIsHidden` | page_grouping/manager.cc:397-417 | an update that would fit is not found after a new key was spilled |
| `PageChain.ApartIff` | page_grouping/manager.cc:332-417 | page and overflow page share no key after a batch if and only if no kept key was on the overflow page and no spilled key is on the page |
| `MemTable.TagParts` | db/memtable.h:109-115 | a tag is the sequence number times 256, and one more for a delete; it gives back the write type |
| `SkipLevels.CompareIsOrder` | db/memtable.cc:85-117 | the comparison orders by key and puts the higher sequence number first |
| `SkipLevels.InsertLinked` | util/inlineskiplist.h:908-914 | linking a node behind its place threads it into the level |
| `SkipList.ContainedIsSubsequence` | util/inlineskiplist.h:270-281 | each level is a subsequence of the one below |
| `SkipList.SkipList.FindSpliceForLevel` | util/inlineskiplist.h:701-728 | walks to the place of the record at one level |
| `SkipList.SkipList.RecomputeSpliceLevels` | util/inlineskiplist.h:730-740 | finds the neighbours at all lower levels |
| `SkipList.SkipList.RecomputeHeight` | util/inlineskiplist.h:801-844 | a level from which the splice brackets the record |
| `SkipList.SkipList.InsertThrough` | util/inlineskiplist.h:742-941 | puts the record where the list stays sorted, or reports that its key and tag are there; every splice stays usable |
| `SkipList.SkipList.FindGreaterOrEqual` | util/inlineskiplist.h:457-492 | finds the first record that is not before the given one |
| `MemTable.MemTable.Add` | db/memtable.cc:51-83 | records the write under the next number, or a deferred one under its own as far as the granularity allows |
| `MemTable.MemTable.Get` | db/memtable.cc:29-39 | finds the last genuine write of the key, or else the deferred one with the highest tag |
| `MemTable.MemTable.Next` | db/memtable.cc:144-166 | moves past all records of the key to where the next one starts |
| `MemTable.StartIsNewest` | db/memtable.cc:144-180 | the record that a key starts with is that of its newest entry |
| `MemTable.NewestIsLastWrite` | db/memtable.cc:51-83 | the newest entry of a key that was written is its last write |
| `MemTable.LastWriteIsNewest` | db/memtable.cc:51-83 | the last write of a key is its newest entry, whatever was deferred |
| `MemTable.DeferredKeeps` | db/memtable.h:36-40 | a deferred entry leaves what is read unless that is deferred itself with a lower tag |
| `MemTable.DeferredCanReplace` | db/memtable.h:36-40 | a deferred entry that replaces another |
| `HashQueue.HashQueue.Enqueue` | util/hash_queue.h:52-72 | the items with the new one at the back |
| `HashQueue.HashQueue.Dequeue` | util/hash_queue.h:76-102 | takes the front item |
| `HashQueue.HashQueue.Delete` | util/hash_queue.h:114-142 | takes an item out from wherever it is |
| `HashQueue.HashQueue.MoveToBack` | util/hash_queue.h:147-184 | moves an item to the back, or puts it there |
| `HashQueue.ChainCut` | util/hash_queue.h:124-134 | unlinking a node takes exactly it out of the list |
| `BufferPool.TwoQueue.Insert` | bufmgr/twoqueue_eviction.cc:22-34 | into the first queue the first time, into the second from then on |
| `BufferPool.TwoQueue.Delete` | bufmgr/twoqueue_eviction.cc:37-45 | out of the queue that the flags tell |
| `BufferPool.TwoQueue.Evict` | bufmgr/twoqueue_eviction.cc:49-62 | the front of the first queue, else of the second, with its flags cleared |
| `BufferPool.EvictShows` | bufmgr/buffer_manager.cc:98-118 | evicting an unfixed frame changes nothing that clients see |
| `BufferPool.FreeIffRoom` | bufmgr/buffer_manager.cc:98-112 | there is an unfixed frame if and only if fewer pages are fixed than there are frames |
| `BufferManager.BufferManager.FixPage` | bufmgr/buffer_manager.cc:72-140 | fails exactly if all frames hold other fixed pages; otherwise the frame has the current contents and the page is fixed once more; whether it was found, or which frame was emptied and written out for it, and all other frames, queues and pages on disk as they were |
| `BufferManager.BufferManager.UnfixPage` | bufmgr/buffer_manager.cc:143-152 | the page is fixed once less and keeps its contents; its dirty flag is raised if asked and it joins a queue when it is not fixed any more |
| `BufferManager.BufferManager.FlushAndUnfixPage` | bufmgr/buffer_manager.cc:156-159 | the same after writing the page out: the disk has its data and no other page of the disk changes |
| `BufferManager.BufferManager.FlushDirty` | bufmgr/buffer_manager.cc:166-181 | no frame is dirty and no other field of a frame changes; exactly the dirty pages are written to the disk |
| `BufferManager.BufferManager.IncreaseNumPages` | bufmgr/buffer_manager.cc:212-220 | that many empty frames more, at the back of the first queue, same contents |
| `BufferManager.BufferManager.DecreaseNumPages` | bufmgr/buffer_manager.cc:226-253 | as many frames fewer as are unfixed and wanted, those that waited longest, and exactly their dirty pages are written out; same contents |
| `BufferManager.BufferManager.AdjustNumPages` | bufmgr/buffer_manager.cc:198-207 | the wanted size, or the number of fixed pages if that is more |
| `BufferManager.BufferManager.Run` | bufmgr/buffer_manager.cc:72-253 | over every run clients see what the operations do to the page contents, fix counts and pool size alone |
| `BufferManager.FixReadsLast` | bufmgr/buffer_manager.cc:72-140 | fixing a page reads what was last written to it |

## Left out

- The PGM strategy of the segment builder, which is its default (segment_builder.h:36, pg_options.h:95): its library is not part of this model; the greedy strategy is. What holds with any regression is stated by `SegmentBuilder.SegmentBuilder.CutBy`.
- File I/O, fsync, direct I/O, checksums of segments, crash recovery of rewrites and the thread pool: pages are values, and a parallel write is one step.
- `initial_offset` and the corruption reporter of the log reader, files that cannot be opened, the version numbers and discarding of log files.
- ProtocolWrites.WriteStep: a segment's contents are one map, and one record write is one step under its page lock; what a batch does to a page and its overflow page is the subject of `PageChain`.
- The circular page buffer and the reuse of the read buffer in `RewriteSegmentsImpl`: the record stream is modelled instead.
- Back-off, the limit of 1000 lock attempts and 16-bit lock counters: a rewrite may give up at any time before validation, and counters are unbounded.
- ProtocolTheorems.StepInv: the validation of a region one of whose ids was used again since it was seen is not a step; `ProtocolRecycled.ValidationMissesUpper` shows what it would accept.
- ProtocolTheorems.ValidatedAsSeen: takes validation to compare lower bounds and ids only, which accepts all that the code accepts.
- PackedMap.PackedMap.CopyKeyValueRange: copies into a map with the same prefix, which is the only use in the source.
- SegmentIndex.SegmentIndex.FindRewriteRegion: requires a lower bound at or above the base, as the source asserts; collects in key order instead of sorting afterwards.
- RecordMerge.GetRange: returns the records that the source appends to its output vector.
- PageMerge.PageMergeIterator.constructor: moves to the first key that is not below the start key, which is where `PackedMap.PackedMap.LowerBound` leads with fresh hints.
- RecordMerge.MergeRegion: its map result is for pages that share no key with their overflow pages; see `PageMerge.RowsSortedIff` for what their iterator yields otherwise.
- StoreScan.ScanWithEstimates: says nothing about how many pages are read ahead of need, which changes no result.
- HashQueue.HashQueue.Enqueue: requires an item that is not in the queue, as its callers ensure; nodes are entries of a map.
- BufferManager.BufferManager.FixPage: sequential, so that a missing frame is a failure instead of a wait; page ids are allocated ones.
- BufferManager.BufferManager.UnfixPage: requires that who changed a page and is the last to give it up says so.
- MemTable.MemTable.Add: requires sequence numbers below 2^56, the limit that memtable.h:113-114 states.
- Concurrent (compare-and-swap) insertion into the skip list, its arena, random heights (a parameter) and memory orderings.
- Deletes through the record cache and the record cache itself.
- Prefetching scans, insert forecasting, statistics, options and tools.
- Floating-point rounding, 64-bit overflow of keys and 32-bit overflow of lengths.
