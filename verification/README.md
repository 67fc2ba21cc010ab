# Voron storage core, modelled in Dafny

This project models the bookkeeping at the heart of Voron, the storage engine
of RavenDB:

- **Free-space handling** (`free_space.dfy`). Reusable pages are kept in the
  free-space tree as 2048-bit sections, keyed by their big-endian section
  index. The model covers `FreePage` and `TryAllocateFromFreeSpace` with its
  small path (first-fit run inside one section, or a merge of a section's
  trailing run with the next section's leading run) and its large path
  (consecutive full sections plus a leading run of the next one). It proves
  that an allocation takes exactly free pages and nothing else. It proves that
  freeing them restores the tree's free set. It proves that the small and
  large paths find a fit whenever one of the shapes they look for exists.
- **Journal recovery** (`journal_reader.dfy`). This covers header validation,
  the page count of a transaction and the `ReadOneTransaction` step with all
  its exits. It also covers the page-translation table a replay builds, and
  the `RecoverAndValidate` loop, bounded by fuel.
- **Tree state** (`tree_state.dfy`). This covers the per-tree counters and
  `RecordNewPage`, `Clone`, `CopyTo` into the root header, and the
  write-transaction guard on `IsModified`.
- **Environment state** (`environment_state.dfy`). This covers `Clone` and
  `GetTree`, with case-insensitive names for the built-in trees `Root` and
  `Free Space`.
- **Node header** (`node_header.dfy`). This covers the packed header layout,
  node size with 32-bit wrap-around, and the four ways to reach a node's
  value.
- **Tree-and-key comparer** (`tree_slice_comparer.dfy`). This covers its
  equality and its 32-bit hash.
- **Memory-only pagers** (`pagers.dfy`). This covers the size rounding of the
  Win32 and Posix pagers, `AllocateMorePages` and the byte counts of
  `Write`/`WriteDirect`.

`clr_int.dfy` gives the .NET integer semantics the code relies on: truncating
`/` and `%`, and unchecked casts to `int` and `ushort`. `wrappers.dfy` holds
`Option` and `Result`.

Raw memory addresses, memory-mapped files, checksums and LZ4 are not modelled. Where an
operation needs them, they are parameters: functions from positions to
headers or pages, a CRC function, a decoder that may fail, and a page getter.

## Model

| member | source | states |
|---|---|---|
| ClrInt.Quot | Raven.Voron/Voron/Impl/Journal/JournalReader.cs:163 | C# `/` truncates toward zero: equal to Euclidean division for a non-negative dividend, and to the negated quotient of the negated dividend for a negative one |
| ClrInt.Rem | Raven.Voron/Voron/Impl/Journal/JournalReader.cs:163 | C# `%` takes the sign of the dividend: Euclidean remainder for non-negative dividends, negated remainder of the negation otherwise |
| ClrInt.ToInt32 | Raven.Voron/Voron/Trees/NodeHeader.cs:32 | an unchecked 32-bit result is in the `int` range, congruent to the exact value modulo 2^32, and equal to it when it fits |
| ClrInt.ToUInt16 | Raven.Voron/Voron/Trees/NodeHeader.cs:66-68 | the `(ushort)` cast lands in 0..65535, is congruent modulo 2^16, and keeps values that fit |
| FreeSpace.EndRange | Raven.Voron/Voron/Impl/FreeSpace/FreeSpaceHandling.cs:215 | the trailing run of set bits: all bits of the run are set and the bit before it, if any, is clear |
| FreeSpace.TakeRun | Raven.Voron/Voron/Impl/FreeSpace/FreeSpaceHandling.cs:195-207 | taking a run deletes the section when the run was all it held, otherwise clears exactly the run; other sections untouched, no key added, no empty section left |
| FreeSpace.FreePage | Raven.Voron/Voron/Impl/FreeSpace/FreeSpaceHandling.cs:268-276 | the section `page / 2048` is created if missing and gets bit `page % 2048` set; every other bit and section unchanged; the tree stays well formed with no empty section |
| FreeSpace.FreePageMarksOnlyThatPage | Raven.Voron/Voron/Impl/FreeSpace/FreeSpaceHandling.cs:268-276 | after `FreePage(page)` a page is free iff it is `page` or was free before |
| FreeSpace.FirstRunFrom | Raven.Voron/Voron/Impl/FreeSpace/FreeSpaceHandling.cs:172-190 | reference first fit: the lowest start from `a` with `num` set bits, and no run starts before it |
| FreeSpace.SkipNoRuns | Raven.Voron/Voron/Impl/FreeSpace/FreeSpaceHandling.cs:185-189 | resetting the run on a clear bit loses nothing: with no run starting in `[a, c)`, first fit from `a` and from `c` agree |
| FreeSpace.RunScan | Raven.Voron/Voron/Impl/FreeSpace/FreeSpaceHandling.cs:169-193 | from any state the start/count loop keeps (the last `count` bits set, `start` at their beginning), it returns exactly the first-fit run from the start of the pending run, as `FirstRunFrom` defines it |
| FreeSpace.ContinuousRange | Raven.Voron/Voron/Impl/FreeSpace/FreeSpaceHandling.cs:167-210 | succeeds iff the section holds a run of `num` free pages; returns the lowest such run and the tree with that run taken |
| FreeSpace.MergeTwoSections | Raven.Voron/Voron/Impl/FreeSpace/FreeSpaceHandling.cs:212-261 | succeeds iff the section has a non-empty trailing run `r` and the next section exists and starts with `num - r` free pages; returns page `id*2048 + 2048 - r` with both runs taken |
| FreeSpace.MergeReachedBelowNum | Raven.Voron/Voron/Impl/FreeSpace/FreeSpaceHandling.cs:148-160 | both calls of the merge happen with a trailing run shorter than `num` (fewer set bits than `num`, or no run of `num`) |
| FreeSpace.SmallScan | Raven.Voron/Voron/Impl/FreeSpace/FreeSpaceHandling.cs:138-165 | visiting sections in ascending order: no result iff no section's step succeeds; otherwise the result of the lowest section whose step succeeds |
| FreeSpace.RemoveSections | Raven.Voron/Voron/Impl/FreeSpace/FreeSpaceHandling.cs:118-121 | deleting the run's sections removes exactly the keys `start .. start+k-1` and keeps the other values |
| FreeSpace.Extend | Raven.Voron/Voron/Impl/FreeSpace/FreeSpaceHandling.cs:55-69 | after a full section `id` the run continues or restarts so that it ends just after `id` |
| FreeSpace.ExtendKeepsInvariant | Raven.Voron/Voron/Impl/FreeSpace/FreeSpaceHandling.cs:49-72 | the accumulated sections stay full, consecutive and below the unvisited ones |
| FreeSpace.CompletedRun | Raven.Voron/Voron/Impl/FreeSpace/FreeSpaceHandling.cs:74-123 | once `num / 2048` full sections are found the allocation is the run's first page, with the sections deleted and, for a remainder `e`, the next section's first `e` pages taken |
| FreeSpace.LargeScan | Raven.Voron/Voron/Impl/FreeSpace/FreeSpaceHandling.cs:32-128 | a result is always `num / 2048` consecutive full sections followed, for a remainder `e`, by a next section starting with `e` free pages, all of them taken |
| FreeSpace.TryAllocate | Raven.Voron/Voron/Impl/FreeSpace/FreeSpaceHandling.cs:11-30 | no tree or an empty tree gives nothing; a result takes exactly `num` pages that were free, from `page` on, leaves every other page as it was and keeps the tree valid |
| FreeSpace.TakeRunTakes | Raven.Voron/Voron/Impl/FreeSpace/FreeSpaceHandling.cs:195-207 | taking a run inside one section takes exactly those pages and keeps the tree valid |
| FreeSpace.SmallScanSound | Raven.Voron/Voron/Impl/FreeSpace/FreeSpaceHandling.cs:138-165 | every small-path result takes exactly `num` free pages |
| FreeSpace.SmallStep | Raven.Voron/Voron/Impl/FreeSpace/FreeSpaceHandling.cs:144-160 | on a valid tree, one step of the small path, in-section or merged, takes exactly `num` free pages and leaves the tree valid |
| FreeSpace.MergeSound | Raven.Voron/Voron/Impl/FreeSpace/FreeSpaceHandling.cs:212-261 | the merged run spans the section boundary without a gap and takes exactly `num` free pages |
| FreeSpace.LargeScanSound | Raven.Voron/Voron/Impl/FreeSpace/FreeSpaceHandling.cs:32-128 | every large-path result takes exactly `num` free pages and keeps the tree valid |
| FreeSpace.LargeSound | Raven.Voron/Voron/Impl/FreeSpace/FreeSpaceHandling.cs:74-123 | deleting the full sections and clearing the next section's leading bits takes exactly the pages `page .. page+num-1` |
| FreeSpace.FullSectionFree | Raven.Voron/Voron/Impl/FreeSpace/FreeSpaceHandling.cs:49 | a section that counts 2048 set bits has every page free |
| FreeSpace.TakesPages | Raven.Voron/Voron/Impl/FreeSpace/FreeSpaceHandling.cs:11-30 | read page by page: allocated pages were free and no longer are, all others keep their state |
| FreeSpace.FreePages | Raven.Voron/Voron/Impl/FreeSpace/FreeSpaceHandling.cs:268-276 | freeing a range page by page keeps the tree well formed |
| FreeSpace.FreePagesMarks | Raven.Voron/Voron/Impl/FreeSpace/FreeSpaceHandling.cs:268-276 | after freeing `p .. p+n-1` a page is free iff it was free or lies in the range |
| FreeSpace.TakesStartsAtFreePage | Raven.Voron/Voron/Impl/FreeSpace/FreeSpaceHandling.cs:11-30 | an allocated page number is never negative |
| FreeSpace.TakesThenFreeRestores | Raven.Voron/Voron/Impl/FreeSpace/FreeSpaceHandling.cs:268-276 | freeing exactly the taken pages gives back the free set from before |
| FreeSpace.AllocateThenFreeRestores | Raven.Voron/Voron/Impl/FreeSpace/FreeSpaceHandling.cs:11-30 | round trip: allocate `num` pages, free them one by one, and the free pages are exactly those before the allocation |
| FreeSpace.SmallFindsInSectionFit | Raven.Voron/Voron/Impl/FreeSpace/FreeSpaceHandling.cs:138-165 | a request below a section never fails while some section holds a run of that many free pages |
| FreeSpace.SmallFindsMergeFit | Raven.Voron/Voron/Impl/FreeSpace/FreeSpaceHandling.cs:144-160 | a request below a section never fails while some section's non-empty trailing run, shorter than the request, is completed by the next section's leading free pages |
| FreeSpace.FreeThenAllocateOne | Raven.Voron/Voron/Impl/FreeSpace/FreeSpaceHandling.cs:11-30 | after freeing a page a one-page request succeeds; on an empty tree it returns that very page and leaves the tree empty |
| FreeSpace.OnlyRunSetConverse | Raven.Voron/Voron/Impl/FreeSpace/FreeSpaceHandling.cs:195-197 | a section with a single set bit counts one, so taking that page deletes the section |
| FreeSpace.FullHasStartRange | Raven.Voron/Voron/Impl/FreeSpace/FreeSpaceHandling.cs:97 | a full section offers any leading run up to 2048 pages |
| FreeSpace.LargeScanComplete | Raven.Voron/Voron/Impl/FreeSpace/FreeSpaceHandling.cs:41-128 | despite its resets the large path succeeds whenever `num / 2048` consecutive full sections exist followed by a section with the remaining leading pages |
| FreeSpace.LargeFindsFullSections | Raven.Voron/Voron/Impl/FreeSpace/FreeSpaceHandling.cs:11-30 | a request of a section or more succeeds when such full sections exist |
| FreeSpace.BigEndian | Raven.Voron/Voron/Impl/FreeSpace/FreeSpaceHandling.cs:86 | `EndianBitConverter.Big.GetBytes` yields `n` bytes, each in 0..255 |
| FreeSpace.KeyLessAppend | Raven.Voron/Voron/Impl/FreeSpace/FreeSpaceHandling.cs:19-21 | byte-wise key order: equal-length prefixes decide, the next byte breaks ties |
| FreeSpace.BigEndianOrder | Raven.Voron/Voron/Impl/FreeSpace/FreeSpaceHandling.cs:221 | big-endian encodings of in-range numbers are equal iff the numbers are, and order as the numbers do |
| FreeSpace.SectionKeyOrder | Raven.Voron/Voron/Impl/FreeSpace/FreeSpaceHandling.cs:271 | section keys are unique and sort as section indexes, so iterating the tree visits sections in ascending order |
| JournalReader.NewReader | Raven.Voron/Voron/Impl/Journal/JournalReader.cs:38-47 | a new reader starts at page 0 with the recovery cursor at `recoverPage`, the given previous header, no header update demanded and an empty translation table |
| JournalReader.ValidateHeader | Raven.Voron/Voron/Impl/Journal/JournalReader.cs:223-245 | a header passes iff its id is non-negative, a committed header has a non-negative last page and, with pages, a non-zero CRC, a compressed one a positive size, and its id is 1 or follows the previous id; the gap error carries the expected and actual ids |
| JournalReader.PagesFromSize | Raven.Voron/Voron/Impl/Journal/JournalReader.cs:161-164 | for a non-negative size the page count is the ceiling: the fewest pages that hold `size` bytes, zero for zero; a negative size above minus one page counts one page, and minus one page counts minus one |
| JournalReader.ReadPages | Raven.Voron/Voron/Impl/Journal/JournalReader.cs:93-121 | one entry per page of the transaction, each tagged with its id and recording the page number, overflow flag and overflow page count of the image at its offset; the first at the current cursor, each next one a page or an overflow span later; the cursor ends after the last |
| JournalReader.Collect | Raven.Voron/Voron/Impl/Journal/JournalReader.cs:91-121 | the per-transaction dictionary enumerates each page number once and holds exactly the enumerated keys |
| JournalReader.CollectKeys | Raven.Voron/Voron/Impl/Journal/JournalReader.cs:120 | a page number is in the per-transaction table iff the transaction read it |
| JournalReader.CollectKeepsLast | Raven.Voron/Voron/Impl/Journal/JournalReader.cs:120 | a page read twice keeps the position read last |
| JournalReader.RemoveSpan | Raven.Voron/Voron/Impl/Journal/JournalReader.cs:135-138 | dropping an overflow value's covered pages removes exactly `k+1 .. k+n-1` and keeps other entries |
| JournalReader.ApplyFrame | Raven.Voron/Voron/Impl/Journal/JournalReader.cs:127-140 | a page neither written nor covered by the transaction keeps its table entry, or its absence |
| JournalReader.ApplyRemovesSpanned | Raven.Voron/Voron/Impl/Journal/JournalReader.cs:131-139 | a page covered by one of the transaction's overflow values and not written by it leaves the table |
| JournalReader.ApplyWrites | Raven.Voron/Voron/Impl/Journal/JournalReader.cs:127-130 | a written page that no overflow value of the transaction covers maps to the position recorded for it |
| JournalReader.ApplyTransactionEffect | Raven.Voron/Voron/Impl/Journal/JournalReader.cs:127-140 | the merge's effect on every page number: written and uncovered, covered and unwritten, or neither |
| JournalReader.Apply | Raven.Voron/Voron/Impl/Journal/JournalReader.cs:127-140 | every entry after the merge loop was there before or is the per-transaction table's entry for that page |
| JournalReader.ApplyTransaction | Raven.Voron/Voron/Impl/Journal/JournalReader.cs:91-140 | every entry after merging a transaction was there before or is a position the transaction recorded for that same page number |
| JournalReader.ApplyTransactionRecordsLast | Raven.Voron/Voron/Impl/Journal/JournalReader.cs:91-140 | a page number the transaction read and none of its overflow values covers maps to the position recorded at its last read |
| JournalReader.ReadOneTransaction | Raven.Voron/Voron/Impl/Journal/JournalReader.cs:53-143 | stopping leaves table, last header and recovery cursor alone; continuing means a committed, valid header inside the file, the position moved past header and payload, and that header recorded; an exception is the validation error of a marked header |
| JournalReader.StopsAtLimit | Raven.Voron/Voron/Impl/Journal/JournalReader.cs:55-59 | at the end of the file or the read limit the step returns false and changes nothing |
| JournalReader.MarkerEndsScan | Raven.Voron/Voron/Impl/Journal/JournalReader.cs:188-204 | a page without the marker ends the scan and demands a header update iff its marker is not zero |
| JournalReader.BadTransactionDemandsHeaderUpdate | Raven.Voron/Voron/Impl/Journal/JournalReader.cs:74-84 | an uncommitted header, a CRC mismatch or a failed decompression ends the scan with a header update demanded |
| JournalReader.SyncedTransactionIsSkipped | Raven.Voron/Voron/Impl/Journal/JournalReader.cs:67-72 | an already synced transaction moves the position but leaves table and recovery cursor |
| JournalReader.AcceptedIdsAreGapless | Raven.Voron/Voron/Impl/Journal/JournalReader.cs:237-244 | an accepted id is non-negative and is 1 or its predecessor's plus one |
| JournalReader.ReplayRecordsTransaction | Raven.Voron/Voron/Impl/Journal/JournalReader.cs:74-140 | after a replay the payload exists, and every table entry is either unchanged or records, with the replayed id, the payload image at its offset from the recovery cursor, which carries that entry's page number |
| JournalReader.ReplayRecordsPage | Raven.Voron/Voron/Impl/Journal/JournalReader.cs:74-140 | after a replay a page number the transaction read, not covered by one of its overflow values, is in the table at the position of its last read, whose payload image carries that number |
| JournalReader.StepKeepsTableAfterSynced | Raven.Voron/Voron/Impl/Journal/JournalReader.cs:67-72 | a step never adds an entry for a transaction at or before the last synced one |
| JournalReader.LaterTransactionWins | Raven.Voron/Voron/Impl/Journal/JournalReader.cs:127-140 | a page rewritten by a later transaction maps to that transaction, whatever the table held |
| JournalReader.FuelIsEnough | Raven.Voron/Voron/Impl/Journal/JournalReader.cs:166-171 | a scan that finished or failed gives the same outcome with more fuel |
| JournalReader.RecoverAndValidate | Raven.Voron/Voron/Impl/Journal/JournalReader.cs:166-171 | a scan that does not fail ends with its starting last header or a committed, marked header with a non-negative id; a failure is the validation error of some marked header |
| JournalReader.RecoveryKeepsTableAfterSynced | Raven.Voron/Voron/Impl/Journal/JournalReader.cs:166-171 | the whole scan keeps only entries newer than the last synced transaction |
| JournalReader.RecoveryTerminates | Raven.Voron/Voron/Impl/Journal/JournalReader.cs:166-171 | with non-negative sizes the loop ends within one step per remaining page |
| JournalReader.RecoveryFromNewReader | Raven.Voron/Voron/Impl/Journal/JournalReader.cs:166-171 | a recovery from a new reader keeps only entries newer than the last synced transaction, and with non-negative sizes ends within one step per page of the file |
| JournalReader.NegativeSizeStalls | Raven.Voron/Voron/Impl/Journal/JournalReader.cs:65-71 | a synced transaction 1 whose size is minus one page is read again forever |
| TreeState.KindOf | Raven.Voron/Voron/Trees/TreeMutableState.cs:66-78 | a page counts as branch if flagged so, else as leaf, else as overflow |
| TreeState.RecordNewPage | Raven.Voron/Voron/Trees/TreeMutableState.cs:63-79 | page count up by one; branch or leaf counter up by one, or overflow counter up by `num`, per the first matching flag; nothing else changes |
| TreeState.RecordNewPageBalance | Raven.Voron/Voron/Trees/TreeMutableState.cs:63-79 | the page count stays the sum of the three counters iff the page is charged to one of them and an overflow value is one page |
| TreeState.Clone | Raven.Voron/Voron/Trees/TreeMutableState.cs:47-61 | the clone keeps every persisted field and is neither modified nor in a write transaction |
| TreeState.CopyTo | Raven.Voron/Voron/Trees/TreeMutableState.cs:34-45 | each of the nine persisted fields (flags, branch, leaf and overflow pages, depth, page count, entries, root page, key prefixing) lands unchanged in the header field of the same name |
| TreeState.CopyToKeepsPersistentFields | Raven.Voron/Voron/Trees/TreeMutableState.cs:34-45 | two states give the same header iff they agree outside the transient fields; reading the header back gives the clone |
| TreeState.CloneThenCopyTo | Raven.Voron/Voron/Trees/TreeMutableState.cs:34-61 | a clone persists as its original, and cloning is idempotent |
| TreeState.SetIsModified | Raven.Voron/Voron/Trees/TreeMutableState.cs:23-32 | refused iff outside a write transaction; otherwise sets only the flag |
| TreeState.SetIsModifiedIsTransient | Raven.Voron/Voron/Trees/TreeMutableState.cs:23-45 | the flag never reaches the header, and the last assignment wins |
| TreeState.CloneRefusesModification | Raven.Voron/Voron/Trees/TreeMutableState.cs:28-29 | a clone refuses the setter |
| EnvironmentState.NewState | Raven.Voron/Voron/Impl/StorageEnvironmentState.cs:16-21 | the constructor stores the two trees and the page number, options unset |
| EnvironmentState.CloneTree | Raven.Voron/Voron/Impl/StorageEnvironmentState.cs:27-28 | null stays null, a tree becomes its clone |
| EnvironmentState.Clone | Raven.Voron/Voron/Impl/StorageEnvironmentState.cs:23-32 | both trees cloned, page number and options shared |
| EnvironmentState.CloneComposes | Raven.Voron/Voron/Impl/StorageEnvironmentState.cs:23-32 | cloning with the identity changes nothing; cloning twice clones each tree twice |
| EnvironmentState.FoldCase | Raven.Voron/Voron/Impl/StorageEnvironmentState.cs:44-48 | upper-case letters fold to lower case, other characters stay |
| EnvironmentState.FoldCaseSameLetter | Raven.Voron/Voron/Impl/StorageEnvironmentState.cs:44-48 | two characters fold alike iff they are equal or the same letter in two cases |
| EnvironmentState.EqualsIgnoreCase | Raven.Voron/Voron/Impl/StorageEnvironmentState.cs:44-47 | two names are equal ignoring case iff they have the same length and, position by position, are the same character or the same ASCII letter in its two cases |
| EnvironmentState.EqualsIgnoreCaseIsEquivalence | Raven.Voron/Voron/Impl/StorageEnvironmentState.cs:44-48 | case-insensitive name equality is reflexive, symmetric and transitive |
| EnvironmentState.GetTree | Raven.Voron/Voron/Impl/StorageEnvironmentState.cs:34-54 | the empty-name error iff the name is null or empty; a tree the transaction opened wins; "No such tree" only in a read transaction |
| EnvironmentState.BuiltInTreesIgnoreCase | Raven.Voron/Voron/Impl/StorageEnvironmentState.cs:44-48 | `root`, `ROOT`, `free space`… select the built-in trees when not opened under that exact name |
| EnvironmentState.OtherNamesCreateOrFail | Raven.Voron/Voron/Impl/StorageEnvironmentState.cs:50-53 | another name creates the tree with the options' key-prefix choice in a write transaction and fails with "No such tree: name" in a read one |
| EnvironmentState.ReadingMissingTreeFails | Raven.Voron/Voron.Tests/Trees/MultipleTrees.cs:61-75 | a read transaction asking for `test` fails with exactly "No such tree: test" |
| EnvironmentState.CloneServesClonedBuiltIns | Raven.Voron/Voron/Impl/StorageEnvironmentState.cs:23-48 | a cloned state returns the clones of the original built-in trees |
| NodeHeader.HeaderLayout | Raven.Voron/Voron/Trees/NodeHeader.cs:11-27 | `DataSize` overlaps the low bytes of `PageNumber` and is exactly as wide as the 32-bit wrap `DataSize` applies; flags, key size and version do not overlap and end at byte 13 |
| NodeHeader.DataSize | Raven.Voron/Voron/Trees/NodeHeader.cs:14-18 | the data size is the low 32 bits of the stored word, equal to the page number when that fits |
| NodeHeader.GetNodeSize | Raven.Voron/Voron/Trees/NodeHeader.cs:29-33 | a page reference takes header, key and slot; an inline value adds its size when the 32-bit sum does not wrap |
| NodeHeader.DirectAccess | Raven.Voron/Voron/Trees/NodeHeader.cs:35-43 | an overflow value starts right after its page's header; an inline value ends where the node's offset slot begins |
| NodeHeader.GetDataSize | Raven.Voron/Voron/Trees/NodeHeader.cs:82-90 | the length is the size the overflow page records, or the room the node has between its key and its offset slot |
| NodeHeader.Reader | Raven.Voron/Voron/Trees/NodeHeader.cs:45-57 | the reader covers the region that starts at `DirectAccess` and is `GetDataSize` long: after the overflow page's header for a page reference, and between key and offset slot for an inline value |
| NodeHeader.GetData | Raven.Voron/Voron/Trees/NodeHeader.cs:59-69 | refused iff the value is on an overflow page longer than 65535 bytes; any slice length is a 16-bit count |
| NodeHeader.AccessorsAgree | Raven.Voron/Voron/Trees/NodeHeader.cs:35-90 | `Reader` is `DirectAccess` plus `GetDataSize`, and `GetData` gives the same region when the length fits 16 bits |
| NodeHeader.NegativeOverflowSizeWraps | Raven.Voron/Voron/Trees/NodeHeader.cs:64-66 | an overflow size of -1 passes the check and wraps to length 65535 |
| NodeHeader.InlineValueFillsNode | Raven.Voron/Voron/Trees/NodeHeader.cs:29-57 | an inline value starts after header and key and ends at the offset slot |
| NodeHeader.PageRefSizeIgnoresValue | Raven.Voron/Voron/Trees/NodeHeader.cs:29-33 | page-reference nodes with equal keys take the same room whatever the value |
| NodeHeader.MemCopy | Raven.Voron/Voron/Trees/NodeHeader.cs:77-79 | the destination's first `length` bytes come from the source, the rest stay |
| NodeHeader.CopyTo | Raven.Voron/Voron/Trees/NodeHeader.cs:72-80 | corrected: the destination receives the `GetDataSize` bytes at `DirectAccess`, nothing else changes |
| NodeHeader.CopyToAsWritten | Raven.Voron/Voron/Trees/NodeHeader.cs:72-80 | as written: the first `DataSize` destination bytes always come from the node after its key; for a page reference only the overflow bytes past them survive; other bytes stay |
| NodeHeader.CopyToAgreesInline | Raven.Voron/Voron/Trees/NodeHeader.cs:72-80 | for an inline value the code as written and the corrected copy agree |
| NodeHeader.CopyToOverwritesOverflowValue | Raven.Voron/Voron/Trees/NodeHeader.cs:74-79 | for a page reference the code as written leaves a wrong first byte |
| TreeSliceComparer.Equals | Raven.Voron/Voron/Impl/TreeAndSliceComparer.cs:9-20 | two nulls are equal, null and non-null are not, different trees are not, same tree iff keys compare to zero |
| TreeSliceComparer.EqualsIsEquivalence | Raven.Voron/Voron/Impl/TreeAndSliceComparer.cs:9-20 | with an equivalence-respecting `Compare` the comparer is an equivalence relation |
| TreeSliceComparer.HashCode | Raven.Voron/Voron/Impl/TreeAndSliceComparer.cs:22-25 | a hash exactly for non-null pairs |
| TreeSliceComparer.EqualPairsHashAlike | Raven.Voron/Voron/Impl/TreeAndSliceComparer.cs:9-25 | pairs the comparer calls equal hash alike, the contract `IEqualityComparer` demands |
| TreeSliceComparer.HashSeparatesTrees | Raven.Voron/Voron/Impl/TreeAndSliceComparer.cs:24 | for one key, hashes differ iff the tree hashes do (XOR by the same mask is injective) |
| Pagers.NearestSizeToAllocationGranularity | Raven.Voron/Voron/Platform/Win32/Win32PageFileBackedMemoryMappedPager.cs:268-275 | for a non-negative size, the least positive multiple of the granularity holding the size; zero gives one granularity unit |
| Pagers.NearestSizeToPageSize | Raven.Voron/Voron/Platform/Posix/PosixTempMemoryMapPager.cs:54-65 | sixteen system pages for zero, a multiple of the system page kept as it is, and for a positive size the least multiple of the system page holding it |
| Pagers.RoundUpIsLeast | Raven.Voron/Voron/Platform/Posix/PosixTempMemoryMapPager.cs:64 | rounding a non-multiple up to the next multiple gives the least cover |
| Pagers.MultipleIsLeast | Raven.Voron/Voron/Platform/Posix/PosixTempMemoryMapPager.cs:59-63 | a positive multiple is its own least cover |
| Pagers.NewWin32Pager | Raven.Voron/Voron/Platform/Win32/Win32PageFileBackedMemoryMappedPager.cs:27-42 | the total is the least cover of the initial size, or one granularity unit without one; the page count is the total over the page size |
| Pagers.NewPosixPager | Raven.Voron/Voron/Platform/Posix/PosixTempMemoryMapPager.cs:34-52 | the total is sixteen system pages without an initial size, else its least cover; page count consistent |
| Pagers.AllocateMorePages | Raven.Voron/Voron/Platform/Win32/Win32PageFileBackedMemoryMappedPager.cs:70-109 | a rounded request within the total changes nothing; a larger one makes it the total, with the page count following |
| Pagers.AllocationNeverShrinks | Raven.Voron/Voron/Platform/Posix/PosixTempMemoryMapPager.cs:72-109 | the total never shrinks, ends as the larger of old total and rounded request, and pages stay consistent |
| Pagers.AllocateMorePagesIdempotent | Raven.Voron/Voron/Platform/Win32/Win32PageFileBackedMemoryMappedPager.cs:73-76 | repeating a request changes nothing more |
| Pagers.RoundKeepsMultiple | Raven.Voron/Voron/Platform/Win32/Win32PageFileBackedMemoryMappedPager.cs:270-272 | both roundings leave a positive multiple of their unit unchanged |
| Pagers.GrowingByFactorScalesPages | Raven.Voron/Voron.Tests/Storage/MemoryMapWithoutBackingPagerTest.cs:90-95 | growing to `k` times an aligned total multiplies the page count by `k` |
| Pagers.DoublingDoublesPages | Raven.Voron/Voron.Tests/Storage/MemoryMapWithoutBackingPagerTest.cs:131-141 | each doubling request doubles the page count, `n` of them multiply it by 2^n |
| Pagers.WriteDirect | Raven.Voron/Voron/Platform/Win32/Win32PageFileBackedMemoryMappedPager.cs:112-120 | the byte count is the 32-bit product of pages and page size, exact when it fits |
| Pagers.Write | Raven.Voron/Voron/Platform/Win32/Win32PageFileBackedMemoryMappedPager.cs:60-68 | a plain page writes one page of bytes, an overflow value its page count times the page size, whenever that fits in 32 bits |

## Findings

| source | as written | input that shows it | evidently intended | confidence | as-written member | corrected member |
|---|---|---|---|---|---|---|
| Raven.Voron/Voron/Trees/NodeHeader.cs:72-80 | for a `PageRef` node the overflow value is copied to `dest`, then the inline copy runs too (no `else`) and writes `DataSize` bytes, the low half of the page number, from the node's key area over it | a `PageRef` node with page number 5 and a 100-byte overflow value: the first 5 destination bytes come from the node, not the value | copy the overflow value only, as `Reader` and `GetData` do for the same node | medium, not executed | NodeHeader.CopyToAsWritten, NodeHeader.CopyToOverwritesOverflowValue | NodeHeader.CopyTo |

## Left out

- Memory mapping, `PagerState` reference counting, `VirtualAlloc`/`mmap`, file allocation and the `OutOfMemoryException` of both pagers are not modelled. Only the size bookkeeping is, and allocation is taken to succeed.
- CRC-32 and LZ4 are opaque. They are parameters of the journal file, and decompression may fail (`None`).
- `StreamBitArray` is not part of this model. Its `SetCount`, `HasStartRangeCount` and `GetEndRangeCount` are given the meaning their names state, over a 2048-bit sequence.
- The B+tree behind the free-space tree is a map from section index to bitmap. Iteration visits keys in ascending index order, which `FreeSpace.SectionKeyOrder` justifies under unsigned byte-wise key comparison.
- FreeSpace.TryAllocate: requires `num >= 1`. A request for zero or fewer pages never reaches the allocator. The iterator's failed seek on a non-empty tree is not a separate case.
- `AllPages` (a plain tree read) is not modelled.
- FreeSpace.FreePage: takes a non-negative page number. For a negative one the code would set a negative bit index, which is not modelled; the allocator only hands out non-negative pages (`FreeSpace.TakesStartsAtFreePage`).
- NodeHeader.MemCopy: a negative byte count is taken to copy nothing. `Memory.Copy` is not part of this model, so what it does with a negative count (the `DataSize` of a `PageRef` node whose page number has bit 31 set, or a negative overflow size) is an assumption that decides the frame clauses of `NodeHeader.CopyTo` and `NodeHeader.CopyToAsWritten` in those cases.
- `AbstractPager.PageSize`, `Constants.PageHeaderSize`, `GetNumberOfOverflowPages` and the allocation granularity or system page size are parameters, not constants.
- JournalReader.ReadPages: an image read past the copied payload is a zeroed page rather than whatever the recovery buffer held. `EnsureContinuous` and the zeroing of the buffer are not modelled.
- JournalReader.Collect: the per-transaction `Dictionary` is taken to enumerate its keys in first-insertion order. .NET does so for a dictionary that never had a key removed, but does not document it; the order matters only when an overflow value of a transaction covers another page that transaction wrote.
- JournalReader.RecoverAndValidate is bounded by fuel. `JournalReader.RecoveryTerminates` gives enough fuel for headers with non-negative sizes, and `JournalReader.NegativeSizeStalls` shows the loop need not end otherwise.
- `InvokeRecoveryError` callbacks and the messages of thrown exceptions are not modelled, except "No such tree: ". `SetStartPage`, `MaxPageToRead` as a setter and `ToString` are not modelled.
- 64-bit wrap-around of the tree counters and page numbers is not modelled. The counters are unbounded integers.
- EnvironmentState.EqualsIgnoreCase: case folding covers ASCII letters only. The invariant culture's folding of other letters is not modelled, nor its other equivalences, such as ignorable code points: a name with an added soft hyphen (U+00AD) can compare equal to the name without it.
- `tx.ReadTree` is a lookup in the trees the transaction opened. `CreateTree` and `ShouldUseKeyPrefix` are parameters.
- TreeSliceComparer.HashCode: a null pair has no hash (`None`), where the code throws. Tree and key hashes and `Compare` are parameters.
- `PageFlags` and `TreeFlags` are not modelled as enums. Page flags are three booleans, and tree flags an integer copied as is.
- The `float` size in `TreeMutableState.ToString` is not modelled.
- Win32JournalWriter, FileHeader and TransactionToShip are context, not part of this model.
