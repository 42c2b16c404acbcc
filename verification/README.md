# A verified model of the storage engine

The engine keeps an index-organized B+ tree in one database file. Its pages are 4096-byte slotted pages, its free
pages hang on a chain of freelist pages, its log is written by group commit, and a buffer pool with ARC replacement
caches pages. This project models those parts in Dafny and proves what they promise, layer on layer:

- **Slotted page** (`Bytes`, `Pages`, `PageBytes`, `Compaction`, `SlottedPage`). `Pages` says what each operation does
  to a page seen as a list of live records and tombstones; the class `SlottedPage` edits one byte array in place, with
  the header and slot layout of the original, and is proved to do the same. Compaction moves records inside that one
  buffer.
- **Disk** (`DiskManager`). The file is a list of page images. The chain of freelist pages is proved to be a plain
  stack of page ids, through reopening too.
- **Tree** (`Levels`, `Trees`, `TreeEdits`, `TreeMap`, `Cascade`, `Splits`, `Growth`, `LeafSplits`, `StrictMinKey`,
  `SplitWitnesses`, `BPlusTree`, `TreeRuns`). A tree is described level by level, from the leaves up: a level's pages,
  read left to right, list (key, child) pairs, and those name the level below, each page under its own first key.
  Well-formed means: keys strictly ascend on every level, all leaves are on level 0, no page is at two places, the
  links of the leaves are the leaf list and its reverse, and every record lies below the next separator and, except in
  the leftmost leaf, not below its own. Strict min-key asks that of the leftmost leaf too. The class `BPlusTree` reads
  pages from the file, edits them as slotted pages and writes them back; its operations are proved against the one list
  of all records, which is also a map. `TreeRuns` is about whole runs of operations.
- **Range scans** (`RangeScan`, `Iterator`). The iterator object, with re-seeking by the last key returned.
- **Log** (`FlushProtocol`, `FlushProgress`, `LogManager`, `Crc32c`). The group-commit protocol is a state machine whose
  steps are the atomic actions between lock operations, taken by any number of threads in any order, with the system
  writing back or losing unsynced bytes as it likes. `FlushProgress` is about when its calls return. The class builds
  records in the append buffer and flushes them; each of its calls is proved to be a run of the protocol. CRC32C is the
  polynomial of section 12.1 of RFC 3720.
- **Replacement and buffer pool** (`Arc`, `ArcRuns`, `ArcReplacer`, `BufferPool`, `PoolRuns`). `Arc` says on plain
  values what each replacer operation does, `ArcRuns` what whole runs of them lead to; the class does it in place.
  `PoolRuns` is about whole runs of requests to the pool.
- **Codec** (`Numeric`, `Schema`, `Tuple`). Columns, schemas and tuples written through moving cursors.

Integers are unbounded; every width the code depends on is written out: 16-bit slot fields and record lengths, the
32-bit product that addresses a page, the 64-bit pin count, the 16-bit sizes the codec reports.

## Where the code and its comments part

The model follows the code. These differences are proved; where the code can do other than what is meant, so is the
exact condition under which it does not:

- `insertRecord` takes its slot number before it compacts. It keeps the other records if and only if the contiguous
  gap suffices (`Pages.InsertExact`); otherwise it can overwrite one (`Pages.InsertLosesRecord`).
- `updateRecord` does not look for tombstones: on one of matching size the new bytes land on the page header
  (`SlottedPages.SlottedPage.UpdateRecord`).
- The page header is 40 bytes, because its LSN has 8; the comments in `storage/slotted_page.h` count 4.
- The descent sends keys below the leftmost separator to the first child without lowering that separator. A later
  split of that leaf is sound if and only if the pivot's key is above the separator (`LeafSplits.SplitExact`); a tree
  with a full leaf where it is not exists (`SplitWitnesses.SmallKeysDefeatTheCut`). A tree with strict
  min-key at every slot keeps it when a record is stored if and only if that record is not below the leftmost separator
  (`BPlusTrees.BPlusTree.Insert`, `StrictMinKeys.InsertKeepsStrict`); splits and removals always keep it.
- Strict min-key at every slot is not enough for a sound split. Under it a leaf that is not the root can be split soundly
  if and only if it has a live record to cut at and the cut is not both its first record and filed under its own key
  (`StrictMinKeys.StrictSplitExact`); a tree with such a leaf and a record that does not fit it exists
  (`SplitWitnesses.StrictIsNotEnough`).
- The walk to the pivot ends if and only if the leaf has a live record (`Splits.WalkEndsExactly`). A first record of
  4053 up to 65531 bytes in an empty tree is refused by its leaf, which has none, so that insert never returns
  (`SplitWitnesses.FirstInsertTooLong`).
- A leaf that is the root and has no live record left of the pivot is split all the same, and the new root gets an empty
  first key. That root is an internal page if and only if there was such a record (`LeafSplits.RootSplitExact`); after
  the first insert into an empty tree there is none (`SplitWitnesses.FirstInsertLeavesNothingLeft`).
- `get` of an absent key returns an empty record instead of nothing exactly when the key compares equal to the key of
  no bytes and its leaf has no live key at or above it (`BPlusTrees.BPlusTree.Get`).
- `insert` on a full leaf splits it, returns true, and does not store the record
  (`BPlusTrees.BPlusTree.Insert`).
- `insert` of a key that is already there leaves a tree that is not well-formed (`TreeEdits.InsertEffect`).
- `flush_to` returns when `flushedLSN` reaches the target, and `flushedLSN` is the next LSN, so the record with the
  target's own LSN need not be durable (`FlushProtocol.TargetDurable`, `FlushProtocol.OwnLsnNotDurable`). A call
  with a target above the next LSN does not return until more is appended (`FlushProtocol.ReturnsOnlyWhenReached`,
  `FlushProgress.TooFarNeverReturns`); when no call has such a target, all return within a bounded number of steps
  (`FlushProgress.EveryFlushReturns`).
- A ghost entry outlives its place in the ghost lists when a miss pops it. After any run an access aborts if and only
  if its frame is not alive and the run has popped its page (`ArcRuns.AbortsExactly`; `ArcRuns.StaleAborts` is such a
  run).
- The target size is not capped. One access keeps it within the capacity under the condition of
  `ArcRuns.TargetStaysWithin`, and runs take it as high as one likes (`ArcRuns.TargetUnbounded`).
- A guard returned after a miss has not pinned its frame. When it is dropped the 64-bit pin count wraps, and the frame
  is never evictable again: with guards held one at a time a new pool serves the first pages that fill it and refuses
  every other page for good (`PoolRuns.ServeNew`).
- `insertRecord` and `insertRecordAt` add up length and slot size in 16 bits. Lengths of 65532 and more wrap to 0 up to
  3 and pass the space check exactly under the condition of `Pages.LongRecordPasses`.
- `Column::Serialize` reports its size in 16 bits, so a name of 65525 bytes or more breaks the schema's round trip
  (`Schemas.SchemaRoundTrip`).

## Model

| member | source | states |
|---|---|---|
| Pages.InsertAtRefinesList | storage/slotted_page.cpp:170-205 | with or without compaction the record lands at the rank its position had among the live slots, the others in order around it; without compaction the slot array just opens at the position; refused exactly when empty, out of range or larger than the total free space, and then nothing changes |
| Pages.InsertPlaces | storage/slotted_page.cpp:111-138 | an unpositioned insert takes the first dead slot or a new last one, and is refused exactly for an empty record or one that needs more than the total free space; then nothing changes |
| Pages.RankAfterCompact | storage/slotted_page.cpp:178-186 | counting the live slots before a position gives that position's place once compaction has renumbered the slots |
| Pages.TotalFreeIs | storage/slotted_page.cpp:340-354 | the total free space is the page less the live records with their slot entries and less the heap bytes no slot accounts for |
| Pages.CompactedFree | storage/slotted_page.cpp:277-318 | compaction keeps header fields, records and their order, leaves exactly one slot per record, and its gap is at least the total free space reported before it |
| Pages.ValidDelete | storage/slotted_page.cpp:214-220 | deleting succeeds exactly on a live slot, takes exactly that record out of the list, and keeps the layout |
| Pages.InsertExact | storage/slotted_page.cpp:111-138 | an unpositioned insert adds its record to those already there if and only if the contiguous gap suffices |
| Pages.InsertLosesRecord | storage/slotted_page.cpp:115-136 | a page and a record on which the slot number chosen before compaction overwrites another record afterwards |
| Pages.LongRecordPasses | storage/slotted_page.cpp:115-118 | for lengths whose 16-bit sum with the slot size wraps: the space check passes if and only if a slot is needed and the few bytes it wraps to are free |
| Pages.InsertAppends | storage/slotted_page.cpp:111-138 | on a page without tombstones a record that fits the gap goes to the end of the slot array |
| Pages.MovingNeverFails | storage/slotted_page.cpp:111-138 | any selection of a valid page's records goes to a fresh page one by one without a refusal, in order |
| PageBytes.WfIsValid | storage/slotted_page.h:74-104 | a buffer that meets the byte layout (slot array below the heap, live records disjoint, every slot paid for) shows a valid page |
| PageBytes.LayoutIs | storage/slotted_page.h:74-104 | where each header field and each slot stands in the bytes and how it reads: offsets 0, 20, 22, 24, 28, 32, and four bytes per slot from 40 on |
| Bytes.LowByteFirst | storage/slotted_page.h:74-104 | 16-bit and 32-bit fields stand low byte first and read as the number written |
| PageBytes.InsertEditRefines | storage/slotted_page.cpp:188-204 | the byte edits of a positioned insert keep the layout and put exactly that record into the page |
| PageBytes.PushEditRefines | storage/slotted_page.cpp:126-128 | lowering the heap pointer and copying the record changes no slot and no live record |
| PageBytes.ReuseEditRefines | storage/slotted_page.cpp:126-136 | pointing a slot at the bytes just pushed changes that slot's record and nothing else |
| PageBytes.UpdateEditRefines | storage/slotted_page.cpp:245-252 | a same-length overwrite of a live record changes that record and nothing else |
| Compaction.NextMove | storage/slotted_page.cpp:294-301 | when its turn comes a record still has all its bytes, and its new place is at or above its old one |
| Compaction.PackingStep | storage/slotted_page.cpp:294-301 | one move in descending-offset order keeps all placed records and all records still to be moved |
| Compaction.PackedPage | storage/slotted_page.cpp:277-302 | after the moves the page reads as before and the heap holds exactly the live bytes |
| Compaction.LiveSlotsRead | storage/slotted_page.cpp:304-317 | the slots kept by the second pass read as the page's records in order |
| Compaction.CompactedPage | storage/slotted_page.cpp:277-318 | after the second pass the buffer is well laid out and shows exactly the compacted page |
| SlottedPages.SlottedPage.Init | storage/slotted_page.cpp:74-98 | formats any buffer as the empty page of that id and kind |
| SlottedPages.SlottedPage.GetSlotCount | storage/slotted_page.cpp:366-373 | the number of slots, dead ones included |
| SlottedPages.SlottedPage.GetRecord | storage/slotted_page.cpp:232-236 | the bytes of a live slot, nothing for a dead or missing one |
| SlottedPages.SlottedPage.GetFreeSpace | storage/slotted_page.cpp:326-330 | the contiguous gap between slot array and heap |
| SlottedPages.SlottedPage.GetTotalFreeSpace | storage/slotted_page.cpp:340-354 | the gap plus what tombstones hold, slot entries included |
| SlottedPages.SlottedPage.CanInsertContiguous | storage/slotted_page.cpp:356-364 | whether the gap takes the length, with a slot entry if one is needed |
| SlottedPages.SlottedPage.FindFirstFree | storage/slotted_page.h:151-159 | the first dead slot, or the slot count |
| SlottedPages.SlottedPage.InsertRecord | storage/slotted_page.cpp:111-138 | does in place what the page view's insert says, with the slot number chosen before compaction |
| SlottedPages.SlottedPage.InsertRecordAt | storage/slotted_page.cpp:170-205 | does in place what the page view's positioned insert says, result and page both |
| SlottedPages.SlottedPage.LiveBefore | storage/slotted_page.cpp:179-183 | counts the live slots in front of a position |
| SlottedPages.SlottedPage.DeleteRecord | storage/slotted_page.cpp:214-220 | tombstones a live slot and nothing else |
| SlottedPages.SlottedPage.UpdateRecord | storage/slotted_page.cpp:245-252 | overwrites a live record of equal length; on a tombstone of equal size the bytes land on the page header |
| SlottedPages.SlottedPage.Compactify | storage/slotted_page.cpp:277-318 | turns the buffer in place into the compacted page |
| SlottedPages.SlottedPage.PackRecords | storage/slotted_page.cpp:277-302 | the first pass: every live record moved to the end of the page, in descending-offset order |
| SlottedPages.SlottedPage.DropTombstones | storage/slotted_page.cpp:304-317 | the second pass: a stable filter of the slot array |
| SlottedPages.SlottedPage.GetLeft | storage/slotted_page.cpp:385-388 | reads the left link |
| SlottedPages.SlottedPage.GetRight | storage/slotted_page.cpp:380-383 | reads the right link |
| SlottedPages.SlottedPage.SetLeft | storage/slotted_page.cpp:390-392 | changes the left link only |
| SlottedPages.SlottedPage.SetRight | storage/slotted_page.cpp:394-396 | changes the right link only |
| Trees.RouteStep | index/b_plus_tree.cpp:304-325 | the floor of an upper bound on one internal page names the level's only child that can hold the key |
| Levels.KeyOfWritten | index/b_plus_tree.cpp:41-64 | a record that starts with a number written in the key's width has that number as its key if and only if it fits, negative numbers included |
| Levels.KeyOfBytes | type/numeric_type.h:40-47 | keys are signed: the top byte counts from -128 to 127, each lower one adds its digit |
| Levels.PairBytesAre | index/b_plus_tree.cpp:297-325 | pair j of an internal page takes slots 2j and 2j + 1: the key, and the child's id in four bytes, low byte first |
| Trees.AroundLeaf | index/b_plus_tree.cpp:297-330 | every record left of the leaf reached has a smaller key and every record right of it a larger one |
| Trees.RecsSorted | index/b_plus_tree.cpp:297-330 | the records of a well-formed leaf level are in strictly ascending key order |
| Trees.LowerPosIsScan | index/b_plus_tree.cpp:363-390 | the leaf search's slot is the slot a scan from the left stops at, whenever a live key at or above the target exists |
| Trees.RankFinds | index/b_plus_tree.cpp:363-390 | in a sorted list the record at the rank of a key is the only one that can have it |
| Trees.PutSorted | index/b_plus_tree.cpp:398-428 | inserting at the rank keeps the list strictly sorted if and only if the key is new |
| TreeMaps.FindIsLookup | index/b_plus_tree.cpp:461-480 | looking a key up in the sorted list and in the map of its records is the same |
| TreeMaps.PutIsUpdate | index/b_plus_tree.cpp:398-428 | inserting a record with a new key is a map update |
| TreeMaps.WithoutIsRemoval | index/b_plus_tree.cpp:431-455 | removing a key is taking it out of the map |
| TreeMaps.SameMapSameList | index/b_plus_tree.cpp:398-480 | two trees whose records make the same map list the same records in the same order |
| TreeEdits.EmptyTree | storage/slotted_page.cpp:74-98 | a freshly formatted leaf is a well-formed tree without records |
| TreeEdits.TreeSorted | index/b_plus_tree.cpp:290-396 | all records of a well-formed tree, left to right, ascend strictly |
| TreeEdits.TreeLinks | index/b_plus_tree.cpp:534-577 | a leaf's right link is the next leaf of level 0 and its left link the one before, 2^32 - 1 at the two ends |
| TreeEdits.InsertEffect | index/b_plus_tree.cpp:398-428 | a leaf insert, compacting or not, puts the record at its sorted place in the whole list; the tree stays well-formed if and only if the key is new |
| TreeEdits.FindEffect | index/b_plus_tree.cpp:461-480 | a key is in the tree if and only if the slot found holds it, and that slot's bytes are the tree's record |
| TreeEdits.RemoveEffect | index/b_plus_tree.cpp:431-455 | tombstoning the slot found takes exactly that record out of the whole list and keeps the tree well-formed |
| Splits.PivotIsLive | index/b_plus_tree.cpp:526-532 | a page with a record has a pivot, and the part to move starts with the pivot's record |
| Splits.PivotIsFirst | index/b_plus_tree.cpp:526-532 | the pivot is the first live slot from the middle on, or the first of all when there is none from there on |
| Splits.WalkEndsExactly | index/b_plus_tree.cpp:526-532 | the walk with its wrapping slot number comes to a record if and only if the leaf has a live one |
| Splits.FindPivot | index/b_plus_tree.cpp:526-532 | the walk from the middle ends at the pivot, wrapping past slot 65535 when all live slots are below the middle |
| Splits.MoveTail | index/b_plus_tree.cpp:543-549 | the records from the pivot on are on the new page, the others stay packed on the old one, and no insert is refused |
| Splits.MovingStep | index/b_plus_tree.cpp:543-548 | moving one slot appends its record to the new page, which has room, and tombstones it on the old one |
| Cascade.SplitChained | index/b_plus_tree.cpp:534-577 | after a leaf split the right links still run through all leaves in order and the left links are their reverse |
| Cascade.LeafSplitOk | index/b_plus_tree.cpp:510-591 | a leaf split leaves the list of records as it was, and the leaf level well-formed when the new separator is above the old one |
| Cascade.CascadeSplit | index/b_plus_tree.cpp:638-656 | splitting an internal page leaves its level's pairs as they were and adds one entry to what the level above has to say |
| Cascade.HeadBetween | index/b_plus_tree.cpp:647-651 | the new page's separator falls strictly between its neighbours' |
| Cascade.CascadeJoin | index/b_plus_tree.cpp:719-783 | once the parent has the new pair the levels agree again |
| Growth.NodeSplit | index/b_plus_tree.cpp:619-656 | an internal page divided over itself and a new one: all levels in order but for the one above |
| Growth.NodeJoined | index/b_plus_tree.cpp:658-669 | after the recursive call the levels from the split one up are well-formed and list the same pairs |
| Growth.NewPages | index/b_plus_tree.cpp:719-760 | how many pages a cascade takes: one per full ancestor on the way and one for a new root; never more than the levels above and one more |
| Growth.GrownStep | index/b_plus_tree.cpp:719-783 | a change at one level followed by a cascade above it touches no page below and adds only new pages |
| Growth.SideOf | index/b_plus_tree.cpp:737-760 | comparing with the new page's first key picks the half that holds the entry before the new pair |
| Growth.RootPairs | index/b_plus_tree.cpp:695-701 | the new root's four entries read as the two pairs in key order |
| LeafSplits.DividedIs | index/b_plus_tree.cpp:510-577 | the three pages written by a leaf split: what each holds and how they are linked |
| LeafSplits.LeafJoined | index/b_plus_tree.cpp:579-586 | once the parent names the new leaf the tree is well-formed and has the same records |
| LeafSplits.StrictMinKeySplits | index/b_plus_tree.cpp:526-557 | when no record of the leaf is below its leaf's separator and there is one on either side of the pivot, the leaf can be split |
| StrictMinKeys.StrictEverywhere | index/b_plus_tree.cpp:493-509 | in a well-formed tree every key of every internal page is at most all keys reachable behind it if and only if no record is below the leftmost separator |
| StrictMinKeys.StrictSplitExact | index/b_plus_tree.cpp:526-586 | under strict min-key a leaf can be split if and only if it has a record to cut at and one left of the cut or, not being the root, a separator other than the cut's key |
| StrictMinKeys.SplitKeepsStrict | index/b_plus_tree.cpp:579-586 | a split keeps strict min-key and does not restore it |
| StrictMinKeys.InsertKeepsStrict | index/b_plus_tree.cpp:317-320 | an insert keeps strict min-key if and only if its key is not below the leftmost separator |
| StrictMinKeys.RemoveKeepsStrict | index/b_plus_tree.cpp:431-455 | a removal keeps strict min-key |
| LeafSplits.CutPlace | index/b_plus_tree.cpp:766-776 | the parent's search puts the new pair right after the split leaf's own if and only if the pivot's key is above its separator |
| LeafSplits.CutExact | index/b_plus_tree.cpp:317-320 | after the split some order of the leaves is well-formed if and only if the pivot's key is above the split leaf's separator |
| LeafSplits.SplitExact | index/b_plus_tree.cpp:510-783 | for any well-formed tree: wherever the parent's search puts the new leaf's pair, some order of the leaves is well-formed if and only if the cut is above the split leaf's separator |
| LeafSplits.LeafHasCut | index/b_plus_tree.cpp:526-532 | a leaf has a record to cut at if and only if it has a live record |
| LeafSplits.RootSplitExact | index/b_plus_tree.cpp:683-701 | for a leaf that is the root: the page built over its halves is an internal page if and only if a live record was left of the cut |
| Growth.RootBuiltExact | index/b_plus_tree.cpp:690-701 | the four inserts leave an internal page if and only if the first key has bytes; without them three entries of the wrong kinds |
| SplitWitnesses.SmallKeysDefeatTheCut | index/b_plus_tree.cpp:317-320 | a well-formed tree of two levels, a record that does not fit the leaf it belongs to, and the halves of that leaf, after which no order of the leaves is well-formed |
| SplitWitnesses.StrictIsNotEnough | index/b_plus_tree.cpp:526-586 | a tree with strict min-key at every slot, a new record above the leftmost separator that does not fit its leaf, and the halves of that leaf, after which no order of the leaves is well-formed |
| SplitWitnesses.FirstInsertTooLong | index/b_plus_tree.cpp:420-427 | in an empty tree exactly the records too long for a page are refused by the leaf, and no step of the walk to its pivot finds a record |
| SplitWitnesses.FirstInsertLeavesNothingLeft | index/b_plus_tree.cpp:526-532 | after the first insert into an empty tree nothing is left of the cut, and exactly when a second record would not fit it reaches the split |
| BPlusTrees.BPlusTree.UpperBound | index/b_plus_tree.cpp:306-315 | the first pair of an internal page with a key above the target |
| BPlusTrees.BPlusTree.LowerBound | index/b_plus_tree.cpp:766-775 | the first pair with a key not below the separator |
| BPlusTrees.BPlusTree.SearchLeaf | index/b_plus_tree.cpp:363-390 | among arbitrary tombstones: smaller live keys before the slot, none from it on, and the slot live if any live key at or above the target exists |
| BPlusTrees.BPlusTree.Descend | index/b_plus_tree.cpp:304-328 | one step down leads to the page that can hold the target and records the true parent and slot |
| BPlusTrees.BPlusTree.FindRecord | index/b_plus_tree.cpp:290-396 | the only leaf that can hold the key, the key's place in it, and the true path to it, for a tree of any height |
| BPlusTrees.BPlusTree.Get | index/b_plus_tree.cpp:461-480 | a present key returns its record; an absent one an empty record exactly if it compares equal to the key of no bytes and its leaf has no live key at or above it, and nothing otherwise |
| BPlusTrees.BPlusTree.Remove | index/b_plus_tree.cpp:431-455 | true exactly for a present key, whose record alone leaves the tree; the separators and all pages outside the tree stay, and strict min-key is kept |
| BPlusTrees.BPlusTree.Insert | index/b_plus_tree.cpp:398-428 | without a split the record joins at its sorted place and the tree is well-formed if and only if the key was new; with one the tree is well-formed, has one leaf more and the records it had, and exactly the cascade's pages are taken; strict min-key is kept exactly when the record stored is not below the leftmost separator; pages outside the tree stay |
| BPlusTrees.BPlusTree.SplitChild | index/b_plus_tree.cpp:510-591 | with its whole cascade it terminates, keeps the tree well-formed and the records the same, adds one leaf right of the split one, files it under the pivot's key right behind that leaf's separator, takes exactly the cascade's pages, grows by a level exactly when every ancestor was full, and keeps strict min-key and all pages outside the tree |
| BPlusTrees.BPlusTree.DivideLeaf | index/b_plus_tree.cpp:510-577 | allocates the new leaf, cuts at the pivot and sets all links on three pages |
| BPlusTrees.BPlusTree.CutLeaf | index/b_plus_tree.cpp:520-557 | the two halves in memory and the separator read from the new page's slot 0 |
| BPlusTrees.BPlusTree.SplitInternal | index/b_plus_tree.cpp:619-670 | splits the page on top of the stack in the middle, grows the levels above by exactly the pages that takes, and leaves its level's pairs the same; both halves then have room |
| BPlusTrees.BPlusTree.DivideNode | index/b_plus_tree.cpp:619-656 | the pairs from the middle on go to a new page, whole pairs only |
| BPlusTrees.BPlusTree.SplitRoot | index/b_plus_tree.cpp:683-711 | a new root over the two pages, under the left page's first key and the separator |
| BPlusTrees.BPlusTree.BuildRoot | index/b_plus_tree.cpp:690-701 | the page the four inserts make, with or without a first key |
| BPlusTrees.BPlusTree.InsertIntoParent | index/b_plus_tree.cpp:719-783 | the parent level gets exactly the new pair right after the split page's own, splitting ancestors as far as needed and taking exactly the pages that takes; every level is well-formed afterwards, with a new root exactly when all ancestors were full |
| BPlusTrees.BPlusTree.ChooseHalf | index/b_plus_tree.cpp:737-760 | after the parent was split, the half that holds the entry the new pair goes behind |
| BPlusTrees.BPlusTree.PutPair | index/b_plus_tree.cpp:762-780 | the two positioned inserts put the pair in key order |
| BPlusTrees.BPlusTree.PairRoom | index/b_plus_tree.cpp:724-732 | whether the page has room for a pair once compacted, and exactly then it does afterwards; a page without room has at least three pairs |
| BPlusTrees.BPlusTree.NewId | storage/disk_manager.cpp:161-186 | a page no level uses, and no other page changes |
| TreeRuns.Step | index/b_plus_tree.cpp:398-480 | one operation is answered as the map of the stored records says and changes that map accordingly, unless it is an insert that is refused |
| TreeRuns.StoreThenGet | index/b_plus_tree.cpp:398-480 | a record written with a number in the key's width, once stored, is what looking that number up returns; every other number finds what it found before |
| TreeRuns.StartsEmpty | storage/slotted_page.cpp:74-98 | a tree over a freshly formatted leaf stands for the empty map and has strict min-key |
| TreeRuns.Serve | index/b_plus_tree.cpp:398-480 | over any run every answer is that of a map of the records stored so far, up to an insert of a present key or into a full leaf that cannot be split |
| TreeRuns.RefusedExactly | index/b_plus_tree.cpp:420-427 | which insert ends a run under strict min-key, told from the map, the leaf's records and its separator |
| RangeScans.RangeIsSlice | index/b_plus_tree.h:199-204 | in a sorted list the records of a range are one stretch |
| RangeScans.RangeHolds | index/b_plus_tree.h:206-221 | a record written with a number is in a range exactly if the number is |
| RangeScans.WrittenInOrder | index/b_plus_tree.h:206-242 | in the tree's list, and so in any scan, written numbers ascend, negative ones first |
| RangeScans.CrossOver | index/b_plus_tree.h:224-240 | leaving an exhausted leaf for its right neighbour passes over no record of the range |
| RangeScans.ScanIsRange | index/b_plus_tree.h:206-242 | when the scan stops, what it returned is the range |
| Iterators.BPlusTreeIterator.Scan | index/b_plus_tree.cpp:483-487 | starts with everything below the lower end passed over and nothing else |
| Iterators.BPlusTreeIterator.SeekFirstAfter | index/b_plus_tree.h:249-265 | ends with the live keys up to the given one before the slot and the larger ones from it on |
| Iterators.BPlusTreeIterator.Next | index/b_plus_tree.h:206-242 | returns the next record of the whole tree if its key is within the range, nothing otherwise, across dead runs and dead leaves; each call terminates |
| Iterators.ScanAll | index/b_plus_tree.h:206-242 | calls up to the first nothing return exactly the records of the range in ascending order, each once |
| Disk.PageIndexAliases | storage/disk_manager.cpp:111 | two page ids share a place in the file exactly when they agree modulo 2^20 |
| Disk.MetaRoundTrip | storage/disk_manager.h:54-66 | the metadata page reads back as it was written |
| Disk.MetaLayout | storage/disk_manager.h:54-66 | the five fields stand at bytes 0, 4, 8, 12 and 16 of page 0, and the rest is zero |
| Disk.HeadLayout | storage/freelist_page.h:18-27 | a freelist page holds its link at 0, its count at 4 and its ids from 8 on; the head's id and then its ids in order are the top of the free stack |
| Disk.PushHead | storage/disk_manager.cpp:200-225 | making a freed page the new head is a push |
| Disk.PushOnHead | storage/disk_manager.cpp:226-231 | writing an id on the head page is a push |
| Disk.PopHead | storage/disk_manager.cpp:176-178 | handing out an empty head page is a pop |
| Disk.PopFromHead | storage/disk_manager.cpp:179-183 | taking the head page's last id is a pop |
| Disk.SavedOnce | storage/disk_manager.cpp:47-88 | through a saved file runs one chain of freelist pages only: its bytes alone say which ids are free, in order |
| Disk.ValidIsSaved | storage/disk_manager.cpp:47-88 | at any time the file's bytes give the manager's metadata and its free ids, in order |
| Disk.ReopenResumes | storage/disk_manager.cpp:47-88 | two valid managers over the same bytes have the same metadata, the same free ids in the same order and the same ids in use |
| Disk.Open | storage/disk_manager.cpp:47-88 | fresh state for an empty file, an error exactly for a wrong magic number, otherwise the free stack the file's bytes describe |
| Disk.DiskManager.Create | storage/disk_manager.cpp:47-88 | a brand-new file: no free ids, no ids in use, next id 1 |
| Disk.DiskManager.Reopen | storage/disk_manager.cpp:47-88 | over a saved file the manager is valid and its free ids are the saved ones, in order |
| Disk.DiskManager.ReadPage | storage/disk_manager.cpp:127-145 | the page's bytes, or which of the two range errors |
| Disk.DiskManager.WritePage | storage/disk_manager.cpp:107-121 | changes that page's bytes only, refused exactly beyond the high-water mark; writing a page in use leaves the free stack and the ids in use alone |
| Disk.DiskManager.AllocatePage | storage/disk_manager.cpp:161-186 | pops the free stack, or hands out the next fresh id when it is empty; never an id in use, and no page in use changes |
| Disk.DiskManager.DeallocatePage | storage/disk_manager.cpp:200-232 | pushes the id in all three cases and changes no page in use |
| Disk.DiskManager.UpdateMetadata | storage/disk_manager.h:171-176 | page 0 reads as the metadata in memory |
| Disk.DiskManager.GetPageCount | storage/disk_manager.cpp:238-240 | one more than the ids in use and the free ids together, and the ids below it are exactly those and page 0 |
| Crc32c.Extend | utils/crc32c.h:51-56 | the double loop computes the fold of the bit step over the bytes |
| Crc32c.Compute | utils/crc32c.h:60-64 | initial state, extend, final xor |
| Crc32c.StepBijective | utils/crc32c.h:53-55 | one bit step is a bijection on 32-bit states |
| Crc32c.StepLinear | utils/crc32c.h:53-55 | one bit step is linear over xor |
| Crc32c.StepsLinear | utils/crc32c.h:53-55 | so is any number of bit steps |
| Crc32c.ExtendedConcat | utils/crc32c.h:51-56 | extending over a concatenation is extending twice |
| Crc32c.ExtendedInjective | utils/crc32c.h:51-56 | equal bytes lead to equal states if and only if they start from equal states |
| Crc32c.FourBytes | utils/crc32c.h:51-56 | four bytes are thirty-two steps on the state xored with their little-endian word |
| Crc32c.WindowInjective | utils/crc32c.h:51-56 | from one state, different windows of four bytes lead to different states |
| Crc32c.WindowDetected | utils/crc32c.h:51-64 | messages of equal length that differ only within four consecutive bytes never have equal checksums |
| Crc32c.CheckValue | utils/crc32c.h:60-64 | the checksum of the nine digits is the published 0xE3069283 |
| FlushProtocol.StepInv | logging/log_manager.cpp:226-291 | every atomic step of every thread keeps the protocol's invariant |
| FlushProtocol.RunInv | logging/log_manager.cpp:226-291 | it holds in every state of every interleaving |
| FlushProtocol.SingleLeader | logging/log_manager.cpp:273-284 | at most one thread leads at any time |
| FlushProtocol.Conservation | logging/log_manager.cpp:19-44 | file, unsent batch and append buffer together are all records ever appended, in LSN order, without gap or copy |
| FlushProtocol.FlushedIsDurable | logging/log_manager.cpp:282 | every record with an LSN below flushedLSN is durable |
| FlushProtocol.FlushGuarantee | logging/log_manager.cpp:271-291 | when flush_to has returned, every record with an LSN below its target is durable |
| FlushProtocol.ReturnsOnlyWhenReached | logging/log_manager.cpp:271-291 | it has not returned while its target is above the next LSN |
| FlushProtocol.NeverBack | logging/log_manager.cpp:271-291 | along a run flushedLSN and the durable part of the file never shrink |
| FlushProtocol.SurvivesCrash | logging/log_manager.cpp:236-268 | what a crash leaves of the file starts with every record that was durable before |
| FlushProtocol.TargetDurable | logging/log_manager.cpp:273-282 | between batches the record whose LSN is a number is durable if and only if flushedLSN is above that number |
| FlushProtocol.OwnLsnNotDurable | logging/log_manager.cpp:273 | a run in which a record's writer flushes to the record's own LSN, returns, and nothing is in the file |
| FlushProgress.NeverStuck | logging/log_manager.cpp:271-291 | while a thread is inside flush_to, it or another one has a step to take |
| FlushProgress.WorkShrinks | logging/log_manager.cpp:271-291 | every step of a thread inside flush_to brings the end of all calls nearer by a fixed measure |
| FlushProgress.StepsAreBounded | logging/log_manager.cpp:271-291 | once nothing new is appended or called the threads take a bounded number of steps, in whatever order |
| FlushProgress.EveryFlushReturns | logging/log_manager.cpp:271-291 | when they have no step left every call has returned, and all below its target is durable |
| FlushProgress.TooFarNeverReturns | logging/log_manager.cpp:271-291 | a call whose target is above the next LSN does not return in such a run |
| LogManagers.SealedIsIntact | logging/log_manager.cpp:19-44 | a record as append writes it passes its own checksum test |
| LogManagers.PackedReads | logging/log_manager.h:63-80 | a number that fits its field is read back, low byte first |
| LogManagers.FieldsRead | logging/log_manager.h:63-80 | a reader at the fixed offsets gets every header field and both images of a sealed record back |
| LogManagers.ChecksumRead | logging/log_manager.cpp:38-40 | bytes 4 to 7 of a sealed record, low byte first, are the checksum of the record with zeros there |
| LogManagers.DamageDetected | logging/log_manager.cpp:37-40 | a record changed within four consecutive bytes outside the checksum field passes only if it is unchanged |
| LogManagers.LogManager.Append | logging/log_manager.cpp:19-44 | appends exactly the sealed record under the next LSN, or changes nothing when 64 bytes and the images do not fit into the rest of 2^27; a step of the protocol |
| LogManagers.LogManager.Seal | logging/log_manager.cpp:37-40 | patches the checksum of the record just written into its four bytes |
| LogManagers.LogManager.CopyToFillBuffer | logging/log_manager.cpp:226-233 | hands over the whole buffer and the next LSN, zeroes those bytes and no others, and empties the buffer |
| LogManagers.LogManager.AppendDurable | logging/log_manager.cpp:236-268 | however the system cuts the writes, the file grows by exactly the batch and is then durable; steps of the protocol |
| LogManagers.LogManager.Lead | logging/log_manager.cpp:274-284 | one turn as leader moves everything appended into the file and publishes it |
| LogManagers.LogManager.FlushTo | logging/log_manager.cpp:271-291 | for a lone caller: a run of the protocol that ends with flushedLSN at or above the target and everything below it durable |
| Arc.ChoiceExists | buffer/arc_replacer.cpp:35-100 | there is a victim if and only if some frame is evictable |
| Arc.VictimIsLeastRecent | buffer/arc_replacer.cpp:35-100 | the place chosen holds the least recent evictable frame of the preferred list, or of the other when the preferred one is fully pinned |
| Arc.EvictExact | buffer/arc_replacer.cpp:35-100 | of the pair returned itself: the frame was evictable and held the page, no frame behind it in its list was evictable, and the list is the one the target prefers unless that held no evictable frame; and the whole new state |
| Arc.EvictsNothing | buffer/arc_replacer.cpp:74-76 | nothing is returned, and nothing changes, exactly when no frame is evictable |
| Arc.EvictEffect | buffer/arc_replacer.cpp:35-100 | the victim alone leaves, its page becomes the newest ghost of its list, and all other ranks stay |
| Arc.EvictInv | buffer/arc_replacer.cpp:35-100 | evicting keeps lists, maps and bounds consistent |
| Arc.AccessEffect | buffer/arc_replacer.cpp:140-226 | the frame becomes the newest of the right list, no other entry or rank changes, and the target rises or falls by exactly the ratio of the ghost lists on a ghost hit, and not at all otherwise |
| Arc.AliveExact | buffer/arc_replacer.cpp:148-174 | the whole new state when the frame is alive |
| Arc.GhostExact | buffer/arc_replacer.cpp:175-205 | the whole new state but for the target when the page is in a ghost list |
| Arc.NewExact | buffer/arc_replacer.cpp:206-220 | the whole new state for any other page, with the ghost dropped at either bound |
| Arc.AccessInv | buffer/arc_replacer.cpp:140-226 | every access that does not abort keeps the invariant |
| Arc.PopsAreSafe | buffer/arc_replacer.cpp:207-217 | a miss never pops an empty ghost list |
| Arc.SetEvictableInv | buffer/arc_replacer.cpp:245-267 | so does changing evictability |
| Arc.RemoveInv | buffer/arc_replacer.cpp:286-321 | and removing a frame |
| Arc.RemoveExact | buffer/arc_replacer.cpp:286-321 | the whole new state after a removal |
| Arc.Replay | buffer/arc_replacer.cpp:35-321 | the invariant holds after every run of operations from empty lists |
| Arc.StaleComesFromPop | buffer/arc_replacer.cpp:211-216 | in one access, without any assumption on the run before, only the page popped off the end of a ghost list can become stale |
| ArcRuns.StaleStep | buffer/arc_replacer.cpp:211-216 | a step makes stale exactly the page a miss pops off a ghost list, and never makes a stale page fresh |
| ArcRuns.StaleIsForgotten | buffer/arc_replacer.cpp:140-226 | after any run a page is stale if and only if the run has popped it off a ghost list |
| ArcRuns.AbortsExactly | buffer/arc_replacer.cpp:140-226 | after any run an access aborts if and only if its frame is not alive and the run has popped its page |
| ArcRuns.StaleAborts | buffer/arc_replacer.cpp:175-198 | a run of six operations after which an access aborts on a stale entry |
| ArcRuns.TargetStaysWithin | buffer/arc_replacer.cpp:178 | a target within the capacity stays there if and only if the access is no hit on the first ghost list or the increase still fits |
| ArcRuns.TargetUnbounded | buffer/arc_replacer.cpp:178 | for every capacity and every number a run from empty lists, by loads and evictions of frame 0 alone, takes the target to at least that number |
| ArcRuns.TargetExceedsCapacity | buffer/arc_replacer.cpp:178 | for every capacity some run takes the target beyond it |
| ArcReplacers.ArcReplacer.constructor | buffer/arc_replacer.cpp:14 | empty lists and zero counters |
| ArcReplacers.ArcReplacer.EvictFrom | buffer/arc_replacer.cpp:35-100 | the scan from the back finds the last evictable frame of a list |
| ArcReplacers.ArcReplacer.Evict | buffer/arc_replacer.cpp:35-100 | nothing exactly when the size is zero; otherwise the least recent evictable frame of the list the target prefers, or of the other when the preferred one has none, and its page; the new state is the policy's |
| ArcReplacers.ArcReplacer.RecordAccess | buffer/arc_replacer.cpp:140-226 | does in place what the policy says (`Arc.AccessEffect`, `Arc.AliveExact`, `Arc.GhostExact`, `Arc.NewExact`), and aborts exactly when the page's ghost entry is in neither ghost list |
| ArcReplacers.ArcReplacer.SetEvictable | buffer/arc_replacer.cpp:245-267 | changes that frame's flag and the count, and aborts exactly on a frame id out of range |
| ArcReplacers.ArcReplacer.Remove | buffer/arc_replacer.cpp:286-321 | takes an evictable frame out, does nothing for an unknown one, and aborts exactly on one that is in use |
| ArcReplacers.ArcReplacer.Size | buffer/arc_replacer.cpp:330 | the number of evictable frames |
| BufferPools.WrittenOut | buffer/buffer_pool_manager.cpp:467-490 | writing a resident page out leaves its frame clean and every page's contents as they were |
| BufferPools.DroppedClean | buffer/buffer_pool_manager.cpp:230-236 | dropping a clean page from the table leaves every page's contents as they were |
| BufferPools.Loaded | buffer/buffer_pool_manager.cpp:238-247 | loading a page into a free frame leaves every page's contents as they were |
| BufferPools.Removed | buffer/buffer_pool_manager.cpp:135-146 | deleting takes exactly that page out of table, pool and disk |
| BufferPools.SomethingFree | buffer/buffer_pool_manager.cpp:214-261 | the free list is never empty where its front is taken |
| BufferPools.BufferPool.constructor | buffer/buffer_pool_manager.cpp:62-83 | all frames free, nothing resident |
| BufferPools.BufferPool.CheckedPage | buffer/buffer_pool_manager.cpp:188-279 | the guard's frame holds the page's last bytes; out of memory exactly when all frames are taken and none is evictable; the contents of no page change; a hit pins, and leaves the frame evictable only if it was that and pinned before; a miss leaves it not evictable; all other frames, pins, pages and flags stay |
| BufferPools.BufferPool.Hit | buffer/buffer_pool_manager.cpp:195-212 | a resident page: accessed, pinned, and made not evictable when it was unpinned; no other frame's entry changes |
| BufferPools.BufferPool.MissFree | buffer/buffer_pool_manager.cpp:252-278 | the front of the free list takes the page from disk, without a pin |
| BufferPools.BufferPool.MissFull | buffer/buffer_pool_manager.cpp:214-251 | the victim is written out if dirty, and the page takes its frame, without a pin |
| BufferPools.BufferPool.GuardWrite | storage/page_guard.cpp:269-273 | changes that page's contents only and marks its frame dirty |
| BufferPools.BufferPool.GuardRead | storage/page_guard.cpp:99-102 | the page's contents |
| BufferPools.BufferPool.GuardFlush | storage/page_guard.cpp:289-298 | the disk has the page's contents |
| BufferPools.BufferPool.GuardDrop | storage/page_guard.cpp:311-325 | takes one off the pin count, wrapping at zero, and makes the frame evictable exactly when the count was one |
| BufferPools.BufferPool.FlushPageUnsafe | buffer/buffer_pool_manager.cpp:467-490 | the disk has a resident page's contents; false exactly when the page is not resident |
| BufferPools.BufferPool.FlushPage | buffer/buffer_pool_manager.cpp:510-515 | the disk has the page's contents; a resident page's pin count is as before, and a page just loaded, into a free frame or the victim's, has one pin less than the frame had |
| BufferPools.BufferPool.FlushingIs | buffer/buffer_pool_manager.cpp:510-515 | a flush gives the pin count back as it was and leaves the frame evictable exactly if that is zero |
| BufferPools.BufferPool.FlushAllPagesUnsafe | buffer/buffer_pool_manager.cpp:530-561 | afterwards the disk alone holds the contents of every page |
| BufferPools.BufferPool.DeletePage | buffer/buffer_pool_manager.cpp:126-147 | refused exactly while pinned, no effect on a page that is not resident, aborts exactly on an unpinned frame the replacer holds in use; otherwise page table, disk, replacer and contents lose the page and its frame is zeroed and freed last |
| PoolRuns.ServePage | buffer/buffer_pool_manager.cpp:188-279 | one guarded request: what it does to the contents, when exactly it is refused, and when exactly it throws or aborts instead |
| PoolRuns.HoldWhile | buffer/buffer_pool_manager.cpp:208-211 | a guard on a resident page that nobody had pinned keeps its page in its frame, with its bytes, through any fetches and drops of other pages, evictions included |
| PoolRuns.Serve | buffer/buffer_pool_manager.cpp:126-561 | over any sequential run every read returns the last bytes written to its page, told from the run alone, across evictions and reloads; a pool with a frame for every page refuses none |
| PoolRuns.ServeNew | buffer/buffer_pool_manager.cpp:249-251 | from a new pool, guards held one at a time: a page is served if and only if it got a frame while frames were free, because no frame ever becomes evictable |
| Numeric.RoundTrip | type/numeric_type.h:34-47 | reading back what was written gives the value if and only if it is in the width's two's-complement range |
| Numeric.BytesRoundTrip | type/numeric_type.h:34-47 | the bytes determine the value and the value the bytes |
| Numeric.Ranges | type/numeric_type.h:34-47 | the four widths hold exactly the signed 8-, 16-, 32- and 64-bit numbers |
| Numeric.SerializeIs | type/numeric_type.h:34-38 | each byte written is the rest of the value modulo 256, low byte first |
| Numeric.DeserializeIs | type/numeric_type.h:40-47 | the top byte carries the sign and every lower byte adds its digit |
| Tuples.CursorsMeet | type/tuple.cpp:31-52 | the fixed cursor ends exactly where the tail starts |
| Tuples.CursorsAdvance | type/tuple.cpp:31-52 | both cursors start at 0 and take in one value at a time |
| Tuples.FieldStands | type/tuple.cpp:31-52 | where each value of a serialized tuple stands and as what bytes: numbers as written, truth values as 1 or 0, strings as a 16-bit length with their bytes in the tail |
| Tuples.Serialize | type/tuple.cpp:31-52 | writes the fixed section and the tail at their two cursors and reports the size cut to 16 bits |
| Tuples.Deserialize | type/tuple.cpp:64-89 | reads one value per column at two cursors |
| Tuples.TupleRoundTrip | type/tuple.cpp:31-89 | a conforming tuple is read back if and only if its numbers fit their widths, whatever the buffer held before |
| Schemas.SerializeColumn | type/column.cpp:46-61 | writes the column at the cursor and nothing else, and reports its size cut to 16 bits |
| Schemas.ColumnRoundTrip | type/column.cpp:63-78 | a column is read back wherever it stands, if its name's length fits 16 bits |
| Schemas.ColumnLayout | type/column.cpp:46-61 | a column in bytes: name length, name, type, length and offset, each at its place |
| Schemas.SerializeSchema | type/schema.cpp:91-100 | writes count and columns, the cursor moving by what each column reports |
| Schemas.DeserializeSchema | type/schema.cpp:102-117 | reads the count and that many columns |
| Schemas.ClaimedIsExtent | type/schema.cpp:91-117 | the size reported is the size read if and only if no name exceeds 65524 bytes |
| Schemas.ColumnStands | type/schema.cpp:91-100 | a schema in bytes: the count, then one column behind the other |
| Schemas.SchemaRoundTrip | type/schema.cpp:91-117 | a schema is read back with as many bytes consumed as written if and only if no name exceeds 65524 bytes |

## Left out

Contracts that say less than the code's callers might want:

- BPlusTrees.BPlusTree.Insert: when the leaf is full the contract asks that it can be split (a live record to cut at; for the root leaf a live record left of the cut; for any other leaf a cut above its separator) and that the file has room for the new leaf and the pages its cascade takes (`Growth.NewPages`). `LeafSplits.SplitExact`, `LeafSplits.RootSplitExact` and `Splits.WalkEndsExactly` say exactly what becomes of the leaf otherwise; the rest of the cascade over such a tree is not followed.
- BPlusTrees.BPlusTree.SplitChild: the same.
- BPlusTrees.BPlusTree.Get: which key the empty byte string compares as is a constant of the class, because the code reads past the end of it.
- Splits.FindPivot: asks for a live record; on a leaf without one the code's walk never ends (`Splits.WalkEndsExactly`), which a method with a result cannot say.
- BPlusTrees.BPlusTree.CutLeaf: asks for a live record for the same reason; `LeafSplits.LeafHasCut` says which leaves have one.
- BPlusTrees.BPlusTree.DivideLeaf: the same.
- BPlusTrees.BPlusTree.SplitRoot: asks for a key in the left page's slot 0 that is below the separator; `LeafSplits.RootSplitExact` says what the root is without one, and for internal pages it is always there (`Growth.TopHeads`).
- Iterators.BPlusTreeIterator.Next: nothing is promised for calls after the first empty answer, because the last key is a view into a buffer that may have been overwritten by then.
- SlottedPages.SlottedPage.InsertRecord: record lengths are at most 65531. For 65532 up to 65535 length plus slot size wraps to 0 up to 3; `Pages.LongRecordPasses` says exactly when the space check lets such a record pass, and then it is copied out of the page, which no page model can follow.
- SlottedPages.SlottedPage.InsertRecordAt: the same bound on the length, for the same reason.
- Disk.DiskManager.AllocatePage: page ids stay below 2^20; beyond that `Disk.PageIndexAliases` says which pages collide.
- Disk.DiskManager.DeallocatePage: the page is in use; the code accepts an id that is not, such as one freed twice, and would then hand it out twice.
- ArcReplacers.ArcReplacer.RecordAccess: frame ids stay below the capacity and no page is alive in two frames, as the buffer pool sees to; the code checks neither.
- BufferPools.BufferPool.CheckedPage: the page is on disk; `PoolRuns.ServePage` says when a request for one that is not ends the run.
- LogManagers.LogManager.Append: header and both images together stay below 2^32 bytes, because the record's size is kept in 32 bits; the images of an update record have at most 65535 bytes each.
- LogManagers.LogManager.FlushTo: one caller at a time, with a target no higher than the next LSN; any number of threads and any target are covered by the protocol's own theorems.
- TreeRuns.Serve: the run also ends when a full leaf is met and fewer ids than one per level and one more are unused, free ids not counted.
- PoolRuns.ServeNew: guards are held one at a time.
- PoolRuns.Serve: for a pool that has evicted, which later requests are refused depends on pins the run did not set; `PoolRuns.ServePage` says it exactly for each request from the pool's state.

Not modelled:

- Keys other than fixed-width NUMERIC at offset 0 of the record: VARCHAR keys are marked unsupported by the code, FLOAT keys would need floating point.
- Ownership of page buffers and keys as views into them: keys are values here, so a key that outlives its buffer is not seen.
- Latches and interleavings in tree, disk manager and buffer pool; guard moves; the disk scheduler and its futures, which become direct calls.
- Partial pages, I/O errors, file creation and console output; the metadata fields the constructor leaves unset are zero here.
- LSNs that wrap at 64 bits; the log file is the bytes written, and recovery, checkpoint payloads and the unused offset search in `flush_to` are not part of this model.
- The CRC32C instructions of particular processors.
- FLOAT values, the ownership of VARCHAR buffers, and a fixed section longer than 32 bits count.
- `merge`, `redistribute`, `FlushAllPages`, `GetPinCount`, `NewPage` and the page directory: declared, empty or unusable as they stand.
- Getters, string conversions, comparison and arithmetic of NUMERIC values: each says no more than its one line.
