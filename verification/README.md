# Verified models of the native code: SQLite b-tree storage, hashes and bit64

The native part of the plugin holds a copy of SQLite, two hash functions and a base-64 variant of its
own.  This project models the parts whose correctness is not visible from any single function and
proves what they promise.  `dafny verify dfyconfig.toml` checks everything.

**B-tree storage engine** (`btree.c`, `btreeInt.h`, `dbstat.c`)

- *Tree.*  Pages are sequences of cells (`Tree`, `Order`, `PageRules`).  A cursor (`BtCursor`) seeks,
  inserts and deletes; every operation is proved against the finite map of entries.  Underneath:
  loading siblings (`Gather`), choosing page boundaries (`Packing`), redistribution (`Repartition`,
  `Redistribute`, `Balancing`, `Nonroot`), the rewrite of pages that still hold each other's cells
  (`Siblings`) and the balance loop (`Balance`).
- *Slotted pages.*  `MemPages.MemPage` works on the bytes of a page: freeblocks, fragments,
  defragmentation and the incrementally kept `nFree`.  `PageLayout` says what a sound page is;
  `PageEdits`, `PageFree`, `PageRelease`, `PageImage`, `PageDefrag`, `PageRebuild` and `PageCells` hold
  the reasoning.
- *Cells and overflow chains.*  `CellFormat`, `Varint`, `CellText`, `OverflowChain`, `Payload`: writing,
  parsing, reading, overwriting and freeing payloads, with the four places that compute how much of a
  payload is local.
- *Freelist, pointer map, vacuum.*  `FreeChain`, `Freelist`; `PageMap`, `FinalSize`, `PageGraph`, `Vacuum`,
  `AutoVacuum`.
- *Shared cache.*  `TableLocks`, `SharedCache`: the transaction and table-lock protocol of any number of
  handles.  Every step keeps the invariant `Valid()`, so it holds over all runs: one writer at most, write
  locks belong to it, no conflicting locks, only the writer has locks while it is exclusive, pending
  implies a writer, and `nTransaction` counts the open transactions.
- *Integrity check.*  `Coverage`: the min-heap sweep over the bytes of a page.

**ANALYZE** (`analyze.c`, STAT4): `IndexScan`, `Samples`, `SampleRuns`, `Stat4`.  **Online backup** (`backup.c`):
`BackupImage`, `Backups`; every step, source write, shrink and restart keeps `Valid()`, so the agreement of
all pages already copied holds under every interleaving.  **Bit vectors** (`bitvec.c`): `BitHash`,
`Bitvecs`.  **Hash table** (`hash.c`): `HashBuckets`, `HashTable`.  **B-tree mutexes** (`btmutex.c`):
`BtMutex`, a state machine over atomic actions.  **SHA-256, SHA-1**: `Fips180` transcribes FIPS 180-4,
sections 5.1.1, 6.1.2 and 6.2.2; `Constants` derives its SHA-256 constants from the primes, as sections
4.2.2 and 5.3.3 define them; `Bits`, `Sha256Code` and `Sha1Code` follow the streaming code.  **bit64**:
`Bit64`.

Objects that the source updates in place are classes whose methods are proved against specification
functions; `old` values and ghost fields such as `cells`, `blocks`, `chain`, `bits` or `model` are the
abstract state.

Where comments and code disagree, the code is followed.  `btreeInt.h` (lines 90-94) and `btree.c` (lines
3133-3144) promise that four cells of the largest size fit on an index page; on pages of more than 8192
bytes they need not.  `CellFormat.FourFitExactly` gives the exact condition.  Balancing only needs that
three fit, and that is what it rests on.  The length of a text is cast to `int` in `bit64.cpp`, so byte
strings of 0x60000000 bytes and more do not come back from their encoding (`Bit64.Alphabet.ThereAndBack`).

## Model

Modules are named as above; a class is written between its module and its member.

| member | source | states |
|---|---|---|
| Packing.Pack | plugins/glib/thirdparties/sqlite3/btree.c:7510-7603 | Corruption is reported if and only if the cells cannot be cut, in order, into five pages; otherwise every size is the exact size of the cells given to that page and at most the space of a page, no page is empty when there are two or more, no cut that fits has fewer pages, and the cut is the greedy one evened out from the right (for a bulk cursor, the greedy one with no page left empty). |
| Packing.GreedyStaysAhead | plugins/glib/thirdparties/sqlite3/btree.c:7520-7561 | The left-to-right pass reaches at least as far, page by page, as any other way to cut the cells that fits. |
| Packing.Greedy | plugins/glib/thirdparties/sqlite3/btree.c:7519-7561 | The first pass ends with exact sizes and full pages, or fails only when no way to cut the cells into five pages exists. |
| Packing.EvenPair | plugins/glib/thirdparties/sqlite3/btree.c:7574-7603 | Evening out two neighbours keeps both sizes exact and within a page, leaves neither empty, and stops exactly where one more move would make the right page the larger one. |
| Packing.GreedyIsFewest | plugins/glib/thirdparties/sqlite3/btree.c:7519-7561 | No other cut of the cells into pages that fit has fewer pages than the first pass. |
| Packing.NeighboursApart | plugins/glib/thirdparties/sqlite3/btree.c:7519-7561 | With the fewest pages, no two neighbours and the divider between them fit on one page: what could be merged has been merged. |
| Siblings.EditSiblings | plugins/glib/thirdparties/sqlite3/btree.c:7829-7889 | The sweep down and up edits every sibling exactly once and never before all siblings that still take cells from it, so every new page gets its original cells although the cells are fetched through pointers into the pages being rewritten. |
| Siblings.SafeToEdit | plugins/glib/thirdparties/sqlite3/btree.c:7829-7868 | A page that passes the test of the sweep holds no cell that a page not yet edited still needs. |
| CellFormat.LocalLimits | plugins/glib/thirdparties/sqlite3/btree.c:3146-3149 | For every usable page size: the least local payload is at most the largest, and three index cells of the largest size always fit, which balancing relies on. |
| CellFormat.FourFitExactly | plugins/glib/thirdparties/sqlite3/btreeInt.h:90-94 | The promise that four cells fit on every index page holds exactly for the page sizes given: all up to 8172 bytes, and larger ones only if the division by 255 loses little. |
| CellFormat.FourTooMany | plugins/glib/thirdparties/sqlite3/btree.c:3133-3147 | The promise fails for pages of 16384 and 65536 bytes and holds for 512 and 8192. |
| Search.SearchPage | plugins/glib/thirdparties/sqlite3/btree.c:5345-5475 | The binary search hits the key or ends between the last smaller and the first larger key, and says on which side of the last probed cell the key lies. |
| Gather.LoadCells | plugins/glib/thirdparties/sqlite3/btree.c:7385-7492 | Loading up to three siblings and their dividers gives a run that, cut at the recorded boundaries, is the old pages and dividers, with every cell pointer leading to its cell. |
| Redistribute.ScanKept | plugins/glib/thirdparties/sqlite3/btree.c:7510-7889 | Old pages with their dividers and new pages with theirs read the same: equal entries in order, within the same key range. |
| Balancing.PackSucceeds | plugins/glib/thirdparties/sqlite3/btree.c:7519-7528 | Whatever three pages and their overflow cells hold fits on five pages, so the packing never reports corruption. |
| Balancing.Plan | plugins/glib/thirdparties/sqlite3/btree.c:7510-7603 | On a sound run the packing succeeds; a single page spreads over at most three. |
| Balancing.Spread | plugins/glib/thirdparties/sqlite3/btree.c:7385-7889 | Redistribution gives at least one and at most five pages that fit, none empty when there are two, reading the same as before; no two neighbours and their divider fit on one page; the boundaries are those of the greedy cut, evened out. |
| Balancing.InsertCells | plugins/glib/thirdparties/sqlite3/btree.c:7776-7827 | Dividers put into the parent are placed as long as they fit; the rest become overflow cells side by side. |
| Nonroot.ChooseSiblings | plugins/glib/thirdparties/sqlite3/btree.c:7294-7308 | At most three neighbouring children are taken, page idx among them, at exactly the place the source takes them from: the child to the left first (for a bulk cursor the child itself), moved inwards at either end; the divider that may be an overflow cell is dropped too exactly when there is one and the cursor is no bulk cursor or idx is zero. |
| Nonroot.BalanceNonroot | plugins/glib/thirdparties/sqlite3/btree.c:7224-7963 | Redistributing child and neighbours keeps what a scan reads, uniform depth and every page outside the window; no two of the new siblings and the divider between them fit on one page; the tree loses a level when, and only when, the root is left without cells and with one child that fits in it. |
| Nonroot.BalanceQuick | plugins/glib/thirdparties/sqlite3/btree.c:6999-7081 | The entry appended at the far right gets a leaf of its own and the page it did not fit on keeps the others; the scan reads the same. |
| Balance.BalanceLoop | plugins/glib/thirdparties/sqlite3/btree.c:8042-8159 | From the page a cell was added to or dropped from, the loop ends with no overflow cell left, every page on its path in order and the same entries, at most one level deeper.  It goes on exactly as long as it must: every page it goes on from has overflow cells or, not being the root, more than two thirds of its space free, and the page it ends on has neither; every turn deepens the root, gives an appended entry its own leaf, spreads the page and its siblings over the fewest pages, or drops a level. |
| Balance.BalanceParent | plugins/glib/thirdparties/sqlite3/btree.c:8076-8152 | One turn of the loop leaves the same entries, the child level in order and at most the parent in need of balance, and changes nothing outside the parent; which of its ways it takes is fixed (Balance.ParentStep). |
| Balance.Deeper | plugins/glib/thirdparties/sqlite3/btree.c:7985-8030 | Moving the content of the root to a new child keeps the scan and adds one level. |
| BtCursor.PredecessorScan | plugins/glib/thirdparties/sqlite3/btree.c:8598-8660 | Moving the last entry of the left subtree over an interior entry removes exactly that entry from the scan. |
| BtCursor.LastOf | plugins/glib/thirdparties/sqlite3/btree.c:8598-8609 | The previous entry of an interior cell is the last one in a leaf of its left subtree. |
| BtCursor.BtCursor.MoveTo | plugins/glib/thirdparties/sqlite3/btree.c:5256-5496 | From any sound tree: finds the key if and only if the map binds it, and otherwise ends on the leaf entry beside its place, on the side reported. |
| BtCursor.BtCursor.Insert | plugins/glib/thirdparties/sqlite3/btree.c:8280-8530 | Whatever the cursor points at before: any key-ordered tree of uniform depth stays one, no page keeps an overflow cell, and the map of entries becomes the old one with the key bound.  Only the page that gets the cell changes; if it does not hold it, the balance loop runs from there and ends at the root or at a page with at most two thirds of its space free. |
| BtCursor.BtCursor.Delete | plugins/glib/thirdparties/sqlite3/btree.c:8549-8711 | Deleting the entry under the cursor removes exactly that key and leaves the tree in order; for a bulk cursor whenever the balancing attends to an overflow of that interior page.  The entry leaves its leaf, or the last entry of its left subtree takes its place; the balance loop runs from that leaf, again from the interior page if it has not climbed that far, and ends at the root or at a page with at most two thirds of its space free. |
| BtCursor.RunShortens | plugins/glib/thirdparties/sqlite3/btree.c:8042-8159 | After a deletion the balance loop only climbs. |
| BtCursor.SeekMissed | plugins/glib/thirdparties/sqlite3/btree.c:5256-5496 | A search that misses proves that the key is nowhere in the tree. |
| MemPages.MemPage.FindSlot | plugins/glib/thirdparties/sqlite3/btree.c:1520-1566 | The first large enough freeblock gives up its last bytes or the whole block, no live cell changes and the layout stays sound; failure means that no freeblock is large enough, or that one is but taking it would break the fragment limit. |
| MemPages.MemPage.AllocateSpace | plugins/glib/thirdparties/sqlite3/btree.c:1581-1656 | Whenever nFree covers the bytes and a pointer, bytes apart from every cell and freeblock are found, and which: the end of the first freeblock that can give them, else the end of the gap, else the end of the gap after defragmenting.  Cells keep their bytes; page type, right child and the bytes before the header stay; no corruption is reported. |
| MemPages.MemPage.DefragmentPage | plugins/glib/thirdparties/sqlite3/btree.c:1379-1504 | Both paths leave every cell's bytes and order, the page type and right child as they were, no freeblock, fragments at most nMaxFrag or none (which, is fixed), and zeros between the pointers and the content area. |
| MemPages.MemPage.SqueezeOut | plugins/glib/thirdparties/sqlite3/btree.c:1408-1455 | With one or two freeblocks, moving whole stretches and sliding pointers over the holes carries every cell intact. |
| MemPages.MemPage.Rebuild | plugins/glib/thirdparties/sqlite3/btree.c:1457-1491 | Copying cell by cell, with a saved copy made only when a cell would be overwritten, carries every cell intact. |
| MemPages.MemPage.FreeSpace | plugins/glib/thirdparties/sqlite3/btree.c:1671-1763 | The freed bytes are merged with freeblocks at most three bytes away, or extend the gap; the partition of the content area, the other cells, page type, right child and the ascending chain are kept; nFree grows by exactly the freed size. |
| MemPages.MemPage.InsertCell | plugins/glib/thirdparties/sqlite3/btree.c:6545-6632 | The cell becomes cell i with its bytes, or is set aside as an overflow cell with nothing else changed, exactly when there is no room; page type and right child stay. |
| MemPages.MemPage.DropCell | plugins/glib/thirdparties/sqlite3/btree.c:6490-6529 | Removes exactly cell idx; the other cells keep bytes and order, the page its type and right child; nFree grows by the cell and its pointer, and an emptied page is one gap again, without freeblocks or fragments. |
| MemPages.MemPage.CountFree | plugins/glib/thirdparties/sqlite3/btree.c:1919-1964 | The free bytes counted anew from the page always equal the incrementally kept nFree, and no corruption is found. |
| MemPages.MemPage.constructor | plugins/glib/thirdparties/sqlite3/btree.c:1973-2003 | zeroPage gives a page of the type asked for, without cells, whose whole content area is free (nFree is the page without header). |
| PageLayout.FragmentsAreLeftover | plugins/glib/thirdparties/sqlite3/btreeInt.h:152-159 | The fragment count is exactly the number of content bytes in no cell and no freeblock. |
| PageFree.FragEnough | plugins/glib/thirdparties/sqlite3/btree.c:1713-1740 | Merging never swallows more fragment bytes than the header counts. |
| PageFree.FreedLayout | plugins/glib/thirdparties/sqlite3/btree.c:1671-1763 | After freeSpace the other cells, the merged chain and the remaining fragments partition the content area. |
| PageRebuild.Advance | plugins/glib/thirdparties/sqlite3/btree.c:1459-1490 | Writing one cell of the rebuild and its pointer disturbs no cell in place and no unread cell. |
| IndexScan.CountsAreRuns | plugins/glib/thirdparties/sqlite3/analyze.c:728-795 | The sqlite_stat4 counts nEq, nLt and nDLt of a row, defined as counts of rows and distinct prefixes, are length, start and number of the runs of its prefix in scan order. |
| Samples.BetterTransitive | plugins/glib/thirdparties/sqlite3/analyze.c:504-545 | The preference among samples is transitive. |
| Samples.NewBeatsOld | plugins/glib/thirdparties/sqlite3/analyze.c:565-595 | A retained sample that waits for a column was kept for a later column and is less preferred than the candidate offered for it. |
| Stat4.Stat4Accum.FindMin | plugins/glib/thirdparties/sqlite3/analyze.c:629-642 | The sample chosen to be dropped next is a non-periodic one, and no non-periodic one is less preferred. |
| Stat4.Stat4Accum.InsertBest | plugins/glib/thirdparties/sqlite3/analyze.c:555-643 | A candidate is added with its zeros, dropping the least preferred sample if full, unless a waiting sample shares its prefix; then at most one such sample is upgraded. |
| Stat4.Stat4Accum.InsertPeriodic | plugins/glib/thirdparties/sqlite3/analyze.c:555-643 | A periodic sample is added with zeros for all open columns, dropping the least preferred non-periodic one if full. |
| Stat4.Stat4Accum.SamplePushPrevious | plugins/glib/thirdparties/sqlite3/analyze.c:652-682 | When columns from iChng on end their runs, best candidates are offered and every zero of those columns is back-filled; afterwards every run that has ended contains a sample kept for it or for a shorter prefix, or the array is full and the run is not preferred over the least preferred sample. |
| Stat4.Stat4Accum.OfferBest | plugins/glib/thirdparties/sqlite3/analyze.c:656-664 | The candidate of an ended run is the best row of the run; afterwards the run contains a retained sample, unless the array is full and the candidate is not preferred over the least preferred sample, in which case nothing changes. |
| SampleRuns.FoundDropped | plugins/glib/thirdparties/sqlite3/analyze.c:597-611 | Dropping the least preferred sample leaves every ended run sampled that is preferred over that sample. |
| SampleRuns.BestOfStays | plugins/glib/thirdparties/sqlite3/analyze.c:773-782 | A candidate that a further row of its run does not beat is still the best of the run. |
| Stat4.Stat4Accum.StatPush | plugins/glib/thirdparties/sqlite3/analyze.c:728-795 | Over every sorted scan of distinct rows, as long as fewer than mxSample rows are due as periodic samples: the running counts stay the true prefix counts, every retained sample is exact or zero in columns whose run is still open, every candidate is the best row so far of its run, and every ended run is sampled or too rare for a full array. |
| Stat4.Stat4Accum.TooManyRows | plugins/glib/thirdparties/sqlite3/analyze.c:630-642 | The bound of stat_push is exact: the first row beyond it is due as a periodic sample and fills the array with such samples, so find_new_min finds none to drop. |
| Stat4.Stat4Accum.Finish | plugins/glib/thirdparties/sqlite3/analyze.c:896-900 | After the last back-fill every retained sample has the exact counts for every prefix, no zero is left, samples ascend strictly, and they number at most mxSample.  Every prefix of every row, but the whole row, is the prefix of a retained sample, or the array is full and the prefix has no more rows than the least preferred sample was kept for. |
| Stat4.Stat4Accum.Estimate | plugins/glib/thirdparties/sqlite3/analyze.c:866-890 | The average reported for a prefix is rows divided by distinct prefixes, rounded up. |
| Stat4.ExactMeans | plugins/glib/thirdparties/sqlite3/analyze.c:896-900 | An exact sample's three vectors are the counts of equal rows, smaller rows and smaller distinct prefixes. |
| Stat4.FewPeriodic | plugins/glib/thirdparties/sqlite3/analyze.c:453-454 | With the period that statInit computes, a scan of at most the estimated number of rows stays within the bound of stat_push. |
| Stat4.ShortEstimate | plugins/glib/thirdparties/sqlite3/analyze.c:453-454 | With an estimate of zero rows every row is due as a periodic sample, and mxSample rows reach the bound of stat_push. |
| PageMap.MapPages | plugins/glib/thirdparties/sqlite3/btree.c:947-959 | Which pages are pointer-map pages, wherever the pending-byte page lies. |
| PageMap.DataFormula | plugins/glib/thirdparties/sqlite3/btree.c:947-959 | How many of the first n pages hold data, in closed form. |
| PageMap.SizeUnique | plugins/glib/thirdparties/sqlite3/btree.c:3746-3762 | A size that is no special page is determined by its number of data pages, so what finalDbSize promises fixes its result. |
| FinalSize.GuessRight | plugins/glib/thirdparties/sqlite3/btree.c:3746-3756 | The first guess of finalDbSize leaves exactly nFree fewer data pages, including when the pending-byte page displaces a map page. |
| FinalSize.EntryFits | plugins/glib/thirdparties/sqlite3/btreeInt.h:586-597 | Every data page's pointer-map entry lies within its map page and apart from all others. |
| Vacuum.FinalDbSize | plugins/glib/thirdparties/sqlite3/btree.c:3746-3762 | The result is neither a pointer-map page nor the pending-byte page, and exactly nFree fewer data pages lie within it. |
| Vacuum.DropSpecial | plugins/glib/thirdparties/sqlite3/btree.c:3757-3759 | Stepping back over map pages and the pending-byte page loses no data page. |
| Vacuum.RoomBelow | plugins/glib/thirdparties/sqlite3/btree.c:3814-3861 | Used pages beyond the final size leave as many unused data pages within it. |
| PageGraph.RenameInverse | plugins/glib/thirdparties/sqlite3/btree.c:3557-3628 | Renaming a page, root or not, keeps the pointer map an exact inverse of all child and overflow pointers; a renamed root is the root at its new number. |
| PageGraph.Relocated | plugins/glib/thirdparties/sqlite3/btree.c:3557-3628 | Moving the content and fixing the one pointer of the parent, which a root does not have, is the same as renaming the page everywhere. |
| PageGraph.RelocatedMap | plugins/glib/thirdparties/sqlite3/btree.c:3451-3480 | Setting the entries of the moved page's children, and for a page that is no root its own entry, is the renaming of the pointer map. |
| AutoVacuum.BtShared.SetChildPtrmaps | plugins/glib/thirdparties/sqlite3/btree.c:3451-3480 | Exactly the entries of the page's children and overflow pages are set, to the page. |
| AutoVacuum.BtShared.ModifyPagePointer | plugins/glib/thirdparties/sqlite3/btree.c:3496-3545 | The one pointer of the given type to iFrom becomes a pointer to iTo, and no other pointer changes; corruption is not reported. |
| AutoVacuum.BtShared.RelocatePage | plugins/glib/thirdparties/sqlite3/btree.c:3557-3628 | For every kind of page, roots included: the graph afterwards is the old one with the page renamed, the pointer map is still its exact inverse, every root has its entry, and entries of other unused pages are untouched. |
| AutoVacuum.BtShared.CommitStep | plugins/glib/thirdparties/sqlite3/btree.c:3650-3739 | One step of the commit loop empties one more page from the end, by taking it off the freelist or by moving it below the final size; no corruption is reported. |
| AutoVacuum.BtShared.FindFree | plugins/glib/thirdparties/sqlite3/btree.c:3701-3720 | The loop, drawing pages from the trunk chain, finds a free page within the final size; pages taken off the list on the way all lie beyond it. |
| AutoVacuum.BtShared.AutoVacuumCommit | plugins/glib/thirdparties/sqlite3/btree.c:3814-3861 | If all roots lie within the final size, the commit, drawing pages from the trunk chain, always finds a free page within it and ends with every used page within it, an empty freelist, and the same trees up to renaming. |
| AutoVacuum.BtShared.IncrVacuum | plugins/glib/thirdparties/sqlite3/btree.c:3772-3803 | If all roots lie within the final size: one incremental step takes off the last data page and one free page, moves the last page within the final size if it was in use, keeps pointer map and final size, and reports done exactly when no page is free. |
| AutoVacuum.BtShared.PackedFirst | plugins/glib/thirdparties/sqlite3/btree.c:8984-8988 | Root pages that are the first data pages lie within the final size of every vacuum, so the condition of autoVacuumCommit holds as long as tables are created and dropped this way. |
| AutoVacuum.NextRoot | plugins/glib/thirdparties/sqlite3/btree.c:8756-8765 | The place of the next root: all pages skipped are map pages or the pending-byte page. |
| AutoVacuum.BtShared.CreateRoot | plugins/glib/thirdparties/sqlite3/btree.c:8741-8848 | A new root is the first data page after the largest root; a page in the way is renamed to the page allocated instead, roots and free pages are never in the way, the pointer map stays exact, every root from page 2 on has a root entry in it, and the root pages stay the first data pages. |
| AutoVacuum.BtShared.DropRoot | plugins/glib/thirdparties/sqlite3/btree.c:9017-9068 | Dropping a cleared table moves the largest root into its place, frees the page that root leaves, renames nothing else, keeps a root entry for every root, and keeps the root pages the first data pages of the file. |
| Freelist.PageStore.FreePage2 | plugins/glib/thirdparties/sqlite3/btree.c:6079-6206 | Adds exactly its argument to the pages reachable through the trunks, duplicate-free, and to the count: as the last leaf of the first trunk if that has room, else as a new first trunk. |
| Freelist.PageStore.AllocateBtreePage | plugins/glib/thirdparties/sqlite3/btree.c:5757-6065 | Removes exactly the page it returns; without a wish that is the first trunk if it has no leaves, else the leaf on it nearest to nearby (the first leaf if nearby is zero); exact mode returns nearby whenever it is free, LE mode a page at most nearby whenever one is free; it fails only when LE mode finds none; a page appended to the file is neither a map page (auto-vacuum) nor the pending-byte page. |
| Freelist.PageStore.Search | plugins/glib/thirdparties/sqlite3/btree.c:5817-5997 | The walk along the trunks takes exactly one page, one that is wanted if there is a wish; it fails exactly when LE mode finds no page up to nearby. |
| Freelist.PageStore.VisitTrunk | plugins/glib/thirdparties/sqlite3/btree.c:5835-5994 | One trunk yields the trunk page itself or a leaf, with the chain repaired around it, or nothing changes and nothing on it is wanted. |
| Freelist.PageStore.AppendPage | plugins/glib/thirdparties/sqlite3/btree.c:5999-6048 | The appended page skips only the pending-byte page and map pages. |
| Freelist.PageStore.Closest | plugins/glib/thirdparties/sqlite3/btree.c:5932-5960 | The chosen leaf is the one nearest to nearby, or in LE mode one not beyond it. |
| FreeChain.BagFits | plugins/glib/thirdparties/sqlite3/btree.c:5776-5782 | The pages of a sound chain are duplicate-free and at most as many as the file holds. |
| SharedCache.BtShared.QueryLock | plugins/glib/thirdparties/sqlite3/btree.c:275-326 | Succeeds if and only if no other handle's exclusive transaction or conflicting lock stands in the way; a refused write request sets pending. |
| SharedCache.BtShared.SetLock | plugins/glib/thirdparties/sqlite3/btree.c:347-399 | The handle holds the lock afterwards at exactly the level asked, or the higher one it had; locks of other handles and tables do not change. |
| SharedCache.BtShared.LockTable | plugins/glib/thirdparties/sqlite3/btree.c:9986-10003 | Granted exactly when no other handle is in the way; then the handle holds the lock at the level asked or higher, and locks of other handles and tables are there if and only if they were before.  The protocol invariant holds afterwards. |
| SharedCache.BtShared.BeginTrans | plugins/glib/thirdparties/sqlite3/btree.c:3303-3441 | Succeeds exactly when the handle has such a transaction already or nothing stands in the way (read-only file, writer, pending, exclusive handle, foreign locks, schema lock, pager), with the exact new state and locks; otherwise nothing changes, and the refusal is SQLITE_LOCKED exactly when another handle stands in the way. Keeps the invariant, and while pending no transaction starts. |
| SharedCache.BtShared.Conclude | plugins/glib/thirdparties/sqlite3/btree.c:3982-4009 | Ends or downgrades a transaction, releases or weakens exactly its locks, and clears pending when the writer or the last reader it waits for is gone. |
| SharedCache.BtShared.EndTransaction | plugins/glib/thirdparties/sqlite3/btree.c:3920-3954 | State, locks, writer and flags after a transaction has ended, for writers and readers. |
| SharedCache.BtShared.CloseHandle | plugins/glib/thirdparties/sqlite3/btree.c:2636-2689 | The handle disappears with its transaction and exactly its locks; other handles, their locks and another writer stay, and the number of open transactions does not grow. |
| SharedCache.BtShared.OpenHandle | plugins/glib/thirdparties/sqlite3/btree.c:2486-2515 | A new handle has no transaction and the invariant holds. |
| SharedCache.ClearedFlags | plugins/glib/thirdparties/sqlite3/btree.c:411-450 | Pending outlives a reader as long as another transaction besides the writer's is open. |
| Bitvecs.Bitvec.Test | plugins/glib/thirdparties/sqlite3/bitvec.c:130-152 | Exact membership in every one of the three forms. |
| Bitvecs.Bitvec.Set | plugins/glib/thirdparties/sqlite3/bitvec.c:169-232 | Adds exactly the bit; a hash is converted to the recursive form exactly when a new value finds its home slot taken and half of the table used, or its home slot the last empty one; the recursion ends. |
| Bitvecs.Bitvec.Clear | plugins/glib/thirdparties/sqlite3/bitvec.c:240-272 | Removes exactly the bit; the rebuilt hash loses no other value. |
| Bitvecs.Bitvec.Divide | plugins/glib/thirdparties/sqlite3/bitvec.c:209-227 | The in-place conversion of a full hash keeps the set and adds the new value. |
| BitHash.ProbeEnds | plugins/glib/thirdparties/sqlite3/bitvec.c:146-151 | A probe meets an empty slot before it comes around, so it ends. |
| BitHash.ProbeMisses | plugins/glib/thirdparties/sqlite3/bitvec.c:146-151 | A probe that meets an empty slot proves the value absent. |
| BitHash.Enter | plugins/glib/thirdparties/sqlite3/bitvec.c:188-208 | Entering a value where its probe ended keeps every value reachable from its home slot. |
| HashTable.Hash.InsertElement | plugins/glib/thirdparties/sqlite3/hash.c:72-97 | The element is linked so that every non-empty bucket stays one contiguous run of the doubly linked list. |
| HashTable.Hash.Rehash | plugins/glib/thirdparties/sqlite3/hash.c:106-140 | The list is rebuilt with the same elements and the same map, each bucket again one run, unless the size asked for is the present one or the allocator fails; the new size is the one asked for, within the soft limit, and whatever the allocator gives beyond it. |
| HashTable.Hash.FindElement | plugins/glib/thirdparties/sqlite3/hash.c:147-177 | Finds the element with the key up to case if and only if the map binds it, following only valid chain pointers. |
| HashTable.Hash.RemoveElement | plugins/glib/thirdparties/sqlite3/hash.c:182-211 | Removes exactly that key; when its bucket becomes empty its chain pointer may be stale, the other buckets' are not. |
| HashTable.Hash.HashInsert | plugins/glib/thirdparties/sqlite3/hash.c:237-269 | Insert, replace and remove match the case-insensitive map operation, the previous value is returned, and twice as many buckets as elements are asked for exactly when there are then ten elements or more and more than two per bucket. |
| HashTable.Hash.HashFind | plugins/glib/thirdparties/sqlite3/hash.c:217-221 | The value bound to the key, zero for none. |
| HashTable.StrICmp | plugins/glib/thirdparties/sqlite3/util.c:297-309 | Two keys compare equal exactly when they agree up to case. |
| HashTable.Hash.HashClear | plugins/glib/thirdparties/sqlite3/hash.c:35-50 | The empty map, with no bucket array. |
| HashTable.BucketsRemoved | plugins/glib/thirdparties/sqlite3/hash.c:196-203 | Bucket array after a removal: only the bucket of the removed element changes, and its chain pointer moves on. |
| HashBuckets.SameHash | plugins/glib/thirdparties/sqlite3/hash.c:55-66 | Keys that differ in case only hash alike. |
| HashBuckets.FoldAlike | plugins/glib/thirdparties/sqlite3/util.c:297-309 | Two keys fold alike exactly when they have the same length and differ at most between a letter from A to Z and its small letter at the same place. |
| Varint.EncodeShape | plugins/glib/thirdparties/sqlite3/util.c:803-831 | Length, continuation bits and value of the variable-length encoding of every 64-bit number. |
| Varint.PutVarint | plugins/glib/thirdparties/sqlite3/util.c:856-867 | Writes exactly the encoding and nothing else. |
| Varint.PutVarint64 | plugins/glib/thirdparties/sqlite3/util.c:832-855 | The general case writes the groups in order, nine bytes when the top byte is used. |
| Varint.GetSize | plugins/glib/thirdparties/sqlite3/btree.c:1165-1173 | The inlined 32-bit reader returns the encoded number and the byte after it. |
| Varint.GetKey | plugins/glib/thirdparties/sqlite3/btree.c:1181-1194 | The inlined 64-bit reader returns the encoded number, up to nine bytes. |
| Varint.SkipVarint | plugins/glib/thirdparties/sqlite3/btree.c:1296-1297 | The loop of the size function stops right behind the key. |
| CellText.ParseCell | plugins/glib/thirdparties/sqlite3/btree.c:1144-1248 | The parser recovers key, payload size, local size and cell size of every stored cell. |
| CellText.CellSizePtr | plugins/glib/thirdparties/sqlite3/btree.c:1269-1316 | The size function agrees with the parser. |
| CellText.AdjustSizeForOverflow | plugins/glib/thirdparties/sqlite3/btree.c:1082-1111 | For a payload that overflows, the local part and the cell size are those of the file format (Local, SizeOf), which the writer and the statistics table use too. |
| CellText.GetLocalPayload | plugins/glib/thirdparties/sqlite3/dbstat.c:293-314 | The second implementation, which does not test whether the payload fits and relies on a negative remainder, gives the same split. |
| CellText.JustEnough | plugins/glib/thirdparties/sqlite3/btree.c:6242-6243 | The overflow page count is just enough: all pages but the last are full and the last is not empty. |
| CellText.PagesUnique | plugins/glib/thirdparties/sqlite3/btree.c:6242-6243 | No other number of pages is. |
| Payload.BtShared.FillInCell | plugins/glib/thirdparties/sqlite3/btree.c:6300-6480 | For any payload and trailing zeros: the cell text and a chain of new pages store exactly that payload, with the right pointer-map entries, and no other page changes. |
| Payload.BtShared.Spill | plugins/glib/thirdparties/sqlite3/btree.c:6395-6479 | The copying loop, whose pieces end at source, page or payload boundaries, loses and repeats no byte. |
| Payload.BtShared.GrowChain | plugins/glib/thirdparties/sqlite3/btree.c:6424-6475 | A new page is linked at the end of the chain, and the pointer map is right again afterwards. |
| Payload.BtShared.GetOverflowPage | plugins/glib/thirdparties/sqlite3/btree.c:4508-4563 | The guess from the pointer map, where it is taken, gives the same next page as reading the page. |
| Payload.BtCursor.AccessPayload | plugins/glib/thirdparties/sqlite3/btree.c:4626-4811 | Reading any range returns that slice of the payload; writing changes exactly that slice; with or without the lazily filled cache, which stays right; no corruption is reported. |
| Payload.BtCursor.AccessOverflow | plugins/glib/thirdparties/sqlite3/btree.c:4677-4804 | The walk along the overflow chain, started from its head or from a cached page. |
| Payload.BtShared.ClearCell | plugins/glib/thirdparties/sqlite3/btree.c:6217-6286 | Frees exactly the pages of the chain, each once, and nothing else, also while the pointer map is partly out of date. |
| Payload.BtShared.DecodeOverflow | plugins/glib/thirdparties/sqlite3/dbstat.c:366-400 | The statistics table lists exactly the chain and the bytes used on its last page. |
| Payload.Placed | plugins/glib/thirdparties/sqlite3/btree.c:6295-6298 | A cell built in a buffer and copied to a page stores its payload there. |
| Payload.PayloadUnique | plugins/glib/thirdparties/sqlite3/btree.c:4626-4811 | Page bytes and chain determine the payload. |
| OverflowChain.CellCopied | plugins/glib/thirdparties/sqlite3/btree.c:6295-6298 | A cell is the same cell wherever its bytes are. |
| BtMutex.StepInv | plugins/glib/thirdparties/sqlite3/btmutex.c:71-152 | Every atomic action of every connection keeps: handles ascend by address, mutexes are held exactly for locked handles, and what is locked at each point of the protocol. |
| BtMutex.RunInv | plugins/glib/thirdparties/sqlite3/btmutex.c:71-152 | The invariant holds in every state of every run of any number of connections. |
| BtMutex.HoldsSmaller | plugins/glib/thirdparties/sqlite3/btmutex.c:118-136 | A connection blocked on a mutex holds only mutexes of smaller address. |
| BtMutex.NoCycle | plugins/glib/thirdparties/sqlite3/btmutex.c:118-136 | The wait-for graph has no cycle. |
| BtMutex.Progress | plugins/glib/thirdparties/sqlite3/btmutex.c:118-136 | From every blocked connection a path of waits leads to one that is not blocked. |
| BtMutex.EnterEnds | plugins/glib/thirdparties/sqlite3/btmutex.c:105-137 | Inside Enter every action brings its end nearer, and one is enabled unless the connection is blocked. |
| BtMutex.AllWantedLocked | plugins/glib/thirdparties/sqlite3/btmutex.c:71-137 | Back outside Enter and Leave, exactly the wanted handles are locked. |
| BtMutex.Balanced | plugins/glib/thirdparties/sqlite3/btmutex.c:93-152 | Only Enter and Leave change the reference count of a handle, by one. |
| BtMutex.Exclusive | plugins/glib/thirdparties/sqlite3/btmutex.c:27-50 | Two connections never have the same b-tree locked. |
| BtMutex.OpenInv | plugins/glib/thirdparties/sqlite3/btree.c:2486-2515 | A new handle is linked at the place that keeps the list ascending. |
| BtMutex.OpenAdds | plugins/glib/thirdparties/sqlite3/btree.c:2486-2515 | An opened handle joins its connection's list, unwanted and not locked; nothing else changes. |
| BtMutex.CloseRemoves | plugins/glib/thirdparties/sqlite3/btree.c:2680-2686 | A closed handle leaves the list; the others stay. |
| BtMutex.OutsideChoices | plugins/glib/thirdparties/sqlite3/btmutex.c:71-152 | Outside, a connection can enter any of its handles, leave exactly those it has locked and close exactly the others; inside it can do none of these. |
| BtMutex.LastLeave | plugins/glib/thirdparties/sqlite3/btmutex.c:142-152 | A locked handle can be left, and leaving it for the last time, not before, frees the mutex. |
| Coverage.HeapInsert | plugins/glib/thirdparties/sqlite3/btree.c:9439-9448 | Keeps heap order and adds exactly the entry. |
| Coverage.HeapPull | plugins/glib/thirdparties/sqlite3/btree.c:9449-9466 | Removes and returns a least entry, keeps heap order and all other entries; says so when there is none. |
| Coverage.CheckCells | plugins/glib/thirdparties/sqlite3/btree.c:9578-9642 | Complaints about cells out of range are exactly those due, last cell first; on a leaf without any, the heap holds exactly the cells' ranges. |
| Coverage.Sweep | plugins/glib/thirdparties/sqlite3/btree.c:9686-9722 | Disjoint ranges: silent or one message with the true left-over count; otherwise the first message names the byte at which, in ascending order, a range first begins before the end of the one before it, and a wrong count follows only if no range is left. |
| Coverage.CheckCoverage | plugins/glib/thirdparties/sqlite3/btree.c:9576-9722 | The check of a page is silent if and only if every cell lies in the content area, no byte is in two of header, cells and freeblocks, and the bytes in none are as many as the header counts; otherwise its messages are those due, in order. |
| Coverage.CheckExact | plugins/glib/thirdparties/sqlite3/btree.c:9639-9722 | What silence of the messages means: all cells in the content area, ranges apart, and as many untracked bytes as reported. |
| Coverage.HeapRoom | plugins/glib/thirdparties/sqlite3/btree.c:9639-9685 | The heap, one page of 32-bit words, has room for all ranges and their count even when cells overlap. |
| Bit64.Alphabet.constructor | plugins/glib/thirdparties/bit64/bit64.cpp:29-55 | The erase-and-step loop takes symbol 32 first and then, each time, the symbol that leaves exactly one remaining symbol between it and the last one on the circle; the result is a permutation of the 64 symbols, and rev_map inverts it. |
| Bit64.Alphabet.Fill | plugins/glib/thirdparties/bit64/bit64.cpp:47-54 | The same, for the loop itself. |
| Bit64.FirstTaken | plugins/glib/thirdparties/bit64/bit64.cpp:42-54 | The alphabet begins with symbol 32. |
| Bit64.Alphabet.Inverse | plugins/glib/thirdparties/bit64/bit64.cpp:48-54 | Every symbol is at the place that rev_map gives. |
| Bit64.Alphabet.Encode | plugins/glib/thirdparties/bit64/bit64.cpp:87-112 | Writes exactly the ceiling of 4n/3 symbols, whose digits of six bits are the number of the n bytes that the length cast to int lets the loop see. |
| Bit64.Alphabet.Decode | plugins/glib/thirdparties/bit64/bit64.cpp:117-141 | For any text: all whole bytes of the number of the symbols that the length cast to int lets the loop see, and one more exactly when a non-zero rest is left. |
| Bit64.Alphabet.ThereAndBack | plugins/glib/thirdparties/bit64/bit64.cpp:87-141 | For every byte string below 2^31 bytes: decoding its encoding returns it if and only if it is shorter than 0x60000000 bytes; from there on the text is too long for an int and nothing comes back. |
| Bit64.RoundTrip | plugins/glib/thirdparties/bit64/bit64.cpp:87-141 | What Encode and Decode promise together: decoding an encoding returns the bytes, trailing zeros included and no spurious byte. |
| Bit64.NumberUnique | plugins/glib/thirdparties/bit64/bit64.cpp:117-141 | A number has one sequence of digits of a given length. |
| Backups.Backup.BackupOnePage | plugins/glib/thirdparties/sqlite3/backup.c:227-313 | Source bytes go to the same offsets, for smaller, equal and larger destination pages, except those on the destination's pending-byte page; no other byte changes; the page count is put in only when not updating. |
| Backups.Backup.Step | plugins/glib/thirdparties/sqlite3/backup.c:348-597 | From any state of the run the result is exactly that of the lock, of a page size that cannot be followed (a destination in WAL mode, or in memory with a page due), of the copying being complete, or OK; copied pages agree afterwards; a step that returns OK has copied exactly nPage more pages and changed nothing else; at DONE the images agree apart from the source's pending-byte page, the header fields hold the stamps that are due, pages cut off are journalled, and the file has the size of the source; a fatal error stays. |
| Backups.Backup.CopyPages | plugins/glib/thirdparties/sqlite3/backup.c:421-432 | The copying loop, which passes over the pending-byte page: exactly the pages due are copied, and it is refused exactly when a page is due for a destination in memory with another page size. |
| Backups.Backup.SourceWrite | plugins/glib/thirdparties/sqlite3/backup.c:690-717 | A page written in the source while the backup runs keeps all copied pages in agreement: it is copied at once if it had been copied before, and changes nothing in the destination otherwise. |
| Backups.Backup.SourceReplaced | plugins/glib/thirdparties/sqlite3/backup.c:730-736 | After a change by another process the backup begins anew and claims nothing. |
| Backups.Backup.SourceShrink | plugins/glib/thirdparties/sqlite3/backup.c:416-442 | A source that loses pages keeps the agreement. |
| Backups.Backup.FinishCopy | plugins/glib/thirdparties/sqlite3/backup.c:444-570 | With all pages copied, stamping header fields (schema cookie, file format of WAL mode, change counter, version) and writing the extra pages completes the agreement and the file size; no other header field changes. |
| Backups.Backup.DestTruncate | plugins/glib/thirdparties/sqlite3/backup.c:480-513 | The page count is rounded up to cover the source and never ends on the pending-byte page, which it drops only when the source ends there. |
| Backups.Backup.ExtraPages | plugins/glib/thirdparties/sqlite3/backup.c:536-551 | The source pages that lie on the destination's pending-byte page are written to the file. |
| Backups.PageSynced | plugins/glib/thirdparties/sqlite3/backup.c:227-313 | Copying a changed page restores the agreement of all pages before iNext. |
| BackupImage.PowersOfTwo | plugins/glib/thirdparties/sqlite3/backup.c:480-488 | All page sizes from 512 to 65536 divide one another and the offset of the pending byte. |
| Constants.AllPrimes | plugins/glib/thirdparties/sha256/sha256.c:54-71 | The 64 numbers from which the constants come are all the primes below 312. |
| Constants.RoundConstants | plugins/glib/thirdparties/sha256/sha256.c:54-71 | Constant t is the first 32 bits of the fractional part of the cube root of prime t (FIPS 180-4, section 4.2.2). |
| Constants.InitialValue | plugins/glib/thirdparties/sha256/sha256.c:131-139 | The initial hash value is the first 32 bits of the fractional parts of the square roots of the first eight primes (section 5.3.3). |
| Sha256Code.SameFunctions | plugins/glib/thirdparties/sha256/sha256.c:98-102 | The shortened choice and majority functions are those of the standard. |
| Sha256Code.RoundRenamed | plugins/glib/thirdparties/sha256/sha256.c:95-102 | Renaming registers instead of moving them is a round of section 6.2.2. |
| Sha256Code.RollOn | plugins/glib/thirdparties/sha256/sha256.c:98-98 | Sixteen words kept in a ring give the message schedule. |
| Sha256Code.Sha256Context.RoundTransform | plugins/glib/thirdparties/sha256/sha256.c:93-106 | One call is one round of section 6.2.2 up to the renaming, and rolls the schedule on by one word. |
| Sha256Code.Sha256Context.HashBlock | plugins/glib/thirdparties/sha256/sha256.c:109-129 | One block: the hash value of section 6.2.2. |
| Sha256Code.Sha256Context.Hash | plugins/glib/thirdparties/sha256/sha256.c:143-157 | Any chunk, at any position: the context stands for the message with the chunk appended. |
| Sha256Code.Sha256Context.Done | plugins/glib/thirdparties/sha256/sha256.c:160-183 | For every message under 2^61 bytes and every split into chunks: the digest of FIPS 180-4, sections 5.1.1 and 6.2.2, whatever the buffer held. |
| Sha256Code.PaddedIs | plugins/glib/thirdparties/sha256/sha256.c:162-167 | The masks that mark the end of the message within a word. |
| Sha1Code.Round | plugins/glib/thirdparties/sha1/sha1.c:31-50 | The five macros compute a round of section 6.1.2, with the block swapped or the schedule rolled in place. |
| Sha1Code.FiveRounds | plugins/glib/thirdparties/sha1/sha1.c:85-165 | Five macro calls with rotating names are five rounds of section 6.1.2. |
| Sha1Code.Transform | plugins/glib/thirdparties/sha1/sha1.c:54-177 | Eighty rounds with rotating variables: the hash value of section 6.1.2. |
| Sha1Code.Sha1Ctx.Update | plugins/glib/thirdparties/sha1/sha1.c:198-226 | Any chunk that, with the bytes in the buffer, the 32-bit index sums can count: the context stands for the message with the chunk appended. |
| Sha1Code.IndexWraps | plugins/glib/thirdparties/sha1/sha1.c:212-225 | For every longer chunk the index sum wraps around and the chunk would be taken for one that fits in the buffer. |
| Sha1Code.Sha1Ctx.Count | plugins/glib/thirdparties/sha1/sha1.c:208-211 | The two-word bit count, carries included. |
| Sha1Code.Sha1Ctx.Final | plugins/glib/thirdparties/sha1/sha1.c:231-280 | The digest of FIPS 180-4, sections 5.1.1 and 6.1.2, with padding fed through Update. |
| Sha1Code.Sha1String | plugins/glib/thirdparties/sha1/sha1.c:282-295 | The digest of a whole string taken in byte by byte, and a terminating zero. |
| Fips180.FoldBlock | plugins/glib/thirdparties/sha256/sha256.c:143-157 | The hash of a longer message is one more compression. |

## Left out

- Pager, WAL, VFS, journals, record comparison: not part of this model.  Pages are a map whose accesses succeed; record order is that of integers.
- Malloc failure, I/O errors, reference counts, secure-delete zeroing, and behaviour on corrupt files: the `SQLITE_CORRUPT` returns are proved unreachable from sound states, not specified.
- The tree level knows pages as values and cursors as paths, not page numbers; page allocation and pointer-map updates during balancing are left out there.  Overflow pages count there by the size they leave in the cell.
- BtCursor.BtCursor.MoveTo: the shortcuts that skip the search when the cursor is already in place are left out.
- BtCursor.BtCursor.Insert: the caller's `seekResult` shortcut and overwriting in place are left out; each insert seeks first.
- BtCursor.BtCursor.Delete: a bulk cursor, which the SQL layer only uses to insert, must not make an interior page overflow at an index other than zero: balance_nonroot would then not attend to the overflow cell (`Nonroot.ChooseSiblings`).  Saving other cursors' positions is left out.
- Siblings.EditSiblings: editPage's own choice between editing a page in place and rebuilding it is one step that reads the cells through the pointers; cells removed and added at page ends are not modelled as separate byte edits.
- Packing.EvenPair: the reason why a page may be left a little larger than its neighbour (one cell) is stated, an optimal balance is not, as the source does not promise one.
- MemPages.MemPage.InsertCell: the size of a cell is any function of its bytes; the pointer-map entry for a cell's overflow page is left out.
- Parsing cells whose header the page does not hold: only stored cells are parsed (`CellText.ParseCell`).
- The general `sqlite3GetVarint` of `util.c`: the inlined readers of `btree.c` are modelled instead.
- The `SQLITE_DIRECT_OVERFLOW_READ` branch of accessPayload, a build option.
- Payload.BtShared.FillInCell: here allocation is of any free page or the next one of the file; which one the freelist yields is the matter of `Freelist`.
- AutoVacuum.BtShared.DropRoot: sqlite3BtreeClearTable, which frees the pages below the dropped root first, is left out; the root is an empty page when it starts.
- AutoVacuum.BtShared.CreateRoot: the file without auto-vacuum, where the root goes to any page, is left out.
- Freelist.PageStore.AllocateBtreePage: what the pointer map says of `nearby` is a parameter.
- SharedCache.BtShared.BeginTrans: busy handlers, savepoints and the read-uncommitted flag are left out; whether the pager grants the transaction is a parameter.  All handles are sharable.
- Stat4.Stat4Accum.StatPush: a scan with mxSample or more periodic samples is left out, since no sample is left to drop then (`Stat4.Stat4Accum.TooManyRows`); a scan of no more rows than statInit was told has fewer (`Stat4.FewPeriodic`).
- Stat4.Stat4Accum.FindMin: the random tie-breaker iHash is any number; sample arrays are values, not reused buffers.
- Stat4.Stat4Accum.Finish: which of several samples of equal count are retained depends on iHash; no global optimum beyond the prefixes that are represented is stated, as the source promises none.
- Bitvecs.Bitvec.Set: recursive calls stand for the descent loop; the size is small enough that the divisor sum does not wrap; union sizes are those of a 64-bit machine.
- Backups.Backup.Step: one backup object per source, the destination connection present (`sqlite3BtreeCopyFile` is left out), codecs left out; the pager's header stamps are parameters; `nRemaining` is stated where the source has not shrunk below what was copied.
- Backups.Backup.NewDb: of the first page that newDatabase writes, the header string, page size and constant fields are modelled; reserved bytes and the auto-vacuum fields are left out.
- Backups.Backup.DestTruncate: when the destination ends on its pending-byte page the journalling of that page is left out.
- BtMutex.StepInv: handles whose cache is sharable, one thread per connection; EnterAll and LeaveAll are sequences of Enter and Leave.
- Coverage.CheckCoverage: freeblocks are well formed, as page initialisation ensures, and the error limit is not reached; key order, child pages and overflow lists, which the same loop checks, are left out.
- HashTable.Hash.Rehash: how many buckets more than asked for the allocator gives is a parameter.
- Sha256Code.Sha256Context.Done: a little-endian machine; the clean-up of the buffer is only modelled in part.
- Fips180.K1: the constants and initial value of SHA-1 are transcribed; the standard does not derive them.
- Sha1Code.Transform: the eighty written-out rounds are sixteen turns of five; wiping the variables is left out.
- Bit64.Alphabet.Encode: the sizes computed with `ceilf` are left out, the caller's buffer is large enough; `|` of numbers without common bits is addition.
- Bit64.Alphabet.Decode: for symbols below 128, since the lookup takes a signed char.
- The rest of the repository: user interface, build scripts, SQL parser and code generator, `date.c` (floating point), `glib.cpp` token checks (foreign elliptic-curve code), and tables or stubs such as `complete.c`, `global.c`, `fault.c`: not part of this model, either because it depends on the parser and virtual machine or because it is simple.
