# A verified model of SQLite's b-tree layer and of SQPyte's register cache

The project models the storage engine that SQPyte embeds, and the part of SQPyte that specialises it:

- **B-trees.** Pages with cells and children, cursors as paths of pages, search, stepping, insertion, deletion, and the
  balancing of pages from a leaf up to the root. A table (keyed by rowid, with separators on interior pages) and an
  index (keyed by records, with entries on every page) are both covered. The result is that the tree is an ordered map.
- **The bytes of a page.** Cell pointers, freeblocks, fragments and the gap; cells with their varints and overflow
  pages; the freelist with its trunks and leaves.
- **The file.** Pointer maps and auto-vacuum; online backup between two page sizes.
- **Sharing.** Table locks and transactions of connections that share a cache; the mutexes of their b-trees.
- **ANALYZE.** The samples that one scan of an index leaves.
- **Bitvec** and the **register cache** of the SQPyte interpreter.

Modules and files have the same names. `Arith`, `Encoding`, `Tree`, `Path` and `Zipper` are shared by others; `CellFormat`
joins the sizes of real cells to the abstract sizes of `PageSpace` and `Redistribution`, and `VacuumFreelist` joins the
allocator on trunk pages to the free set of `AutoVacuum`. `dafny verify dfyconfig.toml` checks everything.

## Where the code does less than it says

- **sqlite3BtreeInsert with seekResult 0.** Its comment allows the cursor to point to any entry. The code inserts behind
  the current entry without a search when the cursor remembers the key before the new one (btree.c:7579), and an
  insertion that does not overflow the page leaves the remembered key behind (btree.c:7650), so that the next search for
  that key stops at the wrong entry (btree.c:4802-4812). `Update.InsertNext` and `Update.AppendThenInsert` are two runs
  that leave a key twice in a table; `Update.FailingStates` gives the states they go wrong in. `InsertRight` in `Update`
  is a condition on the state before the call, and `Update.Insert` proves that the call leaves the search tree with the
  new entry if and only if it holds. It speaks of the key that is remembered, the current key, the entries between it and
  the new key, and the separators behind the current leaf; the separator next to the leaf does not matter when the leaf
  overflows, since balancing replaces it.
- **sqlite3BitvecSet.** The divisor of a large set is computed in 32 bits (bitvec.c:215). `Bitvec.DivisorFits` says
  exactly when that is right; for all other sizes it is 0 (`Bitvec.DivisorWraps`). Such a set works as a hash table until
  the table would have to be divided, and the call that would do so never returns (`Bitvec.ReturnsUndivided`), since
  every table it makes is again one that has to be divided.
- **CacheState.unique.** It compares doubles with `==` (mem.py:1086-1091), and so takes a state with -0.0 for one with
  0.0. On a register of which nothing is known, the constant -0.0 is read back as 0.0, because adding the knowledge has
  just interned the state with 0.0 (`RegisterCache.NegativeZero`). `RegisterCache.ReadBack` says exactly when a constant
  that is written is read back as it is, in terms of the state before the write and the table. A -0.0 that is held can
  become 0.0 later, when flags are written (`RegisterCache.FlagsFlip`). So the answers of a run with the cache are those
  of a run without it only up to the signs of zeros, and exactly so when no constant of the run is -0.0 and the table
  holds none (`RegisterCache.Run`). Without the cache nothing is lost, but the table gets the same states.
- **CacheState.is_u_i_known after a write of the other kind.** A write of a real number leaves the integer known if it was
  (`RegisterCache.OtherKind`), and a read of the integer then gives the constant that was known before, or 0 if the write
  was not constant, since the list that it is read from is never written (`RegisterCache.RealThenInt`); so it is memory's
  integer exactly if the integer was not known, or has that value by chance. `RegisterCache.IntThenReal` is the mirror
  image. Reading by the kind that a register has is not affected.

## Model

| member | source | states |
|---|---|---|
| PtrMap.FinalDbSize | sqlite/src/btree.c:3298-3314 | for every size and free count of a database, the returned page is one that can hold data, and exactly as many such pages lie up to it as are in use |
| PtrMap.OrdinaryCountClosed | sqlite/src/btree.c:823-835 | how many of the first n pages can hold data, in closed form, for every n and every place of the pending-byte page |
| PtrMap.PtrmapOnGrid | sqlite/src/btree.c:823-835 | exactly which pages are pointer-map pages: the regular grid, but for the pending-byte page, whose successor takes its place |
| PtrMap.OrdinaryPageUnique | sqlite/src/btree.c:3298-3314 | a page that can hold data is determined by how many such pages there are up to it, so finalDbSize has only one right answer |
| AutoVacuum.BtShared.AutoVacuumCommit | sqlite/src/btree.c:3366-3413 | a commit leaves no free page, no gap and a true pointer map; the pages are the old ones up to one injective renumbering of every pointer, and roots keep their numbers; the file is to be cut exactly when a page was free |
| AutoVacuum.BtShared.IncrVacuum | sqlite/src/btree.c:3324-3355 | one step shortens the file by exactly one page that can hold data and takes exactly one off the free ones, or reports that there is none and changes nothing; the pages are the same up to renumbering |
| AutoVacuum.BtShared.RelocatePage | sqlite/src/btree.c:3109-3180 | moving a page changes exactly the pointers to it and the pointer-map entries of what it points to |
| AutoVacuum.FreePageExists | sqlite/src/btree.c:3240-3271 | as long as a page in use lies beyond the final size, a free one lies within it, so the search for a target cannot fail |
| AutoVacuum.EntriesRenumbered | sqlite/src/btree.c:3366-3413 | after any renumbering that a vacuum makes, every table has the same entries in the same order |
| VacuumFreelist.AllocateBtreePage | sqlite/src/btree.c:5234-5548 | allocation from trunk and leaf pages meets the contract of the free set that auto-vacuum relies on, and writes no page in use |
| VacuumFreelist.CountInHeader | sqlite/src/btree.c:3389-3390 | the number of free pages that a commit computes with is the one in the file header |
| Freelist.BtShared.AllocateBtreePage | sqlite/src/btree.c:5234-5548 | exactly one page leaves the list, the wanted one or one that is no greater where the mode asks for that, and otherwise the closest one that the first trunk lists, or the file grows by one page that can hold data, which the header then counts; the list stays well formed, no other page in use is written, and of page 1 only these fields |
| Freelist.BtShared.FreePage2 | sqlite/src/btree.c:5562-5688 | exactly one page joins the list, as a leaf of the first trunk while that has fewer than usableSize / 4 - 8, and else as the first trunk; no other page in use is written, and of page 1 only the fields of the list |
| Freelist.BtShared.CutOff | sqlite/src/btree.c:3398-3405 | the end of a vacuum leaves an empty list on a file of the final size |
| Freelist.ListKept | sqlite/src/btree.c:5234-5548 | the list depends on free pages only |
| Packing.Pack | sqlite/src/btree.c:6876-6951 | the two packing passes find a layout on NB+2 pages exactly when there is one, with no empty page, true page sizes, and no more pages than any other layout needs; each boundary is moved from where the first pass left it just as far as keeps the left page, as the first pass filled it, the larger |
| Packing.FirstTwoEven | sqlite/src/btree.c:6911-6942 | between the two leftmost pages one more cell to the right would make the left one the smaller |
| Packing.LaterNotEven | sqlite/src/btree.c:6921-6942 | between later pages it need not: five cells on three pages, of which the second could still give one to the third |
| Packing.GreedyNeedsPages | sqlite/src/btree.c:6894-6907 | filling pages from the left needs no more pages than any other layout |
| UpdateOrder.UpdateSiblings | sqlite/src/btree.c:7166-7231 | the pass down and up rewrites each sibling once, never before its old cells have been copied, and each ends with the cells that the layout gives it |
| Redistribution.BalanceNonroot | sqlite/src/btree.c:6636-7304 | sharing cells among siblings always succeeds, keeps the entries and their order, and makes every child fit, on as few pages as any layout needs and evened out; the separators are right afterwards exactly when those it keeps were |
| Redistribution.RebuiltSep | sqlite/src/btree.c:7118-7164 | between leaves of a table all separators it puts are right whatever the old ones were; on interior pages each one stays right or wrong |
| Balance.BalancePages | sqlite/src/btree.c:7386-7496 | balancing from any page up ends with every page within its space and none empty, the same entries, and the separators as right or wrong as was known before; it goes up page by page, sharing the cells of each, and ends only at the root or at a page with at most two thirds of its space free |
| Cursor.BtCursor.MovetoUnpacked | sqlite/src/btree.c:4785-4985 | a search finds the key, or stops at a neighbour of its place on the leaf for it and says on which side; it does so exactly when a search in place finds an entry that agrees with the remembered key |
| Cursor.SoughtInPlace | sqlite/src/btree.c:4799-4812 | when the answer that is given without a search is right |
| Cursor.BtCursor.Next | sqlite/src/btree.c:5024-5109 | from an entry, or a saved position after any change of the tree, to the first entry above that key |
| Cursor.BtCursor.Previous | sqlite/src/btree.c:5134-5207 | from an entry, or a saved position after any change of the tree, to the last entry below that key |
| Cursor.BtCursor.RestoreCursorPosition | sqlite/src/btree.c:741-759 | a saved cursor comes back to its key, or next to where it was |
| Cursor.BtCursor.CursorRestore | sqlite/src/btree.c:795-813 | it is a different row exactly when the key is gone |
| Cursor.BtCursor.ScanForward | sqlite/src/btree.c:4693-4710 | First and Next until the end visit every entry once, in key order |
| Cursor.BtCursor.ScanBackward | sqlite/src/btree.c:4716-4755 | Last and Previous until the start visit every entry once, in the opposite order |
| Update.Insert | sqlite/src/btree.c:7521-7665 | for every cursor state, also after sqlite3BtreeClearCursor, the entries afterwards are known and every page fits; the tree is the search tree with key set to payload if and only if InsertRight held before; one page has got the cell, and the tree is rebalanced from there exactly if that page then held too much |
| Update.AppendIsRight | sqlite/src/btree.c:7573-7582 | at the last entry, remembering its key or a smaller one, an insertion of a greater key is right |
| Update.AppendRows | sqlite/src/btree.c:7637-7647 | rows appended one after the other on one cursor are all in the tree, whatever pages split in between |
| Update.AppendThenInsert | sqlite/src/btree.c:7573-7582 | a run in which a stale remembered key makes an insertion overwrite another row |
| Update.InsertNext | sqlite/src/btree.c:7573-7582 | a run in which an insertion adds a key that is there already |
| Update.FailingStates | sqlite/src/btree.c:4799-4812 | the states in which those two insertions begin do not meet the condition, and what they leave |
| Update.PlacedBehind | sqlite/src/btree.c:7573-7582 | an entry put behind the current one is in order exactly when its key is above, with no other in between |
| Update.Delete | sqlite/src/btree.c:7671-7781 | deletion removes exactly the current entry, from a leaf or from an interior page, and leaves a finished search tree; it is the one rebalanced from the leaf that lost a cell, and from the interior page whose cell was replaced, so that a page more than two thirds empty shares the cells of its siblings |
| Update.UpsertUpdates | sqlite/src/btree.c:7521-7665 | the entry list with the cell put in its place, as a map, is the map with the key updated |
| CursorRun.Serve | sqlite/src/btree.c:4785-4985 | one search, insertion, deletion, step forward or back, saving or restoring of a position, or change of the tree by another cursor is done as on an ordered map with a place in it, and leaves cursor and tree fit for the next one, exactly when Right held before it |
| CursorRun.Run | sqlite/src/btree.c:7521-7781 | every answer of a run, in any order and number of requests and with any changes by others to a saved cursor, is that of an ordered map, up to the first request that the code would not do rightly; without a key being read there is none |
| CursorRun.NothingRemembered | sqlite/src/btree.c:7573-7582 | only a key that has been read, and is remembered with an entry, can mislead the cursor |
| CursorRun.FindFollows | sqlite/src/btree.c:4741-4784 | the result of a search, in terms of the keys of the map |
| PageSpace.MemPage.InsertCell | sqlite/src/btree.c:6024-6101 | a cell goes onto the page, at its index, exactly when there is room and none was turned away before; the other cells keep their bytes and their order, and the file header, the flags, the right child and the reserved bytes are not touched |
| PageSpace.MemPage.DropCell | sqlite/src/btree.c:5970-6010 | exactly that cell is gone and the others keep their bytes and their order; nor are the file header, the flags, the right child and the reserved bytes touched |
| PageSpace.MemPage.AllocateSpace | sqlite/src/btree.c:1308-1378 | space that the free count promises is always found, apart from every cell, freeblock and pointer, and outside what is not for cells |
| PageSpace.MemPage.PageFindSlot | sqlite/src/btree.c:1246-1293 | a slot in the first freeblock that is large enough, or none with the page unchanged; fragments never exceed their bound |
| PageSpace.MemPage.FreeSpace | sqlite/src/btree.c:1393-1477 | freed space is joined with its neighbours, and cells, freeblocks, fragments and gap still divide the page exactly |
| PageSpace.MemPage.DefragmentPage | sqlite/src/btree.c:1148-1230 | all free space is in the gap and the cells keep their bytes and their order |
| PageSpace.MemPage.InitPage | sqlite/src/btree.c:1542-1667 | the free space computed from the bytes of a page is the one that was kept up to date through all changes |
| Overflow.Database.FillInCell | sqlite/src/btree.c:5779-5960 | the cell begins with its child pointer and sizes, it and its new overflow pages hold exactly the payload and the zeros after it, the parse of the cell gives back its key and size, no other page in use changes, and with auto-vacuum the pointer map names the page before each new one |
| Overflow.Database.ClearCell | sqlite/src/btree.c:5700-5765 | exactly the overflow pages of the cell are freed, and marked as free in the pointer map |
| Overflow.BtCursor.AccessPayload | sqlite/src/btree.c:4163-4353 | exactly the asked part of the payload is read, whatever part of the page cache is filled |
| Overflow.FillAndRead | sqlite/src/btree.c:4163-4353 | any parts of a payload that was stored are read back, in any order |
| Overflow.FillAndClear | sqlite/src/btree.c:5700-5765 | storing a cell and clearing it leaves the pages in use as they were |
| Overflow.SizesAgree | sqlite/src/btree.c:1055-1108 | the quick size of a cell is the size that the full parse gives |
| Overflow.LocalSpills | sqlite/src/btree.c:1003-1036 | how much of a payload stays on the page: the bounds as fractions of the page, a part within them, and a whole number of overflow pages beyond it where that is possible |
| CellFormat.LayoutHolds | sqlite/src/btree.c:1055-1108 | real cells meet what the page allocator assumes of cell sizes |
| CellFormat.FormatHolds | sqlite/src/btree.c:1055-1108 | real cells meet what balancing assumes of cell sizes, for every page size |
| CellFormat.RoomHolds | sqlite/src/btree.c:1542-1667 | the free bytes counted on a page are what balancing takes as its free space, for every page and its cells |
| Encoding.RoundTrip | sqlite/src/util.c:745-775 | a variable-length integer is read back as it was written, with the same length, whatever follows it |
| Encoding.EncodeFormat | sqlite/src/util.c:721-756 | as few bytes as will do, of 7 bits each from the highest down, or nine bytes with 8 bits in the last |
| Backup.Run | sqlite/src/backup.c:355-646 | over any run of steps, writes, truncations and replacements of the source, with any faults, a backup that is done has copied the source as it is at that moment, with the number of pages in its header accounted for, in a step that no one refused, and any other is rolled back; every step on the way was refused, with nothing copied, where the source was being written, a lock was not granted, or WAL mode does not allow two page sizes |
| Backup.Sqlite3Backup.Step | sqlite/src/backup.c:355-595 | a writer of the source, a refused lock, or WAL mode with two page sizes end a step with that code and nothing copied; otherwise which page comes next, which error is returned, of reading or writing a page or of the commit, and that a step that ends the backup leaves a finished copy, with the change counters of the destination where it has any |
| Backup.DoneGranted | sqlite/src/backup.c:376-416 | in every run the step that ends a backup was made without a writer of the source and with both files locked |
| Backup.LockedBy | sqlite/src/backup.c:387-394 | in every run a destination that is locked was locked by an earlier step that no writer of the source stood against |
| Backup.Sqlite3Backup.BackupOnePage | sqlite/src/backup.c:234-320 | exactly the bytes of the source page are copied, to the places they have with the other page size, and nothing goes to the pending-byte page; when a page cannot be written nothing outside those places has changed |
| Backup.Sqlite3Backup.SourceWrite | sqlite/src/backup.c:688-708 | a page that has been copied stays a true copy when the source writes it |
| Backup.TruncationFacts | sqlite/src/backup.c:447-511 | the assertions on the final size of the destination hold for all sizes and places of the pending byte |
| Bitvec.Run | sqlite/src/bitvec.c:129-268 | after any run of sets and clears, for every 32-bit size, membership is that of the set; where the divisor wraps around, up to the first call that does not return |
| Bitvec.Bitvec.Set | sqlite/src/bitvec.c:165-228 | exactly one number is added in each of the three forms, also when a hash table is divided, and for all sizes as long as a table need not be divided by 0 |
| Bitvec.Bitvec.Clear | sqlite/src/bitvec.c:236-268 | exactly one number is taken away in each of the three forms |
| Bitvec.Bitvec.Test | sqlite/src/bitvec.c:129-151 | membership in each of the three forms; every probe ends |
| Bitvec.DivisorFits | sqlite/src/bitvec.c:215 | the divisor computed in 32 bits is the rounded-up quotient exactly when the sum does not overflow |
| Bitvec.DivisorWraps | sqlite/src/bitvec.c:215 | it is 0 for exactly the sizes for which the sum overflows |
| Bitvec.ReturnsUndivided | sqlite/src/bitvec.c:165-228 | with a divisor of 0 a call returns, having added its number, if and only if the hash table need not be divided; the nesting of calls has no end otherwise |
| BtreeMutex.StepKeeps | sqlite/src/btmutex.c:27-151 | every step of every connection, opening and closing b-trees included, keeps the order of the lists, the stages of the protocol and the exclusion of two owners |
| BtreeMutex.NoCycle | sqlite/src/btmutex.c:71-137 | in no reachable state do connections wait for each other in a circle, however many there are |
| BtreeMutex.NoDeadlock | sqlite/src/btmutex.c:71-137 | whenever a connection is blocked, one that holds a mutex is not |
| BtreeMutex.UnblockedSteps | sqlite/src/btmutex.c:105-137 | a connection that is not blocked can go on, whatever the others do |
| BtreeMutex.EnterReturns | sqlite/src/btmutex.c:71-137 | from a call of Enter to its return exactly one count grows, by one, and exactly the wanted b-trees are locked |
| BtreeMutex.LeaveReturns | sqlite/src/btmutex.c:143-151 | a call of Leave takes exactly one count down, by one; the b-tree stays locked while it is wanted, and then its mutex is free for all |
| SharedCache.Run | sqlite/src/btree.c:2854-2990 | for every list of requests the answers and the state are those of the one-step functions, applied one after the other, and at every step as the rules on who has which lock say |
| SharedCache.LockExcludes | sqlite/src/btree.c:241-292 | in every run, from the moment a connection is granted a lock until it ends its transaction, no other is granted one on the same table if one of the two is for writing |
| SharedCache.LockRules | sqlite/src/btree.c:241-365 | the test for unequal locks is the full rule, that one of two locks is for writing; the owner then has the stronger of the old lock and the new one, and all other locks stay |
| SharedCache.AlwaysSafe | sqlite/src/btree.c:2854-2990 | after every list of requests no two locks conflict, there is one writer, and every lock belongs to a transaction that allows it |
| SharedCache.WriteLockAlone | sqlite/src/btree.c:241-292 | in every safe state a table with a write lock has one owner, the writer |
| SharedCache.ExclusiveAlone | sqlite/src/btree.c:2854-2990 | during an exclusive transaction there is no other |
| SharedCache.BtShared.LockTable | sqlite/src/btree.c:313-365 | a lock is granted exactly when no other connection is in the way, and then its owner has it, as strong as it asked for or had, and no other lock has changed |
| SharedCache.BtShared.BeginTrans | sqlite/src/btree.c:2854-2990 | which transactions begin: no second writer, none while a writer is pending, none while the schema is written, and an exclusive one only alone; beginning adds a read lock on the schema table and nothing else |
| SharedCache.BtShared.EndTransaction | sqlite/src/btree.c:3472-3506 | the end of a transaction gives back exactly the locks of its connection, or turns them into read locks |
| Stat4.AnalyzeIndex | sqlite/src/analyze.c:1030-1200 | what Scan says, for every index, with the columns that are compared as the index has them |
| Stat4.Scan | sqlite/src/analyze.c:1109-1200 | one scan of an index leaves samples that are all exact, in order, with every row that ends a period, the number of rows divided as the limit on samples asks, and every frequent prefix covered |
| Stat4.PeriodIs | sqlite/src/analyze.c:449 | the period is the one that goes into the rows about a third as often as there may be samples |
| Stat4.Stat4Accum.Close | sqlite/src/analyze.c:809-923 | at the end every sample has the true numbers of equal, lesser and distinct lesser rows for each prefix |
| Stat4.Stat4Accum.SampleInsert | sqlite/src/analyze.c:552-633 | which of the three outcomes of an insertion occurs, and that the least good sample makes room |
| Stat4.Stat4Accum.StatPush | sqlite/src/analyze.c:708-776 | the accumulator is right for one more row of the index |
| Stat4.BetterOrder | sqlite/src/analyze.c:501-546 | of two samples exactly one is better, by the equal rows of its column, then the column, the later columns and the hash, unless they agree in all of these |
| RegisterCache.Run | sqpyte/mem.py:893-1187 | over any run of requests a query that caches answers as one that does not, with the same memory, up to the signs of zeros, and exactly if no constant -0.0 is involved; no interned state has changed, also when the queries share the table |
| RegisterCache.Serve | sqpyte/mem.py:949-1060 | one request, with or without the cache, does what it does on plain registers, up to the sign of a zero that is read |
| RegisterCache.CacheHolder.SetReal | sqpyte/mem.py:1030-1042 | with the cache a constant becomes known and any other value unknown, and all else that was known stays so, up to the signs of zeros |
| RegisterCache.CacheHolder.SetInt | sqpyte/mem.py:1016-1028 | the same for integers |
| RegisterCache.CacheHolder.GetFlags | sqpyte/mem.py:949-960 | the flags are those in memory, and with the cache are known from then on, with all that was known before |
| RegisterCache.ReadBack | sqpyte/mem.py:1030-1042 | a real constant that is written is read back as it is if and only if the table, or the state before the write, does not stand in for it with the other zero; otherwise as the other zero |
| RegisterCache.NegativeZero | sqpyte/mem.py:1150-1155 | from an empty table, -0.0 written to an unknown register is read back as 0.0, and as -0.0 without the cache |
| RegisterCache.FlagsFlip | sqpyte/mem.py:1122-1129 | a run in which a -0.0 that is held rightly becomes 0.0 when flags are written |
| RegisterCache.Interned.Unique | sqpyte/mem.py:1111-1120 | the one state of the table that is equal by ==, with its zeros, or else the new state itself; nothing interned changes |
| RegisterCache.RealThenInt | sqpyte/mem.py:986-1042 | what is read as an integer after any write of a real number: memory's integer if none was known, and else the constant known before, or 0 |
| RegisterCache.IntThenReal | sqpyte/mem.py:1001-1028 | what is read as a real number after any write of an integer |
| RegisterCache.OtherKind | sqpyte/mem.py:1016-1042 | for every status, after a write of one kind the other is known exactly if it was known before, and constant exactly if the write was |
| RegisterCache.SameObject | sqpyte/mem.py:1086-1121 | interned states that say the same are the same object, as the comparison by identity assumes |

## Left out

- Pager, journals, write-ahead log, file locks and crash recovery; the outcomes of I/O and locking are parameters of the
  backup, and other modules have none.
- Failed memory allocation, and files that are corrupt.
- Trees are values: the page numbers of tree pages, and the pointer-map entries and page copies of balancing, are not
  modelled; `AutoVacuum`, `Freelist` and `PageSpace` model those of their own operations.
- Comparison of records in indexes: keys are integers, in tables and indexes alike.
- Several cursors on one tree: other cursors only appear as changes of the tree while a position is saved or there is
  none.
- Insert with a remembered key just below the new one, from a saved position, which the source excludes by an assertion,
  or after another cursor has taken the pages away.
- Changes by another cursor after a position was restored next to its key and before it is used.
- Insert with the result of a search that has been followed by a move to the last entry; the result is passed on with the
  cursor as the search left it.
- Direct overflow reads, incremental blobs, secure delete and page reference counts.
- Several backups of one source, a busy handler that retries, and a change of the page size of the source.
- FillInCell and the other members of Overflow use an allocator that is not tied to the one of `Freelist`.
- Stat4 and Bitvec hold their fixed-size arrays as sequences, and so does the register cache.
- The hash of a register state; equal states have the same one, since both zeros are cast to 0.
- Set and Clear of Bitvec descend by recursion where the source follows a pointer in a loop.
- The unrolled forms of the varint readers; they are modelled as one loop.
- Connections that read uncommitted data, which take no read locks.
- B-trees that are not shareable, and sqlite3BtreeEnterAll and sqlite3BtreeLeaveAll, which are runs of single calls.
- What else sqlite3BtreeClose does, besides taking the b-tree out of the list of its connection.
- ANALYZE on a single-column unique index skips comparisons after the first row that is not NULL; NULLs are not modelled.
- RegisterCache.Run: registers are read as the kind that was written last; reads of the other kind are stated for one
  write before them.
- CursorRun.Run: it stops before a request that the code would not do rightly; what such a request leaves is stated by Insert.
