# Verified model of RMDB's storage, planning and logging core

A Dafny model of the parts of the RMDB relational engine that keep data in order, with proofs
of what they promise. `dafny verify dfyconfig.toml` checks the whole project.

## What is modelled

**The B+ tree index** (`IxLevels`, `IxTower`, `IxIndex`, `IxShape`, `IxScan`, `IxRuns`, `IxKeys`, `IxNode`).
`IxIndexHandle` is a class whose pages are a map from page numbers to nodes, with the root and leaf
fields of the file header, a multiset of pins and the root latch. Beside it, in ghost state, stands a
tower: the list of levels, each the list of its nodes from left to right. The invariant `Valid` says
that pages and tower agree, that each level is registered in the one above with right keys and parent
fields, that sizes are in bounds and that the leaves form a ring through the header page. Searching,
inserting with splits, deleting with redistribution and merging, and first-key maintenance are methods
proved against the tower; `IxShape` reads the invariant back as a textbook recursive definition on the
pages alone. `IxScan` walks the leaf ring, `IxRuns` compares whole runs with a sorted list. Keys are
integers, justified by `IxKeys`, which embeds composite keys into the integers in comparison order.
`IxNode` is the same node with arrays that are shifted in place.

**The index scan executor** (`IndexRange`, `IndexScan`, `IndexScanLimits`) turns conditions into a key range, drops the
conditions it takes the range to cover, and filters by the rest, over the real tree; the second module has
the converse.

**The record file** (`RmBitmap`, `RmFile`, `RmScan`, `Mvcc`): bitmap pages, the list of pages with room,
single and batch insertion, the record cursor, and the visibility of uncommitted records.

**The insert and update executors** (`RecordLayout`, `Executors`) work on a `Table` made of one `RmFileHandle` and any
number of `IxIndexHandle`s, the classes above; `RecordLayout` has the bytes of keys and SET clauses.

**The planner** (`Comparisons`, `Conditions`, `Propagation`, `JoinTree`, `MakeOneRel`, `NestedLoopJoin`,
`JoinLoss`): propagation of constants over equalities, the join tree and the executor that evaluates it.

**The log** (`LogRecords`, `LogManagement`), **the clock replacer** (`ClockReplacement`) and **projection by
runs** (`Projection`).

## What the proofs turned up

Where a promise does not hold of the code, the code is modelled as it is, and the project states exactly
when the promise holds.

- A root that a merge leaves with one child stays where it is (`src/index/ix_index_handle.cpp:853-864`).
  The internal branch of `adjust_root` and its comment about promoting the only child describe a case
  that never arises: `IxIndex.IxIndexHandle.CoalesceOrRedistribute` goes on upward only below the root, and
  `IxTower.RootHasNoParent` makes the root that `IxIndex.IxIndexHandle.AdjustRoot` is called for a leaf.
- Emptying a root leaf resets the first and last leaf fields and nothing sets them again. `leaf_begin` to
  `leaf_end` then sees nothing, even after the index has been refilled (`IxRuns.RefilledButUnseen`); a run ends
  so exactly when a delete emptied the index before it outgrew one leaf (`IxRuns.RunIndex`). Scans between
  `lower_bound` and `upper_bound` are not affected for a <= b (`IxScan.ScanRange`).
- A scan with a > b can run past its end position; `IxScan.ScanExact` says when it is still exact.
- The index scan drops every constant condition on a covered column. It never loses a row
  (`IndexScan.ExecuteComplete`), but it can deliver rows that do not qualify, in two ways: the interval does not
  say what a dropped condition says (`<>`, a strict bound at an integer limit, a second equality, a looser bound
  that comes last), or the dropped conditions contradict each other, the range is upside down and a key between
  its ends lets the cursor run past its end (`x > 10 and x < 5`). `IndexScan.ScanSafe` is a test on the constants
  that `IndexScanLimits.ScanSafeIff` proves to be exact for conditions with constants; witnesses are
  `IndexScanLimits.DroppedInequality` and `IndexScanLimits.InvertedInterval`.
- `pop_conds` gives a condition on two columns of one table to the first table of the query, whichever
  table it is about (`MakeOneRel.PlanPlacedIff`, `MakeOneRel.SelfConditionMisplaced`).
- A nested-loop join does not clear its own end flag. As the left child of another join it yields pairs for
  the first right row only (`NestedLoopJoin.FirstPassLoses`). The planner builds such a tree exactly when some join
  condition shares no table with the earlier ones (`MakeOneRel.MakeOneRel`), and then every query that has an
  answer on some database loses rows on some database (`JoinLoss.EmitsAllIff`, `JoinLoss.FourTables`).
- An update refused by an index leaves the old key out of the earlier indexes in which it changes
  (`Executors.RefusedUnchangedIff`, `Executors.RefusedUpdateLosesKey`). Putting it back is the business of the
  transaction's rollback.

## Assumptions

Calls are sequential. The page allocator hands out page numbers that are not in use, and all handles of
a page see one memory image. Disk writes and page fetches succeed. Integers are unbounded except where a
bound is stated: index scan constants and log fields are 32-bit, and file positions have slot numbers
that fit an `int`. Table names contain no dot, so a column is identified by its key string
(`Propagation.KeysIdentify`), and propagation files columns under themselves.

## Model

| member | source | states |
|---|---|---|
| `IxIndex.LowerBound` | src/index/ix_index_handle.cpp:42-62 | the in-node search returns the first position whose key is not below the target, at the size if there is none |
| `IxIndex.UpperBound` | src/index/ix_index_handle.cpp:70-90 | the in-node search returns the first position whose key is above the target |
| `IxIndex.FindChild` | src/index/ix_index_handle.h:182-194 | finds the position of the first entry of a child, given that there is one |
| `IxIndex.IxIndexHandle.constructor` | src/index/ix_manager.h:68-145 | a new index is valid, empty, one root leaf linked both ways with the header page, no pages pinned |
| `IxIndex.IxIndexHandle.InternalLookup` | src/index/ix_index_handle.cpp:121-134 | the entry followed is the one whose key range covers the key, also for keys below the first one |
| `IxIndex.IxIndexHandle.FindLeafPage` | src/index/ix_index_handle.cpp:289-327 | the walk down ends in the one leaf whose range covers the key; it holds one extra pin, and the root latch exactly when the operation asked for it and it is handed on |
| `IxIndex.IxIndexHandle.MaintainParent` | src/index/ix_index_handle.cpp:1180-1238 | rewriting first keys upward, as far as needed, makes every parent key equal its child's first key again, moves no entry and terminates at the root |
| `IxIndex.IxIndexHandle.MaintainChildren` | src/index/ix_index_handle.cpp:1289-1299 | the children of moved entries, and no others, get the page as parent |
| `IxIndex.IxIndexHandle.Split` | src/index/ix_index_handle.cpp:365-406 | an overfull node becomes two: entries concatenate to the old ones, the chain gains the leaf behind it, children of the moved half are re-parented, the left half is as long as the right one or one pair shorter |
| `IxIndex.IxIndexHandle.LinkNewLeaf` | src/index/ix_index_handle.cpp:375-386 | linking a new leaf behind another keeps the chain through the header page whole |
| `IxIndex.IxIndexHandle.GrowRoot` | src/index/ix_index_handle.cpp:423-446 | a split root gets a new root above it with the two halves as its only children |
| `IxIndex.IxIndexHandle.InsertIntoParent` | src/index/ix_index_handle.cpp:421-466 | registering a new node with its parent, splitting upward as often as needed, restores every link and size of the tree, leaves the entries alone, keeps pins and terminates |
| `IxIndex.IxIndexHandle.InsertEntry` | src/index/ix_index_handle.cpp:491-571 | the index map gains the pair exactly when the key is absent; a present key changes nothing and gives IX_NO_PAGE; otherwise the page returned is the leaf that holds the pair; the tree grows only when the leaf that takes the pair is full; pins and latch are as before |
| `IxTower.RootHasNoParent` | src/index/ix_index_handle.cpp:853-864 | only the root has no parent, and the root is a leaf exactly in a tree of one level, so the guards of the two calls let only a root leaf through |
| `IxIndex.IxIndexHandle.Redistribute` | src/index/ix_index_handle.cpp:747-780 | exactly one pair moves, the first of the right sibling or the last of the left one; this restores sizes, keys and parent fields and keeps the entries of the index and the chain |
| `IxIndex.IxIndexHandle.EraseLeaf` | src/index/ix_index_handle.cpp:1245-1274 | taking a leaf out of the chain leaves the other leaves linked in order |
| `IxIndex.IxIndexHandle.MergeSiblings` | src/index/ix_index_handle.cpp:796-852 | the left of two siblings takes over the pairs of the right one, which leaves its level; this keeps entries in order, takes the leaf out of the chain, re-parents children, moves the last-leaf field, and leaves the parent one entry short at most |
| `IxIndex.IxIndexHandle.Coalesce` | src/index/ix_index_handle.cpp:796-865 | merging and carrying on in the parent restores the whole tree; the latch is released once |
| `IxIndex.IxIndexHandle.UseSibling` | src/index/ix_index_handle.cpp:933-968 | merges exactly when node and sibling together have fewer pairs than two minimal nodes, and otherwise moves one pair |
| `IxIndex.IxIndexHandle.AdjustRoot` | src/index/ix_index_handle.cpp:686-731 | called for the root of a tree of one level, which is a leaf; an emptied one resets the first and last leaf fields, any other is left alone |
| `IxIndex.IxIndexHandle.CoalesceOrRedistribute` | src/index/ix_index_handle.cpp:878-989 | a node that has its minimum is left alone; a tree with one node a pair short becomes a valid tree with the same entries; upward recursion stops below the root and terminates; pins and latch end as they began |
| `IxIndex.IxIndexHandle.DeleteEntry` | src/index/ix_index_handle.cpp:578-678 | removes the key and returns true exactly when it was present; otherwise nothing changes; exactly when the tree is a single leaf that becomes empty are first and last leaf reset |
| `IxIndex.IxIndexHandle.GetValue` | src/index/ix_index_handle.cpp:337-356 | lookup answers exactly from the index map, for every valid tree |
| `IxIndex.IxIndexHandle.IsUnique` | src/index/ix_index_handle.cpp:469-483 | unique exactly when the key is absent, and otherwise the position stored for it |
| `IxTower.Descend` | src/index/ix_index_handle.cpp:121-134 | going from an inner node to the covering entry arrives at the node that covers the key on the level below |
| `IxTower.KeyStep` | src/index/ix_index_handle.cpp:1180-1238 | rewriting one parent key mends the link below it and breaks at most the one above |
| `IxTower.SplitSummary` | src/index/ix_index_handle.cpp:365-406 | a split keeps the entries of the level, the links below it, and the sizes of all other nodes |
| `IxTower.Register` | src/index/ix_index_handle.cpp:447-466 | adding the entry of the new node right behind its left half mends the level, leaving the parent at most one over the order |
| `IxTower.Redistributed` | src/index/ix_index_handle.cpp:747-780 | after a pair moves between siblings the tower is linked, topped and sized again |
| `IxTower.ChainErase` | src/index/ix_index_handle.cpp:1245-1274 | unlinking a leaf gives the chain of the remaining leaves |
| `IxTower.ChainInsert` | src/index/ix_index_handle.cpp:375-386 | linking a leaf gives the chain with that leaf inserted |
| `IxTower.MapInsert` | src/index/ix_index_handle.cpp:190-204 | inserting at the lower bound adds the key to the map of the sorted pairs and keeps them sorted |
| `IxTower.MapErase` | src/index/ix_index_handle.cpp:242-254 | erasing the pair found takes exactly its key out of the map |
| `IxTower.LookupInLevel` | src/index/ix_index_handle.cpp:337-356 | a key is in the map of all leaves exactly when the search in the covering leaf finds it |
| `IxShape.OrderFits` | src/index/ix_manager.h:86-94 | the order computed from the key length leaves room for exactly one pair more than a node keeps, and is above 2 for every allowed key length |
| `IxShape.IndexShape` | src/index/ix_index_handle.cpp:365-466 | every valid index is, on its pages, a B+ tree by a recursive definition: strictly sorted, each key its child's first key, parent fields right, all leaves at one depth, at most the order of pairs and at least half of it where there are siblings; its in-order walk is the contents |
| `IxShape.LeafChain` | src/index/ix_index_handle.cpp:1245-1274 | next and prev are mutually inverse around the header page and follow key order |
| `IxRuns.ReferenceIsMap` | src/index/ix_index_handle.cpp:491-678 | the reference list operations are finite-map insert-if-absent, erase and lookup |
| `IxRuns.RunIndex` | src/index/ix_index_handle.cpp:491-678 | any sequence of inserts, deletes, lookups and range scans, also with their ends swapped, on a fresh index answers as the reference does, with equal contents, no pinned page and no held latch at the end; the first and last leaf are unknown exactly when a delete emptied the index before it ever outgrew one leaf, and otherwise they are the leftmost and the rightmost leaf |
| `IxRuns.NeverEmptied` | src/index/ix_index_handle.cpp:694-702 | a run in which no delete leaves the index empty keeps its first and last leaf |
| `IxRuns.RunThenScanAll` | src/index/ix_index_handle.cpp:1105-1133 | after any run, leaf_begin to leaf_end delivers everything or, when the leaves are unknown, nothing |
| `IxRuns.RefilledButUnseen` | src/index/ix_index_handle.cpp:694-702 | insert, delete, insert: the index has an entry and the scan of everything delivers none |
| `IxNode.NodePage.InsertPairsAt` | src/index/ix_index_handle.cpp:150-181 | shifting keys and rids inside the fixed arrays inserts the pairs at the position, or does nothing for a bad position |
| `IxNode.NodePage.ErasePairAt` | src/index/ix_index_handle.cpp:211-234 | shifting inside the arrays removes the pair at the position, or does nothing for a bad position |
| `IxKeys.IxCompare` | src/index/ix_index_handle.h:51-64 | comparing column by column has the sign of comparing ranks, and is zero only for equal keys |
| `IxKeys.RankOrder` | src/index/ix_index_handle.h:28-64 | composite integer and string keys embed into the integers in the order of the first differing column |
| `IxScan.LowerBoundIid` | src/index/ix_index_handle.cpp:1038-1063 | the cursor position of the first entry not below the key, in every valid tree |
| `IxScan.UpperBoundIid` | src/index/ix_index_handle.cpp:1071-1097 | the cursor position of the first entry above the key, in every valid tree |
| `IxScan.Cursor.Next` | src/index/ix_scan.cpp:25-78 | from the position of an entry the cursor goes to the next entry or to its end; pins stay balanced |
| `IxScan.Cursor.CurrentRid` | src/index/ix_scan.cpp:80-101 | gives the position stored in the entry under the cursor, and nothing behind the last entry |
| `IxScan.DeliveredInRange` | src/index/ix_scan.cpp:25-101 | what a scan between two positions delivers is the key range exactly under the stated condition, and always for a <= b |
| `IxScan.ScanRange` | src/index/ix_scan.cpp:25-101 | a scan from lower_bound(a) to upper_bound(b) terminates and delivers, once each and in key order, the entries from a to b; for a > b exactly when the stated condition holds |
| `IxScan.ScanAll` | src/index/ix_index_handle.cpp:1105-1133 | leaf_begin to leaf_end delivers everything if the first leaf is known and nothing otherwise; that is exact if and only if the first leaf is known or the index is empty |
| `IndexRange.BuildRange` | src/execution/executor_index_scan.h:158-304 | fills both composite keys column by column |
| `IndexRange.Cover` | src/execution/executor_index_scan.h:316-342 | collects the columns whose conditions the executor drops |
| `IndexRange.CmpCondSays` | src/execution/executor_index_scan.h:543-642 | the row test compares the left column with the constant or with the right column of the row, in the sense of the operator |
| `IndexRange.FaithfulIff` | src/execution/executor_index_scan.h:172-292 | the interval of a column says all that the conditions on it say exactly when it is empty or every condition respects its ends, a test on the constants |
| `IndexRange.TidyFaithful` | src/execution/executor_index_scan.h:172-292 | one equality, or at most one lower and one upper bound, without <> and without strict bounds at the integer limits, is always represented exactly |
| `IndexRange.RangeComplete` | src/execution/executor_index_scan.h:158-304 | no row that satisfies all the conditions lies outside the key range, whatever the conditions are |
| `IndexScan.OpenIff` | src/execution/executor_index_scan.h:343-351 | whether some integer meets all conditions on a column shows at the constants and their successors |
| `IndexRange.RangeSound` | src/execution/executor_index_scan.h:314-351 | in the range, the remaining conditions imply the dropped ones, if the intervals of the covered columns are faithful |
| `IndexScan.ExecuteComplete` | src/execution/executor_index_scan.h:353-415 | the executor never loses a qualifying row, whatever the conditions are |
| `IndexScan.ExactInverted` | src/execution/executor_index_scan.h:305-307 | a range that is upside down, with no key between its ends, delivers nothing, and nothing qualifies |
| `IndexScan.ExecuteExact` | src/execution/executor_index_scan.h:353-415 | conditions that pass the test on the constants: the executor returns the qualifying rows in key order and nothing else |
| `IndexScan.OutcomeRows` | src/execution/executor_index_scan.h:353-415 | in terms of the values in the rows: every row of which all conditions are true is delivered; of every delivered row the conditions on two columns are true; and all of them are if the constants pass the test or there are none |
| `IndexScan.Execute` | src/execution/executor_index_scan.h:146-415 | over the real tree: the outcome for any conditions; every row of which they are all true is delivered, only rows of which those on two columns are true, and just the qualifying ones if the constants pass the test or there are none |
| `IndexScanLimits.ScanSafeIff` | src/execution/executor_index_scan.h:146-415 | for conditions with constants the executor is exact on every table if and only if the constants pass the test: the remaining conditions cannot be met, or the range is in order and every dropped condition respects its interval, or the range is upside down and no key fits between its ends |
| `IndexScanLimits.TidyIsSafe` | src/execution/executor_index_scan.h:158-351 | one equality or at most one bound on each side of every covered column, no <>, no strict bound at the integer limits and no empty interval: the test is passed |
| `IndexScanLimits.OneColumn` | src/execution/executor_index_scan.h:158-351 | on one column the test says: every condition respects the interval, or the interval is empty by exactly one |
| `IndexScanLimits.OneCondition` | src/execution/executor_index_scan.h:343-351 | a single condition is handled exactly unless it is <> or a strict bound at an integer limit |
| `IndexScanLimits.TwoConditions` | src/execution/executor_index_scan.h:343-351 | two different equalities, a bound beside an equality, and two lower bounds of which the looser comes last give wrong rows; with the tighter one last they are exact |
| `IndexScanLimits.EmptyInterval` | src/execution/executor_index_scan.h:305-307 | a lower bound above an upper one is handled exactly if and only if the interval is empty by one |
| `IndexScanLimits.DroppedInequality` | src/execution/executor_index_scan.h:343-351 | a concrete table on which <> v delivers the row with v |
| `IndexScanLimits.InvertedInterval` | src/execution/executor_index_scan.h:305-379 | a concrete table on which > w and < v, v <= w, deliver the row with w + 1 |
| `RmBitmap.BitChange` | src/record/bitmap.h:26-32 | setting or resetting a bit changes that bit and no other |
| `RmBitmap.HighestFirst` | src/record/bitmap.h:26-64 | bits are numbered from the highest bit of a byte down |
| `RmBitmap.NextBit` | src/record/bitmap.h:42-55 | the first position after the given one with the wanted bit, or the bound |
| `RmBitmap.CountFull` | src/record/bitmap.h:42-55 | a bitmap counts as full exactly when no bit below the bound is clear |
| `RmFile.LayoutFits` | src/record/rm_manager.h:47-54 | for every record size allowed, the records per page are at least one, as many as the size formula allows; the bitmap has a bit for each, and the slots start behind it, do not overlap and end inside the page |
| `RmFile.RmFileHandle.constructor` | src/record/rm_manager.h:39-60 | a new file has no records and an empty free list |
| `RmFile.RmFileHandle.CreateNewPageHandle` | src/record/rm_file_handle.cpp:301-331 | a zeroed page at the end becomes the first page with room; no record changes |
| `RmFile.RmFileHandle.CreatePageHandle` | src/record/rm_file_handle.cpp:339-354 | gives the first page with room, which exists afterwards |
| `RmFile.RmFileHandle.GetRecord` | src/record/rm_file_handle.cpp:19-40 | finds exactly the records of the file and returns what is stored |
| `RmFile.RmFileHandle.InsertRecord` | src/record/rm_file_handle.cpp:48-132 | a slot is always found: the first free one of the first page with room, of a new page if there is none; the map of records gains exactly it |
| `RmFile.RmFileHandle.UpdateRecord` | src/record/rm_file_handle.cpp:226-264 | replaces the record, or reports not found and changes nothing |
| `RmFile.RmFileHandle.DeleteRecord` | src/record/rm_file_handle.cpp:173-218 | removes the record, or reports not found; a page that was full joins the free list once |
| `RmFile.RmFileHandle.ReleasePageHandle` | src/record/rm_file_handle.cpp:359-375 | the page that was full becomes the head of an acyclic list of exactly the pages with room |
| `RmFile.RmFileHandle.FillPage` | src/record/rm_file_handle.cpp:422-462 | the slot loop of a batch stores at least one and as many records as fit |
| `RmFile.RmFileHandle.InsertRecordsBatch` | src/record/rm_file_handle.cpp:385-483 | the batch loop terminates; all records are stored at distinct positions that were free, in order, and nothing else changes |
| `RmFile.HeadersCountRecords` | src/record/rm_file_handle.cpp:89-97 | the record counts in the page headers add up to the number of records of the file |
| `RmScan.Cursor.Next` | src/record/rm_scan.cpp:29-54 | moves to the next record in (page, slot) order, or to the end if there is none |
| `RmScan.ScanFile` | src/record/rm_scan.cpp:18-63 | a scan visits every record exactly once in ascending order and ends |
| `Mvcc.MvccMap.VisitRecord` | src/record/mvcc_map.h:64-98 | visible exactly when there is no entry or it belongs to the asking transaction; the branches for committed or deleted entries are never taken |
| `Mvcc.SlotsDistinct` | src/record/rm_file_handle.h:82-95 | positions of a file have different slot numbers, from which page and slot can be computed back |
| `Mvcc.RunVisit` | src/record/mvcc_map.h:64-147 | over any sequence of inserts, updates, deletes and commits a record is visible exactly when its last writer since the last commit on it is nobody or the asking transaction |
| `RecordLayout.MakeKey` | src/execution/executor_insert.h:91-101 | the key is as long as its columns together, and each column repeats the bytes of the record from its offset on, behind the columns before it |
| `RecordLayout.SameKey` | src/execution/executor_insert.h:91-101 | two records have the same key exactly when they agree on every byte of every column of the index |
| `RecordLayout.SetFieldBytes` | src/execution/executor_update.h:150 | writing a value gives the bytes of its column those of the value and changes no other byte |
| `RecordLayout.ApplySetsBytes` | src/execution/executor_update.h:139-151 | after the SET clauses a column that no later clause overlaps holds the value of its clause, evaluated over the record as the earlier clauses left it, and bytes outside the set columns are unchanged |
| `RecordLayout.UntouchedKey` | src/execution/executor_update.h:36-50 | an update that sets no column of an index leaves the key of every record in it |
| `Executors.Table.Insert` | src/execution/executor_insert.h:84-132 | rejects exactly when some key is taken, which is when a stored record agrees with the new one on every byte of the columns of some index, and then neither table nor any index changes; otherwise the record and all its keys are added and every index equals the keys of the records |
| `Executors.TakenIff` | src/execution/executor_insert.h:86-110 | a key is taken exactly when a stored record agrees with the new one on the columns of the index, for key places that tell keys apart |
| `Executors.ClashIff` | src/execution/executor_update.h:176-183 | a changed key is refused exactly when another record agrees with the updated one on the columns of the index |
| `Executors.Table.ComputeNeedUpdateIndex` | src/execution/executor_update.h:36-50 | true exactly when a SET column is a column of some index |
| `Executors.Table.TakeOutKeys` | src/execution/executor_update.h:155-195 | succeeds exactly when no new key belongs to another record; a refusal names the first clashing index: the indexes before it have lost the old key where it changes, the others are as they were |
| `Executors.RefusedUnchangedIff` | src/execution/executor_update.h:176-183 | a refused update leaves every index as it was exactly when none before the first clashing one has a changed key; it disagrees with the records exactly in the indexes it has taken a key out of |
| `Executors.RefusedUpdateLosesKey` | src/execution/executor_update.h:176-183 | two rows and two indexes: the refused update leaves a live record without its key in the first index |
| `Executors.Table.UpdateOne` | src/execution/executor_update.h:122-221 | succeeds exactly when the record exists and no other record agrees with the updated one on the columns of some index; then the table changes in that record, whose set columns hold their values byte for byte, and every index agrees again; a failure leaves the records as they were and the indexes as the refusal says |
| `Executors.Table.Update` | src/execution/executor_update.h:120-224 | a successful update over distinct positions changes exactly the visible records there, each to what the SET clauses make of it, and every index equals the keys of the records; one that fails has updated and indexed the rows before the failing one, and left that one as its refusal says |
| `Executors.UpdatedOnly` | src/execution/executor_update.h:120-224 | visiting distinct positions in turn changes each visible record once and no other |
| `Conditions.CompareCellStands` | src/execution/fliter.h:90-158 | numbers compare by value and strings by the first character that differs, a proper prefix being smaller; each operator says what its sign says |
| `Conditions.FlipSat` | src/optimizer/planner.cpp:467-481 | turning a condition around keeps its meaning and is its own inverse |
| `Propagation.KeysIdentify` | src/optimizer/planner.cpp:33-36 | the string keys of columns are different for different columns when table names hold no dot |
| `Propagation.Gather` | src/optimizer/planner.cpp:82-108 | the adjacency and constant tables say exactly what the equality conditions say |
| `Propagation.Component` | src/optimizer/planner.cpp:110-162 | the breadth-first search finds exactly the columns connected to its start and exactly their constants, and terminates |
| `Propagation.PropagateEqualityConstants` | src/optimizer/planner.cpp:75-192 | the result is the old list followed by exactly the derivable conditions it lacked, once each, in whatever order the table of columns is walked; so every column equated by any chain to a column with a constant gains that constant |
| `Propagation.PropagationKeepsMeaning` | src/optimizer/planner.cpp:75-192 | a row satisfies the extended list exactly when it satisfies the old one |
| `Propagation.PropagationIdempotent` | src/optimizer/planner.cpp:75-192 | a second pass adds nothing |
| `NestedLoopJoin.JoinedExactly` | src/execution/executor_nestedloop_join.h:106-178 | the specified output holds exactly the accepted pairs |
| `NestedLoopJoin.JoinedOnce` | src/execution/executor_nestedloop_join.h:106-178 | and each of them once |
| `NestedLoopJoin.JoinExecutor.FindRecord` | src/execution/executor_nestedloop_join.h:154-178 | goes on to the next accepted pair, skipping none, or to the end |
| `NestedLoopJoin.JoinExecutor.NextTuple` | src/execution/executor_nestedloop_join.h:118-129 | takes exactly the present pair off what is still to be emitted |
| `NestedLoopJoin.JoinExecutor.BeginTuple` | src/execution/executor_nestedloop_join.h:106-116 | starts over, but a join that has ended stays ended |
| `NestedLoopJoin.RunJoin` | src/execution/executor_nestedloop_join.h:106-178 | terminates and emits the accepted pairs right row by right row if the left child restarts, and only those of the first right row if it does not |
| `NestedLoopJoin.FirstPassLoses` | src/execution/executor_nestedloop_join.h:106-178 | a left child that cannot restart loses pairs exactly when a right row after the first has a match |
| `JoinTree.PlanDenotes` | src/execution/fliter.h:75-93 | a well-placed plan delivers, once each, exactly the combinations of records that satisfy all its conditions |
| `JoinTree.PlanSays` | src/execution/fliter.h:75-93 | the rows of a well-placed plan are the combinations of records whose stored cells stand in the relation of every condition |
| `JoinTree.TwoScans` | src/execution/fliter.h:75-93 | two scans and one join condition on numbers: exactly the pairs of records whose cells are <, =, <> and so on |
| `JoinTree.OneScan` | src/execution/executor_abstract.h:113-225 | a scan with a constant on a number column: exactly the records whose cell is <, =, <> and so on the constant |
| `JoinTree.LeftScansEmitAll` | src/execution/executor_nestedloop_join.h:106-178 | if every left child is a scan, the executors emit exactly the rows of the plan |
| `JoinTree.LeftJoinLoses` | src/execution/executor_nestedloop_join.h:106-178 | a join over a left join that delivers all its rows loses some exactly when a right row after the first has a match; a cross product, when the left side has a row and the right one two |
| `JoinLoss.EmittedIn` | src/execution/executor_nestedloop_join.h:106-178 | the executors never deliver a row that the plan does not have |
| `JoinLoss.DoubledCount` | src/execution/executor_nestedloop_join.h:106-178 | with every record of an answer doubled, the plan has all combinations, and a join on the left of a join leaves fewer |
| `MakeOneRel.PopConds` | src/optimizer/planner.cpp:408-429 | splits the conditions into those a scan takes and the rest, in order |
| `MakeOneRel.NothingLost` | src/optimizer/planner.cpp:560-583 | between the scans and the joins no condition is lost or doubled |
| `MakeOneRel.PushOnce` | src/optimizer/planner.cpp:431-486 | a condition lands once, in the join where its tables meet, turned so that its sides fit; otherwise the plan is unchanged and the code says which column it has |
| `MakeOneRel.PopScan` | src/optimizer/planner.cpp:488-502 | finds and marks the scan of a table |
| `MakeOneRel.JoinNext` | src/optimizer/planner.cpp:636-690 | each of the four cases extends the tree correctly by one join condition |
| `MakeOneRel.MakeOneRel` | src/optimizer/planner.cpp:530-708 | the plan has every table once with its own scan, every join condition once and in place, and all left children are scans exactly when each join condition after the first shares a table with an earlier one |
| `MakeOneRel.PlanScanConds` | src/optimizer/planner.cpp:408-429 | each scan checks exactly the constant conditions on its table; the first one also all conditions on two columns of one table |
| `MakeOneRel.PlanPlacedIff` | src/optimizer/planner.cpp:408-429 | every condition is where its columns are if and only if those on two columns of one table are on the first table |
| `MakeOneRel.PlanAnswersQuery` | src/optimizer/planner.cpp:530-708 | the plan delivers, once each, the combinations of records that satisfy all conditions of the query, which is said of their stored cells, and so do the executors when the join conditions are linked up; JoinLoss.EmitsAllIff has the converse |
| `MakeOneRel.SelfConditionMisplaced` | src/optimizer/planner.cpp:408-429 | a concrete query whose condition is put on a scan that has neither column |
| `JoinLoss.EmitsAllIff` | src/optimizer/planner.cpp:530-708 | the executors deliver the whole answer on every database if and only if each join condition after the first shares a table with an earlier one, or nothing can answer the query |
| `JoinLoss.FourTables` | src/optimizer/planner.cpp:656-664 | a.x = b.x and c.x = d.x: rows are lost |
| `LogRecords.Serialize` | src/recovery/log_manager.h:51-545 | writing at a moving offset leaves the bytes of the record behind what was in the buffer, as many as its length field says |
| `LogRecords.ReadHeader` | src/recovery/log_manager.h:60-67 | the five header fields read back |
| `LogRecords.ReadPayload` | src/recovery/log_manager.h:287-570 | every kind of record reads back from its bytes |
| `LogRecords.RecordRoundTrip` | src/recovery/log_manager.h:51-570 | a record reads back as it was written whatever follows it, and its length field is the distance to the next record |
| `LogRecords.StreamRoundTrip` | src/recovery/log_manager.h:51-570 | stepping over a stream of records by their lengths gives back exactly the records |
| `LogManagement.LogManager.AddLogToBuffer` | src/recovery/log_manager.cpp:19-32 | numbers are given in sequence and the record joins the log; the buffer is flushed first exactly when the bytes in use and those of the record exceed it |
| `LogManagement.LogManager.FlushLogToDisk` | src/recovery/log_manager.cpp:37-47 | the buffer goes behind what is on disk, all records are then there, and persist_lsn_ is the last of them |
| `LogManagement.LogReadsBack` | src/recovery/log_manager.cpp:19-47 | disk and buffer together read back as all the records in order |
| `LogManagement.CrashReadsBack` | src/recovery/log_manager.cpp:37-47 | the disk alone reads back as the records up to persist_lsn_ |
| `LogManagement.RunLog` | src/recovery/log_manager.cpp:19-47 | any sequence of additions and flushes leaves a log that reads back as what was added, numbered 0, 1, 2 and so on |
| `ClockReplacement.ClockReplacer.Pin` | src/replacer/clock_replacer.h:53-60 | the frame is not evictable afterwards; the count stays right |
| `ClockReplacement.ClockReplacer.Unpin` | src/replacer/clock_replacer.h:62-69 | the frame is evictable and referenced afterwards; the count stays right |
| `ClockReplacement.ClockReplacer.Victim` | src/replacer/clock_replacer.h:32-51 | within two rounds gives up a frame if and only if one is evictable: the first with its bit clear in clock order, or the first evictable one if every bit is set; the reference bits cleared are exactly those of the evictable frames that the hand stopped at |
| `ClockReplacement.StopAt` | src/replacer/clock_replacer.h:35-49 | at each stop either the right frame is under the hand or the search goes on |
| `Projection.ProjectionExecutor.constructor` | src/execution/executor_projection.h:108-139 | for every layout and selection the merged runs fill the output without a gap and copy the same bytes as the columns one by one |
| `Projection.ProjectionExecutor.Next` | src/execution/executor_projection.h:204-224 | the buffer holds the selected columns one after the other |

## Left out

- Thread interleavings: latches are modelled as state that is taken and released, not as exclusion.
- Float keys of an index: a float has no place in `IxKeys`, so NaN and negative zero are not considered.
- In-place pages inside the tree: `IxIndex` stores nodes as values in a map of pages, so aliasing of two handles to one page is not modelled there; the shifting inside a page is modelled on arrays in `IxNode`.
- Page reclamation: `num_pages_` of the index header and `next_free_page_no` of its pages are not modelled; a merged page leaves the map of pages and its number is not used again.
- `insert_entries` of the index, which sorts a batch of keys by comparison before inserting, adds nothing to single insertion.
- `IxIndex.IxIndexHandle.AdjustRoot`: has the leaf case only, because the other one is proved not to be called.
- `IndexScanLimits.ScanSafeIff`: for conditions that compare with constants; beside comparisons of two columns the test is sufficient (`IndexScan.ExecuteExact`), and its converse is not claimed, because such a comparison may happen to reject the wrong rows.
- `IndexRange.BuildRange`: integer columns only, see `IndexScan.Execute`.
- `IxKeys.IxCompare`: integer and string columns; floats are left out as above.
- `IndexScan.Execute`: integer columns only; string bounds are padded with spaces while stored values are padded with zeros, float bounds are not made strict, and rows hidden by visibility are not considered.
- `Propagation.PropagationKeepsMeaning`: numbers are compared as reals, strings in full; the cut-off of string comparison at the length of the left column is not modelled.
- `Conditions.FlipSat`: strings are compared in full here too; the code cuts them at the length of the column on the left, so turning a condition on string columns of different lengths around can change what it says.
- `JoinTree.PlanDenotes`: join filters compare strings in full, without that cut-off, and numbers as reals; a sequential scan converts both sides to single precision first, so integers beyond 2 to the power of 24 can compare as equal there.
- `JoinTree.OneScan`: the same, numbers as reals.
- `MakeOneRel.MakeOneRel`: the choice of index columns, of projected columns and of the join algorithm is not modelled; tables are distinct, and plans are values, so pushing a condition returns a new plan.
- `NestedLoopJoin.RunJoin`: a child is the sequence of rows that it delivers, and a row is made of the positions of its records, not of their bytes.
- The positioned `insert_record(rid, buf)` and `LoadExecutor`, which can leave a full page on the free list.
- `RmFile.RmFileHandle.GetRecord`: positions are on data pages and inside the slots of a page, as scans and indexes deliver them; the code does not check this either.
- `RmFile.RmFileHandle.UpdateRecord`: the same positions.
- `RmFile.RmFileHandle.DeleteRecord`: the same positions.
- Page headers hold the records of a page as values; the byte offsets of slots are covered by `RmFile.LayoutFits`.
- Version chains, write sets, rollback and record locks: `Executors.Table.Update` takes the set of visible positions as an argument, and a write conflict is not modelled.
- `RecordLayout.ApplySetsBytes`: for columns inside the record and values of their length, as the code materialises them; otherwise the model leaves the record alone.
- `Executors.Table.Insert`: the conversion of literals to column types is not modelled; the record arrives as bytes.
- `Mvcc.MvccMap.VisitRecord`: the list of old versions, which nothing reads, is not part of an entry.
- `LogManagement.LogManager.AddLogToBuffer`: records are no longer than the buffer and numbers stay below 2 to the power of 31; a longer record would be written past the buffer.
- Recovery, checkpoints, the buffer pool, the disk manager and the lock and transaction managers are not part of this model.
- Projection of the output of an aggregation, and the lookup of columns by name: `Projection.ProjectionExecutor.constructor` starts from column positions.
- Semi-joins, sorting, aggregation, expression evaluation, the parser and the server.
