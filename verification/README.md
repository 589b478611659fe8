# A model of db-engine

db-engine is a small relational database: SQL over a paged B+ tree with a write-ahead log,
snapshots, a shared page cache, a cost-based planner and secondary indexes. This project models
the layers where each is meant to look like something simpler than it is, and proves that it does,
or exactly when.

| layer | files | looks like |
|---|---|---|
| B+ tree | `BTreeSpec`, `BTreeOps`, `BTreePages`, `BTree`, `Cursor` | a finite map from 64-bit keys to values, scanned in order |
| pager and transaction buffer | `Pages`, `Pager`, `TxPager` | pages that are in use or free; a transaction that happens at once or not at all |
| buffer pool | `BufferPool` | no cache |
| log, commit and recovery | `Wal`, `Protocol`, `Mvcc` | committed transactions applied one after another, whatever crashes |
| bytes | `Bytes`, `NodeCodec`, `PageCodec`, `RowCodec`, `TreeBytes` | the values that were written |
| planner and operators | `Query`, `Planner`, `Operators`, `JoinEval`, `Joins`, `JoinMeaning`, `JoinSelect`, `PagedExec` | the rows the WHERE clause accepts; the filtered cross product |
| subqueries, grouping | `Subquery`, `SubqueryMeaning`, `Aggregates` | the statement as written; the true partition |
| INSERT, DELETE, UPDATE | `Tables`, `Statements` | a map from keys to rows; indexes that hold exactly the live rows; snapshots that stay |
| pages to rows | `Stack`, `StoredTables`, `Durable` | a stored table that survives crashes |

Code that updates its state step by step is a class with the source's fields or a method with the
source's loop, proved against functions on values (`Seqs` holds facts about sequences); the theorems
are about those functions. Trees, logs, pools and tables are unbounded; runs are sequences of any
length of any enabled steps.

Where a general claim is false of the code, the model keeps the code and states the exact
condition: cursors over emptied leaves, and so index lookups, SELECTs and joins that read an index
after physical deletes; column-to-column conditions on the primary key and in HAVING; join conditions written
right to left or within one table; EXISTS over a global aggregate; index exactness under INSERT and
UPDATE; overwritten row versions; double frees; rollback with a full free list; file names and texts
that do not fit; file names that share 32 bytes; and grouping by more than one TEXT column.

What a plan stands for (`Operators`, `Joins`, `JoinMeaning`) is a value: the rows its operators
yield when every cursor reaches its end. `PagedExec` pulls the same plans from paged trees, where a
cursor can fault, and carries each of these results over with the exact condition for a fault.

Where the code and its comments disagree, the model follows the code: the free list holds 1016 ids
(pager/pager.go:47 speaks of 1018), a leaf holds 15 entries of 264 bytes (btree/node.go:53 and 114
speak of 56 entries and of 80 bytes), a text column holds 48 bytes (catalog/catalog.go:23 speaks of
47 and a terminator), and statements of an explicit transaction do not run under the lock that
executor/executor.go:565-567 mentions.

## Model

| member | source | states |
|---|---|---|
| `BTreeSpec.FlatSorted` | btree/btree.go:89-121 | a tree that keeps its invariant lists its entries in strictly ascending key order |
| `BTreeSpec.HasIsMember` | btree/node.go:255-268 | a binary search on sorted entries finds a key exactly when the map of the entries has it |
| `BTreeSpec.PutIsUpdate` | btree/btree.go:285-312 | replacing or shifting in an entry is map update, removing it is map removal |
| `BTreeSpec.Route` | btree/btree.go:124-151 | only the child chosen by the separators can hold a key; everything left of it is smaller, everything right of it not |
| `BTreeSpec.HeightBound` | btree/node.go:54-64 | an insert-only tree of h >= 2 levels holds at least 16 * 170^(h-2) entries |
| `BTreeOps.InsOrdered` | btree/btree.go:270-458 | inserting keeps sorted keys, separators that bound subtrees, node sizes within order and uniform depth, also through splits of leaves and internal nodes |
| `BTreeOps.InsFlat` | btree/btree.go:270-458 | whatever splits, the entries after an insert are the old entries with this one put in |
| `BTreeOps.InsFilled` | btree/btree.go:374-458 | splits leave at least 8 entries per leaf and 170 children per internal node |
| `BTreeOps.DelOrdered` | btree/btree.go:228-263 | deleting without rebalancing keeps the search-tree invariant |
| `BTreeOps.DelFlat` | btree/btree.go:228-263 | the entries after a delete are the old entries without this key |
| `BTreeOps.RunRefinesMap` | btree/btree.go:48-151 | for every run of inserts and deletes from Create the tree keeps its invariant and stands for the finite map of that run; without deletes it stays half full |
| `BTreePages.InsGrew` | btree/btree.go:270-458 | an insert uses the pages of the tree and pages newly taken, no page twice |
| `BTreePages.RepDel` | btree/btree.go:232-263 | rewriting one leaf page represents the tree after the delete, leaf chain included |
| `BTreePages.RouteLookup` | btree/btree.go:124-151 | looking a key up in the routed child is looking it up in the whole tree |
| `BTrees.FindChildIndex` | btree/node.go:240-251 | the binary search returns the first child whose separator is greater than the key |
| `BTrees.LeafSearchKey` | btree/node.go:255-268 | the binary search returns the position of the key, or where it belongs, and whether it is there |
| `BTrees.ShiftIn` | btree/btree.go:300-311 | the shifting loop inserts one element and moves the rest up by one |
| `BTrees.BTree.Create` | btree/btree.go:48-68 | the new tree is empty, owns its header and root page and keeps the full invariant |
| `BTrees.Open` | btree/btree.go:72-85 | opening reads the root from the header page and finds the tree that was stored; a page that is missing or no header is an error |
| `BTrees.BTree.Insert` | btree/btree.go:89-121 | the paged insert produces exactly the tree of the value-level insert, page for page with its leaf chain, and updates the map |
| `BTrees.BTree.InsertNode` | btree/btree.go:270-283 | recursion by node type; the file represents the grown subtree and no page outside it changed |
| `BTrees.BTree.InsertLeaf` | btree/btree.go:285-322 | a leaf takes the entry or splits; the file represents the result |
| `BTrees.BTree.InsertInternal` | btree/btree.go:324-363 | an internal node takes in its child's split or splits itself |
| `BTrees.BTree.SplitLeafPage` | btree/btree.go:374-409 | the upper half moves to a new page, the chain is threaded through it, its first key is copied up |
| `BTrees.BTree.SplitInternalPage` | btree/btree.go:422-458 | the middle key is promoted and kept by neither half |
| `BTrees.BTree.GrowRoot` | btree/btree.go:98-121 | a split root gets a new root above the halves, and the header page names it |
| `BTrees.BTree.Search` | btree/btree.go:124-151 | found with its value exactly when the map has the key; it reads one page per level |
| `BTrees.SearchAfterInserts` | btree/btree.go:124-151 | after any run of inserts a lookup answers as the map of the run and fetches h pages, where 16 * 170^(h-2) is at most the number of entries |
| `BTrees.BTree.Delete` | btree/btree.go:228-230 | removes the key from the map and reports whether it was there; the invariant stays |
| `BTrees.BTree.DeleteInNode` | btree/btree.go:232-263 | the file represents the tree after the delete and no page outside the subtree changed |
| `Cursors.ChainInOrder` | btree/btree.go:374-409 | following NextLeaf from the first leaf visits exactly the leaves of the tree in order |
| `Cursors.LandingRight` | btree/cursor.go:41-71 | the leaf a seek lands on splits the leaves: all keys before it are below the bound, all after it not |
| `Cursors.SelectSorted` | btree/btree.go:166-216 | the selected entries are sorted |
| `Cursors.SelectIsRestriction` | btree/btree.go:166-216 | the selected entries are exactly the restriction of the map to the range |
| `Cursors.SeekLeaf` | btree/cursor.go:47-70 | descends to the leaf where the bound lands |
| `Cursors.RangeScan` | btree/btree.go:166-216 | the bulk scan returns exactly the entries of the range, for every tree, empty leaves included |
| `Cursors.FaultsExactly` | btree/cursor.go:85-102 | draining indexes an empty leaf exactly when one lies ahead before the upper bound is passed |
| `Cursors.DrainIsSelect` | btree/cursor.go:82-112 | draining yields a prefix of the entries ahead within the range, and without such a leaf exactly those |
| `Cursors.Cursor.constructor` | btree/cursor.go:41-71 | a new cursor has ahead of it what the seek determines |
| `Cursors.Cursor.Next` | btree/cursor.go:82-112 | each call returns the next entry of what lies ahead, the end, or the fault |
| `Cursors.DrainCursor` | btree/cursor.go:41-112 | repeated Next returns exactly what the cursor is bound to return |
| `Cursors.CursorExact` | btree/cursor.go:41-112 | the cursor faults if and only if it meets an empty leaf; it returns a prefix of the bulk scan, and without a fault all of it |
| `Cursors.InsertOnlyNeverFaults` | btree/cursor.go:85-102 | trees without physical deletes never fault, so primary trees never do |
| `Cursors.EmptiedLeafFaults` | btree/cursor.go:85-102 | after sixteen inserts and the deletion of the upper eight keys, whatever the values, the cursor faults where the bulk scan succeeds |
| `Pages.Alloc.TakeExact` | pager/pager.go:113-145 | taking a page removes exactly that page from the available ones and never yields page 0 |
| `Pagers.Pager.constructor` | pager/pager.go:225-229 | a new file has the meta page only |
| `Pagers.Pager.Load` | pager/pager.go:257-276 | the counters are those of the meta page |
| `Pagers.Pager.ReadPage` | pager/pager.go:179-194 | a page past the end is an error, else the page on disk |
| `Pagers.Pager.WritePage` | pager/pager.go:199-209 | replaces exactly this page |
| `Pagers.Pager.FlushMeta` | pager/pager.go:239-250 | page 0 on disk agrees with the counters |
| `Pagers.Pager.AllocatePage` | pager/pager.go:113-145 | returns a page not in use, blank, and leaves every page in use untouched |
| `Pagers.Pager.FreePage` | pager/pager.go:154-175 | refused for page 0, unknown pages and a full list; the allocator stays valid if and only if the page was in use |
| `Pagers.DoubleFreeHandsOutTwice` | pager/pager.go:154-175 | for every valid allocator, a free page that is freed again is handed out now and once more later |
| `Pagers.Conservation` | pager/pager.go:113-175 | in every run without double frees the held and free ids partition 1..total-1 and the next id is neither held nor 0 |
| `NodeCodec.EncodeMeta` | pager/pager.go:239-250 | the meta page holds the counters and the free list |
| `NodeCodec.MetaRoundTrip` | pager/pager.go:239-276 | loading restores exactly what was saved, for up to 1016 free pages |
| `TxPagers.OverlayFaithful` | pager/txpager.go:35-92 | any run of reads, writes and allocations through the buffer answers as the same run on the pager itself, and flushing leaves the same store |
| `TxPagers.AllocateAgreesIff` | pager/txpager.go:59-66 | allocation through the buffer agrees with the pager if and only if neither the new page nor the meta page is buffered with other content |
| `TxPagers.RollbackRestores` | pager/txpager.go:95-104 | whatever the transaction did, after rollback every page that was in use is in use and unchanged, and these are all if and only if the free list had room for the transaction's pages |
| `TxPagers.TxPager.constructor` | pager/txpager.go:29-31 | starts with an empty buffer |
| `TxPagers.TxPager.ReadPage` | pager/txpager.go:35-40 | a transaction reads its own writes |
| `TxPagers.TxPager.WritePage` | pager/txpager.go:43-47 | buffers the page and leaves the file alone |
| `TxPagers.TxPager.AllocatePage` | pager/txpager.go:59-66 | takes the page from the base pager and remembers it |
| `TxPagers.TxPager.DirtyPages` | pager/txpager.go:71-77 | every buffered page once, in some order |
| `TxPagers.TxPager.Flush` | pager/txpager.go:82-92 | in any page order the file becomes the view of the transaction |
| `TxPagers.TxPager.Rollback` | pager/txpager.go:95-104 | succeeds if and only if the free list has room for all its pages; other pages in use stay unchanged either way |
| `BufferPools.CachedValid` | bufferpool/pool.go:117-189 | every operation keeps map and list in step without duplicates and the size within capacity |
| `BufferPools.FetchCoherent` | bufferpool/pool.go:117-150 | fetching keeps every frame equal to its page on disk |
| `BufferPools.WriteCoherentIff` | bufferpool/pool.go:268-274 | writing through keeps coherence unless the page lies past the end of the file and gets cached |
| `BufferPools.AllocateCoherentIff` | bufferpool/pool.go:279-281 | allocating keeps coherence if and only if neither the meta page nor the new page is cached with other content |
| `BufferPools.FreeCoherentIff` | bufferpool/pool.go:284-287 | freeing keeps coherence if and only if the meta page is not cached or the free fails |
| `BufferPools.PoolTransparent` | bufferpool/pool.go:98-189 | over every run on allocated pages each answer and the files are those of the same run without a cache, and every frame equals disk |
| `BufferPools.RecencyOrder` | bufferpool/pool.go:213-219 | the recency list is ordered by the last fetch of each page |
| `BufferPools.HoldsMostRecent` | bufferpool/pool.go:117-150 | over fetch-only runs the pool holds exactly the most recently fetched distinct pages, most recent first |
| `BufferPools.HoldsMostRecentlyUsed` | bufferpool/pool.go:117-175 | over runs of fetches and writes it holds exactly the most recently used distinct pages, most recent first; a write uses its page unless the pool is full without it |
| `BufferPools.LargerHoldsMore` | bufferpool/pool.go:223-234 | a larger pool holds everything a smaller one holds |
| `BufferPools.Pool.constructor` | bufferpool/pool.go:73-83 | capacity 64 unless a positive one is given; empty |
| `BufferPools.Pool.Register` | bufferpool/pool.go:89-96 | numbers files with a 16-bit counter that wraps around |
| `BufferPools.Pool.Unregister` | bufferpool/pool.go:100-112 | drops exactly the frames of that file and forgets it |
| `BufferPools.Pool.FetchPage` | bufferpool/pool.go:117-150 | a hit answers from the frame and promotes it; a miss evicts the least recent frame when full, even if the read then fails |
| `BufferPools.Pool.UpdatePage` | bufferpool/pool.go:158-175 | refreshes a cached page, caches a new one only if there is room |
| `BufferPools.Pool.EvictPage` | bufferpool/pool.go:179-189 | removes the frame from map and list |
| `BufferPools.BufPager.ReadPage` | bufferpool/pool.go:263-265 | reads through the pool |
| `BufferPools.BufPager.WritePage` | bufferpool/pool.go:268-274 | disk first, then the pool |
| `BufferPools.BufPager.AllocatePage` | bufferpool/pool.go:279-281 | allocates underneath the pool |
| `BufferPools.BufPager.FreePage` | bufferpool/pool.go:284-287 | evicts, then frees |
| `Wals.ScanInit` | wal/wal.go:290-312 | counts the records before the first torn one; the counters are above all of them |
| `Wals.Wal.constructor` | wal/wal.go:92-103 | the counters follow the largest LSN and id before the first torn record, for any file; the log can be appended to safely exactly when nothing follows that record and LSNs grow with position |
| `Wals.Wal.Append` | wal/wal.go:335-343 | the record goes to the logical end, over a torn slot |
| `Wals.Wal.AllocXID` | wal/wal.go:117-123 | the id occurs nowhere in the log |
| `Wals.Wal.AppendWrite` | wal/wal.go:127-138 | logs the image under the cut file name |
| `Wals.CommittedXIDs` | wal/wal.go:174-192 | exactly the ids with a commit record |
| `Wals.KeepLatest` | wal/wal.go:220-238 | highest LSN wins equals replay in log order |
| `Wals.ImagesAreLast` | wal/wal.go:203-238 | in-order replay leaves each page with its last committed write, by position in the log |
| `Wals.Recover` | wal/wal.go:203-278 | every page of an existing file gets the image of its last write by a transaction with a commit record; every other page stays as it was |
| `Wals.RecoverTwice` | wal/wal.go:203-278 | opening twice: the second recovery, on the disk the first one left, changes no page |
| `Wals.RestoredIffFits` | wal/wal.go:361-365 | the same for arbitrary names, as long as no other logged name has the same first 32 bytes |
| `Wals.FileNamesNeverClash` | executor/executor.go:352-358 | names of tables and indexes never do: no longer one starts with a whole one |
| `Wals.RestoredIffNameFits` | wal/wal.go:361-365 | for every log written under the engine's file names, a committed page of an existing file comes back if and only if the name has at most 32 bytes or the page was right already |
| `Wals.ClashOverwrites` | wal/wal.go:361-365 | two names sharing 32 bytes: the committed page of the shorter comes back with the content of the longer |
| `Protocol.RunsAreAtomic` | executor/executor.go:352-389 | at every idle point of every run, however often it crashed, each page holds the surviving commits applied one whole transaction after another; acknowledged commits are among them, no other id is visible, and recovering again changes nothing |
| `Protocol.DurableForEver` | executor/executor.go:366-371 | a transaction whose commit record was synced stays, in its place, for the rest of every run |
| `Protocol.NoSteal` | pager/txpager.go:35-104 | at every point of every run, also after a crash, every row header on disk has a durably committed xmin and an xmax that is 0 or durably committed |
| `Protocol.CountersAhead` | wal/wal.go:282-343 | over any number of sessions and crashes LSNs grow with position and the next id occurs nowhere in the log |
| `Protocol.CrashLoses` | executor/executor.go:352-389 | a crash loses exactly the commits whose record was not kept |
| `Protocol.StepOk` | executor/executor.go:311-389 | every step of begin, write, allocate, log, sync, flush, mark, rollback, crash, recover and reopen keeps the protocol invariant |
| `Protocol.LogPages` | executor/executor.go:352-369 | the log gains one write record per dirty page, under its name cut to 32 bytes, and nothing else |
| `Protocol.CommitTx` | executor/executor.go:352-382 | every record, fsync and page write of a commit is a step of the protocol, in order: the log first, then the commit record, the sync and the pages; in the end the disk is the old one with the write set, and so are the replayed images when the names fit |
| `Protocol.FollowsOk` | executor/executor.go:352-389 | a crash may come between any two of them: each state on the way keeps the protocol invariant |
| `Durable.InsertStatement` | executor/executor.go:614-703 | the changed pages of an insert, laid over any file that holds the old tree under its header, make it hold the new one |
| `Durable.DeleteStatement` | executor/dml.go:235-264 | the same for a physical delete |
| `Durable.TableSurvives` | executor/executor.go:352-389 | at every idle point of every run, wherever it crashed, the pages on disk decode to the tree of the surviving transactions under its header; the tree keeps its invariant and stands for their map, and every acknowledged transaction survives |
| `Bytes.LeRoundTrip` | btree/node.go:123-134 | a number that fits its width is read back unchanged |
| `Bytes.LeDigit` | btree/node.go:123-134 | byte i is the i-th base-256 digit, least significant first |
| `NodeCodec.EncodeLeaf` | btree/node.go:115-136 | fills the data area with a moving offset; more than 15 entries are refused |
| `NodeCodec.EncodeInternal` | btree/node.go:169-197 | keys, then children; too many keys or a wrong number of children are refused |
| `NodeCodec.DecodeLeafLoop` | btree/node.go:139-158 | reads count, link and entries; another node type is an error |
| `NodeCodec.LeafRoundTrip` | btree/node.go:115-158 | every leaf of at most 15 entries fits its page and decodes to itself |
| `NodeCodec.InternalRoundTrip` | btree/node.go:169-222 | every internal node of at most 338 keys fits its page and decodes to itself |
| `NodeCodec.OrdersFill` | btree/node.go:39-64 | 15 entries, 338 keys and 1016 free ids are the most that fit the data area |
| `NodeCodec.KindsApart` | btree/node.go:139-222 | a leaf is never read as an internal node, nor the other way round |
| `NodeCodec.NodeAcceptedIff` | btree/node.go:139-222 | a data area is read as a node exactly when its type says so and its count stays inside |
| `TreeBytes.NodeSurvives` | btree/node.go:115-222 | every node of a tree that keeps its invariant is encodable and read back as written |
| `PageCodec.Encode` | storage/page.go:130-148 | header fields, data area and the checksum over the data area |
| `PageCodec.PageRoundTrip` | storage/page.go:130-179 | decoding an encoded page gives it back with its checksum filled in |
| `PageCodec.SamePageIff` | storage/page.go:152-179 | it is the same page if and only if its checksum field was already right |
| `PageCodec.AcceptedIff` | storage/page.go:152-179 | a raw page is accepted if and only if it starts with the magic number and carries the checksum of its data area, and then every byte but the reserved two is said by the decoded page |
| `PageCodec.EncodeRecord` | wal/wal.go:356-371 | the log record field by field, its checksum over everything else |
| `PageCodec.RecordRoundTrip` | wal/wal.go:356-387 | a record comes back whole except for a name cut to 32 bytes and stripped of trailing zeros |
| `PageCodec.SameRecordIff` | wal/wal.go:361-365 | it comes back unchanged if and only if its name is at most 32 bytes and ends in no zero byte |
| `PageCodec.RecordAcceptedIff` | wal/wal.go:373-387 | a log slot holds a record if and only if its last four bytes are the checksum of the rest |
| `PageCodec.DamageFoundIff` | wal/wal.go:373-387 | a damaged record is refused unless its checksum collides |
| `PageCodec.ThroughAllLayers` | wal/wal.go:356-387 | a node logged as a page image and recovered from the log is the node that was logged |
| `RowCodec.ValidateSchema` | executor/executor.go:899-917 | accepts exactly schemas with an integer column whose row fits 248 bytes |
| `RowCodec.EncodeRow` | executor/executor.go:855-871 | fills the slot with a moving offset that never leaves it |
| `RowCodec.DecodeRowLoop` | executor/executor.go:875-897 | reads the columns back, texts without trailing zeros |
| `RowCodec.RowRoundTrip` | executor/executor.go:855-897 | version header and every column are read back; texts are cut to 48 bytes and lose trailing zeros |
| `RowCodec.SameRowIff` | executor/executor.go:855-897 | a row decodes to itself if and only if its texts are at most 48 bytes and end in no zero byte |
| `RowCodec.DeleteInSlot` | executor/dml.go:237-247 | setting xmax changes the second header word and nothing else |
| `Stack.ScanTable` | executor/operators.go:177-202 | a table scan over the paged tree fails exactly when its cursor meets an empty leaf and otherwise yields the visible rows of the range in key order |
| `Stack.LookupTable` | executor/operators.go:222-261 | an index lookup over two paged trees fails exactly when the index cursor meets an empty leaf and otherwise yields the visible rows the index leads to, in value order |
| `Stack.TreeIsTable` | executor/operators.go:189-202 | a tree of encoded rows is a stored table: the operators see exactly the rows and headers written |
| `StoredTables.IndexCellBack` | executor/operators.go:240-245 | an index entry leads to the key in the first eight bytes of its slot, whatever follows |
| `StoredTables.IndexTree` | executor/operators.go:239-261 | a tree of such slots lists the index in value order |
| `StoredTables.RowTree` | executor/operators.go:189-202 | a tree of row slots lists the stored versions in key order |
| `StoredTables.LookupRange` | executor/operators.go:222-261 | over the pages of a table with exact indexes a lookup fails exactly when its cursor meets an empty leaf and otherwise returns exactly the rows of the table with a value in the range, each once |
| `StoredTables.ScanRange` | executor/operators.go:177-202 | the same for a scan and the key |
| `StoredTables.PutEntry` | executor/executor.go:680-682 | inserting the slot of a key makes the tree hold the index with that entry |
| `StoredTables.DropEntry` | executor/dml.go:248-262 | deleting makes it hold the index without the value |
| `StoredTables.PutRow` | executor/executor.go:620-640 | inserting an encoded row makes the tree hold the version with it, every text in the form its column keeps |
| `StoredTables.MarkDeleted` | executor/dml.go:236-247 | overwriting one header word makes it hold the version as deleted; a missing key is skipped |
| `Queries.BeforeTotal` | executor/operators.go:545-557 | text order is total and strict |
| `Queries.SameNameIff` | catalog/catalog.go:104-112 | names are the same exactly when they differ in the case of letters at most |
| `Queries.CompareEq` | executor/operators.go:527-560 | equality under = is equality of values, types included |
| `Queries.CompareOrder` | executor/operators.go:527-560 | < on integers is numeric order and on texts holds exactly when they agree up to a position where the left one ends or has the smaller byte; >, >= and <= are its converse and complements; values of different types never compare |
| `Queries.EvalPreds` | executor/operators.go:564-598 | exactly the conjunction of what the conditions say; unknown columns and column-to-column conditions pass |
| `Queries.MatchesWhere` | executor/dml.go:45-55 | exactly the disjunction of the groups; no clause accepts everything |
| `Mvcc.TxManager.MarkCommitted` | mvcc/mvcc.go:42-46 | adds the id |
| `Mvcc.TxManager.TakeSnapshot` | mvcc/mvcc.go:52-60 | a copy of the committed ids with the own id |
| `Mvcc.WhoSees` | mvcc/mvcc.go:75-92 | a transaction sees the row it wrote, not the row it deleted, and of the others what they had committed and not deleted by the time of the snapshot |
| `Planners.CondToRange` | planner/planner.go:445-469 | the inclusive range holds exactly the 64-bit values the comparison admits, extremes included |
| `Planners.ClassifyGroup` | planner/planner.go:481-521 | the loop computes the bounds and remaining filter |
| `Planners.ClassifyMeaning` | planner/planner.go:481-521 | bounds and filter accept exactly the rows the conditions accept, minus rows whose key fails the comparison with 0 a column-to-column condition was read as |
| `Planners.LoneJoinCondition` | planner/planner.go:493-496 | a lone column-to-column condition on the key is planned right for every row if and only if its operator is >= |
| `Planners.RuleBasedChoice` | planner/planner.go:419-443 | the first condition an index can serve, if any |
| `Planners.CostBasedChoice` | planner/planner.go:373-417 | the cheapest such condition if it beats the full scan, whatever the costs are |
| `Planners.ResolveColumns` | planner/planner.go:524-545 | every column for *, else the named ones; an unknown name is an error |
| `Planners.Projected` | executor/operators.go:378-388 | a projected row shows, at the position of each item of the select list, the value of the column it names, and for * the row itself |
| `Operators.ScanExact` | executor/operators.go:189-202 | the scan yields each visible row of the key range once |
| `Operators.LookupExact` | executor/operators.go:239-261 | through a covering index, each visible row whose column lies in the range once, when the cursor reaches its end |
| `Operators.CoverageIsNeeded` | executor/operators.go:239-261 | an index whose point lookups are all right covers the table, so coverage is exactly what is needed |
| `Operators.FilterLoop` | executor/operators.go:332-342 | keeps exactly the rows the predicates accept, in order |
| `Operators.UnionLoop` | executor/operators.go:290-308 | the first row of each key over all branches |
| `Operators.ScanVisible` | executor/dml.go:64-92 | the visible rows the clause accepts, in key order |
| `Operators.GroupRows` | planner/planner.go:366-443 | the plan of one AND group, for any access path, stands for the accepted visible rows once, minus lost ones |
| `Operators.PlanYields` | planner/planner.go:58-89 | every plan of every WHERE clause stands for exactly the rows some group accepts without losing, each once |
| `Operators.PlanRightIff` | planner/planner.go:366-521 | the rows a plan stands for are what the clause says if and only if no visible row is accepted only by groups that lose it |
| `Operators.PlanPreservesMeaning` | planner/planner.go:58-89 | without column-to-column conditions on the key, the plan stands for exactly the visible rows the clause accepts, each once, for every choice of access paths |
| `Operators.SelectIsScanVisible` | executor/dml.go:64-92 | the plan of a SELECT stands, up to order, for exactly the rows DELETE and UPDATE act on |
| `Operators.SelectStatement` | planner/planner.go:58-89 | a whole SELECT over one table stands, up to order, for rows that show the select list over exactly the rows DELETE would act on, and with LIMIT n for n of them or all |
| `Operators.TakeSome` | executor/operators.go:356-365 | LIMIT n keeps n of the rows, or all when there are fewer |
| `PagedExec.PullPrefix` | executor/operators.go:170-365 | pulled from paged trees, every plan hands out its rows in order up to the first fault of a cursor, and all of them when none faults |
| `PagedExec.RowsNeverFault` | executor/operators.go:177-202 | rows are never deleted physically, so a group planned without an index never faults |
| `PagedExec.GroupStream` | planner/planner.go:366-443 | the plan of a group faults if and only if the cursor of its leaf, over the chosen index or over the rows, meets an empty leaf |
| `PagedExec.SelectOverPages` | planner/planner.go:58-89 | a whole SELECT over paged trees fails if and only if the leaf of some group meets an empty leaf before LIMIT has its rows, and otherwise returns, up to order, rows that show the select list over exactly the rows DELETE would act on |
| `JoinEval.BuildColMap` | executor/operators.go:494-510 | bare names first, the first column winning, then qualified names over them |
| `JoinEval.EvalOn` | executor/operators.go:468-489 | exactly the conjunction of the conditions as the code resolves them |
| `JoinEval.NestedLoop` | executor/operators.go:422-457 | every satisfying pair, left rows outermost |
| `JoinEval.JoinOp.Next` | executor/operators.go:422-457 | each call returns the next satisfying pair, reopening the right side for every left row, and none exactly when none is left |
| `Joins.SplitConds` | planner/planner.go:161-175 | conditions that connect the next table, and the rest |
| `Joins.BuildTree` | planner/planner.go:152-192 | the left-deep tree with each condition on the first join that connects it |
| `JoinMeaning.ConnectsWhenDue` | planner/planner.go:253-275 | a qualified left-to-right condition connects exactly at the join of its right table |
| `JoinMeaning.HoldsWhenDue` | executor/operators.go:468-489 | there it compares exactly the two columns it names |
| `JoinMeaning.FoundAt` | planner/planner.go:228-250 | a filter goes to the table that owns its column |
| `JoinMeaning.TreeExact` | executor/operators.go:415-457 | the join over the first k tables holds each combined row once that satisfies every condition due so far |
| `JoinMeaning.JoinIsFilteredProduct` | planner/planner.go:102-202 | the plan stands for each row of the cross product once that satisfies every WHERE and ON condition, and nothing else |
| `PagedExec.TreeFaults` | executor/operators.go:422-457 | a join over paged trees faults if and only if its first faulting table in FROM order is reached, that is, the tables before it join to some row; if it is not reached, the join is empty |
| `PagedExec.JoinOverPages` | planner/planner.go:102-202 | a query over several paged tables fails if and only if that table is reached, each table faulting exactly as its access path does, and otherwise returns each row of the filtered cross product once |
| `JoinMeaning.BackwardRightIff` | executor/operators.go:470-481 | a right-to-left condition is evaluated right for all rows if and only if a bare name is missing on the other side, or the bare names land on the columns meant and the operator is = |
| `JoinMeaning.SharedNamesWrong` | executor/operators.go:470-481 | when both tables have the two column names, the right-to-left condition compares other columns and is wrong for some rows, whatever its operator |
| `JoinMeaning.TestedIffConnects` | planner/planner.go:161-189 | a condition is tested by some join if and only if it connects at some join; the others are dropped |
| `JoinMeaning.OneTableNeverConnects` | planner/planner.go:253-260 | a condition between two columns of one table connects nowhere |
| `JoinMeaning.RefusedClauses` | planner/planner.go:118-134 | OR, and a condition that can never hold, are errors with several tables |
| `JoinSelect.FoundIffOwned` | planner/planner.go:228-250 | a filter finds a table exactly when one owns its column: by qualifier, or as the only one with a bare name |
| `JoinSelect.PlannedIff` | planner/planner.go:115-134 | a query over several tables is planned if and only if it has no OR and every filter is owned by one table |
| `JoinSelect.FindInSchema` | planner/planner.go:338-361 | an item means the first column with exactly that name, or else the only one with that name after its last dot |
| `JoinSelect.ResolveColumnsMulti` | planner/planner.go:287-334 | every item stands for the column it means, or for all columns of a qualifier in order; an item that stands for nothing is an error |
| `JoinSelect.JoinStatement` | planner/planner.go:102-202 | a whole query over several tables returns, for each row of the filtered cross product or for LIMIT of them, one row that holds, item after item, the columns the items stand for |
| `JoinSelect.QueryOverPages` | executor/operators.go:356-388 | over paged trees it fails exactly when its join does before LIMIT has its rows, and otherwise returns those rows |
| `Aggregates.RowGroupKey` | executor/agg.go:163-181 | tokens of the grouping columns separated by zero bytes |
| `Aggregates.KeyInjective` | executor/agg.go:163-181 | without zero bytes in texts, keys are equal if and only if the grouped values are |
| `Aggregates.OneTextInjective` | executor/agg.go:163-181 | with at most one TEXT value, whatever zero bytes it holds, equal keys mean equal values |
| `Aggregates.TwoTextsCollide` | executor/agg.go:168-171 | with two TEXT columns, whatever stands between them, two different rows have one key |
| `Aggregates.KeyExactIff` | executor/agg.go:163-181 | over all rows of a schema, equal keys mean equal grouping columns if and only if at most one of these is TEXT |
| `Aggregates.GroupRows` | executor/agg.go:128-144 | groups in order of first appearance, each holding exactly the rows of its key in their order |
| `Aggregates.SameGroupIff` | executor/agg.go:128-144 | two rows stand in one group if and only if they agree on every grouping column |
| `Aggregates.RowsInOrder` | executor/agg.go:128-144 | a group holds its rows in their order |
| `Aggregates.GroupsInOrder` | executor/agg.go:128-144 | groups come in the order of their first rows |
| `Aggregates.TotalsAddUp` | executor/agg.go:207-221 | the groups' counts add up to the number of rows and their sums to the sum of all rows |
| `Aggregates.SumsAddUp` | executor/agg.go:212-221 | the groups' SUMs add up to the ungrouped SUM modulo 2^64 |
| `Aggregates.SumLoop` | executor/agg.go:217-220 | the sum modulo 2^64 |
| `Aggregates.MinLoop` | executor/agg.go:237-251 | the least value, attained by a row; 0 for none |
| `Aggregates.MaxLoop` | executor/agg.go:253-267 | the greatest value, attained by a row; 0 for none |
| `Aggregates.GroupRowAnswers` | executor/agg.go:184-267 | position i of a group row answers item i: COUNT the number of rows and SUM their total up to 64-bit wrap-around, AVG the wrapped sum divided and rounded down, MIN and MAX a least and greatest value that occurs, a plain column its value in the first row; 0 without rows |
| `Subqueries.FirstColumnValues` | executor/subquery.go:136-144 | the first column of every row that has one |
| `Subqueries.FlattenInPlace` | executor/subquery.go:50-115 | resolves a group inside its own buffer without overwriting a condition before it is read; stops at the first failing one |
| `Subqueries.FlattenSubqueries` | executor/subquery.go:45-118 | every group resolved, a failed one replaced by a condition that never holds |
| `Subqueries.ExecSelectFlattened` | executor/subquery.go:32-40 | flatten WHERE, then HAVING, then run on the rows in the order of the plan; the recursion ends |
| `SubqueryMeaning.CondFaithful` | executor/subquery.go:53-103 | the resolved form of IN, NOT IN, EXISTS, NOT EXISTS and scalar conditions says what the condition says |
| `SubqueryMeaning.GroupWhere` | executor/subquery.go:49-116 | a flattened group accepts exactly the rows the group accepts |
| `SubqueryMeaning.GroupHaving` | executor/agg.go:328-349 | a flattened HAVING group that raises no error accepts exactly the grouped rows the group accepts |
| `SubqueryMeaning.QueryMeaning` | executor/subquery.go:32-118 | for every nesting and every order in which a plan delivers rows, a flattened statement that raises no error returns exactly what the statement means, and EXISTS is answered right; what that is, the four rows below say |
| `SubqueryMeaning.StatementReturns` | executor/agg.go:44-100 | a statement returns the first LIMIT rows of what HAVING leaves of one row per kept row, or of one row per group as soon as it has an aggregate or GROUP BY |
| `SubqueryMeaning.PlainAnswers` | executor/operators.go:378-388 | without an aggregate each kept row gives the row that shows the select list |
| `SubqueryMeaning.AggregateAnswers` | executor/agg.go:104-160 | otherwise there is one row per group of the true partition by the GROUP BY columns, or one for no rows at all, and it answers every item over the group's rows |
| `SubqueryMeaning.HavingNames` | executor/agg.go:287-302 | a name in HAVING means the last item whose call has that name, or else the last one with that output name |
| `SubqueryMeaning.HavingColumnsRightIff` | executor/agg.go:328-349 | HAVING with a comparison of two columns compares the first with 0, and is right for all its values if and only if the second is 0 or nothing can be below it |
| `SubqueryMeaning.HavingRowOutcome` | executor/agg.go:318-349 | HAVING raises an error for a row exactly when no earlier group holds and a group reaches, all conditions before it holding, one whose name is unknown |
| `SubqueryMeaning.GroupOutcome` | executor/subquery.go:50-115 | a WHERE or HAVING group raises an error exactly when a subquery in it does, or a scalar one returns several rows, and no condition before it is known to be false |
| `SubqueryMeaning.FailsIff` | executor/subquery.go:32-40 | a statement fails if and only if a subquery does, its table is missing, a name of its lists is, or HAVING raises an error |
| `SubqueryMeaning.ExistsGlobalIff` | executor/subquery.go:83-98 | EXISTS over an aggregate without GROUP BY means that its one group row passes HAVING; the flattened form says that some row matches, and is right if and only if the two coincide |
| `SubqueryMeaning.PlanIsAnOrder` | executor/executor.go:755-800 | for any access paths, the rows a planned statement works on are the rows the clause keeps in some order |
| `Tables.FreshSeesLive` | mvcc/mvcc.go:75-92 | a fresh snapshot shows exactly the rows without a deleter |
| `Tables.BuildUpdatePlans` | executor/dml.go:291-309 | known columns other than the key, with values of their type; anything else is an error |
| `Tables.InsertExact` | executor/executor.go:644-691 | an index stays exact under a non-rejected INSERT if and only if the key was not live |
| `Tables.DeleteExact` | executor/dml.go:235-264 | DELETE keeps an index exact |
| `Tables.UpdateExactIff` | executor/dml.go:412-451 | UPDATE keeps an index exact if and only if at most one live row ends with the new value |
| `Tables.RejectedInsert` | executor/executor.go:670-678 | a rejected INSERT changes neither the table nor an index |
| `Tables.ExactIffSafe` | executor/executor.go:614-703 | a statement keeps every index exact if and only if it is safe: a rejected insert or a key not live, a delete, an update that leaves values unique |
| `Tables.IndexesStayExact` | executor/dml.go:160-264 | over every run of safe statements all indexes stay exact |
| `Tables.SnapshotStable` | executor/executor.go:738-753 | a transaction that wrote nothing reads the same rows across every run of others' inserts of new keys and deletes |
| `Tables.ReinsertKeepsIff` | executor/executor.go:636-640 | re-inserting a key keeps what an older snapshot reads if and only if the snapshot did not see the row |
| `Tables.UpdateKeepsIff` | executor/dml.go:420-423 | UPDATE keeps what an older snapshot reads if and only if it saw none of the updated rows |
| `Tables.InsertReads` | executor/executor.go:614-703 | after an INSERT that is not rejected the next reader gets the old rows with this one, as it was given, under its key |
| `Tables.DeleteReads` | executor/dml.go:160-264 | after a DELETE it gets exactly the rows the clause does not accept, unchanged |
| `Tables.UpdateReads` | executor/dml.go:412-451 | after an UPDATE it gets the same keys, each accepted row with every column at the value of its last SET clause or unchanged, the other rows unchanged |
| `Tables.TakenIffClash` | executor/executor.go:659-678 | over exact indexes INSERT is rejected if and only if some row has its value in an indexed column |
| `Tables.RunReads` | executor/executor.go:567-703 | over every run of safe statements the table is read as a map from keys to rows on which each statement has just that effect |
| `Tables.ExecKeyed` | executor/dml.go:412-423 | every row stays under its own key |
| `Statements.TableStore.AutoCommitInsert` | executor/executor.go:614-703 | row and index entries together, or nothing when an entry exists; the next reader gets the row as it was given |
| `Statements.TableStore.ExecInsert` | executor/executor.go:567-612 | wrong number or types of values are refused without effect |
| `Statements.TableStore.ApplyDelete` | executor/dml.go:235-264 | the loops compute the deleted rows and every index; the next reader gets exactly the rows not accepted |
| `Statements.TableStore.ApplyUpdate` | executor/dml.go:412-451 | the loops compute the rewritten rows and every index; the next reader gets the rows as set |
| `Statements.ExactCovers` | executor/operators.go:239-261 | an exact index covers every fresh snapshot, which is the premise the planning theorems need |

## Left out

- Network server, client, dashboard, command line, EXPLAIN text, lexer and parser: the model starts from parsed statements.
- File I/O errors and partial writes of a page: a write happens or not, a crash keeps the synced log, possibly some records after it and one torn record; writes of the pager's own meta page are durable at once.
- 32-bit wrap-around of page ids, transaction ids and the 64-bit wrap-around of LSNs: these counters are unbounded numbers (widths are modelled in the codecs and in the pool's file ids).
- CRC32: any function from bytes to 32 bits; a torn record is one that fails it.
- Aliasing of pages handed out by the pool, Go mutexes and goroutine ids: each locked section is one step.
- Two transactions that dirty the same page and overwrite each other at flush: commits are applied whole, in commit order, and row-level serializability of overlapping writers is not claimed.
- Files dropped and created again under the same name while old log records mention them.
- Explicit transactions over several statements on tables and indexes: statements are auto-committed; inside a transaction index lookups bypass its buffer, which the planner theorems exclude by their premise on indexes.
- CREATE INDEX, DROP INDEX and catalog persistence: schemas are given; an index created over existing rows is one that does not cover the table.
- Cost arithmetic and statistics: the costs are arbitrary numbers.
- Unicode case folding: names are folded by ASCII letters.
- ORDER BY: sorting of result rows is not modelled, neither in statements nor in subqueries.
- Subqueries over several tables: the statements of `Subquery` select from one table; column-to-column conditions on its key, which the planner misreads, are covered by the plan theorems only.
- Operators.LookupExact: the rows when no cursor faults; Stack.LookupTable says exactly when one does.
- Operators.GroupRows: the rows when no cursor faults; PagedExec.GroupStream says exactly when one does.
- Operators.PlanYields: the rows when no cursor faults; PagedExec.SelectOverPages says exactly when one does.
- Operators.PlanRightIff: the rows when no cursor faults; PagedExec.SelectOverPages says exactly when one does.
- Operators.PlanPreservesMeaning: the rows when no cursor faults; PagedExec.SelectOverPages says exactly when one does.
- Operators.SelectIsScanVisible: the rows when no cursor faults; PagedExec.SelectOverPages says exactly when one does.
- Operators.SelectStatement: the rows when no cursor faults; PagedExec.SelectOverPages says exactly when one does.
- JoinMeaning.JoinIsFilteredProduct: the rows when no cursor faults; PagedExec.JoinOverPages says exactly when one does.
- PagedExec.PullPrefix: a fault is a panic in the original, which the statement does not survive; the rows handed out before it are modelled as rows.
- Aggregates.KeyExactIff: a column listed twice in GROUP BY is not covered.
- Tables.InsertReads: rows in the form their slots keep; what a longer text is cut to is in StoredTables.PutRow and RowCodec.SameRowIff.
- Durable.TableSurvives: the tree under the commit protocol; the buffer pool is not part of it (BufferPools.PoolTransparent says that reading and writing through it changes nothing).
- Operators.FilterLoop: the order in which operators pull rows from each other is modelled for the join only; the other operators are loops over their child's rows.
- NodeCodec.DecodeLeafLoop: a count that runs past the page stops the original with a panic; here it is an error.
- Protocol.StepOk: a crash leaves at most one torn slot after the valid records.
