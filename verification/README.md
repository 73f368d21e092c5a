# MagnumDB in Dafny

A model of MagnumDB's storage stack and of two slices of its SQL engine, with proofs. Each layer is shown to implement
something simple, and the layers above use only that.

| file | what it models | what it stands for |
|---|---|---|
| `PageAllocator.dfy`, `Pager.dfy` | page file with an on-page list of free pages | a stack of free ids and a set of live ones |
| `BufferPool.dfy` | write-back page cache with LRU eviction | the page array itself |
| `Nodes.dfy`, `NodeCodec.dfy` | B+ tree nodes and their page format | a node, given back by reading what was written |
| `Overflow.dfy` | chains of overflow pages for long values | the value |
| `NodeStore.dfy`, `PagedTree.dfy` | nodes and overflow pages as bytes in the cache and the file; tree operations on them | the node map of the tree |
| `TreeInvariant.dfy`, `TreeContents.dfy`, `TreeSplit.dfy`, `TreeCascade.dfy`, `LeafChain.dfy`, `BTree.dfy`, `TreeRuns.dfy` | the B+ tree: descent, splits and their cascades, sibling chain, scans, deletes | a map from keys to values |
| `TreeLimits.dfy` | what the B+ tree does not keep | |
| `Wal.dfy`, `WalFile.dfy` | write-ahead log, its frames, recovery, checkpoint | the list of committed operations |
| `Database.dfy` | log, index and data image; commits, rollbacks, crashes | the base map with the committed operations applied |
| `Engine.dfy` | the database on the B+ tree: runs of changes, COMMIT, restart after a crash | the same, held by the tree |
| `Session.dfy` | write buffer of an SQL transaction | the map the transaction sees |
| `RowCodec.dfy` | row encoding | the list of values |
| `Text.dfy` | strings as the bytes the database stores | the string |
| `SecondaryIndex.dfy`, `Tables.dfy` | secondary indexes and the statements that maintain them | the rows filtered by a value |
| `TableLimits.dfy` | statements that leave a table out of order | |
| `Relations.dfy`, `Volcano.dfy` | query operators driven by open and next | nested-loop join, per-group aggregates, filters, slices |
| `Common.dfy`, `Bytes.dfy` | outcome types, rows; byte order, little-endian integers, fields of a byte string | |

State that the source updates in place is a class whose methods carry the source's loops; each is tied to a function or a
predicate on values, and the laws are lemmas about those. CRC32 is any function of the bytes it covers. Floating-point
numbers are bit patterns with arbitrary addition, division, printing, parsing and comparisons. The LRU library is a recency list.
Every operation is one sequential step. A statement on a table has a parameter `full`: unless it is set, the database
carries out every change whose key is not too long; `Engine.Perform` says when it does not.

## Where the code does less than it seems to promise

Each of these has the exact condition under which the property holds, in both directions, and an input, a run or a family of
inputs on which it fails. For values that look like overflow handles the condition covers those that name no page or a page
of another value.

- Splitting by record count can leave a half that does not fit a page (`Nodes.LargeRecordsBreakSplit`), and then the insert
  fails (`TreeLimits.ShortKeysRefused`). An insert succeeds exactly if every split it causes has halves that fit
  (`BPlusTree.BTree.Insert`); for stored records of at most 177 bytes, a long value counting as its 12-byte handle, this is
  always so (`TreeCascade.SmallPutFits`, `TreeRuns.PutEntry`). So replaying a log into the tree can fail although every key
  is short enough (`Engine.Restart`).
- Deleting the last record of a leaf that is not the leftmost one frees the leaf while its parent still lists it: the pages
  are then no tree under any reading, and the descent for any key of that leaf ends at the freed page. All other keys are
  still found, and the sibling links pass through the remaining leaves (`LeafChain.UnlinkedKeepsOthers`,
  `LeafChain.UnlinkedChain`). Otherwise a delete keeps the tree in order (`BPlusTree.BTree.Delete`). Deleting the keys of a tree one after the other always comes to this
  if any other leaf holds something (`TreeLimits.Drain`); a run from an empty tree that does is
  `TreeLimits.RunThatBreaksTree`.
- A 12-byte value that starts with `OVRF` is taken for an overflow handle. One that names no page comes back empty; one that
  names a page of the value of another key comes back exactly if it gives 12 as its length and that page begins with it
  (`TreeLimits.StoreAndRead`, `TreeLimits.LookalikeLost`). Overwriting or deleting the latter frees pages of the other value
  (`TreeLimits.LookalikeFreesOther`).
- Freeing a page twice makes the free list a cycle; freeing is safe exactly if the page is not free (`Pager.DoubleFree`).
- The pager changes page 0 underneath the cache. A flush keeps the free list exactly if there is no dirty cached copy of
  page 0 with another list head (`BufferPool.BufferPool.FlushAll`); otherwise the next allocation hands out a live page
  exactly if that list head is the id of one (`BufferPool.StaleMetadata`), and `BufferPool.AllocatedTwice` gets there from
  an empty file.
- A checkpoint is sound exactly if no transaction with changes before it commits after it (`Wal.CheckpointSound`,
  `Wal.StraddlerLosesChanges`).
- A shutdown stores the last LSN as checkpoint and restarts the numbering at 1. The next log is recovered completely exactly
  if its first records, up to that number, make nothing durable and no transaction straddles their end
  (`Wal.RecoveryAfterShutdown`); a shorter log is lost in a crash (`Database.LostAfterShutdown`).
- A database that goes on after a crash is in order exactly if the crash left no torn frame, and left a record unless there
  was no checkpoint (`Engine.Resume`). Otherwise new records are appended behind the torn bytes. As long as no frame can be
  parsed where those begin, recovery gives the records before and loses all behind, however whole (`WalFile.LostBehind`,
  `Engine.Resume`); one torn byte in front of a frame hides it for every checksum (`WalFile.TornByteHides`,
  `Engine.TornTail`).
- ROLLBACK on the database undoes nothing (`Database.RolledBackChangeStays`): index and log agree afterwards exactly if the
  contents already showed the last change of every key (`Database.RollbackLogged`, `Database.ReplayIdle`). The session
  makes its changes at COMMIT, so ROLLBACK restores what was visible before BEGIN, except after a COMMIT that failed: then
  the changes before the refused key stay, and it restores exactly if they changed nothing (`Session.CommitThenRollback`,
  `Session.RollbackKeepsChange`).
- A row without version header is read back exactly under the condition of `RowCodec.PlainRow`; a single 12-byte value is
  lost (`RowCodec.PlainRowLost`).
- A list of primary keys in an index entry can be taken apart exactly if no key contains the separator
  (`SecondaryIndex.JoinReversible`). An INSERT of a key that contains it leaves the indexes in agreement exactly if no
  existing column has one (`Tables.Table.Insert`, `TableLimits.SeparatorSpoils`), because no entry ever lists such a key
  (`SecondaryIndex.SeparatorDisagrees`).
- Two columns have index entries that share a database key exactly if the name of one, with a colon, begins with the name of
  the other, with a colon (`SecondaryIndex.EntryKeysApart`, `SecondaryIndex.EntryKeysCollide`).
- An INSERT that violates UNIQUE leaves its row, and the indexes disagree; an UPDATE that does removes the row's index
  entry (`Tables.Table.Insert`, `Tables.Table.Update`, `TableLimits.ViolationLeavesRow`). An UPDATE of the key column leaves
  the rows where they are; they are stored under their keys afterwards exactly if it changed none
  (`Tables.KeysAfterUpdate`, `TableLimits.KeyUpdateMisplaces`).
- Index entries are stored under keys that contain the value, and the database refuses keys of more than 1024 bytes
  (`TableLimits.EntryKeyLimit`, `TableLimits.RowKeyLimit`). An
  INSERT of a row with such an entry key fails and leaves the row, an UPDATE to it fails and removes the old entry, and a
  CREATE INDEX stops at the first row that has one, with the index registered and the rows behind it unlisted
  (`Tables.Table.Insert`, `Tables.Table.Update`, `Tables.Table.CreateIndex`, `TableLimits.LongValueLeavesRow`,
  `TableLimits.LongUpdateUnlists`). A SELECT then finds only the rows listed (`TableLimits.IndexMissesRow`,
  `TableLimits.ThirdRowMissed`).
- An index entry is a value like any other, so one of twelve bytes that begins with `OVRF` is not read back
  (`Text.HandleText`). After a statement that succeeds the table is in order only if no entry looks like that, which can
  only be if some primary key begins with `OVRF` (`Tables.AgreesReadable`, `TableLimits.LookalikeKey`).
- INSERT looks up whether a column is UNIQUE by its name without regard to case, UPDATE by its position. The two agree for
  every column if no two column names differ in case only (`SecondaryIndex.CaseApart`); otherwise INSERT may enforce UNIQUE
  for a column not declared so, or not for one that is (`TableLimits.CaseMakesUnique`, `TableLimits.CaseHidesUnique`).

The project's README says that the log is replayed from the beginning because there is no checkpoint. The code skips what is
at or below the stored checkpoint LSN, and so does the model.

## Model

| member | source | states |
|---|---|---|
| Bytes.FromLEOfLE | src/storage/pager.rs:117 | reading back an integer written little-endian in k bytes gives it modulo 256 to the k |
| Bytes.LessIsLexicographic | src/storage/btree.rs:407-410 | the order of keys is the lexicographic one of unsigned bytes: a proper beginning comes first, otherwise the smaller byte where they first differ |
| Bytes.PrefixInterval | src/storage/btree.rs:618-623 | a key between a prefix and a key that extends the prefix extends it too, so prefixed keys form one interval |
| PageAllocator.TakeFresh | src/storage/pager.rs:114-138 | taking a page never hands out a live one and makes exactly that page live |
| PageAllocator.GiveBack | src/storage/pager.rs:141-159 | giving back a live page makes exactly that page free |
| PageAllocator.GiveThenTake | src/storage/pager.rs:119-159 | the page freed last is the next one handed out, and the allocator is as before |
| Pager.ReadWritten | src/storage/pager.rs:86-111 | a page write, also one beyond the end of the file, changes what is read at its id and nowhere else |
| Pager.PopFree | src/storage/pager.rs:119-131 | taking the head off the on-page list leaves a list of the remaining free pages in order, distinct and ending at the marker |
| Pager.PushFree | src/storage/pager.rs:146-156 | freeing a page that is not free puts it in front of the on-page list |
| Pager.DoubleFree | src/storage/pager.rs:141-159 | after freeing a page some sequence of distinct pages is the free list if and only if the page was not free before |
| Pager.Pager.constructor | src/storage/pager.rs:44-72 | a new file is one page with the magic, an empty list head and zeros |
| Pager.Pager.WritePage | src/storage/pager.rs:101-111 | the file after a write; after a write of a page that is not free the free list is kept if and only if the page is not page 0 with another list head |
| Pager.Pager.AllocatePage | src/storage/pager.rs:114-138 | the exact file afterwards: the head of the free list, blanked and unlinked with the rest of page 0 kept, or a new blank page at the end; on a sound file it is the choice of the allocator |
| Pager.Pager.FreePage | src/storage/pager.rs:141-159 | page 0 and pages beyond the end are ignored; a live page goes to the abstract allocator's free stack and the on-page list again matches it |
| BufferPool.BufferPool.Evict | src/storage/buffer_pool.rs:134-144 | the last page of the recency list goes, to disk if dirty, and nothing but page 0 reads differently; the free list survives under its exact condition |
| BufferPool.BufferPool.PutAndEvict | src/storage/buffer_pool.rs:134-154 | the exact pages, dirty flags and recency list afterwards; the page reads as given, nothing else but page 0 reads differently, and with room nothing is written to disk |
| BufferPool.BufferPool.FetchPage | src/storage/buffer_pool.rs:41-61 | gives what is read through the cache and changes nothing that is; the exact pages, dirty flags and recency list afterwards |
| BufferPool.BufferPool.WritePage | src/storage/buffer_pool.rs:63-92 | the page reads as given, nothing else but page 0 reads differently; exactly which pages are cached and dirty, and the recency list; every sync_interval-th write all pages become clean and the disk has what is read |
| BufferPool.BufferPool.MarkDirty | src/storage/buffer_pool.rs:94-113 | a cached page becomes dirty and most recent; every sync_interval-th time all pages become clean and the disk has what is read; no page reads differently |
| BufferPool.BufferPool.CountWrite | src/storage/buffer_pool.rs:102-110 | counts to sync_interval, then flushes and starts again; with interval 0 it does nothing |
| BufferPool.RecencyKept | src/storage/buffer_pool.rs:134-154 | a list in which each page used is put in front, and from which pages are dropped, is ordered by last use |
| BufferPool.LastIsLeastRecent | src/storage/buffer_pool.rs:137 | so the page evicted is the one whose last use is the longest ago |
| BufferPool.BufferPool.FlushAll | src/storage/buffer_pool.rs:157-176 | no page reads differently, every cached page is clean, and every page other than 0 is on disk as it is read; a dirty page 0 is written over the one on disk, and the free list survives if and only if that one has the same list head |
| BufferPool.BufferPool.AllocatePage | src/storage/buffer_pool.rs:116-120 | the new page reads as blank if and only if the cache holds nothing else for it, the cache stays sound if and only if it holds no other clean copy, and no other page but 0 reads differently |
| BufferPool.BufferPool.FreePage | src/storage/buffer_pool.rs:123-131 | the page leaves the cache and goes to the free list, and no other page but 0 reads differently |
| BufferPool.FlushedList | src/storage/buffer_pool.rs:157-176 | writing back all dirty pages, none of them free, keeps the on-page free list if and only if it keeps its head |
| BufferPool.StaleMetadata | src/storage/pager.rs:119-131 | with any dirty copy of page 0 in the cache, the page allocated after a flush is a live one if and only if the list head in that copy is the id of a live page |
| BufferPool.AllocatedTwice | src/storage/btree.rs:267-276 | a run from an empty file, with page 0 read and written back through the cache, in which page 1 is allocated twice without being freed |
| Nodes.EncodedSize | src/storage/btree.rs:197-215 | the loops compute the size of a node |
| Nodes.HalvesFit | src/storage/btree.rs:453-472 | if all entries cost at most 177 bytes and the node overflowed by one of them, both halves by count fit the page |
| Nodes.LargeRecordsBreakSplit | src/storage/btree.rs:458-472 | three records within the size limits, of which the first two fit a page, overflow it and leave a half that does not fit |
| NodeCodec.FromPage | src/storage/btree.rs:125-194 | the parsing loops read the node a page holds, never outside the page, for every page |
| NodeCodec.ToPage | src/storage/btree.rs:49-122 | fails exactly on a node larger than a page, and otherwise writes the encoding followed by zeros, all within the page |
| NodeCodec.NodeBytesSize | src/storage/btree.rs:197-215 | the size used for splitting decisions is the length of the encoding |
| NodeCodec.RoundTrip | src/storage/btree.rs:49-194 | reading the page of a well-formed node that fits gives back the node |
| Overflow.HandleFields | src/storage/btree.rs:331-336 | a handle is recognised and gives back the value's length and first page |
| Overflow.ValueReads | src/storage/btree.rs:340-365 | every value of a store in order is read back from its stored bytes, and none is stored as a handle that leads nowhere |
| Overflow.ReadsOneWay | src/storage/btree.rs:340-365 | stored bytes are read in one way: the links from the page they name lead along one chain |
| Overflow.LookalikeReads | src/storage/btree.rs:340-365 | stored bytes that look like a handle are read as themselves if and only if they name a page that begins with them and give their own length |
| BPlusTree.BTree.WriteOverflowValue | src/storage/btree.rs:308-337 | the chain of new pages, no more than the value needs, written last chunk first, holds the value; older overflow pages are untouched and exactly the pages of the chain become live |
| BPlusTree.BTree.ReadValue | src/storage/btree.rs:340-365 | the walk along the links from the page named ends, never underflows the remaining length, and gives what the pages hold up to the length given, which for a stored value is that value byte for byte |
| BPlusTree.BTree.FreeOverflowChain | src/storage/btree.rs:368-382 | frees exactly the pages that the stored bytes lead to, whether they are a handle or look like one |
| NodeStore.OverflowRoundTrip | src/storage/btree.rs:321-325 | an overflow page is read back from its bytes |
| NodeStore.StoreChunk | src/storage/btree.rs:315-329 | an overflow page written through the cache is what is read there, and no other page of the tree reads differently |
| NodeStore.StoreNode | src/storage/btree.rs:301-305 | fails if and only if the node is larger than a page; otherwise the node map with it is what is read through the cache |
| NodeStore.FetchNode | src/storage/btree.rs:295-299 | reading a page through the cache, with whatever is evicted for it, gives the node, and the pages of the tree read as before |
| NodeStore.FetchOverflow | src/storage/btree.rs:349-352 | reading an overflow page through the cache gives its link and data |
| NodeStore.FlushStore | src/storage/btree.rs:278-285 | after a flush every node and overflow page of the tree is read back from the file |
| PagedTree.FindLeaf | src/storage/btree.rs:430-451 | the descent through the cache ends at the leaf responsible for the key, and the pages of the tree read as before |
| PagedTree.ReadValue | src/storage/btree.rs:340-365 | the walk along overflow pages read through the cache gives the value |
| PagedTree.Search | src/storage/btree.rs:582-597 | a search on the bytes in the cache answers as the map of the tree does, for inline and overflow values |
| PagedTree.Put | src/storage/btree.rs:385-420 | a put into a leaf with room: if and only if the leaf has room it is rewritten in the cache, and the cache then holds the tree with the new value |
| TreeInvariant.OnePageForKey | src/storage/btree.rs:430-451 | at each height exactly one page is responsible for a key |
| TreeInvariant.SplitLeafOk | src/storage/btree.rs:453-500 | a leaf split under its parent keeps order, separators, depth, sibling links and parent ids of every page |
| TreeInvariant.SplitInternalOk | src/storage/btree.rs:524-579 | so does an internal split, including the parent ids of the children that move |
| TreeInvariant.AddRootOk | src/storage/btree.rs:476-497 | putting a page on top of the root keeps the tree in order |
| TreeSplit.SplitUnderParent | src/storage/btree.rs:453-579 | once the parent lists the new page, the tree with both halves is in order again |
| TreeSplit.SplitUnderNewRoot | src/storage/btree.rs:476-497 | with a new root over both halves of the old one, the tree is in order again |
| TreeSplit.HalvesKeepRecords | src/storage/btree.rs:453-472 | writing the halves of a page keeps exactly the records stored |
| TreeSplit.SmallHalvesFit | src/storage/btree.rs:421-472 | with small entries both halves of a leaf or internal page that overflowed by one entry fit |
| TreeContents.LeafDecides | src/storage/btree.rs:582-597 | the leaf responsible for a key alone decides whether the map has it, and its value |
| TreeCascade.SplitLeavesPending | src/storage/btree.rs:474-478 | after writing the halves the tree lacks only the separator in the page named by the stored parent id, one level up, and whether the rest of the cascade fits is unchanged |
| TreeCascade.AddFitsFrame | src/storage/btree.rs:502-579 | whether a cascade upwards succeeds depends only on the pages above |
| TreeCascade.SmallPutFits | src/storage/btree.rs:385-428 | in a tree of small records, putting a small record never fails for want of room on a page, at any depth of the cascade |
| BPlusTree.BinarySearch | src/storage/btree.rs:405-410 | finds the key in sorted keys if and only if it is there, and otherwise its place |
| BPlusTree.BTree.FindLeaf | src/storage/btree.rs:430-451 | the descent ends at the leaf responsible for the key, because heights decrease |
| BPlusTree.BTree.InsertIntoInternal | src/storage/btree.rs:502-522 | adds the pending separator; the tree is sound again with the same records, exactly if no split further up fails |
| BPlusTree.BTree.SplitInternalAndInsert | src/storage/btree.rs:524-579 | splits an oversized internal page and propagates, with the same guarantee; the mutual recursion ends because levels below the root decrease |
| BPlusTree.BTree.Reparent | src/storage/btree.rs:544-552 | exactly the moved children get the new parent id |
| BPlusTree.BTree.SplitLeafAndInsert | src/storage/btree.rs:453-500 | splits an oversized leaf, linking the new leaf into the sibling chain, and propagates, with the same guarantee |
| BPlusTree.BTree.WriteNewRoot | src/storage/btree.rs:476-497 | the new root, both halves with their new parent, and the root id in memory and on the metadata page |
| BPlusTree.BTree.GrowRoot | src/storage/btree.rs:476-497 | with one new page the halves of the root are under a new root, one level higher, and the tree is sound with the same records |
| BPlusTree.BTree.constructor | src/storage/btree.rs:227-265 | a new tree is one empty leaf on page 1 with both root ids, in order, and stands for the empty map |
| BPlusTree.BTree.Search | src/storage/btree.rs:582-597 | answers as the map does, also for overflow values; in a tree whose other values are not in order it gives what the stored bytes are read as |
| BPlusTree.BTree.Insert | src/storage/btree.rs:385-428 | too long keys change nothing; otherwise it succeeds exactly if every split it needs fits, and then the tree is in order, all pages are accounted for, and the map has the new value; if the leaf has room only the leaf changes; it takes at most two pages more than the tree is high, besides those of the value; small trees stay small |
| BPlusTree.BTree.ScanPrefix | src/storage/btree.rs:605-639 | exactly the pairs whose key extends the prefix, each once, with keys in lexicographic order of unsigned bytes; the walk over the sibling links ends |
| LeafChain.ChainVisitsAllLeaves | src/storage/btree.rs:626-635 | from the leftmost leaf the sibling links pass every leaf exactly once, in key order |
| LeafChain.DescentArrives | src/storage/btree.rs:430-451 | the descent for a key arrives at the leaf responsible for it, after as many steps as the tree is high |
| LeafChain.DanglingIsNoTree | src/storage/btree.rs:687-692 | pages in which a listed child is gone are no tree under any shape and root |
| LeafChain.LostKeys | src/storage/btree.rs:687-692 | once a listed leaf is gone, the descent for each of its keys still arrives at its page, and the pages are no tree |
| LeafChain.UnlinkedKeepsOthers | src/storage/btree.rs:670-707 | when a leaf is freed, the descent for every other key still finds its stored bytes, and no leaf has anything else |
| LeafChain.UnlinkedChain | src/storage/btree.rs:670-707 | the sibling links from the leftmost leaf then lead through the remaining leaves once each, in key order |
| BPlusTree.BTree.FindPrevious | src/storage/btree.rs:682-702 | the walk from the leftmost leaf always finds the leaf before the given one |
| BPlusTree.BTree.UnlinkEmptyLeaf | src/storage/btree.rs:670-707 | the leftmost leaf stays, empty; any other is freed, the leaf before it links to the one behind, no other page differs, and its parent still lists it |
| BPlusTree.BTree.Delete | src/storage/btree.rs:643-667 | the tree stays in order and loses exactly the key unless it was the last of a leaf that is not the leftmost; then the pages are no tree under any reading and keys of that leaf lead to the freed page, but the only other change is the link of the leaf before, every other key is found with its stored bytes, and exactly the leaf and the pages of the value are freed |
| TreeRuns.PagesReadBack | src/storage/btree.rs:295-306 | every page of a tree in order can be written and is read back as the same node |
| TreeRuns.PutEntry | src/storage/btree.rs:385-428 | a too long key is refused and changes nothing; a stored record of at most 177 bytes, long values included, put into a tree of such records is refused never |
| TreeRuns.Frees | src/storage/btree.rs:643-692 | decides exactly whether a delete would free a leaf |
| TreeRuns.Perform | src/storage/mod.rs:55-62 | one change of any kind: what the tree stands for afterwards in each outcome, and how many pages it takes at most |
| TreeRuns.Run | src/storage/mod.rs:54-63 | over every sequence of puts and deletes the tree stays in order and stands for the replayed map, up to an insert that is refused, a value that cannot be read back, a full file or a delete that would free a leaf; small records are never refused, and the file is full only if the changes may need that many pages |
| TreeRuns.Query | src/storage/btree.rs:582-639 | after any such sequence on a new tree, lookups and prefix scans answer exactly as the plain map; small records with enough page ids get to the end or to a delete that would free a leaf |
| TreeLimits.ShortKeysRefused | src/storage/btree.rs:412-472 | a run of three inserts on a new tree, with keys of at most 500 bytes, of which the third fails for want of room |
| TreeLimits.StoreAndRead | src/storage/btree.rs:340-365 | of a short value that is no handle or a handle that names no page or a page of another key: it is found as stored if and only if it is no handle, or gives its own length and names a page that begins with it |
| TreeLimits.LookalikeFreesOther | src/storage/btree.rs:368-382 | freeing a value that looks like a handle to a page of another key takes pages of that key, whose value is then not read any more |
| TreeLimits.LookalikeLost | src/storage/btree.rs:340-345 | a concrete value, not empty, that a new tree stores under any short key and gives back empty |
| TreeLimits.Drain | src/storage/btree.rs:643-667 | deleting the keys of a tree in order comes to a delete that would free a leaf, whenever a leaf other than the leftmost holds something |
| TreeLimits.ManyKeysNeedTwoLeaves | src/storage/btree.rs:421-428 | a tree with 24 keys of 169 bytes has such a leaf |
| TreeLimits.DeleteBreaksTree | src/storage/btree.rs:670-707 | from every such tree a run of deletes ends with a lost leaf: no tree, and the deleted key leads to the freed page |
| TreeLimits.RunThatBreaksTree | src/storage/btree.rs:385-707 | a run of inserts and deletes from an empty tree to a lost leaf |
| Wal.StepEffect | src/wal/mod.rs:120-212 | what one record adds to the recovered operations and to what its transaction has pending, and that nothing else changes |
| Wal.RecoversCommitted | src/wal/mod.rs:61-218 | recovery returns operations outside transactions at their own position and those of each committed transaction at its COMMIT; nothing of open or rolled-back ones, nothing from before a BEGIN that reuses an id |
| Wal.RecoversLsn | src/wal/mod.rs:120-122 | the LSN counter resumes at the highest LSN read |
| Wal.CommittedMonotone | src/wal/mod.rs:201-206 | what a shorter log recovers is a prefix of what a longer one recovers |
| Wal.CommittedTake | src/wal/mod.rs:61-218 | what the first records commit does not depend on those after them |
| Wal.CheckpointIsSuffix | src/wal/mod.rs:124-138 | recovery from a checkpoint returns what recovery of the log after it alone returns |
| Wal.CheckpointSound | src/wal/mod.rs:124-138 | all committed operations are those before the checkpoint followed by those recovered from it, if and only if no transaction with changes before the checkpoint commits after it |
| Wal.StraddlerLosesChanges | src/wal/mod.rs:124-138 | a concrete log whose committed change is lost to the checkpoint |
| Wal.RecoveryAfterShutdown | src/storage/mod.rs:165-180 | after a shutdown the renumbered log is recovered completely if and only if its records up to the old LSN make nothing durable and no transaction straddles their end |
| Wal.ShortLogLost | src/wal/mod.rs:293-299 | a renumbered log no longer than the checkpoint recovers nothing |
| WalFile.WholeFrame | src/wal/mod.rs:220-240 | a written frame is parsed as the record it was written from, at any offset, for every checksum function |
| WalFile.TornFrame | src/wal/mod.rs:68-118 | a frame the file ends in the middle of is not parsed |
| WalFile.OpBack | src/wal/mod.rs:140-212 | the payload of every operation is parsed back |
| WalFile.ParsedExactly | src/wal/mod.rs:140-212 | a payload is parsed as an operation if and only if it has its code and the fields it needs, in place |
| WalFile.SumDecides | src/wal/mod.rs:68-118 | a complete frame is parsed if and only if its sum is right, and then as its fields say |
| WalFile.WrongSum | src/wal/mod.rs:105-118 | for every checksum, a frame with a wrong sum ends recovery: exactly the records before it are recovered, whatever follows |
| WalFile.TruncatedLog | src/wal/mod.rs:61-218 | a log cut at any byte is recovered as exactly the records whose frames survived whole |
| WalFile.LostBehind | src/wal/mod.rs:68-118 | if a file begins with the frames of some records and no frame is parsed behind them, exactly those records are recovered, whatever else the file holds |
| WalFile.TornByteHides | src/wal/mod.rs:68-118 | for every checksum and every byte, a file of that byte and a whole frame is recovered as empty |
| WalFile.FramesKept | src/wal/mod.rs:288-290 | a cut at or after the synced position leaves the synced records whole |
| WalFile.LogTake | src/wal/mod.rs:216 | a shorter log is the beginning of the file, frame by frame |
| WalFile.WriteAheadLog.WriteRecord | src/wal/mod.rs:220-285 | the record gets the next LSN and its frame is appended to whatever the file holds; if the file was the frames of all records, it still is |
| WalFile.WriteAheadLog.Recover | src/wal/mod.rs:61-218 | the loop, for any file, returns the operations and sets the LSN of the recovery function |
| WalFile.WriteAheadLog.Checkpoint | src/wal/mod.rs:293-299 | the log is empty and the numbering restarts |
| Database.ReplayAbsorbs | src/storage/mod.rs:54-63 | replaying a log over data that already has a prefix of it applied gives the same as replaying it over the original data |
| Database.ReplayIdle | src/storage/mod.rs:54-63 | a replay changes nothing if and only if the contents already show the last accepted entry of every key |
| Database.CrashRecovery | src/storage/mod.rs:139-150 | from an image flushed at a commit and a log cut anywhere at or after its synced position, reopening gives the base map with exactly the committed operations of the surviving frames, which include all synced ones |
| Database.AtomicCommit | src/storage/mod.rs:139-150 | a crash during a COMMIT leaves nothing of the transaction, or all of it if and only if its last frame survived |
| Database.CommitsAtOnce | src/wal/mod.rs:201-206 | before its COMMIT a transaction makes nothing durable, its COMMIT makes all its changes durable in order |
| Database.PutTakesEffect | src/wal/mod.rs:168-176 | a put outside any transaction is among what a longer log commits, and its value is there unless a later operation on the key is committed |
| Database.RollbackLogged | src/storage/mod.rs:153-162 | after a ROLLBACK the index agrees with the log if and only if the committed contents already showed what the transaction changed |
| Database.LostAfterShutdown | src/storage/mod.rs:165-180 | after a shutdown at some LSN, a crash loses any new log of at most that many records |
| Database.RolledBackChangeStays | src/storage/mod.rs:153-162 | a concrete log after whose ROLLBACK the index holds a change that is not committed |
| Database.Database.Log | src/storage/mod.rs:80-86 | the record is appended under the next LSN; if asked for, all of the log is on disk, otherwise no more than before |
| Database.Database.PutWithTx | src/storage/mod.rs:79-90 | logged before applied, and synced if and only if sync_on_write is set; succeeds if and only if the key is not too long and the tree finds room; unless the tree finds none, index, log and image stay consistent, with the new value or, for a too long key, as before |
| Database.Database.DeleteWithTx | src/storage/mod.rs:112-124 | logged before applied, and synced if and only if sync_on_write is set; the key leaves the index, and log and image stay consistent |
| Database.Database.BeginTx | src/storage/mod.rs:127-136 | the mark is logged, and synced if and only if sync_on_write is set; nothing is visible yet |
| Database.Database.CommitTx | src/storage/mod.rs:139-151 | the mark is logged, all of the log is on disk, and the image is the index; exactly the pending changes become committed |
| Database.Database.RollbackTx | src/storage/mod.rs:154-163 | the mark is logged, and synced if and only if sync_on_write is set; nothing is undone, so index and log agree if and only if the contents showed the last change of every key already |
| Database.Database.Close | src/storage/mod.rs:165-180 | data is flushed and the log emptied, also with a transaction open; the data is what was committed if and only if the pending changes changed nothing; the state is one from which everything is recovered if and only if nothing was ever logged |
| Database.Database.Resumed | src/storage/mod.rs:26-71 | a database that goes on with a recovered log is in order if and only if the log file is and its LSN is not below the checkpoint |
| Engine.Perform | src/storage/mod.rs:79-124 | log and tree together: the change is logged under the next LSN, and the tree stands for the index after every change that is carried out, and after a refused key; in a tree of small records a small one is never refused and leaves such a tree |
| Engine.RunChanges | src/storage/mod.rs:79-124 | a run of changes on log and tree: those before the first that is not carried out are in the index, the tree and the log; small records in a tree of small ones are never refused |
| Engine.Commit | src/sql/executor.rs:116-132 | COMMIT of a session on log and tree: when it ends, tree, index and data image are what was visible before it, and synced; if a key is refused or a delete would free a leaf, exactly the changes before it in key order are made; a small buffer in a tree of small records is never refused |
| Engine.RecoverLog | src/wal/mod.rs:61-218 | from a log cut anywhere at or after its synced position, what is recovered is what the surviving frames commit, includes all that was synced, and gives the same on the flushed image as on the base map |
| Engine.Restart | src/storage/mod.rs:50-68 | a crash at any time and the replay into the tree of the last flush: if the replay gets to its end, every key was accepted and the tree stands for the base map with exactly the surviving committed operations; small records are never refused; nothing is lost if the log survived and no transaction was open |
| Engine.PutSurvives | src/storage/mod.rs:50-90 | a put outside any transaction that the synced part of the log has is replayed by any restart that gets to its end, and its value is there unless a later operation on the key was committed |
| Engine.PutThenCrash | src/storage/mod.rs:79-90 | with sync_on_write, after a put that was carried out and a crash at any time, a restart that gets to its end has the contents with the put |
| Engine.Resume | src/storage/mod.rs:26-71 | the database that goes on has the surviving log and the recovered contents, and is in order, ready for the next crash, if and only if there is no torn frame and there is a record or no checkpoint; whatever is appended, as long as no frame is parsed at the torn position only the surviving records are recovered |
| Engine.TornTail | src/wal/mod.rs:216 | a run for every checksum: a crash leaves one byte of a frame, a change is logged whole behind it, and recovery gives nothing |
| Session.Session.Scan | src/sql/executor.rs:1108-1131 | the merge loop gives the database overlaid with the write buffer, restricted to the prefix |
| Session.Session.Begin | src/sql/executor.rs:106-115 | succeeds if and only if no transaction is open; the mark is logged under the given id; what is visible does not change |
| Session.Session.Change | src/sql/executor.rs:332-336 | within the transaction the change is visible, and the database is not touched |
| Session.Session.Commit | src/sql/executor.rs:116-132 | succeeds if and only if the index takes all buffered changes; what is visible before COMMIT is what is in the database, and durable, after it; if a key is refused, exactly the changes before it in key order are in the database, and the transaction goes on with the same view |
| Session.Session.Rollback | src/sql/executor.rs:133-142 | the database's own contents become visible; those are the ones from before BEGIN if no COMMIT was tried, and otherwise if and only if the changes it made changed nothing |
| Session.InKeyOrder | src/sql/executor.rs:121-126 | the buffered keys, each once, in lexicographic order of unsigned bytes |
| Session.ReplayBuffer | src/sql/executor.rs:121-126 | making the first changes of a buffer in key order overlays the database with exactly those |
| Session.CommitThenRollback | src/sql/executor.rs:116-142 | after a failed COMMIT and ROLLBACK what is visible is what was before BEGIN with the changes before the refused key; the same as before BEGIN if and only if it showed those already |
| Session.RollbackKeepsChange | src/sql/executor.rs:121-126 | a run on a new database: two changes, the second key too long, COMMIT fails, and after ROLLBACK the first change is there |
| RowCodec.EncodeValues | src/sql/executor.rs:21-33 | the loop writes header and fields |
| RowCodec.DecodeValues | src/sql/executor.rs:35-73 | the loops, for any bytes, read fields behind a header and fall back to fields without one |
| RowCodec.RowRoundTrip | src/sql/executor.rs:21-73 | every row and header is read back, and never by the fallback |
| RowCodec.VersionFields | src/sql/executor.rs:21-25 | the first eight bytes of a row are xmin, the next eight xmax |
| RowCodec.PlainRow | src/sql/executor.rs:43-61 | a row without header is read back if and only if it is shorter than a header or reading it behind one ends in a rest too short for a length |
| RowCodec.PlainRowLost | src/sql/executor.rs:39-41 | a row without header and one 12-byte value is read as an empty row |
| Text.CharEncodes | src/sql/executor.rs:28 | the bytes of a character stand for it, with one to four of them by the ranges of section 3 of RFC 3629 |
| Text.Utf8Injective | src/sql/executor.rs:1178 | different strings are stored as different bytes |
| Text.HandleText | src/storage/btree.rs:341 | a text is stored as bytes that look like a handle if and only if it begins with the magic letters and is twelve bytes long |
| SecondaryIndex.JoinReversible | src/sql/executor.rs:1181-1194 | keys joined by the separator can be taken apart if and only if there is one and none contains the separator |
| SecondaryIndex.EntryKeysShared | src/sql/executor.rs:1178 | two columns, of one table or two, have entries that share a database key if and only if one key space begins with the other |
| SecondaryIndex.EntryKeysApart | src/sql/executor.rs:1178 | within a table this is so if and only if one column name with a colon begins with the other with a colon |
| SecondaryIndex.PlainNamesApart | src/sql/executor.rs:1178 | for column names without a colon, entry keys are equal if and only if column and value are |
| SecondaryIndex.EntryKeysCollide | src/sql/executor.rs:1178 | with a colon in a column name two entries share a key |
| SecondaryIndex.AddedPks | src/sql/executor.rs:1177-1203 | adding a key appends it unless present, in its parts if it contains the separator; it fails if and only if the column is UNIQUE and another key is there, or else the key of the entry is too long |
| SecondaryIndex.SeparatorDisagrees | src/sql/executor.rs:1181-1194 | no index of a column agrees with rows of which one has the separator in its key |
| SecondaryIndex.MissingDisagrees | src/sql/executor.rs:1177-1203 | an index without the entry of a row disagrees with the rows |
| SecondaryIndex.RemovedPks | src/sql/executor.rs:1205-1233 | removing a key removes exactly it, and the entry with its last key |
| SecondaryIndex.OthersAt | src/sql/executor.rs:1209-1215 | the remaining keys of an entry stay in their order |
| SecondaryIndex.UnmarkedReadable | src/sql/executor.rs:1177-1194 | if no primary key begins with the magic letters, no entry looks like a handle |
| SecondaryIndex.AddToColumn | src/sql/executor.rs:1177-1203 | adding a row's key, also if it was there already, leaves the column's index in agreement with the rows including it if and only if it succeeds and the key does not contain the separator |
| SecondaryIndex.AddRound | src/sql/executor.rs:1264-1271 | in the loop over the indexes a row is entered under one more column or was there already; if that fails because a value is taken or an entry key too long, the indexes disagree with the rows |
| SecondaryIndex.AgreesWith | src/sql/executor.rs:1235-1274 | with a new row entered under its values in all indexed columns, all indexes agree with the rows |
| SecondaryIndex.AgreesWithout | src/sql/executor.rs:1313-1342 | with a row taken out there, all indexes agree with the rows without it |
| SecondaryIndex.AgreesChanged | src/sql/executor.rs:934-943 | with the old value of one column taken out and the new one entered, all indexes agree with the changed rows |
| SecondaryIndex.SpoilRound | src/sql/executor.rs:1177-1203 | adding a key with the separator to one more index fails if the entry key is too long, and with UNIQUE violated if and only if the column is UNIQUE and the value is taken or the column was done before |
| SecondaryIndex.RemoveFromColumn | src/sql/executor.rs:1205-1233 | removing a row's key keeps the column's index in agreement with the rows without it, also if it was gone already |
| SecondaryIndex.SameNameMeans | src/sql/types.rs:250 | names are taken for the same if and only if at every position they have the same character, or a capital ASCII letter and its small one |
| SecondaryIndex.CaseApart | src/sql/types.rs:246-251 | if no two column names differ in case only, INSERT takes exactly the declared columns for UNIQUE |
| Tables.Table.constructor | src/sql/executor.rs:183-194 | a new table has an index for every UNIQUE column, and is in order if and only if the name of none looks like a handle |
| Tables.CreateTable | src/sql/executor.rs:183-194 | fails if the key that an index is registered under is too long |
| Tables.Table.AddEntry | src/sql/executor.rs:1177-1203 | stores the entry with the key, or fails as a whole: for a taken UNIQUE value, an entry key that is too long, an entry that is read as something else |
| Tables.Table.AddToIndexes | src/sql/executor.rs:1235-1274 | succeeds only if no UNIQUE value is repeated, or seems to be, and no entry key is too long; then every index has the row, if its key has no separator; if it fails for the row, an index disagrees |
| Tables.Table.Insert | src/sql/executor.rs:308-338 | a wrong number of values, an existing and a too long key change nothing, each with its exact condition; otherwise the row stays, and it succeeds if and only if no UNIQUE value is repeated, or seems to be, and no entry key is too long; the table is in order afterwards if and only if it succeeds and the new entries list the key and can be read |
| Tables.PlainKeepsOrder | src/sql/executor.rs:1177-1203 | the new entries list the key and can be read if it has no separator and no key begins with the magic letters |
| Tables.Table.ScanKeys | src/sql/executor.rs:1108-1117 | the keys of the rows, each once, in lexicographic order of their bytes |
| Tables.RowKeyOrder | src/sql/executor.rs:1108-1117 | that is the order of their database keys |
| Tables.OneOrder | src/sql/executor.rs:1108-1117 | there is only one such list |
| Tables.Table.CreateIndex | src/sql/executor.rs:203-255 | an existing name and a too long one change nothing; otherwise the index is registered and the rows are listed in key order up to the first whose entry key is too long; it succeeds if and only if the column exists and there is no such row, and the table is in order afterwards if and only if it succeeds, no key contains the separator and no entry and no column name looks like a handle |
| Tables.IndexBuilt | src/sql/executor.rs:232-249 | after all rows have been listed the indexes agree with them if and only if no key contains the separator |
| Tables.ListingAgrees | src/sql/executor.rs:232-249 | after some rows have been listed, the new index agrees with exactly those, and the others with all |
| Tables.Table.RemoveFromIndexes | src/sql/executor.rs:1313-1342 | the row is taken out of every index under its own values, and nothing else changes |
| Tables.Table.Delete | src/sql/executor.rs:964-1015 | removes exactly the selected rows, in key order, and keeps all indexes in agreement; the table is in order afterwards if and only if no entry left looks like a handle, as is the case if no key begins with the magic letters |
| Tables.Table.RemoveForColumn | src/sql/executor.rs:1276-1292 | the row is taken out of the column's index if it has one, and nothing else changes |
| Tables.Table.AddForColumn | src/sql/executor.rs:1294-1311 | the row is entered into the column's index if it has one; fails, changing nothing, only if a UNIQUE value is taken or the entry key is too long |
| Tables.EntryGone | src/sql/executor.rs:1276-1311 | between the two the index disagrees, and has an entry for the new value if and only if another row has it |
| Tables.Table.UpdateRow | src/sql/executor.rs:934-956 | fails if another row has the new value of a UNIQUE column, or the entry key is too long; then the row stays and the indexes disagree; otherwise the row is changed and all indexes agree |
| Tables.Table.UpdateRows | src/sql/executor.rs:934-956 | the loop over the selected rows changes all of them, or stops at a value that two rows of the result have, or at an entry key that is too long |
| Tables.Table.Update | src/sql/executor.rs:872-963 | if a row is selected: it fails for the entry key if and only if the column has an index and the key is too long; otherwise with UNIQUE violated if and only if the column is UNIQUE and two rows of the result have the value; after a success exactly the selected rows are changed and all indexes agree, and rows are stored under their keys if and only if no key was changed |
| Tables.KeysAfterUpdate | src/sql/executor.rs:939-948 | rows are stored under their keys after an update if and only if it was of another column or changed no key |
| Tables.Table.Select | src/sql/executor.rs:525-564 | on any table: by the entry for the value if there is one, the rows it lists, in its order; otherwise the selected rows in key order; on a table in order both are every selected row exactly once, a permutation of the rows of any list of the selected keys |
| Tables.EntrySelects | src/sql/executor.rs:525-545 | an index entry lists exactly the rows with its value |
| Tables.SameSelection | src/sql/executor.rs:525-564 | two lists of the same keys give permutations of the same rows, so index path and scan path agree |
| Tables.AgreesReadable | src/sql/executor.rs:1177-1194 | if the indexes agree with rows of which no key begins with the magic letters, all entries can be read |
| TableLimits.RowKeyLimit | src/storage/btree.rs:386 | the key of a row is accepted if and only if table name and primary key have at most 1023 bytes |
| TableLimits.MetaKeyLimit | src/sql/executor.rs:214 | that of an index if and only if table and index name have at most 1013 |
| TableLimits.ImplicitKeyLimit | src/sql/executor.rs:186 | that of the index of a UNIQUE column if and only if twice the table name and the column name have at most 1008 |
| TableLimits.EntryKeyLimit | src/sql/executor.rs:1178 | that of an index entry if and only if table, column and value have at most 1011 |
| TableLimits.ViolationLeavesRow | src/sql/executor.rs:332-338 | runs: the second row with a UNIQUE value is refused, but is in the table, and the table is out of order |
| TableLimits.SeparatorSpoils | src/sql/executor.rs:1181-1194 | runs: after an INSERT of any key with the separator an indexed table is out of order |
| TableLimits.LongValueLeavesRow | src/sql/executor.rs:332-338 | runs: an INSERT of a value whose entry key is too long fails, the row is in the table, and the table is out of order |
| TableLimits.LookalikeKey | src/sql/executor.rs:1181-1183 | runs: an INSERT of a key that looks like a handle succeeds, and a SELECT by the indexed value does not read its entry back |
| TableLimits.KeyUpdateMisplaces | src/sql/executor.rs:939-948 | runs: an UPDATE of the key column succeeds and the row is still stored under its former key |
| TableLimits.LongUpdateUnlists | src/sql/executor.rs:939-943 | runs: an UPDATE to a long value fails and the table is out of order |
| TableLimits.IndexMissesRow | src/sql/executor.rs:232-249 | runs: CREATE INDEX over three rows, the second with a long value, fails; a SELECT by the value that the first and the third share gives the first alone |
| TableLimits.ThirdRowMissed | src/sql/executor.rs:232-249 | one of them, with keys 1, 2, 3 |
| TableLimits.CaseMakesUnique | src/sql/types.rs:246-251 | runs: with a UNIQUE column and an indexed one whose names differ in case only, the second row with a value in the latter is refused |
| TableLimits.CaseExample | src/sql/types.rs:246-251 | one of them, with columns a and A |
| TableLimits.CaseHidesUnique | src/sql/types.rs:246-251 | runs: with the UNIQUE column behind one whose name differs in case only, two rows with the same value in it are accepted |
| Relations.InnerJoinMembers | src/sql/volcano.rs:212-227 | the rows of an inner join are exactly the pairs of a left and a right row with the same key |
| Relations.JoinOrigins | src/sql/volcano.rs:211-231 | a join gives, left rows in order and for each its right rows in order, exactly the pairs with the same key and, if it is a LEFT join, the left rows whose key no right row has, padded with NULL |
| Relations.GroupedIsPlain | src/sql/volcano.rs:309-343 | without HAVING there is one row for each group with the plain aggregate of the rows filtered to it |
| Relations.HavingFilters | src/sql/volcano.rs:323-341 | HAVING is a filter on those rows |
| Relations.GroupsDistinct | src/sql/volcano.rs:284-293 | groups are listed once |
| Relations.GroupCountsAddUp | src/sql/volcano.rs:287-307 | the counts of all groups add up to the number of rows that have the group column |
| Volcano.Next | src/sql/volcano.rs:29-356 | each operator gives the first of its remaining rows and keeps the others, and the plan stands for the same rows |
| Volcano.NextMatch | src/sql/volcano.rs:67-74 | the filter loop gives the first matching row of the child |
| Volcano.DrainSum | src/sql/volcano.rs:113-134 | the aggregate loop counts and adds up all rows of the child in order |
| Volcano.Text | src/sql/volcano.rs:132-144 | the text shown is the count, the sum, or the sum divided by the count, and 0 for the average of no rows |
| Volcano.BuildTable | src/sql/volcano.rs:204-210 | the hash table has, for every key, the right rows with it in order |
| Volcano.Probe | src/sql/volcano.rs:212-227 | probing gives the nested-loop join, with one NULL row for each unmatched keyed left row of a LEFT join |
| Volcano.BuildGroups | src/sql/volcano.rs:284-307 | the accumulators hold each group's own count and sum, and the keys are in order of first appearance |
| Volcano.EmitGroups | src/sql/volcano.rs:309-343 | the output is the plain aggregate of each group that passes HAVING, in order |
| Volcano.CheckHaving | src/sql/volcano.rs:325-339 | HAVING compares the aggregate with the target by the operator, in that order; what is not a number and an unknown operator pass |
| Volcano.Window | src/sql/volcano.rs:457-482 | the rows after the offset, up to the limit |
| Volcano.Open | src/sql/volcano.rs:24-482 | an opened plan will give exactly the rows it stands for, whatever state it was in |
| Volcano.Run | src/sql/volcano.rs:4-9 | a plan opened and drained gives the rows it stands for, for any nesting of operators; a plain aggregate gives the count of the rows, the sum from the left of the numbers in a column, or that divided by the count, and a grouped one the same for the rows of each group |

## Left out

- File, socket and fsync errors, the server, the wire protocol, authentication, configuration and command line.
- The SQL parser, the catalog's JSON, the optimizer stub, CTEs, UNION, subqueries, window functions, transactional DDL.
- Sorting: the mixed numeric and text comparison of ORDER BY is no total order.
- Interleavings of threads; locks are not modelled.
- Page images of a data file that a crash caught between two page writes: an image is taken as of a flush.
- What a torn frame and the bytes appended behind it parse to, if together they are a frame by chance.
- Composite indexes and index maintenance inside a transaction, where the index helpers read the database and not the
  write buffer.
- Editing a cached page through the shared reference that `fetch_page` gives out: pages are written through `write_page`.
- Type checks, defaults and NOT NULL checks of inserted values: rows are taken after them.
- WalFile.WriteAheadLog.WriteRecord: the LSN counter does not pass 2^64.
- BPlusTree.BTree.Insert: says nothing about the tree after a split failed or the page ids ran out, when pages may be
  half written.
- BPlusTree.BTree.constructor: opening an existing file is represented by a tree already in order.
- TreeLimits.StoreAndRead: a value that looks like a handle may also name a node, a free page, or a page of the value it
  replaces, whose bytes are then read as if they were overflow data; only those that name no page or a page of another
  value are covered.
- BPlusTree.BTree.ReadValue: links that run in a circle, which only such values lead to, are not followed.
- BPlusTree.BTree.FreeOverflowChain: the same.
- PagedTree.Put: a put that splits a page or frees overflow pages is not taken to the cache, and page ids have not run out.
- Database.Database.PutWithTx: whether the tree finds room is a parameter here; `Engine.Perform` takes it from the tree.
  Transactions come one after the other, and a record is shorter than 4 GiB. After an insert that found no room nothing is
  said about the index.
- Database.Database.DeleteWithTx: the same, for whether the delete frees a leaf.
- Session.Session.Commit: whether the tree carries a change out is a function of its key here, and if it does not carry all
  of them out, only the result of COMMIT is stated; `Engine.Commit` takes it from the tree.
- Engine.Commit: after a change for which the tree found no room or no page id nothing is said about index and tree.
- Session.Session.Change: there is one session and no other writer.
- Tables.Table.Insert: one row and one table, whose column names do not make entry keys collide. What a statement does after
  it has read an entry that looks like a handle, or after the database was full, is not followed; so for all statements.
- Tables.CreateTable: the table's own catalog keys are not represented, nor what is left of a table that could not be made.
- Tables.Table.AddForColumn: the key of a row in an indexed table has no separator, which agreement of the indexes implies.
- Tables.Table.Delete: rows are stored under their keys, which holds unless an UPDATE changed a key; so for UPDATE and
  INSERT.
- Volcano.Next: operators are values that each step replaces, since they form a tree behind a common interface; aliasing
  between operators is not represented.
