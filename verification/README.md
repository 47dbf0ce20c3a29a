# A verified model of the storage engine

This project models, in Dafny, the core of a small Rust key-value storage engine and proves what its layers promise each other:

* a **B+ tree over slotted 4096-byte pages** (`BTree`, `NodeCode`, `Layout` and the `Tree*` theory), down to the bytes of slots, headers and checksums, run through
* a **buffer pool with CLOCK eviction** (`BufferPool`) over a plain page store;
* **transactions, strict two-phase locking, a write-ahead log and crash recovery** (`Locks`, `Transactions`, `Wal`, `LogRecord`, `Framing`, `Recovery`, `System`, `Epochs`, `Schedule`, `Engine`, `Database`);
* **CRC-32 by slicing-by-4** (`Checksum`, `Bitwise`, `CrcCheck`);
* what the **bytes in the files** mean, field by field (`Format`).

## How it is built

*Bytes to map.* `Layout` says which byte strings are leaf and internal pages and which sorted sequences they stand for; `NodeCode.Node` is the in-place code on a 4096-byte array, each method proved to do the sequence operation. `TreeShape` and `TreeSteps` describe a stored tree by flat, local facts: a ghost map gives every page its height, its key interval and its real parent, and keys are embedded in the reals (`KeyOrder.Rank`) so that intervals are half-open real intervals. `BTree.BPlusTree` is the code over the pool; its ghost field `m` is the map it stands for.

*Insertion as the code does it.* `split_internal` repairs parent pointers only for the children of the new right node, so a new child that sorts into the left half keeps an invalid parent pointer, and splitting such a page later makes it the root. The model keeps this. `TreeSteps.FateOf` says, from the tree before the insertion, how far a split travels, whether it leaves a page without its parent (`orphans`), and which such page, if any, splits (`lost`). `BTree.BPlusTree.Insert` is proved for every valid tree: without a lost page it is `m[k := v]`, and from exact parent pointers the pointers stay exact if and only if `!orphans`; with a lost page exactly the keys of that page's interval survive. From exact pointers nothing is ever lost (`TreeInsert.ExactNeverLoses`), so every run whose internal splits put the new child into the right half is a run of map updates (`TreeInsert.RunIsMap`), and loading in ascending key order always qualifies (`BTree.BPlusTree.Load`). `BTree.BPlusTree.Run` is the code for such a run. `TreeWitness.LossRun` is a run from the empty tree that `BTree.BPlusTree.Create` makes, of insertions and deletions that each do what the code promises, whose last insertion loses a key that it does not name, two steps after everything was in order.

*Walks along the leaves.* A scan follows sibling pointers and needs no shape: in every valid tree it ends and returns what the leaves on its path hold. A `TreeScan.Trail` gives each leaf on the way the keys it answers for there; on a trail a scan is the sorted listing of its contents. A chained tree has a trail, its whole map (`TreeScan.WholeTrail`). A deletion always leaves a trail, without the key. An insertion, through any cascade, leaves one, with the entry, if and only if everything the trail holds behind the leaf is larger than the key (`TreeScan.Clear`); otherwise no walk of the new tree is in key order at all. After a loss the trail goes on from the lost page's interval to the end of the old tree. All this is part of `TreeInsert.Inserted` and `TreeInsert.Took`, which `Insert`, `Delete` and `Run` ensure.

*Recovery as an if-and-only-if.* `Recovery.Serial` runs the committed transactions one after the other in commit order. Redo in log order followed by undo in reverse gives exactly that, for every disk state, if and only if the pages written only by aborted transactions hold their initial content (`Recovery.RecoveryIff`); `recover` neither redoes nor undoes aborted transactions. `Recovery.RecoveredByte` says, of any log with images of any length, what each byte of each page is afterwards. `System` is the step machine of one session: begin, lock, logged write, commit, abort, log flush, and page flush under the write-ahead rule. Its invariant is kept by every step, and `System.CrashAt` (for one page), `System.CrashIff` and `Engine.CrashAnywhere` carry the recovery theorem to every reachable state and every cut of the log's bytes. The class `Transactions.TransactionManager` and the machine share their transition functions.

*Any number of crashes.* `Epochs` runs sessions one after the other on the bytes of the log file and the pages of the disk: steps of the machine, crashes that cut the file at any byte behind the flushed part, in the middle of a record or not, recoveries interrupted at any point with any pages persisted, and reopening. Two things outlive a crash. Transaction ids start at 1 again in every session, while recovery empties the log only if it had something to do. And opening a log appends behind whatever the file holds, also behind a torn record. What a session appends is read back if and only if no byte of a torn record precedes it (`Wal.TornIff`), and the old log leaves the actions of every later one alone if and only if it holds no write and no commit (`Recovery.KeepIff`). So a session starts afresh if and only if recovery emptied the file, or the file holds whole records without a write or commit (`Epochs.Renews`, `Epochs.RenewsIff`). In every life in which each reopening does, each page begins every session as the serial execution of all transactions committed before leaves it, if and only if no crash left that page as aborted transactions wrote it (`Epochs.LivesAreSerial`); and a page that a committed transaction wrote holds the image of its last committed writer at the start of every later session, whatever happened to other pages or before (`Epochs.CommitForEver`). Both ways of failing have a life that shows them: an aborted write that never reached the disk comes back (`Epochs.ReusedIdLife`), and one torn byte makes a flushed commit disappear (`Epochs.TornLife`).

*The parts together.* `Database.Client` holds one pool, one log and one transaction manager, takes locks before it reads or writes and flushes the log before the pool may evict; each of its methods is a sequence of steps of the machine. Opening it is the reopening of `Epochs`, always, and gives a client that keeps its promises when the file starts a session afresh.

*Checksums.* `Checksum.Crc` is the bit-serial reflected CRC-32 of section 8 of RFC 1952; xor is done on naturals bit by bit, so that linearity of the register carries the proofs. Which CRC it is, is pinned from outside: every message with its checksum behind it leaves the residue 0xDEBB20E3 (`CrcCheck.Residue`), and "123456789" has the checksum 0xCBF43926 (`CrcCheck.CheckValue`).

Ghost parameters and results (such as the leaf an insertion goes to) only name things the contracts talk about.

## Hypotheses that show in the contracts

* `SplitFit.MAX_ENTRY` is 167: splits are by count and not by bytes, and 167 is the largest uniform bound on slot plus key plus value for which both halves of every leaf split fit (`SplitFit.SplitBoundExact`). The code enforces no bound.
* An update of an existing key is written without a fit check, so `Insert` and `LeafInsert` require that the rebuilt leaf fits.
* Page ids, log sequence numbers and transaction ids do not reach the end of their integer type.
* Within one log a transaction id is used once (`Recovery.Lawful`), and a session reads back what it appends. Every session keeps this if it starts as `Epochs.Renews` says, which is also the weakest such condition on the file when recovery has nothing to do; the source does not see to it.

## Where the code and its documentation differ

The model follows the code. A conflicting lock request is described as waiting or as wait-die (src/txn/lock_manager.rs:24-32); it is refused, and nothing ever waits. Writing the log before the pages is described as a rule of the pool (src/buffer/pool.rs:19-20); no code enforces it. Recovery is described as undoing everything uncommitted (src/wal/wal_manager.rs:197-209); it undoes transactions without an end record and leaves aborted ones to the caller. The slot of a separator is described as child, key length, key offset (src/btree/node.rs:14-17); it is written as key offset, key length, child (src/btree/node.rs:425-441). The nominal key and value limits of 256 bytes (src/btree/node.rs:4-6) are not enforced, and would not keep splits on their pages.

## Model

| member | source | states |
|---|---|---|
| `KeyOrder.LessMeaning` | src/btree/node.rs:188-206 | keys compare as byte strings: a proper prefix comes first, else the first difference decides |
| `KeyOrder.RankOrder` | src/btree/node.rs:188-206 | the real-valued rank reflects lexicographic byte order and separates keys |
| `KeyOrder.AssocExtensional` | src/btree/tree.rs:333-358 | a strictly sorted listing is determined by its lookups |
| `NodeBody.LowerBoundMeaning` | src/btree/node.rs:188-206 | the insertion position: everything before is smaller, everything from there on at least the key; a hit if and only if the key is stored |
| `NodeBody.LowerBoundUnique` | src/btree/node.rs:188-206 | no other index has that property |
| `NodeBody.PutEntryMeaning` | src/btree/node.rs:258-298 | inserting keeps the order and changes the lookup of that key only |
| `NodeBody.DropEntryMeaning` | src/btree/node.rs:338-377 | deleting keeps the order and removes that key only |
| `Layout.PackedInsert` | src/btree/node.rs:258-298 | data regions stay disjoint and gap-free when one is put below the frontier |
| `Layout.FrontierIsLowest` | src/btree/node.rs:211-237 | the lowest data offset is the page size minus all stored bytes |
| `Layout.MoveSlot` | src/btree/node.rs:258-298 | one turn of the shift loop moves one slot up and nothing else |
| `Layout.OpenSlot` | src/btree/node.rs:258-298 | after the shift, writing the slot opens exactly one place |
| `Layout.LeafInsertEntries` | src/btree/node.rs:258-298 | the bytes after an insertion are a leaf page holding the sequence with the entry inserted |
| `Layout.LeafRoom` | src/btree/node.rs:239-254 | free space of a leaf page in terms of its entries |
| `Layout.InnerInsertEntries` | src/btree/node.rs:515-546 | the same for internal pages |
| `Layout.InnerRoom` | src/btree/node.rs:502-511 | free space of an internal page in terms of its separators |
| `Layout.SameLeaf` | src/btree/node.rs:100-135 | header changes outside the slots and data leave a leaf's entries alone |
| `Layout.SameInner` | src/btree/node.rs:100-135 | the same for internal pages |
| `SplitFit.LeafHalvesFit` | src/btree/tree.rs:148-178 | with entries of at most 167 bytes both halves of a count-based leaf split fit on a page |
| `SplitFit.Misfit` | src/btree/tree.rs:148-178 | with 168 bytes there is a full leaf and an entry whose right half does not fit |
| `SplitFit.SplitBoundExact` | src/btree/tree.rs:148-178 | a uniform bound is safe for all leaves if and only if it is at most 167 |
| `SplitFit.InnerHalvesFit` | src/btree/tree.rs:260-285 | both halves of an internal split fit when separators come from such entries |
| `NodeCode.Node.NewLeaf` | src/btree/node.rs:63-74 | an empty leaf without sibling or parent, at level 0, with its page id in the header |
| `NodeCode.Node.NewInternal` | src/btree/node.rs:77-88 | an internal node without separators or parent, at level 1, with its page id in the header |
| `NodeCode.Node.SetParent` | src/btree/node.rs:100-135 | changes the parent pointer and neither body nor kind |
| `NodeCode.Node.SetRightSibling` | src/btree/node.rs:100-135 | changes the sibling pointer of a leaf only |
| `NodeCode.Node.SetLeftmostChild` | src/btree/node.rs:402-458 | changes the leftmost child of an internal node only |
| `NodeCode.Node.LeafKey` | src/btree/node.rs:174-178 | the key bytes of slot i are the key of entry i |
| `NodeCode.Node.LeafValue` | src/btree/node.rs:181-185 | the value bytes of slot i are the value of entry i |
| `NodeCode.Node.LeafFindSlot` | src/btree/node.rs:188-206 | binary search finds the lower bound, and whether the key is there |
| `NodeCode.BinarySearchTurn` | src/btree/node.rs:188-206 | one turn keeps the bounds of the search |
| `NodeCode.Node.LeafDataFrontier` | src/btree/node.rs:211-237 | the scan of slots computes the frontier of the regions |
| `NodeCode.Node.LeafCanFit` | src/btree/node.rs:239-254 | true exactly when entry and one spare slot fit |
| `NodeCode.Node.OpenSlotAt` | src/btree/node.rs:258-298 | the shift loop and slot write on the array |
| `NodeCode.Node.LeafInsert` | src/btree/node.rs:258-298 | the leaf's entries become the sorted insertion or update; true when the key is new |
| `NodeCode.Node.LeafUpdate` | src/btree/node.rs:301-335 | overwrites in place or rebuilds; the entries change at that index only |
| `NodeCode.Node.LeafDelete` | src/btree/node.rs:338-377 | returns the stored value and removes the entry, or changes nothing |
| `NodeCode.Node.LeafEntriesVec` | src/btree/node.rs:380-387 | reads out all entries in order |
| `NodeCode.Node.InternalKey` | src/btree/node.rs:402-458 | the key bytes of slot i are separator i |
| `NodeCode.Node.InternalChild` | src/btree/node.rs:402-458 | child pointers by position, the leftmost one first |
| `NodeCode.Node.InternalFindChild` | src/btree/node.rs:467-484 | the child whose separators bracket the key |
| `NodeCode.Node.InternalDataFrontier` | src/btree/node.rs:487-500 | the frontier of the separators' regions |
| `NodeCode.Node.InternalCanFit` | src/btree/node.rs:502-511 | true exactly when separator and one spare slot fit |
| `NodeCode.Node.InternalInsert` | src/btree/node.rs:515-546 | the separators become the sorted insertion |
| `NodeCode.Node.InternalEntries` | src/btree/node.rs:549-558 | reads out leftmost child and separators |
| `NodeCode.Node.InternalRebuild` | src/btree/node.rs:567-586 | replaces leftmost child and separators |
| `NodeCode.Node.UpdateChecksum` | src/disk/page.rs:204-217 | stores the CRC of the data region, leaving the node as it was |
| `NodeCode.CorruptionDetected` | src/disk/page.rs:204-217 | a checksummed page changed within four consecutive data bytes no longer verifies |
| `BufferPool.Pool.constructor` | src/buffer/pool.rs:38-55 | an empty, coherent pool shows the disk; all frames are on the free list in order, the hand is at the first |
| `BufferPool.Pool.GetFreeFrame` | src/buffer/pool.rs:173-229 | free list first, else the CLOCK victim; none exactly when every frame is pinned; contents and pins unchanged |
| `BufferPool.Pool.EvictOne` | src/buffer/pool.rs:182-229 | the victim is the first cold frame from the hand, failing that the first unpinned one; the unpinned frames the hand goes by lose their reference bit, and exactly those |
| `BufferPool.Pool.FirstPass` | src/buffer/pool.rs:182-205 | the first sweep and its second chances |
| `BufferPool.Pool.SecondPass` | src/buffer/pool.rs:206-229 | the second sweep finds any unpinned frame |
| `BufferPool.Pool.Load` | src/buffer/pool.rs:59-81 | loading changes no page; the page is in the frame taken, referenced and clean; a read beyond the file loses the frame already taken, and nothing else does |
| `BufferPool.Pool.FetchPage` | src/buffer/pool.rs:59-81 | returns the page's logical content and pins it once; a hit sets the reference bit and changes nothing else, a miss takes the first free frame or the clock's victim; when it is full or fails |
| `BufferPool.Pool.FetchPageMut` | src/buffer/pool.rs:84-106 | the same for writing: pinned, dirty and referenced, contents unchanged |
| `BufferPool.Pool.WritePage` | src/buffer/pool.rs:84-106 | a write through the pinned frame changes that page only, and no pin or reference bit |
| `BufferPool.Pool.UnpinPage` | src/buffer/pool.rs:109-122 | gives back one pin and may mark the page dirty; no contents, no reference bit and no other frame change |
| `BufferPool.Pool.NewPage` | src/buffer/pool.rs:125-140 | appends a fresh page and caches it pinned once, dirty and referenced |
| `BufferPool.Pool.FlushPage` | src/buffer/pool.rs:143-154 | makes that page's disk content its logical content; of the frames only its dirty mark changes |
| `BufferPool.Pool.FlushAll` | src/buffer/pool.rs:157-170 | makes the disk equal the logical contents; of the frames only the dirty marks change |
| `BufferPool.Pool.RoomWhenIdle` | src/buffer/pool.rs:173-229 | with no pins a pool of any positive capacity can make room |
| `BufferPool.UsedStays` | src/buffer/pool.rs:182-229 | a referenced frame is not the victim while some frame is cold |
| `BufferPool.Pool.UseThenTake` | src/buffer/pool.rs:59-201 | a page fetched and given back is still cached after room was made, if anything else could go |
| `BufferPool.SweptVictim` | src/buffer/pool.rs:182-205 | what the first sweep stops at is the CLOCK victim, and the sweep cleared exactly the bits on its way |
| `BufferPool.SecondVictim` | src/buffer/pool.rs:206-229 | what the second sweep stops at is the CLOCK victim, all unpinned frames having lost their bit |
| `BufferPool.ChancedPins` | src/buffer/pool.rs:173-229 | eviction changes no pin count |
| `TreeShape.Descend` | src/btree/tree.rs:74-86 | the chosen child is one level down and covers the key |
| `TreeShape.DisjointAtHeight` | src/btree/tree.rs:74-86 | pages of one height have disjoint intervals: no page is shared |
| `TreeShape.SplitLeaf` | src/btree/tree.rs:132-191 | a leaf split keeps the search structure, one separator pending |
| `TreeShape.Attach` | src/btree/tree.rs:195-242 | adding the pending separator to the parent completes the split |
| `TreeShape.SplitInner` | src/btree/tree.rs:245-297 | an internal split keeps the search structure and its subtrees' intervals |
| `TreeShape.NewRoot` | src/btree/tree.rs:195-242 | a new root over both halves raises the tree by one, all leaves level |
| `TreeShape.Prune` | src/btree/tree.rs:195-242 | the subtree of a page is a search tree of its own for all keys |
| `TreeShape.PruneModels` | src/btree/tree.rs:195-242 | it stands for the keys of that page's interval |
| `TreeSteps.PutOk` | src/btree/tree.rs:102-129 | storing an entry in its leaf is a map update and keeps everything |
| `TreeSteps.DropOk` | src/btree/tree.rs:321-330 | dropping an entry from its leaf is a map removal and keeps everything |
| `TreeSteps.SplitLeafOk` | src/btree/tree.rs:132-191 | splitting a leaf keeps map, sibling chain and parent pointers |
| `TreeSteps.AttachOk` | src/btree/tree.rs:195-242 | attaching keeps map and chain, with or without the new child's pointer set |
| `TreeSteps.SplitInnerOk` | src/btree/tree.rs:245-297 | splitting an internal node and repointing the moved children keeps map, chain and pointers |
| `TreeSteps.NewRootOk` | src/btree/tree.rs:195-242 | a new root keeps map, chain and pointers |
| `TreeSteps.PruneOk` | src/btree/tree.rs:195-242 | making a page without parent the root leaves the keys of its interval |
| `TreeSteps.FateSame` | src/btree/tree.rs:195-297 | how far a split travels depends only on the pages above |
| `TreeCascade.SepIsNew` | src/btree/tree.rs:195-242 | the parent pointer of the split page is its real parent, and the separator is new to it |
| `TreeCascade.SteppedOk` | src/btree/tree.rs:245-297 | one split of a parent leads to the same situation one level up |
| `TreeCascade.FateStep` | src/btree/tree.rs:245-297 | what is decided before a split of the parent is what the rest of the cascade decides; the new child loses its parent exactly when it sorts before the split point |
| `TreeCascade.LedByNewRoot` | src/btree/tree.rs:195-242 | the cascade ends at the root |
| `TreeCascade.LedByAttaching` | src/btree/tree.rs:195-242 | the cascade ends at a parent with room |
| `TreeCascade.LedBySplitting` | src/btree/tree.rs:245-297 | or continues from a parent without: contents, chain and exactness through any number of levels |
| `TreeCascade.NewChildMoves` | src/btree/tree.rs:255-297 | the new child's pointer is repaired if and only if its position is at or after the split point |
| `TreeCascade.ExactAfter` | src/btree/tree.rs:245-297 | pointers are exact after the cascade if and only if no split left its new child behind |
| `TreeCascade.AdoptMoved` | src/btree/tree.rs:300-314 | repointing the children of the new node is repointing exactly the moved ones |
| `TreeInsert.InsertedInPlace` | src/btree/tree.rs:102-129 | insertion without a split |
| `TreeInsert.InsertedBySplit` | src/btree/tree.rs:132-191 | insertion with a split, completed by any cascade |
| `TreeInsert.ExactFate` | src/btree/tree.rs:195-297 | with exact parent pointers no split happens at a page without parent |
| `TreeInsert.ExactNeverLoses` | src/btree/tree.rs:102-297 | from exact parent pointers insertion is exactly the map update |
| `TreeInsert.InsertedIff` | src/btree/tree.rs:102-297 | in general it is the map update if and only if no page without parent splits or that page's interval holds all keys |
| `TreeInsert.RightmostNeverOrphans` | src/btree/tree.rs:245-297 | an insertion at the right edge leaves no page without its parent |
| `TreeInsert.AscendingStep` | src/btree/tree.rs:102-297 | ascending keys keep pointers exact and the leaves chained |
| `TreeInsert.RunIsMap` | src/btree/tree.rs:102-330 | every run, of any length, of deletions and insertions whose internal splits put the new child right keeps shape, chain, exact pointers and first leaf, and equals the run on a map |
| `TreeInsert.TrailInPlace` | src/btree/tree.rs:102-129 | an insertion without a split leaves a walk in key order, with the entry, if and only if what the walk meets behind the leaf is larger than the key; otherwise no walk of the tree is in key order |
| `TreeInsert.TrailBySplit` | src/btree/tree.rs:132-297 | the same through a leaf split and any cascade; after a loss the walk starts at the lost page's interval and still meets everything from there on |
| `TreeInsert.NoTrail` | src/btree/tree.rs:333-358 | refutes that a tree can have a walk in key order after a key went to a leaf with something smaller or equal behind it |
| `TreeInsert.DropInDrops` | src/btree/tree.rs:321-330 | a deletion from the leaf that answers for the key removes it from the map and from every walk through that leaf, and keeps shape, pointers and chain |
| `TreeInsert.EndsBySplit` | src/btree/tree.rs:132-297 | walks still end after a leaf split and any cascade |
| `TreeInsert.OneLeaf` | src/btree/tree.rs:102-129 | whether an update fits is decided by the one leaf that answers for the key |
| `TreeHeight.ManyUnder` | src/btree/tree.rs:195-297 | a page of height h has at least 2 to the h pages under it |
| `TreeHeight.HeightBelow32` | src/btree/tree.rs:195-297 | with 32-bit page ids no tree is 32 levels high |
| `TreeWitness.OrphanPut` | src/btree/tree.rs:245-297 | for every sound tree and entry whose leaf split fills a root without room and sorts before its split point, an insertion that leaves the new page without its parent |
| `TreeWitness.LossPut` | src/btree/tree.rs:195-242 | for every sound tree and entry that splits a leaf without its parent, an insertion after which only that leaf's interval is left |
| `TreeWitness.CombReached` | src/btree/tree.rs:102-330 | from the empty tree a run of insertions and deletions leads to an internal root with any number of separators up to 24 over empty leaves |
| `TreeWitness.LossRun` | src/btree/tree.rs:102-297 | a run from the empty tree whose last insertion takes out a stored key that it does not name, although a walk along the leaves still meets that key; two steps before, pointers were exact and the leaves chained |
| `TreeScan.WholeTrail` | src/btree/tree.rs:333-358 | in a chained tree the walk from the first leaf is in key order and holds the whole map |
| `TreeScan.TrailPut` | src/btree/tree.rs:102-129 | an entry put into the leaf that answers for its key on the trail is put into the trail |
| `TreeScan.TrailDrop` | src/btree/tree.rs:321-330 | an entry dropped from a leaf is dropped from the trail |
| `TreeScan.TrailHalved` | src/btree/tree.rs:132-191 | halving a leaf and linking the new one behind it changes nothing that the trail holds |
| `TreeScan.TrailOnward` | src/btree/tree.rs:195-242 | what is left of a trail from any bound on is a trail |
| `TreeScan.TrailStretched` | src/btree/tree.rs:333-358 | a key that everything behind its leaf is larger than has its place in that leaf on some trail with the same contents |
| `TreeScan.OutOfOrder` | src/btree/tree.rs:333-358 | refutes that of two walks in key order over the same leaves one can meet, from some leaf on, a key smaller than where that leaf begins on the other |
| `TreeScan.EndsHalved` | src/btree/tree.rs:132-191 | walks still end after a leaf was halved |
| `TreeScan.WalkLists` | src/btree/tree.rs:333-358 | a walk to the end along a trail lists exactly its map, strictly sorted |
| `TreeScan.WalkListsRange` | src/btree/tree.rs:361-392 | a walk from the leaf that answers for the lower bound, broken off at a key beyond the range, lists exactly the range of the map |
| `TreeScan.ScanLeaf` | src/btree/tree.rs:333-358 | reading one more leaf extends a correct scan |
| `TreeScan.NextLeaf` | src/btree/tree.rs:333-358 | the sibling pointer leads to the next leaf of the trail in key order, and the trail is finite |
| `TreeScan.RangeLeaf` | src/btree/tree.rs:361-392 | reading one more leaf extends a correct range scan |
| `TreeScan.RangeStop` | src/btree/tree.rs:361-392 | stopping at a key beyond the range misses nothing |
| `BTree.BPlusTree.Create` | src/btree/tree.rs:24-40 | one empty leaf, the empty map, walks that end |
| `BTree.BPlusTree.ReadNode` | src/btree/tree.rs:48-53 | a copy of the node, the pool at rest before and after, no page changed |
| `BTree.BPlusTree.WriteNode` | src/btree/tree.rs:56-64 | the page holds the node with a valid checksum, nothing else changes |
| `BTree.BPlusTree.AllocatePage` | src/btree/tree.rs:67-71 | a new page id, no stored node touched |
| `BTree.BPlusTree.FindLeaf` | src/btree/tree.rs:74-86 | terminates by height at the leaf whose interval holds the key |
| `BTree.BPlusTree.Search` | src/btree/tree.rs:89-99 | is map lookup |
| `BTree.BPlusTree.InsertIntoLeaf` | src/btree/tree.rs:102-129 | overwrites, adds if there is room, or reports a full leaf unchanged |
| `BTree.BPlusTree.Insert` | src/btree/tree.rs:102-129 | what every insertion does to map, sibling chain, walks, parent pointers and right edge; true when the key is new |
| `BTree.BPlusTree.SplitAndInsertLeaf` | src/btree/tree.rs:132-191 | the same through a leaf split |
| `BTree.BPlusTree.SplitLeafPages` | src/btree/tree.rs:132-191 | the two leaves, their sibling pointers and parents after the split |
| `BTree.BPlusTree.InsertIntoParent` | src/btree/tree.rs:195-242 | completes a pending split through any cascade, within height plus one new pages |
| `BTree.BPlusTree.NewRootPage` | src/btree/tree.rs:195-242 | the new root and the two parent pointers |
| `BTree.BPlusTree.TryAttach` | src/btree/tree.rs:195-242 | separator and parent pointer if there is room, nothing otherwise |
| `BTree.BPlusTree.SplitInternal` | src/btree/tree.rs:245-297 | splits an internal node and completes the cascade |
| `BTree.BPlusTree.SplitInnerPages` | src/btree/tree.rs:245-297 | the two internal nodes, the middle key and the parent after the split |
| `BTree.BPlusTree.UpdateChildrenParent` | src/btree/tree.rs:300-314 | all children of the node point to it, other pointers and all nodes unchanged |
| `BTree.BPlusTree.Delete` | src/btree/tree.rs:321-330 | returns the old value and removes the key from the map and from every walk; chain, shape and pointers kept |
| `BTree.BPlusTree.ScanAll` | src/btree/tree.rs:333-358 | in every valid tree ends, with what the leaves on the path from the first leaf to the end hold; on a trail that is its map, strictly sorted: the whole map in a chained tree, and also after a loss |
| `BTree.BPlusTree.WalkAll` | src/btree/tree.rs:333-358 | the loop along the sibling pointers from any leaf |
| `BTree.BPlusTree.RangeOfNode` | src/btree/tree.rs:361-392 | the entries of one leaf in the range, and whether a key beyond it was seen |
| `BTree.BPlusTree.RangeScan` | src/btree/tree.rs:361-392 | in every valid tree ends, with the part in the closed range of what the leaves on its path hold, the path broken off exactly at the first leaf with a key beyond; on a trail that is the sorted restriction of its map, also over emptied leaves, empty ranges and after a loss |
| `BTree.BPlusTree.Load` | src/btree/tree.rs:102-314 | any ascending run of insertions into a new tree stores exactly those entries and keeps pointers exact |
| `BTree.BPlusTree.CanUpdate` | src/btree/tree.rs:102-129 | decides whether an update in place fits, changing nothing |
| `BTree.BPlusTree.Run` | src/btree/tree.rs:102-330 | any list of insertions and deletions: each step does what one promises, and if internal splits put the new child right the run is the run on a map; it stops only when page ids run out or an update does not fit |
| `Bitwise.XorAssoc` | src/disk/page.rs:38-108 | xor on naturals is associative |
| `Bitwise.XorCancel` | src/disk/page.rs:38-108 | xor can be cancelled |
| `Checksum.StepsXor` | src/disk/page.rs:38-79 | the shift register is linear over any number of steps |
| `Checksum.StepsInjective` | src/disk/page.rs:38-79 | and reversible |
| `Checksum.SliceFour` | src/disk/page.rs:84-108 | four table lookups are 32 steps of the register |
| `Checksum.BuildTable` | src/disk/page.rs:38-79 | the first table by bit steps |
| `Checksum.NextTable` | src/disk/page.rs:38-79 | each further table from the one before |
| `Checksum.Crc32` | src/disk/page.rs:84-108 | slicing-by-4 with its byte-wise tail equals the bit-serial CRC on every byte string |
| `CrcCheck.Residue` | src/disk/page.rs:35-108 | every message with its checksum behind it leaves the register of CRC-32, 0xDEBB20E3 |
| `CrcCheck.CheckValue` | src/disk/page.rs:298-301 | "123456789" has the checksum 0xCBF43926 |
| `Checksum.BurstDetected` | src/disk/page.rs:84-108 | any burst of at most 32 bits, at any bit position, changes the checksum |
| `Checksum.FourBytesDetected` | src/disk/page.rs:84-108 | any change within four consecutive bytes changes the checksum |
| `Format.FreshFormat` | src/disk/page.rs:135-149 | a new page holds its id in bytes 0 to 3 and 16 in bytes 7 and 8, and zeroes |
| `Format.LeafHeader` | src/btree/node.rs:63-131 | a leaf page: type 3 in byte 4, the number of entries, right sibling and parent where the header has them |
| `Format.LeafEntryFormat` | src/btree/node.rs:136-172 | an entry is where the six bytes of its slot, from byte 26 on, say it is |
| `Format.InnerHeader` | src/btree/node.rs:77-131 | an internal page: type 2, the number of separators, parent and leftmost child |
| `Format.SeparatorFormat` | src/btree/node.rs:417-448 | a separator and the child right of it are where the eight bytes of its slot, from byte 30 on, say they are |
| `Format.ChecksumFormat` | src/disk/page.rs:195-217 | a page verifies if and only if bytes 9 to 12 are the CRC of everything from byte 16 on |
| `Format.RecordFormat` | src/wal/log_record.rs:167-186 | the bytes of a record, field by field, with the number of its kind |
| `Format.ImagesFormat` | src/wal/log_record.rs:121-145 | the data of a page write: length of the before-image, before-image, after-image |
| `LogRecord.Serialize` | src/wal/log_record.rs:167-186 | builds the one byte string whose fields are the record's and whose checksum is that of its payload |
| `LogRecord.EncodesUnique` | src/wal/log_record.rs:167-186 | the format determines the bytes |
| `LogRecord.Deserialize` | src/wal/log_record.rs:189-233 | consumes at least eight bytes of the buffer when it succeeds, so readers make progress |
| `LogRecord.RoundTrip` | src/wal/log_record.rs:167-233 | reading back a record, whatever follows, succeeds if and only if its length fits 32 bits |
| `LogRecord.ReadIsWritten` | src/wal/log_record.rs:189-233 | whatever bytes a record is read from are exactly what writing it produces, if and only if the two lengths agree and the kind is known; an unknown kind reads as invalid |
| `LogRecord.TornRejected` | src/wal/log_record.rs:189-207 | a record cut short anywhere is rejected, also with foreign bytes behind it |
| `LogRecord.ShortTornRejected` | src/wal/log_record.rs:189-207 | one to three torn bytes and a record behind them read as a length that is not there |
| `LogRecord.LongTornDiffers` | src/wal/log_record.rs:189-233 | from four torn bytes on, a begin record appended behind them is not what is read, for every sequence number but the one the torn bytes hold |
| `LogRecord.DamagedRejected` | src/wal/log_record.rs:205-213 | a record damaged within four consecutive bytes behind its length and checksum is rejected |
| `LogRecord.ChecksumDamaged` | src/wal/log_record.rs:205-213 | and so is one whose stored checksum is damaged |
| `LogRecord.ImagesRoundTrip` | src/wal/log_record.rs:121-164 | splitting a page write into its images undoes joining them, if and only if the before-image's length fits 32 bits |
| `LogRecord.RecordFormat` | src/wal/log_record.rs:167-233 | records are self-delimiting frames |
| `LogRecord.LogCodecExists` | src/wal/log_record.rs:167-233 | there is a codec as the log members require: these records under CRC-32 |
| `Framing.ReadBack` | src/wal/wal_manager.rs:172-195 | whole records followed by a strict prefix of another are read as exactly the whole ones |
| `Framing.CutAnywhere` | src/wal/wal_manager.rs:172-195 | a log cut at any byte is read as a prefix of its records, as long as the bytes allow |
| `Framing.CutKeeps` | src/wal/wal_manager.rs:153-195 | a cut behind the flushed part keeps every flushed record |
| `Framing.CutBehind` | src/wal/wal_manager.rs:153-195 | the same for records appended behind a file of whole records |
| `Wal.ReadRecords` | src/wal/wal_manager.rs:172-195 | the reading loop computes that prefix |
| `Wal.Analyze` | src/wal/wal_manager.rs:217-237 | the analysis loop: active, committed and aborted transactions |
| `Wal.RedoActions` | src/wal/wal_manager.rs:239-248 | after-images of committed transactions in log order |
| `Wal.UndoActions` | src/wal/wal_manager.rs:250-258 | before-images of active transactions in reverse log order |
| `Wal.WalManager.Open` | src/wal/wal_manager.rs:39-69 | on any bytes that read as a log, torn tail included: every number found is smaller than the next one, which is 1 or follows one that was found; new records go behind what is there |
| `Wal.WalManager.Append` | src/wal/wal_manager.rs:84-99 | one more record, numbered and linked to its transaction's latest; file plus buffer are what was found at opening followed by the serialized records, their numbers strictly increasing, and every record of a transaction names the one before it in the same transaction |
| `Wal.WalManager.LinkedBack` | src/wal/wal_manager.rs:84-126 | in a log written through the operations, the back link of every record is the number of its transaction's latest earlier record, and 0 if there is none or that one ended it |
| `Wal.WalManager.LogBegin` | src/wal/wal_manager.rs:102-105 | one begin record more, without page or data |
| `Wal.WalManager.LogCommit` | src/wal/wal_manager.rs:108-117 | one commit record more and everything flushed; the transaction is no longer tracked |
| `Wal.WalManager.LogAbort` | src/wal/wal_manager.rs:120-126 | one abort record more; the transaction is no longer tracked |
| `Wal.WalManager.LogPageWrite` | src/wal/wal_manager.rs:129-139 | one write record more, with its page and both images |
| `Wal.WalManager.Flush` | src/wal/wal_manager.rs:153-164 | the file holds all records, the buffer none, the flushed number is the last one |
| `Wal.WalManager.ValidReadable` | src/wal/wal_manager.rs:172-195 | over a file of whole records, reading gives exactly those followed by the flushed records |
| `Wal.WalManager.Recover` | src/wal/wal_manager.rs:210-266 | analysis, redo and undo of the whole records at the front of the file, a torn tail ignored |
| `Wal.WalManager.AfterCrash` | src/wal/wal_manager.rs:153-195 | whatever part of the buffer reached the file, all flushed records and some following ones are read, in order, behind those found at opening |
| `Wal.WalManager.Truncate` | src/wal/wal_manager.rs:269-276 | an empty log, numbering kept |
| `Wal.ContinuedBehindTorn` | src/wal/wal_manager.rs:39-99 | records appended behind torn bytes are not read back while the reader waits for a longer record, whatever the torn bytes are |
| `Wal.TornIff` | src/wal/wal_manager.rs:39-99 | whatever is appended behind a strict prefix of a record is read back if and only if that prefix is empty |
| `Recovery.EndsStay` | src/wal/wal_manager.rs:217-237 | in a lawful log what has committed or aborted stays so |
| `Recovery.OwnerActive` | src/txn/txn_manager.rs:98-136 | a page without an active writer is stable, a writer is active |
| `Recovery.RedoPrefix` | src/wal/wal_manager.rs:239-248 | what redo leaves on a page after any prefix of the log |
| `Recovery.UndoPrefix` | src/wal/wal_manager.rs:250-258 | what undo leaves: the first active writer's before-image |
| `Recovery.RecoveredAt` | src/engine.rs:108-128 | recovery of one page: its stable content, or untouched |
| `Recovery.ApplyByte` | src/engine.rs:110-128 | a byte of a page is what the last action that reaches it says, and as it was if none does, for images of any length |
| `Recovery.AnalyzeMeaning` | src/wal/wal_manager.rs:217-237 | of any log: committed and aborted are those with such a record, active those that have begun and not ended since |
| `Recovery.RecoveredByte` | src/engine.rs:93-136 | each byte after recovery from any log: what it was before the first write of a transaction that never ended, else what the last write of a committed one made it, else what it was |
| `Recovery.SerialAt` | src/engine.rs:108-128 | the stable content of a page is that of the serial execution in commit order |
| `Recovery.RecoveryIff` | src/engine.rs:93-136 | recovery equals the serial execution of the committed transactions if and only if pages written only by aborted ones were restored |
| `Recovery.Restartable` | src/engine.rs:108-135 | interrupting recovery with every page persisted at any point of its own, and starting over, gives the same pages |
| `Recovery.AbortedOnlyStays` | src/wal/wal_manager.rs:231-258 | a page that only an aborted transaction wrote stays as the crash left it |
| `Recovery.SilentSkips` | src/wal/wal_manager.rs:210-266 | a log without writes and commits in front of another changes none of its redo and undo actions, even where ids are reused |
| `Recovery.KeepIff` | src/wal/wal_manager.rs:210-266 | of the logs that call for no action exactly those may stay in front of every other log |
| `Recovery.SerialIsNewest` | src/engine.rs:108-128 | the serial execution leaves on a page what its last committed writer wrote, or the initial content |
| `Locks.AcquireMeaning` | src/txn/lock_manager.rs:50-108 | a request is refused if and only if someone else holds the page in an excluding mode, and needs nothing if and only if the lock is held already; only a grant changes the table, and it gives the mode asked for and no more |
| `Locks.AcquireFrame` | src/txn/lock_manager.rs:50-108 | no other lock changes |
| `Locks.Exclusion` | src/txn/lock_manager.rs:50-108 | an exclusive holder is alone |
| `Locks.ReleaseMeaning` | src/txn/lock_manager.rs:111-153 | all locks of the transaction are gone, all others unchanged |
| `Locks.LockManager.Acquire` | src/txn/lock_manager.rs:50-108 | the lock table and its index after a request, upgrades included; refused exactly when blocked, held already exactly when it was |
| `Locks.LockManager.ReleaseAll` | src/txn/lock_manager.rs:111-153 | the lock table and its index after a release |
| `Schedule.HeldUntilEnd` | src/txn/lock_manager.rs:50-153 | a granted lock is held until its transaction ends |
| `Schedule.FirstEndsFirst` | src/txn/lock_manager.rs:50-153 | of two conflicting grants, the first transaction ended before the second grant |
| `Schedule.NoCycle` | src/txn/lock_manager.rs:50-153 | the precedence graph has no cycle; it follows the order of ends |
| `Schedule.RunIsProper` | src/txn/txn_manager.rs:82-189 | every run of the engine produces such a history |
| `Schedule.RunsSerializable` | src/txn/txn_manager.rs:82-189 | every run is conflict-serializable in the order transactions end |
| `Transactions.TransactionManager.Begin` | src/txn/txn_manager.rs:70-79 | a fresh id, an empty transaction, a begin record |
| `Transactions.TransactionManager.AcquireReadLock` | src/txn/txn_manager.rs:82-95 | shared lock and read set, or refusal without change; granted exactly when the transaction is known and nobody else writes the page |
| `Transactions.TransactionManager.AcquireWriteLock` | src/txn/txn_manager.rs:98-119 | exclusive lock and first before-image, or refusal without change; granted exactly when the transaction is known and nobody else holds the page |
| `Transactions.ReadLockedMeaning` | src/txn/txn_manager.rs:82-95 | a read lock is granted if and only if the transaction is known and nobody else writes the page, also when it is held already; write locks and write sets stay |
| `Transactions.WriteLockedMeaning` | src/txn/txn_manager.rs:98-119 | a write lock is granted if and only if the transaction is known and nobody else holds the page; the before-image of the first one stays |
| `Transactions.TransactionManager.LogWrite` | src/txn/txn_manager.rs:122-136 | a write record for an active transaction only |
| `Transactions.TransactionManager.Commit` | src/txn/txn_manager.rs:143-163 | commit record flushed, locks released, transaction gone; refused for an unknown one |
| `Transactions.TransactionManager.Abort` | src/txn/txn_manager.rs:170-189 | abort record, the write set handed back, locks released |
| `System.LockedStable` | src/txn/txn_manager.rs:98-119 | when an exclusive lock is granted the page holds its last stable content |
| `System.FlushPageKeeps` | src/buffer/pool.rs:143-154 | flushing a page under the write-ahead rule keeps the invariant |
| `System.StepKeeps` | src/txn/txn_manager.rs:70-189 | every step of the machine keeps the invariant |
| `System.RunKeeps` | src/txn/txn_manager.rs:70-189 | so does every run |
| `System.CrashAt` | src/engine.rs:93-136 | one page after recovery, in every reachable state and for every crash point: its serial content, or what was on disk if only aborted transactions had written it |
| `System.CrashIff` | src/engine.rs:93-136 | in every reachable state and for every crash point, recovery yields the serial execution of all committed transactions if and only if pages written only by aborted ones hold their initial content on disk |
| `System.CommitDurable` | src/txn/txn_manager.rs:143-163 | recovery from every later crash finds a committed transaction committed, with all its write records in the part that survived and each of their images among the redo actions |
| `System.CleanRead` | src/txn/txn_manager.rs:82-95 | what is seen under a lock is the serial state or one's own write |
| `System.HeldPageStays` | src/txn/txn_manager.rs:82-189 | while a lock is held no other transaction changes the page, its serial state or the lock |
| `System.AbortExact` | src/txn/txn_manager.rs:98-189 | restoring the write set gives each page the value it had when first locked for writing, and touches no other page |
| `Epochs.RenewsIff` | src/engine.rs:53-136 | when recovery has nothing to do, a session starts afresh if and only if whatever it appends is read back behind what is there and calls for the same actions as without it; any file of whole records with a torn one behind |
| `Epochs.CutSeen` | src/wal/wal_manager.rs:153-195 | a file cut at any byte behind the flushed part reads as what was found at opening and some of the session's own records, all flushed ones included |
| `Epochs.CrashSettles` | src/engine.rs:93-136 | a crash settles every page: recovery will give it its serial content or leave it as it is on disk |
| `Epochs.MoveKeeps` | src/engine.rs:53-136 | steps, crashes at any byte, interrupted recoveries and reopenings that start afresh keep: the running session is sound, and every finished one is settled page by page by its recovery |
| `Epochs.LifeKeeps` | src/engine.rs:53-136 | so does every life |
| `Epochs.SessionsIff` | src/engine.rs:93-136 | for each page: it begins all sessions as the serial execution of what committed before leaves it if and only if no crash left it as aborted transactions wrote it |
| `Epochs.LivesAreSerial` | src/engine.rs:53-136 | this holds at the end of every life from any first pages, through any number of crashes and recoveries |
| `Epochs.NewestHolds` | src/engine.rs:93-136 | from the session in which a page was last written by a committed transaction on, it holds that image |
| `Epochs.CommitForEver` | src/txn/txn_manager.rs:143-163 | a page that a committed transaction wrote holds at the start of every later session the image of its last committed writer, as long as no later crash left that page as aborted transactions wrote it |
| `Epochs.ReusedIdLife` | src/txn/txn_manager.rs:60-79 | a life of three sessions, down to the bytes of the log, in which a reused transaction id makes recovery redo an aborted write |
| `Epochs.TornLife` | src/wal/wal_manager.rs:39-99 | a life of three sessions in which one byte of a torn record makes recovery miss a commit that was flushed |
| `Engine.Patch` | src/engine.rs:110-117 | the image's bytes over the front of the page, the rest of the page as it was, through the pool |
| `Engine.ApplyActions` | src/engine.rs:110-128 | one loop of recovery applies its actions in order and skips pages beyond the file |
| `Engine.Recover` | src/engine.rs:93-136 | the pool shows the recovered pages (see `Recovery.RecoveredByte`), all on disk and the log empty; pages and log untouched when there is nothing to do |
| `Engine.Reopen` | src/engine.rs:53-90 | reopening an existing database on any bytes that read as a log, torn tail included, leaves the recovered pages in a pool of 1024 frames and on disk, and a log that continues behind the bytes found, or is empty if there was something to do |
| `Engine.CrashAnywhere` | src/engine.rs:93-136 | from the bytes of file and buffer, cut anywhere behind the flushed part, with a log behind records without write or commit: reopening yields the serial execution of all committed transactions under the same exact condition |
| `Database.SpillSteps` | src/buffer/pool.rs:173-229 | pages the pool writes out on its own are a run of page flushes of the machine |
| `Database.FlushKeeps` | src/buffer/pool.rs:173-229 | after a log flush they keep the invariant |
| `Database.Client.Open` | src/engine.rs:53-90 | opening on any legible bytes and pages is exactly the reopening of `Epochs`, with the machine's invariant for the recovered pages; the client's own invariant holds whenever the file starts a session afresh |
| `Database.Client.Begin` | src/txn/txn_manager.rs:70-79 | is the machine's start |
| `Database.Client.LockForReading` | src/txn/txn_manager.rs:82-95 | is the machine's read lock, granted exactly when that is |
| `Database.Client.Read` | src/txn/txn_manager.rs:82-95 | a page under a lock shows the serial state or the reader's own write; evictions on the way are flushes of the machine |
| `Database.Client.LockForWriting` | src/txn/txn_manager.rs:98-119 | is the machine's write lock, with the page read through the pool as its before-image |
| `Database.Client.Write` | src/txn/txn_manager.rs:122-136 | log record first, then the page through the pool: is the machine's write |
| `Database.Client.Commit` | src/txn/txn_manager.rs:143-163 | is the machine's commit; an unknown transaction changes nothing |
| `Database.Client.FlushLog` | src/wal/wal_manager.rs:153-164 | is the machine's log flush |
| `Database.Client.FlushPage` | src/buffer/pool.rs:143-154 | is the machine's page flush |
| `Database.Client.Abort` | src/txn/txn_manager.rs:170-189 | is the machine's abort, the before-images put back page by page through the pool |
| `Database.AbortParts` | src/txn/txn_manager.rs:170-189 | whatever the pool writes out while the pages are being restored, the outcome is flushes, the abort, and more flushes |

## Left out

- File handles, seeks, sync calls and I/O error paths: the disk is a sequence of pages, the log file a byte sequence, and the only failing read is the one beyond the end of the file.
- `StorageEngine::put`, `txn_put`, `txn_delete` and `abort_transaction`: puts are not logged, transactional puts log keys and values as if they were images of page 0, and the write set of an abort is dropped; the step machine works with logged full-page writes and restores what `abort` returns.
- Reopening a tree with `BPlusTree::open(0)`: after a root split page 0 is the first leaf and not the root.
- The lock wait queue: nothing is ever put into it, so the branch that hands locks to waiters is unreachable.
- Checkpoint records, `Page.pin_count` and `Page.dirty`: written but read by no operation modelled here. Page id, `level` and `free_offset` in the header are set as a node is created and read by none either; that later operations keep them is not stated.
- The command line, the demo, benchmarks, statistics and error texts.
- System.Enabled: the write-ahead rule and locking before writing are documented by the source but not enforced by it; the machine takes steps that respect them, and `Database.Client` is a caller that does.
- Database.Client.Abort: flushes the log first and restores the pages before anything else happens, as one step of the machine; the source leaves restoring to the caller, after the locks are gone.
- Concurrent callers: the machine's steps are atomic, as the source's methods are behind exclusive references.
- BTree.BPlusTree.Insert: requires entries of at most 167 bytes and an update that fits, because otherwise entry data would run into the slot directory; what the code then does is not modelled.
- BTree.BPlusTree.InsertIntoLeaf: requires an update that fits, for the same reason.
- BTree.BPlusTree.SplitAndInsertLeaf: requires entries of at most 167 bytes, for the same reason.
- BTree.BPlusTree.Load: takes entries of at most 167 bytes, and at most so many that page ids cannot run out, about 130 million.
- BTree.BPlusTree.Run: takes entries of at most 167 bytes, and stops before an update that does not fit, where the code would go on.
- NodeCode.Node.LeafInsert: requires that the leaf with the entry fits on its page, as its callers in the tree check except for updates.
- NodeCode.Node.LeafUpdate: requires that the leaf with the new value fits on its page; the code does not check.
- NodeCode.Node.InternalInsert: requires a separator that is not there yet, which `TreeCascade.SepIsNew` proves of every call in the tree; the code would put an equal one behind the first.
- BufferPool.Pool.constructor: requires a positive capacity; with none the code indexes an empty vector at its first fetch.
- Wal.WalManager.Append: does not model the wrap-around of the 64-bit sequence number, and takes records whose length fits 32 bits.
- Wal.ContinuedBehindTorn: goes one way only for given records; `Wal.TornIff` is exact over all records, and between the two the reader may accept or reject, depending on a checksum over foreign bytes.
- Wal.WalManager.Recover: requires that reading the file does not slice past its end, which holds for every prefix of what the log manager writes but not for arbitrary bytes.
- Engine.Reopen: leaves out the tree object, and the creation of its first page in an empty database.
- Epochs.RenewsIff: takes a file of well-formed records with part of one behind, which is what the log manager leaves; it says nothing of a log with something to do, since recovery then empties the file.
- Epochs.Moved: a step may append any well-formed record that stands for it; sequence numbers and back links, which recovery does not read, are left to `Wal.WalManager`.
- Database.Client.Open: the client's invariant holds if the file starts a session afresh; the other direction is `Epochs.RenewsIff`, about all that a session may append.
- LogRecord.DamagedRejected: says nothing of damage to the length, which moves the end of the checksummed bytes, nor of damage that reaches from the checksum into the bytes behind it.
