# bzing verification

bzing is a storage engine for the Bitcoin block chain.  This project models the parts of it that are
hard to get right, in the form the source has them (classes, loops, arrays, and sequences for the buffers inside a
node or group), and proves them against mathematical descriptions of what they are for.

- **B-tree** (`KbTree*.dfy`).  `src/klib/kbtree.h`: nodes on the heap, their buffers shifted in place.  A ghost
  tree mirrors the nodes; every operation is a step on that tree that keeps uniform depth, occupancy, order and
  separation, and does to the in-order sequence exactly what it says.
- **Open addressing** (`NatBits`, `Probe`, `HashArith`, `HashFlags`, `OpenTable*.dfy`).  `src/klib/khash.h` and
  `src/ulib/alignhash_tpl.h`: one table with tombstones and packed two-bit flags, in the four flavours of probe step
  and load bound the two headers have.  The centre is the rehash inside the table's own arrays, where old and new
  flags share the keys.  Tables refine finite maps for an arbitrary hash function.
- **Sparse hash** (`BitSets`, `SparseGroup`, `SparseArray`, `SparseIterate`, `SparseModel`, `SparseRehash`,
  `SparseTable`, `SparseRuns`).  `src/sparsehash/libchash.c`: groups of a bitmap and a compact store that behave
  like a plain array, and on top of them a table with triangular probing, growth, shrinking and a rehash that follows
  one item.
- **SHA-2** (`Sha256Spec`, `Sha256`, `Sha256Context`, the same for SHA-512, `Sha2Laws`, `Sha256Known`).
  `src/sha2/sha2.c` against FIPS 180-4: the circular message schedule written over the buffer it may be reading from,
  rolled and unrolled, and the streaming interfaces of SHA-256, SHA-384 and SHA-512.  The tables are proved to be the
  roots of primes they are said to be, and SHA-256 of "abc" is worked out round by round.
- **Chain index** (`VarInt`, `DoubleSha`, `Merkle`, `SpentWord`, `SpentMap`, `BlockFormat`, `IndexRun`, `ChainIndex`).
  `src/bzing.c`, `src/util.c`, `src/bzing_parser.c`: the walk over serialised blocks, what a whole file of them leaves
  in the index, the spent map and its overloaded 64-bit words, and the Merkle root in a flat array.

`dafny verify dfyconfig.toml` checks everything.

## How to read the contracts

Classes carry ghost fields (`tree`, `place`, `message`, `ix`) that say what the real fields stand for; `Valid()` ties
them together and is kept by every method, except where a contract names the case in which the code does not, so a
property of `Valid()` holds over every run.  `Contents()` is the
finite map or the sequence a container stands for.  Bits are taken of unbounded numbers (`NatBits`), with 32- and 64-bit
wrap-around written out where it matters; SHA-2 uses bit vectors.

## What the proofs show about the code

- `kh_put` on a table of 2^31 buckets that are all live returns the first bucket of the path with `*ret = 0` although
  the key is absent.  This is the only case in which it fails (`OpenTable.Table.KhPut`), and 2^31 insertions lead to
  it (`OpenTableRuns.PutIntoFull`).
- `alignhash_set` returns `nbucket` and leaves `*ret` unset when its resize is refused, also for a key that is
  present: exactly at 2^31 used-up buckets, and for the one-bucket table of linear probing (`OpenTable.Table.AhSet`,
  `OpenTableRuns.SetTwice`).
- `HashFindOrInsert` loses the item when the first bucket open to it is one marked deleted, and counts it all the
  same: in particular whenever it follows a `HashDelete` of the same key (`SparseRuns.DeleteThenFindOrInsert`).
  `HashInsert` never does (`SparseTable.HashTable.FindOrInsert`, `Insert`).
- `kb_delp` of a key that is not there takes out the largest smaller key or reads before the first key of a leaf, and
  is right exactly for keys that are there (`KbTrees.KbTree.Del`, `KbTrees.DelAbsent`).
- One doubling of the spent map is not always enough (`SpentMap.ReserveSound`, `SpentMap.ReserveOverrun`), and
  `bzing_index_regen` leaves an empty file (`ChainIndex.IndexRegen`).
- `NextPow2(0)`, which would give a table without buckets, is never reached by deleting, because a table of 1024 or
  more buckets is kept at least one fifth full (`SparseTable.HashTable.DeleteAt`).
- The slot of an output that is not spent reads as zero only from slot 512 on: `bzing_alloc` does not clear the first
  4096 bytes (`SpentMap.UnspentReads`, `ChainIndex.UnspentLeads`).
- Two comments in the source differ from the code, which is what is modelled: `src/sparsehash/libchash.c:1061` says
  2^31 where 64-bit words give 2^63, and `src/api/bzing_types.h:62` says 15 bytes where the mask keeps 7.

## Model

| member | source | states |
|---|---|---|
| KbTrees.KbTree.constructor | src/klib/kbtree.h:50-66 | an empty tree is valid |
| KbTrees.KbTree.Put | src/klib/kbtree.h:206-220 | keeps every B-tree invariant; the in-order sequence gains exactly k, between the keys not above it and those not below it (duplicates allowed); the height grows by one exactly when the root was full |
| KbTrees.KbTree.Del | src/klib/kbtree.h:308-321 | for any key: it removes the key if and only if the key is there; otherwise the largest smaller key goes in its place, or, exactly when the leaf the descent ends in holds only larger keys, the next access is before the first key of that leaf (None). Every B-tree invariant is kept, the sequence loses exactly one occurrence, and nodes are only given up |
| KbTrees.DelAbsent | src/klib/kbtree.h:238-244 | a run on the keys 1 and 3: kb_delp(2) takes out 1, and kb_delp(0) then leaves the node |
| KbTrees.KbTree.Get | src/klib/kbtree.h:129-141 | finds a live cell holding k exactly when k occurs |
| KbTrees.KbTree.Interval | src/klib/kbtree.h:147-164 | the key on both sides when it occurs, else the largest smaller and the smallest larger key of the tree, none when there is none |
| KbTrees.KbTree.Traverse | src/klib/kbtree.h:332-354 | visits the in-order sequence, every key once |
| KbTrees.GrowRoot | src/klib/kbtree.h:210-218 | a full root becomes the two halves under a new root with one key; the sequence is unchanged |
| KbTrees.DropRoot | src/klib/kbtree.h:314-319 | a root without keys stands for its one child |
| KbTreePut.GetpAux | src/klib/kbtree.h:113-127 | binary search in a node: the first occurrence with r = 0, or the last smaller key with r the comparison of k with the key after it, 1 when there is none |
| KbTreePut.Split | src/klib/kbtree.h:172-187 | the buffers of parent and both halves are those of the tree with the full child split around its median |
| KbTreePut.UpperHalf | src/klib/kbtree.h:174-180 | the new node holds the upper half of the full child |
| KbTreePut.LowerHalf | src/klib/kbtree.h:181-181 | and the child the lower one |
| KbTreePut.PutLeaf | src/klib/kbtree.h:190-195 | the leaf gains k at its sorted position |
| KbTreePut.InsertIntoLeaf | src/klib/kbtree.h:192-195 | a key is stored behind key i of a leaf |
| KbTreePut.PutAux | src/klib/kbtree.h:188-205 | insertion below a node that is not full keeps depth, occupancy, order and separation and inserts exactly k |
| KbTreePut.MakeRoom | src/klib/kbtree.h:196-202 | a full child is split before the descent, and k belongs into the half entered; the sequence is unchanged |
| KbTreePut.BelongsSplit | src/klib/kbtree.h:200-201 | comparing k with the median that moved up tells which half |
| KbTreePut.PutBelow | src/klib/kbtree.h:196-204 | the descent goes only into a child that is not full, between separators that bound k |
| KbTreeEdits.SplitChildSound | src/klib/kbtree.h:172-187 | a split keeps uniform depth, occupancy, separation and the in-order sequence, and adds one node |
| KbTreeEdits.MergeKidsSound | src/klib/kbtree.h:256-268 | merging two minimal children around their separator keeps them too, and gives up one node |
| KbTreeEdits.ReplacePairSound | src/klib/kbtree.h:271-284 | rearranging keys between two neighbouring children keeps them |
| KbTreeEdits.ReplaceKidSound | src/klib/kbtree.h:306-306 | replacing a child by what became of it keeps them |
| KbTreeEdits.SplitKidInOrder | src/klib/kbtree.h:178-185 | moving a median up does not change the in-order sequence |
| KbTreeEdits.MergeKidsInOrder | src/klib/kbtree.h:258-264 | moving a separator down does not change it |
| KbTreeEdits.MergeThenSplit | src/klib/kbtree.h:172-187 | splitting undoes merging |
| KbTreeModel.WeaveAround | src/klib/kbtree.h:35-41 | an internal node represents what is before a child, the child, and what is after it |
| KbTreeOrder.InsertedSorted | src/klib/kbtree.h:190-195 | an insertion at such a position keeps the sequence sorted and adds one occurrence |
| KbTreeOrder.RemovedSorted | src/klib/kbtree.h:238-244 | a removal keeps it sorted and takes away one occurrence |
| KbTreeOrder.KidRange | src/klib/kbtree.h:113-127 | a child of a sorted tree lies between the separators around it |
| KbTreeDel.PushFront | src/klib/kbtree.h:272-277 | a key and a pointer go in front of a node |
| KbTreeDel.PushBack | src/klib/kbtree.h:279-281 | a key and a pointer go behind a node |
| KbTreeDel.Append | src/klib/kbtree.h:258-261 | a separator and a whole node go behind another |
| KbTreeDel.CloseUp | src/klib/kbtree.h:262-264 | a separator and the pointer after it are closed up |
| KbTreeDel.BorrowFromLeft | src/klib/kbtree.h:271-277 | left sibling, separator and child end up as if one key had been rotated right |
| KbTreeDel.BorrowFromRight | src/klib/kbtree.h:278-284 | right sibling, separator and child end up as if one key had been rotated left |
| KbTreeDel.Merge | src/klib/kbtree.h:285-303 | two children and a separator end up in the left one, the right one is given up |
| KbTreeDel.LendRightShape | src/klib/kbtree.h:271-277 | borrowing from the left keeps occupancy and uniform depth of both siblings |
| KbTreeDel.LendLeftShape | src/klib/kbtree.h:278-284 | borrowing from the right keeps them |
| KbTreeDel.StepMerge | src/klib/kbtree.h:285-303 | a merge as one step of a deletion: the same sequence, one separator fewer, and the sought key still strictly inside the merged child |
| KbTreeDel.Fill | src/klib/kbtree.h:269-305 | whatever the siblings hold, the child descended into has at least t keys afterwards, the sequence is unchanged and the sought key still belongs to that child |
| KbTreeDel.DelLeaf | src/klib/kbtree.h:234-244 | in a leaf: removes k (mode 0), the largest key (1) or the smallest (2) |
| KbTreeDel.LeafChoice | src/klib/kbtree.h:237-244 | what a leaf loses for any key, and exactly when the search ends before its first key |
| KbTreeDel.DelAux | src/klib/kbtree.h:228-305 | for all three modes and every case: a tree with every invariant, whose sequence lost exactly the key asked for; for an absent key, None exactly when the leaf reached through the borrows and merges of the descent holds only larger keys |
| KbTreeDel.LeafBelow | src/klib/kbtree.h:270-305 | the leaf a deletion ends in, one level at a time: it is the one reached from the child entered, as borrowing or merging leaves that child |
| KbTreeDel.EnteredFilled | src/klib/kbtree.h:271-304 | that child is the one Fill makes, in each of its four ways |
| KbTreeDel.TakesInside | src/klib/kbtree.h:306-306 | what is taken out of the child entered is what the node loses, for present and for absent keys |
| KbTreeDel.DelHere | src/klib/kbtree.h:245-268 | a key found in an internal node is replaced by its predecessor, by its successor, or merged down |
| KbTreeDel.TakePredecessor | src/klib/kbtree.h:246-250 | a separator gives way to the largest key on its left |
| KbTreeDel.TakeSuccessor | src/klib/kbtree.h:251-255 | or to the smallest on its right |
| KbTreeDel.DelBelow | src/klib/kbtree.h:269-306 | the descent after filling |
| KbTreeDel.PredecessorInOrder | src/klib/kbtree.h:246-250 | replacing a separator by the largest key on its left removes the separator from the sequence |
| KbTreeDel.SuccessorInOrder | src/klib/kbtree.h:251-255 | replacing it by the smallest key on its right does too |
| KbTreeDel.Locate | src/klib/kbtree.h:113-127 | a present key strictly between the separators around a child is in that child |
| KbTreeSearch.Get | src/klib/kbtree.h:129-141 | the descent finds the key exactly when it occurs |
| KbTreeSearch.Interval | src/klib/kbtree.h:147-164 | the descent narrows a gap until it is tight |
| KbTreeSearch.GapNarrows | src/klib/kbtree.h:159-162 | one level of that descent |
| KbTreeSearch.NarrowedBelow | src/klib/kbtree.h:149-161 | one level of the search for neighbours: the two bounds stay the ends of the gap around k |
| KbTreeSearch.NarrowedLeaf | src/klib/kbtree.h:155-160 | at a leaf the gap is tight |
| KbTreeTraverse.Traverse | src/klib/kbtree.h:332-354 | the explicit stack visits exactly the in-order sequence |
| KbTreeTraverse.PushAll | src/klib/kbtree.h:337-345 | descends to the leftmost leaf, doubling the stack when it is full |
| KbTreeTraverse.PushOne | src/klib/kbtree.h:338-347 | one pass of the inner loop keeps what the stack stands for |
| KbTreeTraverse.Return | src/klib/kbtree.h:348-351 | back at a frame, its next key is visited |
| KbTreeTraverse.Reserve | src/klib/kbtree.h:338-342 | the doubled stack holds what the old one held |
| Probe.AtCovers | src/klib/khash.h:148-152 | an odd step reaches every bucket of a table of 2^k within 2^k probes |
| Probe.AtReturns | src/klib/khash.h:206-210 | with an odd step the path is back at its start after d probes if and only if d is a multiple of 2^k |
| Probe.AtFullTurn | src/klib/khash.h:206-210 | whole turns come back to the start, whatever the step |
| Probe.AtFirstReturn | src/klib/khash.h:206-210 | so the first return is after exactly 2^k probes |
| Probe.AtInjective | src/klib/khash.h:282-287 | no bucket is seen twice before |
| Probe.TriCovers | src/sparsehash/libchash.h:140-140 | the triangular path reaches every bucket within 2^k probes |
| Probe.TriInjective | src/sparsehash/libchash.c:799-820 | it sees none twice before |
| HashArith.RoundUpCorrect | src/klib/khash.h:156-158 | kroundup32 gives the least power of two that is not smaller, for 1 to 2^31, and 0 otherwise |
| HashArith.BoundsFit | src/klib/khash.h:160-160 | every load bound fits the table; from four buckets on khash always leaves one empty |
| HashArith.BoundsInDoubles | src/klib/khash.h:267-267 | the load bounds computed in doubles are those of exact arithmetic for every size of a table (alignhash, src/ulib/alignhash_tpl.h:155) |
| HashArith.StepsAreOdd | src/klib/khash.h:148-152 | every probe step is odd |
| BitSets.KhIncBits | src/klib/khash.h:148-152 | what the probe step of khash is, bit by bit |
| BitSets.TierStepBits | src/ulib/alignhash_tpl.h:82-82 | what the step of tier probing is, bit by bit |
| HashArith.KhSizePower | src/klib/khash.h:219-220 | the size a request is rounded to is the least power of two that is not smaller, and 4 for requests up to 4 or beyond 2^31 |
| HashArith.KhPutNeverRefused | src/klib/khash.h:273-276 | below 2^31 buckets the size kh_put asks for is granted: the same one when more than half of the buckets hold no key, else the next; at 2^31 it is refused exactly when at least 2^30 keys are present |
| HashFlags.TestsRead | src/klib/khash.h:140-142 | the three flag tests read the two bits of their own bucket |
| HashFlags.BucketRead | src/klib/khash.h:140-146 | the same for the buckets of a table |
| HashFlags.SetDel | src/klib/khash.h:146-146 | marking deleted changes the state of one bucket and of no other |
| HashFlags.SetNotEmpty | src/klib/khash.h:144-144 | clearing the empty bit does |
| HashFlags.SetLive | src/klib/khash.h:145-145 | clearing both bits does |
| HashFlags.NewFlags | src/klib/khash.h:223-224 | fresh flags say that every bucket is empty |
| HashFlags.FilledIsEmpty | src/klib/khash.h:196-196 | words of 0xaaaaaaaa say so |
| HashFlags.FSizeFits | src/klib/khash.h:154-154 | enough flag words are allocated, and not one too many |
| OpenTableModel.NextOnPath | src/klib/khash.h:208-208 | masking the 32-bit sum moves one probe on |
| OpenTableModel.PathFormula | src/klib/khash.h:279-286 | the d-th bucket of a path is the hash plus d steps, modulo the size |
| OpenTableModel.PathCovers | src/klib/khash.h:282-287 | every bucket is on every path |
| OpenTableModel.PathTurns | src/klib/khash.h:209-209 | i == last means that every bucket has been seen |
| OpenTableModel.SearchComplete | src/klib/khash.h:207-211 | a search that meets a never-used bucket or goes all the way round has missed nothing |
| OpenTableModel.AllLive | src/klib/khash.h:287-287 | a full turn over live buckets is all buckets |
| OpenTableSteps.InsertKey | src/klib/khash.h:294-304 | writing an absent key into a bucket of its path keeps the index exact and every key reachable |
| OpenTableSteps.DeleteKey | src/klib/khash.h:309-312 | a tombstone takes one key out and keeps the others reachable |
| OpenTableSteps.NeverBoth | src/klib/khash.h:246-255 | no bucket is ever live in both flag arrays |
| OpenTableSteps.TakeOut | src/klib/khash.h:234-239 | taking an entry in hand loses nothing |
| OpenTableSteps.KickOut | src/klib/khash.h:246-250 | swapping it with a resident entry loses and duplicates nothing and marks one bucket fewer live in the old flags |
| OpenTableSteps.PutDown | src/klib/khash.h:251-255 | putting it down completes the move |
| OpenTableSteps.RoomLeft | src/klib/khash.h:245-245 | while an entry is in hand the new flags have an empty bucket |
| OpenTableSteps.Departing | src/klib/khash.h:223-232 | before the first move everything is under the old flags |
| OpenTableSteps.Arrived | src/klib/khash.h:258-267 | after the last move the new flags alone index exactly the old map |
| OpenTableSteps.IndexSize | src/klib/khash.h:163-167 | there are no more keys than used buckets, as many when none is deleted, and an empty bucket when fewer are used than there are |
| OpenTable.FindEmpty | src/klib/khash.h:241-245 | the inner probe loop stops, at the first never-used bucket of the path |
| OpenTable.Settle | src/klib/khash.h:240-256 | the kick-out loop terminates with empty hands and the same entries |
| OpenTable.MoveAll | src/klib/khash.h:232-258 | the rebuild moves every live entry, whether the table grows, shrinks or keeps its size |
| OpenTable.RebuildArrays | src/klib/khash.h:225-264 | growing, rebuilding and shrinking the arrays keeps the map |
| OpenTable.Search | src/klib/khash.h:202-211 | the probe loop returns the bucket of the key, or n |
| OpenTable.FindPlace | src/klib/khash.h:277-292 | the probe loop of an insertion ends at the key, or at its destination: the last tombstone passed, else the never-used bucket that ended the search |
| OpenTable.PassBucket | src/klib/khash.h:282-287 | one pass of that loop: nothing is missed, and the last tombstone is remembered |
| OpenTable.PlaceFound | src/klib/khash.h:283-291 | what the bucket chosen in each way of leaving that loop is |
| OpenTable.InsertAt | src/klib/khash.h:294-304 | what each of the three writes does to index and counts |
| OpenTable.DestinationReached | src/klib/khash.h:277-292 | unless every bucket is live the destination is not live and on the path |
| OpenTable.FullIffAllLive | src/klib/khash.h:286-292 | a table holds as many keys as buckets exactly when all are live |
| OpenTable.KhChoice | src/klib/khash.h:273-276 | the resize asked for by kh_put is granted except possibly at 2^31 buckets |
| OpenTable.EmptyRemains | src/klib/khash.h:273-291 | a khash table within its load bound has a never-used bucket |
| OpenTable.AhDoubled | src/ulib/alignhash_tpl.h:235-244 | doubling is refused exactly at 2^31 buckets and for one full bucket under linear probing |
| OpenTable.Table.constructor | src/klib/khash.h:182-184 | an empty table stands for the empty map |
| OpenTable.Table.Clear | src/klib/khash.h:193-199 | the empty map, in the same arrays |
| OpenTable.Table.Get | src/klib/khash.h:200-213 | the bucket of the key, or n_buckets (alignhash_get is the same search, src/ulib/alignhash_tpl.h:125-145) |
| OpenTable.Table.Del | src/klib/khash.h:307-313 | removes exactly the key in a live bucket, leaves a tombstone in that bucket and changes no other; does nothing for other buckets (alignhash_del, src/ulib/alignhash_tpl.h:287-293) |
| OpenTable.SoundDelete | src/klib/khash.h:307-313 | a tombstone keeps a table sound |
| OpenTable.Table.SetValue | src/bzing.c:308-309 | the caller's store through kh_val changes one value |
| OpenTable.Table.Rehash | src/klib/khash.h:223-267 | the same map in a table of the new size, without tombstones (alignhash_resize, src/ulib/alignhash_tpl.h:158-227) |
| OpenTable.Table.Insert | src/klib/khash.h:277-305 | which bucket an absent key goes to, what *ret says, and that a present key changes nothing |
| OpenTable.Table.Put | src/klib/khash.h:277-305 | the same as a change of the finite map: *ret tells a bucket never used from a deleted one, exactly as the bucket was before, and only the bucket the key goes to changes; and the exact failure: only a table of 2^31 live buckets takes no new key |
| OpenTable.Table.KhResize | src/klib/khash.h:214-269 | any 32-bit request: the rounded size when the keys fit, else nothing changes; the map is the same |
| OpenTable.Table.KhGrow | src/klib/khash.h:272-276 | when kh_put rebuilds the table, to which size, and that there is room afterwards; otherwise nothing changes |
| OpenTable.Table.KhPut | src/klib/khash.h:270-306 | the finite map gains the key or is unchanged; the bucket returned is in range and the key's; *ret is 1 after a rebuild and otherwise tells what the bucket was, the last tombstone passed or a never-used one; the number of buckets and of used buckets; a never-used bucket remains below 2^31 buckets |
| OpenTableRuns.ReusesTombstone | src/klib/khash.h:282-291 | a key just deleted goes into a deleted bucket again: its own, or a later tombstone of its path |
| OpenTableRuns.DelThenPut | src/klib/khash.h:270-313 | in every table below its load bound, kh_del and then kh_put of the same key give *ret = 2 and use up no bucket |
| OpenTableRuns.PutDelPut | src/klib/khash.h:270-313 | from a new table, for any hash function: put, delete and put answer 1 and then 2 |
| OpenTableRuns.FillUp | src/klib/khash.h:273-299 | a run of kh_put, for any hash function, that ends with 2^31 live buckets |
| OpenTableRuns.PutIntoFull | src/klib/khash.h:277-299 | one more kh_put of another key says that it was there, and kh_get that it is not |
| OpenTable.Table.AhResize | src/ulib/alignhash_tpl.h:147-228 | done exactly when the keys fit the new load bound; the map is the same |
| OpenTable.Table.AhGrow | src/ulib/alignhash_tpl.h:235-244 | succeeds exactly unless stuck; the size doubles |
| OpenTable.Table.AhSet | src/ulib/alignhash_tpl.h:230-285 | the finite map gains the key or is unchanged; *ret is AH_INS_NEW after a resize and otherwise tells what the bucket was; when the resize is refused, even for a present key, nbucket is returned and *ret is left unset |
| OpenTableRuns.SetTwice | src/ulib/alignhash_tpl.h:155-156 | one bucket, linear probing: the second alignhash_set of a key returns nbucket and sets no *ret |
| SparseGroup.RgcBitsCount | src/sparsehash/libchash.c:383-399 | the 256-entry table counts the bits of a byte |
| SparseGroup.EntriesUptoCounts | src/sparsehash/libchash.c:380-470 | EntriesUpto is the number of set bits below i, for every i up to 64 |
| SparseGroup.SetBitRank | src/sparsehash/libchash.c:562-562 | setting a bit raises by one the ranks above it only |
| BitSets.TestBit | src/sparsehash/libchash.c:185-185 | TEST_BITMAP |
| BitSets.SetBit | src/sparsehash/libchash.c:186-186 | SET_BITMAP changes one bit |
| SparseArray.PointsTo | src/sparsehash/libchash.c:472-475 | SPARSE_BUCKET points into the store of the group, at the item of its location |
| SparseArray.PointsUnique | src/sparsehash/libchash.c:472-475 | different locations have different pointers |
| SparseArray.InsertedCell | src/sparsehash/libchash.c:551-562 | the shifted store and the bit together change exactly one logical position of a group |
| SparseArray.OpenCell | src/sparsehash/libchash.c:553-560 | realloc and memmove, item by item: the items from the offset on move up by one, whatever the new cell held |
| SparseArray.SparseAllocate | src/sparsehash/libchash.c:487-493 | whole groups, all empty |
| SparseArray.SparseIsEmpty | src/sparsehash/libchash.c:514-518 | tells whether a location is empty |
| SparseArray.SparseFind | src/sparsehash/libchash.c:520-525 | a pointer to the item of a location, none when it is empty |
| SparseArray.SparseInsert | src/sparsehash/libchash.c:536-565 | the array as a plain array with one position set; an occupied one is kept unless told to overwrite |
| SparseArray.Store | src/sparsehash/libchash.c:545-546 | a write through a pointer sets the position it points to |
| SparseIterate.NextOffset | src/sparsehash/libchash.c:577-579 | the next offset is that of the next set bit |
| SparseIterate.SparseIterator.NextBucket | src/sparsehash/libchash.c:575-587 | the next occupied location, none skipped |
| SparseModel.NextOnPath | src/sparsehash/libchash.c:1045-1046 | one triangular probe on |
| SparseModel.PathFormula | src/sparsehash/libchash.c:1020-1046 | the d-th bucket of a path is the hash plus d(d+1)/2, modulo the size |
| SparseModel.SomeEmpty | src/sparsehash/libchash.c:1021-1047 | a table that is not full has a never-used bucket on every path, so the unbounded loop ends |
| SparseModel.SearchComplete | src/sparsehash/libchash.c:1024-1028 | a search that ends at one has missed nothing |
| SparseModel.InsertItem | src/sparsehash/libchash.c:1087-1091 | a new key in a bucket of its path: one more entry, all keys reachable |
| SparseModel.UpdateItem | src/sparsehash/libchash.c:1079-1084 | new data for a key that is there |
| SparseModel.DeleteItem | src/sparsehash/libchash.c:1119-1121 | a deleted marker takes out one key and cuts off no other |
| SparseRehash.NextPow2 | src/sparsehash/libchash.c:1061-1068 | the least power of two above x; 0 at 0, and 2^63 when the next one would overflow |
| SparseRehash.DropLowest | src/sparsehash/libchash.c:1065-1066 | x & (x-1) keeps the highest bit unless it is the only one |
| SparseRehash.NextLive | src/sparsehash/libchash.c:1283-1302 | the next item that is not marked deleted, none skipped |
| SparseRehash.PlaceNew | src/sparsehash/libchash.c:983-989 | the item goes to the first empty bucket of its path in the new table |
| SparseRehash.CarryOne | src/sparsehash/libchash.c:972-992 | one more item moved: the new table holds exactly the items passed, except the watched one |
| SparseRehash.CarriedAll | src/sparsehash/libchash.c:993-996 | the new table holds the live items of the old one and no deleted markers |
| SparseRehash.Rebuild | src/sparsehash/libchash.c:958-998 | the whole loop: nothing lost, and the pointer returned is to the watched item |
| SparseTable.Search | src/sparsehash/libchash.c:1009-1048 | the item of the key, or the first bucket, deleted or never used, that could take it |
| SparseTable.LoadTests | src/sparsehash/libchash.c:1094-1099 | the tests and the quotient by a half, which is exact in doubles, in whole numbers |
| SparseTable.ShrinkTest | src/sparsehash/libchash.c:1125-1126 | so is the shrinking test, however doubles round the product, because the number of buckets is a power of two |
| SparseTable.FirstOpenUnique | src/sparsehash/libchash.c:1029-1035 | that bucket is determined by the table |
| SparseTable.Added | src/sparsehash/libchash.c:1087-1091 | counters and contents after an insertion, a deleted marker being counted off when it is overwritten |
| SparseTable.Removed | src/sparsehash/libchash.c:1119-1121 | counters and contents after a deletion |
| SparseTable.HashTable.constructor | src/sparsehash/libchash.c:1157-1174 | 512 buckets, the empty map, no deleted markers |
| SparseTable.HashTable.Clear | src/sparsehash/libchash.c:1176-1197 | 512 buckets, the empty map, no deleted markers, nothing found last |
| SparseTable.HashTable.Find | src/sparsehash/libchash.c:1219-1222 | finds a key exactly when it is there, and remembers the pointer |
| SparseTable.HashTable.Insert | src/sparsehash/libchash.c:1252-1255 | the finite map gains or changes the key; a new item goes to the first bucket of its path that is deleted or never used, and the table is rebuilt, to the fitting size, exactly when half the buckets are then used; the pointer is to the item, even after a rebuild; nothing is found last |
| SparseTable.HashTable.Take | src/sparsehash/libchash.c:1084-1091 | SparseInsert and the counters, in both ways of calling it: with a deleted marker and no leave to overwrite, the counters alone change |
| SparseTable.HashTable.Add | src/sparsehash/libchash.c:1084-1100 | the same with the growth that follows |
| SparseTable.HashTable.Overwrite | src/sparsehash/libchash.c:1077-1080 | new data for a key that is there |
| SparseTable.HashTable.Grow | src/sparsehash/libchash.c:1094-1100 | a rehash exactly when half the buckets are used, to the least power of two above twice the items, at least 64 |
| SparseTable.HashTable.Rehash | src/sparsehash/libchash.c:958-998 | the same map at the new size |
| SparseTable.HashTable.FindOrInsert | src/sparsehash/libchash.c:1241-1245 | inserts as documented exactly when the first bucket open to the key is never used; when it is a deleted marker nothing is written, the marker is returned and the item count is one too high; a key that is there changes nothing but that nothing is found last |
| SparseRuns.DeletedTombstoned | src/sparsehash/libchash.c:1029-1035 | marking the bucket of a key always leaves the first bucket open to that key a deleted marker |
| SparseRuns.DeleteThenFindOrInsert | src/sparsehash/libchash.c:1241-1265 | HashDelete and then HashFindOrInsert of the same key loses the item in every table the deletion does not shrink |
| SparseRuns.InsertDeleteFindOrInsert | src/sparsehash/libchash.c:1241-1265 | and does so from a new table |
| SparseTable.HashTable.Delete | src/sparsehash/libchash.c:1262-1265 | the finite map without the key; says whether it was there; nothing is found last |
| SparseTable.HashTable.DeleteLast | src/sparsehash/libchash.c:1267-1272 | the finite map without the key that posLastFind points to; nothing changes when it points to none |
| SparseTable.FoundOne | src/sparsehash/libchash.c:1036-1040 | posLastFind points to the item of one key only |
| SparseRuns.RunCalls | src/sparsehash/libchash.c:1009-1272 | over every run of HashInsert, HashFind, HashDelete, HashDeleteLast and ClearHashTable, the table does and answers what a finite map does that remembers the key found last |
| SparseRuns.DeletesLastFound | src/sparsehash/libchash.c:1267-1272 | in such a run HashDeleteLast takes out exactly the key of the HashFind just before it; behind any other call it answers 0 and changes nothing |
| SparseTable.HashTable.DeleteAt | src/sparsehash/libchash.c:1115-1133 | shrinks exactly when fewer than a fifth of at least 1024 buckets hold items, so NextPow2(0) is never asked for |
| SparseTable.HashTable.Mark | src/sparsehash/libchash.c:1116-1121 | the bucket becomes a deleted marker; counters and map follow |
| SparseTable.HashTable.Shrink | src/sparsehash/libchash.c:1125-1130 | a rehash exactly when fewer than a fifth of at least 1024 buckets hold items |
| Sha256Spec.HashBlocksConcat | src/sha2/sha2.c:564-570 | hashing is done block by block |
| Sha2Laws.PrimesInOrder | src/sha2/sha2.c:240-241 | the primes the tables are checked against are the first eighty, none left out |
| Sha2Laws.K256FromPrimes | src/sha2/sha2.c:241-258 | constant t is the fractional part of the cube root of prime t, to 32 bits (section 4.2.2 of FIPS 180-4) |
| Sha2Laws.Initial256FromPrimes | src/sha2/sha2.c:261-270 | initial word i is that of the square root of prime i (section 5.3.3) |
| Sha2Laws.Choice256 | src/sha2/sha2.c:214-214 | Ch takes the bits of y where x has ones and of z where it has zeros |
| Sha2Laws.Majority256 | src/sha2/sha2.c:215-215 | Maj has the bit that two of its arguments share |
| Sha2Laws.MajorityAlike256 | src/sha2/sha2.c:215-215 | whichever two |
| Sha256Known.Abc | src/sha2/sha2.c:452-528 | a known answer, round by round: SHA-256 of "abc" is ba7816bf...f20015ad |
| Sha256Known.DigestAbc | src/sha2/sha2.c:532-641 | which is what SHA256_Init, two calls of SHA256_Update and SHA256_Final give |
| Sha256Transform.SigmasAgree | src/sha2/sha2.c:209-221 | the rotation macros are the functions of section 4.1.2 of FIPS 180-4 |
| Sha256Transform.ReverseLoaded | src/sha2/sha2.c:142-146 | reversing a little-endian load is a big-endian load |
| Sha256Transform.ReverseStored | src/sha2/sha2.c:142-146 | storing a reversed word stores its big-endian bytes |
| Sha256Transform.NextScheduled | src/sha2/sha2.c:495-502 | the word written over word t-16 of the circular schedule is word t of the full one |
| Sha256Transform.WindowMoves | src/sha2/sha2.c:494-502 | the sixteen words held are the last sixteen of the schedule |
| Sha256Transform.RolledRound | src/sha2/sha2.c:501-511 | one pass of the rolled loop is one round of section 6.2.2 |
| Sha256Transform.UnrolledRound | src/sha2/sha2.c:383-392 | one macro is one round with the registers renamed |
| Sha256Transform.LoadBlockWord | src/sha2/sha2.c:473-473 | word j of the block is read before the buffer it may lie in is overwritten there |
| Sha256Transform.Transform | src/sha2/sha2.c:452-528 | the rolled compression function is that of section 6.2.2, also when the block is the context's own buffer |
| Sha256Transform.TransformUnrolled | src/sha2/sha2.c:394-448 | so is the unrolled one |
| Sha256Context.BlockComplete | src/sha2/sha2.c:548-554 | completing a block hashes exactly the next 64 bytes of the message |
| Sha256Context.PadOneBlock | src/sha2/sha2.c:594-617 | padding that fits one block |
| Sha256Context.PadTwoBlocks | src/sha2/sha2.c:601-610 | padding that needs two |
| Sha256Context.ReverseStored64 | src/sha2/sha2.c:147-154 | the bit count is stored big-endian |
| Sha256Context.Context.OpenPadding | src/sha2/sha2.c:592-604 | the one bit and the zeros behind the message |
| Sha256Context.Context.constructor | src/sha2/sha2.c:348-355 | nothing hashed yet |
| Sha256Context.Context.Update | src/sha2/sha2.c:532-578 | any chunk, of any length: the message grows by exactly its bytes |
| Sha256Context.Context.PadLast | src/sha2/sha2.c:589-617 | one or two blocks of padding, whatever is left in the buffer |
| Sha256Context.Context.Final | src/sha2/sha2.c:580-641 | the digest is SHA-256 of the concatenation of all chunks, the length taken modulo 2^64 bits |
| Sha512Spec.HashBlocksConcat | src/sha2/sha2.c:886-891 | hashing is done block by block |
| Sha2Laws.K512FromPrimes | src/sha2/sha2.c:273-314 | constant t is the fractional part of the cube root of prime t, to 64 bits (section 4.2.3 of FIPS 180-4) |
| Sha2Laws.Initial512FromPrimes | src/sha2/sha2.c:329-338 | initial word i of SHA-512 is that of the square root of prime i (section 5.3.5) |
| Sha2Laws.Initial384FromPrimes | src/sha2/sha2.c:317-326 | initial word i of SHA-384 is that of the square root of prime i + 8 (section 5.3.4) |
| Sha2Laws.Choice512 | src/sha2/sha2.c:214-214 | Ch on 64 bits |
| Sha2Laws.Majority512 | src/sha2/sha2.c:215-215 | Maj on 64 bits |
| Sha2Laws.MajorityAlike512 | src/sha2/sha2.c:215-215 | whichever two arguments share the bit |
| Sha2Laws.KnownRound512 | src/sha2/sha2.c:823-833 | a known answer: round 20 of SHA-512 of "abc" |
| Sha2Laws.KnownWord512 | src/sha2/sha2.c:817-824 | a known answer: a word of the schedule |
| Sha2Laws.KnownBytes512 | src/sha2/sha2.c:147-154 | words are stored highest byte first |
| Sha2Laws.DigestInOrder512 | src/sha2/sha2.c:954-962 | a digest is the eight words in order |
| Sha512Transform.SigmasAgree | src/sha2/sha2.c:214-227 | the rotation macros are the functions of section 4.1.3 of FIPS 180-4 |
| Sha512Transform.ReverseLoaded | src/sha2/sha2.c:147-154 | reversing a little-endian load is a big-endian load of 64 bits |
| Sha512Transform.ReverseStored | src/sha2/sha2.c:147-154 | storing a reversed word stores its big-endian bytes |
| Sha512Transform.NextScheduled | src/sha2/sha2.c:817-824 | the word written over word t-16 of the circular schedule is word t of the full one of section 6.4.2 |
| Sha512Transform.WindowMoves | src/sha2/sha2.c:816-824 | the sixteen words held are the last sixteen of the schedule |
| Sha512Transform.RolledRound | src/sha2/sha2.c:823-833 | one pass of the rolled loop is one round of section 6.4.2 |
| Sha512Transform.UnrolledRound | src/sha2/sha2.c:710-719 | one macro is one round with the registers renamed |
| Sha512Transform.LoadBlockWord | src/sha2/sha2.c:795-795 | word j of the block is read before the buffer it may lie in is overwritten there |
| Sha512Transform.Transform | src/sha2/sha2.c:776-850 | the rolled compression function is that of section 6.4.2, also when the block is the context's own buffer |
| Sha512Transform.TransformUnrolled | src/sha2/sha2.c:721-772 | so is the unrolled one |
| Sha512Context.AddInc128 | src/sha2/sha2.c:162-167 | ADDINC128 adds modulo 2^128: the carry test is right for every 64-bit summand |
| Sha512Context.CountWords | src/sha2/sha2.c:865-865 | the low word alone tells how full the buffer is |
| Sha512Context.BlockDone | src/sha2/sha2.c:870-876 | completing a block hashes exactly the next 128 bytes of the message |
| Sha512Context.PadOne | src/sha2/sha2.c:911-936 | padding that fits one block |
| Sha512Context.PadTwo | src/sha2/sha2.c:918-927 | padding that needs two |
| Sha512Context.Context512.constructor | src/sha2/sha2.c:676-683 | nothing hashed yet, from either initial value (SHA-384: 1005-1012) |
| Sha512Context.Context512.Update | src/sha2/sha2.c:854-900 | any chunk: the message grows by exactly its bytes, and the two-word bit count is exact modulo 2^128 |
| Sha512Context.Context512.Last | src/sha2/sha2.c:902-941 | the state is that of the concatenation of all chunks, padded as section 5.1.2 of FIPS 180-4 says |
| Sha512Context.Context512.Output | src/sha2/sha2.c:954-962 | the state's words go out big-endian |
| Sha512Context.Context512.Final512 | src/sha2/sha2.c:943-970 | the digest is SHA-512 of the concatenation of all chunks, the length taken modulo 2^128 bits |
| Sha512Context.Context512.Final384 | src/sha2/sha2.c:1018-1044 | the digest is SHA-384 of it |
| VarInt.ParseVarInt | src/bzing_parser.c:25-44 | reads one encoding and moves past it; the bytes read and the result are spelled out |
| VarInt.LeNatWords | src/bzing_parser.c:31-37 | the 16-, 32- and 64-bit words read through a pointer, low byte first |
| VarInt.SpelledOut | src/bzing_parser.c:25-44 | the encodings and their values, byte by byte, are exactly these |
| VarInt.ParseWritten | src/bzing_parser.c:25-44 | inverts every encoding, canonical or not, whatever surrounds it |
| VarInt.Encoded | src/bzing_parser.c:25-44 | the shortest encoding has the value it encodes |
| VarInt.ShortestEncoding | src/bzing_parser.c:25-44 | and none is shorter |
| DoubleSha.DoubleHash | src/util.c:30-42 | SHA-256 of the SHA-256 of the data, from two contexts |
| DoubleSha.HashedPair | src/util.c:70-76 | the same of two nodes, each passed to SHA256_Update by itself: that of one followed by the other |
| Merkle.CalcMerkleSize | src/util.c:43-51 | the number of nodes of the tree, 1 for no leaves |
| Merkle.NodesBound | src/util.c:56-56 | up to 2^k leaves make fewer than 2^(k+1) nodes |
| Merkle.IntsSuffice | src/util.c:56-56 | so the ints that index the flat array do not overflow for up to 2^30 leaves |
| Merkle.HashLevel | src/util.c:68-80 | one level of pairs, the left node first, is written behind the level it is computed from |
| Merkle.LevelNext | src/util.c:67-80 | the level written next starts where this one ends, and has the same root |
| Merkle.CalcMerkleRoot | src/util.c:53-87 | the last cell of the flat array is the root of the recursive tree with last-node duplication; zero for no leaves; every write in bounds |
| Merkle.RootFromTop | src/util.c:66-86 | the root for 2^(k-1) < n <= 2^k leaves is that of the tree of depth k seen from the top: the first 2^(k-1) leaves on the left, the others on the right, the left again when there are none |
| Merkle.LeafProves | src/util.c:66-86 | every leaf, hashed with its siblings on the sides that the bits of its number say, gives the root |
| SpentWord.PositionIsMarked | src/api/bzing_types.h:60-69 | no position up to the maximum looks uninitialised or like a block, whatever the output bits are |
| SpentWord.UnmarkedRead | src/api/bzing_types.h:66-69 | the number of outputs of an uninitialised word reads back |
| SpentWord.BitMarked | src/bzing.c:630-634 | setting an output bit keeps the position and the other output bits |
| SpentWord.ReadWord | src/bzing.c:601-628 | each branch of bzing_spent_mark reads off what the word stands for |
| SpentWord.Exclusive | src/api/bzing_types.h:60-69 | the three kinds of word exclude each other |
| SpentWord.FreshWords | src/bzing.c:708-708 | the word of an unspent transaction is 0x00ffffff00000000 plus the number of its outputs, which masking gives back; that of a block is all ones (676) |
| SpentWord.SpentBits | src/bzing.c:34-43 | the table of output bits |
| SpentWord.WordIsSum | src/bzing.c:630-634 | a word with a position is exactly that position plus the bits of the spent outputs below 8, output 0 the highest |
| SpentMap.ReserveSound | src/bzing.c:269-288 | the single doubling is enough if and only if the slots asked for fit in twice the present allocation |
| SpentMap.ReserveOverrun | src/bzing.c:269-288 | one fresh transaction with 1024 outputs is handed slots beyond the allocation, so the doubling is not always enough |
| SpentMap.MarkSound | src/bzing.c:581-655 | marks keep the slot ranges disjoint, inside [1, spent_len) and inside the allocation |
| SpentMap.SpenderFound | src/bzing.c:627-641 | position plus output number leads to the last spender recorded for that output |
| SpentMap.Handle.constructor | src/bzing.c:80-84 | an empty index whose first slot is never handed out |
| SpentMap.Handle.Set | src/bzing.c:294-378 | an entry that has no slots yet is added or replaced |
| SpentMap.Handle.ReserveSlots | src/bzing.c:269-288 | for any count: hands out the next slots, never written before, doubling the allocation exactly when they do not fit, once, and keeping what is stored; the index stays sound exactly when one doubling is enough |
| SpentMap.Handle.WriteSlot | src/bzing.c:630-650 | one slot and one entry change |
| SpentMap.Handle.MarkSpent | src/bzing.c:581-655 | the index with this output spent by this offset; which slot and which word it writes, that the first mark of a transaction advances spent_len by the number of its outputs, and that no other slot or entry changes |
| SpentMap.Handle.MarkFirst | src/bzing.c:604-650 | the first mark of a transaction |
| SpentMap.Handle.MarkAgain | src/bzing.c:626-650 | a later one |
| SpentMap.UnspentReads | src/bzing.c:279-281 | the slot of an unspent output has never been written: zero, except among the 512 that bzing_alloc leaves uncleared |
| BlockFormat.AtParts | src/bzing.c:684-722 | consecutive fields lie at consecutive offsets |
| BlockFormat.TxAt | src/bzing.c:685-685 | where each transaction of a block lies |
| ChainIndex.WalkInputs | src/bzing.c:692-701 | every input of a spending transaction is marked, and the cursor stops behind the last |
| ChainIndex.WalkOutputs | src/bzing.c:704-714 | the cursor stops behind the last output |
| ChainIndex.WalkTx | src/bzing.c:684-725 | exactly the bytes of the transaction are hashed, and it is indexed at its start |
| ChainIndex.WalkTxs | src/bzing.c:684-725 | the same for all transactions of a block; the first one spends nothing |
| ChainIndex.TxIsStep | src/bzing.c:684-725 | step k of a block is its transaction k, at its offset, and spends unless k is 0 |
| ChainIndex.BlockAdd | src/bzing.c:657-736 | stops exactly at the end of the block, indexes block and transactions, and compares the Merkle root with the header |
| IndexRun.MarkInsEffect | src/bzing.c:692-696 | the inputs of a transaction spend exactly the outputs they name, at the transaction's offset, and change nothing else |
| IndexRun.StepEffect | src/bzing.c:657-725 | a block header or transaction puts its own entry, unspent, and changes of every other entry only the outputs it spends |
| IndexRun.LastPut | src/bzing.c:657-753 | over every run, the last block or transaction with a hash decides where the hash leads and how many outputs its entry counts: those of the transaction, modulo 2^32 |
| IndexRun.UnspentStays | src/bzing.c:657-753 | as long as nothing spends one of its outputs, the entry is exactly what that block or transaction put |
| IndexRun.MarkReserves | src/bzing.c:604-628 | the first mark reserves one slot for each output, behind those handed out; other marks reserve none |
| IndexRun.LastSpendRecorded | src/bzing.c:657-753 | over every run, the last transaction that spends an output is its recorded spender |
| IndexRun.SpenderSpends | src/bzing.c:657-753 | and every recorded spender is that transaction, or was recorded before the run and not touched since |
| ChainIndex.BlockIndexed | src/bzing.c:657-736 | after a block, every hash of it is indexed at an offset where bytes with that hash lie in the data, and every other hash leads where it led before |
| ChainIndex.FileIndexed | src/bzing.c:738-753 | the same after a whole file, for the transactions and block headers of all its blocks |
| ChainIndex.FileLies | src/bzing.c:744-752 | the bytes of every transaction and header of the file lie where the walk indexes them |
| ChainIndex.IndexRegen | src/bzing.c:738-753 | runs over the whole file, for every file of blocks that up to one byte may follow; it leaves the file exactly when the file is empty |
| ChainIndex.UnspentWord | src/bzing.c:676-708 | after a whole file, the word stored for a transaction of which nothing is spent is 0x00ffffff00000000 plus the number of its outputs modulo 2^32, and that of a block is all ones |
| ChainIndex.FirstSpend | src/bzing.c:604-647 | the first spend of such a transaction advances spent_len by exactly that number and answers the offset of the slot |
| ChainIndex.SpenderLeads | src/bzing.c:627-641 | after a whole file, following the stored word and slot of an output leads to the bytes of the transaction that spends it last, and its quick bit is set |
| ChainIndex.UnspentLeads | src/bzing.c:627-641 | after a whole file, the slot of an output that the file brings and does not spend has never been written, and its quick bit is clear |
| ChainIndex.SpenderIsSpender | src/bzing.c:627-641 | an output recorded as spent is spent by the last transaction of the file that names it, or was recorded before |

## Left out

- KbTrees.KbTree.Del: what an access before the first key of a leaf reads and moves is not part of this model; the tree is then left as it is.
- KbTreePut.GetpAux: keys are integers compared by `kb_generic_cmp`.  A tree holds finitely many keys, and any total order on finitely many keys is that of some integers, so other key types behave alike.
- SparseTable.HashTable.Insert: fewer than 2^29 items and data other than the deleted marker, because SparseAllocate shifts an int group count and the marker value is reserved.
- SparseTable.HashTable.constructor: posLastFind starts out NULL, as a comment in AllocateHashTable says of all fields; `malloc` does not clear it, so HashDeleteLast as the very first call is not part of this model.
- Merkle.CalcMerkleRoot: up to 2^30 transactions, because its indices are ints.
- SpentMap.Handle.MarkSpent: the previous transaction must be indexed and have the output (the code has empty branches for both errors), and its slots must fit in twice the allocation, because the code doubles once whatever the number of outputs is.
- ChainIndex.BlockAdd: the data must start with a well-formed block; lengths are not checked by the code.
- ChainIndex.IndexRegen: what is read outside an empty file is not part of this model; the walk stops there.
- B-tree: `n_nodes` (merges do not decrement it), `__kb_get_first`, `kb_init` size arithmetic, `kb_destroy`.
- Hash tables: the tables compute with exact load factors; that doubles give the same is proved beside them (HashArith.BoundsInDoubles, SparseTable.ShrinkTest), given that a computation is off by at most a thousandth.
- Hash tables: hash functions are arbitrary functions; nothing is said about distribution.  Sets without values, the 64-bit variants and destruction are not part of this model.
- libchash: delta goals, dense tables, disk loading and saving, key copying and freeing; SparseRuns.RunCalls has no HashFindOrInsert, whose loss of items is stated by itself.
- SHA-2: wiping of the context after use, hexadecimal output, and big-endian machines.
- util.c calls OpenSSL's SHA256_Init, SHA256_Update and SHA256_Final; the model calls those of sha2.c instead.
- Chain index: the inventory is a map, so storage engines, cursors, allocation of entries and mapping of files are not part of this model.
- Allocation failure, raw pointer arithmetic and printing.
