# ConcordKV storage and coordination, modelled in Dafny

This project models the C server of ConcordKV (`kvserver/`) where its code decides properties that
hold for every input, every run or every interleaving, and proves them:

- the **B+tree engine** (`BTree*.dfy`): array nodes with parent pointers and a doubly linked leaf
  chain, splits up to a new root, deletion with borrow, merge and root collapse;
- the **red-black tree engine** (`RB*.dfy`): nodes around a sentinel, rotations, both fix-up loops;
- **transactions** on that engine (`Transaction.dfy`), the **two-phase-commit coordinator**
  (`TwoPhase.dfy`, `TwoPhaseRuns.dfy`) and its **priority queue** (`TxnQueue.dfy`);
- **elections** by terms and votes (`Election.dfy`);
- the **write-ahead log** as bytes with a crash at any position (`Wal.dfy`);
- **range and prefix scans** (`Ranges.dfy`), the **hash table** with rehash and treeify
  (`Buckets.dfy`, `HashTable.dfy`), **Bloom filters** in five layouts (`Bloom.dfy`, `BloomExact.dfy`,
  `Bits.dfy`), and the **LRU cache** (`Cache.dfy`, `CacheHeap.dfy`, `LruCache.dfy`, `LruRuns.dfy`).

`dafny verify dfyconfig.toml` checks everything.

## How the model is built

Keys are byte strings in unsigned lexicographic order. `Bytes.Pos` embeds that order into the reals,
so that key ranges become intervals and sortedness becomes arithmetic; `Bytes.CompareIsPos` ties it to
the comparison the code runs.

Code that changes a heap is modelled as classes whose methods edit fields and arrays in place. Each
tree object carries a ghost *shape*: a map from nodes to records that repeat the fields and add what
the proof needs (for the B+tree the key range and the distance from the leaves, for the red-black
tree the stretch of the key-ordered node list below a node and its black height). The heap is a
*picture* of the shape (`Pictures`), the invariant is a predicate on the shape whose clauses speak of
one node and its children, and every edit is a function on shapes with a lemma that it keeps the
invariant. The two sides of a mirrored branch (left and right rotations, the two halves of the
fix-up loops) are one method with a side as parameter.

Protocols are transition systems. A run is a sequence of labels or steps, each enabled in the state
the previous ones lead to; theorems speak of all runs.

Hash functions are arbitrary functions. Votes, lost messages, time-outs, the clock and the place of a
crash are inputs. Integers are unbounded except where the C width shows: log sizes and sequence
numbers, terms, Bloom hashes and the expiry sum are taken in their width.

## Where the code does not keep a promise

- `kvs_rbtree_set` on a present key leaves the tree alone but counts it; the counter is right exactly
  if no set met a present key (`RBTheorems.CountIsExact`). Two sets of one key make it 2 for one entry
  (`RBTheorems.CountsTwiceInTree`).
- A B+tree deletion that would have to borrow between inner nodes gives up with
  `KV_ERR_NOT_SUPPORTED` after the key is gone. Map, order, depth, chain and counters hold all the
  same; the minimum fill is lost. `BTreeClimb.GivesUp` tells from the tree and the key, before the
  call, whether that happens: climb from the leaf of the key, where each node that falls below the
  minimum merges unless a neighbour has keys to lend, and stop at an inner node that has such a
  neighbour. `BTreeEngine.BTree.Delete` gives up if and only if `GivesUp` held, and a filled tree stays
  filled, with (order + 1) / 2 - 1 keys or more in each node but the root, if and only if it did not.
  `BTreeWitness.GivesUpAfterInsertions` reaches the case in a tree of
  order 3 by inserting the keys 1 to 12 in order and deleting 1 and 2.
- The coordinator is safe exactly as long as one thread drives its transactions. With a second one
  (a caller of `dist_txn_prepare` beside the scheduler) a participant can be sent both decisions, and a
  COMMITTED transaction can become PREPARED again (`TwoPhaseRuns.SafeExactlyWithOneDriver`).
- Terms wrap around at 2^64. Elections are safe in all runs whose elections start below a term L if
  and only if L is at most the greatest term (`Election.SafeExactlyWithoutWrap`).
- `cluster_become_leader` does not count votes (`Election.UnelectedLeaders`). If its callers only call it
  with at least q votes, every run without wrap-around has one leader per term if and only if q is more
  than half of the nodes (`Election.OneLeaderExactlyWithMajority`).
- Rollback does not restore modified values, because undo sets only absent keys; which values survive
  is `TxnEffects.Residue`. A deferred modification of a key the transaction itself added is refused;
  deferred and immediate execution agree exactly as `TxnEffects.DeferredMatchesEagerIff` says.
- A log record whose key or value reaches 2^32 - 1 bytes is cut by its size field (`Wal.KeptIffFits`);
  `Wal.KeyIsCut` loses a whole key.
- A saturated counter forgets additions. An addition keeps the counters exact if and only if no load
  exceeds their maximum (`BloomSpec.AddExactIff`). Whatever the maximum, as many additions of one key,
  an addition of another and as many removals of the first lose the second
  (`BloomSpec.SaturationForgets`; at 2^32 - 1, the maximum in the code, `BloomSpec.CountersForget`).
- The batch addition of a Bloom filter knows three of the five layouts. It leaves what single additions
  leave if and only if the layout is one of them or there is no key to add (`BloomSpec.BatchIsAddsIff`).
- A blocked or register filter spends its first hash on choosing the block, so with one hash it has no bit
  left to test. A new filter answers yes to a key if and only if the key is not empty and there is no bit
  to test (`BloomExact.NewAnswersIff`); `Bloom.NewFindsAnything` finds any key in a new blocked filter.
- A filter block gets its size in bits divided by 8, rounded down, as bytes: all its bits have a place
  if and only if 8 divides the size (`BloomSpec.BlockBitsFitIff`, `Bloom.BitFilter.constructor`).
- A cache entry that is set again keeps its creation time, from which its new time to live counts. A
  get sees the value exactly as `LruSpec.SetIsSeenIff` says; `LruRuns.SetButMissed` sets a value that a
  get at the same time misses.
- A set on a full cache evicts even if its key is present and needs no room. All other entries stay if
  and only if the cache is not full, the eviction drops nothing, or it drops the entry of the key alone
  (`LruSpec.PresentKeyCostsNothingIff`, `LruCache.Cache.Set`); `LruRuns.SetCostsOther` loses another entry.
- Cache entries carry a hash taken with the default seed, but are looked up with the configured seed,
  which nothing checks. A key that was set is seen if and only if the two hashes agree on it and it has
  not expired (`LruRuns.SetThenGet`), and an eviction takes its entries out of the table if and only if
  the hashes agree on all their keys (`LruCache.Cache.Evict`, `LruCache.Cache.Set`). Otherwise the table
  holds on to entries that have been destroyed (`LruRuns.OtherSeedLoses`).
- A scan limit of 0, documented as no limit in `kvserver/kv_range_query.h`, stops at 1000 rows. A scan
  returns what its options promise if and only if a limit is given or at most 1000 entries of the range
  remain after the offset (`Ranges.LimitKeptIff`, `Ranges.RangeScan`); `Ranges.ScanStops` loses the last
  of 1001 entries.
- Switching case sensitivity off does not widen a prefix scan, because the range it scans has the case
  of the prefix. The scan returns what it promises if and only if nothing is left after the offset, or
  no entry that matches only when case is ignored comes before the end of the page, within the room
  (`Ranges.PrefixPromiseIff`, `Ranges.PrefixScan`); `Ranges.ScanMissesUpperCase` misses the key "A" for
  the prefix "a".
- `kvs_hash_modify` reports an unknown key as a failure and adds it (`HashTables.HashTable.Modify`).

## Model

| member | source | states |
|---|---|---|
| `Bytes.CompareIsPos` | kvserver/kvstore_btree.c:26-42 | comparing byte strings (first difference, then length) is comparing their positions on the unit interval; equal exactly if identical |
| `BTreeNodes.Node.FindKey` | kvserver/kvstore_btree.c:218-250 | binary search: the place of an exact match or -1, or else the insertion point that keeps the keys sorted |
| `BTreeNodes.Node.InsertEntry` | kvserver/kvstore_btree.c:279-334 | the live prefixes of keys and values of a leaf get one element at the index, the others shift |
| `BTreeNodes.Node.InsertChild` | kvserver/kvstore_btree.c:891-909 | the live prefixes of separators and children of an inner node get the separator at the index and the child right of it |
| `BTreeNodes.Node.RemoveAt` | kvserver/kvstore_btree.c:339-381 | a leaf loses the entry at the index, an inner node the separator there and the child to its right |
| `BTreeEngine.CreateTree` | kvserver/kvstore_btree.c:427-469 | no tree for an order outside 3..1000; otherwise a valid tree of the empty map, of that order |
| `BTreeEngine.BTree.constructor` | kvserver/kvstore_btree.c:427-469 | the one-leaf tree is valid and empty, of height 1, and no node lacks keys |
| `BTreeEngine.BTree.GrowRoot` | kvserver/kvstore_btree.c:866-888 | a new root above a pending split makes the tree valid again, one level higher, with the same map |
| `BTreeEngine.BTree.InsertToParent` | kvserver/kvstore_btree.c:860-915 | whatever splits cascade, a pending right half ends up in a valid tree with the same map and keeps the minimum fill; the separators and their levels are those computed from the tree before |
| `BTreeEngine.BTree.CutInternal` | kvserver/kvstore_btree.c:737-848 | splitting a full inner node while adding a child leaves two halves, of order / 2 separators and of the rest, that are pending one level up |
| `BTreeEngine.BTree.CutLeaf` | kvserver/kvstore_btree.c:596-725 | splitting a full leaf while adding an entry leaves two halves, the left one of (order + 1) / 2 entries, chained, whose map has the new entry |
| `BTreeEngine.BTree.SplitLeaf` | kvserver/kvstore_btree.c:596-731 | a full leaf splits and its right half is hung in; an empty value fails without an effect |
| `BTreeEngine.BTree.InsertRecursive` | kvserver/kvstore_btree.c:932-979 | descent to the leaf of the key and insertion there: map changed at that key only, tree valid, fill kept |
| `BTreeEngine.BTree.Insert` | kvserver/kvstore_btree.c:920-927 | the map changes at exactly the given key, for every order and through all splits; the tree stays valid, and one whose nodes but the root have (order + 1) / 2 - 1 keys or more stays so; there is one leaf more exactly if the key was absent and its leaf held as many keys as the order; the separators move as the tree before tells |
| `BTreeEngine.BTree.Search` | kvserver/btree_adapter.c:23-56 | the root-to-leaf search returns exactly the map's value for every key, or null |
| `BTreeEngine.BTree.BorrowFromLeft` | kvserver/kvstore_btree.c:984-1044 | the last key of the left leaf moves to the front and becomes the separator, no other key of the three nodes moves; map and validity are kept and the fill is restored |
| `BTreeEngine.BTree.BorrowFromRight` | kvserver/kvstore_btree.c:1045-1086 | the first key of the right leaf moves to the end and the next one becomes the separator; the rest as for the left |
| `BTreeEngine.BTree.Merge` | kvserver/kvstore_btree.c:1091-1163 | the left of two siblings holds the keys of both, inner ones with the separator between, and the right one leaves the tree; map and validity kept; only the parent may lack a key then |
| `BTreeEngine.MergeFits` | kvserver/kvstore_btree.c:1202-1239 | the borrow threshold leaves room: an underfull node, a sibling that cannot lend and the separator never exceed the order |
| `BTreeEngine.BTree.ShrinkRoot` | kvserver/kvstore_btree.c:1174-1190 | an inner root without keys gives way to its only child, and the tree is valid, one level lower |
| `BTreeEngine.BTree.FixAfterDelete` | kvserver/kvstore_btree.c:1168-1243 | map and validity kept; at least (order + 1) / 2 - 1 keys in every node but the root exactly if the repair does not give up; one leaf fewer exactly if the node is a leaf below that number whose neighbours have at most (order + 1) / 2 keys; such a leaf gets the last key of a left neighbour that has more, else the first of a right one that has more, else it leaves the tree, or the right one does if there is none on the left; it gives up exactly if the climb from the node, read off the tree before, ends at an inner node with a lending neighbour |
| `BTreeEngine.BTree.DeleteRecursive` | kvserver/kvstore_btree.c:1259-1297 | descent and removal: exactly the key leaves the map, also on the path that gives up, which is taken exactly if `GivesUp` held before |
| `BTreeEngine.BTree.Delete` | kvserver/kvstore_btree.c:1248-1254 | exactly the key leaves the map; not found exactly if absent; "not supported" exactly if `GivesUp` held of tree and key before; from a tree with (order + 1) / 2 - 1 keys or more in every node but the root it leaves such a tree exactly otherwise; there is one leaf fewer exactly if the leaf of the key falls below that number and no neighbour has more than (order + 1) / 2 keys |
| `BTreeClimb.GivesUpAt` | kvserver/kvstore_btree.c:1259-1281 | whether a deletion gives up is decided at the one leaf whose range covers the key |
| `BTreeClimb.StuckHere` | kvserver/kvstore_btree.c:1203-1242 | an underfull node with a lending neighbour is stuck exactly if it is an inner node; without one it is stuck exactly if its parent, one key poorer, is |
| `BTreeClimb.StuckSame` | kvserver/kvstore_btree.c:1212-1242 | merges below a node do not change how the climb from it ends |
| `BTreeClimb.MergesHere` | kvserver/kvstore_btree.c:1195-1242 | whether a leaf left with so many keys is merged, by numbers of keys alone, is the case in which the repair neither stops nor borrows |
| `BTreeClimb.LeafHalves` | kvserver/kvstore_btree.c:609-725 | a leaf that overflows keeps (order + 1) / 2 entries and passes the others on |
| `BTreeClimb.InnerHalves` | kvserver/kvstore_btree.c:750-848 | an inner node that overflows keeps order / 2 separators, promotes one and passes the others on |
| `BTreeClimb.LevelsApart` | kvserver/kvstore_btree.c:966-977 | two nodes of one level have key ranges that do not overlap |
| `BTreeClimb.NoSepInside` | kvserver/kvstore_btree.c:966-977 | no separator of a higher level lies inside the key range of a node |
| `BTreeClimb.RangeEnds` | kvserver/kvstore_btree.c:966-977 | the ends of a node's key range are separators of higher levels or the ends of the key space |
| `BTreeClimb.OverflowedSeps` | kvserver/kvstore_btree.c:750-848 | splitting a full inner node adds the new separator to its level and takes exactly the promoted one away |
| `BTreeClimb.ClimbOn` | kvserver/kvstore_btree.c:737-848 | the separators after a cascade of splits are the same whether told before or after one of them |
| `BTreeWitness.GivesUpAfterInsertions` | kvserver/kvstore_btree.c:1168-1297 | twelve insertions and two deletions on a tree of order 3: the second deletion reports "not supported" and leaves an underfull node |
| `BTreeWitness.MergesToOneLeaf` | kvserver/kvstore_btree.c:1195-1242 | six insertions and two deletions on a tree of order 5 end in a tree of height 1 with one leaf |
| `BTreeShape.Attach` | kvserver/kvstore_btree.c:891-909 | hanging a pending half below a parent with room gives a tree with all its invariants |
| `BTreeShape.NewRoot` | kvserver/kvstore_btree.c:866-888 | a new root over the two halves of the old one gives a tree with all its invariants |
| `BTreeShape.LeafSplit` | kvserver/kvstore_btree.c:609-725 | cutting a leaf in two and relinking the chain leaves a tree that lacks only the parent link of the right half |
| `BTreeShape.InnerSplit` | kvserver/kvstore_btree.c:750-848 | cutting an inner node around a promoted separator does the same, children re-parented |
| `BTreeShape.LeafFuse` | kvserver/kvstore_btree.c:1098-1118 | pouring a detached leaf into its left neighbour gives a tree with the same map and a shorter chain |
| `BTreeShape.InnerFuse` | kvserver/kvstore_btree.c:1120-1147 | pouring a detached inner node into its left neighbour, separator between, gives a tree with the same map |
| `BTreeShape.Collapse` | kvserver/kvstore_btree.c:1174-1190 | the only child of a keyless root is a tree of its own with the same map |
| `BTreeTheorems.ChainIsInOrder` | kvserver/kvstore_btree.c:701-714 | walking the leaf chain visits the entries in the order of the recursive traversal from the root |
| `BTreeTheorems.ChainListsMap` | kvserver/kvstore_btree.c:701-714 | the chain lists exactly the represented map, in key order |
| `BTreeTheorems.SeparatorSplits` | kvserver/kvstore_btree.c:966-977 | every key left of a separator is less than it, every key right of it is not |
| `BTreeTheorems.UniformDepth` | kvserver/kvstore_btree.c:866-888 | every descent from the root to a leaf has as many nodes as `height` says |
| `BTreeTheorems.FilledTreeIsShallow` | kvserver/kvstore_btree.c:263-274 | with m = (order + 1) / 2 - 1 and m keys or more in every node but the root, a tree of height h >= 2 holds at least 2 m (m + 1)^(h - 2) keys |
| `BTreeTheorems.InnerNodesCounted` | kvserver/kvstore_btree.c:866-888 | `internal_nodes` is the number of nodes that are not leaves |
| `BTreeRuns.WalkForward` | kvserver/kvstore_btree.c:701-714 | following `next` from `first_leaf` yields the map in key order |
| `BTreeRuns.WalkBackward` | kvserver/kvstore_btree.c:701-714 | following `prev` from `last_leaf` yields the same entries from the back |
| `BTreeRuns.Run` | kvserver/kvstore_btree.c:920-1297 | any run of insertions and deletions refines a plain map; insert-only runs keep (order + 1) / 2 - 1 keys in every node but the root |
| `BTreeRuns.Grow` | kvserver/kvstore_btree.c:920-979 | a tree grown by insertions, of height h >= 2, holds at least 2 m (m + 1)^(h - 2) keys, with m = (order + 1) / 2 - 1, and `total_keys` is their number |
| `RBEngine.RBTree.constructor` | kvserver/kvstore_rbtree.c:389-403 | the tree of just the sentinel is sound and empty |
| `RBEngine.RBTree.Rotate` | kvserver/kvstore_rbtree.c:83-126 | a rotation keeps the search tree, its node list, the payloads and the root link |
| `RBEngine.RBTree.SettleOnce` | kvserver/kvstore_rbtree.c:129-170 | one round of the insertion fix-up keeps everything but one red-red edge and removes it or moves it up |
| `RBEngine.RBTree.InsertFixup` | kvserver/kvstore_rbtree.c:129-174 | the loop ends with all colour rules restored and the same entries |
| `RBEngine.RBTree.InsertNode` | kvserver/kvstore_rbtree.c:176-222 | an absent key is added to the map and the tree stays sound; a present key changes neither map nor shape |
| `RBEngine.RBTree.SearchNode` | kvserver/kvstore_rbtree.c:349-373 | the node of the key exactly if it is in the map, else the sentinel |
| `RBEngine.RBTree.Mini` | kvserver/kvstore_rbtree.c:53-58 | the first node, in key order, below a node |
| `RBEngine.RBTree.Successor` | kvserver/kvstore_rbtree.c:68-81 | the node listed next in key order, or the sentinel |
| `RBEngine.RBTree.CloseOnce` | kvserver/kvstore_rbtree.c:229-292 | one round of the deletion fix-up closes the black-height gap or moves it strictly up |
| `RBEngine.RBTree.DeleteFixup` | kvserver/kvstore_rbtree.c:227-295 | the loop terminates with equal black heights, no red-red edge and the same entries |
| `RBEngine.RBTree.DeleteNode` | kvserver/kvstore_rbtree.c:299-346 | exactly the entry of the node leaves the map, also when its successor is spliced out and payloads are swapped |
| `RBEngine.RBTree.Set` | kvserver/kvstore_rbtree.c:449-476 | insert-if-absent; a present key keeps shape and value; the counter rises either way |
| `RBEngine.RBTree.Get` | kvserver/kvstore_rbtree.c:478-487 | the map's value, exactly if the key is present |
| `RBEngine.RBTree.Delete` | kvserver/kvstore_rbtree.c:490-507 | the map without exactly the key; -1 exactly if absent; counter lowered otherwise |
| `RBEngine.RBTree.Modify` | kvserver/kvstore_rbtree.c:510-527 | the value of a present key replaced, nothing else |
| `RBShape.RotatedTree` | kvserver/kvstore_rbtree.c:83-126 | rotation as a function on shapes keeps order, links and completeness |
| `RBShape.Graft` | kvserver/kvstore_rbtree.c:203-219 | a new red leaf in an empty slot breaks at most the rule for red nodes at itself |
| `RBShape.RecolourOk` | kvserver/kvstore_rbtree.c:134-139 | with a red uncle, recolouring moves the clash two levels up and keeps black heights |
| `RBShape.InnerClash` | kvserver/kvstore_rbtree.c:142-145 | an inner grandchild is straightened into an outer one |
| `RBShape.OuterClash` | kvserver/kvstore_rbtree.c:147-149 | recolouring and rotating the grandparent removes the clash |
| `RBDelete.SplicedTree` | kvserver/kvstore_rbtree.c:304-339 | splicing a node out, payload taken over, leaves a search tree |
| `RBDelete.SplicedListing` | kvserver/kvstore_rbtree.c:325-339 | the key and value lists lose exactly the entry of the deleted node |
| `RBDelete.SplicedShort` | kvserver/kvstore_rbtree.c:341-343 | splicing out a black node leaves exactly one gap, at its place |
| `RBDelete.SplicedRedNode` | kvserver/kvstore_rbtree.c:341-343 | splicing out a red node leaves a sound tree |
| `RBDelete.RedSibling` | kvserver/kvstore_rbtree.c:233-239 | a red sibling is rotated away, the gap stays, its new sibling is black |
| `RBDelete.MoveUp` | kvserver/kvstore_rbtree.c:241-243 | with black nephews the gap moves to the parent |
| `RBDelete.InnerNephewTurn` | kvserver/kvstore_rbtree.c:246-251 | a red inner nephew is turned into an outer one |
| `RBDelete.CloseGap` | kvserver/kvstore_rbtree.c:253-258 | with a red outer nephew one rotation closes the gap |
| `RBDelete.BlackenEnds` | kvserver/kvstore_rbtree.c:294-294 | painting a red node or the root below the gap black ends the deletion |
| `RBTheorems.DepthIsLogarithmic` | kvserver/kvstore_rbtree.c:129-222 | with n entries a path of d nodes has 2^d <= (n + 1)^2, that is d <= 2 log2(n + 1) |
| `RBTheorems.EqualBlacks` | kvserver/kvstore_rbtree.c:129-295 | every path from a node down to the sentinel passes the same number of black nodes |
| `RBTheorems.TraversalIsSorted` | kvserver/kvstore_rbtree.c:376-382 | the in-order traversal lists every node once, in rising key order, with the entries of the map |
| `RBTheorems.Run` | kvserver/kvstore_rbtree.c:449-527 | any run of set, modify and delete refines insert-if-absent on a plain map with its counter |
| `RBTheorems.CountDrifts` | kvserver/kvstore_rbtree.c:472-473 | the counter departs from the number of entries by exactly the sets that met a present key |
| `RBTheorems.CountIsExact` | kvserver/kvstore_rbtree.c:472-473 | from an empty tree the counter is right exactly if no set met a present key |
| `RBTheorems.CountsTwice` | kvserver/kvstore_rbtree.c:449-476 | two sets of one key leave one entry and a counter of 2 |
| `RBTheorems.CountsTwiceInTree` | kvserver/kvstore_rbtree.c:449-476 | the same on a tree, by calls |
| `TxnQueue.ArriveKeepsOrder` | kvserver/kv_distributed_transaction.c:133-150 | an arrival keeps the list sorted by falling priority and first-in-first-out within it, and joins the waiting items |
| `TxnQueue.HeadIsForemost` | kvserver/kv_distributed_transaction.c:182-188 | the head of a sorted list is the earliest of the highest priority |
| `TxnQueue.Queue.constructor` | kvserver/kv_distributed_transaction.c:49-79 | an empty queue; a size that is not positive stands for 1000 |
| `TxnQueue.Queue.Enqueue` | kvserver/kv_distributed_transaction.c:104-157 | the item is added in its place or refused when full; links, `tail` and `size` match the list |
| `TxnQueue.Queue.Dequeue` | kvserver/kv_distributed_transaction.c:160-196 | an item leaves that has a higher priority than every other, or the same and came first; the others wait on |
| `TwoPhase.DistTxn.constructor` | kvserver/kv_distributed_transaction.c:520-610 | a transaction begins preparing, with preparing participants and an active local transaction if there is an engine |
| `TwoPhase.DistTxn.SendPrepares` | kvserver/kv_distributed_transaction.c:613-650 | first critical section of prepare: one message to each participant; a failed send aborts that participant and no other; refused with -6 unless preparing |
| `TwoPhase.PrepareReachesAll` | kvserver/kv_distributed_transaction.c:613-650 | the log grows by exactly one prepare message for each participant, and those whose send failed, and no others, become aborted |
| `TwoPhase.DistTxn.CollectVotes` | kvserver/kv_distributed_transaction.c:655-691 | second critical section: each preparing participant votes once and becomes prepared or aborted; the status is overwritten by whether the counter is full |
| `TwoPhase.VotesAreCounted` | kvserver/kv_distributed_transaction.c:655-691 | the counter rises by the number of preparing participants that say yes, one vote of each of them enters the log, and the others stay as they are |
| `TwoPhase.DistTxn.Commit` | kvserver/kv_distributed_transaction.c:694-745 | local commit, then one commit message to each prepared participant, which is committed exactly if its send succeeded; otherwise an error code and no message |
| `TwoPhase.CommitReachesPrepared` | kvserver/kv_distributed_transaction.c:694-745 | a commit sends exactly one message to each prepared participant and commits and counts those that were reached; in another state, or after a failed local commit, it sends nothing |
| `TwoPhase.DistTxn.Abort` | kvserver/kv_distributed_transaction.c:748-792 | unless committed: rollback, an abort message to each participant that is not aborted, and then all of them are |
| `TwoPhase.AbortReachesAll` | kvserver/kv_distributed_transaction.c:748-792 | an abort that is not refused leaves every participant aborted, and the log grows by exactly one abort message for each that was not; a refused one changes nothing |
| `TwoPhase.DistTxn.Flag` | kvserver/kv_distributed_transaction.c:891-903 | the timeout check flags what is not decided |
| `TwoPhaseRuns.VotesKeep` | kvserver/kv_distributed_transaction.c:657-677 | the prepared counter equals the number of participants exactly if all of them said yes |
| `TwoPhaseRuns.StepKeepsInv` | kvserver/kv_distributed_transaction.c:257-315 | every step of scheduler, callers and timeout thread keeps the protocol invariant while one thread drives |
| `TwoPhaseRuns.OneDriverIsSafe` | kvserver/kv_distributed_transaction.c:257-315 | in every interleaving: never both COMMIT and ABORT, COMMIT only after a yes from every participant, local outcome equals global outcome |
| `TwoPhaseRuns.DecisionsAreFinal` | kvserver/kv_distributed_transaction.c:694-792 | COMMITTED and ABORTED are never left, however the run goes on |
| `TwoPhaseRuns.TimeoutFlags` | kvserver/kv_distributed_transaction.c:891-903 | a timeout flags an undecided transaction and queues it again if there is room, and leaves a decided one and all others alone |
| `TwoPhaseRuns.ExpiredIsAborted` | kvserver/kv_distributed_transaction.c:263-271 | a thread that takes an expired transaction from the queue leaves it and all its participants aborted, unless it was committed |
| `TwoPhaseRuns.OneDriverDecides` | kvserver/kv_distributed_transaction.c:257-315 | for any number of participants and any votes there is a run that decides: committed everywhere if all say yes, else aborted everywhere, with an abort message to each that said yes |
| `TwoPhaseRuns.DuelAborts` | kvserver/kv_distributed_transaction.c:655-691 | a run with two drivers in which a participant is sent COMMIT and then ABORT |
| `TwoPhaseRuns.DuelRevokes` | kvserver/kv_distributed_transaction.c:655-691 | with two drivers a run exists in which COMMITTED is overwritten by the other thread's vote collection |
| `TwoPhaseRuns.SafeExactlyWithOneDriver` | kvserver/kv_distributed_transaction.c:257-315 | all runs are safe if and only if at most one thread drives, and decisions are final in all runs if and only if at most one thread drives |
| `TxnEffects.RollbackLeaves` | kvserver/kv_transaction.c:263-319 | rollback of immediate execution leaves exactly the old keys, each with its residue |
| `TxnEffects.RollbackRestores` | kvserver/kv_transaction.c:263-319 | for any script of sets and deletes, execution then rollback restores the store |
| `TxnEffects.RollbackRestoresIff` | kvserver/kv_transaction.c:304-309 | with modifications the key set is restored always, the values exactly if every residue is the old value |
| `TxnEffects.DeferredMatchesEager` | kvserver/kv_transaction.c:227-260 | for any script of sets and deletes, deferred commit ends in the store of immediate execution |
| `TxnEffects.DeferredMatchesEagerIff` | kvserver/kv_transaction.c:189-260 | with modifications they agree exactly if no key the transaction added and kept was modified to another value |
| `TxnEffects.ModificationsSurvive` | kvserver/kv_transaction.c:304-309 | concrete scripts for both failures |
| `Transactions.Transaction.constructor` | kvserver/kv_transaction.c:40-59 | an active transaction without operations on the engine's present store |
| `Transactions.Transaction.Set` | kvserver/kv_transaction.c:89-118 | records the call and, at read-uncommitted level, performs it, adding only an absent key, with the old value noted |
| `Transactions.Transaction.Delete` | kvserver/kv_transaction.c:153-186 | the same for a deletion |
| `Transactions.Transaction.Modify` | kvserver/kv_transaction.c:189-224 | the same for a modification, refused when the engine lacks the key |
| `Transactions.Transaction.Commit` | kvserver/kv_transaction.c:227-260 | the engine holds the store of immediate or of deferred execution; only an active transaction commits |
| `Transactions.Transaction.Rollback` | kvserver/kv_transaction.c:263-319 | the engine holds the leftover store, which is the old one without modifications |
| `Election.Cluster.constructor` | kvserver/kv_cluster.c:38-64 | a node starts as follower in term 0 without a leader |
| `Election.Cluster.StartElection` | kvserver/kv_cluster.c:337-369 | a follower enters the next term, modulo 2^64, as candidate; alone in its cluster it leads at once; others are refused |
| `Election.Cluster.VoteFor` | kvserver/kv_cluster.c:372-405 | a vote exactly for a known candidate of a higher term; a higher term is taken over as follower in any case, and no other changes anything |
| `Election.Cluster.BecomeLeader` | kvserver/kv_cluster.c:408-427 | only a candidate takes leadership |
| `Election.Cluster.ProcessHeartbeat` | kvserver/kv_cluster.c:454-496 | a heartbeat of the same or a higher term makes a follower of that term and, if its sender is known, sets the leader to the first place of its id; an unknown sender leaves the leader; a lower term changes nothing |
| `Election.StepKeepsInv` | kvserver/kv_cluster.c:337-496 | without wrap-around no term falls and every node gives at most one vote per term, its own included |
| `Election.TermFallsIffWraps` | kvserver/kv_cluster.c:349-349 | a term falls in a step exactly if an election starts at the greatest 64-bit term |
| `Election.ElectionSafety` | kvserver/kv_cluster.c:353-355 | over any run, two different candidates never both gather node_count/2 + 1 votes in one term |
| `Election.OneLeaderPerTerm` | kvserver/kv_cluster.c:364-367 | a term has at most one leader if leadership is taken only with q votes and q is more than half of the nodes |
| `Election.OneLeaderExactlyWithMajority` | kvserver/kv_cluster.c:364-367 | for distinct ids and any number q of votes: all runs without wrap-around have one leader per term if and only if 2 q exceeds the number of nodes |
| `Election.TwoBlocks` | kvserver/kv_cluster.c:372-427 | with 2 q at most the number of nodes, two separate blocks of q voters make two leaders of one term |
| `Election.SafeExactlyWithoutWrap` | kvserver/kv_cluster.c:349-355 | for two or more distinct ids: election safety holds in all runs whose elections start below a term if and only if that term is at most the greatest one |
| `Election.WrappingBreaksSafety` | kvserver/kv_cluster.c:349-349 | once an election may start at the greatest term, any two members can both win term 1 |
| `Election.UnelectedLeaders` | kvserver/kv_cluster.c:408-427 | two candidates of one term can both take leadership without votes |
| `Wal.LittleRoundTrip` | kvserver/kv_persist.c:120-123 | an integer is read back modulo the width it was stored in |
| `Wal.LittleDigits` | kvserver/kv_persist.c:120-123 | byte i of a stored integer is its i-th digit to the base 256 |
| `Wal.RecordLayout` | kvserver/kv_persist.c:115-147 | the bytes of a record: number in 8 bytes, operation, size and key with its zero, size and value with its zero or size 0 |
| `Wal.KeptIffFits` | kvserver/kv_persist.c:116-117 | a record is kept as it was meant exactly if key and value sizes fit their 32-bit fields |
| `Wal.KeyIsCut` | kvserver/kv_persist.c:116-117 | the size of a key of 2^32 - 1 bytes wraps to 0, and the record is kept with an empty key |
| `Wal.ReadsRecord` | kvserver/kv_persist.c:176-228 | a printed record is read back whole, whatever bytes follow |
| `Wal.TornRecord` | kvserver/kv_persist.c:176-228 | a record cut anywhere is a short read that yields at most its sequence number |
| `Wal.SurvivorsAreLongest` | kvserver/kv_persist.c:176-228 | the survivors of a cut are the longest prefix of whole records |
| `Wal.CrashReplay` | kvserver/kv_persist.c:155-236 | for every log and every cut, recovery applies exactly the survivors, in order, with identical op, key and optional value |
| `Wal.NextIsAbove` | kvserver/kv_persist.c:187-190 | the counter ends above every number read exactly if the greatest 64-bit number is not among them |
| `Wal.CrashCounter` | kvserver/kv_persist.c:187-190 | for a log of fewer than 2^64 - 1 records and any cut, `next_seq` ends above every number read |
| `Wal.Log.constructor` | kvserver/kv_persist.c:42-75 | an empty log whose next number is 1 |
| `Wal.Log.Append` | kvserver/kv_persist.c:104-152 | one record more in the file, with the next number, which rises by 1, or -1 and nothing |
| `Wal.Recover` | kvserver/kv_persist.c:155-236 | the reading loop computes the replay of the bytes and its counter |
| `Ranges.PrefixIsRange` | kvserver/kv_range_query.c:149-204 | a key has the prefix exactly if it is not below it and below the bound, or there is no bound; also for the empty prefix |
| `Ranges.MatchesIff` | kvserver/kv_range_query.c:149-162 | a key matches if the prefix begins it or, without case sensitivity, if each byte of the prefix is that of the key or the same letter in the other case |
| `Ranges.PrefixNextKey` | kvserver/kv_range_query.c:177-204 | the edited buffer, read as a C string, is that bound; null exactly if there is none |
| `Ranges.LimitKeptIff` | kvserver/kv_range_query.c:228-252 | the page taken is the promised one if and only if a limit is given or at most 1000 entries remain after the offset |
| `Ranges.RangeScan` | kvserver/kv_range_query.c:209-347 | a forward scan returns the page, by offset and limit, of the entries in the range; with offset 0 and room for all, an entry has a row exactly if its key is above the start, or equal to an included start, and below the end, or equal to an included end; the page is the promised one if and only if a limit is given or at most 1000 entries remain after the offset |
| `Ranges.ScanWithIterator` | kvserver/kv_range_query.c:209-347 | the loop over the iterator computes that page |
| `Ranges.SelectedIff` | kvserver/kv_range_query.c:268-290 | an entry is in the range exactly if its key is above the start, or equal and included, and below the end, or equal and included |
| `Ranges.RowsAreTheRange` | kvserver/kv_range_query.c:268-330 | with room for all, exactly the entries of the range have rows, and rows are in strictly rising key order |
| `Ranges.ScanMeetsEnds` | kvserver/kv_range_query.c:268-290 | a scan of the keys "a" and "b" from "a" to "b" returns each end exactly if it is included |
| `Ranges.ScanStops` | kvserver/kv_range_query.c:228-252 | 1001 entries scanned without a limit give 1000 rows |
| `Ranges.KeepMatching` | kvserver/kv_range_query.c:446-462 | the in-place filter keeps exactly the matching rows, in order |
| `Ranges.NarrowPageIff` | kvserver/kv_range_query.c:437-462 | the page of exact matches is the page of all matches if and only if none is left after the offset or none up to the end of the page needs case ignored |
| `Ranges.PrefixPromiseIff` | kvserver/kv_range_query.c:402-473 | the rows of a prefix scan are those that limit and case sensitivity promise if and only if `KeepsPromise` holds of the entries, also when values are left out |
| `Ranges.PrefixScan` | kvserver/kv_range_query.c:402-473 | the scan returns the page of exactly the entries with the prefix, in key order, and what its options promise if and only if `KeepsPromise` holds |
| `Ranges.ScanMissesUpperCase` | kvserver/kv_range_query.c:437-462 | without case sensitivity the prefix "a" does not find the key "A" |
| `Ranges.MatchingIsSelected` | kvserver/kv_range_query.c:437-440 | filtering by prefix is filtering by the rewritten range |
| `Buckets.Bucket.Treeify` | kvserver/kvstore_hash.c:127-151 | the nodes of a full list are taken off it one by one into an ordered tree of the same nodes and entries |
| `Buckets.Bucket.Untreeify` | kvserver/kvstore_hash.c:154-182 | the nodes of a small tree are linked into a list of the same nodes and entries |
| `Buckets.Bucket.PutInto` | kvserver/kvstore_hash.c:357-434 | one bucket gets or updates the entry in place, links intact; lists hold at most 7, trees at least 7; it becomes a tree exactly if a list of 7 gets a new key |
| `Buckets.Bucket.Find` | kvserver/kvstore_hash.c:446-468 | the node of the key exactly if the bucket has one, with the node before it in a list |
| `Buckets.Bucket.DeleteFrom` | kvserver/kvstore_hash.c:486-553 | one bucket loses the entry, links intact, with the same bounds; a tree becomes a list exactly if it held 7 |
| `HashTables.HashTable.constructor` | kvserver/kvstore_hash.c:288-305 | 1024 empty list buckets represent the empty map |
| `HashTables.HashTable.Put` | kvserver/kvstore_hash.c:347-435 | the map changes at exactly the key; 1 exactly if it was present; the table doubles exactly if it was over three quarters full |
| `HashTables.HashTable.CheckCapacity` | kvserver/kvstore_hash.c:185-193 | afterwards the table is at most three quarters full, with the same map |
| `HashTables.HashTable.Rehash` | kvserver/kvstore_hash.c:196-285 | all entries move to twice the slots, the map is the same, and no re-insertion rehashes again |
| `HashTables.HashTable.Get` | kvserver/kvstore_hash.c:438-472 | the map's value, exactly if present |
| `HashTables.HashTable.Delete` | kvserver/kvstore_hash.c:480-556 | the map without exactly the key; -1 exactly if absent |
| `HashTables.HashTable.Modify` | kvserver/kvstore_hash.c:589-593 | like put, with -1 for a key that was absent |
| `HashTables.PutPart` | kvserver/kvstore_hash.c:353-355 | writing one bucket changes the represented map at that key only |
| `BloomSpec.SetBitIsExact` | kvserver/lsm_bloom_filter_optimized.c:852-862 | setting a bit switches on that bit and no other |
| `BloomSpec.AddedFinds` | kvserver/lsm_bloom_filter_optimized.c:893-1107 | in every layout an add makes its key test positive and no other key negative |
| `BloomSpec.NoFalseNegatives` | kvserver/lsm_bloom_filter_optimized.c:893-1107 | after any run of adds each added key tests positive, in all five layouts |
| `BloomExact.StandardIsExact` | kvserver/lsm_bloom_filter_optimized.c:1028-1038 | after any run of adds to an empty standard filter, a key tests positive if and only if it is not empty and each of its cells is a cell of some added key |
| `BloomExact.BlockedIsExact` | kvserver/lsm_bloom_filter_optimized.c:1039-1051 | the same within the block of the key, for added keys of that block |
| `BloomExact.RegistersAreExact` | kvserver/lsm_bloom_filter_optimized.c:1052-1063 | the same within the 64 bits of the key's register |
| `BloomExact.CountersAreExact` | kvserver/lsm_bloom_filter_optimized.c:1065-1073 | the same for counters that only rise |
| `BloomExact.LiveCountersAreExact` | kvserver/lsm_bloom_filter_optimized.c:1287-1333 | while counters are exact, also after removals, a key tests positive exactly if each of its cells is a cell of a live key |
| `BloomExact.ScalableIsExact` | kvserver/lsm_bloom_filter_optimized.c:1075-1095 | a key tests positive if and only if it is not empty and in some layer each of its cells is a cell of a key added while that layer was current |
| `BloomExact.ScalableGrows` | kvserver/lsm_bloom_filter_optimized.c:952-985 | layers double in size and room from one to the next, all but the last are full and the last is not over its room |
| `BloomExact.BlockCounts` | kvserver/lsm_bloom_filter_optimized.c:917-927 | the entry counter of a block rises by the number of keys added to it |
| `BloomExact.NewAnswersIff` | kvserver/lsm_bloom_filter_optimized.c:1013-1107 | an empty filter answers yes exactly to non-empty keys for which it has no cell to test: with no hash, or with one in the blocked and register layouts |
| `BloomSpec.AddExactIff` | kvserver/lsm_bloom_filter_optimized.c:942-950 | an add keeps the counters exact precisely if no load exceeds what a counter holds |
| `BloomSpec.RemoveExact` | kvserver/lsm_bloom_filter_optimized.c:1314-1323 | removing a live key leaves exact counters for the others |
| `BloomSpec.LiveKeysAreFound` | kvserver/lsm_bloom_filter_optimized.c:1287-1333 | after any legal run of adds and removes every live key tests positive |
| `BloomSpec.SaturationForgets` | kvserver/lsm_bloom_filter_optimized.c:942-950 | for every counter maximum: so many adds of one key, an add of another and so many removes of the first leave the second live and negative; such a run is not legal |
| `BloomSpec.CountersForget` | kvserver/lsm_bloom_filter_optimized.c:727-727 | the same at the maximum the code sets, 2^32 - 1 |
| `BloomSpec.BatchIsAddsIff` | kvserver/lsm_bloom_filter_optimized.c:1132-1174 | a batch leaves what single adds leave if and only if the layout is standard, blocked or of registers, or all keys are empty |
| `BloomSpec.EntriesCount` | kvserver/lsm_bloom_filter_optimized.c:987-1000 | a filter counts the keys it took, which are those that are not empty |
| `BloomSpec.BlockBitsFitIff` | kvserver/lsm_bloom_filter_optimized.c:673-688 | each bit of a block has a place in its bytes if and only if 8 divides the block size |
| `Bloom.ComputeHashes` | kvserver/lsm_bloom_filter_optimized.c:865-891 | there are as many hashes as configured, and the i-th is (h1 + i * h2) modulo 2^64 |
| `Bloom.BitFilter.Add` | kvserver/lsm_bloom_filter_optimized.c:893-1010 | standard, blocked and scalable layouts: the filter state becomes the specified one; an empty key is refused |
| `Bloom.BitFilter.Contains` | kvserver/lsm_bloom_filter_optimized.c:1013-1107 | the test of the specification, over blocks or all layers, whose answer is told exactly by `BloomExact` |
| `Bloom.BitFilter.constructor` | kvserver/lsm_bloom_filter_optimized.c:635-692 | an empty filter with all bits zero, in which every bit has a place if and only if it is not blocked or 8 divides the block size |
| `Bloom.BitFilter.SetInBatch` | kvserver/lsm_bloom_filter_optimized.c:1132-1174 | the switch of the batch sets exactly the bits, and counts the block entry, of a single add; other layouts are left alone |
| `Bloom.BitFilter.AddBatch` | kvserver/lsm_bloom_filter_optimized.c:1111-1193 | the batch code leaves the state of adding one by one and returns how many of the keys are not empty, for the standard and the blocked layout, else nothing and 0 |
| `Bloom.NewFindsNothing` | kvserver/lsm_bloom_filter_optimized.c:1013-1038 | a new standard filter of 1024 bits with a hash answers no to every key |
| `Bloom.NewFindsAnything` | kvserver/lsm_bloom_filter_optimized.c:1039-1051 | a new blocked filter with one hash answers yes to every non-empty key |
| `Bloom.RegisterFilter.Add` | kvserver/lsm_bloom_filter_optimized.c:928-940 | register layout: the mask is merged into the register |
| `Bloom.RegisterFilter.Contains` | kvserver/lsm_bloom_filter_optimized.c:1052-1063 | the register covers the mask |
| `Bloom.RegisterFilter.AddBatch` | kvserver/lsm_bloom_filter_optimized.c:1154-1166 | the batch code for registers leaves the state of adding one by one and returns how many of the keys are not empty |
| `Bloom.CountingFilter.Add` | kvserver/lsm_bloom_filter_optimized.c:942-950 | counters of the key's cells rise unless full |
| `Bloom.CountingFilter.Contains` | kvserver/lsm_bloom_filter_optimized.c:1065-1073 | all counters of the key's cells are positive |
| `Bloom.CountingFilter.AddBatch` | kvserver/lsm_bloom_filter_optimized.c:1168-1172 | a batch adds nothing to a counting filter and returns 0 |
| `Bloom.CountingFilter.Remove` | kvserver/lsm_bloom_filter_optimized.c:1287-1333 | if all counters of the key's cells were positive, each counter falls by the number of hashes that hit it, but not below 0; else not found and nothing changes |
| `LruSpec.RunIsGood` | kvserver/kv_cache.c:1076-1352 | after any run: distinct keys, last-touch order, no stale value, and a positive limit is never exceeded |
| `LruSpec.StepFresh` | kvserver/kv_cache.c:1205-1300 | every cached value stays the one last set for its key |
| `LruSpec.EvictsOldest` | kvserver/kv_cache.c:557-633 | a set drops exactly the items touched longest ago, as many as configured |
| `LruSpec.RunIsLeastRecentlyUsed` | kvserver/kv_cache.c:1076-1352 | after any run the items stand in the order in which the run last set or found their keys, so that an eviction drops those used longest ago |
| `LruSpec.DeleteIs` | kvserver/kv_cache.c:1311-1352 | a delete takes out exactly the items of its key |
| `LruSpec.SetBoundedIff` | kvserver/kv_cache.c:1186-1202 | a set keeps the limit exactly if it evicts when full, or the cache is not full, or the key is present |
| `LruSpec.PresentKeyCostsNothingIff` | kvserver/kv_cache.c:1186-1202 | a set of a present key keeps every other entry if and only if the cache is not full, the eviction drops nothing, or it drops the entry of the key alone |
| `LruSpec.SetIsSeenIff` | kvserver/kv_cache.c:96-101 | what a get at any time returns of a key just set: the value exactly while the time to live, counted from the creation of the entry, has not run out, else nothing |
| `LruSpec.SetComesFirst` | kvserver/kv_cache.c:1204-1291 | after a set the key comes first with the value and time to live set; an entry that was there keeps its creation time |
| `LruSpec.SetIsMissed` | kvserver/kv_cache.c:96-101 | an entry of time 0, set at time 10 to live for 5, is missed by a get at time 10 |
| `CacheHeap.RecencyList.MoveToHead` | kvserver/kv_cache.c:431-469 | the entry comes first, the others keep their order, `prev`, `next`, head and tail agree |
| `CacheHeap.RecencyList.AddToHead` | kvserver/kv_cache.c:471-492 | a new first entry |
| `CacheHeap.RecencyList.RemoveTail` | kvserver/kv_cache.c:494-522 | the last entry leaves |
| `CacheHeap.RecencyList.RemoveEntry` | kvserver/kv_cache.c:524-552 | the entry leaves, the others keep their order |
| `CacheHeap.Table.Find` | kvserver/kv_cache.c:315-339 | the entry of the key exactly if a chain holds it and its hash under the table's seed is the one the entry carries |
| `CacheHeap.Table.Insert` | kvserver/kv_cache.c:341-369 | a new key heads the chain of the hash it carries; a present one is refused |
| `CacheHeap.Table.Remove` | kvserver/kv_cache.c:371-400 | exactly the entry of the key leaves its chain, if the two hashes of the key agree; else nothing |
| `LruCache.Cache.Evict` | kvserver/kv_cache.c:557-633 | the last entries leave list and counter, and the chains too if and only if the two hashes of all their keys agree |
| `LruCache.Cache.Cleanup` | kvserver/kv_cache.c:640-683 | exactly the expired entries leave both structures; the others keep their order and touches |
| `LruCache.Cache.Get` | kvserver/kv_cache.c:1076-1161 | a live entry is returned and moved to the front as the latest touch, so that its key comes first; an expired or absent key, or one whose two hashes differ, is not found |
| `LruCache.Cache.Set` | kvserver/kv_cache.c:1163-1309 | room is made first, on a full cache by dropping the greater of the configured and the least batch, then the entry is updated or added at the front as the latest touch, or a present key whose hashes differ is refused; sizes are bounded by 1024 and 1024 * 1024; both structures and the counter agree if and only if the hashes of all evicted keys do; when a present key costs another entry is told from the cache before |
| `LruCache.Cache.Delete` | kvserver/kv_cache.c:1311-1352 | exactly the entry of the key leaves, if the two hashes of the key agree; touches stay |
| `LruRuns.Run` | kvserver/kv_cache.c:1076-1352 | any run of calls under the default seed, at any times, refines the list specification; no value is stale and a positive limit is never exceeded where evictions drop something |
| `LruRuns.RunNew` | kvserver/kv_cache.c:894-1026 | the same from a new cache, with the limit kept from the start |
| `LruRuns.SetThenGet` | kvserver/kv_cache.c:1204-1291 | a key that was set is seen by a get if and only if its two hashes agree and it has not expired, with the value set |
| `LruRuns.SetButMissed` | kvserver/kv_cache.c:96-101 | calls by which a value just set is not found |
| `LruRuns.SetCostsOther` | kvserver/kv_cache.c:1186-1202 | calls by which setting a present key again makes another key disappear |
| `LruRuns.OtherSeedLoses` | kvserver/kv_cache.c:909-911 | under a seed for which the hashes of a key differ, the key set is not found, and its eviction leaves it in the table |

## Left out

- BTreeEngine.BTree.Insert: does not model an empty key, for which the copy helper returns null and a null key would enter the leaf.
- BTreeEngine.BTree.Delete: does not promise the minimum fill where `GivesUp` holds, because the code loses it there.
- HashTables.HashTable.Put: takes the load factor over the rationals, without the rounding of single-precision division above 2^24 entries and without overflow of the slot count.
- Buckets.Bucket.Treeify: models the tree adapter by its ordered-map contract, as the nodes it holds in key order; its own red-black code is not captured.
- Buckets.Bucket.Untreeify: does not say which nodes the destruction of the adapter frees, because memory is not modelled as freed.
- Bloom.BitFilter.Add: takes block and register masks of powers of two as remainders, and requires a block size divisible by 8, because the code writes outside its memory otherwise.
- Transactions.Transaction.Commit: assumes that nothing else changes the engine between the calls of one transaction.
- LruCache.Cache.Set: takes the rounded product of limit and eviction factor as a number, and the running state, locks and statistics other than `current_entries` as given; of an eviction of keys whose hashes differ it says only that destroyed entries stay in the table, because what the code reads there afterwards is undefined memory.
- LruRuns.Run: is about the default seed, because under another one a run can reach that undefined memory; single calls are covered for every seed.
- Ranges.RangeScan: does not model the time limit, reverse scans, `has_more` or engines with native scans.
- Wal.Log.Append: does not model a write() that fails or is short, after which part of a record stays in the file; on Linux one write() passes at most 0x7ffff000 bytes, so that a key or value beyond that fails the append before its size field wraps.
- Wal.Recover: reads one file; directory scans, compaction, and appending after a torn tail are not modelled.
- Allocation failure, locks (except as step borders of the coordinator), reference counts, statistics and version fields.
- The B+tree's `btree_node_insert_at` on inner nodes, which the insertion path does not use.
- `txn_get`, which returns the first matching operation and so has no read-your-writes.
- Liveness and counters of the coordinator, its node list and heartbeats.
- Cluster membership changes, shard placement and log replication.
- The CLOCK, ARC, LFU, FIFO and random cache policies and `hashtable->entry_count`.
- Bloom filter sizing by floating point, serialization and statistics.
- The array engine, pools, snapshots, LSM files, network, coroutine and configuration code.
