# Verified models of the FUSE runtime, the kernel heap and TagFS

This Dafny project models the parts of the repository where state is hardest to keep right, and proves what they keep.
`dafny verify dfyconfig.toml` checks all of it.

**The node cache and lock manager of the FUSE runtime** (`tagfs/FUSE_driver/libfuse/lib/fuse.c`)

- `LinearHash.dfy`: the two hash tables that grow and shrink one bucket at a time (linear hashing). The bucket chains are
  a sequence of lists; every operation is proved to act on a finite map.
- `Forest.dfy`, `NodeIds.dfy`, `NodeCache.dfy`: the tree of reference-counted nodes over those maps: lookup, forget,
  unlink, rename, exchange, the identity counter and the loop check before a rename.
- `TreeLocks.dfy`: the path locks. One `treelock` integer per node counts readers, marks the writer (-1) or adds the
  waiting offset (INT_MIN); blocked requests wait in a queue that every release retries. A step is one section under
  `f->lock`, and the invariant is proved over every interleaving of steps.
- `DeletedNodes.dfy`: cache and locks together: which nodes leave the cache, and that they leave it unlocked.
- `PathNames.dfy`: the path printer, which fills a growing buffer from right to left, and the parser.
- `PosixLocks.dfy`: the byte-range lock list, against the record of the latest request at each byte (`fcntl()` in the
  System Interfaces volume of POSIX.1-2017).
- `BufVec.dfy`, `WorkerPool.dfy`: scatter/gather copies (`buffer.c`) and the accounting of the worker pool
  (`fuse_loop_mt.c`).

**The kernel heap and its page frames** (`src/std/memory.c`, `src/kernel/page_frame_allocator.c`)

- `KernelHeap.dfy`: memory is a map from word addresses. Free segments keep their headers and live blocks their lengths in
  it, so that a header overwritten by a neighbour would show. Address 0 is ordinary mapped memory outside the heap, and the
  code does write to it.
- `PageFrames.dfy`: the frame bitmap, the page tables and the page directory, read back by a two-level table walk as in
  section 4.3 of volume 3A of the Intel SDM.

**The TagFS image** (`tagfs/tfsfmt/src/tfsfmt.c`, `tagfs/FUSE_driver/src/tagfs.c`, `tagfs/utils.c`)

- `TagFs.dfy`: the FAT, the file metadata and the data sectors, the writer of the formatting tool and the reader, creator,
  one-sector writer and unlinker of the driver. Each file has a chain of sectors as ghost state.
- `TagTables.dfy`: the tag tables and the layout of the sections.

`Options.dfy` holds the option type.

## Where the code does not do what it promises

Each of these is stated with the exact condition under which the promise holds.

- `exchange_node` on one entry under one name hashes it twice and spoils the counts (`NodeCache.Cache.ExchangeNode`).
- `check_dir_loop` lets a node be moved directly under itself (`NodeCache.LoopCheckGap`).
- Locking two paths that are in each other's way is never granted; the request waits for as long as the tree stays as it
  is (`TreeLocks.SelfConflictNeverGranted`, `TreeLocks.GrantedWhenFree`). A node that such a request names twice can be
  forgotten, and then a request that could be granted is left waiting until the next release (`TreeLocks.LeftWaiting`);
  nothing else leaves one behind (`TreeLocks.NoneForgottenKept`).
- The pair of node id and generation repeats exactly after multiples of 2^64 turns (`NodeIds.IdentitiesRepeat`).
- `delete_node` asserts that its node is unlocked. That can fail only for a node under a write lock
  (`DeletedNodes.LeavingUnlocked`), and does not while write-locked nodes are looked up
  (`DeletedNodes.ForgetDeletesUnlocked`).
- `fuse_buf_copy` leaves the destination cursor behind by the last run exactly when it comes to the end of the source with
  a last piece that is not empty (`BufVec.FuseBufCopy`, `BufVec.LagsByLength`, `BufVec.LagExample`).
- A forget taken by the only waiting worker leaves nobody to receive the next request, whatever room the pool has
  (`WorkerPool.ForgetSilences`; `WorkerPool.SomeoneListens` says exactly when somebody is left).
- A lock length that reaches the last offset comes back as 0, "to the end" (`PosixLocks.FlockRoundTrip`).
- The heap's growth runs into live blocks when one starts in the range it grows into (`KernelHeap.GrowthIsSafe`,
  `KernelHeap.GrowthOverlaps`, `KernelHeap.GrowthOverlapReached`); `memory_free` never returns when no free segment lies above the block
  (`KernelHeap.InsertLoopEnds`) and leaks the block when no segment is free (`KernelHeap.Heap.Free`); the size arithmetic
  wraps for sizes above 2^32 - 16 (`KernelHeap.SizesHandled`); the bytes that rounding or an exact fit adds are lost on
  free (`KernelHeap.AllocateFreeRoundTrip`, `KernelHeap.ExactFitRoundTrip`).
- The bitmap's last 512 bits stand for frames below 2 MiB (`PageFrames.FrameAboveReserved`), and memory past the end of the
  memory map counts as available (`PageFrames.InitIsExact`).
- `tagfs_read` past the end of a file returns too many bytes or leaves the chain (`TagFs.Image.Read`); an append at a
  sector boundary fails (`TagFs.Image.WriteSector`); `tagfs_unlink` is right for one sector only (`TagFs.UnlinkIsRight`).
- The empty tag name is no tag: it gets the id that the next new tag inherits (`TagTables.NamesATag`,
  `TagTables.EmptyNameInherited`).

Where the documentation and the code differ, the model follows the code: `tagfs/docs.md` puts `sector_size` before
`sector_count`, calls `first_data_sector` an index plus one and gives `file_id` four bytes in the tag map; the code has
`sector_count` first, a plain index and two bytes.

## Model

| member | source | states |
|---|---|---|
| PosixLocks.LockList.Insert | tagfs/FUSE_driver/libfuse/lib/fuse.c:3999-4071 | the list stays canonical (sorted, disjoint, equal types never touching), and for every owner and byte the recorded type becomes the requested one inside the range and stays what it was elsewhere; at most two spare cells are used, one for an unlock, and none for an unlock of everything; nothing changes if one lock of that type already covers the request, and otherwise the bytes of the request, and those merged with it, carry its pid and all others the pid they had |
| PosixLocks.LockList.CutAt | tagfs/FUSE_driver/libfuse/lib/fuse.c:4034-4061 | the branch for a lock of another type: it goes, or loses its end, its start or its middle, and only the last needs a second cell |
| PosixLocks.PutIn | tagfs/FUSE_driver/libfuse/lib/fuse.c:4062-4066 | placing the request completes both what is locked and whose lock it is |
| PosixLocks.Absorb | tagfs/FUSE_driver/libfuse/lib/fuse.c:4022-4033 | taking a touching lock of the same type into the request keeps the loop invariant that earlier bytes are already as they should be |
| PosixLocks.Cut | tagfs/FUSE_driver/libfuse/lib/fuse.c:4034-4061 | cutting, splitting or removing an overlapping lock of another type keeps that invariant |
| PosixLocks.Place | tagfs/FUSE_driver/libfuse/lib/fuse.c:4062-4066 | linking the request in at the position found completes the overwrite |
| PosixLocks.Contained | tagfs/FUSE_driver/libfuse/lib/fuse.c:4027-4028 | a request inside an equal lock already is what is recorded, so stopping early is right |
| PosixLocks.LockList.Conflict | tagfs/FUSE_driver/libfuse/lib/fuse.c:3973-3984 | returns the first conflicting lock, or none if none conflicts |
| PosixLocks.LockList.GetLk | tagfs/FUSE_driver/libfuse/lib/fuse.c:4180-4203 | an answer is given exactly when another owner holds a byte asked for in a way that cannot be shared, and names such a lock by its range, type and pid |
| PosixLocks.ConflictMeaning | tagfs/FUSE_driver/libfuse/lib/fuse.c:3973-3984 | a conflict is found exactly when some byte of the request is held by another owner with an incompatible type |
| PosixLocks.ConflictFreeKept | tagfs/FUSE_driver/libfuse/lib/fuse.c:3999-4071 | inserting after a search that found no conflict leaves the list free of conflicts between owners |
| PosixLocks.RunRecordsLatest | tagfs/FUSE_driver/libfuse/lib/fuse.c:3999-4071 | after any run of requests each byte records the latest request that covers it |
| PosixLocks.FlockRoundTrip | tagfs/FUSE_driver/libfuse/lib/fuse.c:4073-4090 | conversion to an inclusive range and back is the identity exactly when a non-zero length does not reach the last offset |
| PosixLocks.FlockMeans | tagfs/FUSE_driver/libfuse/lib/fuse.c:4073-4081 | the request covers exactly the bytes asked for, for the owner it is given, with the type and pid asked for |
| PosixLocks.LockRoundTrip | tagfs/FUSE_driver/libfuse/lib/fuse.c:4073-4090 | a lock reported and read back is the same lock |
| LinearHash.SlotActive | tagfs/FUSE_driver/libfuse/lib/fuse.c:513-522 | every hash names a bucket below size/2 + split |
| LinearHash.SlotSplit | tagfs/FUSE_driver/libfuse/lib/fuse.c:648-675 | advancing split moves entries of one bucket only, to itself or its twin |
| LinearHash.SlotReshape | tagfs/FUSE_driver/libfuse/lib/fuse.c:574-588 | doubling or halving the array changes no entry's bucket |
| LinearHash.NameBucket | tagfs/FUSE_driver/libfuse/lib/fuse.c:688-703 | the loop over the name computes the 64-bit hash by which the name table is keyed |
| LinearHash.NewTables | tagfs/FUSE_driver/libfuse/lib/fuse.c:4932-4944 | both tables start empty, keyed by the two hash functions |
| LinearHash.InactiveEmpty | tagfs/FUSE_driver/libfuse/lib/fuse.c:513-522 | buckets from size/2 + split upward are empty |
| LinearHash.SplitDone | tagfs/FUSE_driver/libfuse/lib/fuse.c:658-672 | after the split loop every entry is in the bucket its new hash names and the table holds the same map |
| LinearHash.MergedBuckets | tagfs/FUSE_driver/libfuse/lib/fuse.c:598-613 | appending the twin's chain is the inverse step, with the same map |
| LinearHash.DoubledBuckets | tagfs/FUSE_driver/libfuse/lib/fuse.c:631-646 | a doubled array with split 0 holds the same map |
| LinearHash.HalvedBuckets | tagfs/FUSE_driver/libfuse/lib/fuse.c:574-588 | a halved array with split at half holds the same map |
| LinearHash.Table.Lookup | tagfs/FUSE_driver/libfuse/lib/fuse.c:524-534 | returns exactly what the abstract map holds for the key |
| LinearHash.Table.Insert | tagfs/FUSE_driver/libfuse/lib/fuse.c:677-686 | adds the key to the map and nothing else; entries never outnumber active buckets while reallocation succeeds; one more bucket comes into use exactly when half the table's size is reached and it is not fully split |
| LinearHash.Table.Remove | tagfs/FUSE_driver/libfuse/lib/fuse.c:616-629 | removes exactly the entry of that key and value and keeps the load bound; buckets are given up exactly when the entries fall below a quarter of the size |
| LinearHash.Table.Rehash | tagfs/FUSE_driver/libfuse/lib/fuse.c:648-675 | one more active bucket, the same map, and split back below size/2 after a doubling |
| LinearHash.Table.Remerge | tagfs/FUSE_driver/libfuse/lib/fuse.c:590-614 | gives up at most eight buckets, all but the last of them empty, and none exactly for the smallest table; the same map, and the load bound kept |
| LinearHash.Table.Resize | tagfs/FUSE_driver/libfuse/lib/fuse.c:631-646 | the map survives a doubling and a failed one |
| LinearHash.Table.Reduce | tagfs/FUSE_driver/libfuse/lib/fuse.c:574-588 | the map survives a halving and a refused one |
| Forest.ReparentAcyclic | tagfs/FUSE_driver/libfuse/lib/fuse.c:1422-1456 | moving a node keeps the tree free of cycles exactly when its new parent is not in its own subtree |
| Forest.ExchangeAcyclic | tagfs/FUSE_driver/libfuse/lib/fuse.c:1458-1487 | exchanging two places makes no cycle when neither goes below itself |
| NodeIds.NextId | tagfs/FUSE_driver/libfuse/lib/fuse.c:838-847 | the first acceptable identity after the counter, within 2^32 turns |
| NodeIds.SearchStops | tagfs/FUSE_driver/libfuse/lib/fuse.c:838-847 | the search ends exactly when some identity is unused |
| NodeIds.IdLeft | tagfs/FUSE_driver/libfuse/lib/fuse.c:838-847 | fewer than 2^32 - 2 live nodes leave an identity unused |
| NodeIds.StepPosition | tagfs/FUSE_driver/libfuse/lib/fuse.c:838-847 | the pair (generation, counter) advances by one at each turn, and the generation changes exactly at the wrap |
| NodeIds.IdentitiesRepeat | tagfs/FUSE_driver/libfuse/lib/fuse.c:838-847 | two searches of a run end at the same pair exactly when the turns between them are a multiple of 2^64 |
| NodeIds.IdentitiesFresh | tagfs/FUSE_driver/libfuse/include/fuse_kernel.h:692-694 | so no pair is issued twice in a run of fewer than 2^64 turns |
| NodeIds.HistoryUnique | tagfs/FUSE_driver/libfuse/include/fuse_kernel.h:692-694 | the same of the identities one cache has issued since its start, none of which has the id of the root |
| NodeCache.Cache.constructor | tagfs/FUSE_driver/libfuse/lib/fuse.c:5078-5103 | the cache starts consistent with the root alone |
| NodeCache.Cache.UnrefNode | tagfs/FUSE_driver/libfuse/lib/fuse.c:830-836 | drops one reference; the delete cascade ends because it climbs, and leaves nodes deeper than its start alone |
| NodeCache.Cache.DeleteNode | tagfs/FUSE_driver/libfuse/lib/fuse.c:816-828 | removes a node without references and passes the loss on to its parent |
| NodeCache.Cache.UnhashName | tagfs/FUSE_driver/libfuse/lib/fuse.c:733-759 | the node loses its name and its parent the reference; all other counts stay right |
| NodeCache.NamePlaced | tagfs/FUSE_driver/libfuse/lib/fuse.c:790-814 | a node that gets a free name keeps both tables linked and every count right, its parent one reference richer |
| NodeCache.Cache.FindNode | tagfs/FUSE_driver/libfuse/lib/fuse.c:870-907 | returns the cached node with its count of lookups one higher and all else, the counter included, as it was, or a new one, looked up once, whose identity is where the counter has moved on to; keeps every reference count equal to hashed children plus one if looked up |
| NodeCache.Cache.MakeNode | tagfs/FUSE_driver/libfuse/lib/fuse.c:876-896 | the new node gets the first free identity after the counter, which joins the history of identities issued |
| NodeCache.Cache.ForgetNode | tagfs/FUSE_driver/libfuse/lib/fuse.c:1364-1400 | the nodes that survive are exactly those with a looked-up node at or below them; the root always survives |
| NodeCache.LookupsBalance | tagfs/FUSE_driver/libfuse/lib/fuse.c:863-868 | over any run of lookups, forgets and changes of names, a cached node's count is the lookups answered with it less those given back |
| NodeCache.Cache.RemoveNode | tagfs/FUSE_driver/libfuse/lib/fuse.c:1411-1420 | the name is gone and the cache consistent; other places stay |
| NodeCache.Cache.RenameNode | tagfs/FUSE_driver/libfuse/lib/fuse.c:1422-1456 | the node has the new name, whatever had it is off the tree, all else keeps its place; -EBUSY exactly when a hidden name is taken, with no change |
| NodeCache.Cache.ExchangeNode | tagfs/FUSE_driver/libfuse/lib/fuse.c:1458-1487 | both places are exchanged and the cache consistent exactly unless both names are one existing entry |
| NodeCache.HashedTwice | tagfs/FUSE_driver/libfuse/lib/fuse.c:1458-1487 | hashing a node twice under one name breaks the counts |
| NodeCache.KeptForALookup | tagfs/FUSE_driver/libfuse/lib/fuse.c:816-836 | no leaks: under every cached node there is a looked-up one |
| NodeCache.CascadeExact | tagfs/FUSE_driver/libfuse/lib/fuse.c:816-836 | after any operation, whatever it moved: the nodes left are exactly those at or above a looked-up one in the new tree |
| NodeCache.SurvivorsExact | tagfs/FUSE_driver/libfuse/lib/fuse.c:816-836 | for an operation that only drops nodes: those needed by a lookup survive and no others |
| NodeCache.ForgetExact | tagfs/FUSE_driver/libfuse/lib/fuse.c:1364-1400 | the same for one forget, whose count of lookups it takes away |
| NodeCache.RemoveExact | tagfs/FUSE_driver/libfuse/lib/fuse.c:1411-1420 | the same for a removed name, in terms of the tree and the lookups before |
| NodeCache.RenameExact | tagfs/FUSE_driver/libfuse/lib/fuse.c:1422-1456 | the same for a rename |
| NodeCache.ExchangeExact | tagfs/FUSE_driver/libfuse/lib/fuse.c:1458-1487 | the same for an exchange |
| NodeCache.ExchangeRank | tagfs/FUSE_driver/libfuse/lib/fuse.c:1458-1487 | after an exchange parents still rank above their children |
| NodeCache.Cache.CheckDirLoop | tagfs/FUSE_driver/libfuse/lib/fuse.c:1248-1284 | refuses exactly when one of the two nodes hangs strictly above the other (for the target only if it is cached) |
| NodeCache.Cache.WalkMeets | tagfs/FUSE_driver/libfuse/lib/fuse.c:1261-1268 | the upward walk meets a node exactly when that node is named and strictly above the start |
| NodeCache.LoopCheckGap | tagfs/FUSE_driver/libfuse/lib/fuse.c:1248-1284 | once the check passes, the rename makes a cycle exactly when a node is moved directly under itself to an uncached name |
| TreeLocks.GrantKeepsLocks | tagfs/FUSE_driver/libfuse/lib/fuse.c:993-1063 | a granted request leaves every treelock equal to its count of held readers, writer and waiting mark |
| TreeLocks.TargetIs | tagfs/FUSE_driver/libfuse/lib/fuse.c:1020-1032 | the node a request write-locks is the one that hangs at its name, if it asks for that |
| TreeLocks.ChainIs | tagfs/FUSE_driver/libfuse/lib/fuse.c:1034-1052 | a path goes through exactly the nodes from the one asked for up to the root, the root left out |
| TreeLocks.TryMeans | tagfs/FUSE_driver/libfuse/lib/fuse.c:993-1073 | an attempt is granted, has to wait or is stale exactly under stated conditions on the locks of those nodes, and changes exactly their treelocks: one reader more, -1 at the written one, or a mark where readers are in a writer's way |
| TreeLocks.FailureKeepsLocks | tagfs/FUSE_driver/libfuse/lib/fuse.c:1020-1073 | a failed request has given back all its locks; at most a waiting mark stays, on a node with readers, and none when it gives up |
| TreeLocks.HeldStates | tagfs/FUSE_driver/libfuse/lib/fuse.c:972-991 | the assertions of the release walk hold: what it unlocks is locked |
| TreeLocks.ReleaseKeepsLocks | tagfs/FUSE_driver/libfuse/lib/fuse.c:972-991 | walking the parents again releases exactly the locks that the path took |
| TreeLocks.ReleaseMeans | tagfs/FUSE_driver/libfuse/lib/fuse.c:972-991 | node by node: one reader less, a waiting mark taken away by the last of them only, the written node free, nothing else changed |
| TreeLocks.UndoGrant | tagfs/FUSE_driver/libfuse/lib/fuse.c:1045-1067 | taking a path's locks and giving them back restores every treelock, up to new waiting marks |
| TreeLocks.RollbackMarked | tagfs/FUSE_driver/libfuse/lib/fuse.c:1075-1094 | giving the first of two paths back after the second failed leaves at most waiting marks |
| TreeLocks.DemandKeepsLocks | tagfs/FUSE_driver/libfuse/lib/fuse.c:1075-1094 | requests for two paths are all or nothing |
| TreeLocks.DemandMeans | tagfs/FUSE_driver/libfuse/lib/fuse.c:1075-1094 | one or two paths are granted exactly when nothing stands in the way of either before, they do not block each other and both lead to the root; and exactly when they have to wait |
| TreeLocks.AgainStays | tagfs/FUSE_driver/libfuse/lib/fuse.c:993-1063 | what fails with -EAGAIN still fails when treelocks have only become harder |
| TreeLocks.DemandAgainStays | tagfs/FUSE_driver/libfuse/lib/fuse.c:1075-1094 | the same for requests for two paths |
| TreeLocks.DemandHarder | tagfs/FUSE_driver/libfuse/lib/fuse.c:1075-1094 | a request, granted or not, makes locking harder for everybody else, never easier |
| TreeLocks.PollKeeps | tagfs/FUSE_driver/libfuse/lib/fuse.c:1096-1126 | retrying one waiter settles it and changes no other waiter |
| TreeLocks.DemandAnswers | tagfs/FUSE_driver/libfuse/lib/fuse.c:1075-1094 | an answer of success comes exactly with one grant for each path asked for, -ESTALE exactly with none because a node is not attached |
| TreeLocks.PollTurns | tagfs/FUSE_driver/libfuse/lib/fuse.c:1096-1126 | a waiter is answered exactly when its request does not have to wait any more, with the right answer; a waiting forget is told exactly when its node is unlocked; other waiters do not change |
| TreeLocks.PassKeeps | tagfs/FUSE_driver/libfuse/lib/fuse.c:1128-1134 | a pass keeps every waiter in its place, every answer given and every path held |
| TreeLocks.FirstInLine | tagfs/FUSE_driver/libfuse/lib/fuse.c:1128-1134 | the first waiting request is decided on the locks as they are when the pass begins |
| TreeLocks.NoMissedWakeup | tagfs/FUSE_driver/libfuse/lib/fuse.c:1128-1134 | after the pass over the queue every request not marked done would fail again |
| TreeLocks.StepKeepsInvariant | tagfs/FUSE_driver/libfuse/lib/fuse.c:972-1134 | every acquire, release, dequeue and tree change keeps the invariant |
| TreeLocks.RunKeepsInvariant | tagfs/FUSE_driver/libfuse/lib/fuse.c:972-1134 | the invariant holds in every state of every run |
| TreeLocks.Exclusion | tagfs/FUSE_driver/libfuse/lib/fuse.c:972-1073 | -1 marks exactly one held write lock whose node is on no held path; a waiting mark never outlives the readers; 0 means nothing held |
| TreeLocks.WaitersStaySettled | tagfs/FUSE_driver/libfuse/lib/fuse.c:1096-1134 | a release settles every waiter, and no later acquire or dequeue unsettles one |
| TreeLocks.SelfConflictNeverGranted | tagfs/FUSE_driver/libfuse/lib/fuse.c:1082-1083 | two paths that block each other are never granted, in any state of the locks, and wait once the first can be had |
| TreeLocks.GrantedWhenFree | tagfs/FUSE_driver/libfuse/lib/fuse.c:1075-1094 | with nothing held, a request is granted exactly when its nodes are attached and it does not block itself, and waits exactly when its first path can be had and bars the second |
| TreeLocks.NoneForgottenKept | tagfs/FUSE_driver/libfuse/lib/fuse.c:1096-1134 | no step, changes of the tree included, leaves a waiter that could be served with nothing held, except exactly the removal of a node that a waiting request names twice |
| TreeLocks.LeftWaiting | tagfs/FUSE_driver/libfuse/lib/fuse.c:1364-1400 | such a removal: the request could now be granted and nobody tries it again |
| TreeLocks.OnlySelfBlockedWait | tagfs/FUSE_driver/libfuse/lib/fuse.c:972-1362 | in every state of every run without such a removal: with nothing held, the only requests still waiting block themselves |
| TreeLocks.PathLocks.UnlockPath | tagfs/FUSE_driver/libfuse/lib/fuse.c:972-991 | gives back the write lock and one read lock at each node up to the end, clearing a waiting mark with the last reader |
| TreeLocks.PathLocks.TryGetPath | tagfs/FUSE_driver/libfuse/lib/fuse.c:993-1073 | the locking and roll-back loops compute the outcome and treelocks of the specification; a write request locks the node of its name: that node was free and is at -1 when granted, and if it was not free the answer is -EAGAIN |
| TreeLocks.PathLocks.TryGetPaths | tagfs/FUSE_driver/libfuse/lib/fuse.c:1075-1094 | likewise for two paths |
| TreeLocks.PathLocks.QueueElementWakeup | tagfs/FUSE_driver/libfuse/lib/fuse.c:1096-1126 | retries one element as specified, and hands its thread success exactly with its paths and -ESTALE exactly without |
| TreeLocks.PathLocks.WakeUpQueued | tagfs/FUSE_driver/libfuse/lib/fuse.c:1128-1134 | retries every element in order |
| TreeLocks.PathLocks.GetPaths | tagfs/FUSE_driver/libfuse/lib/fuse.c:1188-1209 | the caller gets its paths, gives up or is queued: exactly the acquire step of the model, with the invariant kept; success exactly with its paths, -ESTALE exactly without, and a place at the end of the queue otherwise |
| TreeLocks.PathLocks.FreePaths | tagfs/FUSE_driver/libfuse/lib/fuse.c:1334-1362 | the release step of the model; afterwards every waiter is settled; exactly the paths named are given up, and every waiter keeps its place |
| DeletedNodes.TreeOfOk | tagfs/FUSE_driver/libfuse/lib/fuse.c:733-907 | a consistent cache is a tree as the lock walks assume it |
| DeletedNodes.LeavingUnlocked | tagfs/FUSE_driver/libfuse/lib/fuse.c:816-836 | a node that leaves the cache, by whatever cascade, is on no held path, and is unlocked exactly if nobody holds it for writing |
| DeletedNodes.ForgetDeletesUnlocked | tagfs/FUSE_driver/libfuse/lib/fuse.c:1364-1400 | a forget that waits for its node to be unlocked deletes only unlocked nodes, as `delete_node` asserts, and leaves every holder's nodes looked up |
| PathNames.TokensAppend | tagfs/FUSE_driver/libfuse/lib/fuse.c:909-937 | a slash and a proper name after any path add that one component |
| PathNames.TokensSplit | tagfs/FUSE_driver/libfuse/lib/fuse.c:909-937 | a slash anywhere in a path separates its components, which with the two cases of no slash determines them |
| PathNames.TokensOfJoin | tagfs/FUSE_driver/libfuse/lib/fuse.c:909-937 | parsing joined proper names gives the names back |
| PathNames.ComponentRoundTrip | tagfs/FUSE_driver/libfuse/lib/fuse.c:909-937 | a name survives printing and parsing exactly when it is non-empty and without a slash |
| PathNames.ParsePrint | tagfs/FUSE_driver/libfuse/lib/fuse.c:909-937 | printing a parsed path and parsing it again changes no component |
| PathNames.NamesResolve | tagfs/FUSE_driver/libfuse/lib/fuse.c:849-861 | following a node's ancestor names down from the root reaches the node |
| PathNames.ResolvesExactly | tagfs/FUSE_driver/libfuse/lib/fuse.c:849-861 | a lookup finds a node exactly if it is attached and the names are its ancestors' and its own |
| PathNames.PrintParse | tagfs/FUSE_driver/libfuse/lib/fuse.c:993-1063 | looking up the printed path of any attached node yields that node |
| PathNames.NextToken | tagfs/FUSE_driver/libfuse/lib/fuse.c:920-930 | the components found one after the other are those of the whole string |
| PathNames.LookupPathInCache | tagfs/FUSE_driver/libfuse/lib/fuse.c:909-937 | the result is the walk down the name table along the components, or -ENOENT |
| PathNames.GrownSize | tagfs/FUSE_driver/libfuse/lib/fuse.c:944-953 | the doubling loop ends with room for what is needed and within an unsigned int |
| PathNames.AddName | tagfs/FUSE_driver/libfuse/lib/fuse.c:939-970 | the buffer holds a slash, the name and the old suffix, moved or not |
| PathNames.BuildPath | tagfs/FUSE_driver/libfuse/lib/fuse.c:993-1063 | for an attached node, the slash-joined names of its ancestors; none for a detached one |
| BufVec.FuseBufSize | tagfs/FUSE_driver/libfuse/lib/buffer.c:22-35 | min(sum, SIZE_MAX) |
| BufVec.TotalIsFlat | tagfs/FUSE_driver/libfuse/lib/buffer.c:22-35 | that sum is the number of bytes of the flattened vector |
| BufVec.RestAdvance | tagfs/FUSE_driver/libfuse/lib/buffer.c:265-282 | advancing the cursor drops exactly that many bytes from the rest |
| BufVec.Bufvec.Current | tagfs/FUSE_driver/libfuse/lib/buffer.c:257-263 | the piece whose remaining bytes the rest begins with, or none when nothing is left |
| BufVec.Bufvec.Advance | tagfs/FUSE_driver/libfuse/lib/buffer.c:265-282 | the rest shrinks by the length, and the answer says whether a piece is left |
| BufVec.CopyOne | tagfs/FUSE_driver/libfuse/lib/buffer.c:227-255 | copies between two places, overlapping or not, and touches nothing else |
| BufVec.CopiedMore | tagfs/FUSE_driver/libfuse/lib/buffer.c:284-324 | a further run extends the copied prefix |
| BufVec.CopyStep | tagfs/FUSE_driver/libfuse/lib/buffer.c:292-321 | one turn extends the copied prefix by what both pieces allow, with a smaller rest or the end reached |
| BufVec.CopyLoop | tagfs/FUSE_driver/libfuse/lib/buffer.c:291-321 | the loop of the copy: what is copied, where the source stands, and that the destination lags by exactly the run that ended the source |
| BufVec.LagsByLength | tagfs/FUSE_driver/libfuse/lib/buffer.c:265-324 | without empty pieces the destination lags exactly when the source is not empty and no longer than the destination |
| BufVec.LagExample | tagfs/FUSE_driver/libfuse/lib/buffer.c:265-324 | two bytes into a piece of four: the destination stays where it was |
| BufVec.FuseBufCopy | tagfs/FUSE_driver/libfuse/lib/buffer.c:284-324 | copies min of both rests in order for any segmentation and leaves all else unchanged; the source ends up behind what was copied, the destination too exactly unless the copy reaches the end of a source whose last piece is not empty, and then it lags by the last run |
| WorkerPool.FirstWorker | tagfs/FUSE_driver/libfuse/lib/fuse_loop_mt.c:388-401 | the accounting holds after start-up |
| WorkerPool.StepKeeps | tagfs/FUSE_driver/libfuse/lib/fuse_loop_mt.c:129-212 | every locked section keeps numavail = workers minus busy ones, 1 to max workers, and the list complete |
| WorkerPool.RunKeeps | tagfs/FUSE_driver/libfuse/lib/fuse_loop_mt.c:129-212 | in every state of every interleaving |
| WorkerPool.SomeoneListens | tagfs/FUSE_driver/libfuse/lib/fuse_loop_mt.c:164-177 | after a worker takes a request some worker waits for the next one exactly when another one waited before, or the pool may grow and the request is no forget, none is being processed and no worker has returned |
| WorkerPool.BeginExact | tagfs/FUSE_driver/libfuse/lib/fuse_loop_mt.c:142-177 | taking a request starts a thread exactly when the pool may grow, it is no forget, nobody else waits, and no other worker processes a forget or has returned |
| WorkerPool.EndExact | tagfs/FUSE_driver/libfuse/lib/fuse_loop_mt.c:181-210 | finishing one retires the worker exactly when more are idle than allowed, it is not the last and the session goes on |
| WorkerPool.ForgetSilences | tagfs/FUSE_driver/libfuse/lib/fuse_loop_mt.c:164-177 | a forget taken by the only waiting worker leaves nobody waiting and starts no thread |
| WorkerPool.Accounted | tagfs/FUSE_driver/libfuse/lib/fuse_loop_mt.c:129-212 | what the count of available workers counts |
| WorkerPool.LinkedAdd | tagfs/FUSE_driver/libfuse/lib/fuse_loop_mt.c:110-117 | the four pointer writes insert the worker at the end of a well-formed ring |
| WorkerPool.LinkedDelete | tagfs/FUSE_driver/libfuse/lib/fuse_loop_mt.c:119-125 | the two pointer writes close the ring over the worker |
| WorkerPool.Ring.Add | tagfs/FUSE_driver/libfuse/lib/fuse_loop_mt.c:110-117 | the ring gains the worker at its end |
| WorkerPool.Ring.Delete | tagfs/FUSE_driver/libfuse/lib/fuse_loop_mt.c:119-125 | the ring loses exactly that worker |
| KernelHeap.SizesHandled | src/std/memory.c:21-27 | a segment that passes the split test holds the block and a header exactly for sizes up to 2^32 - 16 |
| KernelHeap.GrowthIsSafe | src/std/memory.c:57-68 | growing the last segment keeps segments and blocks apart exactly when no live block starts in the range it grows into |
| KernelHeap.GrowthOverlaps | src/std/memory.c:57-68 | a well-formed heap on which growth overlaps live blocks |
| KernelHeap.GrowthOverlapReached | src/std/memory.c:26-158 | three allocations and one free lead to that heap |
| KernelHeap.TailFreeGrowth | src/std/memory.c:57-68 | growth is safe while the last free segment lies above every live block |
| KernelHeap.AllocationKeepsTail | src/std/memory.c:75-93 | an allocation keeps the last free segment on top exactly unless it uses that segment up while a lower one remains |
| KernelHeap.TakeLayout | src/std/memory.c:75-93 | a block cut from a free segment overlaps no live block and no remaining segment, and the list stays sorted |
| KernelHeap.TakeBytes | src/std/memory.c:75-93 | splitting moves exactly the block's bytes out of the free list, unlinking at least them |
| KernelHeap.CutStored | src/std/memory.c:75-95 | the words written leave every remaining header and every block's length record intact |
| KernelHeap.RecordsKept | src/std/memory.c:75-157 | words written outside the blocks leave every word of every block, the recorded lengths included |
| KernelHeap.TakeKeepsCoarse | src/std/memory.c:75-93 | allocation never makes two free segments touch |
| KernelHeap.GrowKeepsCoarse | src/std/memory.c:57-68 | growing the last segment makes no two free segments touch |
| KernelHeap.Heap.Start | src/std/memory.c:29-36 | an empty list gets one fresh page above everything, or nothing changes |
| KernelHeap.Heap.FindFit | src/std/memory.c:38-55 | the walk ends at the first segment that is long enough, with its two predecessors and the right split decision |
| KernelHeap.FewestPages | src/std/memory.c:57-68 | when nothing fits the pages committed are the fewest that make the last segment long enough |
| KernelHeap.Heap.GrowLast | src/std/memory.c:57-73 | the last segment grows by the fewest pages that make it fit, or the list stays as it was when pages run out |
| KernelHeap.Heap.SplitOff | src/std/memory.c:75-84 | the heap stays valid with the front of the segment as the new block |
| KernelHeap.Heap.Unlink | src/std/memory.c:86-93 | the heap stays valid with the whole segment as the new block |
| KernelHeap.Heap.CutOff | src/std/memory.c:75-95 | one or the other, with every word of the other blocks kept |
| KernelHeap.Heap.Allocate | src/std/memory.c:26-97 | 0 exactly when pages run out; otherwise a 4-aligned block from the first fit or the grown last segment, apart from all else, with free and live bytes within the committed ones; every word of every other block is as it was |
| KernelHeap.InsertLoopEnds | src/std/memory.c:109-130 | the insert loop ends exactly when a free segment lies above the block |
| KernelHeap.FreedLayout | src/std/memory.c:139-157 | putting a block back keeps the list sorted and everything apart |
| KernelHeap.FreedBytes | src/std/memory.c:139-150 | the free bytes rise by exactly the recorded length |
| KernelHeap.FreedStored | src/std/memory.c:139-157 | the words written leave the other headers and the other blocks' records intact, the store to address 0 included |
| KernelHeap.FreeKeepsTail | src/std/memory.c:99-158 | freeing keeps the last free segment above every live block |
| KernelHeap.FreeKeepsCoarse | src/std/memory.c:141-150 | both neighbours are joined whenever the ends meet, so no two segments of the list ever touch |
| KernelHeap.JoinFacts | src/std/memory.c:139-150 | the joins decided from words in memory are the merges of the list |
| KernelHeap.AllocateFreeRoundTrip | src/std/memory.c:26-158 | freeing a block just split off restores the list exactly when its size is a multiple of four |
| KernelHeap.ExactFitRoundTrip | src/std/memory.c:26-158 | freeing a block that took a whole segment restores the list exactly when the segment was four bytes longer than the size |
| KernelHeap.Heap.FindPlace | src/std/memory.c:104-130 | the two loops end at the free segments on either side of the block |
| KernelHeap.Heap.Coalesce | src/std/memory.c:139-150 | records the length and joins the touching neighbours, writing nowhere else |
| KernelHeap.Heap.Free | src/std/memory.c:99-158 | the block, at its recorded length, is back in the list and joined where ends meet; the other blocks stay, every word of them; a no-op that leaks when nothing is free |
| PageFrames.FramesApart | src/kernel/page_frame_allocator.c:99-109 | frames are whole pages, pairwise distinct and never in the kernel's memory from 2 to 10 MiB |
| PageFrames.FrameAboveReserved | src/kernel/page_frame_allocator.c:8-12 | a bit stands for memory above 10 MiB exactly if it is not one of the last 512 |
| PageFrames.IndexRange | src/kernel/page_frame_allocator.c:57-62 | every heap address has one of the 254 tables, at a fixed distance from its directory entry |
| PageFrames.IndexInjective | src/kernel/page_frame_allocator.c:82-88 | different pages have different table places |
| PageFrames.TableStart | src/kernel/page_frame_allocator.c:64-68 | the inverse of the table index: the first page that a table maps |
| PageFrames.InitIsExact | src/kernel/page_frame_allocator.c:14-55 | below the end of the memory map a page is marked exactly when it does not lie wholly inside one usable region; past it nothing is marked |
| PageFrames.Allocator.MarkRange | src/kernel/page_frame_allocator.c:28-32 | marks exactly the pages of the range that lie above 10 MiB |
| PageFrames.Allocator.MarkMap | src/kernel/page_frame_allocator.c:19-52 | marks exactly the pages that touch a gap or an unusable region |
| PageFrames.Allocator.Init | src/kernel/page_frame_allocator.c:14-55 | the allocator is valid with those pages reserved |
| PageFrames.Allocator.constructor | src/kernel/page_frame_allocator.c:7-12 | the zeroed tables translate nothing and mark nothing |
| PageFrames.Allocator.FindClear | src/kernel/page_frame_allocator.c:96-104 | finds the first zero bit, or none exactly when all are set |
| PageFrames.Allocator.TakeFrame | src/kernel/page_frame_allocator.c:96-108 | sets that bit and no other |
| PageFrames.Allocator.TranslateIs | src/kernel/page_frame_allocator.c:111-118 | directory and table together translate every committed address to its own frame and no other heap address at all |
| PageFrames.Allocator.CommittedFlags | src/kernel/page_frame_allocator.c:114-118 | both entries of a committed page are present, writable, open to all and accessed |
| PageFrames.Allocator.Enter | src/kernel/page_frame_allocator.c:111-118 | the page is entered and every other page's entries stay |
| PageFrames.Allocator.Install | src/kernel/page_frame_allocator.c:90-121 | keeps the allocator valid: distinct pages on distinct frames that were never reserved |
| PageFrames.Allocator.Commit | src/kernel/page_frame_allocator.c:90-121 | the page translates to a fresh frame, all other translations are preserved, and exhaustion returns false with no change |
| PageFrames.Allocator.CommittedIsRam | src/kernel/page_frame_allocator.c:14-121 | after initialisation every committed frame below the end of the map is usable RAM, and frames are distinct |
| TagFs.Replaced | tagfs/tfsfmt/src/tfsfmt.c:299-341 | the FAT invariant survives giving a file a new chain of its own and free sectors |
| TagFs.ChainIncreases | tagfs/tfsfmt/src/tfsfmt.c:322-334 | links go strictly upwards, so a chain is finite and no link is the free value 0 |
| TagFs.FlatAt | tagfs/FUSE_driver/src/tagfs.c:109-125 | byte k of a file lies in sector k / sector_size of its chain |
| TagFs.Image.constructor | tagfs/tfsfmt/src/tfsfmt.c:146-173 | a formatted image is well formed, with no file and every sector free |
| TagFs.Image.FindFile | tagfs/utils.c:102-111 | the first entry of that name, or none |
| TagFs.Image.FindFree | tagfs/utils.c:125-136 | the first free sector, or none |
| TagFs.Image.Skip | tagfs/FUSE_driver/src/tagfs.c:112-120 | reaches the sector of that index, and fails exactly past the end of the chain |
| TagFs.Image.CopyOn | tagfs/FUSE_driver/src/tagfs.c:129-151 | what is copied is exactly the file's sectors from the offset on, up to n bytes or the first boundary with enough copied, or the chain is left, exactly when both lie past its end |
| TagFs.ReadIsRight | tagfs/FUSE_driver/src/tagfs.c:105-152 | that is what POSIX asks exactly when the read ends inside the file or covers a file that fills its sectors from its start |
| TagFs.OutcomeAnswers | tagfs/FUSE_driver/src/tagfs.c:105-152 | where a read stops, when it leaves the chain, and which bytes it returns otherwise |
| TagFs.OutcomeBegins | tagfs/FUSE_driver/src/tagfs.c:105-152 | the bytes returned begin with those POSIX asks for, and bytes past the end of the file follow exactly when the read is not right |
| TagFs.Image.Read | tagfs/FUSE_driver/src/tagfs.c:86-153 | for every read: no entry, nothing past the end, or the bytes POSIX asks for followed by those up to where the loop stops, or the chain is left; when each happens, and when it is what POSIX asks |
| TagFs.FullSectors | tagfs/FUSE_driver/src/tagfs.c:137-140 | a file fills its sectors exactly when its size is a multiple of the sector size |
| TagFs.BuildNext | tagfs/tfsfmt/src/tfsfmt.c:322-334 | linking the next free sector keeps the chain under construction well formed |
| TagFs.BuildEnd | tagfs/tfsfmt/src/tfsfmt.c:317-333 | the end mark completes a chain and no other entry has changed |
| TagFs.Image.FillChain | tagfs/tfsfmt/src/tfsfmt.c:314-335 | the chain holds the source, all of it exactly when there are enough free sectors, and its length fits the size |
| TagFs.StoredOk | tagfs/tfsfmt/src/tfsfmt.c:312-341 | the image with the new file is well formed and every other file keeps its bytes |
| TagFs.Image.WriteFile | tagfs/tfsfmt/src/tfsfmt.c:280-341 | the outcome in each case; a stored file has the source's bytes, whole exactly when they fit, and the others are unchanged |
| TagFs.Image.WriteThenRead | tagfs/FUSE_driver/src/tagfs.c:86-153 | what the formatting tool writes under a fresh name the driver reads back, for every sector size and fragmentation |
| TagFs.Image.MakeNode | tagfs/FUSE_driver/src/tagfs.c:155-186 | each error; a new file is empty, without a chain, and the others are unchanged |
| TagFs.FatMarked | tagfs/FUSE_driver/src/tagfs.c:209-253 | the FAT invariant survives a one-sector write, with or without a new sector |
| TagFs.BytesWritten | tagfs/FUSE_driver/src/tagfs.c:248-257 | the file's bytes afterwards are the old ones with the buffer over them |
| TagFs.WrittenOk | tagfs/FUSE_driver/src/tagfs.c:188-260 | the image after the write is well formed and the other files keep their bytes |
| TagFs.WriteAnswers | tagfs/FUSE_driver/src/tagfs.c:188-260 | each answer exactly: no such name, an append at a sector boundary, and otherwise the whole buffer unless the file has no sector and none is free |
| TagFs.PatchedAt | tagfs/FUSE_driver/src/tagfs.c:248-257 | byte by byte, the buffer where it was written and elsewhere what was there |
| TagFs.Image.OverwriteThenRead | tagfs/FUSE_driver/src/tagfs.c:86-260 | what a write has taken is read back from the same place |
| TagFs.Image.WriteSector | tagfs/FUSE_driver/src/tagfs.c:188-260 | each answer exactly, an append at a sector boundary failing and a new file taking a free sector; the content becomes the old one patched with the bytes taken, the other files unchanged |
| TagFs.UnlinkIsRight | tagfs/FUSE_driver/src/tagfs.c:319-327 | the loop frees exactly the file's chain if and only if the chain has one sector |
| TagFs.UnlinkedOk | tagfs/FUSE_driver/src/tagfs.c:307-328 | without that file the image is well formed |
| TagFs.Image.Unlink | tagfs/FUSE_driver/src/tagfs.c:296-329 | for a file of at most one sector: its sector is free again and the other files are unchanged |
| TagTables.Contained | tagfs/utils.c:52-100 | an entry lies inside its section |
| TagTables.EntriesApart | tagfs/utils.c:52-100 | no two entries of the image overlap, in one section or in two |
| TagTables.Tables.FindOrCreateTag | tagfs/tfsfmt/src/tfsfmt.c:50-69 | a tag has exactly one entry and its id names it; existing tags keep their ids; 0 exactly when the name is in no entry and none is free; the empty name gets the id of the first free entry and makes nothing |
| TagTables.NamesATag | tagfs/tfsfmt/src/tfsfmt.c:50-69 | the id returned belongs to a tag exactly when the name is not empty |
| TagTables.EmptyNameInherited | tagfs/tfsfmt/src/tfsfmt.c:50-69 | the id given for the empty name is the next new tag's |
| TagTables.Tables.LinkTag | tagfs/tfsfmt/src/tfsfmt.c:71-95 | the links gain exactly this pair, once; false exactly when it is new and the map full |

## Left out

- KernelHeap.Heap.Allocate: assumes a fit, an empty list, or the last free segment above every live block, because growth is unsafe without it (`GrowthIsSafe` says exactly when); and sizes from 1 to 2^32 - 16 (`SizesHandled`).
- KernelHeap.Heap.Free: assumes a free segment above the block unless the list is empty, because the insert loop does not end otherwise (`InsertLoopEnds`).
- KernelHeap.Heap.CommitPage: the frames still available are a number, and they are assumed not to outlast the address space above the heap; `PageFrames` models the commit itself.
- LinearHash.Table.Insert: the load bound is claimed only while the array can be reallocated.
- PathNames.BuildPath: assumes that the path fits an unsigned int, as the buffer size does.
- NodeCache.Cache.RenameNode: assumes, as the kernel arranges, that the new directory is looked up and not inside the subtree that moves.
- NodeIds.IdentitiesFresh: is about fewer than 2^64 turns of the counter; `IdentitiesRepeat` says exactly when pairs repeat.
- DeletedNodes.ForgetDeletesUnlocked: assumes, as the kernel arranges, that a node locked for writing is looked up; `LeavingUnlocked` says what holds without that.
- PageFrames.Allocator.Init: takes the memory map as a list of regions, in order, not overlapping and ending below the last page of the address space; the records' byte layout is not modelled.
- PageFrames.Allocator.Commit: assumes a heap page that is not committed yet; the bitmap is modelled by its bits.
- TagFs.Image.WriteFile: assumes a non-empty name, a FAT of at most 65535 entries and a data section at least as long; reading the source file and its name from the command line is left out.
- TagFs.Image.WriteSector: the write must start inside the file or at its end and stay in one sector; longer writes do not link the sectors they pick.
- TagFs.Image.Unlink: assumes that the file exists, because the test for a missing one compares with a value never returned, and that it has at most one sector.
- TagFs.Image.Read: `OffChain` stands for every read after the end mark has been followed; what the memory holds there is not modelled.
- TreeLocks: tree changes are assumed to happen under the write lock of the node that moves, as unlink, rmdir and rename arrange; a node that a waiting request is for stays cached, as the kernel looks it up; and no node has 2^31 readers.
- The linked lists of hash chains, lock queues and lock lists are sequences; pointer updates in place are modelled for the worker ring, the heap and the FAT.
- Malloc and realloc failures other than of the hash array, the LRU list (`remember`), the prune thread, hidden files' open counts, slabs and debug output.
- The `fuse_fs_*` dispatch, modules, signals, interrupts and timeouts, directory filling and option parsing.
- File descriptors and splicing in `buffer.c`; threads, semaphores and cancellation in `fuse_loop_mt.c` beyond the locked sections.
- `pfa_uncommit_all` and `memory_free_all`, the byte helpers of `memory.c`, and the kernel's own TagFS reader.
- `getattr` and `readdir` of the driver, `write_tag`, and mapping and syncing the image.
- Terminal output, drivers and assembly.
