# Verified model of the LiteOS-A kernel core

This project models the stateful core of a LiteOS-A kernel tree in Dafny and proves what the kernel
relies on.

* **VFS**: the vnode pool with its free, active (LRU) and virtual lists, the path cache, the vnode
  hash and path lookup, on top of the intrusive rings of `los_list.h`.
* **Init framework**: cores that share a cursor into the table of hooks and meet at a barrier.
* **Console**: canonical-mode line editing, and the protocol by which tasks take turns reading.
* **Group credentials**, **boot arguments**, **user memory checks**, the **packed system call table**
  and the **FNV-1a hash**.

`dafny verify dfyconfig.toml` checks everything.

## How the VFS model is built

1. `Lists` is the pointer level: `LinkHeap` holds the `pstNext` and `pstPrev` words of a whole
   component; its ghost field says which rings they form.  Every operation on one ring is proved to
   leave all the others alone, and a deleting SAFE traversal is proved to visit every item once.
2. `PathCacheTable` runs the code of `path_cache.c` on such a heap, with three hooks for each entry,
   and is proved to do exactly what the functions of `PathCache` say.  `PathCache.Consistent` says
   that buckets, child rings and parent rings describe one set of entries.  `VnodeHash` does the
   same for the vnode hash.
3. `VfsState`, `VfsNames` and `VfsSteps` to `VfsUnmount` hold the state of the vnode layer, its
   invariant `Valid`, and a lemma for each kind of step: does it keep `Valid`, and what does it do
   to the namespace.
4. `VfsBudget` says what the pool can still yield, and `VfsTrail` what the loop of a lookup keeps.
5. `Vnodes.VnodeLayer` is `vnode.c` itself.  Its methods keep `Inv()`: the invariant, and the fact
   that the active list is in the order of the last touches.  The ghost field `touches` is the log
   of these; every contract says what the method adds to it (`VfsLru`).

Vnodes are addresses and are used again after reclaim, so results are compared by *file*: a mount
and an inode number, or a devfs vnode.  A file system is a function from directory and name to
inode, and its `Lookup` is that of jffs2: vnode hash first, then `VnodeAlloc`, which may reclaim
other vnodes while `Step` holds the directory.  The namespace (`VfsNames.Names`) consists of the
child rings of devfs directories, the types of devfs vnodes and the mounts; for all other
directories the file system decides.

Memory is an oracle: the constant field `memory` gives the answers of the allocator one by one.  An
`Option` stands for a pointer that may be NULL.

## When a lookup is right

`VfsWalk.Walk` splits the path and follows the namespace, without any cache or vnode;
`VfsWalk.SplitJoined` says what the components are, and `VfsWalk.WalkMeans` what the outcome is.  A lookup
differs from it only where the next file needs a vnode and none is to be had: nothing is free, no
vnode but the directory that `Step` holds may be reclaimed, and there is no new memory.  This is
stated from the state *before* the call:

* Each `Step` fails with ENOMEM exactly in that case (`VfsLookup.Moved`, `VfsBudget.Starves`).
* If two vnodes are to be had without new memory (`VfsBudget.Cap` of the state before), the outcome
  of any lookup is that of `Walk` (`VfsTrail.Arrived`).
* If the allocator is steady (its answers from now on are all the same, or the pool has its full
  size), the outcome of any lookup is that of `VfsBudget.WalkIn`: the walk that knows which files
  have a vnode and whether two vnodes, one or none are to be had.  `VfsBudget.WalkInExact` proves that
  this is `Walk` exactly if `VfsBudget.RunsOut`, a condition on the same data, is false.
* `Vnodes.LookupWithOneVnode` is a run in which one vnode to be had is not enough.

## Results that are not what one might expect

* A hook of init level 9 **can run twice**.  Core 0 publishes the level before the cursor, and the
  cursor already points at the level's first hook when the other cores see the level.
  `InitLevels.ExactlyOnce` proves that every hook is handed out at most once in all interleavings if
  and only if there is one core, no hook, or a single publishing step; `InitLevels.HandedOut` bounds
  it by two otherwise.  Level 9 ends all the same: `InitLevels.LevelEnds`.
* Releasing console rights that nobody holds still posts the semaphore.
  `ConsoleRights.MutualExclusion` proves that exclusion holds in all interleavings if and only if
  only holders release or there is one task; `ConsoleRights.Conservation` says what holds in any case.
* A task that has captured the rights through ioctl and then reads captures them again and waits for
  itself, for ever, with the shell suspended.  `ConsoleRights.RightsProgress` proves that the rights
  are always free or with a task that can go on if and only if no holder captures twice;
  `ConsoleRights.SecondCapture` and `ConsoleRights.StaysBlocked` exhibit the run and its end.
* The backspace after the 1022nd octet of a line is ignored, so it does not take that octet back
  (`ConsoleLine.BackspaceUndoes`).
* A failed allocation is counted as a vnode for good; `VfsState.Conservation` has the exact balance.
* The end of a region that reaches up to 2^32 wraps to 0.  A mapped range that ends in such a region
  is rejected by `CheckRegion`, or, if all below it is mapped too, makes it recurse without end.
  `Regions.CheckRegionCovers` proves that it is right about all other ranges that neither are empty nor
  wrap, and `Regions.TopRejected` is an input it is wrong about; `Regions.CheckRegionOtherwise` is about
  empty and wrapping ranges.  These are inputs of the function, not of the system calls: its only
  caller, `CHECK_ASPACE`, passes ranges in the user space, which ends below the kernel, so none of
  them can be empty, wrap, or lie in a region at the top (kernel/base/include/los_vm_common.h:114-120).
* `NextName` keeps the length of a component in eight bits; `VfsLookup.NameExact` proves that the
  name looked up is the component if and only if that has at most 255 octets.

## Model

| member | source | states |
|---|---|---|
| Lists.LinkHeap.Init | kernel/include/los_list.h:103-107 | the node becomes a ring of its own; all rings stay well formed |
| Lists.LinkHeap.Add | kernel/include/los_list.h:219-225 | the node becomes the member behind the given one; every other ring is unchanged |
| Lists.LinkHeap.TailInsert | kernel/include/los_list.h:246-249 | the node becomes the last member |
| Lists.LinkHeap.Delete | kernel/include/los_list.h:294-300 | the node leaves its ring, found through its own links, and is on no ring afterwards |
| Lists.LinkHeap.Retire | fs/vfs/vnode.c:246-246 | the head of an empty ring is cleared; every other ring is unchanged, and the address may be used again |
| Lists.LinkHeap.AddList | kernel/include/los_list.h:347-358 | one ring, head included, becomes part of another; all links agree in both directions |
| Lists.LinkHeap.Empty | kernel/include/los_list.h:323-326 | true if and only if the ring has no member |
| Lists.LinkHeap.DeleteWhile | kernel/include/los_list.h:503-507 | a SAFE traversal that deletes visits every item once, in order, and leaves exactly the others |
| Lists.LinkHeap.MoveWhile | kernel/include/los_list.h:503-507 | a SAFE traversal whose body moves items to another ring of the same links visits each once, in order, up to the limit; both rings are what they should be |
| Fnv.HashFNV32aBuf | kernel/include/los_hash.h:79-96 | the loop computes the fold of the octet steps |
| Fnv.HashLaw | kernel/include/los_hash.h:84-95 | each octet: a bit of the exclusive or is set exactly if the two bits differ; then the product with 0x01000193, modulo 2^32 |
| Fnv.HashOfA | kernel/include/los_hash.h:77-96 | the hash of "a" from 0x811c9dc5 is 0xe40c292c |
| Fnv.HashConcat | kernel/include/los_hash.h:79-96 | hashing a concatenation composes the two hashes |
| Fnv.PrimeInverse | kernel/include/los_hash.h:77-92 | multiplying by 0x359c449b undoes the multiplication by the prime, modulo 2^32 |
| Fnv.StepBijective | kernel/include/los_hash.h:87-92 | each octet step is a bijection of the 32-bit states |
| Fnv.HashBijective | kernel/include/los_hash.h:79-96 | hashing a fixed buffer is a bijection of the initial states |
| Fnv.NameHashLaw | fs/vfs/path_cache.c:132-140 | the hash of a name in a directory is that of the name followed by the octets of the pointer, from 0x811c9dc5 |
| Fnv.OneOctetApart | fs/vfs/path_cache.c:132-140 | names of one directory that differ in exactly one octet never share the full 32-bit hash |
| PathCache.InsertConsistent | fs/vfs/path_cache.c:149-201 | an insertion keeps bucket, child ring and parent ring in agreement |
| PathCache.DropConsistent | fs/vfs/path_cache.c:208-221 | dropping any entries keeps the three indexes in agreement |
| PathCache.BucketAgreesWithDirectory | fs/vfs/path_cache.c:231-249 | searching the hash bucket finds the same entry as searching the directory's child ring |
| PathCache.FindRecent | fs/vfs/path_cache.c:239-247 | the search finds the most recent matching entry, if there is any |
| PathCache.FreeBothRings | fs/vfs/path_cache.c:285-292 | freeing both rings of a vnode frees every entry that names it, and no other |
| PathCacheTable.Table.constructor | fs/vfs/path_cache.c:75-81 | the empty, consistent cache: 512 buckets, a name in the bucket of its hash modulo 512 |
| PathCacheTable.Table.OpenVnode | fs/vfs/vnode.c:192-193 | a new vnode gets its two empty rings |
| PathCacheTable.Table.PathCacheAlloc | fs/vfs/path_cache.c:164-201 | on the rings: the entry comes first on the bucket of its name, the child ring and the parent ring, and no other ring changes; nothing happens without memory |
| PathCacheTable.Table.PathCacheFree | fs/vfs/path_cache.c:208-221 | on the rings: refines the removal of one entry from all three of its rings |
| PathCacheTable.Table.FreeRing | fs/vfs/path_cache.c:255-279 | the traversal that frees its own items meets every entry of the ring once and frees exactly these |
| PathCacheTable.Table.VnodePathCacheFree | fs/vfs/path_cache.c:285-292 | on the rings: exactly the entries that name the vnode, as parent or child, go |
| PathCacheTable.Table.CloseVnode | fs/vfs/vnode.c:228-246 | a freed vnode loses its entries and its two ring heads; its address may be opened again |
| PathCacheTable.Recycled | fs/vfs/vnode.c:246-248 | the address of a freed vnode may be opened again |
| PathCacheTable.Table.PerformAll | fs/vfs/path_cache.c:149-292 | any legal sequence of opening, naming, unnaming and freeing does to the links what it does to the model; all indexes stay consistent |
| PathCacheTable.Table.PathCacheLookup | fs/vfs/path_cache.c:231-249 | returns the child of the most recent matching entry of the directory, and NULL if and only if there is none |
| VnodeHash.FirstInBucket | fs/vfs/vnode_hash.c:112-150 | searching one bucket gives what searching all hashed vnodes gives |
| VnodeHash.HashTable.VfsHashGet | fs/vfs/vnode_hash.c:127-156 | succeeds if and only if a hashed vnode has that hash and mount and passes the comparison; returns the one inserted last |
| VnodeHash.HashTable.VfsHashInsert | fs/vfs/vnode_hash.c:178-188 | the vnode is in front of the bucket numbered by the 32-bit sum of hash and seed modulo 128; no other bucket changes |
| VnodeHash.HashTable.VfsHashRemove | fs/vfs/vnode_hash.c:162-170 | the vnode is on no bucket and its links are gone |
| VnodeHash.HashTable.Introduce | fs/vfs/vnode.c:194-194 | a new vnode is on no bucket and changes none |
| VnodeHash.HashTable.FreeVnode | fs/vfs/vnode.c:229-229 | freeing a vnode, hashed or not, keeps every other vnode in its bucket |
| VfsInodes.InodeSearch | fs/vfs/vnode_hash.c:112-150 | the search used in the vnode layer is the bucket search of the hash |
| VfsState.Conservation | fs/vfs/vnode.c:118-253 | every vnode is on exactly one of the three lists; the free counter is the length of the free list; the total is the number of vnodes plus that of failed allocations, at most 512 |
| VfsState.FreePool | fs/vfs/vnode.c:216-253 | VnodeFree keeps the lists disjoint and the counters right |
| VfsState.FreeCached | fs/vfs/vnode.c:228-228 | after VnodeFree no cache entry names the vnode |
| VfsState.FreeHashed | fs/vfs/vnode.c:229-229 | after VnodeFree the vnode is not in the hash |
| VfsSteps.FreeNames | fs/vfs/vnode.c:216-253 | freeing a vnode of a file system that is no end of a mount changes no name |
| VfsSteps.PinValid | fs/vfs/vnode.c:403-413 | taking or dropping a reference keeps the invariant and the namespace |
| VfsSteps.RefreshValid | fs/vfs/vnode.c:358-366 | moving a vnode to the end of the active list keeps the invariant and the namespace |
| VfsGrowth.EnterValid | fs/vfs/vnode.c:191-203 | taking a vnode into use keeps the invariant; only a devfs vnode adds to the namespace |
| VfsGrowth.IdentifyValid | fs/jffs2/src/vfs_jffs2.c:321-330 | a new vnode that becomes an unknown inode keeps the cache coherent |
| VfsGrowth.CacheNameValid | fs/vfs/vnode.c:415-417 | caching what Lookup says keeps the cache coherent and changes no name |
| VfsReclaim.FreeManyExact | fs/vfs/vnode.c:143-156 | freeing eligible vnodes one by one frees exactly these; all others are untouched, names mean the same |
| VfsReclaim.SweepRound | fs/vfs/vnode.c:143-156 | in each round the current item is still linked where the traversal stands, and is freed or stepped over |
| VfsReclaim.AllocValid | fs/vfs/vnode.c:170-214 | allocation keeps the invariant, never takes a vnode in use, and fails only if nothing is free or reclaimable |
| VfsLru.VictimsOldest | fs/vfs/vnode.c:137-156 | reclaim takes the ten vnodes without references and mount flags whose last place in the log of touches is the earliest, or all of them if there are fewer |
| VfsLru.ObtainedValid | fs/vfs/vnode.c:170-203 | the active list stays in the order of the log, the new vnode last |
| VfsLru.TouchedLast | fs/vfs/vnode.c:358-366 | the vnode touched last is the last of the active list |
| Vnodes.VnodeLayer.GetFromFreeList | fs/vfs/vnode.c:118-135 | takes the head of the free list, with the repair of a wrong counter |
| Vnodes.VnodeLayer.VnodeFree | fs/vfs/vnode.c:216-253 | EBUSY and no change if in use; else the vnode leaves all lists and loses its cache entries, and is blank at the head of the free list (or gone, if of devfs) |
| Vnodes.VnodeLayer.VnodeReclaimLru | fs/vfs/vnode.c:137-168 | frees exactly the victims and returns the vnode freed last |
| Vnodes.VnodeLayer.VnodeClearCache | fs/vfs/vnode.c:791-812 | frees every eligible vnode and counts them; names mean the same |
| Vnodes.VnodeLayer.VnodeAlloc | fs/vfs/vnode.c:170-214 | head of the free list, then memory below 512 vnodes, then reclaim; ENOMEM exactly if none of the three yields one; the new vnode is blank and the last active one, or virtual; pinned vnodes and mount ends survive |
| Vnodes.VnodeLayer.FsLookup | fs/jffs2/src/vfs_jffs2.c:284-336 | ENOENT, the vnode the inode has, or a new one; ENOMEM if and only if the inode has no vnode and none is to be had; vnodes in use survive |
| Vnodes.VnodeLayer.ConvertVnodeIfMounted | fs/vfs/vnode.c:336-356 | the vnode returned is the mounted root if the file is a mount point |
| Vnodes.VnodeLayer.RefreshLRU | fs/vfs/vnode.c:358-366 | files and directories of a file system move to the end of the active list and are logged as touched, no others |
| Vnodes.NextName | fs/vfs/vnode.c:305-320 | finds the first octet that is no 0x2f, if there is one, and the number of octets up to the next 0x2f or the end, modulo 256 |
| VfsWalk.SplitLaw | fs/vfs/vnode.c:305-320 | the components of `name`, of `/rest` and of `name/rest`, with 0x2f for the slash |
| VfsWalk.SplitJoined | fs/vfs/vnode.c:305-320 | splitting names joined by one or more slashes gives the names back; slashes in front and at the end do not matter, but the last ones make the path a trailing one |
| VfsWalk.JoinedSplit | fs/vfs/vnode.c:305-320 | every path is the join of its components |
| VfsWalk.NamespaceMeans | fs/vfs/vnode.c:336-356 | what the child of a directory is, on a file system and in devfs, which files are directories, and where a mount point leads |
| VfsWalk.NamesMean | fs/vfs/vnode.c:381-429 | which file a vnode stands for, and that the devfs names are the entries of the child rings, in order |
| VfsWalk.WalkMeans | fs/vfs/vnode.c:431-507 | the outcome of a walk from the chain of files the components lead through: OK with its end, or EACCES, ENOTDIR or ENOENT exactly where the chain breaks, with the directory in the last case |
| VfsLookup.NameExact | fs/vfs/vnode.c:305-320 | the name looked up is the component if and only if that has at most 255 octets |
| VfsWalk.CacheIsRight | fs/vfs/vnode.c:398-401 | a cache hit is the file the namespace has there; in devfs a miss is right too |
| VfsWalk.ConvertCrosses | fs/vfs/vnode.c:336-356 | following `newMount` is crossing the mount of the namespace |
| VfsLookup.DirectoryKept | fs/vfs/vnode.c:403-413 | the directory held by Step survives any reclaim inside Lookup and is still the same file |
| Vnodes.VnodeLayer.LookupHeld | fs/vfs/vnode.c:403-413 | Lookup under a held directory gives what the namespace says, or ENOMEM exactly if a vnode is needed and only the directory itself could be reclaimed |
| Vnodes.VnodeLayer.Resolve | fs/vfs/vnode.c:398-417 | cache first, then Lookup: the answer is that of the namespace, also in a starved pool if the file has a vnode; the cache stays coherent |
| Vnodes.VnodeLayer.Step | fs/vfs/vnode.c:381-429 | one component further along the path, with the exact case of ENOMEM, the vnode touched, and the budget left; or why not |
| VfsBudget.StarvesLacks | fs/vfs/vnode.c:403-413 | Step finds no vnode exactly where the walk with a budget lacks one |
| VfsBudget.SpentMoves | fs/vfs/vnode.c:170-203 | what a new vnode costs: the last vnode to be had moves on to the new file, and its old file loses it |
| VfsBudget.WalkInExact | fs/vfs/vnode.c:381-507 | the walk with a budget is the walk without one if and only if it does not run out of vnodes |
| VfsBudget.PlentyNeverRunsOut | fs/vfs/vnode.c:381-507 | two vnodes to be had are enough for any path |
| VfsLookup.StepFollowsWalk | fs/vfs/vnode.c:464-483 | one round of the lookup loop ends like the walk without a cache, or leaves the same walk to do |
| VfsLookup.StepFollowsBudget | fs/vfs/vnode.c:464-483 | the same for the walk with a budget, with no exception |
| VfsTrail.RoundEnds | fs/vfs/vnode.c:464-483 | after each round the lookup has arrived as promised, or is on its way with the rest of the same walk |
| Vnodes.VnodeLayer.VnodeLookupAt | fs/vfs/vnode.c:431-507 | the path 0x2f is the root; else same code and same file as the walk without a cache if free and reclaimable vnodes are two or more, as the walk with a budget in any case, for a steady allocator; names, invariant and vnodes in use are kept; the vnodes reached are touched in order |
| Vnodes.LookupWithOneVnode | fs/vfs/vnode.c:403-413 | a run in which the only vnode to be had is the directory itself, and the lookup fails |
| VfsUnmount.UnmountProtocol | fs/vfs/vnode.c:255-285 | a mount not in use is freed: only its root stays active, nothing leads to a freed vnode, no other vnode changes |
| VfsUnmount.BusyRefused | fs/vfs/vnode.c:255-271 | a vnode in use makes VnodeFreeAll fail and is not touched |
| Vnodes.VnodeLayer.VnodeInUseIter | fs/vfs/vnode.c:273-285 | true if and only if an active vnode of the mount has a reference or is a mount point |
| Vnodes.VnodeLayer.VnodeFreeAll | fs/vfs/vnode.c:255-271 | frees the vnodes of the mount but its flagged root, in list order, up to the first one with a reference; EBUSY if and only if there is such a one |
| Vnodes.VnodeLayer.UnmountAll | fs/vfs/vnode.c:255-285 | EBUSY without any change if and only if an active vnode of the mount has a reference or is a mount point; else all but the flagged root are freed, and no other vnode changes |
| VfsBoot.EntryValid | fs/vfs/vnode.c:404-417 | naming a devfs vnode adds that one name to the namespace |
| VfsBoot.EntryFound | fs/vfs/path_cache.c:149-154 | the new name leads to the new vnode, all other names lead where they did |
| VfsBoot.MountValid | fs/vfs/mount.c:52-74 | mounting adds that one mount to the namespace |
| VfsBoot.MountCrossed | fs/vfs/vnode.c:336-356 | after mounting, crossing leads from the mount point to the mounted root |
| VfsBoot.EndValid | fs/vfs/operation/vfs_force_umount.c:757-760 | ending a mount takes that one mount out of the namespace |
| VfsBoot.FreeVirtualValid | fs/vfs/vnode.c:216-253 | freeing a devfs vnode takes its entries and the names that led to it out of the namespace, and no others |
| Vnodes.VnodeLayer.FreeDevice | fs/vfs/vnode.c:216-253 | a devfs vnode not in use goes, the total shrinks by one, and its names go; the invariant is kept if and only if the vnode is no end of a mount |
| VfsBoot.DeviceFreed | fs/vfs/vnode.c:239-244 | freeing a devfs vnode keeps all invariants if and only if it is no end of a mount |
| Vnodes.VnodeLayer.EndMount | fs/vfs/operation/vfs_force_umount.c:757-760 | the mount point loses its flag and its mount, all other vnodes stay, and the mount is gone |
| Vnodes.VnodeLayer.CreateVirtual | fs/vfs/vnode.c:368-417 | a devfs vnode is created, ENOMEM exactly if none is to be had; it is named exactly if the next `zalloc` succeeds; nothing else changes |
| Vnodes.VnodeLayer.SetKind | fs/vfs/vnode.c:666-667 | changes the type of that devfs vnode and nothing else |
| Vnodes.VnodeLayer.BindRoot | fs/jffs2/src/vfs_jffs2.c:211-227 | the root inode gets a hashed vnode; no name changes |
| Vnodes.VnodeLayer.MountRoot | fs/vfs/vnode.c:669-675 | mount and mount point refer to each other, the root is flagged, all other vnodes stay |
| Vnodes.VnodeLayer.PerformAll | fs/vfs/vnode.c:118-507 | every run of requests, with devfs vnodes freed and mounts ended, keeps conservation, consistency, coherence and the order of the touches |
| Readdir.VnodeReaddir | fs/vfs/vnode.c:573-613 | delivers as many names as asked for, one at least, or as many as are left from the position on, each with its position, and advances by their number; a name that does not fit spoils the page |
| Vnodes.VnodeLayer.VnodeReaddir | fs/vfs/vnode.c:573-613 | the same for the names that the namespace has in the directory |
| Readdir.ListAll | fs/vfs/vnode.c:573-613 | successive calls, for any numbers of entries, collect the names from the position on without a gap; as many calls as names are left collect all of them |
| Readdir.PagingListsAll | fs/vfs/vnode.c:573-613 | pages of any sizes list the directory once, in order, with d_off the position, then nothing |
| InitLevels.HandedOut | kernel/common/los_init.c:110-157 | in every interleaving each hook is handed out at most twice, and at least once before core 0 leaves the loop |
| InitLevels.ExactlyOnce | kernel/common/los_init.c:110-119 | at most once in all interleavings if and only if one publishing step, one core or no hook |
| InitLevels.RaceTwice | kernel/common/los_init.c:115-133 | a concrete interleaving that hands the first hook out twice |
| InitLevels.BarrierSafe | kernel/common/los_init.c:160-165 | when a core returns, all cores have arrived and every hook has been finished as often as it was handed out: once or twice, exactly once with one publishing step or one core |
| InitLevels.ReleaseStable | kernel/common/los_init.c:160-185 | once all have arrived every core is free to go, whatever the others do |
| InitLevels.Progress | kernel/common/los_init.c:110-165 | some core can always move until all have returned |
| InitLevels.MovesBounded | kernel/common/los_init.c:110-165 | no interleaving has more than sixteen moves for each hook and eight for each core |
| InitLevels.LevelEnds | kernel/common/los_init.c:110-165 | if every core gets its turns, every core returns from level 9 |
| InitLevels.InitFramework.InitLevelCall | kernel/common/los_init.c:99-157 | a level run by core 0 alone hands out its hooks once, in order, and ends at the next level's start |
| InitLevels.InitFramework.RunLevels | kernel/common/los_config.c:316-387 | levels 0 to 8 hand out their hooks one after the other and leave the cursor at the start of level 9 |
| ConsoleLine.FetchIsText | kernel/common/console.c:706-735 | line-by-line input gives the text of the three reference passes, wherever it stops |
| ConsoleLine.FetchStops | kernel/common/console.c:708-711 | reading stops only at a failed read or the end of the input |
| ConsoleLine.BackspaceUndoes | kernel/common/console.c:633-646 | a backspace takes the octet before it back, except the one that fills the line |
| ConsoleLine.TextLaw | kernel/common/console.c:549-646 | what each input does to the text: a plain octet is appended, a backspace takes one off, both only below 1022 octets; CR and NL end the line with 0x0a; escape, bracket and arrow leave no trace |
| ConsoleLine.PlainText | kernel/common/console.c:706-735 | octets without special meaning, then CR, amount to these octets, 1022 at most, and 0x0a |
| ConsoleLine.ArrowText | kernel/common/console.c:549-582 | an arrow key leaves no trace, whatever was typed before it |
| ConsoleLine.Console.UserShellCheckUDRL | kernel/common/console.c:549-582 | recognises arrow keys with the state that other octets do not reset |
| ConsoleLine.Console.StoreReadChar | kernel/common/console.c:633-646 | below 1022 octets, 0x08 takes the last octet of the line off and any other octet is appended; a full line stays |
| ConsoleLine.Console.UserEndOfRead | kernel/common/console.c:515-526 | completes the line, within the FIFO |
| ConsoleLine.Console.ConsoleReadFifo | kernel/common/console.c:463-480 | delivers the front of the line and keeps the rest |
| ConsoleLine.Console.ReadLine | kernel/common/console.c:706-735 | edits until a line is complete; a failed read keeps the partial line; independent of ECHO |
| ConsoleLine.Console.UserFilepRead | kernel/common/console.c:688-742 | what is delivered plus what is left is what there was; a read never crosses a line |
| ConsoleLine.Console.ReadAll | kernel/common/console.c:991-1007 | the concatenated reads of any sizes are the text of the reference editor from its beginning, and all of it after enough reads |
| ConsoleLine.ReadTyped | kernel/common/console.c:688-742 | octets without special meaning, then CR, typed on a new console: enough reads of any sizes deliver these octets, 1022 at most, and 0x0a |
| ConsoleRights.Conservation | kernel/common/console.c:293-328 | in any run, semaphore count plus captures held is one plus the posts by tasks that held nothing |
| ConsoleRights.RightsProtocol | kernel/common/console.c:954-974 | if only holders release: one holder at most, count 0 or 1, shell suspended exactly while another task holds the rights |
| ConsoleRights.ShellStep | kernel/common/console.c:293-328 | a suspended shell does not move; only another task suspends or resumes it, and only at a reference count of zero |
| ConsoleRights.ShellStays | kernel/common/console.c:297-298 | as long as the shell is suspended it stays where it is, whatever the others do |
| ConsoleRights.MutualExclusion | kernel/common/console.c:1346-1351 | exclusion in all interleavings if and only if only holders release or there is one task |
| ConsoleRights.TwoInside | kernel/common/console.c:315-318 | a release of free rights lets two tasks in |
| ConsoleRights.SecondCapture | kernel/common/console.c:1346-1348 | a holder that captures again is blocked, with the semaphore at zero |
| ConsoleRights.StaysBlocked | kernel/common/console.c:293-298 | it stays blocked whatever the others do, and nobody gets the rights again |
| ConsoleRights.RightsProgress | kernel/common/console.c:293-328 | if only holders release, the rights are always free with a taker or with a task that can go on, if and only if no holder captures twice |
| Groups.SetRealEffSaveGroupIDCheck | syscall/process_syscall.c:1177-1192 | accepts exactly the ids from -1 up |
| Groups.ReplaceFirstCounts | syscall/process_syscall.c:1090-1096 | one occurrence of the old group becomes the new one, nothing else changes |
| Groups.Process.SysSetGroupID | syscall/process_syscall.c:1071-1115 | result code; with the capability the group changes, and in the list the first place that held the old group, and no other; without it nothing changes |
| Groups.Process.SysSetRealEffSaveGroupID | syscall/process_syscall.c:1201-1232 | succeeds exactly if the ids given agree and may be set; then the list changes in the first place of the old group only, and not at all without the capability or an id |
| Groups.Process.SetGroups | syscall/process_syscall.c:1279-1309 | `listSize + 1` slots hold the list, with the own group appended if it was absent |
| Groups.Process.SysSetGroups | syscall/process_syscall.c:1401-1457 | every error case; otherwise the list given, with the own group |
| Groups.Process.GetGroups | syscall/process_syscall.c:1317-1359 | every error case; otherwise the list is copied out |
| Groups.Process.SetThenGet | syscall/process_syscall.c:1279-1457 | getgroups returns what setgroups was given, with the own group appended only if absent |
| Groups.Process.PerformAll | syscall/process_syscall.c:1071-1457 | every run keeps real and effective group equal and in the list |
| BootArgs.StrSep | fs/rootfs/los_bootargs.c:178-179 | cuts at the first separator |
| BootArgs.CutLaw | fs/rootfs/los_bootargs.c:164-194 | words end at the first space, and names at the first `=`; a word without `=` is its own value |
| BootArgs.ArgTable.ParseBootargs | fs/rootfs/los_bootargs.c:164-194 | the first hundred words fill the table, each split at its first `=` |
| BootArgs.ArgTable.GetArgValue | fs/rootfs/los_bootargs.c:202-219 | the value of the first slot with that name |
| BootArgs.BootArgsRoundTrip | fs/rootfs/los_bootargs.c:164-219 | printing, parsing and looking up gives the value of the first argument with that name among the first hundred, or none if there is none |
| Regions.CheckRegion | syscall/syscall_pub.c:39-51 | a call that ends answers 0 or -1 |
| Regions.MappedMeans | syscall/syscall_pub.c:39-51 | a region is found exactly if the address lies in one; a range is covered exactly if each address does |
| Regions.SpaceMeans | syscall/syscall_pub.c:39-51 | an address space: regions that are not empty, end at 2^32 at most, and lie one behind the other |
| Regions.CheckRegionRight | syscall/syscall_pub.c:39-51 | outside of the region at the top, and for ranges with a hole, the call ends and accepts exactly the mapped ranges |
| Regions.CheckRegionTop | syscall/syscall_pub.c:45-50 | a mapped range that ends in the region at the top goes on as a check of all addresses below its end |
| Regions.CheckRegionLoops | syscall/syscall_pub.c:48-50 | if these are mapped too, the recursion has no end |
| Regions.CheckRegionCovers | syscall/syscall_pub.c:39-51 | for ranges that neither are empty nor wrap: exactly when the answer is right, and exactly when there is one |
| Regions.TopRejected | syscall/syscall_pub.c:45-50 | a mapped range that is rejected |
| Regions.CheckRegionOtherwise | syscall/syscall_pub.c:45-50 | what an empty or wrapping range is decided by |
| SyscallTable.NibbleOr | syscall/los_syscall.c:134-134 | adding a count changes its own nibble only |
| SyscallTable.CountsSame | syscall/los_syscall.c:123-140 | equal repeated registrations decode to that count |
| SyscallTable.CountsNone | syscall/los_syscall.c:113-117 | a number never registered has no handler and count 0 |
| SyscallTable.Table.Register | syscall/los_syscall.c:130-135 | handler and nibble are written, the upper nibble for odd numbers; the table holds one registration more, for every number; a number out of range changes nothing |
| SyscallTable.Table.OsSyscallHandleInit | syscall/los_syscall.c:123-140 | the packed table holds what was registered, for every number |
| SyscallTable.Table.Decode | syscall/los_syscall.c:170-185 | decodes handler and count, or rejects the number |

## Left out

- Vnodes.VnodeLayer.VnodeLookupAt: needs a path that is not empty, with components of at most 255 octets, and a start vnode; paths are sequences of octets without the final NUL. `vfs_normalize_path` and `PreProcess` are not part of this model.
- Vnodes.VnodeLayer.VnodeLookupAt: the bookkeeping of `filePath`, and ENOMEM when its copy finds no memory, are not modelled.
- Vnodes.VnodeLayer.VnodeLookupAt: with fewer than two vnodes to be had and an allocator that now finds memory and now does not, the outcome is stated step by step (VfsLookup.Stepped) and not from the state before the call, because it depends on how often memory is asked for in between.
- Vnodes.VnodeLayer.Step: the flags V_CREATE and V_DUMMY are modelled separately, by CreateVirtual, and for devfs directories only; a missing `Lookup` operation (ENOSYS) does not occur.
- Vnodes.VnodeLayer.FsLookup: the `Lookup` of jffs2 stands for that of all file systems; the inode tables of jffs2 itself are not modelled.
- Vnodes.VnodeLayer.MountRoot: sets the flag of the mounted root, which the mount system call does outside of the files modelled.
- Vnodes.VnodeLayer.PerformAll: the file systems do not change during a run; creating, linking, removing and renaming files, and the coherence of the cache across that, are not modelled.
- Vnodes.VnodeLayer.EndMount: the root vnode of the mount stays flagged, as it does in ForceUmountDev; the Unmount operation of the file system is not modelled.
- Vnodes.VnodeLayer: lists are sequences here; that the ring operations do to the links what these sequences say is proved in `Lists`.
- ConsoleLine.Console.ReadAll: read sizes are 1 to 1024; ConsoleRead refuses 0 and cuts larger ones down.
- Groups.Process.GetGroups: copying to and from user memory succeeds exactly if the buffer is long enough.
- InitLevels.Start: the other cores enter level 9 when level 8 has ended; how they are started is not modelled. A NULL hook is handed out like any other.
- The locks VnodeHold, VnodeDrop and the mutex of the vnode hash: each VFS operation is one step.
- ChangeRoot, chroot, the container variants of mounts, users and processes: they depend on process structures outside of these files.
- Page-cache fields of vnodes and `Reclaim` callbacks: they change none of the lists.
- The non-canonical mode of console reads, console output, ioctl and poll plumbing: thin forwarding.
- LOS_HashFNV32aStr: the same loop with another end condition.
- Most system calls (files, network, IPC, time, memory): copy-in and copy-out around functions outside of these files.
- Reading the command line from storage, mounting the root file system: device input and output.
