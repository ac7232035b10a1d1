# Noverix: a verified model of the kernel's stateful cores

Noverix is a small x86 kernel. This project models the parts of it whose correctness
depends on invariants across many functions, and proves those invariants:

- **NVFS**, the extent-based file system (`NvfsFormat` to `NvfsSession`, `Mknvfs`). The disk is a
  sequence of 512-byte sectors; every sector write appends the resulting volume to a trail, and a
  power cut is any element of that trail. `NvfsFormat` and `NvfsImage` tie bytes to fields,
  `NvfsVolume` is the mirrored volume (bitmap, inodes, blocks), `NvfsOwnership` the block account,
  `NvfsExtents`, `NvfsCommit` and `NvfsFiles` shadow paging, `NvfsTable` the growth of the inode
  table, `NvfsSlots` to `NvfsDirAdd` directories as maps, `NvfsTree` to `NvfsNamespace` names and
  paths, `NvfsWalks` what a path means, `NvfsUpdates` and `NvfsApi` the public calls on a tree of files, `NvfsReadBack`,
  `NvfsPowerCut` and `NvfsSession` compositions of calls, `NvfsLimits` and `NvfsLoss` what breaks beyond
  the driver's limits, `NvfsMount` and `Mknvfs` mounting and formatting.
- **The heap** (`HeapTiling`, `Heap`): memory is an array of words with boundary tags; a ghost
  tiling lists the blocks.
- **SMP task switching** (`TaskModel` to `TaskEffects`, `Tasks`): a state machine whose steps are the
  sections under the scheduler lock, plus the unlocked save before and the step that leaves the old
  stack after, taken by any number of CPUs in any order; `Tasks` runs the same steps on tasks linked
  by `next` addresses.
- **Frames, page tables and processes** (`Frames`, `PageTables`, `Paging`, `ProcessFrames`,
  `ProcessWorld`, `Processes`): bitmap allocation, two-level tables against a flat map, and the
  account of every frame from exec to exit or kill.
- **The work queue** (`WorkModel`, `WorkQueue`): lock sections of any CPUs in any order, with the
  history of accepted submissions and calls.
- **The Internet checksum** (`Checksum`), section 1 of RFC 1071, as used for IPv4, ICMP and TCP.

`Bytes` (little-endian words, bits) and `Collections` are shared.

Main results, in one line each: overwrite and append are crash safe after every sector write, and a
machine that comes up again mounts the volume and reads the old or the new bytes; block ownership and
the namespace tree survive every public call under an exact condition; directories refine maps, and
over any run of calls the file system follows a tree of byte strings and, once formatted, marks no
block without an owner; the heap's blocks always tile it and no call changes a word of another live
block; no task is ever current on, or resumed beside, two CPUs, and it resumes on the stack it was saved with;
READY tasks, pinned or new, are served within list-length switches and sleepers never run early; exec,
exit and kill conserve frames, and processes reach only their own; every path leads where its components
say; every accepted job runs at most once, on its CPU, and has run once when no slot is busy; a stored checksum checks.

## Where the code and its description differ

The model follows the code.

- The repository's `README.md:312` promises up to 64 further extents; `inode_read` clamps the count to 14
  (`kernel/drivers/nvfs.c:106`), so a directory with 14 extents and no free slot loses the next entry
  and leaks one block while reporting success (`NvfsDirAdd.AddLost`). `NvfsDirAdd.DirAdd` states the
  exact condition. On the volumes that the formatter and the driver make it takes at least 226 inodes to
  lose the entry of a free inode (`NvfsLoss.LossNeedsInodes`), and 226 suffice (`NvfsLoss.LossHappens`); the formatter's
  128 do not.
- Its `README.md:314` promises a growing inode table. The next mount accepts the grown drive exactly if
  a sector lies between the inode table and the data (`NvfsTable.NextMount`); without one the inodes
  gained are the contents of data block 0 (`NvfsTable.GainedAreData`). The formatter leaves no such
  gap (`Mknvfs.GrowthUnmounts`). The block that a growth takes from the data area stays marked and is
  never used (`NvfsGrow.GrowthLeaks`).
- Its `README.md:313` promises that old data survives a power cut. That holds for overwrite and append.
  Deletion unmarks blocks before it clears the inode, and the volumes in between are not consistent
  (`NvfsFiles.UnmarkedReference`). The same happens when a new file is released because its entry does
  not fit after its data was stored (`NvfsCreate.Create`).
- `nvfs_write` onto a directory is not rejected. The namespace survives exactly when the bytes, read as
  directory slots, list the same inodes once each under good names (`NvfsLimits.DirectoryOverwrite`,
  with a failing call in `NvfsLimits.WriteOntoEmpty`). `nvfs_rmdir` may remove the current directory
  (`NvfsApi.FileSystem.Rmdir` says exactly when the invariant survives, `NvfsReadBack.RemoveCurrent`
  shows the calls).
- An old indirect block whose number is 0 is never released (`NvfsFiles.ReleaseOld`). Files written by
  the driver or the formatter have no indirect block, so on their volumes nothing is leaked over any
  run of calls that `NvfsSession.Lean` admits (`NvfsSession.FormatAndRun`).
- The layout check of `nvfs_mount` adds in 32 bits: what it accepts is in order exactly if neither sum
  wraps (`NvfsMount.AcceptedInOrder`, with a layout that passes in `NvfsMount.WrappedAccepted`).
- A directory that cannot grow on a full drive fails with an I/O error instead of "disk full" as long as
  the bitmap has unmarked bits beyond the end of the drive (`NvfsDirAdd.FullError`).
- `map_page_to_dir` does not widen a directory entry that is there already, so a page asked for user mode
  under an entry closed to it stays closed (`Paging.AddressSpaces.MapPage`).
- `realloc` can leave two free neighbours (`Heap.ShrinkCoalesced`), and for the last eleven 32-bit
  sizes it returns a block that is too small (`Heap.NeedHolds`).
- `check_icmp_checksum` rejects a field of 0xFFFF where 0 was due, which RFC 1071 treats as equal
  (`Checksum.FieldMatchesIff`).
- `SYS_SLEEP_MS` rounds up in 32-bit arithmetic: the last nine counts of milliseconds sleep for no tick
  at all, and at tick 0 they, like 0 ms, sleep for ever (`Tasks.Scheduler.SleepMs`).

## Model

| member | source | states |
|---|---|---|
| NvfsFormat.SectorBitLaw | kernel/drivers/nvfs.c:46-66 | storing one bit of a bitmap sector changes that bit and no other of the 4096 |
| NvfsFormat.InodeRoundTrip | kernel/drivers/nvfs.c:92-136 | an inode record written into any of the four places of a sector reads back field by field |
| NvfsFormat.InodeNeighbour | kernel/drivers/nvfs.c:116-136 | writing one inode leaves the other records of its sector as they were |
| NvfsFormat.CStringUnique | kernel/drivers/nvfs.c:412-415 | a stored name ends at its first zero byte, so it has exactly one reading |
| NvfsImage.SetUsedLaw | kernel/drivers/nvfs.c:56-66 | a bitmap write changes the bit of one block and nothing else on the volume: no inode, no data block, no other bit |
| NvfsImage.PutBlockLaw | kernel/drivers/nvfs.c:41-44 | a data block write changes that block and neither bitmap nor inodes |
| NvfsImage.PutNodeLaw | kernel/drivers/nvfs.c:116-136 | an inode write changes that inode only, with the extent count that inode_read will report (at most 14) |
| NvfsVolume.Frame | kernel/drivers/nvfs.c:213-234 | volumes that agree on an inode and on the blocks it references agree on its extents, its blocks and its contents |
| NvfsDriver.Drive.WriteSector | kernel/drivers/nvfs.c:31-34 | a sector write is one atomic step of the trail and of the history of images, and keeps the sectors before the bitmap if it lies behind them; beyond the end of the disk it fails and changes nothing |
| NvfsDriver.Drive.BitmapTest | kernel/drivers/nvfs.c:46-54 | answers whether the block is marked |
| NvfsDriver.Drive.BitmapSet | kernel/drivers/nvfs.c:56-66 | marks or unmarks exactly the block, as one sector write |
| NvfsDriver.Drive.BitmapFind | kernel/drivers/nvfs.c:68-90 | returns the lowest start of a free run whenever one lies inside the bitmap, and never a marked block |
| NvfsDriver.Drive.InodeRead | kernel/drivers/nvfs.c:92-114 | reads the inode of the mirrored volume; fails exactly for numbers outside the table |
| NvfsDriver.Drive.InodeWrite | kernel/drivers/nvfs.c:116-136 | replaces that inode of the volume in one sector write, fails exactly outside the table |
| NvfsDriver.PackInode | kernel/drivers/nvfs.c:121-135 | the field-by-field stores amount to the packed record, for every offset in the sector |
| NvfsDriver.Drive.ExtentLoadAll | kernel/drivers/nvfs.c:213-234 | lists the direct extents and those of the indirect block; fails exactly when the indirect block is off the drive |
| NvfsDriver.Drive.IndirectReadExtents | kernel/drivers/nvfs.c:175-186 | reads up to 64 extents of the indirect block in order |
| NvfsOwnership.MovesKeeps | kernel/drivers/nvfs.c:349-385 | a change confined to the blocks of one inode leaves every other inode with its blocks and contents |
| NvfsOwnership.MovesAcct | kernel/drivers/nvfs.c:300-385 | block ownership (extents and indirect blocks of live inodes disjoint, marked blocks = referenced blocks + leaked set) survives every such change |
| NvfsOwnership.MovesObjects | kernel/drivers/nvfs.c:300-385 | such a change shows as an update or a removal of one object of the volume |
| NvfsOwnership.RebooksAcct | kernel/drivers/nvfs.c:361-374 | writes to free or leaked blocks, and marks on them, keep ownership and every object |
| NvfsContents.StoredReadsBack | kernel/drivers/nvfs.c:327-385 | data cut into sectors with the last one padded reads back as exactly the data |
| NvfsContents.BlockListAt | kernel/drivers/nvfs.c:338-344 | block j of extent i sits at the position the sequential read reaches it |
| NvfsExtents.ExtentWrite | kernel/drivers/nvfs.c:349-385 | succeeds exactly when a free run of the needed length lies on the drive; then data is stored and marked there; a failure unmarks what it marked; no sector write on the way touches anything allocated |
| NvfsExtents.ExtentRead | kernel/drivers/nvfs.c:327-347 | delivers the first min(size, max) bytes of the file |
| NvfsExtents.FreeExtents | kernel/drivers/nvfs.c:309-312 | unmarks exactly the blocks of the extents, one sector write each, in file order |
| NvfsCommit.ShadowKeeps | kernel/drivers/nvfs.c:349-385 | until the inode is switched, every intermediate volume is consistent and shows the old contents |
| NvfsCommit.Commit | kernel/drivers/nvfs.c:896-900 | once the inode points at the stored data, the volume shows the new contents, all else unchanged, and the old blocks are the only leak |
| NvfsCommit.FreedAcct | kernel/drivers/nvfs.c:902-907 | unmarking leaked blocks in any order keeps the volume consistent and its contents |
| NvfsCommit.Rewrite | kernel/drivers/nvfs.c:514-518 | rewriting one block of an object in place changes that object only |
| NvfsFiles.ReleaseOld | kernel/drivers/nvfs.c:902-907 | the old blocks are released one by one under crash safety; an old indirect block numbered 0 stays marked (the code tests the number for truth) |
| NvfsFiles.Overwrite | kernel/drivers/nvfs.c:875-910 | crash safety of overwrite: after every prefix of its sector writes the volume is consistent and shows exactly the old or exactly the new contents, with every other inode unchanged; it succeeds exactly when the data fits, and then notes the time |
| NvfsFiles.AppendTo | kernel/drivers/nvfs.c:1172-1203 | crash safety of append: the same for the first 4096 bytes of old followed by new |
| NvfsFiles.InodeAlloc | kernel/drivers/nvfs.c:251-298 | the lowest free inode is initialised; without one the table grows exactly when a block is free, and the next mount then finds the grown table or refuses the drive exactly by the gap behind the table |
| NvfsTable.GrowTable | kernel/drivers/nvfs.c:141-170 | on a drive with a free block the lowest one is taken and the two superblock words and the geometry count one sector more; otherwise nothing has changed; the next mount accepts the drive exactly if there was a gap between table and data |
| NvfsGrow.GrowthLeaks | kernel/drivers/nvfs.c:149-170 | the block that a growing inode table takes is marked and referenced by no inode: each growth costs one block for good |
| NvfsTable.NextMount | kernel/drivers/nvfs.c:734-772 | the mount probe of the grown superblock returns the grown layout with a gap and refuses the drive without one |
| NvfsTable.GrownLayout | kernel/drivers/nvfs.c:758-767 | the mount check accepts the grown layout if and only if a sector lies between the inode table and the data |
| NvfsTable.GainedAreData | kernel/drivers/nvfs.c:92-136 | without a gap, the inodes gained are read from and written into data block 0 |
| NvfsTable.GainedInGap | kernel/drivers/nvfs.c:92-136 | with a gap, the grown drive shows the same blocks and marks and the old inodes, and four more |
| NvfsTable.AllocGained | kernel/drivers/nvfs.c:277-298 | the first of the four gained inodes whose type byte is 0 is written, into data block 0 exactly without a gap |
| NvfsFiles.InodeFree | kernel/drivers/nvfs.c:300-322 | the object is gone and its blocks are free, ownership kept |
| NvfsFiles.UnmarkedReference | kernel/drivers/nvfs.c:309-321 | before inode_free's last write the volume is not consistent: a power cut there leaves a live inode with unmarked blocks |
| NvfsSlots.NoMatch | kernel/drivers/nvfs.c:405-421 | no slot matches a name exactly when the directory's map has no such key |
| NvfsSlots.FillSlot | kernel/drivers/nvfs.c:511-518 | filling a free slot is insertion into the map |
| NvfsSlots.ClearSlot | kernel/drivers/nvfs.c:571-577 | clearing a slot is deletion from the map |
| NvfsSlots.AddSlots | kernel/drivers/nvfs.c:530-542 | a new block with its first slot filled is insertion into the map |
| NvfsSlots.EmptyMeansNoEntries | kernel/drivers/nvfs.c:585-606 | all inode fields zero exactly when the map is empty |
| NvfsSlots.DirentHolds | kernel/drivers/nvfs.c:496-500 | the stored 32 bytes carry the name cut at 27 bytes and the inode |
| NvfsDirs.NameMatches | kernel/drivers/nvfs.c:412-415 | the byte loop answers equality of the stored name with the key |
| NvfsDirs.DirFind | kernel/drivers/nvfs.c:390-422 | look-up in the map of the directory, with the error code otherwise |
| NvfsDirs.DirRemove | kernel/drivers/nvfs.c:545-583 | deletion from the map: succeeds exactly when the name is there, changes that directory only, and every sector write shows the old or the new directory |
| NvfsDirScan.DirEmpty | kernel/drivers/nvfs.c:585-606 | true exactly when the map of the directory is empty |
| NvfsGrow.IndirectWriteExtents | kernel/drivers/nvfs.c:188-198 | the block written reads back as the same extents |
| NvfsGrow.IndirectAlloc | kernel/drivers/nvfs.c:200-209 | reserves and zeroes a free block exactly when there is one, touching nothing allocated |
| NvfsGrow.ExtendedCommit | kernel/drivers/nvfs.c:424-480 | the inode write that adds a block (and an indirect block) keeps ownership and appends that block to the directory |
| NvfsGrow.DirAddExtent | kernel/drivers/nvfs.c:424-480 | the 14th extent moves into a new indirect block; needs one free block for that, and fails with NO_SPACE exactly without it |
| NvfsDirAdd.AddBlock | kernel/drivers/nvfs.c:524-542 | the directory gains one block with the entry in its first slot, exactly when one free block (two for the 14th extent) exists |
| NvfsDirAdd.AddLost | kernel/drivers/nvfs.c:424-480 | on 14 extents the code reports success, loses the entry and leaks exactly one block |
| NvfsDirAdd.DirAdd | kernel/drivers/nvfs.c:482-543 | insertion that rejects duplicates; succeeds exactly if Insertable; keeps its promise exactly on directories with room (Roomy), every sector write showing the old or the new directory; every failure has its exact error number |
| NvfsTree.TreeWrite | kernel/drivers/nvfs.c:875-910 | the namespace stays a tree when a file's contents change |
| NvfsTree.TreeGraft | kernel/drivers/nvfs.c:912-945 | the namespace stays a tree rooted at inode 0 when a leaf is entered |
| NvfsTree.TreePrune | kernel/drivers/nvfs.c:951-1030 | and when a file or an empty directory is removed |
| NvfsTree.TreeRelistIff | kernel/drivers/nvfs.c:875-897 | other entries in one directory leave a tree if and only if they list the same inodes, once each and under good names |
| NvfsTree.TreeOrphan | kernel/drivers/nvfs.c:912-945 | a new node that no directory lists leaves no tree |
| NvfsPaths.ParentIsParent | kernel/drivers/nvfs.c:616-642 | in a tree the search for a parent finds the one directory that lists the inode |
| NvfsPaths.WalkChain | kernel/drivers/nvfs.c:684-709 | walking a chain of names ends at its last entry |
| NvfsPaths.RenderResolves | kernel/drivers/nvfs.c:1032-1136 | the rendered path of a directory resolves to that directory from any current directory |
| NvfsNamespace.FindParent | kernel/drivers/nvfs.c:616-642 | the scan over inodes, extents, blocks and slots computes the lowest listing directory |
| NvfsNamespace.StepInto | kernel/drivers/nvfs.c:687-706 | one component: dot, dot-dot, or an upper-cased look-up that must be a directory, with the code's error numbers |
| NvfsNamespace.FinalName | kernel/drivers/nvfs.c:711-728 | the last component of the walk that NvfsWalks gives a meaning to: dot and dot-dot end in a directory, other names are upper-cased |
| NvfsNamespace.ResolvePath | kernel/drivers/nvfs.c:647-729 | the character loops compute the walk over components, for every path and current directory; NvfsWalks.ResolveLeads says where it ends |
| NvfsWalks.ResolveLeads | kernel/drivers/nvfs.c:647-729 | for every path and every way to spell it as components: resolve_path delivers the directory that the components lead to by listing and being listed (a dot stays, two dots go to the directory that lists this one), with the last name, or the error of the first component that cannot be followed; both directions, all error numbers |
| NvfsWalks.TargetLeads | kernel/drivers/nvfs.c:1032-1057 | the same for nvfs_chdir, which follows the last component too |
| NvfsWalks.Split | kernel/drivers/nvfs.c:656-710 | every string of bytes is spelt by some components without slashes, so the two above cover every path |
| NvfsWalks.UpLeads | kernel/drivers/nvfs.c:667-673 | nvfs_chdir with two dots goes to the directory that lists the current one |
| NvfsWalks.RootStops | kernel/drivers/nvfs.c:667-669 | at the root it fails with the error for a bad path |
| NvfsWalks.NameLeads | kernel/drivers/nvfs.c:663-682 | a listed name in either case leads to the current directory and that name, and into the directory of that name |
| NvfsWalks.HereThenName | kernel/drivers/nvfs.c:684-728 | the same with a dot and a slash before the name |
| NvfsWalks.UpThenName | kernel/drivers/nvfs.c:684-728 | with two dots and a slash before it, the name is looked for in the parent |
| NvfsSpace.PreparedTakes | kernel/drivers/nvfs.c:349-385 | storing data takes exactly its number of sectors from the free blocks |
| NvfsCreate.MakeObject | kernel/drivers/nvfs.c:912-942 | a new inode with its contents, exactly when an inode and a run are free; every sector write, also on the way to a failure, keeps all other objects |
| NvfsCreate.Create | kernel/drivers/nvfs.c:912-945 | creation succeeds exactly when the name is new and there is an inode, a run for the data and room for the entry behind it; then exactly the leaf and its entry appear, or on a full directory of 14 extents the entry is lost; a failure changes no object, and all volumes on the way to it are consistent exactly when no data was stored first |
| NvfsSpace.ErrorForetold | kernel/drivers/nvfs.c:912-945 | which error a creation ends with is decided beforehand: no inode, no run for the data, a taken name, or a directory that cannot grow once the data is stored |
| NvfsCreate.NewTimes | kernel/drivers/nvfs.c:241-246 | a new inode carries the low 24 bits of its time of creation and the whole as time of change |
| NvfsApi.ResolveEnds | kernel/drivers/nvfs.c:647-729 | a path ends in a directory, with a name that can be entered there |
| NvfsApi.FileSystem.constructor | kernel/drivers/nvfs.c:768-769 | mounting starts at the root with the invariants of the volume |
| NvfsApi.FileSystem.Lookup | kernel/drivers/nvfs.c:870-874 | tells the three places a path can lead to: an entry, a free name, nowhere (with the error) |
| NvfsApi.FileSystem.Read | kernel/drivers/nvfs.c:841-863 | returns the first max bytes exactly when the path leads to a file, and otherwise -1 with the right one of all error numbers |
| NvfsApi.FileSystem.Write | kernel/drivers/nvfs.c:865-949 | the tree changes at that object only (or gains that file), with exact success conditions; every sector write of an overwrite leaves a consistent volume that shows the old or the new tree and keeps all invariants of a mounted one; a creation leaves consistent volumes that show the old or the new tree apart from the new node, except that a creation whose entry is refused after its data was stored passes through inconsistent ones; the invariants survive exactly if the target is no directory given other entries and the directory can list the new file; every failure has its exact error number |
| NvfsUpdates.SoundOverwrite | kernel/drivers/nvfs.c:875-910 | a volume on which an object now holds raw bytes is sound if and only if the object is no directory or the bytes are a table without duplicates that lists the same inodes |
| NvfsUpdates.OverwriteShows | kernel/drivers/nvfs.c:875-910 | after every sector write of an overwrite the volume shows the old or the new tree, and all invariants of a mounted volume hold |
| NvfsApi.FileSystem.Append | kernel/drivers/nvfs.c:1155-1209 | the file becomes the first 4096 bytes of old followed by new, exactly when it is a file and they fit, under crash safety; every volume on the way keeps all invariants of a mounted one; every failure has its exact error number |
| NvfsApi.FileSystem.Delete | kernel/drivers/nvfs.c:951-974 | succeeds exactly on files; the file and its entry are gone, the rest of the tree is unchanged; every failure has its exact error number |
| NvfsApi.FileSystem.Mkdir | kernel/drivers/nvfs.c:976-1004 | succeeds exactly for a new name with room; an empty directory appears there and nothing else changes; every failure has its exact error number and leaves consistent volumes on the way; the invariants survive exactly if the parent can list one more entry |
| NvfsApi.FileSystem.Rmdir | kernel/drivers/nvfs.c:1006-1030 | succeeds exactly on empty directories; the invariant of the whole volume then holds exactly if the current directory was not the one removed; every failure has its exact error number |
| NvfsApi.FileSystem.Chdir | kernel/drivers/nvfs.c:1032-1057 | the current directory becomes the one that the components of the path lead to, the root for the empty path; on every error it stays, and the error number is that of the first component that cannot be followed |
| NvfsApi.FileSystem.PathString | kernel/drivers/nvfs.c:1075-1136 | renders the names from the root, the deepest sixteen, cut to the buffer |
| NvfsUpdates.PlainStrands | kernel/drivers/nvfs.c:902-907 | overwriting a file of at most 13 extents leaks nothing |
| NvfsApi.RemoveObject | kernel/drivers/nvfs.c:1023-1024 | inode_free and dir_remove together prune one leaf from the tree |
| NvfsReadBack.ResolveKept | kernel/drivers/nvfs.c:647-729 | a path that leads somewhere leads to the same directory and name after a file is written or created |
| NvfsReadBack.SeekLeads | kernel/drivers/nvfs.c:870-874 | every call that takes a path acts on the entry that the components lead to: an inode listed there, a name not listed there, or an error, each exactly then |
| NvfsReadBack.WriteThenRead | kernel/drivers/nvfs.c:841-949 | nvfs_read after a successful nvfs_write returns the first max bytes written, for old and new files |
| NvfsPowerCut.WriteCutRead | kernel/drivers/nvfs.c:734-910 | mount, nvfs_write onto a file, a power cut after any number of its sector writes, mount again and nvfs_read: nvfs_mount takes the same place, and the file has exactly its old or exactly its new bytes |
| NvfsPowerCut.AppendCutRead | kernel/drivers/nvfs.c:1155-1209 | the same for nvfs_append |
| NvfsPowerCut.ProbeKept | kernel/drivers/nvfs.c:734-772 | after every sector write since the mount, the mount probe answers as it did then |
| NvfsReadBack.AppendThenRead | kernel/drivers/nvfs.c:841-863 | nvfs_read after a successful nvfs_append returns the first max of the first 4096 bytes of old followed by new |
| NvfsReadBack.PathThenChdir | kernel/drivers/nvfs.c:1032-1136 | nvfs_path_string of a directory at depth at most 16 whose path fits, followed by nvfs_chdir, ends in that directory |
| NvfsReadBack.RemoveCurrent | kernel/drivers/nvfs.c:976-1057 | a failing sequence: nvfs_mkdir, nvfs_chdir and nvfs_rmdir with one absolute path all succeed and leave a sound volume without the current directory |
| NvfsLimits.PathRoundTrip | kernel/drivers/nvfs.c:1075-1136 | the uncut rendering of any directory at depth at most 16 resolves back to it |
| NvfsLimits.DirectoryOverwrite | kernel/drivers/nvfs.c:875-897 | for all bytes: writing onto a directory keeps the namespace a tree if and only if the bytes, read as slots, list the inodes it listed, once each and under good names |
| NvfsLimits.EmptyOverwrite | kernel/drivers/nvfs.c:875-897 | without bytes, exactly when the directory was empty |
| NvfsLimits.OneEntryOverwrite | kernel/drivers/nvfs.c:875-897 | with the 32 bytes of one entry, exactly when the directory listed that inode and no other |
| NvfsLimits.OwnTableKeeps | kernel/drivers/nvfs.c:875-897 | with bytes that read as its own slots, always |
| NvfsLimits.WriteOntoEmpty | kernel/drivers/nvfs.c:875-910 | a failing call: one entry written onto an empty directory is reported as success and leaves no tree |
| NvfsLimits.EmptyDirectoryBroken | kernel/drivers/nvfs.c:875-897 | and a tree on which it fails: a root that lists an empty directory |
| NvfsLoss.FullDirectoryNeedsInodes | kernel/drivers/nvfs.c:482-543 | a directory without a free slot has fewer slots than the table has inodes, and one less if an inode is free |
| NvfsLoss.LossNeedsInodes | kernel/drivers/nvfs.c:424-480 | on the volumes that the formatter and the driver make, where a directory has a block for each extent, a directory of 14 extents without a free slot needs more than 224 inodes, and more than 225 with a free inode left |
| NvfsLoss.LossHappens | kernel/drivers/nvfs.c:424-480 | the bound is met: a sound volume of 226 inodes on which a new file can be created and its entry would be lost |
| NvfsMount.Mount | kernel/drivers/nvfs.c:734-778 | takes the first of the eight places that carries the signature and a valid layout, -1 exactly when there is none |
| NvfsMount.ProbeMeans | kernel/drivers/nvfs.c:747-767 | which superblocks are taken, word by word, and the geometry each gives, whenever the two sums of the check do not wrap |
| NvfsMount.AcceptedInOrder | kernel/drivers/nvfs.c:758-767 | of the superblocks that pass the check, exactly those without a wrapping sum have bitmap, inodes and data behind each other |
| NvfsMount.WrappedAccepted | kernel/drivers/nvfs.c:758-767 | a layout that passes the check with a wrapping sum, its bitmap over everything behind it |
| NvfsMount.MountKept | kernel/drivers/nvfs.c:734-778 | a drive on which nothing before the bitmap has changed is taken again, with the same geometry |
| Mknvfs.SuperblockParses | tools/mknvfs.py:28-44 | the formatter's superblock parses to its layout, and the layout passes the mount check |
| Mknvfs.GrowthUnmounts | tools/mknvfs.py:28-44 | the formatter leaves no gap: once the inode table of its volume has grown, the mount probe refuses the drive |
| Mknvfs.PackFile | tools/mknvfs.py:66-106 | one turn of the packing loop: bits, data and inode of one more file, nothing else |
| Mknvfs.PackedTree | tools/mknvfs.py:60-120 | the packed directory is a tree of distinct good names |
| Mknvfs.Create | tools/mknvfs.py:25-133 | an image of at most 16 fitting files with distinct upper-cased names satisfies block ownership without a leak and the namespace invariant, and holds exactly these files |
| Mknvfs.CreateEmpty | tools/mknvfs.py:122-133 | without files: an empty root directory under the same invariants |
| Mknvfs.PackedFile | tools/mknvfs.py:66-106 | every packed file is listed in the root under its upper-cased name with its bytes |
| Mknvfs.MountsFormatted | kernel/drivers/nvfs.c:734-772 | nvfs_mount takes a formatted first drive at offset 0 |
| Mknvfs.FormatMountRead | tools/mknvfs.py:25-133 | format, mount and read: every packed file reads back as its bytes (up to max) |
| NvfsVolume.ViewBehind | kernel/drivers/nvfs.c:737-746 | a volume behind other sectors is the same volume, bit for bit, at a later offset |
| Mknvfs.MountsBehind | kernel/drivers/nvfs.c:737-746 | 2880 sectors without a volume of their own and then a formatted image: nvfs_mount takes offset 2880 |
| Mknvfs.BootMountRead | Makefile:105-107 | on the image of boot code and volume in one, every packed file reads back as its bytes (up to max) |
| NvfsSession.Run | kernel/drivers/nvfs.c:841-1057 | any sequence of calls: each call that fails leaves the tree alone, each that succeeds does to it what its name says, all invariants hold afterwards, and the marked blocks are exactly the referenced ones; it ends early only at a call that would grow the inode table, write onto a directory, remove the current one, or make an entry in a directory of 14 extents without a free slot |
| NvfsSession.FormatAndRun | tools/mknvfs.py:25-133 | the same from the formatter and a mount on, where no directory ever gets that full; and after every sector write of the run the mount probe finds the formatted layout |
| NvfsSession.Admit | kernel/drivers/nvfs.c:865-1030 | decides exactly whether a call is one that Run makes |
| Heap.NeedHolds | kernel/memory/heap.c:120-123 | the 32-bit size computation asks for enough words exactly up to 0xFFFFFFF4, and how many; for the last eleven sizes it wraps to the minimum block |
| Heap.Heap.constructor | kernel/memory/heap.c:24-28 | one free block tiles the heap |
| Heap.Heap.FindFit | kernel/memory/heap.c:54-87 | the walk from the start finds the lowest free block of the needed size, or there is none; it never meets a corrupt size |
| Heap.Heap.SplitBlock | kernel/memory/heap.c:70-77 | four tags are written, the tiling gains one cut, and no word outside the block (nor of the kept payload) changes |
| Heap.Heap.Malloc | kernel/memory/heap.c:38-90 | null exactly for size 0, size above the heap, or when every free block is too short, and then nothing changes; otherwise the lowest fit becomes the only new live block, the bytes from the pointer on lie between its two tags, and no word of any live block changes; neighbours stay coalesced |
| Heap.Heap.Free | kernel/memory/heap.c:153-213 | null, foreign pointers and double frees change nothing; a live block is taken off the live blocks, every other live block keeps all its words, and coalescing is kept |
| Heap.Heap.Realloc | kernel/memory/heap.c:92-151 | null leaves everything as it was; otherwise the block is replaced in place or moved, holds the first min(old payload, rounded size) bytes, is large enough exactly if the size did not wrap, and no other live block changes |
| Heap.Heap.Resize | kernel/memory/heap.c:103-150 | in place exactly when the old block is large enough, else moved to the lowest fit with its payload copied; null exactly without a fit |
| Heap.Heap.Calloc | kernel/memory/heap.c:215-224 | null exactly when the product is 0, too large, overflows or nothing fits; otherwise a granted block whose first num*size bytes are zero |
| Heap.NoOverflow | kernel/memory/heap.c:218-219 | the division tells exactly when the product leaves 32 bits |
| Heap.AllotGranted | kernel/memory/heap.c:67-85 | handing out the first fit adds one live block, of the needed size or up to two words more, and spares all others |
| Heap.ShrinkCoalesced | kernel/memory/heap.c:125-137 | cutting a block down leaves two free neighbours exactly when the remainder meets a free block |
| Heap.ReallocLeavesPair | kernel/memory/heap.c:125-137 | malloc and then realloc on a fresh heap leave two free neighbours |
| HeapTiling.SplitTiled | kernel/memory/heap.c:70-77 | after a split the blocks still tile the heap, with equal header and footer sizes of at least 12 bytes |
| HeapTiling.MergeTiled | kernel/memory/heap.c:185-209 | after a merge the blocks still tile the heap |
| HeapTiling.ReleaseLaws | kernel/memory/heap.c:176-212 | freeing a block and joining both neighbours removes exactly it from the live blocks and keeps: two neighbours are both free only behind a 12-byte first block |
| HeapTiling.FreeSplitCoalesced | kernel/memory/heap.c:70-77 | malloc's split keeps free blocks apart |
| HeapTiling.LiveApart | kernel/memory/heap.c:38-90 | live blocks lie inside the heap and do not overlap |
| HeapTiling.Spares | kernel/memory/heap.c:153-213 | a change confined to some blocks keeps every word of every other live block |
| TaskModel.OrderNext | kernel/task.c:85-93 | following next pointers from the current task visits the list in order and ends at it, so the walk terminates |
| TaskModel.Nearer | kernel/task.c:85-93 | seen from a task the walk meets first, a later one is strictly nearer |
| TaskSteps.SaveInv | kernel/task.c:117-118 | the unlocked saves keep the scheduler invariant |
| TaskSteps.SwitchInv | kernel/task.c:120-150 | the locked section of a switch keeps the invariant on any number of CPUs |
| TaskSteps.TickInv | kernel/cpu/timer.c:28-51 | a tick, with or without the wake-up scan, keeps it |
| TaskSteps.CreateInv | kernel/task.c:60-69 | so does insertion behind the head |
| TaskSteps.KillInv | kernel/task.c:203-227 | so does unlinking a task that is not RUNNING |
| TaskSteps.ExitInv | kernel/elf.c:63-94 | so does SYS_EXIT when another task can take over |
| TaskSteps.StepInv | kernel/task.c:61-227 | every step of every CPU keeps the invariant |
| TaskRuns.RunExclusive | kernel/task.c:79-156 | in every reachable state no task is current on two CPUs, each current task is RUNNING and assigned to its CPU, and no CPU runs a task while another is still on that task's kernel stack |
| TaskRuns.RunLinked | kernel/task.c:61-227 | in every reachable state the list is a single cycle through every CPU's current task |
| TaskRuns.RunBound | kernel/task.c:122-128 | a task once assigned to a CPU stays with it until it ends, over every run |
| TaskRuns.NoMigration | kernel/task.c:79-156 | a task that two CPUs run at two moments of a run is run by the same CPU |
| TaskFair.SwitchNearer | kernel/task.c:79-149 | a switch on its CPU seats a waiting task or brings it strictly nearer |
| TaskFair.FairWithinList | kernel/task.c:79-149 | in every run of ticks, yields and blocks a READY task pinned to a CPU is chosen within list-length switches of that CPU |
| TaskFair.FairToNew | kernel/task.c:79-149 | in every such run a READY task that no CPU has run yet has been current on some CPU within list-length switches of any CPU |
| TaskEffects.SwitchChooses | kernel/task.c:79-101 | a switch goes to the nearest task behind the current one on the list that is READY with a saved stack and unassigned or this CPU's own, field by field; with none it stays |
| TaskEffects.ExitChooses | kernel/elf.c:63-94 | SYS_EXIT hands over to the first task from the head that is READY with a saved stack and on no CPU, ends the old one, and changes no other |
| TaskEffects.SwitchStores | kernel/task.c:108-150 | the old task keeps the stack pointer and wake-up tick passed in, and the state asked for if it leaves; the new one runs here with its stack as it was; no other task changes |
| TaskEffects.ResumesAsSaved | kernel/task.c:108-156 | over every run, the stack pointer that a switch hands out for a task is the one passed in when the task last gave up its CPU |
| TaskEffects.CreateAdds | kernel/task.c:55-69 | a new task is READY on no CPU with the pid and stack given, second on the list; no other task changes but for one link |
| TaskEffects.KillRemoves | kernel/task.c:203-227 | the first task with the pid is FREE and off the list afterwards exactly if no CPU runs it; no other task changes but for one link |
| TaskEffects.CreateThenKill | kernel/task.c:203-227 | a task created under a new pid is the one that this pid kills, and the list is as before |
| TaskSleep.StepIdle | kernel/task.c:181-187 | an idle task that never sleeps, exits or is killed stays listed, pinned and READY or RUNNING under every step |
| TaskSleep.BlockLeaves | kernel/task.c:108-162 | a blocking task always finds a successor and leaves its CPU with its wake-up tick noted |
| TaskSleep.SleepNeverEarly | kernel/elf.c:158-164 | after any run a task that goes to sleep leaves its CPU, and in whatever run follows it is BLOCKED or ended as long as its tick has not come |
| TaskSleep.WakesAtFirstScan | kernel/cpu/timer.c:32-51 | over any run, a scan makes a sleeper READY exactly when its tick has come |
| TaskSleep.RunLost | kernel/cpu/timer.c:42-45 | a task blocked with wake-up tick 0 is never woken, over any run |
| TaskSleep.BootedOk | kernel/kernel.c:1010-1017 | the state after boot, with any number of CPUs and in any list order, satisfies the invariant and has its idle tasks |
| Tasks.Scheduler.PickNext | kernel/task.c:79-101 | the pointer walk returns the first task behind the current one, the current one last, that TaskEffects.SwitchChooses describes, or none |
| Tasks.Scheduler.SwitchSection | kernel/task.c:120-150 | the locked section is the modelled switch step |
| Tasks.Scheduler.SwitchFrom | kernel/task.c:108-156 | saves, switches, and returns the stack pointer of the new task or 0 to stay |
| Tasks.Scheduler.Block | kernel/task.c:158-162 | a switch to BLOCKED with the wake-up tick |
| Tasks.Scheduler.SwitchTick | kernel/task.c:169-179 | a yield if the timer asked for one, with the stack pointer of the new task or 0 to stay; otherwise nothing and 0 |
| TaskSleep.SleepTicksExact | kernel/elf.c:160-161 | the 32-bit rounding gives the fewest ticks that last long enough, for all counts but the nine that wrap; those give none |
| Tasks.Scheduler.SleepMs | kernel/elf.c:158-164 | the sleeper is off its CPU, BLOCKED until the tick computed from the milliseconds, and the returned stack pointer is never 0; the ticks last as long as asked for exactly up to 0xFFFFFFF6 ms, beyond which the 32-bit sum wraps; the sleeper is lost exactly at tick 0 for 0 ms or a count that wraps |
| Tasks.Scheduler.WakeLoop | kernel/cpu/timer.c:37-48 | once around the list, exactly the due sleepers become READY |
| Tasks.Scheduler.TimerHandler | kernel/cpu/timer.c:23-54 | CPU 0 advances the tick and scans if it gets the lock; other CPUs change no task |
| Tasks.Scheduler.Create | kernel/task.c:60-69 | a READY task is linked behind the head |
| Tasks.Scheduler.FindBefore | kernel/task.c:218-222 | the search for the predecessor ends at the one before it on the cycle |
| Tasks.Scheduler.Kill | kernel/task.c:203-227 | -1 exactly when no listed task has the pid, -2 exactly when the first one that has it is RUNNING, and nothing changes; otherwise 0, and that task is FREE and off the list |
| Tasks.Scheduler.Exit | kernel/elf.c:56-95 | the first unassigned READY task from the head takes over the CPU |
| Frames.FrameTable.PutBit | kernel/memory/pfa.c:14-22 | sets or clears exactly one frame of the set the bitmap stands for |
| Frames.FrameTable.AllocFrame | kernel/memory/pfa.c:61-74 | the lowest free frame becomes used; 0 exactly when all are used |
| Frames.FrameTable.FreeFrame | kernel/memory/pfa.c:76-83 | frees exactly that frame; null changes nothing |
| Frames.FrameTable.AllocFrames | kernel/memory/pfa.c:95-117 | the lowest run of free frames; 0 exactly for count 0 or when there is no such run |
| Frames.FrameTable.FreeFrames | kernel/memory/pfa.c:119-127 | frees exactly the run |
| Frames.FrameTable.FreeCount | kernel/memory/pfa.c:85-93 | free count and used frames add up to the total |
| PageTables.StoreInTable | kernel/memory/paging.c:94-96 | a store into a table changes the translation of at most one page of its directory |
| PageTables.TableMade | kernel/memory/paging.c:13-22 | a new empty table changes no translation and keeps the directory sane |
| PageTables.UntouchedMap | kernel/memory/paging.c:13-22 | a directory none of whose frames is written translates every page as before |
| Paging.AddressSpaces.CreateTable | kernel/memory/paging.c:13-22 | a zeroed new frame is named in the directory, writable, and open to user mode exactly if the flags say so; no translation changes in any directory; 0 exactly without a free frame |
| Paging.AddressSpaces.MapPage | kernel/memory/paging.c:86-98 | the flat map of the directory changes at exactly one page even when a table is created; the page is writable and open to user mode as the flags say, and under a table that was there before only as far as its entry allows too; directories that do not share the table are unchanged, and -1 (nothing changed) exactly when a table is needed and no frame is free |
| Paging.AddressSpaces.UnmapPage | kernel/memory/paging.c:110-123 | -1 exactly when the page is unmapped; otherwise exactly that page becomes unmapped |
| Paging.AddressSpaces.GetMapping | kernel/memory/paging.c:135-155 | look-up in the flat map of the kernel directory |
| Paging.AddressSpaces.DirCreate | kernel/memory/paging.c:70-79 | a new directory that translates every page like the kernel's; all others unchanged |
| Paging.AddressSpaces.MapIdentity | kernel/memory/paging.c:34-55 | succeeds exactly when there are frames for the tables; memory in steps of 4 MB is then mapped to itself and nothing else is mapped; otherwise the same holds up to the tables there were frames for |
| ProcessFrames.ProcessSees | kernel/elf.c:346-431 | under a process directory the 512 user pages lead to its own frames, writable and open to user mode, the 8 MB below are unmapped, and elsewhere only what the kernel directory maps is visible |
| ProcessFrames.ProcessReaches | kernel/elf.c:354-431 | if the kernel directory is closed to user mode, user mode can use exactly the pages 0x800 to 0x9FF, and write them |
| ProcessWorld.Isolated | kernel/elf.c:346-431 | then no page that one process can use in user mode is a frame of the kernel's or one that another process can use |
| PageTables.IdentityClosed | kernel/memory/paging.c:34-55 | the identity that init_paging maps is closed to user mode |
| ProcessFrames.MappingStep | kernel/elf.c:354-368 | one turn of the mapping loop maps the next user page and touches no frame that was in use |
| ProcessFrames.BuiltReclaimed | kernel/elf.c:29-40 | the nested free loops reach exactly the process's table and pages, none of the kernel's |
| ProcessWorld.WorldGains | kernel/elf.c:346-475 | a new process on free frames keeps the account: every frame in use is the kernel's or exactly one process's |
| ProcessWorld.WorldLoses | kernel/elf.c:26-49 | a process that gives up what it owns keeps the account |
| ProcessWorld.WorldGrows | kernel/elf.c:356-367 | frames left over by a failed exec count as the kernel's, and the account still holds |
| ProcessWorld.FreesOwn | kernel/elf.c:26-49 | what free_task_resources frees for a process is exactly what it owns |
| Processes.ProcessTable.FreeDir | kernel/elf.c:28-43 | the loops free exactly the reclaimable frames and the directory |
| Processes.ProcessTable.BuildSpace | kernel/elf.c:346-368 | 512 user pages under directory entry 2 on frames that were free, with every frame in use untouched |
| Processes.ProcessTable.Exec | kernel/elf.c:346-475 | a process that owns only frames that were free; translations of every other directory unchanged; the account of all frames kept, also when frames run out |
| Processes.ProcessTable.TaskCreate | kernel/task.c:25-58 | a kernel task owns a stack on free frames, or nothing changes |
| Processes.ProcessTable.Release | kernel/task.c:226-248 | exit and kill free exactly what the process owns, nothing of the kernel's or another's; on an ended process they free nothing |
| Processes.ProcessTable.WholeLife | kernel/elf.c:26-49 | exec, exit, and a kill of the same task: the frames in use are those of before plus the one task_t frame |
| WorkModel.SubmitInv | kernel/scheduler/scheduler.c:29-47 | a submission keeps the queue invariant |
| WorkModel.TakeInv | kernel/scheduler/scheduler.c:84-90 | so does taking a slot |
| WorkModel.FinishInv | kernel/scheduler/scheduler.c:91-95 | so does its release after the call |
| WorkModel.AtMostOnce | kernel/scheduler/scheduler.c:80-100 | in every interleaving each call belongs to an accepted submission, is its only call, has its function and argument, and runs on its assigned CPU |
| WorkModel.IdleMeansDone | kernel/scheduler/scheduler.c:49-66 | when no slot is busy every accepted submission has been called exactly once and has returned |
| WorkModel.RunBalanced | kernel/scheduler/scheduler.c:37-39 | in every interleaving the CPUs' shares of accepted submissions differ by at most one |
| WorkQueue.Scheduler.constructor | kernel/scheduler/scheduler.c:21-27 | all slots free |
| WorkQueue.Scheduler.Submit | kernel/scheduler/scheduler.c:29-47 | function, argument and the next CPU in turn go into the lowest free slot, with the next id; 0 exactly when all slots are busy |
| WorkQueue.Scheduler.StepBegin | kernel/scheduler/scheduler.c:80-89 | takes the lowest submitted slot of this CPU, if any, and yields its own function and argument |
| WorkQueue.Scheduler.StepEnd | kernel/scheduler/scheduler.c:91-95 | the slot is free and its submission done |
| WorkQueue.Scheduler.AnyBusy | kernel/scheduler/scheduler.c:52-61 | no busy slot means every accepted submission has been called and has returned |
| Checksum.FoldIs | kernel/net/net.c:39-40 | folding carries is the remainder modulo 0xFFFF, with 0xFFFF for non-zero multiples |
| Checksum.SumOfParts | kernel/net/tcp.c:32-43 | the word sum of two buffers is the sum of their word sums when the first is even, odd tails included |
| Checksum.StoredChecks | kernel/net/net.c:180-197 | storing the checksum in its zeroed, aligned field makes the checksum of the whole 0 |
| Checksum.FieldMatchesIff | kernel/net/net.c:203-210 | comparing the field with the recomputed checksum is the test for 0 except when the field is 0xFFFF and 0 was due |
| Checksum.AllOnesRejected | kernel/net/net.c:203-210 | an echo reply of 8 bytes with checksum 0 that the comparison rejects |
| Checksum.FoldCarries | kernel/net/net.c:39-41 | the loop terminates and computes the complement of the folded sum |
| Checksum.NetChecksum | kernel/net/net.c:31-42 | the loops compute the complement of the folded word sum, odd lengths included |
| Checksum.TcpChecksum | kernel/net/tcp.c:18-48 | the complement of the folded sum of the halves of both addresses, protocol 6, the length with its bytes exchanged, and the words of the segment |
| Checksum.CheckIcmp | kernel/net/net.c:203-210 | leaves the message as it was and accepts exactly the messages with checksum 0, but for a field 0xFFFF where 0 was due |

## Left out

- NvfsApi.FileSystem.Write: requires that a creation need not grow the inode table; growth itself is stated by NvfsFiles.InodeAlloc, but not what the driver does with the grown geometry afterwards.
- NvfsApi.FileSystem.Mkdir: the same requirement, also for a taken name, because nvfs_mkdir allocates the inode before dir_add looks for the name (kernel/drivers/nvfs.c:985-998).
- NvfsCreate.Create: the same requirement.
- NvfsCreate.MakeObject: the same requirement.
- NvfsApi.FileSystem.Lookup: requires a last component of at most 27 bytes, which is what the name buffer of the callers of resolve_path holds.
- NvfsApi.FileSystem.Delete: crash safety is not claimed, because inode_free unmarks blocks first; it is modelled as a completed operation.
- NvfsApi.FileSystem.Rmdir: crash safety is not claimed, for the same reason.
- NvfsDriver.Drive.BitmapSet: block numbers lie inside the bitmap, as they do at every call on a consistent volume.
- NvfsGrow.DirAddExtent: directories of 14 extents are in NvfsDirAdd.AddLost.
- NvfsDriver.Drive.WriteSector: sector accesses fail only beyond the end of the disk; transient I/O errors are not modelled. Sector writes are atomic.
- NvfsExtents.ExtentWrite: byte-copy loops into and out of sector buffers are slices; data is at most 0xFFF00000 bytes, so that the sector count does not wrap.
- NvfsDirs.DirFind: the triple loop over extents, blocks and slots is shared with dir_remove, and the scan by inode number is shared by dir_add, dir_empty, find_parent and nvfs_path_string.
- Mknvfs.Create: images of more than 16 files or of files that do not fit, which the script packs wrongly, are excluded; sorting and reading the source directory are parameters.
- Heap.Heap.Realloc: the byte copy is done word by word (both ends are aligned and the length is a multiple of 4), and pointers passed back are live or ones that the checks turn away.
- Heap.Heap.Free: the same limit on pointers.
- Heap.Heap.Calloc: the zeroing is done word by word with a last part of a word.
- Heap: heap_walk, the corruption halt (never reached) and the locking wrappers.
- Tasks.Scheduler.Exit: the branch that finds no unassigned READY task, which loads a stack pointer of 0.
- Tasks.Scheduler.SleepMs: the tick count is unbounded; its own wrap after 2^32 ticks (497 days) is not modelled.
- Tasks.Scheduler.Kill: frees of frames are modelled in Processes; freeing a kernel stack while a CPU is still on it is outside the exclusivity results.
- Tasks.Scheduler.Create: boot, when the list is still empty and an idle task is published before it is marked RUNNING, is not modelled; runs start after boot.
- Tasks: interrupt frames, register contents, GDT updates and page directory switches; IPIs beyond the pending flags.
- Processes.ProcessTable.Exec: ELF parsing, segment copying, stack contents and logging; hardware accessed bits in directory entries are taken to be clear, because entries are compared raw; user code does not change its tables.
- Processes.ProcessTable.Release: the list operations around it are modelled in Tasks.
- Paging.AddressSpaces.MapIdentity: the switch to paging itself and memory above 0xFFC00000; TLB maintenance is not modelled.
- Frames.FrameTable.FreeFrame: addresses inside frame 0 other than 0 are excluded; frame 0 is always in use. pfa_init is represented by its result, and it does not reserve the heap's address range, so disjointness of heap and frames is not claimed.
- Frames.FrameTable.FreeFrames: the same exclusion.
- WorkQueue.Scheduler.AnyBusy: scheduler_wait_all's loop around it does not terminate by itself and is not modelled; functions submitted are opaque values.
- Checksum.NetChecksum: buffers are at most 0x20000 bytes, within which the 32-bit sum does not overflow.
- The TCP state machine, IP and ARP handling, nvfs_list, nvfs_strerror, the shell, keyboard, screen, graphics, serial, PCI, RTL8139, ATA, APIC, ACPI, GDT, IDT and boot code: device access, display or tables of constants.
- Locks: each modelled section runs under the lock the code takes; the spinlocks themselves are not modelled.
