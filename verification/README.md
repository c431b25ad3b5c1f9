# A small kernel's file system, scheduler and memory, verified

This project models the three parts of the kernel where data structures carry the weight, and proves what they keep.

**File system.** A `Volume` is a disk of 512-byte sectors. The sectors encode a FAT (28-bit entries, whose top four bits
never change) and the contents of the clusters; every routine patches sectors in place and is specified by what happens to
the FAT and the clusters. On top of that: chains of clusters (`Chains`), files as byte sequences read and written through a
cursor (`Files`, `FileLaws`), 8.3 names (`Entries`), directories as slot sequences spread over sectors and clusters
(`Slots`, `Listings`, `Directories`, `Iterators`), and whole volumes (`Namespaces`, `Catalogues`, `FileSystems`,
`Subdirectories`, `Renames`, `FileWrites`, `VolumeLaws`): who owns which chain, what every operation keeps, and what it
leaves alone. `VolumeRuns` and `VolumeInvariants` carry this over whole runs of operations, `Lookups` says what each
operation does to every lookup, and `DiskLayouts` where all of it lies on the disk, byte by byte. `Paths`, `PathBuffers`,
`WorkingDirectories`, `DirectoryTrees`, `CachedPaths` and `MovePaths` treat path normalization, the walk through the
directory tree, the dot-dot entries, the cached current directory and the two paths of a move.

**Scheduler.** `Systems` describes each operation as one step on the two queues, the process list, the reference counts
and the address-space switch. `SchedulerEffects` says what each step does without those functions, `SchedulerLaws` and
`SchedulerRuns` prove the invariant over all runs and bounded waiting, and `ThreadLives` what becomes of threads and
processes: who is woken is served, who has ended never runs again, an ended process disappears.
`Schedulers.Scheduler` is the same machine with pointers: threads and processes linked through their `next` fields, each
method proved to do exactly the step.

**Memory.** `Frames` is the bitmap allocator, `PageTables` and `AddressSpaces` the page tables kept both as the directory
the processor walks, with the rights it grants, and as an array of tables, `AddressSpaceRuns` what holds over whole runs
with many spaces, `Heaps` the first-fit heap with its headers in the byte array.

The file system follows the Microsoft FAT32 File System Specification, version 1.03, sections "FAT Data Structure" and
"FAT Directory Structure"; the page walk follows section 4.3 ("32-Bit Paging") of volume 3A of the Intel 64 and IA-32
Architectures Software Developer's Manual. Where the code departs from its own comments or from what its names promise,
the model follows the code, and a lemma says exactly when the promise holds (see "What does not hold everywhere").

How the pieces fit: a class method is proved against a function of the old state (`Model`, `View`, `State`, or the FAT and
the cluster contents), and lemmas prove the properties of that function. Preconditions named `IsVolume`, `Inv`, `Valid`,
`Sound` and `WellFormed` are invariants: each operation assumes and re-establishes them, and `VolumeLaws.EmptyVolume`,
`SchedulerLaws.BootedHolds`, `AddressSpaces.BootedSound` and the constructors give the states runs start from.

## What does not hold everywhere

- `file_append` concatenates only if the chain's last cluster is the one that holds the end of the file:
  `FileLaws.AppendConcatenatesIff`. Appended to a full file, it leaves a size beyond the chain:
  `VolumeInvariants.StepFitsIff`.
- Two reads in a row return consecutive bytes only if the first does not end on a cluster boundary:
  `FileLaws.TwoReadsJoinIff`.
- A created file is found under the name as typed only if the name is stored as typed: `FileSystems.CreatedIsFoundIff`.
  With another name it can be created twice, and the names in a directory stay apart exactly if no entry holds the name
  as it will be stored: `FileSystems.CreatedTwice`, `FileSystems.CreatedApartIff`, `FileSystems.InsertedApartIff`.
- `rmdir /`, and `rmdir ..` in the root, free the chain of a root directory that lists nothing, and no volume is left:
  `FileSystems.RemovalKeepsIff`, `DirectoryTrees.EmptyRootIsLost`.
- `mv` puts an entry where its new path says only if that path is a single name, and relative or given in the root. A
  longer absolute path is refused, and for a longer relative one the entry goes one directory above the one named, while
  it is in the one named that `mv` looks for an entry in the way: `MovePaths.DestinationIff`,
  `MovePaths.AbsoluteIsRefused`, `MovePaths.RelativeGoesAbove`.
- Renaming or moving the entry `..` gives a directory two owners, and a new name that begins with the byte 0xE5 loses
  what the entry owned: `Renames.RenameKeepsIff`, `Renames.MoveKeepsIff`. A directory made under such a name is lost at
  once: `Subdirectories.MadeKeepsIff`.
- `mv ..` in the root moves an entry made up for the root, finds nothing to delete, and takes an entry of the new name
  out of the destination again, which may be another one: `Renames.MoveFile`, `Renames.TakenBackKeepsIff`.
- A directory that is moved keeps its old `..`, one named by spaces is listed without a name, and one moved below itself
  is lost together with what it holds: `DirectoryTrees.StepKeepsParentsIff`, `VolumeInvariants.StepRootedIff`.
- The cached path stops leading to the cached directory after an operation that removes this directory, moves a directory
  on the path or stores it under another name, or puts an entry in front of one under its name, as a file created as
  `foo` may come before a directory `FOO`: `CachedPaths.StepKeepsPathIff`.
- `fat32_free_cluster_chain` reports failure exactly for a loop through all clusters: `Fat32.Volume.FreeClusterChain`.
- A path string splits back into its components unless the last one is empty: `PathBuffers.SplitsBackIff`.
- `thread_block` keeps the invariant unless the idle thread blocks while others are ready: `SchedulerLaws.BlockKeepsIff`.
- After `process_exit` and a tick the process is gone only if none of its threads was blocked or not yet started:
  `ThreadLives.ExitedIsGoneIff`.
- `thread_destroy` frees a queued thread where the queue still points to it: `SchedulerLaws.DestroyThreadKeepsIff`.
- `vmm_unmap_page` reaches the other address spaces exactly for a page mapped in the shared first 4 MiB:
  `AddressSpaces.UnmapIsolatesIff`.
- `kmalloc` serves every size that, with the end of the heap, stays within 32 bits, and nearly no other:
  `Heaps.ServedIff`.

## Model

| member | source | states |
|---|---|---|
| Fat32.FatAfterWrite | kernel/fs/fat32.c:146-177 | patching one entry's word on disk is one update of the abstract FAT modulo 28 bits; every other entry and every entry's top four bits are as before |
| Fat32.ClusterSectorsInData | kernel/fs/fat32.c:73-82 | the sectors of a cluster lie behind the FAT and on the disk |
| Fat32.ClusterSectorsDisjoint | kernel/fs/fat32.c:73-82 | two sectors of clusters are the same sector only if cluster and index agree |
| Fat32.DataAfterWrite | kernel/fs/file.c:100-119 | writing one sector of a cluster changes those 512 bytes of that cluster and no other cluster |
| Fat32.EveryDiskHasFat | kernel/fs/fat32.c:84-109 | any disk contents of the right size encode some FAT, so the invariant excludes no disk |
| DiskLayouts.ClustersInOrder | kernel/fs/fat32.c:73-82 | cluster 2 begins the data region and each next cluster begins where the one before ends |
| DiskLayouts.ClusterOnDisk | kernel/fs/fat32.c:73-82 | the sectors from the first data sector on are, in order, the bytes of clusters 2, 3 and so on |
| DiskLayouts.FileByteOnDisk | kernel/fs/file.c:139-204 | the sector and offset at which each byte of a file lies on the disk |
| DiskLayouts.FatOnDisk | kernel/fs/fat32.c:84-109 | the entry of a cluster is its little-endian word in the table, without the top four bits |
| DiskLayouts.EntryOnDisk | kernel/include/fs/directory.h:20-33 | where name, attributes, both halves of the first cluster and the size stand in the 32 bytes of an entry |
| DiskLayouts.TombstoneOnDisk | kernel/fs/directory.c:525-525 | a deleted entry is the same 32 bytes but for the first, 0xE5 |
| DiskLayouts.ShownOnDisk | kernel/fs/directory.c:118-191 | which 32 bytes are an entry that is listed |
| DiskLayouts.SlotOnDisk | kernel/fs/directory.c:118-191 | each slot of a directory is the decoding of its own 32 bytes of its own cluster, in the order of the chain |
| DiskLayouts.NameOnDisk | kernel/fs/directory.c:299-363 | an accepted name stands in the eleven bytes in upper case, base and extension each padded with spaces |
| Fat32.Volume.ReadFatEntry | kernel/fs/fat32.c:84-109 | returns the FAT entry without its top bits, or the invalid mark outside the volume |
| Fat32.Volume.WriteFatEntry | kernel/fs/fat32.c:146-177 | exactly one entry changes, one sector is patched, and an entry outside the volume is refused |
| Fat32.Volume.AllocateCluster | kernel/fs/fat32.c:179-200 | takes the lowest free cluster as a zeroed chain of its own, or changes nothing if none is free |
| Fat32.Volume.AllocateClusterChain | kernel/fs/fat32.c:202-260 | all or nothing: links exactly the n lowest free clusters in order, zeroed, leaving all other entries alone, and fails, with the FAT as before, exactly if n is 0, fewer are free or memory is out |
| Fat32.Volume.FreeClusterChain | kernel/fs/fat32.c:262-295 | ends on every FAT, cyclic ones included; frees the clusters met; fails exactly for a loop through all clusters |
| Fat32.Volume.AppendCluster | kernel/fs/fat32.c:341-378 | links one zeroed cluster behind the last of the chain and marks it as the end |
| Chains.FreeingAChain | kernel/fs/fat32.c:262-295 | on a well-formed chain exactly its clusters become free, and the guard against loops is not reached |
| Chains.FreeUndoesAllocate | kernel/fs/fat32.c:202-295 | freeing a chain that has just been allocated gives back the FAT there was |
| Chains.LinkedIsChain | kernel/fs/fat32.c:202-260 | linking distinct clusters makes them one acyclic, end-marked chain and touches no other entry |
| Chains.FreeFromExact | kernel/fs/fat32.c:128-144 | the list of free clusters holds exactly the free ones, in increasing order |
| Chains.Pigeonhole | kernel/fs/fat32.c:265-272 | no acyclic list of clusters is longer than the volume |
| Chains.ChainUnique | kernel/fs/fat32.c:111-126 | the FAT determines a chain from its first cluster |
| Chains.ChainExtend | kernel/fs/fat32.c:341-378 | appending one free cluster extends the chain by exactly that cluster |
| Entries.EncodeRoundTrip | kernel/fs/directory.c:365-394 | decoding the 32 bytes of an entry gives the entry back |
| Entries.GetName | kernel/fs/directory.c:31-62 | the two loops compute base, dot and extension up to the padding |
| Entries.SetName | kernel/fs/directory.c:299-363 | accepts exactly the 8.3 names and stores them padded in upper case; a refused name leaves the entry alone |
| Entries.ParseAccepts | kernel/fs/directory.c:309-359 | the one-pass character loop accepts exactly the names of the declarative 8.3 rule and splits them at the dot |
| Entries.NameRoundTrip | kernel/fs/directory.c:31-62 | reading back a stored name without spaces gives it in upper case |
| Entries.ListedUnderOwnName | kernel/fs/directory.c:31-62 | a stored name is listed as it was typed exactly if it has no space and no lower-case letter |
| Slots.SlotAfterWrite | kernel/fs/directory.c:193-257 | writing 32 bytes of a sector changes one slot of the directory |
| Slots.ChainSlotsUpdate | kernel/fs/directory.c:473-535 | changing one slot of one cluster of the chain changes one slot of the directory |
| Listings.InsertListing | kernel/fs/directory.c:193-257 | creating an entry adds it once to the enumeration, whether or not the directory grew, and keeps nothing live behind the end mark |
| Listings.DeleteListing | kernel/fs/directory.c:473-535 | a tombstone removes exactly that entry from the enumeration |
| Listings.ReplaceListing | kernel/fs/directory.c:683-808 | updating or renaming replaces exactly that entry in the enumeration |
| Listings.FindAgrees | kernel/fs/directory.c:264-292 | looking up through the enumeration finds the slot that delete, update and rename find |
| Directories.Scan | kernel/fs/directory.c:473-535 | the nested cluster, sector and entry loops find the first slot that ends the search, or run to the end |
| Directories.CreateEntryInCluster | kernel/fs/directory.c:193-257 | fills the first free slot, else extends the chain by one zeroed cluster and fills its first slot; fails with nothing changed exactly if there is neither |
| Directories.DeleteInCluster | kernel/fs/directory.c:473-535 | tombstones exactly the first entry listed under the name |
| Directories.UpdateEntry | kernel/fs/directory.c:683-743 | overwrites exactly the first entry with the same raw name |
| Directories.RenameEntry | kernel/fs/directory.c:745-808 | overwrites exactly the first entry listed under the old name |
| Directories.MoveEntry | kernel/fs/directory.c:869-890 | succeeds exactly if the destination has room and the source lists the name; both directories afterwards, also when the new entry is taken out again |
| Directories.IsEmpty | kernel/fs/directory.c:573-642 | whether the directory lists nothing but dot entries |
| Iterators.DirectoryIterator.Next | kernel/fs/directory.c:118-191 | yields the listed entries one by one, in order, and ends exactly when none remain, across sectors and clusters |
| Iterators.FindInCluster | kernel/fs/directory.c:264-292 | returns the first listed entry with the name |
| Files.FileHandle.Read | kernel/fs/file.c:139-204 | from a cursor in any cluster of the chain: returns exactly the bytes of the chain from the position's offset in that cluster on, bounded by size, chain and request, and says where position and cursor stand afterwards |
| Files.FileHandle.Write | kernel/fs/file.c:380-398 | each return code with its cause; what the chain, the clusters and the directory entry hold afterwards, complete or cut short by a full disk |
| Files.FileHandle.Append | kernel/fs/file.c:400-423 | the same for appending, from the place in the last cluster where the code starts, also for an entry that is gone from its directory |
| Files.FileHandle.WriteLoop | kernel/fs/file.c:314-370 | the write loop lays the buffer over the chain at the given offset, growing it by the lowest free clusters as needed, and stops early only when none is free |
| FileBytes.OverwrittenGrow | kernel/fs/file.c:345-362 | linking a cluster behind the chain keeps all bytes written so far |
| FileLaws.WriteThenRead | kernel/fs/file.c:121-398 | if a write returns the buffer's length, opening the updated entry and one read of that length return exactly the buffer, whatever chain the file had before |
| FileLaws.WriteReplacesContents | kernel/fs/file.c:279-398 | after a complete write the contents are the buffer, even on a chain that stays longer |
| FileLaws.AppendConcatenatesIff | kernel/fs/file.c:400-423 | appending any buffer of a length gives old bytes then buffer, if and only if the file has no cluster or its last cluster has index size / cluster size |
| FileLaws.AppendLeaves | kernel/fs/file.c:400-423 | what a complete append leaves as contents in every case |
| FileLaws.CursorAfterReadAgreesIff | kernel/fs/file.c:190-200 | a read leaves the cursor in the cluster of the new position exactly if that is no cluster boundary |
| FileLaws.ReadTwice | kernel/fs/file.c:139-204 | what two reads in a row return: the second begins where the first left the cursor |
| FileLaws.TwoReadsJoinIff | kernel/fs/file.c:190-200 | the two results are consecutive bytes of the file for all contents if and only if the first read did not end on a cluster boundary inside the chain |
| FileSystems.CreateFile | kernel/fs/file.c:206-243 | for every name: the exact condition for success, the slots afterwards, volume consistency, nothing else touched, nothing at all on failure |
| FileSystems.CreatedIsFoundIff | kernel/fs/directory.c:264-363 | after a creation, looking the name up as typed finds the new entry if and only if the name has no space, no lower-case letter and does not begin with the mark of a deleted entry; else it finds nothing |
| FileSystems.CreatedTwice | kernel/fs/file.c:206-243 | so a file can be created twice under another name, and then two slots hold the same eleven bytes of name |
| FileSystems.CreatedApartIff | kernel/fs/file.c:206-243 | a creation keeps the eleven-byte names of the entries shown in a directory distinct if and only if no entry holds the name as it will be stored, or the new entry is lost at once |
| FileSystems.InsertedApartIff | kernel/fs/directory.c:193-257 | the same for any entry put into a directory, so also for one made or moved there |
| FileSystems.CreatedApart | kernel/fs/file.c:206-243 | and a name without a space or a lower-case letter, once looked up in vain, is always kept apart |
| FileSystems.DeleteFile | kernel/fs/file.c:245-277 | exact condition; the chain is free, the entry a tombstone, the volume consistent, every other chain and directory kept |
| FileSystems.RemoveDirectory | kernel/fs/directory.c:537-571 | for whatever entry the path led to: nothing happens unless it is a directory that lists nothing but dot entries; then the directory is gone as a file would be, or, if it is the root, the chain of the root is freed and nothing else; the volume is consistent in every case but this one |
| FileSystems.RemovalKeepsIff | kernel/fs/directory.c:537-571 | after a removal through "/", or through ".." in the root, the volume is consistent under some catalogue with that root if and only if the root lists something else than dot entries |
| FileSystems.Removed | kernel/fs/fat32.c:262-295 | freeing an owned chain and its slot leaves a consistent volume without that owner |
| Subdirectories.MakeDirectory | kernel/fs/directory.c:396-471 | for every name: exact condition including one or two free clusters; the new directory holds both dot entries, the parent one more entry; on failure the FAT is as before; consistency unless the name begins with 0xE5 |
| Subdirectories.MadeKeeps | kernel/fs/directory.c:396-471 | what the routine has done to FAT and clusters is a directory made, in a consistent volume |
| Subdirectories.MadeKeepsIff | kernel/fs/directory.c:396-471 | after a directory has been made the volume is consistent under some catalogue of the same chains, files and directories if and only if the name does not begin with the mark of a deleted entry |
| Renames.RenameInDirectory | kernel/fs/file.c:494-545 | for whatever entry the old path led to and every new name: exact condition; only one slot changes, to the entry under the new name, and no other directory or chain; consistency unless a dot entry was renamed or the new name begins with 0xE5 |
| Renames.RenameKeepsIff | kernel/fs/file.c:539-542 | after a rename the volume is consistent under some catalogue of the same chains, files and directories if and only if the entry owns what it owned: it is no dot entry, or, if its new name begins with 0xE5, it owned nothing |
| Renames.MoveFile | kernel/fs/file.c:494-545 | for whatever entry the old path led to and every new name: exact condition; the entry changes directory and keeps its chain, or is taken out again when there was none to delete, which happens only for the entry made up for the root; consistency unless that or a dot entry was moved, or the new name begins with 0xE5 |
| Renames.MoveKeepsIff | kernel/fs/directory.c:869-890 | the same equivalence for a move |
| Renames.TakenBackKeepsIff | kernel/fs/directory.c:869-890 | when the entry made up for the root has been put in and one of its name taken out again, the volume is consistent under some catalogue of the same chains, files and directories if and only if no entry of that name stands before the first free slot of the destination |
| FileWrites.WriteFile | kernel/fs/file.c:121-398 | a write, complete or cut short, keeps the volume consistent and touches only the file's chain and its directory |
| FileWrites.AppendFile | kernel/fs/file.c:400-423 | the same for an append |
| FileWrites.Settled | kernel/fs/file.c:279-378 | saving a grown or new chain in the entry's slot keeps chains disjoint, end-marked and owned once |
| Catalogues.FreeIsUnused | kernel/fs/fat32.c:128-144 | the lowest free cluster lies in no chain of a file or directory |
| Catalogues.Rebuilt | kernel/fs/fat32.c:146-177 | a volume changed only inside some chains is consistent if those chains and their directories are |
| Namespaces.SlotMoves | kernel/fs/directory.c:869-890 | moving ownership of a chain between slots of two directories keeps every chain owned by exactly one slot |
| Namespaces.OneOwner | kernel/fs/directory.c:193-257 | no two slots of the volume own the same chain |
| VolumeLaws.OthersKept | kernel/fs/file.c:279-423 | a file named by any other slot of the volume has the same bytes after the operation |
| VolumeLaws.WriteCompleteIff | kernel/fs/file.c:279-398 | a write is complete if and only if the file has or can get a cluster, a cluster fits the buffer, and the chain with all free clusters behind it is long enough |
| VolumeLaws.AppendCompleteIff | kernel/fs/file.c:400-423 | the same for an append, from where it starts |
| VolumeRuns.Perform | kernel/fs/file.c:206-423 | each of the eight operations, on disk, is one step of the relation the following results are about |
| VolumeRuns.StepKeeps | kernel/fs/file.c:206-423 | each step leads to a consistent volume and changes no chain but those of the directories it works in and of the entry it deletes or writes |
| VolumeRuns.RunKeeps | kernel/fs/directory.c:193-571 | every state of every run of operations, whether they succeed, fail or are cut short, is a consistent volume |
| VolumeRuns.RunFromEmpty | kernel/fs/fs.c:44-68 | in particular from an empty root directory on |
| VolumeRuns.BystanderOverRun | kernel/fs/file.c:206-423 | over any run, a file whose entry no operation deletes or writes has its chain and its bytes at every moment, wherever it is renamed or moved |
| Lookups.StepLooksUp | kernel/fs/file.c:206-545 | for each operation but writing, every directory and every name: which entry is listed there afterwards, in terms of what was listed before |
| Lookups.WriteLooksUp | kernel/fs/file.c:279-423 | writing and appending change what is listed under no name but the file's, which stays a file of that name |
| VolumeInvariants.StepFitsIff | kernel/fs/file.c:365-370 | an operation keeps every file's size within its chain if and only if it is not a complete append of some bytes to a file that fills its chain |
| VolumeInvariants.RunFits | kernel/fs/file.c:365-370 | so sizes fit chains at every moment of a run without such an append |
| Catalogues.HangsFromRoot | kernel/fs/path.c:252-276 | where directories have ranks above their owners', each is reached from the root, owner by owner |
| VolumeInvariants.StepRootedIff | kernel/fs/directory.c:869-890 | an operation keeps every directory hanging from the root, without circles, if and only if it does not move one into itself or into one below it |
| VolumeInvariants.RunRooted | kernel/fs/directory.c:869-890 | so all directories hang from the root at every moment of a run without such a move |
| VolumeInvariants.EmptyFitsAll | kernel/fs/fs.c:44-68 | both hold on an empty volume |
| VolumeLaws.WrittenContents | kernel/fs/file.c:380-398 | on a consistent volume a complete write leaves a file under the same name whose contents are the buffer |
| VolumeLaws.AppendedContents | kernel/fs/file.c:400-423 | on a consistent volume a complete append, under the exact condition, leaves old contents then buffer |
| VolumeLaws.EmptyVolume | kernel/fs/fs.c:44-68 | a disk with one zeroed root cluster is a consistent volume, whatever else is on it |
| Paths.NormKeepsMeaning | kernel/fs/path.c:54-102 | a relative path and its normal form lead to the same place from every directory |
| Paths.NormIsPlace | kernel/fs/path.c:54-102 | the normal form of an absolute path is the place it leads to |
| Paths.NormCanonical | kernel/fs/path.c:54-102 | no "." is left, ".." only in front, none in an absolute path |
| Paths.NormIdempotent | kernel/fs/path.c:54-102 | normalizing twice is normalizing once |
| Paths.SameMeaningIffSameNormalForm | kernel/fs/path.c:54-102 | two relative paths lead to the same place from every directory if and only if they have the same normal form |
| Paths.NormJoins | kernel/fs/path.c:104-180 | normalizing either part before joining makes no difference |
| PathBuffers.PathBuffer.Split | kernel/fs/path.c:7-52 | succeeds exactly within the limits and then holds the components between slashes |
| PathBuffers.PathBuffer.Normalize | kernel/fs/path.c:54-102 | compacting in place, with a read and a write index, gives the normal form of the old components |
| PathBuffers.PathBuffer.BuildAbsolute | kernel/fs/path.c:104-180 | writes the normalized joined path, and fails exactly when a limit is exceeded |
| PathBuffers.SplitsBackIff | kernel/fs/path.c:152-180 | the string written splits back into its components exactly if the last one is not empty |
| PathBuffers.BuildComposes | kernel/fs/path.c:104-180 | two relative inputs one after the other build what the two joined by a slash build, and where both steps can be built the joined one can if and only if the three lists of components fit into one buffer |
| WorkingDirectories.LookupPath | kernel/fs/path.c:182-280 | finds an entry if and only if the path is within the limits and its names but the last lead, one listed directory after the other, from the root or the current directory to the one that lists it under the last; with the two cases of the root |
| WorkingDirectories.ResolvedPlace | kernel/fs/path.c:247-270 | also where nothing is found: the last name, and the directory the other names lead to |
| WorkingDirectories.ResolvedIsLocated | kernel/fs/path.c:201-245 | what is found is listed in the directory reported, or is the entry made up for the root |
| WorkingDirectories.DeleteDirectory | kernel/fs/directory.c:537-571 | `directory_delete` from its path: as RemoveDirectory for the entry the path leads to |
| WorkingDirectories.WalkUp | kernel/fs/path.c:252-276 | going up from the end of a path is the path without its last name |
| WorkingDirectories.WalkActs | kernel/fs/path.c:182-280 | following dot-dots and names through the tree agrees with computing on the path |
| WorkingDirectories.ChangeAgrees | kernel/fs/directory.c:839-867 | the directory resolved and the path string built for it agree: the string leads from the root to that cluster |
| WorkingDirectories.WorkingDirectory.Change | kernel/fs/directory.c:839-867 | succeeds if and only if the path leads to a directory and the new path can be built; then the cluster is that directory's, and in every case the cached path leads to the cached cluster |
| WorkingDirectories.PathLeadsBack | kernel/fs/directory.c:839-867 | from wherever it is given, the cached path of a directory leads to that directory, can be changed to, and is then the cached path again |
| WorkingDirectories.DescendBuilds | kernel/fs/path.c:104-180 | changing to a name appends it behind a slash, if and only if the result is within the limit |
| WorkingDirectories.AscendBuilds | kernel/fs/path.c:104-180 | changing to ".." always can be built and drops the last name |
| WorkingDirectories.MadeKeepsParentsIff | kernel/fs/directory.c:396-471 | making a directory keeps every dot-dot entry pointing to the owner and every directory named if and only if the new one is not the first of its parent to be listed without a name |
| WorkingDirectories.EmptyVolumeParents | kernel/fs/fs.c:44-68 | on an empty volume every dot-dot entry points to the owner |
| MovePaths.ResolveDestination | kernel/fs/file.c:9-77 | `file_resolve_destination`: one component means the current directory, more mean the directory in which the parent of the path is found |
| MovePaths.AbsoluteIsRefused | kernel/fs/file.c:35-75 | an absolute path of two or more components whose directory exists is refused, because its parent is written with two slashes and looked up behind an empty name |
| MovePaths.RelativeGoesAbove | kernel/fs/file.c:70-76 | for a relative path of two or more components whose directory exists, the destination is the directory before that one on the path, which is another, unless the text of the parent is too long |
| MovePaths.DestinationIff | kernel/fs/file.c:9-77 | where the new path names an existing directory, the entry goes there if and only if the path is a single name, and is relative or given in the root |
| MovePaths.MovePath | kernel/fs/file.c:494-545 | `file_move` from its two paths is a step `Rename` or `Move` with that destination, the entry in the way being looked for where the new path says; nothing happens if the old path or the destination leads nowhere, or the new path leads to an entry |
| DirectoryTrees.StepKeepsParentsIff | kernel/fs/directory.c:396-890 | an operation keeps every dot-dot entry pointing to the owner and every directory named if and only if it does not move a directory that lists its parent, does not make, rename or move one so that it is the first listed without a name, and does not delete the unnamed file in front of an unnamed directory |
| DirectoryTrees.RunKeepsParents | kernel/fs/directory.c:396-890 | so dot-dot entries point to the owners at every moment of a run of other operations |
| DirectoryTrees.EmptyRootIsLost | kernel/fs/directory.c:537-571 | on an empty volume "/" and, in the root, ".." lead to the entry made up for the root, and removing it leaves no consistent volume with that root |
| CachedPaths.StopsDistinct | kernel/fs/path.c:252-276 | a path of names comes to no directory twice |
| CachedPaths.PathKeptIff | kernel/fs/path.c:252-276 | where the directories on it keep their places, a path goes on leading to its directory if and only if that is still there and no step of the path leads elsewhere |
| CachedPaths.StepKeepsPathIff | kernel/fs/fs.c:31-42 | for each of the eight operations, from the state before it: the cached path goes on leading to the cached directory if and only if the operation does not remove that directory, does not move a directory on the path or store it under another name, and does not put an entry in front of one under its name |
| CachedPaths.RunKeepsPath | kernel/fs/fs.c:31-42 | so the two agree at every moment of a run of other operations |
| WorkingDirectories.FreshDirectoryLists | kernel/fs/directory.c:443-468 | a new directory lists itself, its parent and nothing without a name |
| SchedulerRuns.RunKeeps | kernel/process/scheduler.c:12-53 | in every state of every run: each thread in exactly one place matching its state, counts equal to the threads that exist, pointers to thread, process and space consistent |
| SchedulerRuns.StepKeeps | kernel/process/thread.c:27-553 | each of the twelve steps keeps that invariant |
| SchedulerRuns.BoundedWaiting | kernel/process/thread.c:250-327 | in every run a thread at index i of the ready queue is dispatched, or ended, before the run has dispatched more than i + 1 times |
| SchedulerRuns.StepMovesUp | kernel/process/thread.c:250-452 | no step moves a waiting thread back, and a dispatching one moves it up |
| SchedulerRuns.PurgeKeepsOrder | kernel/process/thread.c:407-452 | purging a process keeps the order of the threads that stay |
| SchedulerRuns.IdleOnlyWhenNoneWaits | kernel/process/scheduler.c:22-41 | the idle thread is chosen only if the ready queue is empty |
| SchedulerRuns.ReapFreesNoneInUse | kernel/process/thread.c:454-502 | a tick frees only threads that had ended, never the running, outgoing, next, waiting, idle or bootstrap thread |
| SchedulerEffects.TicksSystem | kernel/process/scheduler.c:12-53 | after a tick: who runs, who waits where, which threads are freed, which processes are gone and how many threads the others count |
| SchedulerEffects.WakesThread | kernel/process/thread.c:380-405 | after a wake-up a blocked thread waits last, or stands last among those to be freed if its process has ended |
| SchedulerEffects.EndsThread | kernel/process/thread.c:504-553 | after `thread_terminate` the thread stands last among those to be freed and the next one runs |
| SchedulerEffects.StopsThread | kernel/process/thread.c:345-378 | after `thread_block` the thread stands nowhere and the next one runs |
| SchedulerEffects.CondemnsProcess | kernel/process/thread.c:407-452 | exactly the waiting threads of an ended process go from the one queue to the other |
| ThreadLives.WokenIsServed | kernel/process/thread.c:380-405 | in every run a thread woken while n wait is dispatched or ended before the run has dispatched more than n + 1 times |
| ThreadLives.StartedIsServed | kernel/process/thread.c:250-272 | so is a new thread put into the queue |
| ThreadLives.PreemptedIsServed | kernel/process/scheduler.c:12-53 | a thread the timer interrupts while n wait is dispatched again or ended before more than n further dispatches |
| ThreadLives.BlockedUntilWoken | kernel/process/thread.c:345-405 | in every run a blocked thread stays blocked, neither running nor queued, until it is woken or destroyed |
| ThreadLives.EndedForGood | kernel/process/thread.c:454-553 | in every run an ended thread never runs or waits again, and the next tick frees it |
| ThreadLives.DeadIsGoneIff | kernel/process/process.c:223-241 | after a tick an ended process is gone, with its space, if and only if it has no thread left |
| ThreadLives.ExitedIsGoneIff | kernel/process/process.c:200-221 | after `process_exit` and a tick a process is gone, with its space and all its threads, if and only if none of them was blocked or not yet started |
| SchedulerLaws.TickKeeps | kernel/process/scheduler.c:12-53 | after a tick no ended thread is left and every ended process still in the list owns a thread |
| SchedulerLaws.ExitBeginsKeeps | kernel/process/process.c:200-221 | after the first half of an exit the process is marked and none of its other threads is ready |
| SchedulerLaws.AllFreedCounts | kernel/process/thread.c:210-238 | freeing a list of threads one by one keeps every process's count equal to its threads |
| SchedulerLaws.BlockKeepsIff | kernel/process/thread.c:345-378 | blocking keeps the invariant if and only if it is not the idle thread that blocks, or nobody is ready |
| SchedulerLaws.DestroyThreadKeepsIff | kernel/process/thread.c:210-238 | destroying a thread from outside keeps the invariant if and only if it has a role, and so is left alone, or stands in neither queue |
| SchedulerLaws.DestroyProcessKeeps | kernel/process/process.c:108-166 | destroying keeps the invariant and never hits the current process, so its space is not the active one |
| SchedulerLaws.ProcessesReapedKeeps | kernel/process/process.c:223-241 | the reaping pass keeps the invariant and leaves no reapable process among those visited |
| SchedulerLaws.BootedHolds | kernel/process/thread.c:50-88 | the state after initialization satisfies the invariant |
| Schedulers.Scheduler.Enqueue | kernel/process/thread.c:250-272 | relinking head, tail and next puts the thread behind the ready queue, and both queues stay acyclic with right tails |
| Schedulers.Scheduler.Dequeue | kernel/process/thread.c:274-292 | takes the first thread off, null exactly if there is none |
| Schedulers.Scheduler.TerminateProcessThreads | kernel/process/thread.c:407-452 | the unlinking loop moves exactly the process's threads other than the current one to the other queue, in order |
| Schedulers.Scheduler.ReapTerminatedThreads | kernel/process/thread.c:454-502 | the loop frees exactly the ended threads other than the one kept and counts each down |
| Schedulers.Scheduler.ReapTerminatedProcesses | kernel/process/process.c:223-241 | the walk, which unlinks the node it stands on, does what visiting the list would |
| Schedulers.Scheduler.Schedule | kernel/process/scheduler.c:12-53 | the tick on pointers is the step `Tick`: the current thread waits last, the first runs in its process and space, ended threads are freed, ended processes without threads are gone, all else stays |
| Schedulers.Scheduler.Yield | kernel/process/thread.c:294-327 | the current thread waits last and the first runs; nothing happens for the idle thread or if nobody waits |
| Schedulers.Scheduler.Block | kernel/process/thread.c:345-378 | the current thread is blocked and in no queue, and the next runs in its process and space; exact condition for the invariant |
| Schedulers.Scheduler.Unblock | kernel/process/thread.c:380-405 | a blocked thread of a running process is ready and last in the ready queue, one of an ended process is last in the queue to be freed, any other thread changes nothing |
| Schedulers.Scheduler.Terminate | kernel/process/thread.c:504-553 | the current thread has ended, is last in the queue to be freed and does not wait, and the next runs; the bootstrap and idle threads never end |
| Schedulers.Scheduler.CreateThread | kernel/process/thread.c:90-165 | a thread of a running process exists, ready but in no queue, and its process counts one more; nothing changes when memory is out or the process has ended |
| Schedulers.Scheduler.Start | kernel/process/thread.c:250-272 | a new thread is last in the ready queue |
| Schedulers.Scheduler.DestroyThread | kernel/process/thread.c:210-238 | for every thread in neither queue, or with a role: it is gone and its process counts one less; threads with a role are left alone |
| Schedulers.Scheduler.ExitBegins | kernel/process/process.c:200-221 | up to where interrupts are on again: the process has ended, its waiting threads stand in the queue to be freed, all others wait as before |
| Schedulers.Scheduler.ExitEnds | kernel/process/process.c:200-221 | the current thread, if it is of the process, has ended as in Terminate |
| Schedulers.Scheduler.NewProcess | kernel/process/process.c:58-106 | an alive process without threads, with the next number and its own space, at the end of the list, or nothing |
| Schedulers.Scheduler.DestroyProcess | kernel/process/process.c:108-166 | a process that owns no thread and is not the kernel's is gone with its space, the others stay; any other call changes nothing |
| Schedulers.Scheduler.FindProcess | kernel/process/process.c:183-198 | finds a process with the number, null exactly if there is none, and the only one until the numbers wrap |
| Schedulers.Boot | kernel/process/process.c:13-56 | after initialization pointers and invariant are in order |
| Frames.FrameAllocator.AllocFrame | kernel/memory/pmm.c:74-86 | the lowest free frame, 0 exactly if none is free; frame 0 is never handed out |
| Frames.FrameAllocator.FreeFrame | kernel/memory/pmm.c:88-110 | exactly that frame becomes free; other addresses, and 0, are ignored |
| Frames.FrameAllocator.CountFree | kernel/memory/pmm.c:168-181 | the number of free frames |
| Frames.FrameAllocator.Init | kernel/memory/pmm.c:23-72 | a frame is free exactly if a usable region reaches into it, the kernel image does not, and it is not frame 0; the totals reported |
| Frames.FreeAfterSet | kernel/memory/pmm.c:137-140 | setting a bit removes one frame from the abstract set |
| Frames.FreeAfterReset | kernel/memory/pmm.c:142-145 | resetting a bit adds one |
| PageTables.TranslationsAgree | kernel/memory/vmm.c:105-131 | for every space and address the processor's walk through the directory finds the page the array of tables gives |
| PageTables.SamePageIff | kernel/memory/vmm.c:65-66 | two addresses have the same indices exactly if they lie in the same 4 KiB |
| PageTables.EntryIs | kernel/memory/vmm.c:79-79 | the low twelve bits of an entry written are those of the flags, the others the or of both page numbers |
| PageTables.CreatedSound | kernel/memory/address_space.c:18-64 | a new space keeps both copies in agreement and every frame used for one thing |
| PageTables.WithTableSound | kernel/memory/vmm.c:26-49 | so does a new table |
| PageTables.WrittenWalks | kernel/memory/vmm.c:51-103 | an entry written changes the translation and the rights of its page in that space, of no other page, and in no other space unless it is in the shared table, where it never lets users in |
| PageTables.DestroyedSound | kernel/memory/address_space.c:66-105 | so does destroying |
| PageTables.CreateThenDestroyRestores | kernel/memory/address_space.c:18-105 | creating a space, any mapping inside it, then destroying it restores the free frames exactly, and every other space's frames |
| AddressSpaces.FramesPartition | kernel/memory/address_space.c:18-105 | no frame stands in the arrays, directories or records of two spaces, or twice in one, and none of them is free; every managed frame is free or stands in one of them |
| AddressSpaces.CreatedWalks | kernel/memory/address_space.c:42-63 | a new space sees the kernel's first 4 MiB and nothing else; the others see what they saw |
| AddressSpaces.UnmapIsolatesIff | kernel/memory/vmm.c:83-103 | unmapping leaves the other spaces alone if and only if the page is above 4 MiB, or unmapped, or there is no other space |
| AddressSpaces.BootedWalks | kernel/memory/paging.c:27-56 | at boot the kernel sees its first 4 MiB where they are, but for page 0, the image read-only, nothing of it for users, and nothing else |
| AddressSpaces.NoUsersBelow | kernel/memory/paging.c:44-47 | no space ever grants users a page of the first 4 MiB |
| AddressSpaces.FlagsGrant | kernel/include/memory/paging.h:4-6 | a page mapped with the three flags is granted for exactly the uses they name |
| AddressSpaces.Mapper.Create | kernel/memory/address_space.c:18-64 | two frames or none: on each failure path the free frames are as before; null exactly when the heap is out or fewer than two frames are free |
| AddressSpaces.Mapper.Destroy | kernel/memory/address_space.c:66-105 | frees exactly the frames of the space, changes no translation of the others, and does nothing for the kernel's or the active one |
| AddressSpaces.Mapper.MapPage | kernel/memory/vmm.c:51-81 | for all flags: the entry written, bit by bit, and the page and the rights the processor finds, which are those asked for when flags stay below 4096; a table, if needed, is the lowest free frame; no other page of any space and no right to one changes; nothing at all outside the range or without a frame |
| AddressSpaces.Mapper.UnmapPage | kernel/memory/vmm.c:83-103 | the page is gone from the active space, and from all if it is in the shared table; no other page changes |
| AddressSpaces.Mapper.Translate | kernel/memory/vmm.c:105-131 | returns the page the processor's walk finds, 0 if none |
| AddressSpaceRuns.Perform | kernel/memory/address_space.c:18-125 | creating, activating and destroying spaces, mapping and unmapping are the steps of the runs below |
| AddressSpaceRuns.RunKeeps | kernel/memory/address_space.c:18-125 | in every state of every run both copies of the tables agree, every frame has one use, and no frame is lost or gained |
| AddressSpaceRuns.FramesTaken | kernel/memory/vmm.c:26-49 | at every moment of its life a space has exactly the frames that left the free ones in steps taken for it, whatever was done for other spaces in between |
| AddressSpaceRuns.DestructionFreesTaken | kernel/memory/address_space.c:66-105 | so its destruction frees exactly those, none of which was free, and leaves every other space its frames |
| AddressSpaceRuns.RunTranslates | kernel/memory/vmm.c:51-131 | at every moment of its life the processor finds in a space, for every address above the first 4 MiB, exactly the page and the rights last mapped there while the space was active, with other spaces created, mapped and destroyed in between |
| AddressSpaceRuns.RunGuards | kernel/memory/vmm.c:17-20 | in every run, in every space, users reach user addresses only |
| AddressSpaceRuns.BootedGuarded | kernel/memory/paging.c:27-56 | that holds at boot, where users reach nothing |
| AddressSpaceRuns.SharedOnlyShrinks | kernel/memory/paging.c:27-47 | in every run a page of the first 4 MiB is, in every space, what it was at the start or gone, so the kernel image stays read-only |
| Heaps.PayloadsApart | kernel/memory/heap.c:21-68 | headers and payloads of different blocks never overlap and lie within the heap |
| Heaps.ServedIff | kernel/memory/heap.c:21-56 | `kmalloc` returns null and changes nothing, or a pointer not in use before with room for the size, if and only if the size stays within 32 bits (or no block at all is left) |
| Heaps.MallocPlaces | kernel/memory/heap.c:28-56 | the first free block that is large enough is handed out and marked; where there is none a block of the rounded size goes behind the others, if it fits |
| Heaps.NullIff | kernel/memory/heap.c:28-56 | null for a positive size exactly when no free block is large enough and the rest of the heap is too short |
| Heaps.HeldIsLive | kernel/memory/heap.c:21-68 | over every run of `kmalloc` and `kfree` the blocks tile the heap and the blocks in use are exactly those handed out and not given back |
| Heaps.Heap.Kmalloc | kernel/memory/heap.c:21-56 | the header walk and the bump on bytes do what the block list says, no byte of any payload changes, and the heap stays one if and only if the size is in range |
| Heaps.Heap.Kfree | kernel/memory/heap.c:58-68 | frees exactly the block of the pointer, and no payload byte changes |

## Left out

- Disk: the disk is a sequence of sectors and in-range input and output succeeds; failing reads and writes, and null arguments, are not part of the model.
- Detection: the fields `fat32_detect` reads are given, with 512-byte sectors and tables that fit the disk without wrap-around of 32-bit sector numbers.
- Second FAT copy, FSInfo sector, long names and timestamps: the code does not maintain them.
- Fat32.Volume.AllocateClusterChain: whether `kmalloc` succeeds is a parameter; the 32-bit size passed to it is not computed.
- Buffers: the caller's buffers and the 4096-byte cluster buffers are sequences; the check against 4096 is modelled, aliasing of buffers is not.
- Volumes: `file_create`, `file_delete` and `directory_create` are modelled from the directory their path has been resolved to; the resolution itself is `WorkingDirectories.LookupPath`.
- `file_copy` of several clusters: it reads cluster by cluster and so runs into what `FileLaws.TwoReadsJoinIff` describes.
- `directory_remove` and `directory_rename`: unused by the shell.
- Orphans: a cluster taken for a file whose entry is then not saved stays allocated but belongs to nobody; it is left in the FAT, as in the code, and the volume stays consistent.
- FileSystems.RemoveDirectory: the name "." is excluded, which no normalized path ends in; for ".." the tree's dot-dot entries point to the owners. Removing the current directory is allowed, and then the cached path no longer leads anywhere. The search of the freed root goes on at cluster number 0, taken to lie in the reserved sectors and the FAT.
- MovePaths.MovePath: says nothing of a move of a dot entry or to a name beginning with 0xE5, of which Renames.RenameInDirectory and Renames.MoveFile say what is left.
- VolumeRuns.RunKeeps: runs do not remove the root when it lists nothing, do not rename or move dot entries, and give no names beginning with 0xE5 to directories or to moved or renamed entries; FileSystems.RemovalKeepsIff, Renames.RenameKeepsIff, Renames.MoveKeepsIff and Subdirectories.MadeKeepsIff say what these do.
- Files.FileHandle.Write: buffers below 2^31 bytes, since the length is returned as a signed 32-bit number.
- Files.FileHandle.Append: sizes below 2^32, which no FAT32 file exceeds; and for buffers of 2^31 bytes and more the length it returns would be read as a negative number.
- FileWrites.WriteFile: buffers below 2^31 bytes, as Files.FileHandle.Write.
- FileWrites.AppendFile: the same two limits as Files.FileHandle.Append.
- FileLaws.WriteThenRead: says nothing when fewer bytes were written than asked for; Files.FileHandle.Write and VolumeLaws.WriteCompleteIff do.
- WorkingDirectories.WorkingDirectory.Change: that ".." entries lead to the owner is assumed of the tree; DirectoryTrees.StepKeepsParentsIff says which operations keep it.
- Scheduler steps: each operation is one atomic step, also where the code reads a field before it disables interrupts; `process_exit` is two steps because it enables interrupts in between.
- Saved stack pointers, stacks, thread numbers and names: a switch changes the current thread only.
- Schedulers.Scheduler.Start: a new thread is put into the queue once, while its process is running.
- Schedulers.Scheduler.CreateThread: does not model the 32-bit wrap-around of the thread count, which would need 2^32 threads at once.
- Schedulers.Scheduler.DestroyThread: not of a queued thread, after which the queues are none; SchedulerLaws.DestroyThreadKeepsIff says so.
- Freed memory: a thread or process freed is one the roster or the process list no longer knows; double use of its memory is not modelled.
- Page tables: frames are taken as addressable where they are, and loading CR3 and `invlpg` as choosing the active space.
- Memory map: regions end below 4 GiB.
- Heaps.Heap.Kmalloc: not for sizes that wrap around and whose header would lie behind the array.
- Heaps.Heap.Kfree: of null or a pointer `kmalloc` returned, also if it is already free.
- Shell, terminal, keyboard, timer, interrupt and disk drivers: plumbing around the modelled parts.
