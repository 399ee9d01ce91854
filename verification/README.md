# A verified model of the file system driver, the kernel's processes and paging, and two shell commands

The repository is a small operating system with a file system of its own format, "FAT32, IF2230
edition" (`src/header/filesystem/fat32.h:9-10`). This project models three parts of it in Dafny
and proves what they are for.

**The file system driver** (`src/fat32.c`) keeps a map of 512 cells, cached in memory and stored
in cluster 1, and directories of 64 entries, one cluster each.

- `Layout.dfy` says how entries, tables and cells lie in bytes; `Disk.dfy` is the disk of
  `src/external-inserter.c`, an array copied block by block.
- `Volume.dfy` says what each operation does to the cached map and the clusters, as functions.
  `Fat32.dfy` is the driver itself, a class that updates the map, the directory buffer and the disk
  in place; its loops are proved to compute those functions (`FileScan.dfy`, `ChainWalk.dfy`).
- `Heap.dfy`, `Tree.dfy` and `Consistency.dfy` state the invariant: the map is a heap of disjoint
  chains that run upwards, the live directories are a tree under cluster 2, a search by name that
  ignores liveness finds the live entry, the cached map is what the disk has. A ghost `Shape` names
  the chains, the one entry that refers to each, and the depths; `Reached.dfy` proves that the bytes
  determine it.
- `Names.dfy` maps a volume to what a user sees: for each directory, names with their bytes or
  folder. `Runs.dfy` and `RunTheorems.dfy` prove that the driver simulates that plain map over every
  sequence of `write`, `delete`, `read` and `read_directory`; `PlainRuns.dfy` does so for callers who
  know nothing but the names. `Syscalls.dfy` is the kernel's dispatch
  of those calls, and `Buffers.dfy` what callers then find in their memory; `Startup.dfy` covers formatting, mounting and failing calls; `Undo.dfy` shows that
  `delete` undoes `write`.
- `Space.dfy` proves that the free space is determined by the names alone, so that no run loses a cluster.
- `WriteOrder.dfy`, `WrongBranch.dfy` and `Exact.dfy` prove exactly when the driver does not meet
  its own promises; `LeftOvers.dfy` shows what a deleted folder leaves behind in states callers reach,
  and `FailingInputs.dfy` gives inputs from a formatted disk on for the rest.

**Processes, page frames, page directories and the timer** (`src/process.c`, `src/paging.c`,
`src/scheduler.c`, `src/interrupt.c`). `Processes.dfy` says what each step does; the class in
`Machine.dfy` does it in place; `KernelInv.dfy`, `KernelSteps.dfy` and `KernelRuns.dfy` prove the
invariant over every run from start-up and that preemption is transparent; `RoundRobin.dfy` proves
fairness; `AddressSpace.dfy` says in addresses and numbers what the
processor makes of the directories and what requests are answered; `FrameRelease.dfy` says when giving a frame back undoes taking it; `KernelLimits.dfy` says when
CR3 keeps a directory in use, and gives the runs at which that and the guard of creation fail.

**The shell's `cd` and `find`** (`src/user-shell.c`). `Paths.dfy` and `ChangeDirectory.dfy`: a stack
of directories in fixed arrays. `Searches.dfy` and `FindCommand.dfy`: a breadth-first search with an
array queue. Both work on the tree that the driver keeps, and read it through the driver.

## What callers owe

The promises hold for callers who keep to what the code takes for granted. `Owed` in `Runs.dfy` and
`Allowed` in `KernelRuns.dfy` list it; `OwedSuffices` and `AllowedSuffices` prove that this is enough
along every run. `Polite` in `PlainRuns.dfy` says it again for the file system in terms of the names
alone, and `RunsFromFormat` proves the driver right for every polite run from a formatted disk.
`Startup.FormatInv` and `KernelSteps.BootedKeeps` give the states that runs start from.

- `write`: the parent is a live directory or a free cell; the name is new there and not empty; the
  map has cells for the whole file and a buffer for whole clusters, because the scan's bound is
  CLUSTER_SIZE (2048) while the map has 512 cells (`src/fat32.c:279`, `src/fat32.c:318`) and the last
  cluster is padded in the caller's buffer (`src/fat32.c:356`); a folder also needs a free slot.
- `delete`: the extension is empty exactly for folders (`src/fat32.c:415`); the empty root is not
  deleted by its own name from within.
- `delete`, `read`, `read_directory`: the parent is a live directory, and the name is in use there or
  was not deleted there as a folder.
- Kernel: with no frame left, no request of the one size whose sum with a page wraps to zero;
  no kill of the first process or of an absent one.
- Shell: directories at most nine deep; `cd` components of at most eight bytes, none of which a folder
  entry left over reads as; `find` with no folder entry left over but under the name looked for.

Where a caller does otherwise, `WriteOrder.dfy`, `WrongBranch.dfy`, `Exact.dfy`, `LeftOvers.dfy`,
`Paths.DescendOnTreeIff`, `KernelInv.GuardSufficesIff` and `KernelLimits.dfy` prove exactly when that does
harm; `LeftOvers.dfy`, `FailingInputs.dfy` and `KernelLimits.dfy` give inputs, reached from a formatted disk or
from start-up, at which it does.

## Where code and comments disagree

The model follows the code.

- `write` never answers 1, "already exist" (`src/fat32.c:252`): `WriteOrder.FileWriteOrderlyIff`,
  `FailingInputs.RootNameTwice`.
- "Invalid parent cluster" (`src/fat32.c:252`) is answered for free cells only, not for cells of files
  or the reserved cells 0 and 1: `WriteOrder.InvalidParentIff`, `FailingInputs.FolderUnderFile`.
- `write` of a folder into a full directory answers 0 and takes a cluster (`src/fat32.c:292-304`; the
  test at `src/fat32.c:308` asks whether the map had a free cell): `WriteOrder.FolderWriteOrderlyIff`,
  `FailingInputs.FolderInFullRoot`.
- `read`'s "not enough buffer" counts 512 bytes a cluster where a cluster has 2048, and not the last
  (`src/fat32.c:229`): `Exact.ReadFitsIff`.
- `delete` of a folder keeps its name in a dead entry, which searches still find
  (`src/fat32.c:427`): `Exact.FolderLookupRightIff`, `Exact.FileLookupRightIff`,
  `Exact.DeletedFolderStillFound`.
- `delete` trusts the caller's extension over the entry, finds names left over, and finds a directory's
  own name: `WrongBranch.DeleteSafeIff`, `WrongBranch.DeleteOrderlyIff`, `WrongBranch.OwnNameTakesParent`,
  `LeftOvers.SecondDeleteFreesFile`.
- The comment on a new directory's table promises its parent in entry 1 (`src/fat32.c:31-34`); the
  code stores the parent's cluster in entry 0.
- The guard of process creation divides twice by the size of a page and so asks for one frame, where
  creation takes two (`src/process.c:64-65`); this is harmless because frames go in pairs:
  `KernelInv.GuardSufficesIff`, and `KernelLimits.WrappedRequestAdmitted` for the one request it is not for.
- Killing the running process frees the directory CR3 names (`src/process.c:148-175`) and leaves CR3 on it until
  the next tick: `KernelLimits.BackedAfterIff`, `KernelLimits.KilledWhileRunning`.
- Creation takes the slot numbered by the count of live processes (`src/process.c:72`), which after a
  kill below the highest is a live one: `KernelRuns.CreateSparesIff`,
  `KernelRuns.LowKillThenCreateOverwrites`.
- `find`'s test for an empty entry compares the name's address with 0 (`src/user-shell.c:770`) and so
  skips nothing, dead ones included: `FindCommand.HitRightIff`, `LeftOvers.DeletedFolderIsHit`.
- Formatting does not clear the map (`src/fat32.c:90-92`): `Startup.FormatOrderlyIff`.
- `cd a/b` is not `cd a` and `cd b` when just one of them fails, and `cd ../b` is `cd ..`:
  `Paths.CdComposesIff`, `Paths.UpThenDown`.

## Model

| member | source | states |
|---|---|---|
| `DiskImage.Disk.ReadBlocks` | src/external-inserter.c:13-21 | Memory from the offset on holds the named blocks of the image; every other byte of the memory is as before. |
| `DiskImage.Disk.WriteBlocks` | src/external-inserter.c:23-31 | The named blocks of the image hold the source bytes; every other byte of the image is as before. |
| `DiskImage.Disk.WriteClusters` | src/fat32.c:127-130 | Exactly one cluster of the disk changes, to the bytes given. |
| `Layout.TableRoundTrip` | src/header/filesystem/fat32.h:85-106 | A directory table survives being written as 2048 bytes and read back, whatever its 64 entries hold. |
| `Layout.TableBytesRoundTrip` | src/header/filesystem/fat32.h:85-106 | Any cluster read as a table and written back gives the same bytes, so tables and clusters correspond one to one. |
| `Layout.CellsRoundTrip` | src/header/filesystem/fat32.h:61-63 | The cluster map survives being written to cluster 1 and read back. |
| `Layout.CellBytesRoundTrip` | src/header/filesystem/fat32.h:61-63 | Any cluster read as a map and written back gives the same bytes. |
| `Layout.ClusterSplit` | src/fat32.c:50-51 | An entry that stores a cluster number split into two 16-bit halves refers to that cluster. |
| `Layout.EntryLayout` | src/header/filesystem/fat32.h:85-101 | A directory entry's 32 bytes, field by field at the offsets of the packed record, numbers with the lowest byte first. |
| `Layout.TableLayout` | src/header/filesystem/fat32.h:104-106 | Entry `i` of a table has the 32 bytes from 32 i on. |
| `Layout.CellLayout` | src/header/filesystem/fat32.h:61-63 | Cell `c` of the map has the four bytes from 4 c on, lowest first. |
| `Volume.EntriesMade` | src/fat32.c:41-52 | Every field of the entries the driver makes, for a file, a folder and a directory's own; those it does not set in a folder's keep what memory held. |
| `Fat32.Driver.constructor` | src/fat32.c:7 | A driver starts with an all-zero cluster map over the disk given. |
| `Fat32.Driver.Create` | src/fat32.c:79-102 | Formats: signature, three reserved cells, the map in cluster 1, the root's table in cluster 2 and in the directory buffer; nothing else on the disk changes. |
| `Fat32.Driver.Start` | src/fat32.c:108-117 | Formats a disk whose boot block differs from the signature anywhere; on any other disk only the cached map and the directory buffer change, to what clusters 1 and 2 hold. |
| `Fat32.Driver.PlaceEntry` | src/fat32.c:335-342 | The entry lands in the first slot that is not live, and no slot changes when all are. |
| `Fat32.Driver.WriteFolder` | src/fat32.c:275-311 | FAT, disk and code after making a folder, a full or a free parent included, are those of the value-level operation that the invariants are proved about. |
| `Fat32.Driver.FilePass` | src/fat32.c:317-374 | One pass of the scan finishes the whole file before the map ends, threading the first free cells in increasing order while the tail cell is still free, and pads exactly the bytes after the size in the last cluster. |
| `Fat32.Driver.WriteFile` | src/fat32.c:313-376 | The nested loops store the chunks in the first free cells, make them one chain, enter the file in the first free slot, and end; a full parent changes nothing. |
| `Fat32.Driver.Write` | src/fat32.c:254-378 | FAT, disk and code after `write`, on every branch, nothing behind the clusters changing; the caller's buffer is as before, but for a file written, where just the bytes from its size to the next multiple of 2048 hold the low byte of the number of the cell that ends its chain. |
| `Fat32.Driver.FreeChain` | src/fat32.c:441-448 | The walk ends and frees and clears exactly the clusters of the chain that starts at the entry's cluster. |
| `Fat32.Driver.Delete` | src/fat32.c:387-457 | FAT, disk and code after `delete`, with the branch chosen by the caller's extension. |
| `Fat32.Driver.FindName` | src/fat32.c:400-407 | The search stops at the first entry of that name, live or not. |
| `Fat32.Driver.ReadDirectory` | src/fat32.c:159-184 | The buffer holds the cluster of the entry first found, or is untouched when the code is not 0. |
| `Fat32.Driver.Read` | src/fat32.c:193-246 | The buffer starts with the clusters of the file's chain, all or as many as the size test lets through, and is otherwise untouched. |
| `Fat32.Driver.ReadChain` | src/fat32.c:226-241 | The do-while walk ends and copies the chain's clusters in order. |
| `FileScan.ScanEnd` | src/fat32.c:354-370 | What the scan has threaded when it fills the last cluster is the file written to the first free cells of the map. |
| `FileScan.ScanInRange` | src/fat32.c:318-320 | A scan with enough free cells has not used them all before the map's end: its bound of 2048 is never reached. |
| `ChainWalk.FreeStep` | src/fat32.c:441-448 | Each step of the deleting walk is on the old chain, and what is freed so far is its prefix, although the cells behind are already zero. |
| `Syscalls.Serve` | src/interrupt.c:84-107 | System calls 0 to 3 by a caller who gives what it owes answer as the plain model says and leave the volume in order; the caller's buffer then starts with the bytes of the file named, or as many as code 2 allows, or is the table that shows the directory named; all behind what was handed over, and all of it when nothing was, is as before. |
| `Buffers.ReadDelivers` | src/fat32.c:169-245 | Any reply the plain model allows, copied to the start of a buffer, is the file's bytes, their prefix, or the directory, with every byte behind it as before. |
| `Volume.WriteKeepsBuffer` | src/fat32.c:354-357 | After `write` the buffer is as before unless a file was written; then it differs at most from the file's size up to the next multiple of 2048, where it holds the low byte of the number of a cell that was free and now ends the chain. |
| `Buffers.FileOnDisk` | src/fat32.c:319-372 | Byte for byte where a file written lies: the `k`-th cell of its chain has the bytes from 2048 k on, and the filling behind the last. |
| `Heap.ChainsDisjoint` | src/fat32.c:320-361 | Chains of different files and folders share no cell. |
| `Heap.CellsPointUp` | src/fat32.c:360-372 | Every used cell ends a chain or points at a strictly larger cell of the map. |
| `Heap.WalkIsChain` | src/fat32.c:226-240 | Following the map from a head ends and meets exactly the cells of its chain, in order. |
| `Heap.AddChain` | src/fat32.c:360-365 | Linking free cells adds one chain and keeps the heap: used cells are exactly those on chains. |
| `Heap.DropChain` | src/fat32.c:441-448 | Freeing a chain's cells removes that chain and no cell of another. |
| `Heap.ReleaseUndoesLink` | src/fat32.c:441-448 | Linking free cells and freeing them again restores the map cell for cell. |
| `Tree.SearchFindsLive` | src/fat32.c:211 | A search that ignores liveness stops at the live entry whenever a live one has the name. |
| `Tree.NamesAfterAdd` | src/fat32.c:335-342 | Filling the first slot that is not live keeps it so: no dead entry of the same name comes before a live one. |
| `Tree.EditKeepsTree` | src/fat32.c:292-304 | Rewriting one slot keeps the directories a tree, when the file or folder that comes or goes is in order. |
| `Tree.DropEntry` | src/fat32.c:421-427 | Giving up the entry of a file or of an empty folder leaves a tree: no directory loses its parent. |
| `Tree.ParentsReachRoot` | src/fat32.c:40-59 | From every live directory, entry 0 leads through live directories to cluster 2, in exactly as many steps as it lies deep. |
| `Consistency.FileWriteKeepsInv` | src/fat32.c:313-376 | Writing a file under a new name keeps heap, tree, cached map and reserved cells in order. |
| `Consistency.FolderWriteKeepsInv` | src/fat32.c:275-311 | Making a folder under a new name in a directory with a free slot keeps them in order. |
| `Consistency.FileDeleteKeepsInv` | src/fat32.c:437-457 | The file branch keeps them in order for every file and for an empty folder. |
| `Consistency.FolderDeleteKeepsInv` | src/fat32.c:415-434 | The folder branch keeps them in order for an empty folder and for a file of one cluster. |
| `Consistency.LiveEntryAt` | src/fat32.c:327-332 | A live entry's chain has as many cells as its size needs, starts at its cluster, and is referred to by no other entry. |
| `Names.FileWriteAdds` | src/fat32.c:254-378 | On the names a user sees, `write` adds one file with the bytes given and changes nothing else anywhere. |
| `Names.FolderWriteAdds` | src/fat32.c:275-311 | Making a folder adds its name to the parent and one new directory that knows its parent, and nothing else. |
| `Names.FileDeleteRemoves` | src/fat32.c:437-457 | Deleting a file removes that name and nothing else. |
| `Names.FolderDeleteRemoves` | src/fat32.c:415-434 | Deleting an empty folder removes its name and its directory and nothing else. |
| `Runs.FullIffAllNamed` | src/fat32.c:335-345 | A directory has no free slot exactly when it lists 64 names. |
| `Runs.EmptyIffNoEntries` | src/fat32.c:421-425 | The driver finds a folder empty exactly when its only name is its own. |
| `Runs.RoomAnswer` | src/fat32.c:226-241 | What `read` hands over of a file, in terms of its bytes and the buffer size alone. |
| `Runs.CallRefines` | src/fat32.c:159-457 | Each of the four calls, made as its caller owes, answers and changes the names as a map from directory and name to a file's extension and bytes or to a folder does; a directory read shows every name with what it stands for. |
| `RunTheorems.OwedSuffices` | src/fat32.c:159-457 | Over any run, what callers owe is all that is needed: no scan leaves the map, no walk leaves its chain. |
| `RunTheorems.RunRefines` | src/fat32.c:159-457 | For every sequence of calls made as callers owe, the driver simulates the plain map, reply by reply, and ends in order. |
| `PlainRuns.PoliteIsOwed` | src/fat32.c:159-457 | What a caller owes can be told from the names it sees and from which of them it deleted as folders: no look at table bytes, dead entries or the map is needed. |
| `PlainRuns.LeftKept` | src/fat32.c:427-454 | Every call keeps it so: the dead entries are blank or bear a name deleted as a folder from a directory that is still there. |
| `PlainRuns.PoliteSuffices` | src/fat32.c:159-457 | Along every run a caller who goes by the names alone gives all it owes. |
| `PlainRuns.RunsFromFormat` | src/fat32.c:79-457 | From a freshly formatted disk, for every run of calls that may be made by the names alone, the driver finds all it needs, simulates the plain map and ends in order. |
| `PlainRuns.NotLeftNotStale` | src/fat32.c:208-211 | A name never deleted as a folder from a directory is never found dead in it. |
| `PlainRuns.RunStaysReadable` | src/fat32.c:254-457 | Runs that write padded names, folder deletions among them, keep every name blank or padded, those of dead entries included, and what is left over known. |
| `PlainRuns.ShellFromFormat` | src/user-shell.c:399-501 | After any polite run of padded names from a formatted disk, whatever folders it deleted, every stack on the tree resolves from the root; `cd` may be given any component that no name left over reads as, and `find` may look for the name if only that one is left over. |
| `PlainRuns.RunStaysTidy` | src/fat32.c:254-457 | Runs that write padded names and delete no folder keep a volume tidy, so that all that `cd` and `find` ask of the volume holds for every name. |
| `PlainRuns.FormatTidy` | src/fat32.c:79-102 | A freshly formatted volume is tidy. |
| `PlainRuns.ClearFromLeft` | src/user-shell.c:457-489 | What `cd` asks of the volume follows when no name deleted as a folder reads as a component. |
| `PlainRuns.OnlyFromLeft` | src/user-shell.c:767-820 | What `find` asks of it follows when no other name than the one looked for was deleted as a folder. |
| `RunTheorems.RunKeepsFile` | src/fat32.c:254-457 | A run that neither writes nor deletes a name leaves its bytes. |
| `RunTheorems.KnownNameReadable` | src/fat32.c:208-211 | A name in use may always be read: whatever was deleted before, the search finds its live entry. |
| `RunTheorems.ReadsBackLastWrite` | src/fat32.c:193-378 | After any run of other calls, `read` with a buffer size at least the file's returns 0, and its first bytes are those last written. |
| `Space.HeapAddsUp` | src/fat32.c:320-372 | Free cells and the lengths of all chains add up to the 510 cells the map has for files and directories. |
| `Space.SpaceAddsUp` | src/fat32.c:254-457 | Free cells plus one cluster for each directory and each file's bytes rounded up to clusters, counted on the names a user sees, are always 510. |
| `Space.RunLosesNothing` | src/fat32.c:254-457 | Over any run, what is free and what the names take keep their sum: no sequence of calls loses a cluster. |
| `Startup.FormatInv` | src/fat32.c:79-102 | A disk freshly formatted with a zeroed map is in order and holds the root alone. |
| `Startup.StartFormatsIff` | src/fat32.c:68-117 | A start formats just the disks whose first 512 bytes differ from the boot block somewhere; of any other the map is read and nothing is written. |
| `Startup.FormatBytes` | src/fat32.c:9-17 | Formatting in bytes: text, zeros and end mark of the boot block, the three reserved cells, the root's entry in use as a directory and zeros behind it; no other byte changes. |
| `Startup.FormatOrderlyIff` | src/fat32.c:85-94 | Formatting, which leaves the cells above 2 alone, gives a volume in order if and only if they were all empty. |
| `Startup.MountRestores` | src/fat32.c:108-117 | On any volume in order, initialising again restores the cached map from cluster 1 and changes nothing. |
| `Startup.FailedWriteChangesNothing` | src/fat32.c:257-259 | A `write` that answers other than 0 has changed neither map nor disk. |
| `Startup.FailedDeleteChangesNothing` | src/fat32.c:390-425 | A `delete` that answers other than 0 has changed neither map nor disk. |
| `Undo.DeleteUndoesFileWrite` | src/fat32.c:313-457 | Writing any new file, with or without an extension, and deleting it by a request with one restores the map cell for cell, the names, the parent's live entries and every other used cluster. |
| `Undo.DeleteUndoesFolderWrite` | src/fat32.c:275-434 | The same for a folder, whatever extension the request that made it had, deleted by a request without one. |
| `Reached.ShapeUnique` | src/fat32.c:40-59 | The bytes on disk determine the tree, the chains and their owners: a volume in order has one shape only. |
| `Reached.Stray` | src/fat32.c:299-302 | A used cell that no cell and no live entry refers to fits no tree and no heap. |
| `WriteOrder.FileWriteOrderlyIff` | src/fat32.c:257-376 | The documented "already exists" is never answered: for any parent cluster whatever, writing a file keeps the volume in order if and only if it is refused, or the parent is a live directory and the name is new there and not empty. |
| `WriteOrder.FolderWriteOrderlyIff` | src/fat32.c:257-311 | For any parent cluster, making a folder keeps the volume in order if and only if it is refused, or the parent is a live directory with a free slot and the name is new and not empty; otherwise it still answers 0, with the name doubled or empty, or, where no slot or no directory took the entry, with a cluster that is nobody's. |
| `WriteOrder.InvalidParentIff` | src/fat32.c:252-259 | The documented "invalid parent cluster" is answered for just the parents that are no live directory if and only if the one given is a live directory or a free cell: cells of files and cells 0 and 1 pass for directories. |
| `FailingInputs.RootNameTwice` | src/fat32.c:252-376 | A file or folder named as the root, written to the root of a formatted disk: the call answers 0 and leaves no order. |
| `FailingInputs.FileTakenForDirectory` | src/fat32.c:252-376 | Write a file, and then anything with the file's first cell for a parent: the call is not refused as "invalid parent", and where it answers 0, always for a folder, it leaves no order. |
| `FailingInputs.FolderUnderFile` | src/fat32.c:252-311 | So from a formatted disk: a small file in the root, a folder made under it. |
| `FailingInputs.FolderInFullRoot` | src/fat32.c:284-311 | Sixty-three files fill the root of a formatted disk; making a folder there then answers 0 and leaves no order. |
| `WriteOrder.TakenForNobody` | src/fat32.c:299-302 | Cells linked while every directory stays as it was leave the volume in no order. |
| `Reached.FreedInUse` | src/fat32.c:428-448 | Freeing a cell that a cell or a live entry still refers to leaves the volume in no order. |
| `WrongBranch.FileAsFolderStrays` | src/fat32.c:415-434 | A file longer than a cluster deleted without an extension leaves the rest of its chain in use by nobody. |
| `WrongBranch.FolderAsFileStrays` | src/fat32.c:437-457 | A folder with entries deleted with an extension leaves what it held in use by nobody. |
| `WrongBranch.LiveDeleteIff` | src/fat32.c:415-457 | Deleting a live entry other than entry 0 leaves the volume in order if and only if the call is refused, or the extension suits the entry, or the file fits one cluster, or the folder is empty. |
| `WrongBranch.OwnNameTakesParent` | src/fat32.c:400-457 | Called with an extension on a directory's own name, `delete` answers 0, frees and wipes the parent's cluster, and leaves the volume in no order. |
| `WrongBranch.DeleteOrderlyIff` | src/fat32.c:387-457 | For every name in a live directory, be it a child's, the directory's own, left over or none: a `delete` that stays in the map leaves the volume in order if and only if it is refused, or the name is a child's and the extension suits, or it is left over, the call has no extension and the cell it names is still free. |
| `WrongBranch.WalkableIff` | src/fat32.c:441-448 | In a heap in order the walk of `delete` from a cell ends if and only if the cell is in the map, is not cell 0 and is in use. |
| `WrongBranch.DeleteReadyIff` | src/fat32.c:387-457 | `delete` stays within the map if and only if it finds nothing, or a live entry, or a dead one whose cell is in the map and, for a call with an extension, in use and not cell 0. |
| `WrongBranch.DeleteSafeIff` | src/fat32.c:387-457 | For every call: `delete` stays within the map and leaves the volume in order if and only if the name is not there, or the call has no extension and the folder is not empty, or the entry may be deleted without harm. |
| `WrongBranch.FreeCellTakesBoot` | src/fat32.c:441-448 | The walk from a free cell frees cell 0 and wipes the boot signature, so that the next start formats the disk, and then leaves the map. |
| `LeftOvers.SecondDeleteLeavesMap` | src/fat32.c:400-448 | Make a folder, delete it, and delete it once more with an extension: the walk starts on a free cell and leaves the map. |
| `LeftOvers.SecondDeleteFreesFile` | src/fat32.c:400-434 | Make a folder, delete it, write a file elsewhere, delete the folder once more: unless the file's bytes look like live entries the call answers 0 and frees the file's first cell. |
| `LeftOvers.FolderLeft` | src/fat32.c:427 | After making and deleting a folder names, map and shape are as before, and one dead entry keeps its name and cluster. |
| `Exact.FolderLookupRightIff` | src/fat32.c:169-197 | For a name not in use, `read_directory` answers "not found" if and only if no dead entry kept the name; it takes the empty name for that of a blank entry. |
| `Exact.FileLookupRightIff` | src/fat32.c:201-245 | For a name not in use and any buffer size, `read` answers "not found" if and only if no dead entry kept the name. |
| `Exact.DeletedFolderStillFound` | src/fat32.c:427 | Every folder made and deleted again is such a case: its name is gone, and `read_directory` still answers 0 for it. |
| `Exact.ReadFitsIff` | src/fat32.c:229-231 | `read` keeps within the buffer size if and only if that holds all whole clusters; code 2 is right if and only if the size holds the file or is below 512 bytes for each cluster but one. |
| `Exact.SmallBufferAccepted` | src/fat32.c:229-231 | A two-cluster file read with a buffer size of 512 answers 0 with all 4096 bytes. |
| `Machine.Kernel.constructor` | src/paging.c:25-32 | Only frame 0 is in use, 31 are counted free, no process, no directory taken. |
| `Machine.Kernel.UsePageDirectory` | src/paging.c:205-211 | CR3 holds the directory's address less the kernel's base, and nothing else changes. |
| `Machine.Kernel.CreatePageDirectory` | src/paging.c:139-171 | The first unused directory of the pool is taken and given the kernel's entry; NULL and no change when all are used. |
| `Machine.Kernel.FreePageDirectory` | src/paging.c:173-196 | The pool directory at the address is cleared entry by entry and given back; any other address changes nothing. |
| `Machine.Kernel.ClaimFrame` | src/paging.c:82-90 | The lowest free frame is marked and the counter goes down by one. |
| `Machine.Kernel.FreeUserPageFrame` | src/paging.c:108-129 | In whatever directory, the mapping goes, its frame is marked free and counted. |
| `AddressSpace.PageIndexIs` | src/paging.c:40-42 | The entry the kernel writes for an address is the one about the four megabytes that hold it, and no other is. |
| `AddressSpace.AllocMaps` | src/paging.c:70-106 | An allocation maps the whole page of the address to the lowest free frame, for the user to write; no other page of any directory changes. |
| `AddressSpace.FreeUnmaps` | src/paging.c:108-129 | Giving back unmaps the whole page of the address and frees the frame it went to; no other page of any directory changes. |
| `Machine.Kernel.CreateUserProcess` | src/process.c:47-128 | The whole kernel state after creation, and the code in numbers: 1 for sixteen live processes, 2 for an entry point from 0xC0000000 on, 3 for a size above 28 megabytes that does not wrap around, or no free frame and any size but 0xFFC00000, else 0; each refusal changes nothing. |
| `AddressSpace.CreateAnswers` | src/process.c:50-70 | The same numbers for the value-level creation that the invariants are proved about. |
| `AddressSpace.CreatedProcess` | src/process.c:72-123 | A process created has the slot at the count, its name, its entry point, its stack at 0xBFFFFFFC, a directory that was unused, and two frames that were free; no other slot or directory changes, nor does CR3. |
| `Machine.Kernel.DestroyProcess` | src/process.c:148-175 | The process block is cleared, its directory given back, the count lowered; its frames stay taken. |
| `Machine.Kernel.SaveContext` | src/scheduler.c:31-39 | The context goes to the running process's block, and nowhere when none runs. |
| `Machine.Kernel.PickNext` | src/scheduler.c:53-67 | The cyclic search ends, also when no other process is ready, at the first ready slot after the running one or back at it. |
| `Machine.Kernel.SwitchToNextProcess` | src/scheduler.c:44-73 | State, CR3 and the context handed to the switch, with slot 0 standing in when nothing runs. |
| `Machine.Kernel.TimerInterrupt` | src/interrupt.c:214-228 | The interrupted context is saved before the next process is picked and its context handed over. |
| `Machine.Kernel.Boot` | src/kernel.c:32-53 | A frame for the kernel, the shell's process, the first switch, which is handed the shell's initial context: entry 0, fresh registers, the pool's first directory. |
| `Processes.TwoFrames` | src/paging.c:82-90 | With two free frames by the bitmap, two searches in a row find one each, in increasing order. |
| `KernelInv.NoFrameShared` | src/paging.c:70-106 | Two different user mappings, in the kernel's or any pool directory, go to different frames, marked used and never frame 0. |
| `KernelInv.GuardSufficesIff` | src/process.c:64-87 | Although the guard asks for one frame, creation finds its two frames and its directory if and only if a frame is free, or the request is refused for a full table or its entry point, or its size is not 0xFFC00000, whose sum with a page wraps to zero. |
| `KernelLimits.WrappedRequestAdmitted` | src/process.c:64-87 | From start-up, after fourteen further processes no frame is free; a request of 0xFFC00000 bytes is then let through and finds none. |
| `KernelInv.BuiltDir` | src/process.c:76-87 | A new process's directory has the kernel's entry, its code page, its stack page and no other; on one entry the stack's frame wins. |
| `AddressSpace.BuiltSpace` | src/process.c:76-87 | What the processor makes of every 32-bit address in a new directory: the top four megabytes below 0xC0000000 go to the stack's frame, those of the entry point to the code's, both for the user to write, those from 0xC0000000 to frame 0 and closed to the user, and no other address is mapped. |
| `AddressSpace.DirectoriesApart` | src/paging.c:132 | Pool directories lie 4096 bytes apart. |
| `AddressSpace.RunningCr3` | src/paging.c:205-211 | While a process runs CR3 is its directory's address less 0xC0000000. |
| `AddressSpace.KilledProcess` | src/process.c:148-175 | A kill clears one slot and empties one directory; no other slot, directory or frame changes, nor does CR3. |
| `AddressSpace.TickLeaves` | src/scheduler.c:31-75 | A tick touches no frame, directory or count, and keeps every number, name and life in the table. |
| `AddressSpace.BootedSpace` | src/kernel.c:33-53 | After start-up the shell's code is in frame 2, its stack in frame 3, the kernel has frame 1 at address 0, and just the first four frames are used. |
| `KernelInv.BuildKeepsPaging` | src/process.c:76-87 | Building an address space keeps every frame apart, the counter right and even, unused directories empty. |
| `KernelSteps.CreateKeeps` | src/process.c:47-128 | Creation, admitted or refused, keeps the kernel invariant. |
| `KernelSteps.DestroyKeeps` | src/process.c:148-175 | Killing a live process other than the first keeps it. |
| `KernelSteps.SwitchKeeps` | src/scheduler.c:44-73 | A switch keeps it and leaves exactly the chosen process running. |
| `KernelSteps.TickKeeps` | src/interrupt.c:214-228 | A timer interrupt keeps it, CR3 being the running process's directory again. |
| `KernelSteps.BootedKeeps` | src/kernel.c:32-53 | Start-up establishes it. |
| `KernelRuns.StepKeeps` | src/process.c:47-175 | One event of any kind finds what it takes for granted and keeps the kernel in order. |
| `KernelRuns.AllowedSuffices` | src/process.c:64-87 | Along every run of allowed events the frame search never comes up empty, the pool never gives NULL, the pid search always ends in the table. |
| `KernelRuns.ReachableSound` | src/kernel.c:32-53 | Every state reached from start-up: no frame shared, counter right and even, unused directories empty, live processes with directories of their own, at most one running, and CR3 its directory. |
| `KernelLimits.BackedAfterIff` | src/process.c:148-175 | The directory CR3 names is in use and maps the kernel after an event if and only if the event is a tick, or it was so before and no kill took that directory, or a creation is given that very directory. |
| `KernelLimits.BackedUnlessKilledIff` | src/process.c:148-175 | In a state as start-up and every tick leave it, CR3's directory stays in use with the kernel's entry if and only if the event is not the kill of the running process. |
| `KernelLimits.ReachableBacked` | src/process.c:148-175 | Over every run from start-up that never kills the process that runs, CR3's directory is in use and maps the kernel. |
| `KernelLimits.KilledWhileRunning` | src/process.c:148-175 | From start-up: spawn a process, let a tick run it, kill it; CR3 is left on an empty directory that is not in use. |
| `KernelRuns.StepKeepsCompact` | src/process.c:72-118 | When only the highest process is killed, live slots are exactly those below the count and creation never lands on a live one. |
| `KernelRuns.RunKeepsCompact` | src/process.c:72-175 | The same over whole runs. |
| `KernelRuns.CreateSparesIff` | src/process.c:72-73 | Creation leaves every live process alone if and only if the slot at the count is not live. |
| `KernelRuns.LowKillThenCreateOverwrites` | src/process.c:72-173 | In a compact table, a kill below the highest makes the next creation overwrite the highest, which was live. |
| `KernelRuns.TickContexts` | src/scheduler.c:31-39 | A timer interrupt changes the interrupted process's context and no other. |
| `KernelRuns.ResumedAsInterrupted` | src/interrupt.c:214-226 | A process interrupted by the timer is resumed with the registers, instruction pointer, flags and directory it was interrupted with: by the same tick if that picks it again, else by the first later one that does, whatever ran, was created or was killed in between. |
| `KernelRuns.ResumedAtOnce` | src/scheduler.c:62-72 | A tick that resumes the process it interrupts, as every tick does while the shell is alone, hands back just what it saved. |
| `KernelRuns.StartsFromInitial` | src/process.c:98-109 | The first context a new process is resumed with is, whatever happened since, exactly the initial one made at its creation. |
| `KernelRuns.InitialContextIs` | src/process.c:101-109 | That context has the entry point, both stack registers on the user stack, the user data segment in all four data segment registers, interrupts on, the new directory, and every other register as the slot last had it. |
| `RoundRobin.SearchFindsSuccessor` | src/scheduler.c:62-67 | With all other live processes ready, the search finds the next live slot in cyclic order. |
| `RoundRobin.TickTakesTurn` | src/scheduler.c:44-73 | A tick passes the processor to the cyclic successor and keeps the set of live slots. |
| `RoundRobin.EachOnce` | src/scheduler.c:44-73 | With n live processes and none created or killed, any n ticks in a row run each exactly once and end where they began. |
| `FrameRelease.FreeUndoesAllocIff` | src/paging.c:70-127 | Freeing undoes an allocation if and only if nothing was mapped at the address before. |
| `FrameRelease.AllocUndoesFreeIff` | src/paging.c:70-127 | An allocation undoes a freeing if and only if the mapping was a user page on a used frame below every free one. |
| `FrameRelease.FreeKeepsCountIff` | src/paging.c:108-118 | The counter still is the number of free frames if and only if the frame given back was in use. |
| `FrameRelease.FreeKeepsFramesApart` | src/paging.c:108-127 | Giving back a user page leaves every other mapping on a used frame of its own. |
| `Paths.SplitJoin` | src/user-shell.c:421-427 | The shell's cutting of a path at slashes undoes joining the components. |
| `Paths.CommandTyped` | src/user-shell.c:404-429 | In bytes: two dots and whatever follows go up; a name goes to the folder of that name; "a/b" to "a" and then to "b". |
| `Paths.CdComposesIff` | src/user-shell.c:399-501 | For any two strings, when the command `cd a/b` ends where `cd a` and then `cd b` do: the exact condition for each case of a part that starts with "..", an empty component in between, and neither. |
| `Paths.UpThenDown` | src/user-shell.c:404-415 | `cd ../b` stops one up, where `cd ..` and then `cd b` end in `b`. |
| `Paths.DescendOnTreeIff` | src/user-shell.c:457-489 | Going down one component keeps the stack on the tree if and only if the entry taken is live, which the shell does not ask. |
| `FailingInputs.DeletedFolderEntered` | src/user-shell.c:457-489 | Make a folder where the shell stands, delete it, and `cd` to it: the shell goes there and no longer stands on the tree. |
| `FailingInputs.DeletedFolderEnteredAtRoot` | src/user-shell.c:457-489 | So from a formatted disk, standing on its root. |
| `Paths.PopUndoesPush` | src/user-shell.c:404-415 | `cd x` and then `cd ..` give back the stack, names and clusters. |
| `Paths.FindFolderIs` | src/user-shell.c:457-489 | With names blank or padded, whatever folders were deleted: the shell's search of a table stops at the child directory of that name whenever there is one; all else it may find is left over, so it finds nothing else where nothing left over reads as the name. |
| `Paths.StackResolves` | src/user-shell.c:399-501 | With names blank or padded, whatever folders were deleted: resolving the names on the stack from the root leads to the clusters on it, at every depth. |
| `Paths.AskedIsGiven` | src/user-shell.c:432-449 | Asking the driver for a directory by its parent's cluster and its own name answers 0 with that directory. |
| `ChangeDirectory.StandsOn` | src/user-shell.c:404-415 | On the tree, the shell's current cluster is the directory it stands on and its parent cluster the one that directory's entry is in. |
| `ChangeDirectory.Shell.constructor` | src/user-shell.c:1388-1399 | The shell starts on the root. |
| `ChangeDirectory.Shell.Up` | src/user-shell.c:404-415 | The stack loses its last directory, the root excepted, and the two current clusters are the new last and its parent. |
| `ChangeDirectory.Shell.TakePart` | src/user-shell.c:422-427 | The bytes up to the next slash or the end of the command. |
| `ChangeDirectory.Shell.Search` | src/user-shell.c:457-489 | The first folder entry from entry 1 on whose name, up to its first zero, is the component. |
| `ChangeDirectory.Shell.StepDown` | src/user-shell.c:429-494 | One component: the child is pushed when there is one, and the directories below stay as they are in either case. |
| `ChangeDirectory.Shell.TakeStep` | src/user-shell.c:421-496 | One turn of the loop: what is left of the path leads from where the walk is now to where all of it leads from the start. |
| `ChangeDirectory.Shell.Cd` | src/user-shell.c:399-501 | The stack goes up one for anything that starts with ".."; else it ends at the last component when all are found and is unchanged when any is not; both current clusters follow it; it stays on the tree. |
| `Searches.FolderQueued` | src/user-shell.c:798-820 | Queuing a folder entry keeps the search in order: no directory twice, depths never going down, paths on the tree. |
| `Searches.HeadDone` | src/user-shell.c:823-824 | A directory whose entries are all passed does not hold the name, and all its folders are queued. |
| `Searches.AllSearched` | src/user-shell.c:745-829 | When the queue runs out every live directory was searched. |
| `Searches.ShallowerSearched` | src/user-shell.c:745-829 | Every directory nearer the root than the one at the head was searched before. |
| `Searches.QueueFits` | src/user-shell.c:799-802 | The queue never holds more than 510 paths, so its indices need not wrap and the missing wrap of the head does not matter. |
| `FindCommand.TakeTarget` | src/user-shell.c:722-730 | The name looked for is the eight bytes after "find ", zeros past the end. |
| `FindCommand.TargetIs` | src/user-shell.c:722-730 | For "find " and any name of up to eight bytes that is the name typed, all of it, padded. |
| `FindCommand.Search` | src/user-shell.c:732-829 | The breadth-first search answers rightly for the name it is given. |
| `FindCommand.Find` | src/user-shell.c:710-830 | For "find " and a name of up to eight bytes: a path on the tree to a directory with an entry of the name typed, none nearer the root having one, or that none does; a hit if and only if some directory lists it or it is left over. A longer name is refused as too long, and no other. |
| `FindCommand.HitIff` | src/user-shell.c:732-829 | In any volume in order a right answer is a hit if and only if some directory lists the name or some dead entry kept it. |
| `FindCommand.HitRightIff` | src/user-shell.c:770-829 | So the hit agrees with the names listed if and only if the name is listed somewhere or left over nowhere. |
| `FindCommand.HitIffListed` | src/user-shell.c:732-829 | In a tidy tree a hit is reported if and only if some directory lists the name. |
| `LeftOvers.DeletedFolderIsHit` | src/user-shell.c:770-776 | Make a folder under a name used nowhere and delete it: `find` may be run for the name, and answers with a hit though no directory lists it. |

## Left out

- Hardware and assembly: ports, ATA polling, interrupt controller, timer chip, descriptor tables, CMOS clock, TLB flushes and the context switch itself; the context handed to the switch is an output of the model.
- Keyboard, framebuffer, and the shell commands that only print: user interface with easy bounds.
- The shell's `mkdir`, `cp`, `mv`, `rm` and system call 14: they overwrite clusters behind the driver, so its invariants do not survive them; runs do not include them.
- Messages: `cd` and `find` are modelled up to what they print; an error is a value or an unchanged stack.
- Unset memory: fields of a folder's entries that the code never assigns are parameters of `WriteFolder`, `Write` and `Create`, and every theorem holds for all of them.
- The folder branch of `delete` reads into the address of an uninitialised pointer (`src/fat32.c:418-419`); the model reads into a table of its own.
- The clearing of each new cluster just before it is overwritten (`src/fat32.c:349-351`) is in `WriteData`; only its outcome shows in the contracts.
- `delete` and the reads with a parent that is a file's cluster or cell 0 or 1 take file data for a table; the model covers what the driver then does, the theorems on order do not.
- Runs.CallRefines: calls on a name left over from a deleted folder, deletion by a directory's own name with an extension, and deletion of the empty root by its own name are outside what callers owe, because the answer is then not the plain model's; `WrongBranch.DeleteSafeIff`, `Exact.FolderLookupRightIff` and `Exact.FileLookupRightIff` say what holds of them.
- RunTheorems.RunRefines: the same calls are outside its runs.
- Fat32.Driver.Write: the clusters a file needs must be free; the source promises no answer when they are not, and its scan then leaves the map.
- Machine.Kernel.CreateUserProcess: the `read` of the executable into the new pages is left out; it changes no kernel state and its code is ignored (`src/process.c:90`).
- Machine.Kernel.DestroyProcess: needs the pid to be some slot's; the source follows a null pointer otherwise (`src/process.c:164`).
- Process blocks: name bytes 8 to 31 are always zero and the memory bookkeeping fields are never used by the steps modelled; both are left out.
- Page entries: the bits that only the processor sets and the higher address bits, which stay zero, are left out; `frame` is the lower address.
- Machine.Kernel.UsePageDirectory: addresses are numbers; that the pool and the kernel's directory lie apart above the kernel's base is taken from the linker (`AddressesOk`).
- `ceil32` works on floats; the model divides integers and rounds up, the intended reading. The two agree when the request's size plus a page is a float exactly.
- KernelRuns.ReachableSound: killing the first process is outside the runs, because the scheduler falls back on slot 0.
- The flags in `list_of_process` are never set by the source; the class keeps them and its invariant says they stay false.
- ChangeDirectory.Shell.Cd: components longer than the eight-byte buffer, paths past the ten levels of the arrays, and an empty path at the root overrun arrays in the source and are excluded; so are components that a folder entry left over reads as, by which `cd` may leave the tree (`Paths.DescendOnTreeIff`), and where it would go from there.
- FindCommand.Find: folder entries left over under other names than the one looked for are excluded, because the search follows them into clusters that may hold anything by then and its queue may overflow. The queue's records hold a path as a value; the element-by-element copy of the two arrays inside a record is not spelled out, nor is the printing of the hit.
- Concurrency beyond the timer: system calls are taken to run without being interrupted.
