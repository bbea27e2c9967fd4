# ZEROS, verified

A Dafny model of the core of Z.E.R.O.S, a small operating system in C, with proofs. `dafny verify dfyconfig.toml`
checks everything.

**The file system.** One on-disk format (superblock, two bitmaps, inodes with eight inline extents, directories of
128-byte slots) is written and read by four programs: the formatter, the runtime, the kernel port and the checker.
The volume is a value (`Volume.Disk`); every operation is a function on it (`Operations`, `Formatting`, `Checker`),
each program is a class whose methods update bitmaps, inodes and blocks in place and are proved to compute that
function, and the functions are proved to refine an abstract tree of maps and byte strings (`Namespace`). The
invariant `FileSystem.WellFormed` says that the counters are the clear bits, that every data block in use belongs to
exactly one inode in use, once, and that the inodes in use form one tree rooted at inode 0.

- `ZerosFs`, `Bitmap`, `Extents`, `Directory`, `Volume`, `Paths`: the data and its elementary laws
- `VolumeSteps`, `DirectorySteps`, `Creation`, `FileContents`, `Removal`: what each step keeps
- `Dirents`: a block of bytes read as directory entries
- `Operations`, `FileSystem`, `MountTheorems`, `Prompt`, `CdTargets`, `Runs`, `TruePrompt`, `Counters`, `Failures`: the
  public operations, whole runs, and what failing operations leave
- `Records`: sizes of directories and link counts, over whole runs
- `Strays`: inode numbers outside the inode table, which bytes of a file can lead to
- `KString`, `BlockLoops`, `Mount`: tokeniser, shared loops and the runtime as they run
- `BitBlocks`, `KernelSpec`, `KernelPort`, `Mapping`, `Lockstep`: the kernel port and its bisimulation with the runtime
- `Checker`, `CheckerProofs`, `CheckerCompleteness`, `CheckerExact`, `CheckerBlind`, `Fsck`: the checker
- `Layout`, `Formatting`, `TightDirs`, `FormatProofs`, `Formatter`, `Lifetime`: the formatter, and volumes from
  formatting on
- `FuseSpec`, `Fuse`: partial writes over whole-file storage, against `pwrite` and `ftruncate` of
  IEEE Std 1003.1-2017

**The editor.** `EditorText`, `EditorSpec`, `EditorRuns`, `Editor`: an array of lines that refines a flat text, and
a bounded undo stack.

**The kernel.** `Pmm`, `HeapSpec`, `HeapProofs`, `HeapRuns`, `Heap`: the page allocator and the first-fit heap on top
of it.
`SchedulerSpec`, `Scheduler`: the round-robin scheduler. `SwitchSpec`, `Switch`: interrupts and the stacks they use,
by which one processor is as good as one for each process.

## Where the code surprises

- `rm x/.` and `rm x/` free directory x but leave its entry behind (`MountTheorems.RmKeepsTreeIff`).
- `mkdir a/` makes an entry without a name (`MountTheorems.MkdirRefines`).
- `cd .` appends "/." to the runtime's prompt, after which `cd ..` shows the wrong directory
  (`Prompt.DotThenUpMisleads`); the kernel port does not.
- `resolve_path` walks through regular files, reading their bytes as directory entries
  (`FileSystem.FileIsWalkedThrough`). They can spell any inode number, and nothing compares it with the size of the
  inode table: a touch of it fails in the runtime or puts the clock into a data block, and does nothing in the kernel
  port (`Strays.ForgedTouch`).
- A mkdir or touch that finds its parent or the disk full leaves an inode nobody can reach, and a write that fails has
  already written over the file (`Failures`). `editor_save` then leaves the buffer marked as it was, and a clean one
  is lost at the next Ctrl+Q (`EditorRuns.RefusedSaveLoses`).
- A prompt that goes through another directory, as after `cd /a/../b`, is right until that directory is removed
  (`TruePrompt.StepTellsIff`).
- touch cuts a name to 119 characters without looking whether the cut name is taken
  (`MountTheorems.TouchKeepsTreeIff`).
- `zeros_fsck` reports nothing for wrong counters, blocks shared by two files, sizes that do not match the blocks,
  duplicate names, two entries for one inode, a wrong stored entry type or a 32-bit wrap-around of an extent, and only
  warns of a zero link count (`CheckerExact.Unchecked` is the exact list, `CheckerBlind` has an image for each item);
  the inode half of its bitmap pass cannot fire (`Fsck.Checking.CheckTables`).
- The formatter's inode count wraps around at 2^32/10 blocks, and formatting then fails
  (`FormatProofs.FormatFailsAfterWrap`).
- `alloc_inode` of the kernel port is right only because the formatter never makes a spare bitmap block
  (`BitBlocks.InodeLimitExact`).
- A FUSE write of zero bytes past the end of a file extends it, and a truncation of a missing path creates it.
- Backspace does nothing on the line after the last one, and marks the buffer changed where there is nothing to delete.
- A directory's size grows with every entry it is given and is not lowered when one is removed (`Records.RunSizes`).
- `kfree` merges list neighbours without testing that they touch (`HeapProofs.CoalesceStaysInsideIff`).
- `pmm_alloc` never hands out the pages of the last partial word, and page 0 looks like a failure. The cap at
  4,194,304 pages cannot be reached: the byte total is a 32-bit number. A range that reaches the top of the address
  space is marked neither free nor used (`Pmm.EmptyRangeIff`).
- The comment at shell/editor.c:17 speaks of 20 undo levels; the code keeps 50, and so does the model.

## Model

| member | source | states |
|---|---|---|
| `KString.StrLen` | kernel/kstring.c:36-40 | the number of characters before the first NUL of a terminated buffer |
| `KString.StrNCpy` | kernel/kstring.c:55-60 | the first n places hold the source padded with NULs, the rest of the buffer is untouched |
| `KString.StrRChr` | kernel/kstring.c:70-76 | the index of the last slash, -1 when there is none |
| `KString.Tokenizer.constructor` | kernel/kstring.c:78-102 | a first call scans a private copy of the path from its start |
| `KString.Tokenizer.Next` | kernel/kstring.c:78-102 | each call returns the next token of the untokenised rest, runs of slashes skipped, and leaves the remaining tokens; the buffer is cut in place |
| `Paths.SplitAgreesWithWalk` | fs/zeros_mount.c:251-298 | for every path of fewer than 1024 characters whose last component has 1 to 119, resolve_path is dir_lookup of the last name in what resolve_parent returns, or "not found" when that is |
| `Paths.TokensSplit` | fs/zeros_mount.c:258-268 | the tokens of "a/b" are those of a followed by b, repeated slashes included |
| `Paths.ResolveIsWalk` | fs/zeros_mount.c:251-298 | both resolvers are walks over tokens from the root or from the current directory |
| `Paths.LongPathIsCut` | fs/zeros_mount.c:258-260 | a path of 1024 characters or more is resolved as its first 1023 |
| `Bitmap.FreeFrom` | fs/zeros_mount.c:88-109 | the clear bits from an index on, in ascending order |
| `Bitmap.FreeHeadIsLowest` | fs/zeros_mount.c:88-109 | a first-fit scan stops at the head of that list |
| `Bitmap.FreeAfterAlloc` | fs/zeros_mount.c:88-109 | an allocation removes exactly the head of the list |
| `Bitmap.FreeAfterRelease` | fs/zeros_mount.c:111-119 | releasing a used bit adds one free bit |
| `Extents.AddBlockAppends` | fs/zeros_mount.c:637-649 | growing the last extent or opening a new one appends exactly the new block to the file |
| `FileContents.ExtentsForMaximal` | fs/zeros_mount.c:637-649 | fed an ascending block list, the extents are its maximal runs: ascending, not mergeable, as many as there are runs |
| `DirectorySteps.DirAddInserts` | fs/zeros_mount.c:147-195 | adding a fresh name succeeds iff a slot is free, or fewer than eight extents are used and a block is free; a success is a map insert, a failure changes nothing |
| `DirectorySteps.DirAddEffect` | fs/zeros_mount.c:147-195 | for any name, fresh or not: when a slot is free the lowest free one is filled and bitmaps, counters and extents stay; the size grows by 128 bytes and links and type stay; only when every slot is used does the directory grow, by the lowest free block; a failure changes nothing |
| `DirectorySteps.DirRemoveDeletes` | fs/zeros_mount.c:198-219 | removing a name that is there is a map delete that overwrites the inode number of its slot, leaves type and name there and changes no inode; removing another fails and changes nothing |
| `DirectorySteps.LookupReads` | fs/zeros_mount.c:126-144 | in a directory dir_lookup is the map read, "not found" for a missing name |
| `FileSystem.ResolverExact` | fs/zeros_mount.c:251-269 | resolve_path agrees with the tree exactly when the path looks names up in directories only, or runs into a regular file whose bytes, read as entries, do not spell the rest of the path |
| `FileSystem.FileIsWalkedThrough` | fs/zeros_mount.c:126-144 | when the bytes of a regular file read as an entry "x" of inode j, the path through that file to "x" is resolved to j, although the tree has no such name |
| `Dirents.ForgedReads` | fs/zeros_fs.h:184-191 | such bytes exist for every 32-bit number: a block whose first entry says that inode, a regular file, named "x" |
| `Dirents.SlotReads` | fs/zeros_fs.h:184-191 | entry k of a block is read from its bytes 128k on: four bytes of inode number, lowest first, four of type, then a name of up to 119 bytes and its NUL |
| `DirectorySteps.DirCapacity` | fs/zeros_mount.c:147-195 | a directory holds at most 64 names, and with a block free there is room iff it holds fewer |
| `Creation.MakeDirRefines` | fs/zeros_mount.c:526-556 | creating a directory under a fresh name succeeds iff there is an inode, a block and room in the parent, and then adds exactly that directory with its two dots to the tree |
| `Creation.MakeFileRefines` | fs/zeros_mount.c:575-592 | creating a file under a fresh name succeeds iff there is an inode and room in the parent, and then adds exactly that empty file |
| `Namespace.CreateKeepsTree` | fs/zeros_mount.c:516-592 | adding a properly named inode keeps one tree rooted at inode 0: dots, entry types, single parents, reachability |
| `Namespace.UnlinkKeepsTree` | fs/zeros_mount.c:659-691 | so does removing a file or an empty directory |
| `Namespace.SetFileKeepsTree` | fs/zeros_mount.c:594-657 | so does replacing the contents of a file |
| `MountTheorems.MkdirExact` | fs/zeros_mount.c:516-557 | from a well-formed mount mkdir succeeds iff the parent exists, the name is fresh and there is room |
| `MountTheorems.MkdirRefines` | fs/zeros_mount.c:516-557 | a success creates that one directory; the volume stays well-formed iff the last name is not empty |
| `MountTheorems.TouchExact` | fs/zeros_mount.c:559-592 | touch succeeds iff the path exists already, or its parent exists and there is room, whatever the length of the name |
| `MountTheorems.TouchRefines` | fs/zeros_mount.c:559-592 | touching an existing path changes nothing; otherwise exactly one empty file is added, its name cut to 119 characters, and the mount stays well-formed |
| `MountTheorems.TouchKeepsTreeIff` | fs/zeros_mount.c:559-592 | a touch that creates keeps the volume well-formed iff the name it stores, cut to 119 characters, was not taken |
| `MountTheorems.RmExact` | fs/zeros_mount.c:659-691 | rm succeeds iff the path names a file or an empty directory other than the root and the current directory |
| `MountTheorems.RmRefines` | fs/zeros_mount.c:659-691 | with an ordinary last name a success unlinks exactly that entry, frees its inode and blocks and keeps the mount well-formed |
| `MountTheorems.RmKeepsTreeIff` | fs/zeros_mount.c:659-691 | a successful rm keeps the volume well-formed iff the path does not end in "/" or "." |
| `MountTheorems.RmRefusesDotDot` | fs/zeros_mount.c:659-691 | a path ending in ".." is never removed |
| `MountTheorems.RmOfDotBreaks` | fs/zeros_mount.c:686-690 | removing "x/." or "x/" frees directory x and leaves its entry dangling |
| `MountTheorems.ReadAgrees` | fs/zeros_mount.c:697-727 | on a path that looks names up in directories only, a read returns the bytes of the file it names, and nothing for a directory or a missing path |
| `MountTheorems.WriteExisting` | fs/zeros_mount.c:594-657 | a write of n blocks to an existing file succeeds iff n blocks are free after the old ones are released and the n-1 lowest of them form at most seven runs; a success replaces that one file, on exactly the n lowest free blocks, in ascending maximal extents, an eighth one of length 1 |
| `MountTheorems.WriteThenRead` | fs/zeros_mount.c:594-727 | reading back a written file gives exactly the data, every other path through directories what it gave before |
| `MountTheorems.WriteFresh` | fs/zeros_mount.c:600-606 | a write to a path that does not exist is a touch followed by a write to the new file; with a name above 119 characters it creates the file and then fails, not finding it |
| `MountTheorems.WriteReadsBack` | fs/zeros_mount.c:594-727 | any successful write, to a new or an existing path, can be read back |
| `MountTheorems.WriteToDirectoryFails` | fs/zeros_mount.c:607-610 | a write to a directory fails and changes nothing |
| `MountTheorems.CdExact` | fs/zeros_mount.c:389-400 | on a path that looks names up in directories only, cd succeeds iff the target is a directory, moves there and leaves the volume alone |
| `FileContents.OverwriteExact` | fs/zeros_mount.c:612-656 | the exact success condition and shape of a write, on the volume |
| `FileContents.OverwriteRefines` | fs/zeros_mount.c:612-656 | a successful overwrite keeps the physical invariant and changes the contents of that inode only |
| `Prompt.PromptResolves` | fs/zeros_mount.c:385-427 | when cwd_path is the normal form of the ordinary path to the current directory, it resolves to it |
| `Prompt.CdAbsolute` | fs/zeros_mount.c:404-407 | cd to a normal-form absolute path, one final slash allowed, makes the prompt true |
| `Prompt.CdRelative` | fs/zeros_mount.c:414-421 | cd to a normal-form relative path that fits, one final slash allowed, keeps the prompt true |
| `CdTargets.CdKeepsPromptIff` | fs/zeros_mount.c:389-427 | from a prompt in normal form, a successful cd leaves one in normal form that names the current directory iff its target is "..", an absolute normal form, or a relative path of which what the buffer has room for is in normal form and names the same directory |
| `TruePrompt.CdKeepsTruthIff` | fs/zeros_mount.c:389-427 | from any prompt that resolves to the current directory, in normal form or not, a successful cd leaves one that does iff the target is absolute; or ".." where the prompt ends with an ordinary name or is cut back to the root; or a relative path of which what the buffer has room for leads where the path leads |
| `TruePrompt.StepTellsIff` | fs/zeros_mount.c:389-691 | one successful operation keeps resolve_path(cwd_path) == cwd_ino iff it is not a cd that fails that condition nor an rm of something the prompt comes past |
| `TruePrompt.RunTells` | fs/zeros_mount.c:389-691 | along every run of such operations resolve_path(cwd_path) is cwd_ino |
| `Prompt.CdUpFromBelow` | fs/zeros_mount.c:408-413 | cd .. drops the last component of path and prompt alike |
| `Prompt.DotThenUpMisleads` | fs/zeros_mount.c:404-421 | in the runtime "cd ." followed by "cd .." leaves a prompt that names another directory than the current one |
| `Runs.StepRefines` | fs/zeros_mount.c:389-691 | one successful operation on a path through directories keeps the mount well-formed and is a step of the abstract file system |
| `Runs.RunRefines` | fs/zeros_mount.c:389-691 | every run of successful mkdir, touch, write, rm and cd calls on such paths keeps the invariant and is a run of the abstract file system |
| `Records.StepRecords` | fs/zeros_mount.c:147-219 | one successful operation changes no link count or type; the directory a name is listed in is 128 bytes larger and no other directory changes its size; a new directory has two links and 256 bytes, a new file one link |
| `Records.RunSizes` | fs/zeros_mount.c:147-219 | along every run of successful operations the size of a directory grows by 128 bytes for each name listed in it and is never lowered by what is removed; its link count stays |
| `Records.RunLinks` | fs/zeros_mount.c:516-592 | along every such run directories keep two links and files one |
| `Runs.StepKeepsPrompt` | fs/zeros_mount.c:389-691 | one successful operation keeps the prompt in normal form and naming the current directory, unless it is a cd that fails the condition of CdKeepsPromptIff |
| `Runs.PromptStaysTrue` | fs/zeros_mount.c:389-691 | along every run in which no cd fails it the prompt stays so, and resolve_path(cwd_path) is cwd_ino |
| `Counters.StepKeepsCounts` | fs/zeros_mount.c:516-691 | one operation from a well-formed mount, failing or not, leaves both free counters equal to the number of clear bits |
| `Failures.FailedMkdirIff` | fs/zeros_mount.c:516-557 | a mkdir that fails keeps the mount well-formed iff the parent is missing, the name taken or no inode free, and has then changed nothing |
| `Failures.FailedTouchIff` | fs/zeros_mount.c:559-592 | a touch that fails keeps it iff the parent is missing or no inode free, and has then changed nothing |
| `Failures.FailedWriteIff` | fs/zeros_mount.c:611-652 | a write to an existing file that fails keeps it iff the blocks it took before giving up are those the file had; nothing but the bytes of that file has then changed |
| `Failures.FailedWriteMixes` | fs/zeros_mount.c:611-652 | after such a write each block of the file that was taken again holds the chunk written there, the others what they held |
| `Failures.ReachExhausts` | fs/zeros_mount.c:623-628 | what a failing write takes: the lowest free blocks up to the start of the eighth run, or all |
| `Failures.FailureKeepsIff` | fs/zeros_mount.c:389-691 | any failing operation on a path through directories keeps the mount well-formed exactly under these conditions, failing rm and cd always |
| `Failures.MixedRunKeeps` | fs/zeros_mount.c:389-691 | every run of operations that succeed or fail harmlessly keeps the mount well-formed |
| `Mount.ZerosMount.Open` | fs/zeros_mount.c:328-370 | null exactly for a wrong magic number; otherwise the volume on disk, at the root |
| `Mount.ZerosMount.Load` | fs/zeros_mount.c:328-370 | the metadata read from disk, current directory "/" |
| `Mount.ZerosMount.Remount` | fs/zeros_mount.c:304-379 | after a flush, mounting again finds the same volume |
| `Mount.ZerosMount.AllocInode` | fs/zeros_mount.c:88-97 | the lowest free inode is marked and counted, or nothing changes |
| `Mount.ZerosMount.AllocBlock` | fs/zeros_mount.c:99-109 | the lowest free block of the data area is marked and counted, or nothing changes |
| `Mount.ZerosMount.FreeInode` | fs/zeros_mount.c:111-114 | the bit is cleared and counted |
| `Mount.ZerosMount.FreeBlock` | fs/zeros_mount.c:116-119 | the bit is cleared and counted |
| `Mount.ZerosMount.FreeExtents` | fs/zeros_mount.c:612-615 | exactly the blocks of the extents are released, in order |
| `BlockLoops.Scan` | fs/zeros_mount.c:126-144 | the nested loops stop at the first matching slot in slot order, at the end, or at a block that cannot be read |
| `BlockLoops.HoldsOnlyDots` | fs/zeros_mount.c:222-240 | true iff every block can be read and no used slot has another name than "." and ".." |
| `BlockLoops.Collect` | fs/zeros_mount.c:712-723 | the first `size` bytes of the blocks; fails iff a block that is needed cannot be read |
| `Mount.ZerosMount.DirLookup` | fs/zeros_mount.c:126-144 | the inode of the first slot with the name, for a number in the inode table or past the end of the device |
| `Mount.ZerosMount.DirAddEntry` | fs/zeros_mount.c:147-195 | the volume and result of the specified insertion |
| `Mount.ZerosMount.GrowDir` | fs/zeros_mount.c:176-194 | a one-block extent whose first slot is the entry, unless eight extents are used or no block is free |
| `Mount.ZerosMount.DirRemoveEntry` | fs/zeros_mount.c:198-219 | the volume and result of the specified removal; the size stays as it is |
| `Mount.ZerosMount.ResolvePath` | fs/zeros_mount.c:251-269 | the strtok loop returns what walking the tokens gives |
| `Mount.ZerosMount.ResolveParentOf` | fs/zeros_mount.c:276-298 | parent inode and last name of the split at the last slash |
| `Mount.ZerosMount.FlushMetadata` | fs/zeros_mount.c:304-322 | the metadata on disk is what the mount holds, nothing else changes |
| `Mount.ZerosMount.Mkdir` | fs/zeros_mount.c:516-557 | result, new volume and new on-disk metadata of the specified mkdir |
| `Mount.ZerosMount.Touch` | fs/zeros_mount.c:559-592 | result, new volume and flush of the specified touch, a path that leads outside the inode table included: then it fails past the end of the device, and otherwise leaves the given contents in the block it takes for inodes |
| `Mount.ZerosMount.StampInode` | fs/zeros_mount.c:561-567 | read_inode and write_inode of an existing number, inside the inode table or not |
| `Mount.ZerosMount.StoreData` | fs/zeros_mount.c:618-652 | volume, result and extents of the specified block loop |
| `Mount.ZerosMount.WriteFile` | fs/zeros_mount.c:594-657 | the same for a whole-file write |
| `Mount.ZerosMount.Rm` | fs/zeros_mount.c:659-691 | the same for rm |
| `Mount.ZerosMount.ReadFile` | fs/zeros_mount.c:697-727 | the contents, or none |
| `Mount.ZerosMount.Cd` | fs/zeros_mount.c:389-427 | result, current directory and prompt path of the specified cd |
| `Mount.WellFormedTargets` | fs/zeros_mount.c:594-657 | on a well-formed mount a write finds every extent it frees on the disk |
| `BitBlocks.StopsAtLowest` | kernel/kzeros.c:77-114 | the block-by-block scan stops at the same index as the linear scan |
| `BitBlocks.InodeLimitExact` | kernel/kzeros.c:83-84 | the unguarded 32-bit subtraction of alloc_inode gives the right limit iff no bitmap block starts past the last inode |
| `BitBlocks.BitWritten` | kernel/kzeros.c:116-134 | rewriting one bitmap block with one bit changed changes that one bit |
| `KernelPort.KernelMount.Open` | kernel/kzeros.c:295-310 | null exactly for a wrong magic number; otherwise the volume on disk, at the root |
| `KernelPort.KernelMount.AllocInode` | kernel/kzeros.c:77-94 | the same inode, bitmap and counter as the runtime's linear scan |
| `KernelPort.KernelMount.AllocBlock` | kernel/kzeros.c:96-114 | the same block, bitmap and counter as the runtime's linear scan |
| `KernelPort.KernelMount.FreeInode` | kernel/kzeros.c:116-124 | the same bitmap and counter as the runtime |
| `KernelPort.KernelMount.FreeBlock` | kernel/kzeros.c:126-134 | the same bitmap and counter as the runtime |
| `KernelPort.KernelMount.DirLookup` | kernel/kzeros.c:138-155 | the inode of the first slot with the name, for a number in the inode table or past the end of the device |
| `KernelPort.KernelMount.DirAddEntry` | kernel/kzeros.c:157-198 | the volume and result of the specified insertion |
| `KernelPort.KernelMount.DirRemoveEntry` | kernel/kzeros.c:200-218 | the volume and result of the specified removal |
| `KernelPort.KernelMount.ResolvePath` | kernel/kzeros.c:241-259 | the k_strtok loop returns what walking the tokens gives |
| `KernelPort.KernelMount.ResolveParentOf` | kernel/kzeros.c:261-280 | parent inode and last name of the split at the last slash |
| `KernelPort.KernelMount.Mkdir` | kernel/kzeros.c:396-426 | result and new volume of the specified mkdir; the superblock reaches the disk on success |
| `KernelPort.KernelMount.Touch` | kernel/kzeros.c:428-447 | the same for touch |
| `KernelPort.KernelMount.WriteFile` | kernel/kzeros.c:449-502 | the same for a whole-file write |
| `KernelPort.KernelMount.Rm` | kernel/kzeros.c:504-524 | the same for rm |
| `KernelPort.KernelMount.ReadFile` | kernel/kzeros.c:376-394 | the bytes kzeros_cat prints when it succeeds |
| `KernelPort.KernelMount.Cd` | kernel/kzeros.c:320-347 | result, current directory and prompt path of the kernel's cd |
| `Strays.AllowedIsInside` | fs/zeros_mount.c:71-78 | on a well-formed mount an operation on a path through directories never takes a block outside the inode table for inodes |
| `Strays.AgreesExactly` | fs/zeros_mount.c:561-567 | zeros_touch does what kzeros_touch does iff the path does not lead past the end of the device, nor to a block outside the inode table that the clock changes |
| `Strays.NumbersOutside` | fs/zeros_mount.c:71-78 | the first number that is no inode lies in the first data block, and 2^20 past the end of every disk up to 128 MB |
| `Strays.WriteForges` | fs/zeros_mount.c:594-657 | writing the bytes of such an entry to a file, new or not, makes a volume whose paths lead to any number one likes |
| `Strays.ForgedTouch` | fs/zeros_mount.c:561-567 | touching the entry spelt there, with a number outside the inode table: the kernel port succeeds and changes nothing, the runtime fails past the end of the device and otherwise overwrites the block |
| `KernelSpec.StepsAgreeIff` | kernel/kzeros.c:320-524 | the specified operations of the two programs, on the same volume, give the same result and volume iff the operation is not such a touch |
| `KernelSpec.PortsAgreeIff` | kernel/kzeros.c:320-524 | the two stay in lockstep, with equal results and volumes after every operation, along exactly the runs without such a touch, failures included |
| `Mapping.ApplyKeepsMapped` | fs/zeros_mount.c:389-691 | no operation, successful or not, gives an inode an extent outside the disk |
| `Mapping.FormatMapped` | fs/zeros_format.c:301-479 | nor does formatting, on a device whose old inode table has none |
| `Lockstep.Both` | kernel/kzeros.c:320-524 | running one operation on both objects: results and volumes, on-disk bitmaps against in-memory ones, are equal iff the operation is not a touch that leads past the device or puts another clock into a block |
| `Lockstep.RunBoth` | kernel/kzeros.c:320-524 | run on both objects, every sequence of operations that are not such touches, whatever fails in it, gives equal lists of results and equal final volumes and directories, and equal prompts if "cd ." is not among them; each operation has to keep to the inode table and, where it frees blocks, to the disk |
| `Lockstep.MixedRunIsReady` | kernel/kzeros.c:320-524 | from a well-formed mount every run of operations on paths through directories that succeed or fail harmlessly meets that |
| `Lockstep.MappedRunIsReady` | kernel/kzeros.c:320-524 | and so does any run inside the inode table, however it fails, when all inodes have their extents on the disk |
| `KernelSpec.KCdDotIsNoOp` | kernel/kzeros.c:334-336 | from a prompt in normal form "cd ." in the kernel port changes nothing |
| `KernelSpec.KCdDotExact` | kernel/kzeros.c:329-346 | whatever its form, the prompt loses one final slash at most |
| `KernelSpec.KPromptStaysTrue` | kernel/kzeros.c:320-347 | the kernel's prompt names the current directory along every run whose cd targets meet that condition or are "." |
| `KernelSpec.KCdKeepsPromptIff` | kernel/kzeros.c:320-347 | the kernel's cd keeps its normal-form prompt right for ".", and otherwise exactly when the runtime's does |
| `KernelSpec.KCdKeepsTruthIff` | kernel/kzeros.c:320-347 | a prompt that resolves to the current directory, in normal form or not, does so after the kernel's cd exactly when it does after the runtime's |
| `Fsck.Checking.CheckSuperblock` | fs/zeros_fsck.c:95-148 | -1 iff the magic number is wrong; otherwise an error iff the block size is not 1024, a total is zero, a region starts at or before the one before it, the first at block 0 or past the end, the data area past the end, or a counter exceeds its total; one warning for an unknown version |
| `Fsck.Checking.CheckExtent` | fs/zeros_fsck.c:194-209 | no error iff the extent lies in the data area in 32-bit arithmetic; then exactly its blocks are marked |
| `Fsck.Checking.CheckNode` | fs/zeros_fsck.c:177-210 | no error iff type, extent count and extents are right; a warning for no links; the marks of its extents |
| `Fsck.Checking.CheckInodes` | fs/zeros_fsck.c:165-216 | no error iff every inode in use is right; the rebuilt bitmaps hold exactly the inodes in use and the blocks their extents name |
| `Fsck.Checking.CheckInodeMap` | fs/zeros_fsck.c:238-246 | no error iff the two inode bitmaps agree |
| `Fsck.Checking.CheckBlockMap` | fs/zeros_fsck.c:248-268 | no error iff metadata blocks are in use and data blocks are in use exactly where marked |
| `Fsck.Checking.CheckTables` | fs/zeros_fsck.c:165-269 | passes 2 and 3 together; the inode half of pass 3 never adds an error |
| `Fsck.Checking.CheckDirEntry` | fs/zeros_fsck.c:313-362 | marks and verdict of one slot |
| `Fsck.Checking.CheckDirRecursive` | fs/zeros_fsck.c:286-373 | ends on every image, each nested call having fewer unmarked inodes left; marks and verdict of the specified walk |
| `Fsck.Checking.CheckDirectories` | fs/zeros_fsck.c:375-403 | no error iff the root is in use, the walk reports nothing and every inode in use was reached |
| `Fsck.ZerosFsck` | fs/zeros_fsck.c:409-477 | -1 iff magic number, block size, a total, the order of the regions, their place on the disk or a counter is wrong, field by field, 0 exactly for a clean image, 1 otherwise |
| `CheckerProofs.WalkIsClosure` | fs/zeros_fsck.c:286-373 | when entry types agree with inode types the walk marks exactly what is connected to the root by valid entries |
| `CheckerProofs.CleanIsSound` | fs/zeros_fsck.c:165-397 | in a clean image without 32-bit wrap-around a data block is in use iff an inode in use covers it, metadata is in use, and every inode in use is connected to the root |
| `CheckerProofs.CleanHasDots` | fs/zeros_fsck.c:333-372 | in a clean image whose entry types agree every directory can be read to its end and has correct "." and ".." and good slots |
| `CheckerCompleteness.WellFormedIsClean` | fs/zeros_fsck.c:95-403 | a well-formed volume gets no error from any pass |
| `CheckerExact.WellFormedExactly` | fs/zeros_fsck.c:95-403 | a volume is well-formed exactly when the checker reports nothing and the listed things it never looks at hold: version, exact starts and sizes of the regions, exact counters, no sharing, node shapes, entry types and lengths, single parents, no wrap-around |
| `CheckerCompleteness.FittingIsClean` | fs/zeros_fsck.c:286-403 | pass 4 reports nothing on any image whose used slots are right, parents included, and whose inodes in use are all connected to the root |
| `CheckerBlind.SuperblockUnseen` | fs/zeros_fsck.c:95-148 | a well-formed volume stays clean under any superblock pass 1 accepts with the same totals and data area |
| `CheckerBlind.WrongCounterPasses` | fs/zeros_fsck.c:136-142 | every wrong free-block count up to the total passes |
| `CheckerBlind.WrongRegionPasses` | fs/zeros_fsck.c:95-148 | every wrong number of inode-bitmap blocks passes |
| `CheckerBlind.WrongSizePasses` | fs/zeros_fsck.c:177-210 | every wrong file size passes |
| `CheckerBlind.WrappingPasses` | fs/zeros_fsck.c:194-209 | an extent from the start of the data area to 2^32 passes, and marks nothing |
| `CheckerBlind.SharedPasses` | fs/zeros_fsck.c:194-209 | a second file with the first one's extents passes |
| `CheckerBlind.WrongTypePasses` | fs/zeros_fsck.c:333-362 | an entry of a file that claims to be of another type than a directory passes |
| `CheckerBlind.HardLinkPasses` | fs/zeros_fsck.c:313-362 | a second name for a file passes |
| `CheckerBlind.DuplicatePasses` | fs/zeros_fsck.c:313-362 | a name a directory has already passes |
| `CheckerBlind.NoLinksPass` | fs/zeros_fsck.c:190-192 | a link count of zero is no error |
| `Layout.LayoutIsOk` | fs/zeros_format.c:335-356 | whenever a data area is left, regions are in order and contiguous and the bitmaps have enough bits, for every device size |
| `Layout.RegionsTile` | fs/zeros_format.c:335-356 | every block belongs to exactly one region |
| `Layout.LayoutHasRoom` | fs/zeros_format.c:330-361 | from 64 KB and below 2^32/10 blocks the "too small" exit is unreachable and the initial tree has room |
| `Layout.LayoutWraps` | fs/zeros_format.c:338-342 | at 429,496,730 blocks the 32-bit product wraps and leaves eight inodes |
| `Formatter.ZerosFormatter.constructor` | fs/zeros_format.c:405-442 | nothing in use but the metadata blocks |
| `Formatter.ZerosFormatter.BitmapAlloc` | fs/zeros_format.c:74-82 | the lowest clear bit is set and returned, or nothing changes |
| `Formatter.ZerosFormatter.AllocBlock` | fs/zeros_format.c:252-254 | the block returned is the lowest of the data area, never metadata |
| `Formatter.ZerosFormatter.DirLookup` | fs/zeros_format.c:153-172 | the inode of the first slot with the name |
| `Formatter.ZerosFormatter.DirAddEntry` | fs/zeros_format.c:180-234 | the volume and result of the specified insertion |
| `Formatter.ZerosFormatter.CreateDir` | fs/zeros_format.c:246-295 | inode and volume of the specified create_dir |
| `Formatter.ZerosFormatter.PlantPath` | fs/zeros_format.c:464-490 | the strtok loop walks a path and creates what is missing |
| `Formatter.ZerosFormat` | fs/zeros_format.c:301-534 | failure or image as specified |
| `FormatProofs.RootMade` | fs/zeros_format.c:444-454 | the root is inode 0, its own parent, and leaves a well-formed volume with nothing else |
| `TightDirs.MakeDirCosts` | fs/zeros_mount.c:526-556 | in a volume whose directories have no more blocks than their entries fill, 128 bytes of size an entry and two links, a new directory under a fresh name costs one block, and one more exactly where its parent's blocks are full; it succeeds iff there are an inode, that many blocks and fewer than 64 names, and leaves such a volume |
| `FormatProofs.CreateDirStep` | fs/zeros_format.c:246-295 | the same for create_dir, and what it leaves |
| `FormatProofs.AllPlanted` | fs/zeros_format.c:456-490 | any list of at most 61 paths with parents first is planted iff there are an inode for each and the blocks they take, counted from how many entries each directory gets, and then completely |
| `FormatProofs.InitialSpent` | fs/zeros_format.c:456-490 | the root and the 22 initial directories take 24 blocks, one each and one more where the root gets its ninth entry |
| `FormatProofs.FormatExact` | fs/zeros_format.c:301-479 | on every device formatting succeeds iff it has 64 KB, 23 inodes and 24 data blocks; the image is then well-formed, holds exactly the 22 initial directories, each of the size its entries ask for and with two links, and has used that many inodes and blocks |
| `FormatProofs.FormatSucceeds` | fs/zeros_format.c:301-479 | from 64 KB and below 2^32/10 blocks formatting succeeds |
| `FormatProofs.FormatFailsAfterWrap` | fs/zeros_format.c:338-342 | one block above that bound it fails |
| `Lifetime.FormattedStaysClean` | fs/zeros_format.c:301-507 | any image reached from a formatted one by operations that succeed or fail harmlessly is well-formed and reported clean |
| `Lifetime.FormattedRecords` | fs/zeros_format.c:246-295 | along every run of successful operations on a formatted volume directories have two links and files one, and a directory that was there from the start has 128 bytes for each name it has ever been given |
| `Lifetime.FormattedPromptIsTrue` | fs/zeros_mount.c:385-427 | along successful runs in which no cd spoils its normal form the prompt resolves to the current directory |
| `Lifetime.FormattedPromptTells` | fs/zeros_mount.c:385-427 | and along all those in which every operation keeps it true, in whatever form |
| `Lifetime.FormattedRunsAlike` | kernel/kzeros.c:320-524 | on a formatted volume the two programs cannot come apart along runs of operations that succeed or fail harmlessly |
| `Lifetime.InitialDirsResolve` | fs/zeros_fs.h:204-228 | every initial path resolves to a directory of the formatted image |
| `Fuse.PatchedBuffer` | fs/zeros_fuse.c:135-144 | zeros, the old bytes over them, the new bytes over those |
| `Fuse.ResizedBuffer` | fs/zeros_fuse.c:170-180 | the old bytes cut or followed by zeros |
| `Fuse.ZerosFuse.Read` | fs/zeros_fuse.c:108-121 | -2 for no file; otherwise the bytes of the file from the offset on, as many as were asked for or are there, and their number |
| `Fuse.ZerosFuse.Write` | fs/zeros_fuse.c:130-148 | result and volume of the specified partial write |
| `Fuse.ZerosFuse.Truncate` | fs/zeros_fuse.c:165-185 | EINVAL for a negative size, otherwise result and volume of the specified resize |
| `FuseSpec.StoredExact` | fs/zeros_fuse.c:135-146 | what is stored is what pwrite or ftruncate leaves iff the length is below 2^32 and an empty write does not start past the end (up to a wrap-around back to the old length) |
| `FuseSpec.EmptyWritePads` | fs/zeros_fuse.c:135-146 | an empty write past the end pads the file with zeros, which pwrite does not |
| `FuseSpec.FuseExact` | fs/zeros_fuse.c:130-185 | a call succeeds iff the blocks of the new contents fit once the old ones are released |
| `FuseSpec.FuseStep` | fs/zeros_fuse.c:130-185 | one successful call leaves the reference bytes in the file, which it creates when the path names nothing, and everything else in the tree as it was |
| `FuseSpec.FuseRunRefines` | fs/zeros_fuse.c:130-185 | after any run of such calls, on however many files, created along the way or not, the tree is what the same pwrites and ftruncates make of a family of byte arrays |
| `FuseSpec.FuseRunReads` | fs/zeros_fuse.c:108-121 | so a read of any path through directories returns byte offset + k of its array at place k, as many bytes as were asked for or are there |
| `FuseSpec.ReadAfterWrite` | fs/zeros_fuse.c:108-148 | after a successful write a read anywhere in the file finds the new bytes where they were written, the old ones elsewhere, zeros in a gap; reading the range just written returns the buffer |
| `FuseSpec.ReadAfterTruncate` | fs/zeros_fuse.c:108-185 | after a successful truncation a read finds the old bytes below the new length and zeros up to it |
| `FuseSpec.FuseCreates` | fs/zeros_fuse.c:130-185 | a successful call on a missing path creates the file, truncation included |
| `EditorText.SplitSerialized` | shell/editor.c:562-617 | splitting what was serialised gives back newline-free lines |
| `EditorText.SaveAfterLoad` | shell/editor.c:480-550 | saving a loaded text writes the text itself if it ends with a newline, otherwise the text with one added |
| `EditorSpec.InsertCharRefines` | shell/editor.c:287-292 | typing a character inserts it at the cursor's offset of the newline-joined text |
| `EditorSpec.InsertNewlineRefines` | shell/editor.c:302-346 | Enter inserts a newline and a copy of the run of spaces and tabs, at most 255, at the start of the line the offset is on |
| `EditorSpec.DeleteBackRefines` | shell/editor.c:348-368 | Backspace deletes the character before the offset, joins included |
| `EditorSpec.DeleteForwardRefines` | shell/editor.c:370-386 | Delete deletes the character at the offset, joins included |
| `EditorSpec.EditRefines` | shell/editor.c:287-386 | every edit is that edit of the flat text, Enter the one of InsertNewlineRefines, at every cursor position except Backspace on the line after the last, which does nothing |
| `EditorRuns.MovesInText` | shell/editor.c:767-788 | Left and Right move the offset by one, Home and End to the ends of its line |
| `EditorRuns.VerticalMoves` | shell/editor.c:767-797 | Up and Down move one line, PageUp and PageDown a screen, cut at the ends of the text; the column is cut to the length of the line |
| `EditorRuns.SnapRestores` | shell/editor.c:562-635 | restoring a snapshot gives back lines and cursor |
| `EditorRuns.PressRefines` | shell/editor.c:739-831 | one key with the bounded stack does what an editor with unbounded history and at most fifty undos does |
| `EditorRuns.RunRefines` | shell/editor.c:739-831 | so does every run of keys, undos included |
| `EditorRuns.UndoIsExact` | shell/editor.c:562-831 | at any point of a session, after any edits and moves, j undos restore lines and cursor just before the j-th most recent edit, for j up to 50 |
| `EditorRuns.CleanIsTrusted` | shell/editor.c:480-550 | a buffer not marked changed is what the editor read or saved last |
| `EditorRuns.SessionIsHonest` | shell/editor.c:480-550 | in any session, refused saves that overwrite the file included: a clean buffer is what the file holds iff the file still holds what the editor read or saved last |
| `EditorRuns.FirstQuitExact` | shell/editor.c:745-753 | the first Ctrl+Q ends the session iff the buffer is clean; the file then holds the buffer iff it still holds what was read or saved last, and it does when no save was refused since |
| `EditorRuns.SessionExact` | shell/editor.c:739-831 | over any session the buffer counts as changed iff a key since the last accepted save marked it; Ctrl+Q has asked iff one since then found it changed; the session ends with the first Ctrl+Q that finds the buffer unchanged or has asked |
| `EditorRuns.SaveCleans` | shell/editor.c:480-512 | after any session an accepted save leaves the buffer clean and as it was, the file holding it, and the next question to be asked again |
| `EditorRuns.SecondQuitEnds` | shell/editor.c:745-753 | two Ctrl+Q in a row end any session; one does iff the buffer is clean or the question has been asked since the last accepted save |
| `EditorRuns.RefusedSaveLoses` | shell/editor.c:480-512 | opened, saved unchanged and refused half-way: the buffer counts as clean, Ctrl+Q ends the session, and the file no longer holds it |
| `Editor.LineIndentLen` | shell/editor.c:295-311 | the number of leading spaces and tabs, 255 when there are more |
| `Editor.Serialise` | shell/editor.c:565-578 | every line followed by a newline |
| `Editor.Parse` | shell/editor.c:534-546 | the lines of a text, at least one |
| `Editor.EditorState.constructor` | shell/editor.c:834-849 | the lines of the file, cursor at the start, nothing changed and nothing to undo |
| `Editor.EditorState.InsertChar` | shell/editor.c:287-292 | lines and cursor of the specified insertion |
| `Editor.EditorState.InsertNewline` | shell/editor.c:302-346 | the line cut at the cursor, the next one made of its leading blanks, at most 255, and the rest, the cursor behind the blanks |
| `Editor.EditorState.DeleteChar` | shell/editor.c:348-368 | lines, cursor and dirty flag of the specified deletion |
| `Editor.EditorState.DeleteForward` | shell/editor.c:370-386 | lines, cursor and dirty flag of the specified deletion |
| `Editor.EditorState.ClampCursor` | shell/editor.c:403-409 | the nearest position inside the text |
| `Editor.EditorState.SnapPush` | shell/editor.c:562-594 | the stack with one more snapshot, the oldest dropped when full |
| `Editor.EditorState.SnapPop` | shell/editor.c:596-635 | the document of the newest snapshot, the stack without it |
| `Editor.EditorState.Save` | shell/editor.c:480-512 | accepted, the file holds the serialised lines and the buffer is clean; refused, the file holds whatever the write left and the buffer is marked as before |
| `Editor.EditorState.ProcessKey` | shell/editor.c:739-831 | the whole session after the key |
| `Pmm.PageAllocator.constructor` | kernel/pmm.c:39-48 | every page in use, counter 0 |
| `Pmm.PageAllocator.MarkFree` | kernel/pmm.c:50-59 | exactly the pages of the range below the total, its end computed in 32 bits, are free afterwards, each counted once |
| `Pmm.EmptyRangeIff` | kernel/pmm.c:50-59 | a range comes out empty iff it ends in the page it starts in or beyond the address space |
| `Pmm.PageAllocator.MarkUsed` | kernel/pmm.c:61-70 | exactly the pages of the range below the total, its end computed in 32 bits, are in use afterwards, each counted once |
| `Pmm.PageAllocator.Alloc` | kernel/pmm.c:72-85 | the lowest free page of the whole words, or 0 when there is none; page 0 looks the same |
| `Pmm.PageAllocator.Free` | kernel/pmm.c:87-93 | the page is free and counted, once |
| `Pmm.ExhaustedMeans` | kernel/pmm.c:72-85 | what can be handed out are the free pages below the last partial 32-bit word, lowest first; nothing is handed out any more iff every free page is in the last partial word: fewer than 32 |
| `HeapSpec.FirstFit` | kernel/heap.c:76-81 | the first free block that is large enough |
| `HeapSpec.Pieces` | kernel/heap.c:82-91 | the taken block keeps its address and gets at least the size with fewer than 24 bytes to spare; from 24 spare bytes on the rest becomes a free block directly behind it; both end where the block did |
| `HeapProofs.KFreeOrdered` | kernel/heap.c:100-117 | with gaps between the pages too, kfree leaves the blocks in order of address, none overlapping |
| `HeapSpec.GrowKeeps` | kernel/heap.c:35-63 | a contiguous page keeps the tiling and adds 4096 bytes |
| `HeapProofs.KMallocKeeps` | kernel/heap.c:71-97 | tiling, merged neighbours, alignment and bytes are kept; a success is exactly one more live block, 8-aligned, large enough with fewer than 24 bytes to spare, nothing else moving; when a block fits, the first one that does is used, no page is taken, and from 24 spare bytes on the rest stays as a free block directly behind |
| `HeapProofs.AllocateExact` | kernel/heap.c:71-97 | kmalloc fails iff no free block fits and the end of the heap with all remaining pages is too small |
| `HeapProofs.AllocateGrows` | kernel/heap.c:71-80 | when no block fits, a success takes exactly the pages the end of the heap lacks and hands out that end; a failure has taken them all |
| `HeapProofs.RestServes` | kernel/heap.c:71-97 | a second request that fits what the first left of its block is served without a page, and from directly behind the first when it is not the smaller one |
| `HeapProofs.LiveAreDisjoint` | kernel/heap.c:71-97 | no two blocks overlap |
| `HeapProofs.KFreeKeeps` | kernel/heap.c:100-117 | kfree keeps invariant and bytes and ends exactly that allocation |
| `HeapProofs.FreeUndoesMalloc` | kernel/heap.c:71-117 | kfree right after kmalloc gives back the very same list when no page was taken |
| `HeapProofs.CoalesceMerges` | kernel/heap.c:107-116 | after the pass no two neighbours are free, whatever the list |
| `HeapProofs.CoalesceStaysInsideIff` | kernel/heap.c:107-116 | the pass stays within the heap's own memory iff neighbouring free blocks lie side by side |
| `HeapProofs.ForeignPageIsSwallowed` | kernel/heap.c:107-116 | with a foreign page between two heap pages, one kfree makes the heap own it |
| `HeapProofs.HugeRequestsWrap` | kernel/heap.c:19-21 | the seven largest requests wrap around to zero bytes |
| `HeapRuns.CallTracks` | kernel/heap.c:71-117 | one kmalloc or kfree keeps the blocks in use equal to the allocations in use, moves none of them, loses no byte and gives each allocation at most 30 bytes more than it asked for; kmalloc(0) and kfree of null do nothing |
| `HeapRuns.RunTracks` | kernel/heap.c:71-117 | so does every run of kmalloc calls below the wrap-around and kfree calls of pointers in use |
| `HeapRuns.LiveApart` | kernel/heap.c:71-117 | at any time in such a run all allocations are 8-aligned and apart from each other by a header at least |
| `HeapRuns.EverythingComesBack` | kernel/heap.c:71-117 | once everything has been given back, whatever happened in between, the heap is one free block of all the pages it has taken |
| `Heap.KernelHeap.HeapGrow` | kernel/heap.c:35-63 | list and page supply of the specified growth |
| `Heap.KernelHeap.KMalloc` | kernel/heap.c:71-97 | list, page supply and pointer of the specified allocation; the loop ends by pages and list left |
| `Heap.KernelHeap.KFree` | kernel/heap.c:100-117 | the list of the specified release |
| `Heap.KernelHeap.MergePass` | kernel/heap.c:107-116 | the in-place pass computes the specified merge |
| `SchedulerSpec.RunKeepsOk` | kernel/scheduler.c:55-136 | over every interleaving of creations and ticks exactly one slot is running, the current one, and the counter equals the slots in use |
| `SchedulerSpec.TickPicksNext` | kernel/scheduler.c:120-136 | with two processes or more a tick switches to the ready process that comes first, going round |
| `SchedulerSpec.TickExact` | kernel/scheduler.c:120-136 | a tick with no other process in use changes nothing and returns 0; otherwise it switches: the interrupted process is ready with the stack pointer handed in, the other one runs and its stack pointer is returned |
| `SchedulerSpec.CreateExact` | kernel/scheduler.c:55-116 | a creation fails without effect iff there is no page or slots 1 to 15 are in use; otherwise the lowest free slot from 1 becomes ready, its stack pointer seventeen words below the end of its page |
| `SchedulerSpec.ReadyProcessRuns` | kernel/scheduler.c:120-136 | a ready process runs within its cyclic distance in ticks, at most 15, whatever creations are interleaved |
| `SchedulerSpec.ResumesWhereInterrupted` | kernel/scheduler.c:120-136 | from scheduler_init on, whatever happened: a tick switches iff another process is in use and then returns the stack pointer that process was last interrupted at, or seventeen words below the end of its page; otherwise it changes nothing and returns 0 |
| `Scheduler.RoundRobin.constructor` | kernel/scheduler.c:41-53 | slot 0 running, all others free |
| `Scheduler.RoundRobin.ProcessCreate` | kernel/scheduler.c:55-116 | the lowest free slot from 1 with a page gets the new process, its stack pointer seventeen words below the end of that page, or -1; no page is taken when there is no slot |
| `Scheduler.RoundRobin.SchedulerTick` | kernel/scheduler.c:120-136 | state and stack pointer of the specified tick; the current process changes iff another one is in use, otherwise nothing does and 0 is returned |
| `SwitchSpec.SaveRestores` | kernel/arch/x86/isr.s:116-140 | what an interrupt pushes is what the return pops: every register and the stack pointer come back |
| `SwitchSpec.FrameLayout` | kernel/arch/x86/idt.h:5-10 | the frame an interrupt leaves is struct registers, field by field, lowest address first |
| `SwitchSpec.BuiltRestores` | kernel/scheduler.c:76-105 | the words process_create writes are popped as the state in which a process is to start: at its function, interrupts enabled, flat segments, cleared registers, the whole page as its stack |
| `SwitchSpec.IrqIsInvisible` | kernel/arch/x86/isr.s:116-140 | an interrupt changes the registers, stack pointer and stack of no process, neither the interrupted nor the chosen nor a waiting one; the processor changes hands iff another process is in use |
| `SwitchSpec.SpawnStarts` | kernel/scheduler.c:55-116 | a new process is in its entry state, in the lowest free slot, and no other process notices |
| `SwitchSpec.FreePageIsProper` | kernel/scheduler.c:62-63 | a page that is free in the page allocator overlaps no stack in use, and marking it used keeps all stacks in used pages |
| `SwitchSpec.OneIsMany` | kernel/arch/x86/isr.s:116-140 | every run of one processor under interrupts, computing and creations is a run of one processor for each process: computing changes one, an interrupt none, a creation adds one |
| `SwitchSpec.ResumesExactly` | kernel/arch/x86/isr.s:116-140 | whatever interrupts, switches and creations happen until a process computes again, it finds its registers, stack pointer and stack as it left them |
| `SwitchSpec.StartIsSound` | kernel/scheduler.c:41-53 | scheduler_init on a stack with room for one frame is where such runs may start |
| `Switch.Machine.Interrupt` | kernel/arch/x86/isr.s:116-140 | memory, registers and scheduler after the pushes, the call and the pops, word by word, are the specified ones |
| `Switch.Machine.BuildStack` | kernel/scheduler.c:76-105 | the stores below the end of the page leave the specified words and stack pointer |
| `Switch.Machine.ProcessCreate` | kernel/scheduler.c:55-116 | slot, page, stack and scheduler of the specified creation |

## Left out

- Failing reads and writes of the device, and failing `malloc`: the disk is total. A full disk, a full directory and a file of too many extents are modelled.
- Timestamps, permission bits, printed messages, `zeros_ls`, `zeros_cat` of the runtime, `zeros_stat_path`, `zeros_readdir`: no state to reason about.
- Directory operations inside a regular file: its bytes are read as entries, exactly; an entry written among them turns the block into a directory block, whose bytes read as zeros afterwards. Theorems about a path ask that names are looked up in directories only, where they are looked up at all; `FileSystem.ResolverExact` says what that leaves out.
- Mount.ZerosMount.DirLookup: of a number whose place lies in a block of the device outside the inode table the source takes whatever is there for an inode, up to 65,535 extents read from an array of eight; the model finds nothing. `Strays.Inside` is the condition under which no operation gets there, `Strays.AllowedIsInside` says when it holds.
- KernelPort.KernelMount.DirLookup: the same.
- Mount.ZerosMount.ResolvePath: a path on which dir_lookup meets such a number ends there in the model. The kernel port's path functions likewise.
- Mount.ZerosMount.Touch: what the block holds once the clock is written into it is a parameter; the clock itself is not modelled. An inode in the table keeps its contents.
- Names that fill their slot to the end of the block without a NUL, in bytes of a file read as entries: the source compares on beyond its buffer, in the model such a name ends there.
- Preconditions of the file-system theorems: paths below 1024 characters; a last component above 119 characters must not be taken in its cut form; data below 2^32 bytes.
- Mount.ZerosMount.FreeExtents: asks that the extents lie on the disk; with others the source clears bits outside its bitmap, which has no meaning to state.
- Mount.ZerosMount.WriteFile: asks the same of the inode it empties.
- Mount.ZerosMount.Rm: the same.
- KernelPort.KernelMount.WriteFile: the same.
- KernelPort.KernelMount.Rm: the same.
- Mount.ZerosMount.ReadFile: when an inode's size exceeds its blocks the source returns uninitialised bytes after them; the model returns the bytes there are. No well-formed volume has such an inode.
- Runs that go on after a harmful failure: `Failures.FailureKeepsIff` says which failures those are, `Lockstep.RunBoth` that both ports still do the same while operations keep to the inode table and to extents in the data area; nothing else is stated from there on.
- Lockstep.RunBoth: operations that are led outside the inode table are excluded, other than a touch of a number past the device or in a block, on which `KernelSpec.PortsAgreeIff` is exact; so are extents in the metadata, and paths whose directory part is longer than the buffers.
- KernelPort.KernelMount.AllocInode: a volume with a spare inode-bitmap block, which the formatter never makes, is excluded, for the whole class; what the source does there is `BitBlocks.InodeLimitExact`.
- KernelPort.KernelMount.Open: the same.
- Fsck.ZerosFsck: an image is a superblock with bitmaps and an inode table of the sizes it claims; one that claims more inodes or blocks than its regions hold, which makes the source read past its buffers, is not an image here.
- FormatProofs.AllPlanted: at most 61 paths, so that no directory can be full; the formatter plants 22.
- Crash consistency: the runtime writes its bitmaps at the end of a successful operation, the kernel port at once; neither order is examined.
- The metadata blocks of the disk as bytes: superblock, bitmaps and inode table are values, so that no write of a data block reaches them by assumption of the layout, which is proved to be disjoint.
- Layout.LayoutHasRoom: for block devices the formatter asks the device for its size; here the size is a parameter.
- `zeros_path_complete`, the readline shell, the VFS layer, updating, populating and booting: process launching and library state.
- `zf_getattr`, `zf_readdir`, `zf_open`, `zf_create` and the FUSE loop itself.
- Editor: searching, drawing, terminal handling, the status line, and the growth of the line buffers (`editor_insert_newline` keeps a pointer across a `realloc`); a save with no file name counts as a refused one that leaves the file alone; lines are character sequences and keys are the printable ASCII ones, the control keys and the cursor keys.
- Heap.KernelHeap.HeapGrow: asks that the pages still free lie above the heap, gaps allowed.
- Heap.KernelHeap.KMalloc: asks that the pages still free lie above the heap, gaps allowed; a page freed below it and taken again is not modelled. The tiling results ask for a supply without gaps; what a gap leads to is `HeapProofs.CoalesceStaysInsideIff`. User data that overwrites headers, or foreign pages overwritten by them, are not modelled.
- Pmm.PageAllocator.Alloc: the bitmap is an array of bits, its 32-bit words appear only where the scan skips full ones.
- Scheduler.RoundRobin.ProcessCreate: interrupts between its statements are not modelled; the words it writes on the new stack are in `Switch.Machine.BuildStack`.
- Switch.Machine.Interrupt: registers are numbers without a width, memory is words at addresses divisible by four, all code runs in the kernel's privilege level, and the C handler is what it leaves in memory. `SwitchSpec.OneIsMany` asks that each process keeps its stack pointer in its stack with room for a frame and stays off the other stacks, which nothing enforces, and that handlers leave the frame alone; a vector raised before the scheduler is installed, and floating-point state, are not modelled.
- `kernel/arch`, other than the interrupt path: hardware registers and assembly.
- `k_strcmp`, `k_strncmp`, `memcpy`, `memmove` and `memset`: comparison and copying of sequences is built in.
