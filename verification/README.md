# Verification of StellaresOS

StellaresOS is a small 32-bit kernel. This project models its data structures, state machines and
encoders in Dafny, in the form the C and Python code gives them (fixed arrays changed in place, loops,
pointer lists in memory), and proves what they promise. Every class method is tied to a function on
values; the theorems are about those functions.

Verify with `dafny verify dfyconfig.toml`, or with all files on one command line and
`--resource-limit 2000000`.

## Components

- **Heap** (`HeapModel`, `HeapMemory`, `Heap`). The block list as a sequence that tiles the region; the
  same list as header words in a memory of 4-byte words, changed by the pointer writes of the C code; the
  class with the four calls. Contents of live payloads are part of the client view.
- **Scheduler** (`SchedulerModel`, `Scheduler`). One atomic step per call and per tick, a state invariant
  over all runs, and a measure for bounded waiting.
- **Editor** (`EditorModel`, `EditorFile`, `Editor`, `EditorStore`). Lines and cursor against one flat string
  with one offset; the 64x128 character array and its shift loops against the lines; saving to RamFS and
  loading.
- **RamFS** (`Tokens`, `RamTree`, `RamView`, `RamPath`, `RamFS`). `strtok` over its buffer, the node pool
  as a tree, the tree as a map from paths to directories and files, printing and parsing of paths.
- **DiskFS** (`DiskLayout`, `DiskModel`, `DiskOps`, `DiskCrash`, `DiskRun`, `DiskBytes`, `DiskFS`). The
  byte layout, the file map, every call as a list of sector writes, so that a power cut can be placed
  after any of them, and runs of calls, cuts and mounts.
- **Image installer** (`InstallTool`). The Python tool on the same image, and its agreement with the
  kernel.
- **Frame allocator** (`FrameBits`, `Pmm`). The bitmap as a set of free frames, and a journal of every
  frame that changes hands.
- **File descriptors** (`FileStream`, `OpenModel`, `FileDesc`). Streams over RamFS nodes, which node an
  open returns, and the write-through to DiskFS.
- **ELF loader** (`ElfModel`, `ElfFile`, `ElfLoader`). Image and destinations in one memory, and
  files as structs; PT_LOAD segments as in the System V ABI, chapter 5, "Program Header".
- **Packages** (`SpkModel`, `SpkRoom`, `SpkDisk`, `Spk`, `SpkFile`, `ByteStrings`). The package format, its
  installation in RamFS and its copies on the disk.
- **Accounts** (`PasswdModel`, `Login`, `LoginDisk`). Hashes, decimals, the passwd text, the login check, and
  the file on DiskFS.

Where the code does less than a reader might expect, the condition is part of the theorem:
`kfree` merges one way only (`HeapModel.ReleaseCoalesced`), a create with O_CREAT below a missing directory
or below a file is lost to its path (`OpenModel.CreateOpensExactly`), the Python tool does not update the
size of an existing file (`InstallTool.UpdatedIsMounted`), an overwrite is crash-atomic only when it appends
or changes one sector (`DiskCrash.OverwriteAtomic`), a printed path resolves only up to 16 levels and 255
characters (`RamPath.PrintThenResolve`), and a cut create or delete can leave `nfiles` off by one, which
nothing else depends on (`DiskRun.CreateCount`, `DiskRun.DeleteCount`).
The comment in `kernel/scheduler.h` says that IRQ0 calls `sched_tick`; the handler in `drivers/pit.c` only
counts, so the tick is an event of its own here. The comment in `fs/diskfs.h` calls the magic number
"STEL", while on the disk it reads "LETS" (`DiskBytes.FormatOnDisk`). The comment there gives the
superblock one sector, while its struct has 508 bytes; it is modelled as a whole sector.

## Model

| member | source | states |
|---|---|---|
| `HeapModel.FirstFit` | kernel/heap.c:9 | first fit: the block found fits and no earlier block does |
| `HeapModel.TilesOrdered` | kernel/heap.c:6-13 | in a list that tiles the heap every block ends before any later one starts |
| `HeapModel.RoundFacts` | kernel/heap.c:9 | rounding to 8 in 32 bits: a multiple of 8, at least the request exactly up to 2^32-8, and 0 beyond |
| `HeapModel.PlaceTiles` | kernel/heap.c:9 | taking or splitting a block leaves a list that tiles the same region with no gap and no overlap |
| `HeapModel.PlaceLive` | kernel/heap.c:9 | kmalloc adds exactly one live payload, at a pointer that was not live, and `heap_used_b` grows by its size |
| `HeapModel.ReleaseTiles` | kernel/heap.c:10-11 | freeing with either merge keeps the tiling |
| `HeapModel.ReleaseLive` | kernel/heap.c:10-11 | kfree removes exactly one live payload and takes its size off `heap_used_b` |
| `HeapModel.UsedBounded` | kernel/heap.c:9-13 | the used bytes never exceed the region |
| `HeapModel.GrantCoversRequest` | kernel/heap.c:9 | a nonzero request is granted at least its size exactly when it does not overflow the rounding |
| `HeapModel.AllocateExact` | kernel/heap.c:9 | kmalloc takes the first free block of at least the request rounded up to 8, and splits it exactly when 48 bytes are left over, into the payload and a free block behind it |
| `HeapModel.ReleaseCoalesced` | kernel/heap.c:11 | kfree leaves no two adjacent free blocks exactly when the freed block did not have free blocks on both sides (it merges with one of them only) |
| `HeapModel.FragmentingRun` | kernel/heap.c:9-11 | the condition does fail: three equal blocks freed first, third, second leave two adjacent free blocks, in every heap that starts as one free block of at least 256 bytes |
| `HeapModel.PlaceCoalesced` | kernel/heap.c:9 | kmalloc never makes two free blocks adjacent |
| `HeapModel.ReleaseUndoesPlace` | kernel/heap.c:9-11 | freeing the block just taken from a coalesced list restores the list |
| `HeapModel.NestedRunRestores` | kernel/heap.c:9-11 | every well-nested run of kmalloc and kfree, from any coalesced list, ends with the list it started from |
| `HeapMemory.SplitLinked` | kernel/heap.c:9 | the header writes of a split produce headers in which prev is the inverse of next, for the split list |
| `HeapMemory.MergeLinked` | kernel/heap.c:10 | the three writes of `merge` produce the headers of the merged list |
| `HeapMemory.AbsorbLinked` | kernel/heap.c:10 | `merge` tests the next header and merges exactly when that block is free; only header words change |
| `HeapMemory.PrevFreeIff` | kernel/heap.c:11 | the test that kfree makes on the previous header is true exactly when the previous block is free |
| `HeapMemory.PayloadHasNoHeader` | kernel/heap.c:6-11 | no header word lies inside a live payload |
| `HeapMemory.LivePayloadsDisjoint` | kernel/heap.c:9-11 | two live payloads never overlap and lie inside the heap |
| `HeapMemory.ContentsKept` | kernel/heap.c:9-11 | writes confined to headers change no word of any live payload |
| `HeapMemory.PlaceTaken` | kernel/heap.c:9 | kmalloc on memory: tiling, links, accounting, alignment, and every earlier payload keeps its words |
| `HeapMemory.ReleaseContents` | kernel/heap.c:11 | kfree drops one payload and keeps the words of all others |
| `HeapMemory.StoreContents` | kernel/heap.c:9-12 | a client write inside a live payload changes that payload only, at that word |
| `KernelHeap.Heap.HeapInit` | kernel/heap.c:8 | one free block over the region, nothing live, no word outside the first header written |
| `KernelHeap.Heap.Kmalloc` | kernel/heap.c:9 | the list becomes the first-fit allocation, NULL exactly for size 0 or when no free block holds the rounded size; payloads are 8-aligned, new, large enough; all others keep their words |
| `KernelHeap.Heap.Walk` | kernel/heap.c:9 | the pointer-following loop finds the first fitting block |
| `KernelHeap.Heap.Merge` | kernel/heap.c:10 | the pointer writes of `merge` give the absorbed list and touch headers only |
| `KernelHeap.Heap.Kfree` | kernel/heap.c:11 | NULL, unmarked and unused pointers change nothing; any live pointer leaves the client view and nothing else does |
| `KernelHeap.Heap.Krealloc` | kernel/heap.c:12 | NULL allocates, a request that fits stays in place, otherwise the new block holds the old words first and only the old payload is gone; on failure nothing changes |
| `KernelHeap.Heap.Store` | kernel/heap.c:9-12 | a client write keeps the heap valid and changes one word of one payload |
| `KernelHeap.Heap.RunNested` | kernel/heap.c:9-11 | running a well-nested client on the real memory restores block list and client view |
| `SchedulerModel.StepInv` | kernel/scheduler.c:56-167 | every call and tick keeps: at most one RUNNING slot, which is the current one; quanta of all other slots complete; unique nonzero pids below the counter |
| `SchedulerModel.RunInv` | kernel/scheduler.c:45-167 | the same over every run in which the pid counter does not wrap, from any state with the invariant |
| `SchedulerModel.SafeFromInit` | kernel/scheduler.c:45-167 | so it holds in every state that a run from sched_init reaches, whoever makes the calls |
| `SchedulerModel.InitialState` | kernel/scheduler.c:45-54 | sched_init leaves process 0 running, the other 15 slots dead, and the next pid 1 |
| `SchedulerModel.TickSlot` | kernel/scheduler.c:107-139 | what one tick does to any slot: only woken, charged, switched out or switched in, and only a READY slot or slot 0 is switched in |
| `SchedulerModel.KillExact` | kernel/scheduler.c:160-167 | kill marks exactly the process with that pid, never slot 0, and pid 0 kills nothing |
| `SchedulerModel.SleeperStep` | kernel/scheduler.c:107-118 | a sleeper outside slot 0 wakes exactly by kill or at a tick with now at or after its time, and is not dispatched before |
| `SchedulerModel.SleeperRun` | kernel/scheduler.c:107-152 | over a run without its kill and with only earlier ticks, in which it makes no call while current, it stays asleep and undispatched; while still current it leaves at the end of its quantum |
| `SchedulerModel.SleepRun` | kernel/scheduler.c:107-152 | after proc_sleep the process is switched out at the next tick, sleeps on while the counter is below now + ms in 32 bits, and is woken by the first tick from there on |
| `SchedulerModel.DeadStep` | kernel/scheduler.c:56-72 | a dead slot is not dispatched and stays dead exactly unless proc_create takes it (or it is the current one and calls sleep) |
| `SchedulerModel.DeadRun` | kernel/scheduler.c:154-167 | a dead slot is not dispatched until a proc_create takes that slot, whatever other slots are created, killed and run; while still current it leaves at the end of its quantum |
| `SchedulerModel.ExitRun` | kernel/scheduler.c:154-158 | so after proc_exit the process is switched out at the next tick, for good |
| `SchedulerModel.NextReadyCloser` | kernel/scheduler.c:97-105 | the round-robin scan stops at a READY slot or at one that is closer to it than the current slot |
| `SchedulerModel.WaitingStep` | kernel/scheduler.c:97-143 | the measure 20*distance - ticks%20 of a waiting READY slot drops at each tick and never grows otherwise |
| `SchedulerModel.BoundedWaiting` | kernel/scheduler.c:97-143 | a READY process is dispatched within 300 ticks, whatever creates, kills, sleeps and yields interleave, unless it is killed |
| `SchedulerModel.WaitingFromInit` | kernel/scheduler.c:45-167 | the same for a process found READY at any point of any run from sched_init |
| `SchedulerModel.LiveCaller` | kernel/scheduler.c:56-67 | the slot of a live caller is never the one that its proc_create takes and clears |
| `SchedulerModel.CreateExact` | kernel/scheduler.c:56-95 | proc_create makes the lowest dead slot from 1 on READY with the next pid and no ticks and leaves all others; without a dead slot nothing changes |
| `SchedulerModel.CreatedRuns` | kernel/scheduler.c:56-143 | a process that a live caller creates is dispatched within 300 ticks unless it is killed |
| `SchedulerModel.CreatedRunsFromInit` | kernel/scheduler.c:45-143 | the same at any point of any run from sched_init |
| `SchedulerModel.KeepsCpu` | kernel/scheduler.c:120-123 | a process that does not yield, sleep or exit keeps the processor until its ticks are a multiple of 20 again |
| `SchedulerModel.QuantumEnds` | kernel/scheduler.c:120-136 | at the tick that completes the 20 the next READY process in turn runs, if there is one |
| `SchedulerModel.YieldEnds` | kernel/scheduler.c:120-143 | after proc_yield that is the next tick |
| `KernelScheduler.Scheduler.SchedInit` | kernel/scheduler.c:45-54 | slot 0 running, all others zeroed |
| `KernelScheduler.Scheduler.ProcCreate` | kernel/scheduler.c:56-95 | the first DEAD slot from 1 on gets the next pid; -1 and no change when there is none or before init |
| `KernelScheduler.Scheduler.FindNextReady` | kernel/scheduler.c:97-105 | the wrapping loop returns what the scan function says |
| `KernelScheduler.Scheduler.WakeSleepers` | kernel/scheduler.c:112-118 | the loop wakes exactly the sleepers whose time has come |
| `KernelScheduler.Scheduler.SchedTick` | kernel/scheduler.c:107-139 | one tick is the tick step of the state machine |
| `KernelScheduler.Scheduler.ProcYield` | kernel/scheduler.c:141-143 | the current slot gets 19 ticks |
| `KernelScheduler.Scheduler.ProcSleep` | kernel/scheduler.c:145-152 | sleep is the sleep step of the state machine |
| `KernelScheduler.Scheduler.ProcExit` | kernel/scheduler.c:154-158 | exit is the exit step of the state machine |
| `KernelScheduler.Scheduler.ProcKill` | kernel/scheduler.c:160-167 | the search loop is the kill step of the state machine |
| `EditorModel.PressInv` | shell/editor.c:77-146 | every key keeps 1..64 lines of at most 127 characters and the cursor on a line, inside it |
| `EditorModel.TypeCharFlat` | shell/editor.c:77-91 | a typed character is inserted at the cursor offset of the flat text, or nothing changes when the line holds 127 |
| `EditorModel.EnterFlat` | shell/editor.c:117-135 | Enter inserts one newline at the offset, or nothing changes with 64 lines |
| `EditorModel.BackspaceFlat` | shell/editor.c:93-115 | Backspace deletes the character before the offset, or nothing changes at offset 0 or when the joined line would be too long |
| `EditorModel.LeftRightFlat` | shell/editor.c:248-258 | Left and Right move the offset by one, stop at the two ends, and keep the text |
| `EditorModel.KillLineFlat` | shell/editor.c:137-146 | Ctrl+K deletes the cursor line and one newline of the flat text, in each of the three positions of the line |
| `EditorModel.EditKeys` | shell/editor.c:77-135 | keys 10 and 13 insert a newline at the offset of the flat text, 32 to 126 their character, 8 deletes before it, each with its limit |
| `EditorModel.KillKey` | shell/editor.c:227 | key 11 removes the line and one newline |
| `EditorModel.MoveKeys` | shell/editor.c:226-269 | 0x102 and 0x103 move the offset by one, 0x100 and 0x101 the line by one with the smaller of column and length, 0x117 and 0x118 go to the ends of the line, and every other key changes nothing |
| `EditorModel.FlatDetermines` | shell/editor.c:77-146 | flat text and offset determine the buffer, so these statements leave no other result |
| `EditorModel.EnterBackspace` | shell/editor.c:93-135 | Enter then Backspace is the identity exactly on lines shorter than 127 |
| `EditorModel.TypeBackspace` | shell/editor.c:77-115 | a character then Backspace is the identity exactly when the line was not full or the cursor was at its start |
| `EditorFile.SerialWhole` | shell/editor.c:155-166 | the whole text is saved exactly when it needs at most 4094 bytes |
| `EditorFile.SerialPrefix` | shell/editor.c:155-166 | a longer text is saved up to the last line that fits into 4094 bytes |
| `EditorFile.SaveThenLoad` | shell/editor.c:148-197 | saving and loading gives the lines and one empty line, cut to 64 lines |
| `EditorFile.LoadThenSave` | shell/editor.c:148-197 | loading and saving a NUL-free file appends exactly one newline, exactly when it has at most 4093 bytes, lines of at most 127 and fewer than 64 newlines |
| `EditorFile.FieldsAround` | shell/editor.c:184-195 | a line feed or a NUL separates the lines before it from those behind |
| `EditorFile.LoadedLines` | shell/editor.c:184-195 | the first 64 lines are loaded, each up to its 127th character |
| `TextEditor.Editor.OpenGap` | shell/editor.c:87 | the right-shift loop opens a gap and moves the terminator |
| `TextEditor.Editor.CloseGap` | shell/editor.c:98 | the left-shift loop closes a position and moves the terminator |
| `TextEditor.Editor.RowsUp` | shell/editor.c:108-109 | the strcpy loop moves rows up |
| `TextEditor.Editor.RowsDown` | shell/editor.c:123-124 | the strcpy loop moves rows down, from the last one |
| `TextEditor.Editor.InsertChar` | shell/editor.c:77-91 | the array edit is the insertion on the text |
| `TextEditor.Editor.DeleteChar` | shell/editor.c:93-115 | the array edit is the deletion on the text, in both branches |
| `TextEditor.Editor.Newline` | shell/editor.c:117-135 | the array edit is the split on the text |
| `TextEditor.Editor.KillLine` | shell/editor.c:137-146 | the array edit is the removal of the line |
| `TextEditor.Editor.OnKey` | shell/editor.c:226-268 | each key of the main loop does to the array what it does to the text |
| `TextEditor.Editor.Save` | shell/editor.c:155-168 | the serializing loop writes the serialized text |
| `TextEditor.Editor.Load` | shell/editor.c:171-197 | the parsing loop fills the rows with the loaded text |
| `EditorStore.SaveFile` | shell/editor.c:148-169 | the file of that name in the root, or else a new one, gets the serialized text; a directory of that name, or no room for a file, changes nothing else |
| `EditorStore.LoadFile` | shell/editor.c:171-197 | the text of the file of that name, one empty line when there is none |
| `EditorStore.SaveAndLoad` | shell/editor.c:148-197 | save, then load: the lines and one empty line, cut to 64, if the text fits; one empty line when nothing could be saved |
| `EditorStore.LoadAndSave` | shell/editor.c:148-197 | load, then save of a NUL-free file: exactly one newline more, exactly under the limits of EditorFile.LoadThenSave |
| `EditorStore.OneKey` | shell/editor.c:204-269 | Ctrl+S and F2 save, Ctrl+Q and ESC leave, after a question if there are changes, and every other key goes to the buffer |
| `Tokens.SplitRendered` | libc/string.c:55-65 | the pieces between delimiters of a rendered path are the names it was rendered from |
| `Tokens.SplitAround` | libc/string.c:50-65 | a delimiter separates the pieces before it from those behind |
| `Tokens.SplitPiece` | libc/string.c:50-65 | a text without delimiters is its own piece |
| `Tokens.Tokenizer.Next` | libc/string.c:55-65 | each strtok call returns the next piece and NULL after the last, over the buffer it overwrites |
| `RamTree.WalkPath` | fs/ramfs.c:69-89 | the canonical path of a live node leads to it |
| `RamTree.PathUnique` | fs/ramfs.c:55-67 | a path without dots that resolves is the canonical path of the node it leads to |
| `RamTree.AddTree` | fs/ramfs.c:91-119 | mkdir and create keep the tree: links inverse, chains to the root, unique sibling names, childless files and free nodes, node count = 1 + child count |
| `RamTree.WalkAdded` | fs/ramfs.c:91-119 | an addition makes exactly one more canonical path resolve; every other path resolves as before |
| `RamTree.RemoveTree` | fs/ramfs.c:137-153 | delete keeps the tree |
| `RamTree.WalkRemoved` | fs/ramfs.c:137-153 | a delete makes exactly one canonical path stop resolving; every other path resolves as before |
| `RamView.MkdirAt` | fs/ramfs.c:91-104 | mkdir changes the map from paths to entries at one path, to a directory |
| `RamView.CreateAt` | fs/ramfs.c:106-119 | create changes the map at one path, to an empty file |
| `RamView.MkdirFails` | fs/ramfs.c:91-104 | mkdir fails, and changes nothing, exactly without a parent, with 32 children, for a name that is there, or with all 128 nodes in use |
| `RamView.CreateFails` | fs/ramfs.c:106-119 | create gives back a node that is there as it is, and fails exactly without a parent, with 32 children, or for a new name with all nodes in use |
| `RamView.NewName` | fs/ramfs.c:91-119 | a name is stored up to its 63rd character |
| `RamView.WriteAt` | fs/ramfs.c:121-128 | write changes the map at one path, to the bytes written |
| `RamView.DeleteAt` | fs/ramfs.c:137-153 | delete removes one path from the map; -1 exactly when there is nothing, -2 exactly for a nonempty directory, and then nothing changes |
| `RamPath.PrintThenResolve` | fs/ramfs.c:69-89 | the printed path of a live node fits the buffer and resolves to the node exactly when the node is at most 16 levels deep and the path has at most 255 characters |
| `RamPath.ResolveThenPrint` | fs/ramfs.c:155-173 | printing the node that a printable path resolves to gives the path back |
| `RamPath.WalkNormal` | fs/ramfs.c:69-89 | a path that resolves, dots and all, leads to the node whose path is left when the dots are worked off |
| `RamPath.WalkExactly` | fs/ramfs.c:69-89 | and it resolves exactly when every part of it is there, also what a .. takes back |
| `RamPath.ResolvedNormal` | fs/ramfs.c:69-89 | the same for ramfs_resolve |
| `RamPath.SplitCanonical` | fs/ramfs.c:69-89 | directory part and base of a canonical path resolve to the parent and the last name |
| `KernelRamFS.RamFS.AllocNode` | fs/ramfs.c:55-59 | first FREE node or NULL |
| `KernelRamFS.RamFS.FindNode` | fs/ramfs.c:61-67 | the loop over the children finds the first with the name, NULL for a file |
| `KernelRamFS.RamFS.Mkdir` | fs/ramfs.c:91-104 | the pool update is the mkdir function and keeps the tree under a directory |
| `KernelRamFS.RamFS.Create` | fs/ramfs.c:106-119 | the pool update is the create function, returning an existing node unchanged, and keeps the tree under a directory |
| `KernelRamFS.CreateUnderFile` | fs/ramfs.c:91-119 | the condition on the parent is needed: under a file both calls succeed and no depths make the result a tree |
| `KernelRamFS.RamFS.Delete` | fs/ramfs.c:137-153 | the pool update with its shift loop is the delete function and keeps the tree |
| `KernelRamFS.RamFS.CloseChildren` | fs/ramfs.c:145-148 | the shift loop drops exactly one child |
| `KernelRamFS.RamFS.Resolve` | fs/ramfs.c:69-89 | the strtok loop walks the tokens of the path, with . and ..; the node found is the one with the normalised path |
| `KernelRamFS.RamFS.AbsPath` | fs/ramfs.c:155-173 | the two loops print the last 16 names from the top down |
| `KernelRamFS.RamFS.PrintAndResolve` | fs/ramfs.c:69-89 | ramfs_abs_path, then ramfs_resolve: a path of at most 255 characters gives back the node exactly when it is at most 16 levels deep |
| `KernelRamFS.RamFS.Write` | fs/ramfs.c:121-128 | only a file changes, to the first 4096 bytes of the data, or to the C string when len is 0 |
| `KernelRamFS.RamFS.Read` | fs/ramfs.c:130-135 | at most len bytes of a file; -1 for anything else |
| `DiskLayout.Le32Inverse` | fs/diskfs.h:31-38 | little-endian words decode to what was encoded |
| `DiskLayout.InodeCodec` | fs/diskfs.h:31-38 | an inode and its 64 bytes determine each other |
| `DiskLayout.TableCodec` | fs/diskfs.c:23-28 | the table of 32 inodes reads back from its four sectors |
| `DiskLayout.TableSectorLocal` | fs/diskfs.c:26-28 | one changed inode changes one sector of the four |
| `DiskLayout.NameFieldCodec` | fs/diskfs.c:99-100 | a stored name reads back as itself exactly when it is shorter than 48 bytes |
| `DiskOps.FreeSlotExists` | fs/diskfs.c:71-86 | a free inode implies a free slot |
| `DiskOps.Clip` | fs/diskfs.c:90 | a write keeps the data up to 4096 bytes |
| `DiskOps.FilesAdded` | fs/diskfs.c:92-118 | filling an unused inode and slot adds one key to the file map and keeps every other file |
| `DiskOps.FilesResized` | fs/diskfs.c:106-118 | rewriting a slot and size changes one key of the file map |
| `DiskOps.FilesRemoved` | fs/diskfs.c:135-144 | blanking an inode removes one key of the file map |
| `DiskCrash.Remount` | fs/diskfs.c:49-60 | mounting a disk in step with memory gives back the same memory and the same file map |
| `DiskCrash.FlushTable` | fs/diskfs.c:23-28 | an interrupted table flush that changes one inode leaves the old or the new table, depending on the one sector that holds it |
| `DiskCrash.CreateCut` | fs/diskfs.c:88-119 | creating a file is crash-atomic: cut after any number of sector writes, the disk mounts to the old map or to the old map with the new file, the latter exactly once the sector of the inode is written |
| `DiskCrash.DeleteCut` | fs/diskfs.c:135-144 | deleting is crash-atomic in the same sense, and removes exactly the named file |
| `DiskCrash.OverwriteCut` | fs/diskfs.c:88-119 | overwriting is in place: cut after k sector writes the file has the first k sectors of the new buffer over its old bytes at its old size, and the new bytes once the sector of the inode is written; every other file is as it was |
| `DiskCrash.OverwriteAtomic` | fs/diskfs.c:88-119 | every cut of an overwrite leaves the old or the new files exactly when the old bytes are a prefix of the new ones and zeros, or the size stays and one sector changes |
| `DiskCrash.AppendAtomic` | fs/diskfs.c:88-119 | so appending is crash-atomic |
| `DiskCrash.TornRemains` | fs/diskfs.c:88-119 | for any other old and new bytes there is a cut that leaves neither |
| `DiskCrash.WriteDone` | fs/diskfs.c:88-119 | a write stores the data cut at 4096 bytes under its name and nothing else; it fails exactly for a new name with a full table |
| `DiskCrash.WriteGood` | fs/diskfs.c:88-119 | a write of any name keeps slots distinct and in 0..31, and memory in step with the disk |
| `DiskCrash.WriteDistinct` | fs/diskfs.c:88-119 | names stay distinct |
| `DiskCrash.DeleteDone` | fs/diskfs.c:135-144 | a delete removes exactly one key; -1 exactly when it is missing |
| `DiskCrash.FormatDone` | fs/diskfs.c:30-47 | a formatted disk mounts to the empty map |
| `DiskRun.WriteCutMount` | fs/diskfs.c:88-119 | a write cut after any number of sector writes leaves a disk that mounts to the old or the new table, and to the new superblock only when complete |
| `DiskRun.DeleteCutMount` | fs/diskfs.c:135-144 | the same for a delete |
| `DiskRun.CountKept` | fs/diskfs.c:88-144 | complete writes and deletes keep `nfiles` equal to the used count |
| `DiskRun.CreateCount` | fs/diskfs.c:88-119 | a cut create leaves `nfiles` right exactly when the cut comes before the sector of the inode or after the superblock |
| `DiskRun.DeleteCount` | fs/diskfs.c:135-144 | the same for a cut delete |
| `DiskRun.CrashRun` | fs/diskfs.c:49-144 | in any run of writes and deletes, each complete or cut after any sector write and followed by a mount, every call leaves exactly the files that its number of sector writes determines: all or nothing for creates and deletes, the mixed bytes for an overwrite |
| `DiskRun.CallAtomic` | fs/diskfs.c:88-144 | a call leaves all of its effect or nothing wherever it is cut, exactly unless it overwrites a file by more than appending or changing one sector |
| `DiskRun.TornRun` | fs/diskfs.c:88-119 | on any formatted disk: 1024 bytes overwritten by 1024 that differ in the first and the last, cut after one sector, leave neither |
| `DiskRun.UntouchedKept` | fs/diskfs.c:49-144 | over any such run a file that no call names keeps its bytes |
| `DiskRun.LastWriteRead` | fs/diskfs.c:49-144 | over any such run the last complete write of a name is what a later mount reads |
| `DiskRun.FormatMount` | fs/diskfs.c:30-47 | the writes of diskfs_format leave a disk with a fresh superblock and 32 blank inodes |
| `DiskRun.FormattedSound` | fs/diskfs.c:30-60 | a formatted disk is a start of such runs, with no files and the right `nfiles` |
| `DiskBytes.InodeOnDisk` | fs/diskfs.h:34-41 | inode i is the 64 bytes at 64 * (i mod 8) of sector 1 + i / 8, field by field |
| `DiskBytes.StoredName` | fs/diskfs.c:95-105 | a new inode holds the name with zeros behind it, is a used file, and has the size and slot |
| `DiskBytes.SuperOnDisk` | fs/diskfs.h:24-32 | the superblock starts with magic number, version and number of files |
| `DiskBytes.FileOnDisk` | fs/diskfs.c:88-133 | byte p of a file in slot s is byte p mod 512 of sector 5 + 8 * s + p / 512 |
| `DiskBytes.FormatOnDisk` | fs/diskfs.c:30-47 | the bytes of a formatted disk: superblock with label, and 32 inodes of zeros |
| `KernelDiskFS.DiskFS.Format` | fs/diskfs.c:30-47 | any disk becomes a mounted file system with no files |
| `KernelDiskFS.DiskFS.Init` | fs/diskfs.c:49-60 | a disk with the magic number is mounted unchanged, with whatever `nfiles`, any other is formatted; -1 without a disk |
| `KernelDiskFS.DiskFS.FindInode` | fs/diskfs.c:64-69 | first used inode with the name |
| `KernelDiskFS.DiskFS.AllocInode` | fs/diskfs.c:71-75 | first unused inode |
| `KernelDiskFS.DiskFS.AllocSlot` | fs/diskfs.c:78-86 | the two loops find the first slot no used inode owns |
| `KernelDiskFS.DiskFS.Write` | fs/diskfs.c:88-119 | the map gains or replaces one key; the sector writes are data, then inodes, then superblock |
| `KernelDiskFS.DiskFS.Read` | fs/diskfs.c:121-133 | exactly the file, cut at maxsize; -1 exactly when it is missing |
| `KernelDiskFS.DiskFS.Delete` | fs/diskfs.c:135-144 | the map loses one key |
| `KernelDiskFS.Reboot` | fs/diskfs.c:49-60 | after one call, complete or cut anywhere, diskfs_init mounts the disk and the files are exactly what the call left |
| `InstallTool.EntryRoundTrip` | apps/install.py:39-68 | decoding an inode in the written format and encoding it again gives the same inode |
| `InstallTool.ReadInodes` | apps/install.py:39-53 | the Python loop reads the same 32 inodes that the kernel mounts |
| `InstallTool.WriteInodes` | apps/install.py:55-68 | the Python loop writes the sectors the kernel writes for that table |
| `InstallTool.WriteSuper` | apps/install.py:70-74 | patching offset 8 writes the superblock the kernel writes |
| `InstallTool.FindFreeSlot` | apps/install.py:76-81 | the set comprehension and loop choose the slot of the kernel |
| `InstallTool.FindFreeInode` | apps/install.py:83-87 | the loop chooses the inode of the kernel |
| `InstallTool.InstallApp` | apps/install.py:89-140 | the image receives exactly the planned sector writes; refused exactly without the magic number, over 4096 bytes, or when a new name finds the table full |
| `InstallTool.InstallIsWrite` | apps/install.py:118-137 | installing a new name issues exactly the sector writes of the kernel call |
| `InstallTool.InstalledIsMounted` | apps/install.py:89-140 | after installing a new name the kernel mounts every earlier file unchanged and the app with exactly its bytes |
| `InstallTool.UpdatedIsMounted` | apps/install.py:113-116 | updating an existing name stores the app exactly when its size is the recorded one, which the tool does not change |
| `InstallTool.CanonicalKept` | apps/install.py:55-64 | kernel writes and deletes keep the table in the format the tool round-trips |
| `InstallTool.KernelDiskInstallable` | apps/install.py:89-140 | every disk that the kernel formatted and used, with power cuts anywhere, meets the conditions of the tool, as long as the names are ASCII |
| `FrameBits.SetBit` | kernel/pmm.c:6 | SET changes one bit of a word |
| `FrameBits.ClrBit` | kernel/pmm.c:7 | CLR changes one bit of a word |
| `FrameBits.FullWord` | kernel/pmm.c:12 | a word equals 0xFFFFFFFF exactly when all its bits are set |
| `FrameAllocator.CountFree` | kernel/pmm.c:9-14 | taken and free frames below a bound make up the bound |
| `FrameAllocator.CountChanged` | kernel/pmm.c:10-13 | changing one bit changes the count by one, and only if the bit differed |
| `FrameAllocator.ZeroMeansNone` | kernel/pmm.c:12 | with frame 0 taken, pmm_alloc returns 0 exactly when no frame below 32*(total/32) is free |
| `FrameAllocator.FramesAre` | kernel/pmm.c:10-11 | a range takes the frames below total that hold a byte of it, counted from the start of its first frame, and none when its rounding wraps |
| `FrameAllocator.GrantedOnce` | kernel/pmm.c:10-13 | in every journal of frames given back, reserved and handed out that starts with all frames taken, a frame is not handed out twice without being given back in between |
| `FrameAllocator.Pmm.NeverTwice` | kernel/pmm.c:9-13 | the same for the journal that the allocator has kept since pmm_init, in which each call records every frame whose bit it changes |
| `FrameAllocator.Pmm.Init` | kernel/pmm.c:9 | total with its 32-bit wrap and cap, all frames taken |
| `FrameAllocator.Pmm.MarkFree` | kernel/pmm.c:10 | set union with the frames of the range below total, counter kept; each frame that was taken is recorded as given back |
| `FrameAllocator.Pmm.MarkUsed` | kernel/pmm.c:11 | set difference with the frames of the range below total, counter kept; each frame that was free is recorded as reserved |
| `FrameAllocator.Pmm.Alloc` | kernel/pmm.c:12 | the lowest free frame below 32*(total/32) leaves the free set and is recorded as handed out; otherwise 0 and no change |
| `FrameAllocator.Pmm.FreeFrame` | kernel/pmm.c:13 | the frame joins the free set |
| `FrameAllocator.Pmm.FreeKb` | kernel/pmm.c:14 | four times the number of free frames |
| `FileStream.WriteChunks` | kernel/syscall.c:71-83 | how output is cut into writes does not matter: the result is one write of the concatenation |
| `FileStream.StreamWritten` | kernel/syscall.c:71-83 | a run of writes stores the concatenation at the offset, cut at byte 4096, and keeps what lies behind it |
| `FileStream.ReadPieces` | kernel/syscall.c:103-110 | reads of any sizes return consecutive pieces |
| `OpenModel.CreateOpens` | kernel/syscall.c:125-139 | a file that open creates is found by a later open of the same path when its directory resolved to a directory |
| `OpenModel.MissingDirectory` | kernel/syscall.c:125-139 | when the directory part does not resolve, open takes or makes the file of that base name in the root, and fails exactly without room there |
| `OpenModel.CreateBelowFile` | kernel/syscall.c:125-139 | when the directory part names a file, open still creates a node, and the path does not find it |
| `OpenModel.TrailingSlash` | kernel/syscall.c:125-139 | with a path that ends in a slash, open still creates a node, with an empty name in the root, and the path does not find it |
| `OpenModel.CreateOpensExactly` | kernel/syscall.c:125-139 | on paths without dots exactly then; otherwise (missing directory, a file in its place, or a slash at the end) a later open of the path finds nothing |
| `KernelSyscall.OpenSteady` | kernel/syscall.c:143-147 | open keeps every offset inside its file exactly unless it empties the node under another descriptor past its start, or truncates a nonempty file and appends |
| `KernelSyscall.FdTable.constructor` | kernel/syscall.c:34-42 | descriptors 0 to 2 reserved, 3 the first to be given out |
| `KernelSyscall.FdTable.FdAlloc` | kernel/syscall.c:44-48 | first unused descriptor from 3 on |
| `KernelSyscall.FdTable.Write` | kernel/syscall.c:58-85 | the stream takes up the bytes, every other descriptor and node is as before, and the DiskFS entry of the name mirrors the file at once; screen and EBADF branches exact |
| `KernelSyscall.FdTable.Read` | kernel/syscall.c:87-112 | the next piece of the stream, at most count, and the offset past it; stdin up to the first line feed |
| `KernelSyscall.FdTable.Open` | kernel/syscall.c:114-150 | the descriptor, node, offset and size after every flag combination, ENOENT and EMFILE without any change; the tree is kept |
| `KernelSyscall.FdTable.Close` | kernel/syscall.c:152-159 | only descriptors from 3 on are given back |
| `KernelSyscall.FdTable.PutFile` | kernel/syscall.c:58-159 | open with flags 64 and 512, writes, close: the path holds the concatenation, cut at 4096, and so does the DiskFS entry of the name while there is room |
| `KernelSyscall.FdTable.AppendFile` | kernel/syscall.c:58-159 | open with flag 1024, writes, close: the concatenation comes behind what was there, cut at 4096; -24 without a descriptor |
| `KernelSyscall.FdTable.CopyThrough` | kernel/syscall.c:58-159 | writing through a freshly opened truncated file in any chunks, closing, opening and reading in any sizes gives the concatenation cut at 4096; with the directory missing or a file, or a slash at the end, the second open gives ENOENT, and a failing first open its error |
| `ElfModel.LoadedAt` | kernel/elf_loader.c:110-125 | after the loop every byte is that of the last segment over it, or unchanged |
| `ElfModel.DisjointLoaded` | kernel/elf_loader.c:110-125 | with disjoint destinations memory is exactly file bytes, then zeros to p_memsz, unchanged elsewhere |
| `ElfModel.OrderIrrelevant` | kernel/elf_loader.c:110-125 | disjoint segments may come in any header order |
| `ElfModel.SwapExact` | kernel/elf_loader.c:110-125 | two segments may change places exactly when they agree wherever they overlap |
| `ElfModel.SegmentListed` | kernel/elf_loader.c:110-112 | every PT_LOAD header contributes its segment |
| `ElfModel.DisjointListed` | kernel/elf_loader.c:110-112 | if no two PT_LOAD headers share an address, no two listed segments do |
| `ElfModel.ImageLoaded` | kernel/elf_loader.c:110-125 | then loading the image leaves image[p_offset+k] at p_vaddr+k for k below p_filesz, zeros up to p_memsz, and every other byte as it was |
| `ElfFile.EhdrRead` | kernel/elf_loader.c:25-44 | on the bytes of a header struct: the result codes of the checks, the entry point, the place and the number of program headers |
| `ElfFile.PhdrRead` | kernel/elf_loader.c:46-56 | and of each program header struct its type, offset, address and sizes |
| `ElfFile.FileLoaded` | kernel/elf_loader.c:110-125 | loading the bytes of a file whose segments do not overlap puts its bytes in place, with zeros behind, and nothing else |
| `KernelElf.Machine.CheckHeader` | kernel/elf_loader.c:93-101 | the checks in order, each with its result code |
| `KernelElf.Machine.LoadSegment` | kernel/elf_loader.c:117-124 | one header copies its bytes and zeroes the rest, and leaves the image alone |
| `KernelElf.Machine.ElfLoad` | kernel/elf_loader.c:92-129 | refused images change nothing; accepted ones load all segments and return the entry point; with headers that share no address memory is exactly the image bytes, zeros and what was there |
| `KernelElf.Machine.LoadFile` | kernel/elf_loader.c:92-129 | elf_load on the bytes of a file: the code its header asks for, its entry point, its segments in place |
| `SpkModel.MakeDirsGrow` | pkg/spk.c:44-56 | the directory loop makes exactly the missing directories of the path |
| `SpkModel.ExtractedHolds` | pkg/spk.c:34-61 | one entry: its path names exactly its bytes, its missing directories appear, every other path names what it did |
| `SpkModel.PackageInstalled` | pkg/spk.c:28-65 | the same for a whole package of separate paths that there is room for |
| `SpkRoom.SlackRoom` | pkg/spk.c:28-65 | a node for every name and a child slot in every node for every entry, checked before the call, are room enough |
| `SpkDisk.UnusedAfter` | fs/diskfs.c:88-119 | a write takes one unused inode exactly for a new name, while there is one |
| `SpkDisk.PutsHold` | pkg/spk.c:60-71 | after a list of writes with an unused inode for every new name, each name has the bytes of its last write and every other name what it had |
| `SpkDisk.PutsExactly` | pkg/spk.c:60-71 | and that room is needed: with fewer inodes some name does not get its bytes |
| `KernelSpk.PackageResolves` | pkg/spk.c:28-65 | after the installation every listed path resolves to a file with exactly its bytes |
| `SpkFile.HeaderRead` | pkg/spk.h:12-24 | on the bytes of a header struct: accepted exactly for the right magic number and version; name, version and number of files |
| `SpkFile.RecordRead` | pkg/spk.c:67-71 | the record is installed_ and the name, holding name, blank, version and line feed |
| `SpkFile.EntryRead` | pkg/spk.h:26-32 | on the bytes of an entry struct: its path and the bytes it points to |
| `SpkFile.PackageRead` | pkg/spk.c:13-71 | reading the bytes of a package gives back its list of files and the writes to the disk |
| `SpkFile.InstallPackage` | pkg/spk.c:13-74 | installing the bytes of a package that suits the tree: every path resolves to a file with the bytes of its entry, cut at 4096 |
| `KernelSpk.Installer.MakeDirectories` | pkg/spk.c:46-55 | the strtok loop is the directory function, skipping a name that cannot be made |
| `KernelSpk.Installer.ExtractFile` | pkg/spk.c:29-64 | one table entry is decoded, installed in RamFS, for size 0 with the C string at its offset, and written to the disk under its base name |
| `KernelSpk.Installer.SpkInstall` | pkg/spk.c:13-74 | bad size, magic or version changes nothing; otherwise all entries in order, and on the disk exactly the writes of the entries and the record, which all last exactly when there is an unused inode for every new name |
| `PasswdModel.DecimalRoundTrip` | kernel/login.c:37-42 | reading back the decimal print of any number gives it modulo 2^32 |
| `PasswdModel.HashIs` | kernel/login.c:31-35 | the hash is the polynomial 5381 * 33^n + s[0] * 33^(n-1) + ... + s[n-1] of the bytes modulo 2^32 |
| `PasswdModel.OneOffHash` | kernel/login.c:31-35 | two strings of one length that differ in one byte have different hashes |
| `PasswdModel.AtoiReads` | libc/string.c:91-98 | a decimal is read up to the next other character, after one sign, modulo 2^32 |
| `PasswdModel.AtoiBlank` | libc/string.c:91-98 | a leading blank does not change what is read |
| `PasswdModel.AtoiOfHash` | kernel/login.c:195-203 | atoi of a printed hash is the hash, although it may exceed the int range |
| `PasswdModel.PasswdRoundTrip` | kernel/login.c:44-72 | parsing the printed entries gives back the list |
| `PasswdModel.InstallerRoundTrip` | kernel/installer.c:370-379 | the text for a user name parses back to the two entries exactly when the name is nonempty and has no colon |
| `PasswdModel.ScreenRoundTrip` | kernel/installer.c:237-249 | the name screen lets only such names through, so the text of the installer always parses back |
| `PasswdModel.ScreenLogins` | kernel/installer.c:237-249 | and for every name from the screen exactly root and that user log in, up to passwords of the same hash |
| `PasswdModel.DefaultRoundTrip` | kernel/login.c:74-82 | the default text parses back |
| `PasswdModel.LoginExact` | kernel/login.c:194-205 | an entry made for a user and secret is accepted exactly for that name and a password with the same hash |
| `PasswdModel.AccountLogins` | kernel/login.c:44-72 | after up to eight accounts with usable names are printed and parsed, entry i accepts exactly the name of account i with a password of the same hash |
| `PasswdModel.LoginsAre` | kernel/login.c:194-205 | so the check accepts exactly the pairs that some account opens |
| `PasswdModel.InstalledLogins` | kernel/login.c:194-205 | after an installation the check accepts exactly root with a password of the hash of toor, and the user with one of the hash of the chosen password |
| `PasswdModel.DefaultLogins` | kernel/login.c:74-82 | with the default text exactly root with a password of the hash of toor and stella with one of the hash of 1234 |
| `PasswdModel.ParsedNames` | kernel/login.c:56-69 | every parsed name is nonempty and has no colon |
| `PasswdModel.FieldsRead` | kernel/login.c:56-69 | a line of one, two or three fields: no user, a user with home /, or all three, cut at 31, 31 and 63 characters |
| `PasswdModel.FirstUsers` | kernel/login.c:44-72 | of more entries than there is room for the first ones are kept |
| `PasswdModel.LongLine` | kernel/login.c:48-55 | a line is cut after 127 characters, and the rest is a line of its own |
| `PasswdModel.TwoPrinted` | kernel/installer.c:370-378 | the text of two entries, character by character |
| `Login.HashPass` | kernel/login.c:31-35 | the loop computes the djb2 hash modulo 2^32 |
| `Login.ItoaU` | kernel/login.c:37-42 | the digit and reversal loops print the decimal |
| `Login.AtoiU` | libc/string.c:91-98 | the loop reads the number with its sign, modulo 2^32 |
| `Login.UserTable.Parse` | kernel/login.c:44-72 | the line and token loops fill the table with the parsed entries, at most 8 |
| `Login.UserTable.Check` | kernel/login.c:194-205 | the first entry whose name and hash match, -1 exactly when there is none |
| `LoginDisk.LoginInit` | kernel/login.c:87-98 | the first 511 bytes of the passwd file are parsed; a missing or empty file is first replaced by the default one, unless no inode is left |
| `LoginDisk.TextCut` | kernel/login.c:90-96 | of a longer file the first 511 bytes are read |
| `LoginDisk.LogIn` | kernel/login.c:87-98 | then the check finds the first matching entry, and for a file written for accounts and not cut the first account that name and password open |
| `LoginDisk.FirstLogIn` | kernel/login.c:74-98 | without a passwd file exactly the two default accounts log in, up to passwords of the same hash; the right password is accepted and one wrong character refused |
| `LoginDisk.InstallAndLogIn` | kernel/installer.c:370-379 | after the installer wrote the file for any name from the screen, exactly root and the user log in, up to passwords of the same hash; the right password is accepted and one wrong character refused |
| `Login.InstallerText` | kernel/installer.c:370-378 | the hash, digit and strcat steps build the printed entries |
| `Login.ScreenUser` | kernel/installer.c:237-249 | one round of the name screen: an empty or escaped field becomes stella, and it goes on exactly with 1 to 29 characters of a-z, 0-9 and _ |
| `Login.DefaultText` | kernel/login.c:74-82 | the hash, digit and strcat steps build the default entries |

## Left out

- KernelHeap.Heap.HeapInit: memory is a map of 4-aligned words and `memcpy` goes word by word, so single bytes of a payload are not modelled; the region must be 8-aligned, start at 64 or above and lie below 2^32.
- KernelHeap.Heap.Krealloc: requires a size of at most 2^32-8, because beyond it the rounding wraps to 0 and the copy leaves the new block; the wrap itself is stated in HeapModel.RoundFacts.
- KernelHeap.Heap.Kfree: a pointer into the middle of the heap whose word happens to carry the USED mark is excluded.
- SchedulerModel.BoundedWaiting: calls come from a process that is neither asleep nor dead; a process that killed itself and still calls proc_create can have its own slot, stack included, cleared. The PIT counter is an argument of the steps, a context switch is a change of the current index, and stacks, names and saved registers are not modelled.
- KernelScheduler.Scheduler.ProcSleep: the loop that halts until the process is woken.
- KernelScheduler.Scheduler.ProcExit: the loop that halts for ever.
- SchedulerModel.RunInv: runs in which the 32-bit pid counter wraps are excluded.
- TextEditor.Editor.OnKey: the save and exit keys are in EditorStore.OneKey; drawing and `scroll_y` are not modelled, nor are the repair branches of the C code for an empty buffer and a cursor below the last line, which the invariant makes unreachable.
- TextEditor.Editor.Save: the part of ed_save that builds the bytes; the lookup and `ramfs_write` around it are in EditorStore.SaveFile.
- TextEditor.Editor.Load: the part of ed_load that takes the bytes; the lookup and `ramfs_read` around it are in EditorStore.LoadFile.
- KernelRamFS.RamFS.Resolve: paths of more than 255 characters (with their leading slash), which are copied without a terminator.
- KernelRamFS.RamFS.AbsPath: names of 63 characters, which would stand unterminated in the parts array.
- KernelRamFS.RamFS.constructor: the directories and default texts that `ramfs_init` adds to the root.
- KernelDiskFS.DiskFS.Write: the ATA disk works on every sector; read and write errors are not modelled. `diskfs_list` and `diskfs_exists` are left out.
- KernelDiskFS.DiskFS.Read: read errors, as above.
- KernelDiskFS.DiskFS.Delete: write errors, as above.
- KernelDiskFS.DiskFS.Init: a disk with the magic number must hold used inodes with terminated names, sizes up to 4096 and distinct slots in 0..31; other tables are not given a meaning.
- DiskRun.CrashRun: names are free of NUL and shorter than 48 bytes; a power cut during diskfs_format is not part of a run, nor one inside a sector.
- InstallTool.ReadInodes: names outside ASCII, which `decode` replaces.
- InstallTool.InstallApp: names outside ASCII, on which `encode` raises an error after the data sectors are written; an `nfiles` of 2^32-1, on which `struct.pack` raises one; file input and output errors and the printed messages.
- FrameAllocator.Pmm.FreeFrame: requires an address below total, because `pmm_free` does not check it.
- KernelSyscall.FdTable.Read: requires the offset to lie inside the file, because the subtraction of the C code wraps otherwise; KernelSyscall.OpenSteady says which opens keep that.
- KernelSyscall.FdTable.Open: NULL pointers, paths that do not fit the 256-byte buffers and bases of 64 or more are excluded.
- KernelElf.Machine.ElfLoad: program headers and file ranges must lie in the buffer and destinations in memory, away from the image; `elf_exec`, the argument stack of `setup_stack` and process creation are left out.
- KernelElf.Machine.LoadSegment: the same for one header.
- KernelSpk.Installer.ExtractFile: bases over 47 characters are excluded, and entries of size 0 with no NUL behind their offset.
- KernelSpk.Installer.SpkInstall: entries outside the data, paths without terminator, bases over 47 characters and package names over 37 are excluded; `spk_remove`, `spk_installed` and `spk_list` are left out.
- SpkModel.PackageInstalled: paths with dots, paths through files and paths that are prefixes of each other are excluded.
- LoginDisk.LogIn: which accounts a file cut at 511 bytes still lets in is stated through the parsed entries only.
- Login.UserTable.Parse: the drawing and the keyboard input around it.
- Login.AtoiU: the C `atoi` overflows a signed int; it is modelled as wrapping modulo 2^32, as the machine does.
- Hardware (port I/O, interrupt stubs, VGA, serial line), the keyboard ring buffer, Snake, the shell commands (among them the rename without a sibling check), the installer screens, `sys_brk`, `sys_uname` and the stub system calls are left out: they would add only easy members.
