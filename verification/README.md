# Verified model of the kernel's stateful components

This Dafny project models the parts of the kernel that keep non-trivial state over long runs, and proves what they are
for. `dafny verify dfyconfig.toml` checks all of it.

Each component has two layers. A *specification* on values (functions on byte sequences, tables and rings) states what
an operation does and carries the theorems. A *class or method* in the form of the C code (fields, arrays and loops,
updated in place) is proved to have exactly the effect of the specification, so every theorem is about the code's form.

| component | files | main results |
|---|---|---|
| block I/O | `Bytes`, `BlockIO` | byte-granular reads and writes over whole-block transfers are slices and splices of a flat image |
| LogFS | `LogFormat`, `LogChecksum`, `LogVolume`, `LogRemount`, `LogContents`, `LogRun`, `LogWitness`, `LogLiteral`, `LogFS` | after any run a remount rebuilds exactly the live tables, and both hold a map from names to bytes |
| virtqueue and drivers | `FreeList`, `VirtRing`, `Virtqueue`, `VirtioBlk`, `VirtioInput` | descriptor ownership, exactly-once delivery across 16-bit wrap-around, no leak, a ring kept full |
| scheduler | `SchedulerModel`, `Scheduler` | safety, context integrity, bounded wait |
| program loading | `ElfFormat`, `UserLoader`, `ElfFields`, `TranslationTables`, `Mmu`, `UserMemory` | a running program reads what its segments say, through the page tables |
| TinyFS, VFS, files | `TinyFormat`, `TinyFS`, `Paths`, `VfsTree`, `TinyLiteral`, `Vfs`, `FileLayer` | pack, mount, open and read return the packed contents; stat and list describe one tree |
| page allocator | `PageModel`, `Words`, `Pmm` | a word bitmap and a counter refine a set of pages |
| text editor | `RowScan`, `TextEditor` | two row scanners agree; vertical moves are monotone |

## Where the code does not do what one would expect

Each of these is proved: as an if-and-only-if where a condition on the input decides it, and with a concrete instance
where one helps.

- LogFS: the append that finds the 64-entry segment table full fails after its record has been written, and replay stops
  in front of that record. So later creations succeed and are lost by the next mount (`AppendSynced`, `OverflowFreezes`,
  `RunFrozen`, `OverflowLosesFile`). That mount puts the log end back on the refused record; the first file created then
  ends the freeze (`FrozenEnds`), and where a new record ends to the byte in front of a lost one, the lost file comes
  back at the mount after it (`CreateSynced`, `StaleRecordReturns`). Without an overflow the equality of live and
  remounted tables is exact, the next file id included (`RemountEquivalence`): the formatted image is too large for the
  log to fill before the tables do.
- LogFS: on a foreign image a new file can take an id in use (`CreateSynced`, `NextIdCanCollide`).
- Virtqueue: sizes that do not divide 65536 are accepted, although slots then collide at the wrap and the device can
  read the wrong head (`SlotsApartIff`, `DeliveryIff`, `OddSizeAccepted`).
- Block driver: the byte count is cast to 32 bits for the device (`DataLengthIff`, `LengthVanishes`).
- Scheduler: a caller that forbids the current task to continue would leave two tasks RUNNING (`ScheduleInvIff`,
  `TwoRunning`). Every caller allows it.
- ELF loader: the page rounding of a segment end can wrap to 0; exactly these segments are refused by the second pass
  (`LastPageCheck`, `WrappedRefused`).
- User programs: a page is executable when no writable segment touches it; the execute flag of a segment is never read.
  A program whose entry page is writable is accepted and cannot fetch its first instruction (`EntryExecutableIff`,
  `ExecFlagsHonouredIff`, `RwxCannotStart`).
- User isolation: the blocks that map RAM for the kernel leave out the bit that forbids EL0 to execute, so a program can
  execute, though not read or write, all of RAM (`UserIsolation`).
- TinyFS: the packer accepts more than 16 files, the kernel does not mount the result (`MountRoundTrip`). It also
  accepts a last file that reaches past 4 GiB, of which a part that starts there is read from the wrong place
  (`ReadRoundTrip`, `LastPartWraps`).
- VFS: when a name follows, for the first time, an entry that lies below it, the listing calls it a directory and stat
  a file (`AgreementIff`, `OverlapDisagrees`); and a stored name with entries below it can be listed although stat calls
  it a file (`DirectoriesIff`). The packer makes no such image.
- Files: a read of 2 GiB or more delivers its bytes and reports failure (`ReadOnce`, `ChunkedRead`).
- Editor: Down cannot leave a full row that a newline follows, and with no columns goes to 0 (`DownStuckIff`,
  `DownKeeps`). Up passes over a row of a single position that begins no line (`UpRowIsAboveIff`).

## Model

| member | source | states |
|---|---|---|
| BlockIO.RangeValidIff | src/drivers/ramdisk.c:10-26 | the RAM disk range test, wrap-around included, accepts exactly the non-empty ranges that end inside the device |
| BlockIO.BlockDevice.ReadBlocks | src/drivers/ramdisk.c:28-45 | a read succeeds exactly for a non-empty run of existing blocks and copies that run, and only that, to the front of the buffer |
| BlockIO.BlockDevice.WriteBlocks | src/drivers/ramdisk.c:47-64 | a write succeeds exactly for a non-empty run of existing blocks and replaces that run and no other byte of the device |
| BlockIO.ReadBytes | src/fs/logfs.c:106-149 | the block-wise read loop delivers the flat slice [offset, offset + size) of the device for any offset, any size and any block size up to 512; past the end it fails having delivered the bytes that exist |
| BlockIO.PatchDeviceBlock | src/fs/logfs.c:168-205 | the read-modify-write of part of a block is a splice of just those bytes |
| BlockIO.WriteBytes | src/fs/logfs.c:151-209 | the write loop replaces exactly [offset, offset + size) of the flat image and nothing else; past the end it fails having written the bytes before the end |
| Bytes.U32AtOfLe32 | src/fs/logfs.c:480-514 | a 32-bit little-endian field reads back the value that was stored |
| LogFormat.SuperblockRoundTrip | tools/mklogfs.py:19-20 | the superblock that the formatter packs decodes to the same fields |
| LogFormat.HeaderRoundTrip | src/fs/logfs.c:414-478 | a record header decodes to the fields that were encoded |
| LogFormat.ParseWritten | src/fs/logfs.c:347-478 | a record written at any place is accepted by replay there, with the header, payload and size that were written |
| LogFormat.ParseLocal | src/fs/logfs.c:347-412 | an accepted record stays accepted, with the same contents, as long as its own bytes stay the same |
| LogFormat.ParseWindow | src/fs/logfs.c:347-412 | what is found at a position, accepted or not, depends on no byte beyond the largest record that could start there |
| LogFormat.ParseZeros | src/fs/logfs.c:347-372 | a zeroed log position ends the replay |
| LogChecksum.ChecksumClosed | src/fs/logfs.c:66-76 | the checksum of n bytes is seed * 33^n plus the sum of data[i] * 33^(n-1-i), modulo 2^32 |
| LogChecksum.OneByteDiffers | src/fs/logfs.c:66-76 | two byte strings of one length that differ in exactly one byte have different checksums |
| LogChecksum.IntactIff | src/fs/logfs.c:347-398 | replay accepts the bytes at a position exactly when they have the magic number, a payload of at most 480 bytes that fits, and the checksum of header and payload with the checksum field zero; the fields are those of the bytes, and a magic number of 0 ends the log |
| LogChecksum.OneByteRefused | src/fs/logfs.c:347-398 | an accepted record with any one byte of its header or payload changed, those of the payload size aside, is refused |
| LogChecksum.DamagedMount | src/fs/logfs.c:347-535 | a mount of a device on which such a byte has changed stops in front of that record |
| LogVolume.Replay | src/fs/logfs.c:516-535 | the replay of any image ends, each accepted record moving the log end by at least 32 bytes and never past the capacity |
| LogVolume.MountedIff | src/fs/logfs.c:480-514 | a device is mounted exactly when its blocks fit the buffer and its superblock has the magic number, version 1, the device's block size, no more blocks than the device and a log behind the first block |
| LogVolume.MountWellFormed | src/fs/logfs.c:276-412 | mounting any image whatsoever leaves distinct names and ids, segments of each file that tile [0, size) in table order, and every segment inside the capacity |
| LogRemount.RemountAfterWrite | src/fs/logfs.c:414-543 | after one more record has been written a mount finds the earlier tables, then that record applied, then whatever replay makes of the bytes behind it; or the earlier tables alone when replay refuses the record |
| LogRemount.CreateSynced | src/fs/logfs.c:624-661 | on any device whose live tables a mount would rebuild, a creation keeps it so if and only if, should it succeed, its id is not in use and its record does not end where an older one begins that replay goes on to apply |
| LogRemount.CreateSyncedOnZeros | src/fs/logfs.c:624-661 | over a log followed by zeros only a creation that takes an id in use is not found again by a mount |
| LogRemount.AppendSynced | src/fs/logfs.c:663-702 | on any such device an append keeps it so if and only if it does not overflow the segment table and, should it succeed, its record does not end where an older one begins that replay goes on to apply |
| LogRemount.AppendSyncedOnZeros | src/fs/logfs.c:663-702 | over a log followed by zeros only an append that overflows the segment table is not found again by a mount |
| LogContents.CreateRefines | src/fs/logfs.c:624-661 | create succeeds exactly when the name is valid and new, fewer than 16 files exist and the record, rounded up to 8 bytes, fits; it keeps the tables well formed if and only if it does not take an id in use, and then adds an empty file to the map from names to bytes, or changes nothing when it fails |
| LogContents.AppendRefines | src/fs/logfs.c:663-702 | append concatenates to one entry of the map, exactly when the file exists, the data is 1 to 480 bytes, the record, rounded up to 8 bytes, fits and the segment table has room; otherwise the map is unchanged |
| LogContents.ReplayedCreate | src/fs/logfs.c:276-319 | on any image replay applies a creation record exactly when its name field is 1 to 31 bytes with its NUL where announced, the name is valid and new, the id is new and fewer than 16 files exist; the map from names to bytes then gains an empty file |
| LogContents.ReplayedAppend | src/fs/logfs.c:321-345 | on any image replay applies an append record exactly when it is non-empty, states the file's size before and after it, and fewer than 64 segments exist; the payload is then concatenated to that file |
| LogRun.StepMatching | src/fs/logfs.c:480-702 | one operation, a remount included, keeps live state, device bytes and the map specification in step and answers as the specification does |
| LogRun.RunMatching | src/fs/logfs.c:480-702 | the match of live state, remounted state and specification survives any run of creations, appends and remounts without table overflow |
| LogRun.RemountEquivalence | src/fs/logfs.c:480-702 | from the formatted image, after any run without table overflow and with remounts anywhere in it, a mount rebuilds exactly the live tables (ids, sizes, segments, log end and next id), which hold exactly the files of the map specification |
| LogRun.StepSynced | src/fs/logfs.c:480-702 | whether an operation leaves live tables that a mount would rebuild is decided by three checks on the state before it: an id in use, a full segment table, an older record behind the new one |
| LogRun.RunSyncedIff | src/fs/logfs.c:480-702 | on any mounted image and over runs of any length, remounts included, a mount would find the live tables after every operation if and only if every operation passes these checks |
| LogRun.OverflowFreezes | src/fs/logfs.c:679-697 | an append refused because the segment table is full has already written its record, and replay stops in front of that record |
| LogRun.RunFrozen | src/fs/logfs.c:624-702 | whatever is created or appended between such an overflow and the next mount is lost by that mount |
| LogRun.FrozenEnds | src/fs/logfs.c:480-661 | the first file created after that mount overwrites the refused record, and the mount after it replays the log further than the one before |
| LogWitness.OverflowLosesFile | src/fs/logfs.c:679-697 | a concrete run: 65 appends, then a creation that succeeds and is gone after the next mount |
| LogWitness.StaleRecordReturns | src/fs/logfs.c:480-702 | a concrete run: overflow, three files, a mount, and two files whose records cover the first three records behind the log end to the byte; all succeed, and the next mount also finds the third of the lost files |
| LogWitness.NextIdCanCollide | src/fs/logfs.c:276-319 | a concrete image, not made by this code, after which a creation takes an id in use and a remount does not find the new file |
| LogLiteral.LiteralImage | src/fs/logfs.c:414-702 | byte for byte, the image that a creation of "a" and an append of "hi" leave on the formatted device; and mounting these bytes finds "a" with "hi" |
| LogFS.NameIsValid | src/fs/logfs.c:78-104 | the name check accepts exactly non-empty names below 32 bytes without a slash |
| LogFS.ChecksumBytes | src/fs/logfs.c:66-76 | the loop computes the closed form of the checksum from its seed |
| LogFS.Driver.FindSlot | src/fs/logfs.c:211-256 | the three table searches return the first matching slot |
| LogFS.Driver.ReadRecord | src/fs/logfs.c:347-398 | reads and validates the record at the log end, exactly as the record format says |
| LogFS.Driver.ReplayRecord | src/fs/logfs.c:347-412 | one turn of the replay loop has exactly the effect of one replay step on the tables, and none on the device |
| LogFS.Driver.ReplayLog | src/fs/logfs.c:516-535 | the loop leaves the tables of the whole replay |
| LogFS.Driver.Mount | src/fs/logfs.c:480-543 | mount succeeds exactly on acceptable superblocks and leaves exactly the tables that the image defines |
| LogFS.Driver.AppendRecord | src/fs/logfs.c:414-478 | a record is written whole at the log end, or, when it does not fit, nothing changes |
| LogFS.Driver.CreateFile | src/fs/logfs.c:624-661 | the method has exactly the outcome, device bytes and tables of the create specification, a consumed id included |
| LogFS.Driver.AppendFile | src/fs/logfs.c:663-702 | the method has exactly the outcome, device bytes and tables of the append specification, the overflow case included |
| LogFS.Driver.CollectSegments | src/fs/logfs.c:741-783 | the loop over the segment table copies exactly the requested slice of the file, whatever other files' segments lie between |
| LogFS.Driver.ReadFilePart | src/fs/logfs.c:717-786 | a partial read returns the clamped slice of the file's bytes and its length, and fails exactly for a missing file or an offset past the end |
| LogFS.Driver.ReadFile | src/fs/logfs.c:704-715 | a whole read returns all bytes of the file, and fails exactly when it is missing or larger than the buffer |
| Virtqueue.LayoutDisjoint | src/drivers/virtqueue.c:26-68 | the three areas of the queue page are aligned, disjoint and inside the page for every accepted size |
| Virtqueue.AcceptedSizes | src/drivers/virtqueue.c:26-58 | the sizes whose queue fits a page are exactly those up to 157 |
| Virtqueue.OddSizeAccepted | src/drivers/virtqueue.c:26-58 | an accepted size that does not divide 65536 |
| Virtqueue.Queue.Init | src/drivers/virtqueue.c:26-79 | init accepts exactly the sizes from 1 to 157 (given a page), and leaves every descriptor free and both rings zero |
| Virtqueue.Queue.AllocDesc | src/drivers/virtqueue.c:81-96 | the in-place allocation is the free-list allocation on the descriptor table |
| Virtqueue.Queue.FreeDesc | src/drivers/virtqueue.c:98-104 | the in-place free is the free-list free on the descriptor table |
| Virtqueue.Queue.Submit | src/drivers/virtqueue.c:106-116 | submit is one step of the ring: slot, then 16-bit index |
| Virtqueue.Queue.PopUsed | src/drivers/virtqueue.c:118-137 | pop is one step of the ring and answers nothing exactly when the used index was reached |
| FreeList.FreshTable | src/drivers/virtqueue.c:60-79 | the chain threaded by init makes every descriptor free |
| FreeList.AllocOwnership | src/drivers/virtqueue.c:81-96 | allocation fails exactly when nothing is free, otherwise hands out a free descriptor and changes no other ownership, the stale head of an empty list included |
| FreeList.FreeOwnership | src/drivers/virtqueue.c:98-104 | freeing an owned descriptor puts it in front of the free list and removes only it from the allocated set |
| FreeList.OwnershipCount | src/drivers/virtqueue.c:81-104 | allocated and free descriptors always add up to the queue size |
| FreeList.RunRefinesSet | src/drivers/virtqueue.c:81-104 | any interleaving of allocations and frees of owned descriptors refines a set of owned descriptors, draining to empty included |
| FreeList.DrainRun | src/drivers/virtqueue.c:81-96 | from any table as many allocations succeed as there are free descriptors, and the next one fails |
| VirtRing.SlotsApartIff | src/drivers/virtqueue.c:106-137 | entries that can be outstanding together fall into distinct slots across the 16-bit wrap if and only if the size divides 65536 |
| VirtRing.SubmitCoupled | src/drivers/virtqueue.c:106-116 | submitting a head that is not outstanding keeps rings and history in agreement |
| VirtRing.TakeCoupled | src/drivers/virtqueue.c:106-116 | the device finds exactly the untaken heads, in submission order |
| VirtRing.PostCoupled | src/drivers/virtqueue.c:118-137 | the device may complete any chain it holds, in any order |
| VirtRing.PopCoupled | src/drivers/virtqueue.c:118-137 | the driver finds exactly the unpopped completions, in posting order |
| VirtRing.RunFaithful | src/drivers/virtqueue.c:106-137 | over runs of any length every submitted head reaches the device once and every posted completion is popped once, in order, with at most `size` chains outstanding |
| VirtRing.DeliveryIff | src/drivers/virtqueue.c:106-137 | all runs from initialisation deliver heads and completions in order if and only if the size divides 65536 |
| VirtRing.WrapBreaks | src/drivers/virtqueue.c:106-137 | for every other size, a run in which the device reads a head that is not the next one submitted |
| VirtioBlk.AcceptsIff | src/drivers/virtio_blk.c:114-134 | the guards accept exactly the non-empty transfers inside an initialised device whose byte count does not wrap |
| VirtioBlk.DataLengthIff | src/drivers/virtio_blk.c:185 | the length given to the device is the transfer's length if and only if the transfer is below 2^23 sectors, because of the cast to 32 bits |
| VirtioBlk.LengthVanishes | src/drivers/virtio_blk.c:185 | an accepted transfer of 2^23 sectors asks the device for no byte |
| VirtioBlk.DeviceSeesRequest | src/drivers/virtio_blk.c:163-196 | following the links from the submitted head the device finds the header with type and sector, the data in the right direction with the length modulo 2^32, and the writable status byte, readable buffers first |
| VirtioBlk.AllocThree | src/drivers/virtio_blk.c:141-159 | with all descriptors free the three allocations succeed with distinct descriptors |
| VirtioBlk.BeginInv | src/drivers/virtio_blk.c:134-202 | a transfer starts exactly when it is accepted and none is pending, and then owns, writes and submits exactly one header-data-status chain |
| VirtioBlk.CompleteEffect | src/drivers/virtio_blk.c:64-82 | whatever is in the used ring, completion pops all of it and ends the request exactly when an element names its head, after which all 8 descriptors are free |
| VirtioBlk.NoDescriptorLeak | src/drivers/virtio_blk.c:57-208 | against any device, in every reachable state the driver holds one chain exactly while busy and all 8 descriptors are free otherwise |
| VirtioBlk.RequestsCompleteOnce | src/drivers/virtio_blk.c:57-208 | with a device that follows the standard every accepted request is completed exactly once |
| VirtioBlk.RoundTrip | src/drivers/virtio_blk.c:57-208 | a request to an idle driver, taken and completed by the device, ends at the next look at the used ring, with the length the device reported |
| VirtioBlk.EveryRun | src/drivers/virtio_blk.c:57-208 | both hold for every run from initialisation |
| VirtioBlk.Driver.AllocChain | src/drivers/virtio_blk.c:141-159 | the method allocates the chain of the specification; its failure branch is unreachable |
| VirtioBlk.Driver.StartTransfer | src/drivers/virtio_blk.c:101-202 | the locked part of a transfer is refused or carried out exactly as the request protocol says |
| VirtioBlk.Driver.CompleteUsed | src/drivers/virtio_blk.c:64-82 | the completion loop has exactly the effect of the completion step |
| VirtioInput.PollKeepsFull | src/drivers/virtio_input.c:179-200 | polling handles each posted completion once, in posting order, and leaves all 32 buffers with the device again |
| VirtioInput.RunServing | src/drivers/virtio_input.c:179-200 | over any interleaving of device takes, device completions and polls the queue stays full and every completion is handled once, in posting order |
| VirtioInput.FilledServes | src/drivers/virtio_input.c:179-263 | the same from the state that initialisation leaves, and the k-th buffer handled is the one that the device filled for its k-th completion |
| VirtioInput.Device.FillQueue | src/drivers/virtio_input.c:245-263 | initialisation gives every slot a descriptor that hands the slot's own event buffer to the device, 8 bytes to be written, and submits all of them; the allocation-failure branch is unreachable |
| VirtioInput.Device.PollDevice | src/drivers/virtio_input.c:179-200 | the polling loop has exactly the effect of the polling step and changes no descriptor |
| SchedulerModel.PickNearest | src/kernel/task.c:46-69 | the READY task at the smallest cyclic distance is picked; the kernel task or nobody only when no table task is READY |
| SchedulerModel.PickOrder | src/kernel/task.c:46-69 | in slot numbers: the first READY slot above the current one, else the first from 0 up to the current one, else the kernel task unless it is current |
| SchedulerModel.ScheduleEffect | src/kernel/task.c:182-207 | a switch resumes a READY task with the frame it was suspended at, saves the current frame, demotes RUNNING to READY and touches no other task |
| SchedulerModel.ScheduleInvIff | src/kernel/task.c:182-207 | the invariant survives a decision if and only if the caller lets the current task continue, or it is not RUNNING, or it is the kernel task and no table task is READY |
| SchedulerModel.TwoRunning | src/kernel/task.c:182-207 | a decision that forbids the current task to continue and leaves two tasks RUNNING |
| SchedulerModel.ExitEffect | src/kernel/task.c:209-241 | an exit finishes the current table task and resumes another; the null branch is never taken |
| SchedulerModel.FinishEffect | src/kernel/task.c:71-74 | the return of an entry function finishes the current task, which keeps its stack pointer, and changes no other |
| SchedulerModel.EndedForGood | src/kernel/task.c:71-241 | once its entry function has returned or it has called exit, a table task is FINISHED and no continuation of the run resumes it |
| SchedulerModel.CreateEffect | src/kernel/task.c:116-150 | creation makes the lowest unused slot READY on its prepared stack and changes nothing else; it fails exactly without a slot or a stack |
| SchedulerModel.RunSafe | src/kernel/task.c:71-241 | in every reachable state at most one task runs, it is the current one, and what has finished stays finished |
| SchedulerModel.BoundedWait | src/kernel/task.c:46-241 | a table task that stays READY sees fewer decisions than its cyclic distance, hence runs by the eighth decision whatever the others do |
| SchedulerModel.BoundReached | src/kernel/task.c:46-207 | the bound is tight: with all eight slots taken a task waits through seven decisions |
| SchedulerModel.ContextIntegrity | src/kernel/task.c:76-241 | in every run a resumed task gets the frame at which it was last suspended or, the first time, its prepared initial frame |
| SchedulerModel.FrameInStack | src/kernel/task.c:76-92 | the prepared frame lies aligned inside the task's own stack |
| SchedulerModel.PreparedStart | src/kernel/task.c:76-92 | a task first starts in the trampoline, on its empty stack, at EL1 with its own stack pointer, with the creator's interrupt mask and zero registers |
| SchedulerModel.EveryRun | src/kernel/task.c:46-241 | invariant, context integrity and bounded wait for every run from initialisation |
| Scheduler.Kernel.PickNextTask | src/kernel/task.c:46-69 | the search loop picks as the specification does |
| Scheduler.Kernel.ScheduleFromException | src/kernel/task.c:182-207 | the method has exactly the state and resumed frame of the switch specification |
| Scheduler.Kernel.ExitFromException | src/kernel/task.c:209-241 | the method has exactly the state and resumed frame of the exit specification, and stores the status in the frame of the kernel task only |
| Scheduler.Kernel.MarkCurrentFinished | src/kernel/task.c:71-100 | the current task becomes FINISHED with its stack pointer kept, and no other task changes |
| Scheduler.Kernel.CreateTask | src/kernel/task.c:76-150 | creation takes the first unused slot and writes the prepared frame to its stack, or changes nothing when there is no slot or no memory |
| ElfFormat.PassOneExtent | src/kernel/user.c:524-596 | after a successful first pass every loadable segment, rounded to pages, lies in the page-aligned extent inside the user range |
| ElfFormat.LastPageCheck | src/kernel/user.c:633-640 | the page check of the second pass, with its cast to 32 bits, refuses exactly the segments whose rounded end wrapped to 0 |
| ElfFormat.ImageBytes | src/kernel/user.c:605-671 | after the segments are placed in header order each byte is the one the last covering segment asks for, or zero |
| UserLoader.LoadedImage | src/kernel/user.c:501-696 | every byte of an accepted image is the file byte or zero of the last PT_LOAD covering it, zero if none does; page flags follow the writable segments; the entry point lies in a segment |
| UserLoader.WrappedRefused | src/kernel/user.c:562-640 | a program with a segment whose page rounding wraps is always refused |
| ElfFields.AcceptedIff | src/kernel/user.c:403-676 | in the fields of the file: accepted exactly when the identification, type, machine, version and sizes are right, the header table lies inside the file, every loadable segment lies inside the file and, rounded, inside the user range, and one of them covers the entry |
| ElfFields.LoadedFields | src/kernel/user.c:501-696 | what an accepted file becomes, in its fields: the least range of pages holding its segments, each byte that of the last segment covering it or zero, a page writable when a writable segment has a byte in it, and the entry point |
| ElfFields.TwoLoaded | src/kernel/user.c:501-696 | a file with a text and a data segment, byte for byte, and the two pages it becomes |
| UserLoader.CopyFileRange | src/kernel/user.c:285-357 | the chunked, page-split copy equals one flat copy into the image and writes no other page; it fails exactly when the file is too short or the destination leaves the image |
| UserLoader.ZeroRange | src/kernel/user.c:359-394 | the page-split clear equals one flat clear of the image and writes no other page; it fails exactly when the range leaves the image |
| UserLoader.LoadSegment | src/kernel/user.c:650-670 | one segment is placed as its file bytes followed by zeros |
| UserLoader.FirstPass | src/kernel/user.c:524-580 | the loop computes the extent of the first-pass specification, or its refusal |
| UserLoader.AllocPages | src/kernel/user.c:127-143 | pages handed out are cleared and no others are touched; it fails exactly when the allocator runs out |
| UserLoader.SecondPass | src/kernel/user.c:605-676 | the loop accepts exactly when every page check passes and the entry is covered, and then has placed every segment and flag |
| UserLoader.RunElf | src/kernel/user.c:501-696 | the loader succeeds exactly when the specification accepts the file and there is a page for each page of the image and one for the stack, and then leaves exactly the image and flags; in every case it writes no page outside the extent of the program |
| TranslationTables.KernelTranslations | src/arch/aarch64/mmu.c:139-190 | for every address from 2 MiB up to 2^39 the table walk is the identity on RAM, the device blocks and the ECAM and faults elsewhere, whatever the user table holds |
| TranslationTables.KernelMap | src/arch/aarch64/mmu.c:139-190 | in numbers: the addresses from 2 MiB on that are mapped, each to itself, with access flag, memory type, shareability and the right to execute |
| TranslationTables.FreshTranslations | src/arch/aarch64/mmu.c:139-190 | right after the tables are built nothing below 2 MiB is mapped |
| TranslationTables.ProgramTranslations | src/kernel/user.c:157-171 | after the mapping loop every image address translates to its program page plus offset, the stack page to its own page, and every other translation is unchanged |
| TranslationTables.WriteOrExecute | src/arch/aarch64/mmu.c:252-273 | EL0 reads every user page, writes the data pages and executes the others, never both, and the kernel executes none |
| TranslationTables.UserMemoryType | src/arch/aarch64/mmu.c:252-273 | user pages are accessible, inner-shareable write-back memory |
| TranslationTables.UserIsolation | src/arch/aarch64/mmu.c:139-273 | whatever programs have run since the tables were built, at every address below 2^39 EL0 reads exactly the user pages mapped so far and writes exactly the writable ones; it may execute the others and, because the kernel's blocks do not forbid it, all of RAM |
| Mmu.Tables.BuildTables | src/arch/aarch64/mmu.c:139-190 | the writes leave exactly the specified five tables |
| Mmu.Tables.MapBlocks | src/arch/aarch64/mmu.c:166-190 | the loop maps exactly the 2 MiB blocks of its range |
| Mmu.Tables.MapUserPage | src/arch/aarch64/mmu.c:192-201 | one user-table entry is replaced, the rest kept |
| Mmu.Tables.MapLoadedPages | src/kernel/user.c:145-193 | the mapping loop and the stack mapping leave exactly the specified user table |
| UserMemory.ProgramSeesItsSegments | src/kernel/user.c:145-696 | with its image in the mapped pages, a program reads at every image address the byte its last covering segment asks for, can write exactly the pages touched by a writable segment, and can execute exactly the other pages |
| UserMemory.ExecutableIff | src/kernel/user.c:157-169 | a page of an accepted program can be executed exactly when no writable segment touches it |
| UserMemory.EntryExecutableIff | src/kernel/user.c:157-169 | the first instruction of an accepted program can be fetched if and only if no segment with the write flag touches its page |
| UserMemory.ExecFlagsHonouredIff | src/kernel/user.c:643-649 | every page asked for with the execute flag can be executed if and only if none is also touched by a writable segment, and nothing else can be executed if and only if every page belongs to a segment to be executed or written |
| UserMemory.RwxCannotStart | src/kernel/user.c:501-696 | a concrete 120-byte program whose one segment has all three flags: it is accepted and its first instruction cannot be fetched |
| UserMemory.HeldPagesApart | src/kernel/user.c:127-143 | pages held by one client of the page allocator at the same time are distinct, aligned pages of RAM |
| UserMemory.FramesHaveMemory | src/kernel/user.c:127-143 | distinct pages can hold all the frames at once |
| UserMemory.LoadedProgramRuns | src/kernel/user.c:145-696 | end to end: what the loader put into pages held from the page allocator is what the running program reads through the tables; it can write exactly the pages of its writable segments and execute exactly the others |
| TinyFormat.BuildImage | tools/mktinyfs.py:44-77 | the packer's loop builds exactly the specified image |
| TinyFormat.PackFiles | tools/mktinyfs.py:50-62 | entries and padded contents grow together, each entry pointing at its contents |
| TinyFormat.ImageFields | tools/mktinyfs.py:44-77 | which bytes of the packed image hold what: the superblock fields, each entry with its padded name, offset and size, and the contents at these offsets, each start rounded up to a block |
| TinyFormat.MountedIff | src/fs/tinyfs.c:58-105 | a device is mounted exactly when it has the magic number, version 1, at most 16 files and every entry inside; the table holds the fields of the entries |
| TinyFormat.Find | src/fs/tinyfs.c:123-141 | the search returns the first entry of that name, or none when no entry has it |
| TinyFormat.MountRoundTrip | src/fs/tinyfs.c:58-105 | mounting a packed image gives exactly the packed entries, and is refused exactly when there are more than 16 |
| TinyFormat.ReadRoundTrip | src/fs/tinyfs.c:123-199 | every packed file is found and read exactly as packed: in whole always, in part if and only if the part starts in the first 4 GiB of the image; of any other part the start wraps, and the bytes 4 GiB before it are delivered |
| TinyFormat.LastPartWraps | src/fs/tinyfs.c:171-199 | an instance: one byte of a packed file of 2^32 - 1 zeros reads as the first byte of the superblock |
| TinyFS.Driver.Mount | src/fs/tinyfs.c:58-105 | mount succeeds exactly when block size, header and table are acceptable, and leaves the table of the device; a failed mount leaves nothing mounted |
| TinyFS.Driver.FindFile | src/fs/tinyfs.c:123-141 | the loop finds as the specification does, and nothing before a mount |
| TinyFS.Driver.ReadFile | src/fs/tinyfs.c:153-169 | delivers the whole file, or fails, and never writes past the caller's size |
| TinyFS.Driver.ReadFilePart | src/fs/tinyfs.c:171-199 | delivers the clamped part, or fails, and never writes past the caller's size |
| Paths.NormalizePath | src/fs/vfs.c:13-85 | the one-pass normalisation in a 64-byte buffer gives the join of the non-empty segments, and fails exactly for a dot segment, a join over 63 bytes, or an unwanted root |
| Paths.FitsMeaning | src/fs/vfs.c:13-85 | the components refused are exactly "." and "..", and the longest accepted path has 63 bytes |
| Paths.NormalizeIdempotent | src/fs/vfs.c:383-429 | normalising a second time changes nothing |
| Paths.NormalForm | src/fs/vfs.c:13-85 | a normalised path has no empty segment, no slash at its ends and fits its buffer |
| Paths.SegmentsOfJoin | src/fs/vfs.c:39-81 | splitting a joined path gives its components back |
| Paths.ChildOfComponents | src/fs/vfs.c:102-148 | the text comparison shows a child exactly for names properly below the directory: the next component, as a directory exactly when more follow |
| Vfs.RowDecides | src/fs/vfs.c:87-100 | testing the terminator and comparing the bytes decides equality of names, whatever stale bytes follow |
| Vfs.NameSeen | src/fs/vfs.c:87-100 | the search answers whether the name was reported before |
| Vfs.CollectChildName | src/fs/vfs.c:102-148 | the method gives the child that the directory sees |
| Vfs.Root.DirectoryExists | src/fs/vfs.c:150-183 | true exactly for the root and for directories some stored name lies below |
| Vfs.Root.Stat | src/fs/vfs.c:317-381 | leaves in the static result the answer of the stat specification, or leaves it alone and fails |
| Vfs.Root.ListEntries | src/fs/vfs.c:257-315 | reports the specified listing, cut off where the callback asks to stop |
| Vfs.Root.ReadFile | src/fs/vfs.c:383-405 | reads by path as specified, and never writes past the caller's size |
| Vfs.Root.ReadFilePart | src/fs/vfs.c:407-429 | reads part of a file by path as specified, and never writes past the caller's size |
| VfsTree.StatMeaning | src/fs/vfs.c:317-381 | stat says file exactly for spellings of stored names, and directory exactly for the root and proper component prefixes of stored names that are not stored names themselves |
| VfsTree.DirectoriesIff | src/fs/vfs.c:317-381 | stat says directory exactly for the root and the proper component prefixes, at every path, if and only if no stored name is a proper prefix of another |
| VfsTree.StatFile | src/fs/vfs.c:341-348 | every spelling of a stored name stats with the name, size and flags of the first file of that name |
| VfsTree.ListableIff | src/fs/vfs.c:257-269 | listing works exactly on the root and the proper component prefixes of stored names |
| VfsTree.ListingMeaning | src/fs/vfs.c:257-315 | a listing reports each immediate child exactly once, and in an ordered table each listed child stats with the size and kind it was listed with |
| VfsTree.AgreementIff | src/fs/vfs.c:257-381 | listing and stat agree about every child of every directory if and only if no name follows, for the first time, an entry that lies below it |
| VfsTree.OverlapDisagrees | src/fs/vfs.c:257-381 | a concrete table whose listing and stat disagree about one name |
| VfsTree.OnlyNormalNamesFound | src/fs/vfs.c:317-348 | no path leads to a stored name that is not in normal form |
| VfsTree.ReadByPath | src/fs/vfs.c:383-429 | reading by any spelling of a stored name reads the first file of that name, and reading anything else fails |
| VfsTree.PackMountRead | src/fs/vfs.c:383-429 | a packed directory, mounted and read by any spelling of a path, gives the packed contents back, a part of them when it starts in the first 4 GiB of the image |
| TinyLiteral.LiteralImage | tools/mktinyfs.py:44-77 | byte for byte, the packed image of two small files; and what mounting these bytes finds |
| TinyLiteral.LiteralTree | src/fs/vfs.c:257-429 | what path reads, stat and a listing of the root answer on that image |
| FileLayer.ReadOnce | src/fs/file.c:36-65 | a read delivers the next bytes and advances past them, unless the count does not fit a C int: then it fails although the bytes were delivered |
| FileLayer.ChunkedRead | src/fs/file.c:36-65 | reads in chunks of any sizes return the contents from the handle's offset on exactly when the count of every chunk fits a C int, and fail otherwise |
| FileLayer.PackMountOpenRead | src/fs/file.c:9-65 | packed, mounted, opened by any spelling and read in chunks that start in the first 4 GiB of the image, a file gives the packed contents back exactly when the count of every chunk fits a C int |
| FileLayer.PackedReadBack | src/fs/file.c:9-65 | for files that end in the first 4 GiB and chunks or files below 2 GiB there is nothing left to check: the packed contents come back |
| FileLayer.OpenedMeaning | src/fs/file.c:9-34 | opening prepares a used handle at offset 0 with the name, size and flags of stat, exactly for a path that stats as no directory |
| FileLayer.ClosedUnused | src/fs/file.c:36-90 | nothing can be read through a closed handle, and the next open can take it |
| FileLayer.SlotsInOrder | src/fs/file.c:9-34 | from a fresh table files open in the slots 0 to 7 in order, and the ninth open fails |
| FileLayer.Table.Open | src/fs/file.c:9-34 | opening takes the lowest unused handle, exactly when the path stats as a file and one is unused, and changes no other handle |
| FileLayer.Table.ReadFile | src/fs/file.c:36-65 | answers as the read specification and moves only this handle's offset |
| FileLayer.Table.Seek | src/fs/file.c:67-76 | succeeds exactly on an open handle up to its size and moves only its offset |
| FileLayer.Table.Close | src/fs/file.c:78-90 | resets one handle and no other |
| Words.BitWeight | src/mm/pmm.c:40-58 | setting or clearing a bit adds or removes exactly its weight |
| Words.SetOne | src/mm/pmm.c:40-48 | setting one bit of a word changes the test of that bit only |
| Words.ClearOne | src/mm/pmm.c:50-58 | clearing one bit of a word changes the test of that bit only |
| Pmm.MarkedAfterSet | src/mm/pmm.c:40-48 | setting a page's bit adds just that page to the marked ones |
| Pmm.VisitedAll | src/mm/pmm.c:69-91 | the walk over a range visits exactly the pages that touch it |
| Pmm.Allocator.ReserveRange | src/mm/pmm.c:69-91 | exactly the pages with a byte in the range become used, and the counter stays the number of used pages |
| Pmm.Allocator.Init | src/mm/pmm.c:93-128 | after the first initialisation the used pages are exactly those in which the kernel or the bitmap has a byte; a second one changes nothing |
| Pmm.Allocator.AllocPage | src/mm/pmm.c:130-149 | returns the address of the lowest free page and marks only it, or 0 exactly when all are used; the counter stays the number of set bits |
| Pmm.Allocator.FreePage | src/mm/pmm.c:151-182 | frees exactly the used page at the address, or panics for the right reason with nothing changed |
| Pmm.Allocator.FreePages | src/mm/pmm.c:190-194 | the difference of the counters is the number of free pages |
| PageModel.FreedIff | src/mm/pmm.c:151-182 | freeing succeeds exactly on the address of a used page |
| PageModel.StepEffect | src/mm/pmm.c:130-182 | an allocation hands out the lowest free page and fails exactly when none is free; a free of a held page makes just that page free |
| PageModel.ReservedBytes | src/mm/pmm.c:69-119 | the reserved pages are exactly the pages of RAM in which the kernel image or the bitmap has a byte |
| PageModel.RunOwned | src/mm/pmm.c:130-182 | in every run of allocations and owned frees no page is held twice, none is a reserved one, and the used pages are exactly the reserved and the held ones |
| PageModel.EveryRun | src/mm/pmm.c:93-182 | the same from initialisation |
| PageModel.KernelNeverHandedOut | src/mm/pmm.c:93-149 | in every run from initialisation no page held, and none that the next allocation hands out, has a byte of the kernel or of the bitmap, and every page used right after initialisation has one |
| PageModel.ReservedExample | src/mm/pmm.c:93-119 | in 128 MiB of RAM a kernel of half a MiB and the bitmap reserve 129 pages |
| PageModel.Accounting | src/mm/pmm.c:130-200 | the used count is reserved plus held pages, and allocation fails exactly when together they fill RAM |
| TextEditor.EditsUndo | src/desktop/text_editor_app.c:104-143 | backspace undoes an insertion and an insertion undoes a backspace |
| TextEditor.InsertedIs | src/desktop/text_editor_app.c:104-124 | character by character: the new one at the cursor, those before it in place, those after it one further |
| TextEditor.ErasedIs | src/desktop/text_editor_app.c:126-143 | character by character: the one before the cursor is gone, those before it in place, those after it one nearer |
| TextEditor.Editor.InsertChar | src/desktop/text_editor_app.c:104-124 | inserts at the cursor by shifting in place, or is refused exactly when the buffer is full |
| TextEditor.Editor.Backspace | src/desktop/text_editor_app.c:126-143 | removes the character before the cursor by shifting in place |
| TextEditor.Editor.FindLineStart | src/desktop/text_editor_app.c:145-188 | the loop computes the backward scan |
| TextEditor.Editor.FindNextLineStart | src/desktop/text_editor_app.c:200-228 | the loop computes the forward scan |
| TextEditor.Editor.MeasureLine | src/desktop/text_editor_app.c:230-248 | the loop computes the row length |
| TextEditor.Editor.CursorPrevLine | src/desktop/text_editor_app.c:250-272 | the move is the specified one and never raises the cursor |
| TextEditor.Editor.CursorNextLine | src/desktop/text_editor_app.c:274-296 | the move is the specified one, stays in the text and, with columns, never lowers the cursor |
| RowScan.ScannersAgree | src/desktop/text_editor_app.c:145-228 | the backward scanner answers the position itself at the start and after a newline, and otherwise the last row start before it among those the forward scanner generates |
| RowScan.LengthMeaning | src/desktop/text_editor_app.c:230-248 | the row length counts the characters up to a newline, the end or the row width |
| RowScan.UpLowers | src/desktop/text_editor_app.c:250-272 | Up strictly lowers the cursor exactly when the row start found is not 0 |
| RowScan.UpLands | src/desktop/text_editor_app.c:250-272 | Up leaves the cursor alone in the first row and otherwise goes to the row of the position before its row start, in the same column or at the end of a shorter row |
| RowScan.UpRowIsAboveIff | src/desktop/text_editor_app.c:190-272 | that row is the one just above if and only if the row above has more than one position or begins a line |
| RowScan.DownLands | src/desktop/text_editor_app.c:274-296 | Down goes to the first row after the cursor's own, in the same column or at the end of a shorter row |
| RowScan.DownUndoesUpIff | src/desktop/text_editor_app.c:250-296 | Down undoes Up if and only if the row above is not passed over, is as long as the cursor's column, and is entered past its start or begins a line |
| RowScan.DownKeeps | src/desktop/text_editor_app.c:274-296 | Down never passes the end, and never lowers the cursor if and only if there are columns or the cursor is at 0 |
| RowScan.DownStuckIff | src/desktop/text_editor_app.c:274-296 | Down leaves the cursor in place exactly at the end of the text and at the end of a full row that a newline follows |
| RowScan.DownCanStick | src/desktop/text_editor_app.c:274-296 | a concrete text in which Down cannot leave a full row although another row follows |

## Left out

- LogChecksum.OneByteRefused: leaves out the four bytes of the payload size, which decide how many bytes are summed.
- LogChecksum.DamagedMount: the same.
- LogFS: null arguments; in-range device I/O always succeeds and every transfer is a single block; torn or partly failed
  writes, which the checksum cannot be proved to detect; log messages.
- LogRemount.RemountAfterWrite: requires that the next record does not overlap the 20-byte superblock (`LogApart`), as
  the first record of a device with blocks shorter than 20 bytes could.
- LogRemount.CreateSynced: the same.
- LogRemount.AppendSynced: the same.
- LogRun.StepSynced: the same.
- LogRun.RunSyncedIff: the same.
- LogRun.OverflowFreezes: the same.
- LogFS.Driver.CollectSegments: requires well-formed tables; on others the copied pieces can exceed the request.
- LogFS.Driver.ReadFilePart: requires well-formed tables, which every mount establishes and every operation keeps unless
  a created file takes an id in use (see `CreateSynced`).
- LogFS.Driver.ReadFile: requires well-formed tables, for the same reason.
- Virtqueue: device registers, barriers and cache maintenance; the event-suppression fields.
- VirtRing.RunFaithful: requires a size that divides 65536, the exact condition of `DeliveryIff`.
- VirtioBlk: one call of the completion loop is an atomic step, although the interrupt handler runs it without the lock;
  the final check of the status byte, and its attribution under preemption.
- VirtioInput: what an event does to the cursor and the event ring.
- Scheduler: task creation is atomic, the stack allocation, the trampoline's address and the interrupt mask are
  parameters; progress of the kernel task, which can starve; reuse of finished slots, which the code never does.
- UserLoader: a file is its byte sequence and page allocation is a parameter; the flat-binary loader and the entry to
  EL0; pages given to an earlier program stay mapped above a smaller later one, as in the code.
- UserLoader: the pages that a refused program was given are not returned, as in the code.
- UserLoader.CopyFileRange: offsets from the image base stay below 2^44, so that page numbers fit the 32 bits to which
  the code casts them.
- UserLoader.ZeroRange: the same.
- UserLoader.StoreChunk: the same.
- TranslationTables: bitwise-or of disjoint descriptor fields is written as a sum; TLB and cache maintenance; constants
  are those of the qemu-virt platform; SCTLR_EL1.WXN, which the code leaves as it finds it, is taken as clear.
- TinyFormat: the directory walk and the argument checks of the packer; `Packable` holds the checks on names and the
  32-bit limits of the entry format.
- Vfs: null arguments; the printing variant `vfs_list`, whose loop is that of `vfs_list_entries`; a listing callback is
  represented by the call at which it asks to stop.
- VfsTree.StatMeaning: for tables whose names are all in normal form and without the directory flag, as the packer
  writes them; a name such as "a//b" is mounted too, but no path reaches it (`OnlyNormalNamesFound`).
- VfsTree.StatFile: the same tables.
- VfsTree.ListableIff: the same tables.
- VfsTree.ListingMeaning: the same tables.
- VfsTree.AgreementIff: the same tables.
- VfsTree.DirectoriesIff: the same tables.
- VfsTree.ReadByPath: the same tables.
- FileLayer: null arguments; a handle is its index.
- FileLayer.ChunkedRead: requires that chunks which deliver something start below the given limit, for a packed file
  4 GiB into the image; a later part is read from the wrong place (see `ReadRoundTrip`).
- FileLayer.PackMountOpenRead: the same.
- Pmm: the bitmap is an array of its own instead of the memory behind the kernel; or, and and complement with one bit
  are written on the word's value; RAM is whole pages and holds the kernel and the bitmap (`LayoutOk`); a panic is an
  outcome.
- Pmm: disjointness from the kernel heap, which the code does not provide.
- TextEditor: drawing, file loading and saving, instances and status messages.
- Not modelled at all: drawing, console, window manager, shell, initramfs, interrupt controller, timers, PCI, UART,
  string routines, the kernel heap.
