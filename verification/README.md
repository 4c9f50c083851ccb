# A model of MO-VM in Dafny

MO-VM is a small KVM hypervisor.  This project models the parts of it whose correctness takes an
argument, and proves what they promise.

| modules | what they model |
|---|---|
| `Words`, `GuestMemory`, `WriteLog` | machine words, guest memory as the vm-memory crate presents it, sequences of writes |
| `KernelLoader`, `PageWalk`, `PageTables`, `Bootloader`, `BootImage`, `BootLayout` | the boot image: ELF segments, page tables, zero page, command line, boot sector, interrupt vectors |
| `VcpuProtocol`, `ProtocolSafety`, `ProtocolShutdown`, `ProtocolCauses` | vCPU threads, monitor and `stop` as a transition system for any number of vCPUs |
| `MemoryLayout`, `SnapshotMemory`, `Records`, `RecordOrder`, `RecordVisitors`, `RecordTheorems`, `RecordPanics`, `Snapshot` | snapshots: chunked memory save and restore, the record decoders, the way from one machine to another |
| `Virtqueue`, `HostFile`, `Block`, `BlockDisk`, `BlockPoints`, `BlockSectors`, `BlockRequests`, `Console`, `Net`, `Fs` | virtio queue processing and the disk behind virtio-blk |
| `Mmio`, `Attach`, `Acl` | the MMIO register window, device attachment and dispatch, the ACL decision |

`dafny verify dfyconfig.toml` checks all of it.

## How the source is read

- Arithmetic wraps, as in the release build the project's own instructions ask for (`README.md:71`).
  Where a debug build would panic on overflow the model wraps.  Panics that a release build keeps
  (slice bounds, `unwrap`, `assert_eq!`) are outcomes of their own: `Panicked`, for decoders a fault that
  `Panics`, and for a vCPU thread a guest run that ends in `Panic`.
- Guest memory is a map from mapped addresses to bytes.  An access succeeds exactly when its first
  address and its whole range are mapped; one that runs off mapped memory still transfers the
  mapped prefix, which matters wherever the source drops the error.
- The imperative parts are methods on classes (`Ram`, `KernelLoader`, `SnapshotManager`, `Queue`,
  `VirtioBlock`, `VirtioConsole`, `VirtioNet`, `VirtioFs`, `VirtioMmioDevice`, `VirtualMachine`), each
  proved against a function on values; the lemmas are about those functions.
- Atomic accesses are the steps of the protocol.  The two flag loads of the thread loop are two steps.
  The environment may call `stop` concurrently, clear the running flag, and queue snapshot requests at
  any time.  That is more than the program itself does: `stop` borrows the machine exclusively, so
  nothing else in the repository calls it during `run`, and the safety results hold with and without it.
- A vCPU thread may panic in a guest run or in handling its exit: the writes to standard output are unwrapped
  (`vcpu.rs:156-157`), and so are the device locks (`vm.rs:392` and `400`), which a panic while one is held
  poisons.  The thread is then gone and both flags are as they were.  The thread scope passes the panic on
  once all threads are gone, so `run` unwinds instead of returning and the trailing `stop` is not reached.
- A guest run is two steps, its start and its return, and the return is a step the thread can always take.
  A vCPU that halts inside KVM (the interrupt controller is in the kernel, `vm.rs:138`) may never take it.
  `ShutdownCompletes` therefore speaks of guest runs that return; `NeverStuck` says when such a return is all
  that is left, and `ShutdownOnlyWaitsForGuests` what is reached when none comes.  The bound of
  `ShutdownIsBounded` counts steps and holds either way.
- A seek is refused from some offset on.  `lseek` itself refuses 2^63 and more; a file system that limits
  the size of its files refuses earlier.  The limit is a parameter of the disk, at most 2^63.
- The descriptors of a block chain are looked up in guest memory while the chain is served, so a request
  may change those still to come.  A chain is a function from guest memory at the lookups so far to the
  next descriptor; everything about chains and sessions holds for every such function.  Console, net and
  fs do not write to guest memory while they walk a chain; there a chain is a list.

## What turned out otherwise than the comments say

- Sector numbers: the request type and the sector are read at the same address (`block.rs:131-134` and
  `169-172`), whereas section 5.2.6 of VIRTIO 1.1 puts the sector 8 bytes further on.  Every IN offset is
  0 and every OUT offset 512 modulo 2^41 (`OffsetIsTypeTimes512`), so an accepted seek never leads a write
  to the first sector.  A refused seek is ignored, and the data lands at the old position.  The first
  sector is written if and only if some non-empty OUT names an offset the host refuses while the file
  stands in that sector (`FirstSectorWrittenExactly`); on every writable disk one request does it
  (`FirstSectorCanBeHit`).
- JSON snapshots: `README.md:40` promises vCPUs, memory and devices.  A snapshot with a device state does
  not come back from JSON; one without comes back, except that the reserved field of every MSR is cleared
  (`JsonRoundTrip`).  The files are in fact written with bincode (`snapshot.rs:979`), which hands a record
  over as a sequence, and the visitors accept only maps.
- Ctrl+C: `README.md:41` and the comments at `vm.rs:423-424` speak of a handler that clears the running flag.
  No source file installs one; the model keeps the clearing of the flag as a step of the environment.
- A panicking vCPU: `main.rs:185` says `run` blocks until Ctrl+C or a vCPU error.  A thread that panics raises no
  flag and sends no message.  Once every thread is gone, `run` can end on its own if and only if a flag is
  down (`RunEndsExactly`); when all threads panicked first, or there are none, it polls for ever
  (`AbandonedExactly`, `SinglePanicAbandons`).
- The comment at `kernel_loader.rs:127` speaks of RAM up to 4 GB; the entry written is 128 MB long
  (`ParamsGiveBootRecord`).
- The fixed kernel command line (`vm.rs:188`) announces interrupts 5 to 8 in a fixed order.  They are right
  exactly when every attachment that worked was made in its device's place in that order, failed ones
  counted (`CommandLineIsRightExactly`).
- The MMIO windows lie in guest RAM, where KVM reports no MMIO exit; a window has an address outside RAM exactly
  when memory ends below the end of the window (`WindowReachableExactly`), so with the fixed 128 MB none has.
- Nothing in the source makes a virtqueue ready, and the register window has no register for it
  (`mmio.rs:68-79`): every QueueNotify to block, console or net fails without effect, which their contracts
  state for a queue that is not ready.  What they state for a ready one is about the loops as written.
- An owner without an ACL entry is granted the empty and the full set of permissions and no other
  (`DownwardClosedExactly`).
- A 9P message of exactly 4 bytes passes the length check and is then indexed past its end
  (`Fs.VirtioFs.Process9p`).
- Tails of ELF segments between filesz and memsz are not cleared (`TailIsZeroExactly`, `TailIsNotCleared`).
- A vCPU record with a register image of the wrong length panics or is turned down, depending on the order of
  its fields (`VcpuPanicsExactly`, `PanicDependsOnOrder`).

## Model

| member | source | states |
|---|---|---|
| KernelLoader.KernelLoader.LoadKernel | rust-hypervisor/src/kernel_loader.rs:22-150 | memory and outcome, error and panic paths included, are those of issuing the segment writes, the boot writes and the final 16-byte read in order; when the two fields change |
| KernelLoader.CopySegments | rust-hypervisor/src/kernel_loader.rs:40-71 | the segment loop, with both range checks on the wrapped sum and the partial write of a segment that does not fit |
| KernelLoader.FileEndChecks | rust-hypervisor/src/kernel_loader.rs:43-50 | the checks on the wrapped sum pass exactly when the true end lies in the file |
| KernelLoader.FitsExactly | rust-hypervisor/src/kernel_loader.rs:52-62 | a write of no bytes is still refused at an unmapped address; any other succeeds exactly when every byte is mapped |
| KernelLoader.RunSegmentsExactly | rust-hypervisor/src/kernel_loader.rs:40-71 | the loop succeeds exactly when every PT_LOAD segment lies in the file and in memory, and then memory is those writes applied in order |
| KernelLoader.BuildBootStructures | rust-hypervisor/src/kernel_loader.rs:76-141 | page tables, command line and zero page are written in order, stopping at the first write that does not fit |
| KernelLoader.BuildTables | rust-hypervisor/src/kernel_loader.rs:76-113 | the six cleared pages, the PML4 entry and both loops |
| KernelLoader.FillPdpt | rust-hypervisor/src/kernel_loader.rs:92-101 | the loop over four PDPT entries issues exactly the PDPT writes |
| KernelLoader.FillPd | rust-hypervisor/src/kernel_loader.rs:103-113 | the loop over 2048 PD entries issues exactly the PD writes |
| KernelLoader.BootRunExactly | rust-hypervisor/src/kernel_loader.rs:76-141 | the boot writes all succeed if and only if tables, command line and zero page are in memory |
| KernelLoader.LoadExactly | rust-hypervisor/src/kernel_loader.rs:40-146 | loading succeeds if and only if all segments, the boot structures and 16 bytes at the entry point are in range; memory is then all writes applied in order |
| KernelLoader.SegmentOutcomeExactly | rust-hypervisor/src/kernel_loader.rs:41-62 | a PT_LOAD segment panics exactly when its wrapped end lies in the file below its start, and fails exactly when the wrapped end lies past the file or the segment is in the file but not in memory |
| KernelLoader.BadSegmentLeavesPrefix | rust-hypervisor/src/kernel_loader.rs:46-62 | a segment that is not loaded whole leaves the mapped prefix of its file part, nothing if the file does not hold it |
| KernelLoader.FailedSegmentsStop | rust-hypervisor/src/kernel_loader.rs:40-71 | the loop stops at the first segment it does not accept, all earlier ones in memory and no later one |
| KernelLoader.LoadPanicsExactly | rust-hypervisor/src/kernel_loader.rs:40-146 | loading panics exactly when the first bad segment wraps below its start, or all is in place but the 16 bytes at the entry point are not mapped |
| KernelLoader.LastSegmentWins | rust-hypervisor/src/kernel_loader.rs:40-71 | outside the boot structures each address ends with the file byte of the last PT_LOAD segment covering it |
| KernelLoader.UncoveredByteStays | rust-hypervisor/src/kernel_loader.rs:40-71 | an address outside the boot structures that no file part covers keeps its byte |
| KernelLoader.TailIsZeroExactly | rust-hypervisor/src/kernel_loader.rs:52-68 | the part of a segment between filesz and memsz reads as zero if and only if each byte of it is given a zero: by the boot structures where they lie, elsewhere by the last segment covering it, or by memory as it was where none does |
| BootImage.TailIsNotCleared | rust-hypervisor/src/kernel_loader.rs:52-113 | a segment from 0x8000 with no file part and memsz 0x2000 never reads as all zero, whatever memory held |
| PageTables.PdEntryValue | rust-hypervisor/src/kernel_loader.rs:106-107 | or-ing 0x83 into a 2 MB frame address is adding it |
| PageTables.PdptEntryValue | rust-hypervisor/src/kernel_loader.rs:94-95 | the PDPT entries point at four consecutive pages, present and writable |
| PageTables.Pml4EntryValue | rust-hypervisor/src/kernel_loader.rs:86-87 | the first PML4 entry points at the page after the PML4, present and writable |
| PageTables.TableBytes | rust-hypervisor/src/kernel_loader.rs:82-113 | the byte the table writes leave at each of the 0x6000 table addresses |
| PageTables.TablesMapIdentity | rust-hypervisor/src/kernel_loader.rs:76-113 | a 4-level walk over those bytes sends every address below 4 GB to itself, writable, and every address from 4 GB up to 2^48 to a not-present entry |
| BootImage.BootParamsFields | rust-hypervisor/src/kernel_loader.rs:122-137 | each field of the zero page survives the ones written after it |
| BootImage.ParamsGiveBootRecord | rust-hypervisor/src/kernel_loader.rs:115-141 | loader type, one E820 range [0, 128 MB) of RAM, and a pointer leading to the command line up to its first NUL are read back |
| BootImage.CStringUnique | rust-hypervisor/src/kernel_loader.rs:116-120 | at most one string can be read at the command-line pointer |
| BootImage.KernelBoots | rust-hypervisor/src/kernel_loader.rs:76-141 | for every accepted ELF file and command line, whatever the segments wrote, the final memory is identity mapped and holds the boot record |
| BootLayout.LoadedZeroPage | rust-hypervisor/src/kernel_loader.rs:122-141 | after every accepted load every byte of [0x7000, 0x8000) is what the six fields say, and zero outside them |
| BootLayout.LoadedCommandLine | rust-hypervisor/src/kernel_loader.rs:77-120 | the command line and its NUL stand at 0x10000 and the tables at 0x9000 map the identity |
| Bootloader.LoadBootloader | rust-hypervisor/src/bootloader.rs:12-29 | image, handlers and vectors are written in order, stopping at the first that does not fit |
| Bootloader.InstallMinimalBios | rust-hypervisor/src/bootloader.rs:32-65 | the handler writes and the loop over vectors |
| BootImage.BootloaderSucceedsExactly | rust-hypervisor/src/bootloader.rs:22-62 | success if and only if the image, both handlers and the four vectors are in memory |
| BootImage.BootloaderInstallsBios | rust-hypervisor/src/bootloader.rs:33-62 | vectors 0x10 and 0x13, 0x15, 0x16 decode to intact handlers at 0x1000 and 0x1010 |
| BootLayout.BootedMemory | rust-hypervisor/src/bootloader.rs:22-62 | after the boot loader the image is at 0x7c00, handlers and vectors are at their addresses byte for byte, and every other byte is as before |
| BootLayout.BootedZeroPage | rust-hypervisor/src/bootloader.rs:22-62 | after both loaders the zero page below 0x7c00 still is that page to the last byte, for images of any size |
| BootImage.BootStructuresSurvive | rust-hypervisor/src/bootloader.rs:22-62 | a boot sector of at most 0x1400 bytes leaves tables, command line and the used part of the zero page intact |
| BootImage.BootComposes | rust-hypervisor/src/bootloader.rs:22-62 | a boot sector of at most 0x1400 bytes on top of any loaded kernel keeps identity map, E820 record and command line, and installs the bios |
| BootImage.BootSectorBoundIsTight | rust-hypervisor/src/bootloader.rs:18-24 | every image of length n keeps the identity map if and only if n <= 0x1400 |
| ProtocolSafety.NextInv | rust-hypervisor/src/vm.rs:356-466 | every step of any thread, panics included, of the monitor, a concurrent stop and the environment keeps the invariant |
| ProtocolSafety.ReachableInv | rust-hypervisor/src/vm.rs:339-466 | every reachable state satisfies the invariant |
| ProtocolSafety.RunIsSafe | rust-hypervisor/src/vm.rs:339-466 | for any number of vCPUs and any interleaving: error flag only after a message, one message per thread, queued Stop only when not running, causes of every fall of the running flag, a thread leaves before a flag is down only by panicking, trailing stop sends nothing, and when run is over all threads are gone, the machine is not running, and run unwound exactly if a thread panicked |
| ProtocolSafety.FlagsOnlyFall | rust-hypervisor/src/vm.rs:339-345 | within a run `running` never comes back and `error_occurred` is never withdrawn |
| ProtocolCauses.OnlyFailuresAreReported | rust-hypervisor/src/vm.rs:388-418 | in every run a thread has sent an error only if one of its guest runs failed |
| ProtocolCauses.FailureIsReported | rust-hypervisor/src/vm.rs:411-416 | after a failed guest run the thread takes at most two more steps whatever else happens: the report, then the error flag |
| ProtocolCauses.OnlyPanicsPanic | rust-hypervisor/src/vm.rs:388-418 | in every run a thread counts as panicked only if one of its guest runs panicked |
| ProtocolCauses.MachineStaysUp | rust-hypervisor/src/vm.rs:370-445 | while no guest run fails or panics and nobody stops the machine, neither flag moves, no thread leaves and the monitor keeps polling |
| ProtocolCauses.ThreadRunsAgain | rust-hypervisor/src/vm.rs:370-410 | from anywhere in its loop, a returned guest run included, a thread left alone starts another guest run, after three steps per waiting request |
| ProtocolCauses.StopEndsThread | rust-hypervisor/src/vm.rs:372-374 | a thread that finds Stop first among its messages takes one more step and no other |
| ProtocolCauses.StopReachesEveryone | rust-hypervisor/src/vm.rs:455-466 | a whole call of stop lowers the flag and puts one Stop behind the messages of every thread; on a machine that is not running it does nothing |
| ProtocolCauses.RequestIsQueued | rust-hypervisor/src/vm.rs:349-353 | a request waits behind the messages already there |
| ProtocolCauses.PollTurn | rust-hypervisor/src/vm.rs:425-445 | a turn of the poll loop ends in joining with the running flag down if a report waits or a flag is down, and otherwise changes nothing |
| ProtocolShutdown.WorkAfterStop | rust-hypervisor/src/vm.rs:370-418 | once a flag is down each thread starts at most one more guest run, and only if it was past the load of that flag with no message waiting |
| ProtocolShutdown.CommittedThreadStarts | rust-hypervisor/src/vm.rs:370-388 | that one run does happen in some continuation, so the bound is exact |
| ProtocolShutdown.ShutdownIsBounded | rust-hypervisor/src/vm.rs:370-448 | once a flag is down threads and monitor take at most 8(N+1) more steps, whatever messages are pending |
| ProtocolShutdown.RankPaysForSteps | rust-hypervisor/src/vm.rs:370-448 | once a flag is down, the rank at the end of a run plus the thread and monitor steps taken never exceeds the rank at its start |
| ProtocolShutdown.NeverStuck | rust-hypervisor/src/vm.rs:356-448 | until run is over some thread or the monitor can take a step; that step is the return of a guest run only when nothing else is left to wait for |
| ProtocolShutdown.WaitsForGuestsExactly | rust-hypervisor/src/vm.rs:356-448 | the return of a guest run is the only step left if and only if the monitor joins and every thread still there is in its guest |
| ProtocolShutdown.ShutdownCompletes | rust-hypervisor/src/vm.rs:370-448 | from every reachable state with a flag down, when guest runs return, the system reaches the end of run with all threads gone; without a further panic run returns unless a thread had panicked |
| ProtocolShutdown.ShutdownOnlyWaitsForGuests | rust-hypervisor/src/vm.rs:370-448 | from every such state, without any guest run returning, the system reaches the end of run or a state that waits for guest runs only |
| ProtocolShutdown.AbandonedExactly | rust-hypervisor/src/vm.rs:370-445 | all threads are gone with neither flag down if and only if neither flag is down and every thread panicked |
| ProtocolShutdown.AbandonedForever | rust-hypervisor/src/vm.rs:425-445 | from such a state no sequence of system steps ends run |
| ProtocolShutdown.RunEndsExactly | rust-hypervisor/src/vm.rs:370-448 | once all threads are gone, the system can reach the end of run on its own if and only if a flag is down |
| ProtocolShutdown.SinglePanicAbandons | rust-hypervisor/src/vm.rs:370-445 | one vCPU whose first guest run panics leads to such a state |
| MemoryLayout.LayoutAvoidsGap | rust-hypervisor/src/memory.rs:74-92 | for every non-zero memory size whose regions end below 2^64 the layout is one vm-memory accepts, places all of the memory and none of it in the gap |
| MemoryLayout.LayoutNumbers | rust-hypervisor/src/memory.rs:74-92 | one region from 0, and beyond 4 GB a second one from 0x1_6000_0000 |
| MemoryLayout.FindsTheRegion | rust-hypervisor/src/snapshot.rs:897 | the region search finds the one region holding the address |
| SnapshotMemory.SnapshotManager.SaveRegion | rust-hypervisor/src/snapshot.rs:868-880 | the chunk loop reads every byte of the region once, short last chunk included |
| SnapshotMemory.SnapshotManager.SaveMemory | rust-hypervisor/src/snapshot.rs:861-890 | saving never fails and yields each region's start, size and bytes |
| SnapshotMemory.SavedExactly | rust-hypervisor/src/snapshot.rs:867-887 | each entry saved has its region's start and length and every byte of it |
| SnapshotMemory.SnapshotManager.WriteChunks | rust-hypervisor/src/snapshot.rs:915-928 | chunked writing stores the data cut at the end of the region, and succeeds exactly when nothing was cut |
| SnapshotMemory.SnapshotManager.RestoreMemory | rust-hypervisor/src/snapshot.rs:892-937 | restoring goes entry by entry through the region search, the overflow and fit checks and the chunk loop |
| SnapshotMemory.RestoreEntryExactly | rust-hypervisor/src/snapshot.rs:895-934 | one entry is restored if and only if it fits, and then stored whole |
| SnapshotMemory.RestoreIsOverlay | rust-hypervisor/src/snapshot.rs:892-937 | a list is restored if and only if every entry, by its claimed size and by its data, lies in the region found for it; memory is then the old one overlaid in list order |
| SnapshotMemory.FailedRestoreStops | rust-hypervisor/src/snapshot.rs:892-937 | a failing restore overlays the entries before the first that does not fit, lets that one have its partial effect, and nothing after it |
| SnapshotMemory.FailedEntryLeavesPrefix | rust-hypervisor/src/snapshot.rs:907-928 | the partial effect is a prefix of the entry's data |
| SnapshotMemory.EntryLeavesExactly | rust-hypervisor/src/snapshot.rs:895-934 | how long that prefix is: nothing without a region or with a claimed size past it, otherwise as much as the region has room for |
| SnapshotMemory.SaveThenRestore | rust-hypervisor/src/snapshot.rs:861-937 | saving one memory and restoring onto any other of the same layout succeeds and reproduces every byte |
| RecordVisitors.VisitVm | rust-hypervisor/src/snapshot.rs:336-380 | one pass over the fields returns exactly what decoding in the order of the fields gives, fault and panic included; accepted values are those of decoding by key; a rejection names a key really repeated or absent |
| RecordVisitors.VisitRegion | rust-hypervisor/src/snapshot.rs:429-473 | the same for memory regions |
| RecordVisitors.VisitDevice | rust-hypervisor/src/snapshot.rs:519-554 | the same for device states |
| RecordVisitors.VisitVcpu | rust-hypervisor/src/snapshot.rs:624-696 | the same for vCPU states |
| RecordVisitors.FillSlot | rust-hypervisor/src/snapshot.rs:346-351 | one field against one slot: a second value is refused, a first one decoded; a refusal is the first fault of the record |
| RecordVisitors.VisitKvmRegs | rust-hypervisor/src/snapshot.rs:69-103 | each register takes the last value given and is zero when none is; rejected exactly when some register value does not decode |
| RecordVisitors.RegisterNames | rust-hypervisor/src/snapshot.rs:77-94 | the eighteen registers by name |
| RecordOrder.VmAgrees | rust-hypervisor/src/snapshot.rs:336-380 | decoding in the order of the fields and decoding by key accept the same records with the same values |
| RecordOrder.RegionAgrees | rust-hypervisor/src/snapshot.rs:429-473 | the same for memory regions |
| RecordOrder.DeviceAgrees | rust-hypervisor/src/snapshot.rs:519-554 | the same for device states |
| RecordOrder.VcpuAgrees | rust-hypervisor/src/snapshot.rs:624-696 | the same for vCPU states |
| RecordPanics.FirstFaultExactly | rust-hypervisor/src/snapshot.rs:634-681 | a visitor stops with a fault if and only if some field, after a stretch in which every known key came once and decoded, repeats a key or does not decode |
| RecordPanics.VcpuPanicsExactly | rust-hypervisor/src/snapshot.rs:634-681 | decoding a vCPU state panics if and only if its first offending field is a register image of the wrong length |
| RecordPanics.VmPanicsExactly | rust-hypervisor/src/snapshot.rs:344-369 | decoding a snapshot panics if and only if its first offending field is the list of vCPU states and the first bad one of them panics |
| RecordPanics.PanicDependsOnOrder | rust-hypervisor/src/snapshot.rs:642-648 | the same three fields panic in one order and are turned down in another |
| RecordPanics.VcpuMissingInOrder | rust-hypervisor/src/snapshot.rs:683-687 | a vCPU state without a faulty field is turned down for the first of id, regs, sregs and fpu that is missing, and otherwise accepted |
| RecordPanics.RegionMissingInOrder | rust-hypervisor/src/snapshot.rs:464-466 | the same for memory regions |
| RecordPanics.OthersMissingInOrder | rust-hypervisor/src/snapshot.rs:547-548 | the same for device states and snapshots |
| RecordTheorems.VmOrderFree | rust-hypervisor/src/snapshot.rs:336-380 | any order of the known fields mixed with any unknown ones is accepted alike and decodes to the same value; which fault is reported may differ |
| RecordTheorems.RegionOrderFree | rust-hypervisor/src/snapshot.rs:429-473 | the same for memory regions |
| RecordTheorems.DeviceOrderFree | rust-hypervisor/src/snapshot.rs:519-554 | the same for device states |
| RecordTheorems.VcpuOrderFree | rust-hypervisor/src/snapshot.rs:624-696 | the same for vCPU states |
| RecordTheorems.DuplicateRejected | rust-hypervisor/src/snapshot.rs:347-349 | a repeated known key is rejected by every record type that knows it |
| RecordTheorems.MissingRejected | rust-hypervisor/src/snapshot.rs:371-373 | a missing key is rejected, except that vcpu_states, device_states and msrs become empty |
| RecordTheorems.RegionFromFields | rust-hypervisor/src/snapshot.rs:429-473 | a region decodes from its three named fields, wherever they stand |
| RecordTheorems.DeviceFromFields | rust-hypervisor/src/snapshot.rs:519-554 | a device state decodes from its two named fields |
| RecordTheorems.VcpuFromFields | rust-hypervisor/src/snapshot.rs:624-696 | a vCPU state decodes from its named fields with images of 144, 312 and 416 bytes |
| RecordTheorems.VmFromFields | rust-hypervisor/src/snapshot.rs:336-380 | a snapshot decodes from its three named lists, two of which may be left out |
| RecordTheorems.MsrExactly | rust-hypervisor/src/snapshot.rs:667-674 | an MSR decodes exactly from the pair of its index and its value |
| RecordTheorems.PlainValuesExactly | rust-hypervisor/src/snapshot.rs:636-667 | which numbers, texts and byte strings decode, and to what |
| RecordTheorems.RegionRoundTrip | rust-hypervisor/src/snapshot.rs:396-473 | a region comes back from its encoding |
| RecordTheorems.DeviceRoundTrip | rust-hypervisor/src/snapshot.rs:487-554 | a device state comes back, its bytes kept as bytes |
| RecordTheorems.VcpuRoundTrip | rust-hypervisor/src/snapshot.rs:571-696 | a vCPU state comes back with its register images, each MSR's reserved field cleared |
| RecordTheorems.VmRoundTrip | rust-hypervisor/src/snapshot.rs:299-380 | every snapshot comes back, unchanged but for the reserved fields |
| RecordTheorems.VmRoundTripAnyOrder | rust-hypervisor/src/snapshot.rs:299-380 | also after reordering its fields and adding unknown ones |
| RecordTheorems.JsonRoundTrip | rust-hypervisor/src/snapshot.rs:538-539 | with byte strings as lists of numbers a snapshot decodes if and only if it holds no device state, and then comes back unchanged but for the reserved fields |
| Snapshot.CreateSnapshot | rust-hypervisor/src/snapshot.rs:821-841 | succeeds if and only if KVM gives out the registers of every vCPU; then every region of memory, for every vCPU in order its id cut to 32 bits and its three register images, no MSRs and no devices |
| Snapshot.RestoreSnapshot | rust-hypervisor/src/snapshot.rs:843-859 | memory first, vCPUs by position only if that succeeded; at the first vCPU for which KVM refuses a register block it fails, with that vCPU partly set, those before it set and those after it untouched |
| Snapshot.LoadedPartExactly | rust-hypervisor/src/snapshot.rs:961-974 | a vCPU partly set has the general registers first, then the special ones, then the FPU |
| Snapshot.SnapshotTravels | rust-hypervisor/src/snapshot.rs:821-937 | snapshot, JSON, decode, restore onto another machine of the same layout reproduces memory and the registers of all common vCPUs |
| Block.VirtioBlock.HandleRead | rust-hypervisor/src/virtio/block.rs:163-187 | each error in order, with the file position it leaves |
| Block.VirtioBlock.HandleWrite | rust-hypervisor/src/virtio/block.rs:189-212 | each error in order, with the file position it leaves |
| Block.VirtioBlock.ProcessRequest | rust-hypervisor/src/virtio/block.rs:125-161 | status, disk, position and guest memory of the reporting form |
| Block.VirtioBlock.InlineRead | rust-hypervisor/src/virtio/block.rs:325-335 | the IN arm of the inlined form: state after it with every error dropped |
| Block.VirtioBlock.InlineWrite | rust-hypervisor/src/virtio/block.rs:342-352 | the OUT arm of the inlined form: state after it with every error dropped |
| Block.VirtioBlock.ProcessInline | rust-hypervisor/src/virtio/block.rs:313-358 | status, disk, position and guest memory of the inlined form, which drops errors |
| Block.VirtioBlock.ProcessQueue | rust-hypervisor/src/virtio/block.rs:293-375 | the queue loop: what it takes, gives back and leaves, and when it fails |
| Block.FormsAgree | rust-hypervisor/src/virtio/block.rs:125-212 | on every chain the reporting form finishes, the inlined form gives the same status, disk, position and guest memory, even when requests rewrite descriptors still to come |
| BlockRequests.StrictStepFailsExactly | rust-hypervisor/src/virtio/block.rs:131-212 | when the reporting form fails on a request |
| BlockRequests.StrictFailureLeaves | rust-hypervisor/src/virtio/block.rs:163-212 | what a failing request leaves of disk, file position and guest memory |
| BlockRequests.StrictChainFailsExactly | rust-hypervisor/src/virtio/block.rs:125-161 | the reporting form fails on a chain exactly when the chain reaches a request on which it fails |
| Block.BlockConservesChains | rust-hypervisor/src/virtio/block.rs:308-363 | a successful pass gives each chain back once in order; a failed one loses exactly the last chain it took |
| BlockRequests.PassReports | rust-hypervisor/src/virtio/block.rs:308-363 | each chain goes back with its status as the length; a pass succeeds exactly when every chain ends with a status and its head is a descriptor of the queue |
| BlockDisk.ReadsSeeLatestWrites | rust-hypervisor/src/virtio/block.rs:317-357 | over any session, with guest memory arbitrary before each chain, the disk is the initial image overlaid with the logged writes, and each logged read shows the overlay of the writes before it |
| BlockPoints.EveryInDelivers | rust-hypervisor/src/virtio/block.rs:324-336 | every IN of every session fills the mapped part of its buffer, from descriptor address + 16 on, with the initial disk overlaid with everything written before it, and changes nothing else |
| BlockPoints.EveryOutIsWritten | rust-hypervisor/src/virtio/block.rs:337-353 | every OUT of every session puts the guest bytes from descriptor address + 16 on, zeros where they are not mapped, over that overlay |
| BlockRequests.WholeIn | rust-hypervisor/src/virtio/block.rs:324-336 | every IN of len bytes with a mapped buffer moves exactly len - 16 bytes from 512 times its sector, or the old position if that is refused, to addr + 16, and leaves the file behind what it read |
| BlockRequests.WholeOut | rust-hypervisor/src/virtio/block.rs:342-352 | every OUT of len bytes with a mapped buffer moves exactly the len - 16 bytes at addr + 16 to that place, changes no other byte, and the file grows to hold them |
| BlockRequests.ShortRequestMovesNothing | rust-hypervisor/src/virtio/block.rs:330-347 | a descriptor of less than 16 bytes moves nothing |
| BlockRequests.OtherRequestsMoveNothing | rust-hypervisor/src/virtio/block.rs:337-355 | any other request leaves disk, position and memory alone |
| BlockPoints.ReadSeesLatestWrite | rust-hypervisor/src/virtio/block.rs:317-357 | the byte an IN leaves in guest memory is the byte the latest earlier OUT to that disk offset found in guest memory |
| BlockPoints.ReadSeesInitialDisk | rust-hypervisor/src/virtio/block.rs:317-357 | an offset no earlier OUT wrote to is delivered as it stood on the disk at the start |
| BlockDisk.PassIsSession | rust-hypervisor/src/virtio/block.rs:308-363 | a pass over the queue is such a session |
| BlockDisk.ServeIsCoherent | rust-hypervisor/src/virtio/block.rs:317-357 | the disk after a session is the initial one with the session's writes applied, and each read shows the disk of its time |
| BlockSectors.OffsetIsTypeTimes512 | rust-hypervisor/src/virtio/block.rs:324-328 | an offset is 512 times the request type modulo 2^41, even under wrap-around |
| BlockSectors.SessionIsWellAimed | rust-hypervisor/src/virtio/block.rs:323-353 | every access of a session asks for offset 0 (IN) or 512 (OUT) modulo 2^41, and happens there unless the host refuses the offset |
| BlockSectors.FirstSectorIsSafe | rust-hypervisor/src/virtio/block.rs:337-353 | a byte at 0 to 511 modulo 2^41 keeps its value over every session in which no request strays over it |
| BlockSectors.TouchesFirstSectorExactly | rust-hypervisor/src/virtio/block.rs:346-352 | a request writes into the first sector if and only if it is a non-empty OUT on a writable disk whose seek is refused while the file stands in that sector |
| BlockSectors.ProtectedByteExactly | rust-hypervisor/src/virtio/block.rs:342-352 | a request writes to a byte at 0 to 511 modulo 2^41 if and only if its seek is refused and the byte is among those from the old position on |
| BlockSectors.ProtectedByteWrittenExactly | rust-hypervisor/src/virtio/block.rs:317-357 | over any session such a byte is written if and only if some request reached strays over it |
| BlockSectors.FirstSectorWrittenExactly | rust-hypervisor/src/virtio/block.rs:317-357 | over any session the first sector is written if and only if some request reached strays while the file stands in it |
| BlockSectors.FirstSectorCanBeHit | rust-hypervisor/src/virtio/block.rs:346-352 | on every writable disk, wherever seeks are refused, one request after opening overwrites the first byte |
| BlockPoints.InDelivers | rust-hypervisor/src/virtio/block.rs:324-336 | an IN puts what the disk shows at the position sought into the mapped part of its buffer, and changes no other byte and not the disk |
| BlockPoints.OutTakesPayload | rust-hypervisor/src/virtio/block.rs:342-352 | the disk shows the payload at the position sought and its old bytes elsewhere; guest memory is unchanged |
| HostFile.PastTheEnd | rust-hypervisor/src/virtio/block.rs:330-352 | a read past the end of the file leaves zeros in the buffer, and a write past it leaves zeros in between |
| BlockSectors.ChainStopsExactly | rust-hypervisor/src/virtio/block.rs:317-357 | a chain ends early with a verdict if and only if it reaches a descriptor that gives that verdict |
| BlockSectors.StatusExactly | rust-hypervisor/src/virtio/block.rs:337-355 | IOERR if and only if read-only and an OUT is reached; UNSUPP if and only if an unknown type is reached |
| BlockRequests.ChainStatus | rust-hypervisor/src/virtio/block.rs:315-357 | error exactly at a type that cannot be read, status 1 at an OUT on a read-only disk, 2 at a type other than 0, 1 and 4, and 0 otherwise |
| BlockSectors.ReadOnlyDisk | rust-hypervisor/src/virtio/block.rs:337-341 | a read-only disk never changes over any session |
| Console.VirtioConsole.ProcessTxQueue | rust-hypervisor/src/virtio/console.rs:99-148 | takes every chain, output grows by exactly their readable descriptors in order, each chain goes back with its length |
| Console.VirtioConsole.Gather | rust-hypervisor/src/virtio/console.rs:113-124 | the loop over descriptors collects the readable ones in order |
| Console.GatheredIsMemory | rust-hypervisor/src/virtio/console.rs:113-124 | each readable mapped descriptor's memory stands in the output at its place |
| Console.GatheredLength | rust-hypervisor/src/virtio/console.rs:113-132 | a chain says, and goes back with, the total length of its readable descriptors; write-only ones count nothing |
| Console.OutputHolds | rust-hypervisor/src/virtio/console.rs:107-129 | the output of several chains is as long as all of them, each chain's bytes at their place |
| Virtqueue.GivenBackOnce | rust-hypervisor/src/virtio/console.rs:107-133 | chains go back once each, in order, unless the head is no descriptor of the queue |
| Virtqueue.GivenBackAt | rust-hypervisor/src/virtio/console.rs:132 | with valid heads chain i goes back i-th, with its length |
| Virtqueue.AllHeadsValid | rust-hypervisor/src/virtio/console.rs:107-133 | with every head a descriptor of the queue, all chains go back |
| Net.VirtioNet.ProcessTxQueue | rust-hypervisor/src/virtio/net.rs:126-161 | one datagram per chain with all its descriptors, sent only if there is a peer; each chain goes back |
| Net.VirtioNet.Gather | rust-hypervisor/src/virtio/net.rs:143-149 | the loop over descriptors collects all of them in order |
| Net.PacketHolds | rust-hypervisor/src/virtio/net.rs:143-149 | a packet is as long as its descriptors, write-only ones included, and each one's memory stands at the sum of the lengths before it |
| Net.PacketLength | rust-hypervisor/src/virtio/net.rs:157 | each chain goes back with that length in 32 bits |
| Net.VirtioNet.ProcessRxQueue | rust-hypervisor/src/virtio/net.rs:89-124 | chains go back with length 0 while datagrams come; when they stop before the queue is empty exactly the last chain taken is lost |
| Fs.VirtioFs.Process9p | rust-hypervisor/src/virtio/fs.rs:235-250 | every message is refused, and one of exactly 4 bytes panics |
| Fs.VirtioFs.HandleEvent | rust-hypervisor/src/virtio/fs.rs:308-359 | exactly the chains whose first descriptor exists and is mapped go back, in order, up to the first such descriptor of exactly 4 bytes |
| Fs.ServedExactly | rust-hypervisor/src/virtio/fs.rs:331-347 | the chains served are exactly those with a mapped first descriptor, in order |
| Fs.ServedLength | rust-hypervisor/src/virtio/fs.rs:338-347 | each goes back with the length of its first descriptor |
| Mmio.VirtioMmioDevice.MmioRead | rust-hypervisor/src/virtio/mmio.rs:23-55 | the front of the buffer is overwritten with register or configuration bytes, the rest kept |
| Mmio.RegisterMap | rust-hypervisor/src/virtio/mmio.rs:29-53 | the number four bytes read at each offset below 0x100 spell |
| Mmio.RegisterBytes | rust-hypervisor/src/virtio/mmio.rs:51-53 | a shorter read transfers the first of those four bytes, a longer one just the four |
| Mmio.MagicBytes | rust-hypervisor/src/virtio/mmio.rs:31 | the bytes at offset 0 are the letters virt |
| Mmio.ConfigBytes | rust-hypervisor/src/virtio/mmio.rs:25-27 | which bytes a read of a configuration space transfers |
| Mmio.ReadFailsExactly | rust-hypervisor/src/virtio/mmio.rs:25-27 | a read fails exactly when it starts past the end of a configuration image |
| Mmio.VirtioMmioDevice.MmioWrite | rust-hypervisor/src/virtio/mmio.rs:57-81 | a write at 0x30 selects a queue, one at 0x50 notifies one, and no other changes either |
| Mmio.WrittenNumber | rust-hypervisor/src/virtio/mmio.rs:63-66 | a write carries the number its bytes spell, filled up with zeros or cut to four bytes |
| Mmio.WrittenWord | rust-hypervisor/src/virtio/mmio.rs:63-66 | writing the four bytes of a number carries that number |
| Mmio.SelectOffset | rust-hypervisor/src/virtio/mmio.rs:73 | a write selects a queue exactly at offset 0x30 |
| Mmio.QueueNumMaxFollowsSelect | rust-hypervisor/src/virtio/mmio.rs:37-44 | after any accesses QueueNumMax is the size of the queue named by the last write to QueueSel, 0 if there is none such |
| Mmio.LastSelectDecides | rust-hypervisor/src/virtio/mmio.rs:73 | after any accesses the selected queue is the one the last write to QueueSel named |
| Mmio.QueueNumMaxStartsAtZero | rust-hypervisor/src/virtio/mmio.rs:14-21 | without such a write it is the size of queue 0 |
| Mmio.FeatureHalves | rust-hypervisor/src/virtio/mmio.rs:35-36 | the two feature registers together are the feature word |
| Mmio.SplitReadsAgree | rust-hypervisor/src/virtio/mmio.rs:25-27 | any split of a stretch of configuration space into reads transfers what one read would, for every kind of configuration space |
| Mmio.BlockConfigFields | rust-hypervisor/src/virtio/block.rs:241-287 | the image has 60 bytes with its fields at the offsets of section 5.2.4 of VIRTIO 1.1, capacity disk size / 512, and zeros in every other byte |
| Mmio.BlockConfigReads | rust-hypervisor/src/virtio/block.rs:276-286 | any split of an in-range stretch yields those bytes of the image |
| Attach.VirtualMachine.AllocateIrq | rust-hypervisor/src/vm.rs:314-318 | hands out the next interrupt |
| Attach.VirtualMachine.AddDevice | rust-hypervisor/src/vm.rs:221-310 | the interrupt is spent before the device is created; only if that works is the device appended, at the base address of its kind |
| Attach.IrqsIncrease | rust-hypervisor/src/vm.rs:221-318 | over any attachments, failed ones included, interrupts strictly increase from 5 |
| Attach.DevicesOfAttempts | rust-hypervisor/src/vm.rs:221-318 | the devices present are exactly those of the attachments that worked, the i-th with interrupt 5 + i |
| Attach.CommandLineIsRightExactly | rust-hypervisor/src/vm.rs:183-189 | every device has the interrupt the command line announces for it if and only if each attachment that worked came in its place of that order |
| Attach.AnnouncedNumbers | rust-hypervisor/src/vm.rs:188 | interrupts 5 to 8 and windows from 0x1000, 0x2000, 0x3000 and 0x4000 |
| Attach.FirstInterrupts | rust-hypervisor/src/vm.rs:314-318 | the first device gets interrupt 5, the next 6 |
| Attach.WindowsMeetOnlyWhole | rust-hypervisor/src/vm.rs:227-307 | two windows share an address if and only if the devices are of one kind |
| Attach.AtMostOneReceiver | rust-hypervisor/src/vm.rs:221-310 | at most one attachment per kind if and only if no address is claimed twice |
| Attach.HoldsExactly | rust-hypervisor/src/vm.rs:394-402 | a device in the list the loops walk holds an address if and only if its attachment claims it |
| Attach.DispatchIsUnambiguousExactly | rust-hypervisor/src/vm.rs:391-406 | in that list whoever holds an address is alone in it if and only if no kind is attached twice |
| Attach.WindowReachableExactly | rust-hypervisor/src/memory.rs:76-92 | a device window has an address outside RAM if and only if memory ends below the window's end |
| Attach.DispatchWrite | rust-hypervisor/src/vm.rs:399-406 | every device whose window holds the address gets the write, no other changes |
| Attach.DispatchRead | rust-hypervisor/src/vm.rs:391-398 | the buffer is what all devices holding the address leave, answering in the order of the list |
| Attach.LastAnswerStays | rust-hypervisor/src/vm.rs:391-398 | each byte of the buffer comes from the last device that answered for it |
| Attach.UnansweredByteStays | rust-hypervisor/src/vm.rs:391-398 | a byte no device answers for keeps its value |
| Attach.SingleAnswer | rust-hypervisor/src/vm.rs:391-398 | with a single receiver the buffer holds its answer, with none it is untouched |
| Acl.OwnerExactly | rust-hypervisor/src/virtio/fs.rs:89-96 | for the owner the first entry with their uid decides alone; without one exactly the empty and the full set are granted |
| Acl.OthersExactly | rust-hypervisor/src/virtio/fs.rs:97-104 | a user who is not the owner is allowed if and only if some entry speaking for them holds all that is required |
| Acl.OthersBySide | rust-hypervisor/src/virtio/fs.rs:97-104 | in the owning group only group entries speak, outside it entries for the user and for their group |
| Acl.MoreEntriesNeverRevoke | rust-hypervisor/src/virtio/fs.rs:97-104 | for non-owners adding entries never takes a permission away |
| Acl.OrderIrrelevantForOthers | rust-hypervisor/src/virtio/fs.rs:97-104 | for non-owners the order of entries is irrelevant |
| Acl.DownwardClosedExactly | rust-hypervisor/src/virtio/fs.rs:88-105 | the decision is closed under asking for less if and only if it is not that of an owner without an entry |
| Acl.OrderIrrelevantForOwnerExactly | rust-hypervisor/src/virtio/fs.rs:89-96 | for the owner order is irrelevant if and only if the owner's entries agree on what is required |

## Left out

- KVM ioctls, vCPU register setup and `clone_vmfd`: calls into the kernel and constant assignments.
- The command line of the program, logging and error texts: no property beyond one branch.
- Opening and reading files, and ELF parsing: file contents, program headers and entry point are inputs of the loaders.
- bincode and JSON as text, and files: only the map data model of serde, with JSON's treatment of byte strings.
- serde's conversions between text and bytes (a string given where bytes are expected, or the reverse): the decoders of `Records` take each kind of value as it is.
- Positional records (sequences instead of maps): rejected by every record decoder, as in the source.
- The serde helpers nothing calls (`serialize_kvm_sregs`, `MsrEntriesVisitor` and the like).
- A guest that changes its memory while a chain is being served: it may do so before each chain, and a chain may change it itself.
- Rings of the virtqueues, event descriptors, sockets and standard output: a queue is the chains it offers and the elements given back, a socket a list of answers, output a growing list of bytes.  `add_used` is refused exactly when the head is no descriptor of the queue.
- Host I/O failures other than refused seeks and reads past the end of the file (a full disk, a write past the largest file, a device error, a failing flush).
- Failure of the host to spawn a thread.
- Replies to snapshot requests inside the thread loop: the request is consumed, its answer is not modelled.
- `read_config` of console and net: the same copying as for the block device, over smaller structures.
- `set_acked_features` and `write_config`: they change nothing the model observes.
- The host file operations and the flat buffer of `FsState`, and the 9P handlers, which are stubs.
- BootImage.BootSectorBoundIsTight: says nothing of single images longer than 0x1400 bytes whose extra bytes happen to agree with the tables.
- Attach.IrqsIncrease: for fewer than 2^32 - 5 attachments, because the counter then wraps to 0.
- Attach.DevicesOfAttempts: the same bound on the number of attachments.
- Attach.CommandLineIsRightExactly: the same bound on the number of attachments.
- Fs.VirtioFs.HandleEvent: the event comes with a first ring, and signalling the interrupt succeeds.
- Block.VirtioBlock.ProcessQueue: signalling the interrupt succeeds.
- Console.VirtioConsole.ProcessTxQueue: signalling the interrupt and writing to the output succeed.
- Net.VirtioNet.ProcessTxQueue: a datagram handed to the socket is sent.
