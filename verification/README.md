# rust-os in Dafny

A model of the sequential logic of a small RISC-V (Sv39) teaching kernel, its
user shell and the archive parser it mounts from a virtio disk. The hardware is
replaced by parameters: the block device as a function from request to reply, the console's input stream, the
addresses of linker symbols and stacks. All words are unbounded integers
constrained to their Rust width (`uint64`, `uint32`, `uint16`, `uint8` in
module `Bits`). Shifts, masks and ORs are defined arithmetically in that module,
and Rust's debug-build overflow checks become explicit panics.

| file | module | models |
|---|---|---|
| `wrappers.dfy` | `Wrappers` | `Option`, `Result`, and `Outcome` (a value or a kernel panic with its message) |
| `bits.dfy` | `Bits` | integer widths, `Pow2`, shifts, fields, bitwise OR and their laws |
| `allocator.dfy` | `Allocator` | the bump allocator behind the kernel heap |
| `sv39.dfy` | `Sv39` | virtual-address indices, page-table-entry packing, permission bits |
| `pagetable.dfy` | `PageTable` | `alloc_pages`, the three-level `walk`, `map_page`, and a `Translate` over the walk |
| `process.dfy` | `Process` | pids, the eight-slot process table, round-robin choice, `satp`, `create_process` |
| `trap.dfy` | `Trap` | the `scause` table and system-call dispatch |
| `virtio.dfy` | `Virtio` | the legacy virtio-blk driver's checks, descriptor chain and ring indices |
| `tarfile.dfy` | `Ustar` | the ustar parser, plus a writer used to state the round trip |
| `kernel_tar.dfy` | `KernelTar` | reading the disk image, mounting the archive, kernel file records |
| `syscall.dfy` | `CommonSyscall`, `ShellSyscall` | the two system-call numberings and the shell's stubs |
| `shell.dfy` | `Shell` | one round of the shell's read–answer loop |

The memory model is `PageTable.Memory`. It holds the heap allocator, the page
tables as a map from frame address to 512 entries, and the data frames as a map
from frame address to bytes. `PageTable.Tree` is the invariant of a
well-formed three-level table rooted at a frame. Most translation properties
use `PageTable.Lookup`, a reference lookup by index triple, as their partner.

Where the code and its documentation differ, the model follows the code. In
particular:
- `common`'s numbering is modelled as written, and shown to disagree with the
  kernel's dispatcher (`CommonSyscall.KernelDisagrees`).
- The four defects under "Findings" are modelled both as written and
  corrected.

## Model

| member | source | states |
|---|---|---|
| Allocator.Init | kernel/src/allocator.rs:22-27 | a ready allocator whose next address is `start` and whose end is `end`, whatever state came before |
| Allocator.NextMultipleOf | kernel/src/allocator.rs:35 | the result is a multiple of the alignment in `[n, n + align)`; it panics exactly when rounding up would pass 2^64 |
| Allocator.SaturatingAdd | kernel/src/allocator.rs:37 | the sum when it fits in 64 bits, otherwise 2^64 - 1 |
| Allocator.Alloc | kernel/src/allocator.rs:31-43 | panics "Allocator not initialized" before `init`; a returned block is aligned, starts less than one alignment above `next`, ends by `end`, and `next` moves to its end |
| Allocator.Dealloc | kernel/src/allocator.rs:45-47 | freeing leaves the allocator as it was |
| Allocator.AllocIsSmallestMultiple | kernel/src/allocator.rs:35 | no multiple of the alignment at or above `next` lies below the returned address |
| Allocator.AllocFailsIffNoRoom | kernel/src/allocator.rs:36-39 | allocation panics exactly when the aligned block would run past `end`, with "Out of Memory!" unless `end` is the top of the address space |
| Allocator.AllocDisjoint | kernel/src/allocator.rs:41-42 | two successive blocks do not overlap, the second lies above the first, and `next` never decreases |
| Allocator.InitThenAlloc | kernel/src/allocator.rs:22-43 | right after `init`, an aligned start is handed out first, whatever came before |
| Allocator.DeallocReclaimsNothing | kernel/src/allocator.rs:45-47 | the next allocation after a free is placed as if nothing was freed |
| Sv39.PtIndexForLevel | kernel/src/memory.rs:37-39 | the index for a level is below 512 |
| Sv39.PtIndexRebuildsAddress | kernel/src/memory.rs:37-39 | the three 9-bit indices and the 12-bit offset add back up to any address below 2^39 |
| Sv39.AlignmentAgrees | kernel/src/memory.rs:33-35 | the virtual mask test and the physical remainder test agree, and both hold iff bits 0 to 11 are clear |
| Sv39.PteNewRoundTrip | kernel/src/memory.rs:71-103 | for fields that fit, `ppn_0`, `ppn_1`, `ppn_2` and the low ten bits read back what `PTE::new` packed |
| Sv39.AsRaw | kernel/src/memory.rs:168-175 | the OR of the shifted flag bits equals 2·R + 4·W + 8·X + 16·U |
| Sv39.AsRawBits | kernel/src/memory.rs:105-175 | `as_raw` sets bit 1 to 4 exactly for R, W, X, U, never the valid bit or any bit above 4, and decoding the bits gives the flags back |
| Sv39.NamedFlagSets | kernel/src/memory.rs:143-149 | `kernel_all` is 0xE (R, W, X without U) and `all` is 0x1E |
| Sv39.LeafEntryRoundTrip | kernel/src/memory.rs:84-131 | a leaf built from an aligned address and any flags is valid, grants exactly those flags, and `into_paddr` returns the address unchanged |
| Sv39.PointerEntryRoundTrip | kernel/src/memory.rs:196 | the entry for a fresh table is valid, grants nothing, and points back at the table |
| PageTable.AllocPages | kernel/src/memory.rs:178-183 | `n` pages at a page-aligned address less than a page above `next`, ending by `end`, with `next` moved to their end; overflow of `4096 * n` panics, and so does a byte count `Layout::from_size_align` rejects |
| PageTable.AllocPagesIsAlloc | kernel/src/memory.rs:178-183 | for a byte count the layout accepts, it is the heap's `alloc` of that many page-aligned bytes: a panic before `init`, and otherwise success exactly when the pages fit between `next` rounded up to a page and `end`, placed at that rounded address |
| PageTable.Walk | kernel/src/memory.rs:185-203 | a returned slot lies in an existing table at the address's level-0 index |
| PageTable.WalkReadOnly | kernel/src/memory.rs:185-203 | without allocation the walk changes no memory, and returns None exactly when the level-2 or level-1 entry on the path is invalid |
| PageTable.TranslateIsLookup | kernel/src/memory.rs:185-203 | translation over the kernel's walk equals the reference three-level lookup of the address's indices |
| PageTable.WalkAllocates | kernel/src/memory.rs:192-196 | an allocating walk that does not panic reaches the level-0 slot along a valid path, keeps the tree and every translation, and changes nothing when the path already exists |
| PageTable.WalkInstallsFreshTables | kernel/src/memory.rs:192-196 | each installed entry holds only the valid bit and the page number of a new table, the new tables are zero apart from that, and no other entry changes |
| PageTable.WalkPanics | kernel/src/memory.rs:192-196 | an allocating walk panics only when the heap runs out, and only when the path is incomplete |
| PageTable.MapPage | kernel/src/memory.rs:205-211 | an unaligned virtual or physical address panics with its message |
| PageTable.MapPageRefusesRemap | kernel/src/memory.rs:213-215 | an address whose leaf is already valid panics with "remap" |
| PageTable.MapPagePanics | kernel/src/memory.rs:213-218 | on aligned addresses the only panics are "remap" and the heap's, so the `unreachable!` arm is never taken |
| PageTable.MapPageMaps | kernel/src/memory.rs:205-220 | a successful mapping keeps the tree, takes the address from unmapped to `paddr` with exactly `flags`, and leaves every other index triple and all data frames as they were |
| PageTable.MapPageExtends | kernel/src/memory.rs:205-220 | the mapping keeps every earlier translation, the data frames and the heap's end, and moves `next` only up |
| Process.NewPid | kernel/src/process.rs:299-302 | a pid for any non-zero slot; slot 0 panics "Tried to create an idle process" |
| Process.NewScheduler | kernel/src/process.rs:71-82 | a well-formed table with the all-zero idle process in slot 0, slots 1 to 7 empty, idle current |
| Process.Get | kernel/src/process.rs:140-147 | the slot the pid names; an index past the table panics |
| Process.Scan | kernel/src/process.rs:85-95 | the first step in `i..=8` whose slot `(current + step) % 8` holds a non-idle process, or a panic exactly when there is none |
| Process.FindNextProcess | kernel/src/process.rs:85-95 | a returned slot holds a non-idle process |
| Process.FindNextPanics | kernel/src/process.rs:94 | the scan panics exactly when no slot holds a non-idle process |
| Process.FindNextIsNearest | kernel/src/process.rs:85-93 | the returned slot is exactly the non-idle slot nearest after `current` in the rotation, with `current` itself last |
| Process.StaysOnlyWhenAlone | kernel/src/process.rs:85-93 | the scan returns `current` only when no other slot holds a non-idle process |
| Process.DoYieldChoosesNearest | kernel/src/process.rs:99-131 | yield panics exactly when only the idle process exists; otherwise the new current process is the nearest one, and a switch happens exactly when the process changes: it loads the new process's `satp`, kernel stack top and saved stack pointer, and the only change to the table is the outgoing stack pointer saved into the previous process; without a switch nothing changes |
| Process.SatpFields | kernel/src/process.rs:110 | for a root below 2^56 the `satp` value has mode 8 in bits 60 to 63, address-space id 0 and the root's page number in bits 0 to 43 |
| Process.FreeScan | kernel/src/process.rs:152-161 | the lowest empty slot at or after `i`, or "No free processes" exactly when there is none |
| Process.FindFreeTakesLowest | kernel/src/process.rs:152-161 | the lowest empty slot, never slot 0, receives a zeroed process with that slot's pid, nothing else changes, and a full table panics |
| Process.MapKernel | kernel/src/process.rs:173-186 | every page from `addr` below `end` translates to itself with `kernel_all`, and earlier translations and data frames are kept |
| Process.PageImage | kernel/src/process.rs:193-197 | a page's 4096 bytes are the image bytes from the offset, zero past the image's end |
| Process.UserFrame | kernel/src/process.rs:192-197 | a fresh aligned frame holding the image's page, with every other frame and every translation kept |
| Process.MapUserPage | kernel/src/process.rs:191-204 | the page at `offset` sits in a fresh frame mapped with `all` at `USER_BASE + offset`, and earlier translations are kept |
| Process.MapUser | kernel/src/process.rs:189-204 | one fresh, distinct frame per started 4096 bytes of the image, holding that page and mapped with `all` at the matching user address, with earlier translations and frames kept |
| Process.InitialStack | kernel/src/process.rs:207-222 | the kernel stack has the model's word count |
| Process.CreateProcessLayout | kernel/src/process.rs:165-225 | a full table panics; otherwise the lowest free slot gets its pid, a fresh root, `sp` 14 words below the stack top with the entry point as the saved `ra` and zeros elsewhere, the kernel range identity-mapped, the image mapped at `USER_BASE`, and no other slot changed |
| Process.AddressSpaceBuilt | kernel/src/process.rs:173-204 | the kernel pages mapped by the first loop still translate to themselves after the second loop maps the image |
| Trap.CauseMessage | kernel/src/trap.rs:177-208 | a message exists exactly for the listed causes (exceptions 0 to 23 except 8, 14 and 16 to 19; interrupts 0 to 11) |
| Trap.ExceptionMessage | kernel/src/trap.rs:177-196 | a message exists exactly for the exception codes the table lists |
| Trap.InterruptMessage | kernel/src/trap.rs:197-208 | a message exists exactly for the interrupt codes 0 to 11 |
| Trap.HandleSyscall | kernel/src/trap.rs:147-169 | the number in saved x13 selects putchar (3, the low byte of x10 out, frame unchanged) or getchar (2, the input into x10); any other number panics; sepc moves 4 past the ecall |
| Trap.TrapHandler | kernel/src/trap.rs:173-216 | only scause 8 returns; each listed cause panics with its message, sepc and stval; every other cause panics as unknown |
| Trap.InterruptBit | kernel/src/trap.rs:197-208 | bit 63 of `scause` is set exactly for interrupt causes, and the other 63 bits are the code |
| Trap.InterruptsPanic | kernel/src/trap.rs:197-209 | every interrupt panics, the twelve named ones with their message and the others as unknown |
| Virtio.RequestOk | kernel/src/virtio.rs:116-119 | a request succeeded exactly when its status is `VIRTIO_BLK_S_OK`; an I/O error or an unsupported request is a failure |
| Virtio.ReadRequest | kernel/src/virtio.rs:274-276 | a read request has type `VIRTIO_BLK_T_IN`, names the sector asked for, and carries a zeroed data field |
| Virtio.WriteRequest | kernel/src/virtio.rs:317-322 | a write request has type `VIRTIO_BLK_T_OUT`, names the sector asked for, and carries the buffer's first bytes, at most 512, then zeros |
| Virtio.InitQueue | kernel/src/virtio.rs:89-103 | a well-formed queue with the given index, available index 0 and not busy |
| Virtio.New | kernel/src/virtio.rs:207-245 | the driver is built exactly when magic, version and device id match a legacy block device and the byte capacity fits 64 bits; the capacity is the sector count times 512 |
| Virtio.KickAsWritten | kernel/src/virtio.rs:253-262 | the overflow-checked increments panic exactly at index 65535, and otherwise agree with the wrapping kick |
| Virtio.Kick | kernel/src/virtio.rs:253-262 | the wrapping kick keeps the descriptors, the used index and the queue index |
| Virtio.IsBusy | kernel/src/virtio.rs:265-267 | the queue is busy exactly when some kicked request is not yet completed |
| Virtio.KickCounts | kernel/src/virtio.rs:253-267 | a kick adds one outstanding request and a completion removes one, so a kick followed by a completion leaves the count as it was |
| Virtio.KickPublishes | kernel/src/virtio.rs:253-262 | the descriptor becomes the newest available entry, no other ring slot changes, and an idle queue is busy until exactly one completion |
| Virtio.KickAsWrittenPanicsAtWrap | kernel/src/virtio.rs:256 | at available index 65535 the kick as written panics where the wrapping kick publishes at index 0 |
| Virtio.AssertSectorInRange | kernel/src/virtio.rs:307-313 | Ok exactly when the whole sector lies within the capacity, else `InvalidSector(sector, capacity)` |
| Virtio.SetChain | kernel/src/virtio.rs:278-290 | the chain setup leaves the rings, indices and descriptors 3 to 15 as they were |
| Virtio.SetChainDescribes | kernel/src/virtio.rs:278-290 | descriptors 0, 1, 2 lay out one request: a 16-byte readable header, 512 data bytes writable exactly for a read, a writable status byte, linked 0 to 1 to 2 |
| Virtio.Submit | kernel/src/virtio.rs:292-293 | after submission the chain describes the request, descriptor 0 is the newest available entry, and the queue is idle again |
| Virtio.DiskRead | kernel/src/virtio.rs:269-305 | a short buffer and a sector past the end are refused untouched with nothing sent, in that order; otherwise one request of type `VIRTIO_BLK_T_IN` for that sector goes out, a status other than OK in the device's reply to it is `ReadFail(sector, status)` and leaves the buffer, and success puts the reply's 512 bytes in the front of the buffer |
| Virtio.WriteSpanAsWritten | kernel/src/virtio.rs:321 | the copy as written spans `buf.len()` bytes from the data field |
| Virtio.WriteOverrunsRequest | kernel/src/virtio.rs:321 | a buffer over 512 bytes reaches the status byte, and over 513 bytes leaves the request |
| Virtio.WriteData | kernel/src/virtio.rs:317-322 | the data field holds the buffer's first bytes, at most 512, then zeros |
| Virtio.DiskWrite | kernel/src/virtio.rs:315-346 | a sector past the end is refused untouched with nothing sent; otherwise one request of type `VIRTIO_BLK_T_OUT` for that sector goes out, device-readable, carrying at most a sector of the buffer, and the status of the device's reply to it decides Ok or `WriteFail(sector, status)` |
| Ustar.FirstNul | tarfile/src/lib.rs:161 | the index of the first NUL, the bytes before it all non-NUL |
| Ustar.NullTerminated | tarfile/src/lib.rs:157-162 | parses exactly when at least one non-NUL byte comes before a NUL; the name is those bytes and the NUL is consumed too |
| Ustar.NullTerminatedPaddedAsWritten | tarfile/src/lib.rs:140-162 | panics exactly when the name's decoded length plus its NUL exceeds the field; otherwise it returns the name after consuming the name, its NUL and `max_len - (decoded length + 1)` more bytes, which is the whole field exactly when the decoded length is the byte length |
| Ustar.NullTerminatedPadded | tarfile/src/lib.rs:140-148 | the field parses exactly when it is present and starts with a non-NUL byte; the name is the field up to its first NUL, or the whole field |
| Ustar.PaddedAgreesOnShortNames | tarfile/src/lib.rs:140-162 | for names shorter than the field that decode to their own length, the corrected parser returns what the parser as written does |
| Ustar.HeaderBlock | tarfile/src/lib.rs:110-137 | parses exactly when the name starts with a non-NUL byte and bytes 257 to 262 are "ustar" and NUL; the size is decoded from the 12 bytes at 124; 498 bytes are read |
| Ustar.Header | tarfile/src/lib.rs:95-108 | a header consumes exactly one whole 512-byte block |
| Ustar.DataBlocks | tarfile/src/lib.rs:73-74 | the number of 512-byte blocks is the size divided by 512, rounded up |
| Ustar.FileData | tarfile/src/lib.rs:69-93 | takes the file's whole blocks and keeps its first `file_size` bytes; a block count past 64 bits panics |
| Ustar.Entry | tarfile/src/lib.rs:65-67 | an entry consumes 512 · (1 + blocks) bytes, and its data follows the header |
| Ustar.TarFile | tarfile/src/lib.rs:16-28 | a parsed archive consumes a multiple of 512 bytes, at least the 1024-byte end marker |
| Ustar.EntryRoundTrip | tarfile/src/lib.rs:59-137 | a writable member reads back as itself, whatever follows it |
| Ustar.TarFileCons | tarfile/src/lib.rs:16-28 | a writable member in front of any input is parsed first, and the parse continues with what follows |
| Ustar.ArchiveRoundTrip | tarfile/src/lib.rs:16-79 | an archive written from writable members parses back to their files, in order, consuming exactly the archive |
| Ustar.TestArchives | tarfile/src/lib.rs:37-56 | the two-file test archive yields "./hello.txt" with "Hello!\n" and then "./meow.txt" with "Meow!\n"; the one-file archive yields only the first |
| Ustar.FullNameAsWrittenPanics | tarfile/src/lib.rs:147 | a 100-byte name makes the parser as written panic, since decoding never shortens it, while the corrected one reads it |
| Ustar.LossyNameAsWrittenMisreads | tarfile/src/lib.rs:140-162 | a shorter name whose decoding is longer than its bytes makes the parser as written panic once its decoded length reaches 100, and otherwise stop short of the field's end, while the corrected one reads the name and the whole field |
| KernelTar.FromRef | kernel/src/tar.rs:31-39 | a file in use with the entry's name and data |
| KernelTar.ParsedSizes | kernel/src/tar.rs:31-54 | `File::from` of each parsed entry has the size its header declares |
| KernelTar.Strcpy | kernel/src/tar.rs:57-66 | a NUL-free prefix of the source, no longer than it, ended by a NUL or by the source's end |
| KernelTar.StrcpyIsFirstNulPrefix | kernel/src/tar.rs:57-66 | the copy is the source up to its first NUL, and the whole source when it has none |
| KernelTar.Sectors | kernel/src/tar.rs:76-77 | the image is 512 bytes per sector read |
| KernelTar.SectorsAt | kernel/src/tar.rs:76-77 | sector `k` of the image is the device's data for sector `k` |
| KernelTar.InitBlockDevice | kernel/src/tar.rs:74-80 | succeeds exactly when the device answers the read request of every whole sector with OK, giving those sectors' bytes in order and a zero tail; otherwise it fails with the first failed read's error |
| KernelTar.InitFileSystem | kernel/src/tar.rs:89-96 | mounts exactly when the archive parses, keeping the entries in order; a parse failure is `Parsing` and a parser panic halts |
| KernelTar.FromIOError | kernel/src/tar.rs:105-109 | a device error becomes `FSError::IOError` carrying it |
| KernelTar.MountArchive | kernel/src/tar.rs:89-96 | a disk starting with an archive of writable members mounts as those members' files |
| CommonSyscall.Into | common/src/lib.rs:10-17 | PUTCHAR is 1, GETCHAR 2 and EXIT 3, each exactly |
| CommonSyscall.TryFrom | common/src/lib.rs:20-30 | Ok exactly for 1 to 3, and then `into` gives the number back; any other number is returned as the error |
| CommonSyscall.RoundTrip | common/src/lib.rs:10-30 | decoding an encoded call gives the call back |
| CommonSyscall.KernelDisagrees | common/src/lib.rs:10-17 | 1 is no call the kernel dispatches, 3 is served as putchar, and only 2 agrees |
| ShellSyscall.Into | shell/src/syscall.rs:18-25 | PUTCHAR is exactly the kernel's putchar number 3, GETCHAR exactly its getchar number 2 |
| ShellSyscall.IntoInjective | shell/src/syscall.rs:18-25 | distinct calls get distinct numbers |
| ShellSyscall.CallFrame | shell/src/syscall.rs:27-40 | the arguments go in a0 to a2 and the number in a3, and no other register changes |
| ShellSyscall.GetcharResult | shell/src/syscall.rs:8-10 | the result is the low eight bits of a0 |
| ShellSyscall.PutcharServed | shell/src/syscall.rs:4-6 | the kernel writes the shell's byte and resumes it after the ecall with its registers unchanged |
| ShellSyscall.GetcharServed | shell/src/syscall.rs:8-10 | the kernel resumes the shell after the ecall, and getchar's result is the console's character |
| Shell.CrOffset | shell/src/main.rs:36-42 | the first carriage return among the line's 512 characters, or 512 when there is none |
| Shell.ReadLine | shell/src/main.rs:35-46 | the 512-byte buffer holds the characters before the carriage return and zeros after; every character read is echoed, and a carriage return is followed by a newline and not stored |
| Shell.Answer | shell/src/main.rs:47-51 | "hello world!" exactly when the buffer starts with "hello", otherwise "Unknown command" |
| Shell.Greets | shell/src/main.rs:47-51 | the buffer starts with "hello" exactly when the line's first five characters, before any carriage return, are "hello" |
| Shell.Round | shell/src/main.rs:31-53 | one round shows the prompt, the echoed line and the answer, and the next round reads from just after the line |

## Left out

- Words are integers bounded to their Rust width rather than bit-vectors. Bit operations are defined arithmetically and proved against their laws.
- Page tables are a map from frame address to 512 entries, and data frames are a map to bytes, instead of raw memory. A frame's zero fill by `alloc_zeroed` is part of installing it.
- The kernel stack of a process is 1024 words. Its address, and the addresses of the linker symbols `__kernel_start` and `__heap_end`, are parameters.
- `switch_context`, `trap_vector`, `user_entry`, CSR reads and writes and `sfence.vma` are left out. Only the values written to `satp`, `sscratch` and `sepc`, and the stack pointers `switch_context` saves and loads, are modelled; the outgoing stack pointer is a parameter of `Process.DoYield`, and the callee-saved registers pushed below it are left out.
- virtio MMIO register access, the feature handshake in `new`, memory fences and the busy-wait are left out. The device is a function from the request it is sent (type, sector, data field) to its reply (the data field and the status byte).
- The request's address is a parameter. `Virtq::init`'s physical addresses are left out.
- Virtio.New, KernelTar.InitBlockDevice: the two heap allocations they make, `alloc_pages` for the queue in `Virtq::init` and `vec![0; capacity]` for the disk image, are assumed to succeed and are not charged to the model's heap. On a heap too small for them the code panics with "Out of Memory!" where the model succeeds.
- SBI calls are left out. The console is an input stream (`Shell.Input`) and an output byte. Only one round of the shell's endless loop is modelled, and the text printed by `print!` is modelled as bytes.
- `common::oct2int` is not part of this model. It is a parameter `oct` of the parser.
- `String::from_utf8_lossy` is left out: names stay bytes, and only the decoded length enters, as the parameter `lossyLen` of the parser as written.
- Ustar.NullTerminatedPaddedAsWritten: returns the name as bytes rather than the decoded `Cow<str>`; its decoded length is the parameter `lossyLen`, assumed never shorter than the bytes where a lemma needs it.
- Ustar.HeaderBlock: reads the name with the corrected `Ustar.NullTerminatedPadded`, not the code's `null_terminated_padded`. A name filling all 100 bytes parses where the code panics, and a name whose decoding is longer than its bytes is read with its whole field where the code skips too few bytes after it or panics (see Findings).
- Ustar.Header, Ustar.Entry, Ustar.TarFile, Ustar.EntryRoundTrip, Ustar.TarFileCons, Ustar.ArchiveRoundTrip, Ustar.TestArchives: inherit the corrected name reading of `Ustar.HeaderBlock`.
- KernelTar.InitFileSystem, KernelTar.MountArchive, KernelTar.ParsedSizes: inherit the corrected name reading of `Ustar.HeaderBlock`.
- Virtio.Submit: kicks with the wrapping `Virtio.Kick`, not the code's overflow-checked increments, so at ring index 65535 it completes the request where the code panics (see Findings).
- Virtio.DiskRead, Virtio.DiskWrite, KernelTar.InitBlockDevice: inherit the wrapping kick of `Virtio.Submit`.
- nom's error values are left out: `FSError::Parsing` carries no message. nom's combinators are re-expressed directly.
- The archive writer (`Ustar.HeaderBytes`, `Ustar.Archive`) is a minimal encoder used only to state the round trip. It writes the name, size and magic fields and zeros elsewhere.
- The spin lock around the allocator is left out: the model is sequential.
- `Process::uninitialized`'s fields, `running_processes`, `ps`, the `Display` and `Debug` impls, panic formatting, kernel/src/main.rs and dummy_procs.rs are left out.
- KernelTar.Size: no contract of its own; the size of a mounted file is stated by `KernelTar.ParsedSizes`.
- Process.InitialStack: its contract gives only the length; the contents are stated by `Process.CreateProcessLayout`.

## Findings

| source | as written | input that shows it | evidently intended | confidence | as-written member | corrected member |
|---|---|---|---|---|---|---|
| kernel/src/virtio.rs:256-261 | `available.index += 1` (and `last_used_index += 1`) on a `u16` with overflow checks on | the 65536th request, when the available index is 65535 | the index wraps to 0, as split-virtqueue ring indices do in section 2.6.6 of VIRTIO 1.1 | medium, not executed; release builds wrap instead | Virtio.KickAsWrittenPanicsAtWrap | Virtio.KickPublishes |
| kernel/src/virtio.rs:321 | `disk_write` copies `buf.len()` bytes into the 512-byte `data` field | a 514-byte buffer: the copy overwrites the status byte and runs past the request | copy at most one sector | high, not executed | Virtio.WriteOverrunsRequest | Virtio.DiskWrite |
| tarfile/src/lib.rs:147 | `max_len - (name.len() + 1)` with the name read up to the first NUL anywhere | a header whose name fills all 100 bytes of its field (ustar allows this) | read the name from the 100-byte field alone, up to its first NUL or the field's end | high, not executed | Ustar.FullNameAsWrittenPanics | Ustar.NullTerminatedPadded |
| tarfile/src/lib.rs:147 | `max_len - (name.len() + 1)` where `name` is the `from_utf8_lossy` decoding of the name bytes | a name of 34 bytes 0xFF: it decodes to 34 U+FFFD, 102 bytes, and the subtraction panics; a single 0xFF decodes to 3 bytes and the parser stops 2 bytes short of the field's end | skip the rest of the field by the number of name bytes read | medium, not executed | Ustar.LossyNameAsWrittenMisreads | Ustar.NullTerminatedPadded |
