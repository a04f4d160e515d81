# SNSX ExOS kernel: a verified model

This project models the stateful core of the SNSX ExOS kernel in Dafny and proves properties of it:
the kernel heap, the page allocator, the AppFS packer and reader, the ATA read path, the ELF loader,
the keyboard ring, the text terminal and the shell's line editor. `dafny verify dfyconfig.toml`
checks everything.

## How the model is built

Memory is one array of bytes (`FlatMemory`). Heap headers, heap payloads, the AppFS buffer and the
app window all live in it, so "does not disturb" is a statement about bytes and not about separate
variables. Pointers are byte addresses and 0 is null. Machine arithmetic that can wrap is written
out: rounding up (`Bytes.AlignUp`) wraps at 64 bits, the packer's offsets and the buffer size
(`Bytes.Wrap32`) at 32, the ELF sums (`Elf.Sum64`) at 64, the ring indices (`Keyboard.Wrap8`) at 8.

| modules | what they model |
|---|---|
| `HeapBlocks`, `HeapLaws` | the heap as a list of blocks, and the laws of `kmalloc`/`kfree` over calls and runs |
| `KernelHeap`, `HeapClients` | the allocator over in-band headers, and its clients' bytes |
| `Pages`, `PageOwnership`, `KernelMemory` | the page bitmap, ownership over runs, and `memory_init` |
| `AppFsImage`, `AppFs`, `AppFsRoundTrip` | the packer, the reader, and their round trip |
| `Ata`, `Elf`, `ElfRoundTrip`, `Runtime`, `Boot` | disk reads, the loader and the files it is given, `appfs_init`/`runtime_launch`, and the boot sequence |
| `Keyboard`, `Terminal`, `Decimal`, `Shell` | the interrupt-fed ring, the screen, number printing, the line editor |
| `Bytes`, `Strings`, `FlatMemory` | words, byte strings and the loops of `strings.c` |

The source's globals become classes (`KernelHeap.Heap`, `Pages.PageAllocator`, `AppFs.AppFs`,
`Ata.Driver`, `Runtime.Runtime`, `Keyboard.Keyboard`, `Terminal.Terminal`, `Shell.Shell`) whose
methods follow the C code and are proved against specification functions; the laws are lemmas about
those functions.

## Where the code falls short, and exactly when

* `kmalloc` rounds a request within 15 bytes of 2^64 to zero and hands out a block that does not
  hold it. A grant covers its request exactly when the request is at most 2^64 - 16
  (`HeapLaws.GrantCoversRequest`). Input: a request of 2^64 - 1 on the fresh heap
  (`HeapLaws.WrappedRequestGetsEmptyBlock`).
* `memory_init` reserves low memory and the kernel, and keeps every later grant above them, exactly
  when the kernel's end rounds up to a page without wrapping (`KernelMemory.LowPagesReserved`,
  `KernelMemory.GrantsStayClear`). Input: any kernel end above 2^64 - 4096; the heap is then granted
  pages 0 to 255, which `page_alloc` reports as null (`KernelMemory.WrappedHeapAtNull`).
* `appfs_init` computes its buffer size in 32 bits; the pages cover the sectors exactly when that sum
  does not wrap (`Runtime.BufferHoldsImage`). Input: 0x80_0008 sectors, for which one page is asked
  (`Runtime.WrappedBufferIsOnePage`).
* The four ATA register bytes carry a sector address exactly when it has 28 bits
  (`Ata.RegistersCarryAddress`). Input: sector 0x1000_0000, which is sent as 0
  (`Ata.HighAddressIsCut`).
* A packed app is found under its own name exactly when the name has at most 31 bytes and no earlier
  app was stored under it (`AppFsRoundTrip.FoundUnderOwnName`). Input: a name of 32 bytes
  (`AppFsRoundTrip.LongNameIsLost`).
* What the keyboard accepts and delivers is what was typed exactly when no key that types a character
  comes in while 255 characters wait (`Keyboard.NothingTypedIsLost`, `Keyboard.TypedIsDelivered`).
  Input: 256 keys and no pop (`Keyboard.LastOf256IsLost`).
* The screen shows the line being edited exactly as long as the line has never outgrown the 74
  columns behind the prompt; erasing does not unwrap it (`Shell.InputShownIffNeverWrapped`). Input: 75
  characters and one backspace (`Shell.ErasingDoesNotUnwrap`).

The shell's help text says that `clear` resets the shell area (`kernel/src/shell.c:32`); the code
redraws the whole screen with `terminal_init` (line 260), and the model follows the code.

## Model

| member | source | states |
|---|---|---|
| HeapBlocks.FirstFit | kernel/src/memory.c:150-153 | the search stops at the first free block large enough, and at the end only when there is none |
| HeapBlocks.MallocKeepsCanonical | kernel/src/memory.c:143-175 | for every request, even one that wraps, allocation leaves blocks that tile the region, aligned, with no two free neighbours |
| HeapBlocks.ReleaseIsMerge | kernel/src/memory.c:182-199 | freeing replaces the freed block and its free neighbours on either side by one free block over the same stretch |
| HeapBlocks.ReleaseKeepsCanonical | kernel/src/memory.c:177-200 | freeing a live block keeps the tiling, the alignment and the absence of free neighbours |
| HeapBlocks.ReleaseRemovesLive | kernel/src/memory.c:177-200 | freeing takes exactly that block out of the live ones, through every combination of merges |
| HeapBlocks.LiveDeterminesList | kernel/src/memory.c:65-79 | the live extents alone determine the whole block list: the free blocks are exactly the maximal gaps |
| HeapBlocks.BlocksDisjoint | kernel/src/memory.c:156-167 | distinct blocks, headers and payloads together, never overlap and stay inside the region |
| HeapLaws.MallocIsFirstFit | kernel/src/memory.c:143-175 | null exactly when nothing is asked for or no free block holds the rounded size; otherwise the first one that does, at most 32 bytes larger, and no other live block changes |
| HeapLaws.GrantCoversRequest | kernel/src/memory.c:148-168 | the granted payload holds the request with fewer than 48 bytes to spare if and only if the request is at most 2^64 - 16 |
| HeapLaws.WrappedRequestGetsEmptyBlock | kernel/src/memory.c:148-168 | a request of 2^64 - 1 on the fresh heap is granted an empty block |
| HeapLaws.GrantedBlock | kernel/src/memory.c:143-175 | the returned pointer is live afterwards and was not live before |
| HeapLaws.FreeRemovesBlock | kernel/src/memory.c:177-200 | freeing a live pointer keeps the canonical form and removes exactly its block |
| HeapLaws.FreeUndoesMalloc | kernel/src/memory.c:155-199 | freeing a fresh grant restores the block list exactly, split or not |
| HeapLaws.FreesCommute | kernel/src/memory.c:177-200 | two frees give the same list in either order |
| HeapLaws.FreeingAllInAnyOrder | kernel/src/memory.c:177-200 | freeing all live pointers, in any order, is legal and leaves the single initial free block |
| HeapLaws.AllFreedRestores | kernel/src/memory.c:65-79 | a run ends in the initial list if and only if it leaves nothing live |
| HeapLaws.ReachableHeap | kernel/src/memory.c:65-79 | after every run: tiling, no free neighbours, free + live + header bytes = region, live payloads aligned and disjoint from all else |
| HeapLaws.RunKeepsPositive | kernel/src/memory.c:143-200 | in every run without wrapping requests all blocks keep at least 16 payload bytes |
| HeapLaws.TilingConserves | kernel/src/memory.c:218-228 | free bytes, live bytes and 32 per block add up to the region |
| HeapLaws.GrantMovesBytes | kernel/src/memory.c:154-171 | a grant adds its size to the live bytes and takes it, and 32 bytes more if it splits, from the free ones |
| HeapLaws.FreeMovesBytes | kernel/src/memory.c:182-199 | freeing takes the block's size from the live bytes and adds it, and 32 for every header that goes, to the free ones |
| HeapLaws.NothingLiveCountsNothing | kernel/src/memory.c:218-228 | with nothing live there are no live bytes, so all but the headers is free |
| KernelHeap.LinksAreMutual | kernel/src/memory.c:159-166 | next and prev pointers in memory are mutually inverse, follow address order and are null at the ends |
| KernelHeap.ConfinedPreserves | kernel/src/memory.c:155-199 | writes confined to headers and one block leave every other live payload and all memory outside the region alone |
| KernelHeap.Heap.Init | kernel/src/memory.c:65-79 | one free block over the region, or no heap for a null region; nothing outside it is written |
| KernelHeap.Heap.Split | kernel/src/memory.c:155-168 | the header created at the computed address, relinked both ways, yields the list with the block cut in two |
| KernelHeap.Heap.MergeNext | kernel/src/memory.c:185-191 | the header writes of the forward merge yield the joined list; only headers are written |
| KernelHeap.Heap.MergePrev | kernel/src/memory.c:193-199 | the header writes of the backward merge yield the joined list; only headers are written |
| KernelHeap.Heap.Kmalloc | kernel/src/memory.c:143-175 | list and pointer are those of the specification for every size; no live payload byte changes; a null result changes no byte |
| KernelHeap.Heap.Kfree | kernel/src/memory.c:177-200 | the list is that of the specification; no byte of a block that stays live changes |
| KernelHeap.Heap.FreeByteCount | kernel/src/memory.c:218-228 | the sum over free blocks, which with live bytes and headers makes up the heap's total |
| HeapClients.Serve | kernel/src/memory.c:143-200 | for any permitted mix of allocations, frees and client writes, memory ends up holding every byte written and not given back |
| HeapClients.NotedUntilFreed | kernel/src/memory.c:143-200 | whatever else is allocated, freed or written, a written byte stays on record until it is overwritten or its block is freed |
| HeapClients.WrittenIsNoted | kernel/src/memory.c:143-200 | so a byte written first is on record at the end of such a run, and Serve leaves it in memory |
| Pages.FirstRun | kernel/src/memory.c:103-130 | the naive search: the lowest start of a free run, none exactly when there is no run |
| Pages.SetPage | kernel/src/memory.c:29-40 | setting one bit of the byte bitmap changes that page and no other |
| Pages.PageAllocator.BitmapSet | kernel/src/memory.c:33-40 | the used pages change at the given index only |
| Pages.PageAllocator.MarkRange | kernel/src/memory.c:42-53 | exactly the pages from start rounded down to end rounded up, clamped to mapped memory, are marked |
| Pages.PageAllocator.CountUsedPages | kernel/src/memory.c:55-63 | the number of used pages |
| Pages.PageAllocator.PageAlloc | kernel/src/memory.c:103-130 | the one-pass scan finds what the naive search finds, marks exactly that run, and otherwise changes nothing; with page 0 in use, null means there is no run |
| Pages.PageAllocator.PageFree | kernel/src/memory.c:132-141 | exactly the given pages, clamped, become free; null frees nothing |
| PageOwnership.AllocKeepsSound | kernel/src/memory.c:103-130 | a grant takes pages that are neither reserved nor owned, and used pages stay exactly the reserved and the owned ones |
| PageOwnership.RunKeepsSound | kernel/src/memory.c:103-141 | over every run, in which clients may free whole grants or any part of what they own, the used pages are exactly the reserved and the owned ones |
| PageOwnership.GrantsAreFresh | kernel/src/memory.c:103-130 | after every run the next grant lies in mapped memory and takes pages that nobody owns and nothing reserves |
| PageOwnership.NothingLeaks | kernel/src/memory.c:103-141 | only the reserved pages are used if and only if everything has been given back |
| PageOwnership.RunConserves | kernel/src/memory.c:55-63 | over every run the used page count is the reserved count plus the number of pages owned |
| PageOwnership.Serve | kernel/src/memory.c:103-141 | the bitmap allocator, driven through any run of calls, ends with the used pages and gives the answers of the specification |
| KernelMemory.MappedBytes | kernel/src/memory.c:82-94 | the memory managed is the boot record's MiB up to 64, and 64 MiB without a record or when it names 0 |
| KernelMemory.ReservedExactly | kernel/src/memory.c:96-98 | before the heap is placed the pages in use are exactly those of low memory, the kernel and the app window, or only the window's when the kernel's end wraps |
| KernelMemory.LowPagesReserved | kernel/src/memory.c:96-97 | low memory and kernel pages are reserved if and only if rounding up the kernel's end does not wrap |
| KernelMemory.OwnedPagesClear | kernel/src/memory.c:98-141 | over every run from boot, for every kernel end: pages granted lie in mapped memory outside the app window, and no grant takes a page someone owns |
| KernelMemory.GrantsStayClear | kernel/src/memory.c:81-141 | in every run from boot every page granted lies above null, low memory and the kernel, if and only if rounding up the kernel's end does not wrap |
| KernelMemory.WrappedHeapAtNull | kernel/src/memory.c:65-70 | with a kernel end that wraps, pages 0 to 255 are granted as null and there is no heap |
| KernelMemory.HeapPlace | kernel/src/memory.c:65-70 | for every memory size and kernel end the heap lies right behind the kernel if its MiB fits below the window, else behind window and kernel, else nowhere |
| KernelMemory.BootHeap | kernel/src/memory.c:65-79 | after boot the heap is one free block of 2^20 - 32 bytes in that place |
| KernelMemory.BootUses | kernel/src/memory.c:81-101 | the pages in use after boot are exactly those set aside and the heap's |
| KernelMemory.KernelMemory.HeapInit | kernel/src/memory.c:65-79 | the heap gets the lowest run of 256 free pages, as one free block, or there is none |
| KernelMemory.KernelMemory.ReservePages | kernel/src/memory.c:81-98 | for every boot record and kernel end: the page count, and the pages set aside before the heap is placed |
| KernelMemory.KernelMemory.MemoryInit | kernel/src/memory.c:81-101 | for every boot record and kernel end: the page count, the pages in use, and the heap's blocks |
| AppFsImage.LayOut | tools/mkappfs.c:84-103 | entries hold truncated names, 32-bit offsets that accumulate the sizes before them, and sizes |
| AppFsImage.Pack | tools/mkappfs.c:57-117 | the output is header, entry table and payloads in order |
| AppFsImage.EntryInImage | tools/mkappfs.c:111-112 | entry i lies at 24 + 44 i in the image |
| AppFsImage.PayloadInImage | tools/mkappfs.c:114-115 | payload i lies in the image at the table's end plus the sizes before it |
| AppFsImage.OnDisk | scripts/build.sh:98-99 | the image zero-padded to whole sectors |
| AppFsImage.FewestSectors | scripts/build.sh:98-99 | the image takes as few sectors as hold it |
| AppFs.AppFs.Validate | kernel/src/appfs.c:12-36 | true exactly when the header in memory has the magic, the version and consistent sizes |
| AppFs.AppFs.EntryCount | kernel/src/appfs.c:68-70 | the header's count, 0 while the catalog is not accepted |
| AppFs.AppFs.EntryAt | kernel/src/appfs.c:72-79 | the address of entry i, null outside the table or while not accepted |
| AppFs.AppFs.Find | kernel/src/appfs.c:81-89 | the first entry whose C string equals the name, else null |
| AppFs.AppFs.DataAt | kernel/src/appfs.c:91-101 | the payload's address, null when offset plus size exceeds the image |
| AppFs.LookUpLocal | kernel/src/appfs.c:12-101 | a lookup depends on nothing but the catalog's bytes |
| AppFs.FirstFileByName | kernel/src/runtime.c:238-245 | looking up the first entry's own name yields the first file |
| AppFsRoundTrip.HeaderReads | kernel/src/appfs.c:12-36 | a packed, padded image passes validation with its own entry count and size |
| AppFsRoundTrip.EntryReads | kernel/src/appfs.c:72-101 | entry i reads back as the truncated name and the extent of payload i |
| AppFsRoundTrip.NameReads | tools/mkappfs.c:96 | the string in a name field is the 31-byte truncation of the name and no other |
| AppFsRoundTrip.RoundTrip | kernel/src/appfs.c:12-101 | for any files that fit 32 bits, lookup by any name yields exactly the first payload packed under it after truncation, or nothing |
| AppFsRoundTrip.FoundUnderOwnName | tools/mkappfs.c:96 | a file is found under its own name if and only if the name has at most 31 bytes and no earlier file was stored under it |
| AppFsRoundTrip.LongNameIsLost | tools/mkappfs.c:96 | an app packed under a name of 32 bytes is not found under that name |
| AppFsRoundTrip.HeaderJudged | kernel/src/appfs.c:12-36 | of all possible headers exactly those with the magic, version 1, a size covering the table and an image size within the sectors read are accepted |
| AppFsRoundTrip.TamperedRefused | kernel/src/appfs.c:19-25 | a packed image with its magic or version overwritten is accepted only if they are the original ones |
| AppFsRoundTrip.EntryJudged | kernel/src/appfs.c:91-101 | of all possible entries exactly those whose 32-bit end lies within the image yield a pointer |
| AppFsRoundTrip.SampleImage | tools/mkappfs.c:63-117 | the 70 bytes of the image of a two-byte file packed under "A" |
| Ata.StatusBits | kernel/src/ata.c:17-21 | busy, error and data request in terms of the bits of the status byte |
| Ata.RegistersCarryAddress | kernel/src/ata.c:79-83 | the register bytes select the first drive and LBA addressing, and carry the low 28 bits of a sector address: all of it if and only if it has no more |
| Ata.HighAddressIsCut | kernel/src/ata.c:79-83 | the first sector address of 29 bits is sent as sector 0 |
| Ata.Driver.WaitNotBusy | kernel/src/ata.c:31-38 | stops at the first poll that shows the device not busy; fails exactly when 100000 polls all show it busy |
| Ata.Driver.WaitForData | kernel/src/ata.c:40-51 | succeeds exactly when one of the next 100000 polls offers data and neither it nor any before it shows an error |
| Ata.Driver.Command | kernel/src/ata.c:79-84 | for every sector address the device starts on its low 28 bits, with exactly the intended count |
| Ata.Driver.TransferSector | kernel/src/ata.c:91-97 | 256 words from the port are the 512 bytes of the sector, in order |
| Ata.Driver.ReadChunk | kernel/src/ata.c:73-103 | one command extends what memory shows of the disk by exactly its sectors, and writes nothing else even when it fails; it succeeds only if no poll after the device went idle showed an error |
| Ata.Driver.Read | kernel/src/ata.c:63-107 | on success the buffer holds exactly the requested consecutive sectors, and no poll of a transfer showed an error in any of the 255-sector commands; nothing else is written; a responsive device makes it succeed |
| Strings.StringCompare | kernel/src/strings.c:11-20 | zero exactly when the two C strings are equal, otherwise the difference of the first bytes that differ, terminators included |
| Strings.MemoryCompare | kernel/src/strings.c:66-77 | zero exactly when the bytes are equal, otherwise the difference of the first two that differ |
| Strings.MemoryCopy | kernel/src/strings.c:45-54 | every destination byte, for all overlaps of source and destination; nothing else changes |
| Strings.MemorySet | kernel/src/strings.c:56-64 | exactly the given stretch is filled |
| Elf.ValidateElf | kernel/src/runtime.c:97-121 | true exactly for files with the identification fields and a header table end within the file |
| Elf.PlaceSegment | kernel/src/runtime.c:145-151 | file bytes then zeros over the segment's extent, all other window bytes as before |
| Elf.LoadSegment | kernel/src/runtime.c:129-152 | one segment: refused exactly when it loads and is out of bounds; otherwise the window shows it on top of the earlier ones |
| Elf.LoadSegments | kernel/src/runtime.c:123-155 | success exactly when every segment to load passes its bounds; every window byte is what the segments before the first refused one say; nothing outside the window, so neither the package image, is written |
| Elf.LastCoveringDecides | kernel/src/runtime.c:129-152 | the last segment covering an address decides its byte |
| Elf.UncoveredIsZero | kernel/src/runtime.c:127 | an address no segment covers holds zero |
| Elf.SegmentInWindow | kernel/src/runtime.c:129-152 | byte k of a segment that no later one covers is byte k of its file part, at p_offset + k, and zero from p_filesz on |
| Elf.ExactFit | kernel/src/runtime.c:136-143 | a segment ending exactly at the end of the file or of the window is admitted, one byte more on either side is not |
| ElfRoundTrip.HeaderJudged | kernel/src/runtime.c:97-121 | every header field is read from its place in the format; exactly the 64-bit little-endian x86-64 executables whose table ends within the file are accepted |
| ElfRoundTrip.SegmentRead | kernel/src/runtime.c:124-130 | every program header field is read from its place in the format |
| ElfRoundTrip.SegmentsWritten | kernel/src/runtime.c:97-130 | in any file written from parts the loader sees exactly those parts, and all it takes for granted holds |
| ElfRoundTrip.AcceptedIffInWindow | kernel/src/runtime.c:132-143 | such a file is accepted if and only if every part to be loaded lies in the app window |
| ElfRoundTrip.PartsInWindow | kernel/src/runtime.c:145-151 | and then every part's data, and the zeros behind it, are in memory where it was linked to, except under a later part |
| Runtime.BufferHoldsImage | kernel/src/appfs.c:50 | the pages requested cover the sectors if and only if the 32-bit sum does not wrap |
| Runtime.WrappedBufferIsOnePage | kernel/src/appfs.c:50 | for 0x80_0008 sectors a single page is asked for |
| Runtime.BootSetsAside | kernel/src/memory.c:96-100 | after boot null's page and the app window are in use, for every memory size and every kernel end |
| Runtime.FreeRunIsClear | kernel/src/memory.c:98 | a run of free pages is never at null and never meets the app window |
| Runtime.Runtime.AppfsInit | kernel/src/appfs.c:38-62 | success exactly when sectors are named, pages found, the disk answers and the header is valid; the sectors then lie in memory clear of the window, and no page in use was written |
| Runtime.Runtime.RuntimeInit | kernel/src/runtime.c:157-160 | the runtime is ready exactly when the catalog was read and accepted |
| Runtime.LaunchImage | kernel/src/runtime.c:195-212 | a file is accepted exactly when valid with admissible segments, and the window then shows it |
| Runtime.Runtime.Lookup | kernel/src/runtime.c:185-193 | the address and size of the file the catalog holds under the name, null when it holds none |
| Runtime.Runtime.RuntimeLaunch | kernel/src/runtime.c:180-212 | succeeds exactly when the catalog holds a launchable file under the name; the window shows it; only the window is written, so every later lookup finds the same |
| Runtime.Runtime.RuntimeAutorun | kernel/src/runtime.c:222-247 | succeeds exactly when the catalog has a first file and it can be launched; the window shows it |
| Boot.PackedFound | kernel/src/appfs.c:81-101 | a catalog read from a packed disk holds the packed payloads under their names |
| Boot.PackedFirst | kernel/src/appfs.c:68-101 | the first file of a catalog read from a packed disk is the first one packed |
| Boot.WrittenLaunchable | kernel/src/runtime.c:195-212 | a program written from parts can be launched if and only if they lie in the window, and is entered at the address it names |
| Boot.WrittenLaunched | kernel/src/runtime.c:195-212 | once launched, its bytes lie where they were linked to |
| Boot.StartApp | kernel/src/runtime.c:157-212 | from a packed disk to an app launched by name, with success characterised |
| Boot.StartFirst | kernel/src/runtime.c:222-247 | from a packed disk to the first app, with success characterised; no page in use outside the window was written |
| Boot.KernelMain | kernel/src/main.c:29-45 | for every memory size and every kernel end the heap ends up with exactly the blocks memory_init gave it, and with an answering disk the window holds the first packed program exactly when there is one, it can be loaded, and there are pages for the catalog |
| Keyboard.PushAppends | kernel/src/keyboard.c:45-53 | a push is refused if and only if 255 characters wait; otherwise it appends, and never touches the oldest slot |
| Keyboard.AdvanceDrops | kernel/src/keyboard.c:94-95 | advancing the tail drops exactly the oldest character |
| Keyboard.UninterruptedPop | kernel/src/keyboard.c:89-97 | the six memory accesses of a pop, uninterrupted, deliver the oldest character and drop it |
| Keyboard.InterruptKeepsConsistent | kernel/src/keyboard.c:61-87 | an interrupt at any point of a pop keeps what the consumer has loaded true and the slot it reads intact |
| Keyboard.EveryInterleavingIsConsistent | kernel/src/keyboard.c:45-97 | for every interleaving of interrupts with the accesses of a pop: accepted = popped ++ waiting |
| Keyboard.ShiftFollowsTheKeys | kernel/src/keyboard.c:64-74 | in every interleaving shift counts as held exactly when, of the four codes of the shift keys, the last to come in was a press |
| Keyboard.ShiftedThenPlain | kernel/src/keyboard.c:64-84 | shift down, A, shift up, A types "Aa" |
| Keyboard.PrintableHasKey | kernel/src/keyboard.c:13-43 | every printable ASCII character can be typed |
| Keyboard.ControlKeys | kernel/src/keyboard.c:16-19 | the keys for backspace, tab and newline |
| Keyboard.NothingTypedIsLost | kernel/src/keyboard.c:45-87 | in every interleaving, what was accepted is what was typed, shift state included, if and only if no key that types came in while 255 characters waited |
| Keyboard.TypedIsDelivered | kernel/src/keyboard.c:45-97 | under that condition and no other, what was typed is what was popped followed by what waits |
| Keyboard.LastOf256IsLost | kernel/src/keyboard.c:45-49 | of 256 characters typed without a pop, 255 are accepted |
| Keyboard.PoppedArePrintable | kernel/src/keyboard.c:81-84 | no popped character is the terminator or a carriage return, so a popped terminator means an empty ring |
| Keyboard.Keyboard.BufferPush | kernel/src/keyboard.c:45-53 | the ring after the push, refused or not |
| Keyboard.Keyboard.IrqHandler | kernel/src/keyboard.c:61-87 | the ring after a scan code: shift keys, releases, unmapped keys and characters |
| Keyboard.Keyboard.Pop | kernel/src/keyboard.c:89-97 | the oldest character leaves the ring, or the terminator comes back and nothing changes |
| Terminal.PlainCharOnTape | kernel/src/terminal.c:148-153 | wrapping is invisible: a plain character fills the tape cell under the cursor and no other |
| Terminal.ErasedOnTape | kernel/src/terminal.c:168-175 | backspace goes back one tape cell and blanks it, and at the start of a row does nothing |
| Terminal.BreaksOnTape | kernel/src/terminal.c:138-146 | newline goes to the start of the next row, carriage return to the start of this one; neither changes a cell |
| Terminal.EraseUndoesPlain | kernel/src/terminal.c:148-175 | erasing a plain character just written restores the cursor, even when the character wrapped, and blanks its cell |
| Terminal.TextOnTape | kernel/src/terminal.c:156-161 | a text without breaks fills the tape from the cursor on, however often it wraps |
| Terminal.NewLineOnScreen | kernel/src/terminal.c:65-84 | what a new line does to each screen cell: nothing, or one row up with a blank last row |
| Terminal.HeaderRowSpelled | kernel/src/terminal.c:94-107 | a header row is two columns of margin, its text, and fill to the right |
| Terminal.Terminal.WriteAt | kernel/src/terminal.c:57-63 | the text in its row, clipped at column 80, and nothing else |
| Terminal.Terminal.DrawHeader | kernel/src/terminal.c:86-109 | the six header rows cell by cell; the rows below stay |
| Terminal.Terminal.Init | kernel/src/terminal.c:116-121 | header drawn, all else blank, cursor on row 6 |
| Terminal.Terminal.Scroll | kernel/src/terminal.c:65-76 | rows 6 to 24 move up by one, the last becomes blank, the header stays |
| Terminal.Terminal.Newline | kernel/src/terminal.c:78-84 | a new line in the log; screen and header as they should be |
| Terminal.Terminal.WriteChar | kernel/src/terminal.c:137-154 | newline, return, lazy wrap and plain characters on the log; the screen shows its tail |
| Terminal.Terminal.BackspaceKey | kernel/src/terminal.c:168-175 | blanks the cell before the cursor, nothing at column 0 |
| Terminal.Terminal.Prompt | kernel/src/terminal.c:177-186 | the prompt's cells in the prompt's color |
| Terminal.Session | kernel/src/terminal.c:116-175 | for any sequence of characters and backspaces: header intact, rows 6 to 24 show the last log lines, cursor on screen |
| Terminal.Terminal.WriteUint | kernel/src/terminal.c:201-219 | prints the decimal digits of any 32-bit value within an 11-character buffer |
| Terminal.Terminal.WriteUint64 | kernel/src/terminal.c:221-239 | prints the decimal digits of any 64-bit value within a 21-character buffer |
| Decimal.DigitsDenote | kernel/src/terminal.c:210-218 | the digits read back to the value and have no leading zero |
| Decimal.DigitCount | kernel/src/terminal.c:202-213 | n digits suffice if and only if the value is below 10^n |
| Decimal.WordDigits | kernel/src/terminal.c:222-233 | at most 10 digits for 32 bits and 20 for 64, both reached |
| Shell.RunsCommands | kernel/src/shell.c:299-335 | the commands executed are the non-empty lines of the key stream, each edited on its own |
| Shell.BufferBounded | kernel/src/shell.c:329-333 | the buffer holds at most 127 characters, and so does every command |
| Shell.PlainLineKept | kernel/src/shell.c:289-333 | a line of ordinary characters is kept as typed, up to 127 of them |
| Shell.EraseTakesBack | kernel/src/shell.c:306-312 | backspace takes back the last character of any line; on a full buffer, after one more character that was dropped, the 127th |
| Shell.EmptyPopIgnored | kernel/src/shell.c:301-304 | a pop from an empty ring changes neither buffer, commands nor screen |
| Shell.PlainLineOnTape | kernel/src/shell.c:329-334 | a line of ordinary characters is echoed as far as it is kept, on as many rows as it takes |
| Shell.PromptSpelled | kernel/src/terminal.c:177-186 | the prompt on a fresh line, glyph by glyph and color by color |
| Shell.InputShownIffNeverWrapped | kernel/src/shell.c:306-334 | the cursor's row shows prompt and buffer if and only if the line never exceeded 74 characters |
| Shell.ErasingDoesNotUnwrap | kernel/src/shell.c:306-334 | after 75 characters and one backspace the row no longer shows prompt and buffer |
| Shell.TypedCommandsRun | kernel/src/shell.c:299-335 | from key presses to commands: unless a key was refused, the commands executed are those of what was typed, once it is all popped |
| Shell.Shell.HandleKey | kernel/src/shell.c:300-334 | one key: the buffer, the commands run and the echo; after newline a fresh prompt |
| Shell.Shell.Run | kernel/src/shell.c:288-336 | over any stream of characters: the commands executed and the pending line; and, while that line holds no carriage return, exactly when the screen shows it |

## Left out

- Boot assembly, mode switch, page tables, GDT, linker scripts and interrupt stubs: hardware sequencing.
- `pic.c`, `pit.c`, `idt.c`, `ports.c`, `serial.c`: port I/O; the interrupt gates of `idt.c` appear only as the atomicity of `Keyboard.Handle`.
- The app's own execution and its API table: foreign code; the model ends with the loaded window and the entry value.
- Fixed texts (help, header rows, reports), reboot and halt: the header rows and the commands' responses are parameters.
- File reading and allocation failures in the packer: its input is a list of names and contents.
- Hexadecimal printing, `terminal_clear_shell` and the read-only accessors of `appfs.c`, `runtime.c` and `memory.c`: they would add only easy members.
- KernelHeap.Heap.Kfree: demands null or a live pointer, as the code does without checking.
- KernelHeap.Heap.Kmalloc: the padding bytes of a header are not given a meaning; the free flag is a byte that is 0 or not.
- Ata.Driver.ReadChunk: makes the same assumptions as Ata.Driver.Read.
- Ata.Driver.Read: assumes sector addresses of 28 bits and an existing disk range, which the code does not check; the 400 ns settling time of the bus is not modelled.
- Runtime.Runtime.RuntimeInit: makes the same assumptions as Runtime.Runtime.AppfsInit.
- Runtime.Runtime.AppfsInit: assumes that the 32-bit buffer size does not wrap (the exact condition is Runtime.BufferHoldsImage) and that it is called once.
- Runtime.Runtime.RuntimeLaunch: assumes of an accepted catalog that its table lies in the buffer, its names are terminated there and no offset and size wrap when added, none of which the code checks; packed images meet all of it.
- Runtime.Runtime.RuntimeAutorun: makes the same assumptions as Runtime.Runtime.RuntimeLaunch.
- Runtime.Runtime.Lookup: makes the same assumptions about the catalog as Runtime.Runtime.RuntimeLaunch.
- Runtime.LaunchImage: makes the same assumptions about the file as Elf.LoadSegments.
- Elf.PlaceSegment: makes the same assumptions about the segment as Elf.LoadSegments.
- Elf.LoadSegments: assumes 56-byte program headers, sums within 64 bits, and no loaded segment with more bytes in the file than in memory (System V gABI, chapter 5, section "Program Header"); the code checks none of these.
- Terminal.Terminal.DrawHeader: takes the texts and colors of the six rows as a parameter, because they are fixed text.
- Terminal.Terminal.Prompt: demands that the prompt fits the current row, as its only callers, on fresh lines, ensure.
- Shell.Shell.Execute: a command's effect on the terminal is a parameter that ends its last line or clears the screen; the dispatch over command names is not modelled.
- Boot.KernelMain: leaves out the interrupt and timer set-up between memory_init and runtime_init, and ends where the first app is entered.
