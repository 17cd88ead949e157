# zkrnl32 memory and console, verified

A Dafny model of the memory subsystem of zkrnl32, a 32-bit x86 kernel, as one
chain: the Multiboot memory map the boot loader hands over, the bitmap frame
allocator built from it, and the two-level page directory built from the
allocator. Beside it stands the VGA text console with the volatile copy it
scrolls by. `dafny verify dfyconfig.toml` checks the whole project.

| file | what it holds |
|---|---|
| `Words.dfy` | 32-bit words as integers; what each bit of `&`, `\|`, `!`, `<<`, `>>` is; masks and packed fields |
| `FrameSpec.dfy` | the allocator as a set of free frames and a hint; completeness, ownership, conservation, packed-low |
| `Multiboot.dfy` | the map iterator over bytes, when its walk ends, the round trip, the usable-memory total |
| `Layout.dfy` | the linker symbols and what the linker script and the boot stub promise of them |
| `FrameBitmap.dfy` | the packed bitmap, its masks, search, allocation, free and `init`, against `FrameSpec` |
| `Addresses.dfy`, `Entries.dfy` | the 10/10/12 split of an address; packed table entries |
| `Mmu.dfy` | the processor's walk, from sections 4.3 and 4.6 of the Intel SDM, volume 3A |
| `Paging.dfy` | the directory builder: the code, and the step functions it is proved against |
| `Directory.dfy` | the invariant each builder step keeps, and the translation it amounts to |
| `PagingTheorems.dfy` | when `paging::init` completes, where every address then leads, what that rules out |
| `Boot.dfy` | `memory::init` end to end |
| `Volatile.dfy`, `ScreenLog.dfy`, `Vga.dfy` | the overlap-safe copy, the unbounded log of rows, the writer |

## How the source is modelled

- Both build profiles are modelled (`Profile`): in a development build integer
  overflow panics, in a release build it wraps. Panics are result values, never
  preconditions.
- Stateful code is imperative: `FrameBitmap`, `WordMasks`, `MemoryMap` and
  `VgaWriter` are classes whose methods change their fields and arrays; the page
  directory is built in an `array` of 1024-word frames standing for physical
  memory. Each method is proved equal to a specification function, and the
  theorems are about those functions.
- Physical memory in the model holds page-table data only; the bitmap and the
  stack, which lie inside the image, are separate. That the two do not collide is
  part of what is proved: no directory frame is a frame of the image.
- The layout (`Layout.Valid`) is what `boot/linker.ld:19-79` and
  `boot/boot.asm:33-42` fix: page-aligned, ordered, image within the first 4 MiB,
  guard page and 64 KiB stack in the writable part.
- Loading CR3 and setting CR0.WP is modelled as: the processor's walk now starts
  at the new directory and honours the read-only bit.

## Where the code does not do what its comments promise

- `src/multiboot.rs:98-99` says the walk always terminates. In a release build
  an entry of size 2^32 - 4 has stride zero and the iterator yields it forever
  (`Multiboot.WalkCanHang`). The walk ends exactly when no such entry is reached
  or overflow panics (`Multiboot.WalkEndsIff`).
- `src/memory/mod.rs:20-23` says every fully-available frame is freed. Two kinds
  of map break it. A region reaching exactly or beyond 4 GiB is dropped whole by a
  release build and, if it starts above zero, panics a development build
  (`FrameBitmaps.RegionReachingFourGiBIsLost`). And since each region is rounded
  inward on its own (`src/memory/frame.rs:116-117`), a frame in which two available
  regions meet is lost although all its bytes are available
  (`FrameBitmaps.FrameSplitByRegionsIsLost`). The promise is kept, for every map
  that does not panic, if and only if no available region contains the last frame
  and no frame outside frame 0 and the image is covered only by two or more
  available regions together (`FrameBitmaps.InitPublishesAllIff`).

## Model

| member | source | states |
|---|---|---|
| `Boot.BootIsCorrect` | src/memory/mod.rs:30-42 | end to end, from the bytes of the memory map: after boot the processor's walk takes every 32-bit address where the kernel intends or faults, the directory's three frames are usable memory outside frame 0 and the image, no other frame of memory was stored to, and what is left free is exactly the rest of the usable memory, packed low |
| `Boot.BootUsesOnlyRam` | src/memory/frame.rs:110-121 | every frame boot leaves free or stores to lies wholly inside one entry of the map whose four type bytes are 1, 0, 0, 0, its base and length read little-endian off the bytes |
| `Boot.BootedWindow` | src/memory/paging.rs:237-264 | the same of the recursive window, after boot |
| `Boot.BootCompletesIff` | src/memory/mod.rs:30-42 | whatever the loader hands over, boot completes if and only if the map flag is set, the walk of the map neither gets stuck (release) nor overflows (development), publishing its regions does not overflow (development), and it offers three usable frames below 4 MiB |
| `Boot.BootHangsIff` | src/memory/mod.rs:30-42 | boot never ends if and only if the map flag is set and a release build's walk reaches an entry of size 2^32 - 4; with the flag clear the bytes of the map do not matter |
| `Boot.BootedIsProtected` | src/memory/mod.rs:30-42 | after boot no writable address, the recursive window included, maps `.text` or `.rodata`, no address reaches the stack guard, and none is user-accessible |
| `Boot.BootHandsOver` | src/memory/paging.rs:247-300 | in the one memory boot leaves, the bootstrap directory is still intact; outside the recursive window the new directory maps no address differently from it and grants no new right, and every address execution needs is mapped alike by both |
| `Boot.BootedAllocatorIsSafe` | src/memory/mod.rs:30-42 | after boot, over every sequence of allocations and frees, no run handed out holds frame 0, an image frame or a directory frame, runs never overlap, no double free is reached and no frame is lost |
| `Boot.BootedSinglesAreLowest` | src/memory/frame.rs:151-169 | after boot, along every run of single-frame allocations and frees, the next allocate_one takes the lowest free frame and fails only when none is free |
| `Boot.Init` | src/memory/mod.rs:30-42 | the imperative boot path computes exactly the specified memory, allocator and directory frame, and panics exactly where specified, with or without a map |
| `Boot.PublishedIsPacked` | src/memory/frame.rs:109-127 | the allocator the map produces is packed low, and its free frames below 4 MiB are the usable ones of the map |
| `PagingTheorems.ExactTranslation` | src/memory/paging.rs:257-295 | after `paging::init` the walk of every virtual address v, in addresses written out, is v - 0xC000_0000 for kernel bytes off the guard page (writable from the data section up), v itself read-write below the image, the table of slot i at page i of [0xFFC0_0000, 2^32), and a fault everywhere else; the directory sits in the three lowest free frames and no other memory changed |
| `PagingTheorems.RecursiveWindow` | src/memory/paging.rs:237-239 | at 0xFFFF_F000 the directory itself is mapped read-write; page i of the top 4 MiB shows the frame that word i of the directory in memory points at, or faults if that word is not present |
| `PagingTheorems.BuildDirectoryExact` | src/memory/paging.rs:257-295 | from a packed-low allocator `init` completes if and only if three free frames lie below 4 MiB, and then leaves the finished directory |
| `PagingTheorems.ImageReachedOnlyHigh` | src/memory/paging.rs:264-295 | any address that reaches an image frame is that frame's own high-half address, never the guard's, and is writable only outside the read-only sections |
| `PagingTheorems.SectionsAreProtected` | src/memory/paging.rs:264-295 | no writable mapping of a read-only section and no mapping of the guard, read off the processor's walk |
| `PagingTheorems.BootTranslation` | src/memory/paging.rs:214-220 | the bootstrap directory translates exactly [0, 4 MiB) to itself and [0xC000_0000, 0xC040_0000) to the same memory, read-write, and nothing else |
| `PagingTheorems.HandOverAgrees` | src/memory/paging.rs:247-256 | every address outside the recursive window that the new directory translates led to the same physical address under the bootstrap directory, with at least the same rights |
| `PagingTheorems.ExecutionSurvives` | src/memory/paging.rs:297-300 | every kernel byte off the guard page, the 64 KiB stack, frame 0 and (when the image lies above it) the VGA buffer stay mapped where they were across the switch; the stack, frame 0 and VGA writably |
| `PagingTheorems.MapKernelExact` | src/memory/paging.rs:268-281 | the kernel loop panics exactly when it needs a table and no low frame is free; otherwise every kernel page but the guard gets its intended mapping and every other page keeps its own |
| `PagingTheorems.MapLowExact` | src/memory/paging.rs:286-295 | the same of the identity loop below the image |
| `Directory.MapBootstrapIsOnePoint` | src/memory/paging.rs:351-371 | outside the recursive window, one `map_bootstrap` gives that page the asked translation and changes no other address's |
| `Directory.MapBootstrapBuilt` | src/memory/paging.rs:351-371 | one `map_bootstrap` panics exactly when it needs a table and no free frame lies below 4 MiB; otherwise directory and table frames stay distinct, taken from the allocator, below 4 MiB, and memory outside them is untouched |
| `Directory.TranslateBuilt` | src/memory/paging.rs:1-12 | for every address the processor's walk of a directory that meets the invariant is its abstract page map, and its own tables in the recursive window |
| `Directory.PlaceFrameExact` | src/memory/paging.rs:317-347 | obtaining a paging frame takes the lowest free frame and panics exactly when no free frame lies below 4 MiB |
| `Paging.Init` | src/memory/paging.rs:257-313 | the imperative builder computes the specified memory, allocator and directory frame, or panics exactly where specified |
| `Paging.MapKernelPages` | src/memory/paging.rs:266-281 | the kernel loop, against its specification |
| `Paging.MapKernelPage` | src/memory/paging.rs:269-280 | one iteration: the guard page is skipped, any other page is mapped |
| `Paging.MapLowPages` | src/memory/paging.rs:286-295 | the identity loop, against its specification |
| `Paging.MapPage` | src/memory/paging.rs:351-371 | one `map_bootstrap`, against its specification, panics included |
| `Paging.TakeFrame` | src/memory/paging.rs:317-322 | one paging frame from the allocator, or the panic |
| `Paging.ZeroFrame` | src/memory/paging.rs:331-347 | zeroes exactly the frame, and panics exactly above the bootstrap identity map |
| `Mmu.TranslateIgnoresAccess` | src/memory/paging.rs:62-65 | the accessed and dirty bits the processor sets never change a translation |
| `Mmu.RightsNeedBothLevels` | src/memory/paging.rs:51-56 | an address is present, writable or user-accessible exactly when both levels of the walk say so |
| `Entries.EntryRoundTrip` | src/memory/paging.rs:140-203 | every entry decodes to the frame and flags it was built from, and is huge only if its flags carry bit 7 |
| `Entries.KernelEntryBits` | src/memory/paging.rs:70-73 | the entries the kernel writes are present, supervisor, not huge, and writable exactly when built read-write |
| `Addresses.SplitThenJoin` | src/memory/address.rs:78-95 | every virtual address is rebuilt from its three indices, and its page number is the two table indices side by side |
| `Addresses.JoinThenSplit` | src/memory/address.rs:78-95 | three in-range indices survive joining and splitting |
| `Addresses.FloorCeil` | src/memory/address.rs:34-43 | floor and ceiling bracket the address and differ exactly off frame boundaries |
| `FrameSpec.EveryRunConserves` | src/memory/frame.rs:146-189 | over every sequence of allocate, allocate_one and free: held runs pairwise disjoint, none holding a free frame, free plus held exactly the published set, no double-free panic |
| `FrameSpec.ConservesCount` | src/memory/frame.rs:146-189 | the number of free frames plus the lengths of the held runs is the number published |
| `FrameSpec.ReleaseNeverPanics` | src/memory/frame.rs:171-183 | freeing any held run never reaches the double-free panic |
| `FrameSpec.DoubleFreePanics` | src/memory/frame.rs:171-183 | the check fails exactly when some frame of the run is free, so freeing a run a second time always panics |
| `FrameSpec.FreeExact` | src/memory/frame.rs:184-188 | freeing adds exactly the run's frames, and the new hint is the greatest that is neither above the old one nor past the run's start |
| `FrameSpec.AllocateFailsIffNoRun` | src/memory/frame.rs:156-169 | for every bitmap and hint, `allocate(n)` fails if and only if no n contiguous free frames exist, and then changes nothing |
| `FrameSpec.AllocateTakesFirstFit` | src/memory/frame.rs:158-226 | on success the run is the lowest at or above the hint, or the lowest of all if that pass finds none; it was free, it alone is taken, and the hint stays in range |
| `FrameSpec.EverySingleRunStaysPacked` | src/memory/frame.rs:146-189 | along every run whose allocations are all allocate_one, mixed with frees, no free frame lies below the hint |
| `FrameSpec.AllocateOneTakesLowest` | src/memory/frame.rs:151-169 | from a packed state allocate_one takes the lowest free frame, fails only when nothing is free, and stays packed |
| `FrameBitmaps.InitExact` | src/memory/frame.rs:109-127 | for any regions in any order, overlapping or repeated: exactly when `init` panics, and a frame ends free if and only if it lies wholly inside one available region ending below 4 GiB, is not frame 0 and is not in the image |
| `FrameBitmaps.OnlyRamIsFreed` | src/memory/frame.rs:111-114 | every frame free after `init` lies wholly inside a region of kind Available; with no such region nothing is free |
| `FrameBitmaps.InitPublishesAllIff` | src/memory/mod.rs:20-23 | the free frames are exactly those whose every byte is available (frame 0 and the image apart) if and only if no available region contains the last frame and no frame that could be freed is covered only by two or more regions together |
| `FrameBitmaps.FrameSplitByRegionsIsLost` | src/memory/frame.rs:115-120 | two adjoining available regions that meet inside frame 256: every byte of the frame is available, and neither build frees it |
| `FrameBitmaps.RegionReachingFourGiBIsLost` | src/memory/frame.rs:111-121 | a map with one region from 1 MiB to 4 GiB panics a development build and leaves a release build with no free frame |
| `FrameBitmaps.PublishRegionExact` | src/memory/frame.rs:110-121 | what one region of the map adds to the free set, and when it panics |
| `FrameBitmaps.MasksCoverOnce` | src/memory/frame.rs:258-277 | splitting a frame range along words covers each of its frames exactly once and no other |
| `FrameBitmaps.MasksInBounds` | src/memory/frame.rs:258-277 | every word such a split names exists |
| `FrameBitmaps.ClippedMaskIsRange` | src/utils/bits.rs:34-47 | the clipped mask has exactly the bits of its range, and reports how many |
| `FrameBitmaps.WordMasks.Next` | src/memory/frame.rs:261-277 | the iterator yields the pairs of the split one by one |
| `FrameBitmaps.FrameBitmap.constructor` | src/memory/frame.rs:101-106 | every frame starts occupied |
| `FrameBitmaps.FrameBitmap.IsFree` | src/memory/frame.rs:230-232 | the one-hot test is membership in the free set |
| `FrameBitmaps.FrameBitmap.SetFree` | src/memory/frame.rs:240-246 | set union with the frames of the range; panics exactly when a non-empty range ends past the last frame, having then freed the frames it does have |
| `FrameBitmaps.FrameBitmap.SetOccupied` | src/memory/frame.rs:248-255 | set difference, with the same panic and the same partial effect |
| `FrameBitmaps.FrameBitmap.AnyFreeIn` | src/memory/frame.rs:234-238 | whether the range meets the free set, for every range; it panics exactly when no frame is found and a non-empty range ends past the last frame |
| `FrameBitmaps.FrameBitmap.ScanForRun` | src/memory/frame.rs:202-226 | the one-pass scan is first fit |
| `FrameBitmaps.FrameBitmap.FindRun` | src/memory/frame.rs:191-200 | first fit from the hint, then from the bottom |
| `FrameBitmaps.FrameBitmap.Allocate` | src/memory/frame.rs:156-169 | the bitmap refines allocation on the set |
| `FrameBitmaps.FrameBitmap.AllocateOne` | src/memory/frame.rs:151-154 | allocation of one frame |
| `FrameBitmaps.FrameBitmap.Free` | src/memory/frame.rs:171-189 | panics exactly when some frame in [start, start + len) is free, leaving bitmap and hint intact; otherwise refines free on the set, hint included |
| `FrameBitmaps.FrameBitmap.MarkFree` | src/memory/frame.rs:137-149 | publishes a range without a double-free check, and panics exactly when it reaches past the last frame |
| `FrameBitmaps.FrameBitmap.ReserveBytes` | src/memory/frame.rs:129-135 | occupies every frame the bytes touch |
| `FrameBitmaps.ReserveExact` | src/memory/frame.rs:129-135 | reserving keeps a frame free exactly if the byte range does not reach into it; the hint is untouched |
| `FrameBitmaps.FrameBitmap.Publish` | src/memory/frame.rs:110-121 | one iteration of `init`'s loop, in 32-bit arithmetic |
| `FrameBitmaps.FrameBitmap.Init` | src/memory/frame.rs:109-127 | the imperative `init` over the map iterator, against its specification |
| `Multiboot.MapRoundTrip` | src/multiboot.rs:88-109 | laying out any list of regions with any padding and a short tail, then walking the bytes, gives back exactly that list; the byte format itself is fixed by `Multiboot.EntryOnTheWire` |
| `Multiboot.EntryOnTheWire` | src/multiboot.rs:61-109 | for every buffer and offset with a whole entry: size, base and length are the little-endian numbers at offsets 0, 4 and 12, the kind is Available, AcpiReclaimable, AcpiNvs or Defective exactly for type bytes 1, 3, 4 or 5 followed by zeros and otherwise Reserved with that code, and the cursor moves by size + 4, saturating |
| `Multiboot.EndedWalkStaysEnded` | src/multiboot.rs:88-109 | after its last region the iterator yields nothing, forever |
| `Multiboot.WalkEndsIff` | src/multiboot.rs:98-102 | the walk ends if and only if overflow panics or no entry of size 2^32 - 4 is reached |
| `Multiboot.WalkPanicsIff` | src/multiboot.rs:100-102 | a walk panics if and only if overflow panics and an entry of size at least 2^32 - 4 is reached |
| `Multiboot.WalkCanHang` | src/multiboot.rs:98-102 | a 24-byte buffer on which a release build's walk never ends and a development build's panics |
| `Multiboot.UsableTotalNeverOverflows` | src/multiboot.rs:197-210 | the running total stays below 2^64 on every walk that ends; with sizes that fit, at most len/4 regions and a total of at most 2^62 |
| `Multiboot.UsableBytes` | src/multiboot.rs:197-210 | the loop computes the total of addressable bytes of available regions, without overflow |
| `Multiboot.UsableTotalAdds` | src/multiboot.rs:197-210 | the total of two maps read one after the other is the sum of theirs |
| `Multiboot.UsableTotalOfOne` | src/multiboot.rs:175-209 | one region counts for exactly its bytes below 4 GiB if it is available, for nothing otherwise |
| `Multiboot.NoRamNoTotal` | src/multiboot.rs:207-209 | a map with no region of kind Available totals zero |
| `Multiboot.AddressableBytesAreTheLowOnes` | src/multiboot.rs:172-183 | clamping keeps exactly the bytes of the region below 4 GiB |
| `Multiboot.KindRoundTrip` | src/multiboot.rs:128-136 | every region kind survives its code |
| `Multiboot.KindFromCode` | src/multiboot.rs:128-136 | which kind each four bytes of type code stand for, byte by byte |
| `Multiboot.MemoryMap.Next` | src/multiboot.rs:88-109 | one step of the iterator, with 32-bit stride arithmetic and a saturating cursor |
| `Volatile.Copy` | src/volatile.rs:15-34 | for every element size, count and overlap, each destination byte ends equal to the old source byte at the same distance and every other byte is unchanged |
| `Volatile.CopyForward` | src/volatile.rs:28-31 | the ascending loop, when the destination does not start inside the source |
| `Volatile.CopyBackward` | src/volatile.rs:22-26 | the descending loop, when it does |
| `ScreenLog.LogIsPagination` | src/vga.rs:82-122 | from a cleared screen, after any text in any colours, the log is the text laid out, in numbers written out, in rows of 80 with lazy wrap and line breaks at byte 10, blanks of byte 32, later rows blanked in the colour of the byte that started them |
| `ScreenLog.PaginateFrom` | src/vga.rs:94-122 | the same from any fresh row |
| `ScreenLog.PlainText` | src/vga.rs:98-107 | in a text without line breaks byte j is in row j / 80, column j % 80 |
| `Vga.ScreenIsEndOfText` | src/vga.rs:47-63 | after any calls printing any bytes in any colours, the display is the last 25 rows of that layout |
| `Vga.Console` | src/lib.rs:72-84 | the imperative console, cleared then printed to, leaves in the 4000-byte buffer the last 25 rows of that layout, each byte at (row * 80 + column) * 2 and its colour beside it |
| `Vga.ConsolePlain` | src/vga.rs:94-110 | printing up to 2000 bytes without a line break puts byte j at 2 * j and its colour at 2 * j + 1 |
| `Vga.ConsoleOneByte` | src/vga.rs:94-110 | printing one byte other than 10 puts it at byte 0 and its colour at byte 1; every other cell is bytes 32, 0x0F |
| `Vga.ConsoleTwoLines` | src/vga.rs:94-122 | printing x, 10, y puts x at byte 0 and y at byte 160, in their colour |
| `Vga.ConsoleTwoPrints` | src/vga.rs:54-63 | two calls in two colours put their bytes one after the other, each with its own colour |
| `Vga.CursorInRange` | src/vga.rs:65-71 | wherever fields and buffer agree with the log, the row is below 25 and the column at most 80; every method of the writer asks and keeps these bounds in `Valid()` |
| `Vga.VgaWriter.constructor` | src/vga.rs:74-80 | the writer starts at the origin, white on black, over whatever the buffer holds |
| `Vga.VgaWriter.WriteByte` | src/vga.rs:91-110 | one byte refines one step of the log; byte 10, or a byte at column 80, moves to the next row or scrolls at row 24, and any other byte is stored at (row * 80 + column) * 2 with its colour beside it |
| `Vga.VgaWriter.SetCell` | src/vga.rs:102-106 | exactly two bytes change: the byte at the even address, its colour at the next |
| `Vga.VgaWriter.Write` | src/vga.rs:82-89 | a slice of bytes refines the log |
| `Vga.VgaWriter.NewLine` | src/vga.rs:112-122 | column 0 of the next row, or of row 24 after scrolling; refines the log |
| `Vga.VgaWriter.Scroll` | src/vga.rs:151-164 | every byte moves up 160 places and the last 160 become blanks in the current colour |
| `Vga.VgaWriter.ClearRow` | src/vga.rs:141-149 | blanks exactly one row in the current colour |
| `Vga.VgaWriter.Clear` | src/vga.rs:131-139 | all 4000 bytes become 32 and the current colour in turn, and the cursor stays |
| `Vga.VgaWriter.Reset` | src/vga.rs:124-129 | a cleared screen with the cursor at the origin |
| `Vga.VgaWriter.PrintColor` | src/vga.rs:54-63 | prints in one colour and restores the other |

## Left out

- `src/gdt.rs`: the descriptor tables and the assembly that loads them; frame 0, where they live, appears here only as a frame that is never given out or written and stays mapped.
- Instruction semantics of the CR3 and CR0 writes, and the TLB.
- Formatting, the panic handler, the stack dump and the `Debug` implementations.
- Reading the Multiboot structure through raw pointers: the map is a given sequence of bytes shorter than 2^32.
- Boot.Init: asks that the map, where there is one, can be walked to its end, because a method must terminate; `Boot.BootHangsIff` says exactly when it cannot.
- FrameBitmaps.FrameBitmap.Init: asks the same of the walk; `Multiboot.WalkEndsIff` says exactly when it ends.
- Multiboot.UsableBytes: asks the same of the walk.
- Volatile.Copy: asks that both regions lie inside a memory below 4 GiB, so that address arithmetic does not wrap; the source's safety contract demands valid regions.
- Goals written down in `docs/stage-3.md` that have no code: kmalloc, vmalloc, unmapping.
