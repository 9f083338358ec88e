# okeOS memory management, verified

A Dafny model of the memory stack of the okeOS kernel, with the number printing and the growable
list that sit beside it. Three layers rest on each other, and each is proved against a plain
description of what it is for.

- **Page frame allocator** (`Bitmap.dfy`, `FrameSpec.dfy`, `MemoryMap.dfy`, `FrameAllocator.dfy`).
  A bit-packed set of frames with a moving search hint, two byte counters and an out-of-memory
  guard. `FrameSpec.Inv` is what initialisation establishes and every run of requests and frees
  keeps: the hint agrees with a scan from zero, the counters never wrap, and the guard alone keeps
  the spare bits at the end of the bitmap from being handed out.
- **Page mapper** (`Words.dfy`, `PageEntry.dfy`, `PageTree.dfy`, `Paging.dfy`). Packed 64-bit
  entries in the format of section 4.5, "4-Level Paging", of the Intel 64 and IA-32 Architectures
  Software Developer's Manual, Volume 3A. The tables form a tree of frames owned by the mapper, a
  map call changes the hardware walk of exactly one page, every page that translates does so through
  four writable and executable entries, and the number of table frames spent is known exactly.
- **Heap** (`HeapSpec.dfy`, `HeapRuns.dfy`, `HeapLinks.dfy`, `Heap.dfy`). First fit over doubly linked
  headers in memory, 29 bytes each. Segments tile the heap, neighbours are never both free, `malloc`
  expands at most twice, every heap page has a frame of its own, and the segment list is determined by
  the live blocks alone.
- `BootMaps.dfy` says what the boot code's map calls amount to for every page, and `Boot.dfy` puts the
  layers together in the order of that code. `Numbers.dfy` and `List.dfy` model `itoa`/`uitoa`/`%x` and `List<T>`.

The classes (`Bitmap`, `PageFrameAllocator`, `PageMapper`, `Heap`, `List`) update their fields and
buffers in place as the source does; their methods are proved against functions on values, and the
theorems about whole runs are lemmas about those functions. A panic never returns, so a routine that
can panic has a result of type `Outcome`; nothing is promised about the heap after one.

Choices worth knowing:

- A page-table entry is a struct that the code copies, changes and stores back, so it is a value
  here; physical memory is a map from frame number to the 512 entries in that frame. Shifts and masks
  on virtual addresses are written as quotient and remainder.
- `HeapSegHdr::split` stores `next->last` without a null test (kernel/mem/heap.cpp:82). On the last
  segment that store goes through address 0, outside the heap; `Heap.Split` makes it only where there is a
  next segment, and `HeapLinks.UnguardedStore` says exactly when the unguarded store is at NULL.
- `malloc` calls `memset(addr, size, 0)` (kernel/mem/heap.cpp:58): the count is 0, so nothing is claimed
  about the contents of a new block.
- `Bitmap::get` and `set` let the offset `Size * 8` through (kernel/lib/bitmap.cpp:11,30). The contracts
  cover every other offset; `Bitmaps.GuardIsOffByOne` states which offset is the bad one.
- The counters start from the length of the largest usable entry only (kernel/mem/pageframeallocator.cpp:62),
  so the reported RAM is not all usable RAM. `MemoryMap.ReportedRamIsOneEntry` says exactly when it is, and
  `MemoryMap.ReportedRamExample` shows a map where it is not.
- The boot code maps every memory-map entry of kind 6 from the kernel's link address on
  (kernel/kernel.cpp:180-183), so a later such entry hides the pages of an earlier one. The kernel's pages
  are where it was linked exactly when the last such entry starts at the same frame (`BootMaps.KernelKept`);
  `BootMaps.ModuleHidesKernel` shows a kernel and a module where they are not. Both need `BootMaps.Layout`:
  higher half, link address and the first 16 MB lie apart, as the boot loader places them. Without it,
  `BootMaps.BootServes` still says for every page which call decides.
- `lockPages` multiplies an `int` index by 4096, so the memory map is taken to span at most 2^19 frames;
  the chosen entry is taken to be long enough for the bitmap. `malloc` is specified up to the size where
  rounding to pages would wrap. The heap starts on a page boundary (kernel/kernel.cpp:202), so the
  alignment branch of `expandHeap` never opens a gap.
- A `List` created with capacity 0 cannot grow, since doubling keeps 0; `Add` therefore asks for a
  nonzero capacity when it has to grow, and every capacity from 1 on stays nonzero.

Most methods begin with a `hide` statement: it only keeps definitions that a proof does not need away
from the solver.

## Model

| member | source | states |
|---|---|---|
| Bitmaps.WithBitIsUpdate | kernel/lib/bitmap.cpp:14-16 | Writing one bit of a byte, most significant first, changes that bit as read back and no other |
| Bitmaps.BitPlaces | kernel/lib/bitmap.cpp:14-16 | Bit 0 of a byte is its most significant bit, bit 7 its least significant one |
| Bitmaps.UnpackUpdate | kernel/lib/bitmap.cpp:33-40 | Rewriting one byte of the buffer updates exactly one position of the bitmap read as a boolean array |
| Bitmaps.Bitmap.Get | kernel/lib/bitmap.cpp:9-19 | Reads the boolean at the offset; offsets past the end read as false |
| Bitmaps.Bitmap.Set | kernel/lib/bitmap.cpp:28-43 | Updates exactly one boolean and reports whether the offset was in range |
| Bitmaps.GuardIsOffByOne | kernel/lib/bitmap.cpp:30 | An offset that passes the bounds test is inside the buffer exactly when it is not Size * 8 |
| FrameSpec.HintAgreesWithScan | kernel/mem/pageframeallocator.cpp:84-91 | With everything below the hint taken, a scan from the hint finds the same frame as a scan from zero |
| FrameSpec.FreeCounterIsBacked | kernel/mem/pageframeallocator.cpp:61-65 | The free counter never promises more pages than there are available in-range frames |
| FrameSpec.RequestCorrect | kernel/mem/pageframeallocator.cpp:79-94 | A request panics exactly when fewer than 16384 bytes are free, never at the end of the scan; otherwise it returns the lowest clear frame, in range, usable, not the bitmap's and not held, moves the hint there and keeps the invariant |
| FrameSpec.ReleaseCorrect | kernel/mem/pageframeallocator.cpp:123-135 | Freeing a held frame makes it available again, moves the hint back and keeps the invariant without wrap-around |
| FrameSpec.SpareBits | kernel/mem/pageframeallocator.cpp:38-39 | One to eight bits lie above the page total; they are clear and no request returns one |
| FrameSpec.LockRangeBits | kernel/mem/pageframeallocator.cpp:149-153 | Locking a range sets exactly the bits of that range |
| FrameSpec.LockRangeCounters | kernel/mem/pageframeallocator.cpp:98-108 | Locking n clear frames moves 4096 n bytes from the free to the used counter |
| FrameSpec.ReleaseRangeBits | kernel/mem/pageframeallocator.cpp:140-144 | Freeing a range clears exactly the bits of that range |
| FrameSpec.RunKeepsInvariant | kernel/mem/pageframeallocator.cpp:79-135 | Every run of requests and frees of held frames keeps the invariant; free plus used is constant and used counts the frames held |
| FrameSpec.NoDoubleGrant | kernel/mem/pageframeallocator.cpp:79-135 | In any run, a held frame is returned by a request only after a free of that frame |
| MemoryMap.ArealSizeIsMax | kernel/mem/memutils.cpp:33-43 | The areal size is the highest end of any entry, and some entry ends there |
| MemoryMap.LargestIsFirstMax | kernel/mem/pageframeallocator.cpp:14-27 | The chosen entry is usable, no usable one is longer, and none before it is as long |
| MemoryMap.UsableFramesIsUnion | kernel/mem/pageframeallocator.cpp:50-58 | A frame is freed at initialisation exactly when some usable entry contains it |
| MemoryMap.FrameRangeIsContainment | kernel/mem/pageframeallocator.cpp:53-57 | For an aligned entry the freed frames are those lying entirely inside it |
| MemoryMap.OwnFramesHoldBitmap | kernel/mem/pageframeallocator.cpp:39-45 | Every byte of the bitmap lies in the frames locked for it |
| MemoryMap.OwnFramesExact | kernel/mem/pageframeallocator.cpp:39-40 | The frames set aside run from the chosen entry's first on, as many as one byte per eight frames of the map plus one need, with a last frame that is never full |
| MemoryMap.BootIsGood | kernel/mem/pageframeallocator.cpp:36-65 | The bitmap's frames are usable frames of the map and the chosen entry accounts for no more pages than are usable |
| MemoryMap.ReportedRamIsOneEntry | kernel/mem/pageframeallocator.cpp:60-62 | The initial free counter covers all usable frames if and only if the chosen entry is the only contributor |
| MemoryMap.ReportedRamExample | kernel/mem/pageframeallocator.cpp:60-62 | A map with two usable pages of which the counter covers one |
| MemoryMap.LockOwn | kernel/mem/pageframeallocator.cpp:60-65 | With the usable frames clear and the counters reset, locking the bitmap's frames establishes the invariant |
| FrameAllocator.PageFrameAllocator.LockPage | kernel/mem/pageframeallocator.cpp:98-108 | Carries out the lock step, out-of-range and already locked frames included |
| FrameAllocator.PageFrameAllocator.FreePage | kernel/mem/pageframeallocator.cpp:123-135 | Carries out the free step, out-of-range and already free frames included |
| FrameAllocator.PageFrameAllocator.RequestPage | kernel/mem/pageframeallocator.cpp:79-94 | The guard and the hint-moving loop compute the request step |
| FrameAllocator.PageFrameAllocator.Obtain | kernel/mem/pageframeallocator.cpp:79-94 | After initialisation: panics exactly when the guard trips, otherwise a fresh usable frame, the lowest clear one |
| FrameAllocator.PageFrameAllocator.GiveBack | kernel/mem/pageframeallocator.cpp:123-135 | After initialisation: a held frame becomes available again and the invariant is kept |
| FrameAllocator.PageFrameAllocator.LockPages | kernel/mem/pageframeallocator.cpp:149-153 | The loop locks exactly the range |
| FrameAllocator.PageFrameAllocator.FreePages | kernel/mem/pageframeallocator.cpp:140-144 | The loop frees exactly the range |
| FrameAllocator.PageFrameAllocator.InitBitmap | kernel/mem/pageframeallocator.cpp:69-75 | All bits clear, hint zero |
| FrameAllocator.PageFrameAllocator.Init | kernel/mem/pageframeallocator.cpp:11-67 | Panics exactly when no entry or one at address 0 was chosen; otherwise the invariant holds with the frames of the memory map and nothing held, the used counter is the bitmap's bytes rounded up to frames and the two counters add up to the longest usable entry |
| FrameAllocator.PageFrameAllocator.GetTotalRAM | kernel/mem/pageframeallocator.cpp:173-176 | In every state after initialisation, the RAM fixed at initialisation |
| FrameAllocator.GetMemoryArealSize | kernel/mem/memutils.cpp:33-43 | The highest end of any entry |
| Words.WordRoundTrip | kernel/mem/paging.cpp:16-24 | A shifted address packed into a word and masked reads back as its low 40 bits |
| Words.WordDoubles | kernel/mem/paging.cpp:16-20 | The packed word is the number in binary: zero is the zero word and each further binary digit is shifted in from the right |
| PageEntry.AddressRoundTrip | kernel/mem/paging.cpp:16-24 | GetAddress after SetAddress gives the low 40 bits, whatever the entry was |
| PageEntry.FlagBits | kernel/mem/paging.h:6-18 | Each of the eleven flags is the bit of the word with its number, from Present at bit 0 to NX at bit 63 |
| PageEntry.FlagWrite | kernel/mem/paging.cpp:3-14 | SetFlag changes that flag, no other flag and not the address |
| PageEntry.AddressWriteKeepsFlags | kernel/mem/paging.cpp:16-20 | SetAddress changes no flag |
| PageEntry.LinkedEntry | kernel/mem/paging.cpp:112-117 | The entry the mapper stores is present, writable, executable, holds the frame and keeps the other flags |
| PageEntry.LinkedWord | kernel/mem/paging.cpp:112-117 | Word for word, the stored entry has bits 0 and 1 set, bit 63 clear, the frame from bit 12 on and every other bit as before |
| PageEntry.WritableFlags | kernel/mem/paging.h:6-18 | An entry whose bits outside the address are exactly 3 is present, writable, executable, not a large page and free of every other flag |
| PageEntry.LinkIsWritable | kernel/mem/paging.cpp:112-117 | Linking an entry that is zero or such an entry gives such an entry |
| Paging.SamePath | kernel/mem/paging.cpp:26-35 | Two addresses have the same four indices if and only if their bits 47..12 agree |
| Paging.PageFromIndices | kernel/mem/paging.cpp:26-35 | The four indices are the base-512 digits of bits 47..12, in order |
| PageTree.WalkFrom | kernel/mem/paging.cpp:46-110 | The hardware walk from any table arrives exactly where the tree says |
| PageTree.TablesFormATree | kernel/mem/paging.cpp:46-110 | Every table frame is reached by exactly one path of indices |
| PageTree.WalkLeaf | kernel/mem/paging.cpp:112-117 | A page translates exactly when it has been mapped, to the frame in its last-level slot |
| PageTree.InstallKeepsTree | kernel/mem/paging.cpp:48-55 | Hanging an empty table into an absent slot keeps the tree and adds that one table |
| PageTree.InstallKeepsTranslation | kernel/mem/paging.cpp:48-55 | Hanging in an empty table leaves the whole translation unchanged |
| PageTree.StoreKeepsTree | kernel/mem/paging.cpp:112-117 | The last-level store keeps the tree |
| PageTree.StoreUpdatesOne | kernel/mem/paging.cpp:112-117 | The last-level store changes the translation of that page and of no other |
| PageTree.TableCount | kernel/mem/paging.cpp:46-110 | The tables below the root number the distinct one-, two- and three-index prefixes of the mapped pages |
| Paging.RemapCostsNothing | kernel/mem/paging.cpp:46-110 | A page that is mapped already needs no further table |
| Paging.LinkEntry | kernel/mem/paging.cpp:51-54 | The sequence of setters yields a present entry for the frame with the other flags kept; in a table that started out zeroed it has exactly Present and ReadWrite set |
| Paging.TranslatedIsWritable | kernel/mem/paging.cpp:46-117 | Whatever the hardware walk follows in the tables is a writable, executable entry, level by level |
| Paging.PageMapper.TranslatedPagesWritable | kernel/mem/paging.cpp:46-117 | In every state of the mapper, a page translates if and only if its words on all four levels have exactly Present and ReadWrite set beside the address |
| Paging.PageMapper.TableFramesLocked | kernel/mem/paging.cpp:49-55 | Every table frame is marked taken in the frame bitmap |
| Paging.PageMapper.InitPaging | kernel/kernel.cpp:166-168 | A zeroed root in a frame nobody held maps nothing |
| Paging.PageMapper.NextTable | kernel/mem/paging.cpp:46-68 | One level of the descent: the existing table, or a new one in a frame nobody held; no translation changes, and the slot on the way is writable and executable |
| Paging.PageMapper.WritePage | kernel/mem/paging.cpp:112-122 | The last store gives the page its frame and a word with exactly Present and ReadWrite set beside it, and nothing else changes |
| Paging.PageMapper.MapMemory | kernel/mem/paging.cpp:37-124 | The translation is the old one with exactly the page of virt sent to the frame of phys, through four writable and executable entries; one frame is spent per missing table, and it panics exactly when they cannot be had |
| Paging.PageMapper.MapFresh | kernel/mem/heap.cpp:111 | A page mapped to a frame requested on the spot gets one nobody held, which is not a table frame |
| Paging.PageMapper.MapAll | kernel/kernel.cpp:170-192 | After any run of map calls the last request for a page decides, and other pages are as before |
| Paging.PageMapper.BuildAddressSpace | kernel/kernel.cpp:166-192 | From a zeroed root, translation is the last request per page, through writable entries only, and the frames spent are one plus the distinct 9-, 18- and 27-bit prefixes |
| HeapSpec.SegmentsDisjoint | kernel/mem/heap.cpp:76-92 | Tiling segments do not overlap |
| HeapSpec.CarveKeepsGood | kernel/mem/heap.cpp:53-66 | Taking bytes keeps tiling, minimum length and coalescing |
| HeapSpec.ReleaseKeepsGood | kernel/mem/heap.cpp:27-32 | Freeing keeps tiling, minimum length and coalescing |
| HeapSpec.ExtendKeepsGood | kernel/mem/heap.cpp:94-122 | Expanding keeps tiling, minimum length and coalescing |
| HeapSpec.CarveLive | kernel/mem/heap.cpp:53-66 | Exactly one live block is added, at the chosen segment, with at most 44 bytes to spare |
| HeapSpec.CarveLength | kernel/mem/heap.cpp:76-79 | The block is exactly the size asked for when the rest can hold a header and 16 bytes, and the whole segment otherwise |
| HeapSpec.ReleaseLive | kernel/mem/heap.cpp:27-32 | Exactly the freed block leaves the live blocks |
| HeapSpec.LiveBlocksDisjoint | kernel/mem/heap.cpp:43-92 | Live blocks never overlap, headers included |
| HeapSpec.NothingLive | kernel/mem/heap.cpp:124-140 | A heap without live blocks is one free segment over the whole range |
| HeapSpec.Conservation | kernel/mem/heap.cpp:142-151 | Used and free bytes, headers included, add up to the size of the heap |
| HeapSpec.LiveDeterminesHeap | kernel/mem/heap.cpp:124-140 | Two good heaps over the same range with the same live blocks have the same segment list |
| HeapSpec.CarveThenRelease | kernel/mem/heap.cpp:27-32 | Freeing what was just taken restores the exact segment list |
| HeapSpec.ExtendBringsCloser | kernel/mem/heap.cpp:72-73 | Each expansion reduces the number still needed by one |
| HeapRuns.AllocRetries | kernel/mem/heap.cpp:72-73 | When nothing fits, the call is the same call on the heap grown once |
| HeapRuns.Prepared | kernel/mem/heap.cpp:72-73 | The retry recursion ends with a fitting segment and the live blocks untouched |
| HeapRuns.AllocCorrect | kernel/mem/heap.cpp:43-74 | malloc adds one block of rounded size to rounded size plus 44, disjoint from all live blocks, which are unchanged |
| HeapRuns.LowestFit | kernel/mem/heap.cpp:51-70 | If any segment fits, the lowest-addressed one is used and the heap does not grow |
| HeapRuns.BlockIsFirstFit | kernel/mem/heap.cpp:43-74 | Expansions or not, the block is the lowest fitting segment of the prepared heap, cut to the rounded size exactly when the rest can stand alone |
| HeapRuns.AllocUsed | kernel/mem/heap.cpp:142-151 | malloc raises the used bytes by the block and its header and nothing else |
| HeapRuns.FreeUsed | kernel/mem/heap.cpp:142-151 | free lowers the used bytes by the block and its header |
| HeapRuns.AtMostTwoExpansions | kernel/mem/heap.cpp:43-74 | At most two expansions; none exactly when a segment fits; two exactly when none fits, the tail is in use and the rounded size mod 4096 is 0 or 4080 |
| HeapRuns.FreeCorrect | kernel/mem/heap.cpp:27-32 | free keeps the heap good and removes exactly the given block |
| HeapRuns.ZeroingMissesHeaders | kernel/mem/heap.cpp:34-41 | The zeroing in sfree touches no header of the merged list if it stays within the block |
| HeapRuns.AllocThenFree | kernel/mem/heap.cpp:27-74 | Without an expansion, free after malloc restores the exact heap |
| HeapRuns.RunKeepsGood | kernel/mem/heap.cpp:27-140 | Every run of mallocs and frees keeps the heap tiled, coalesced, without slivers, and its bytes accounted for |
| HeapRuns.RunsConverge | kernel/mem/heap.cpp:27-74 | Two legal runs that leave the same blocks live in a heap of the same size leave the same heap |
| HeapRuns.FreeEverything | kernel/mem/heap.cpp:27-151 | Freeing every outstanding block, in any order, leaves one free segment and no used byte |
| HeapLinks.LinksAreInverse | kernel/mem/heap.cpp:76-140 | next and last are mutually inverse in address order, NULL only at the ends, and next is address plus 29 plus length |
| HeapLinks.UnguardedStore | kernel/mem/heap.cpp:82 | The store through next in split goes to NULL exactly when the segment is the last one |
| HeapLinks.SplitLinked | kernel/mem/heap.cpp:81-88 | The stores of split turn memory for a list into memory for the split list |
| HeapLinks.MergeLinked | kernel/mem/heap.cpp:130-135 | The stores of combineForward turn memory for a list into memory for the merged list |
| HeapLinks.AppendLinked | kernel/mem/heap.cpp:115-120 | The stores of expandHeap append a free segment |
| KernelHeap.BackOneMore | kernel/mem/heap.cpp:110-113 | Mapping the next heap page leaves the translation of the pages before it |
| KernelHeap.Heap.CombineForward | kernel/mem/heap.cpp:124-136 | Memory, LastHdr and list after merging with a free successor |
| KernelHeap.Heap.CombineBackward | kernel/mem/heap.cpp:138-140 | Memory, LastHdr and list after being merged into a free predecessor |
| KernelHeap.Heap.Split | kernel/mem/heap.cpp:76-92 | Memory, LastHdr and list after a split, or no change when the rest would be too short |
| KernelHeap.MorePages | kernel/mem/heap.cpp:110-113 | Two stretches of mapping one after the other change translations only in the joint stretch |
| KernelHeap.Heap.MapPages | kernel/mem/heap.cpp:10-13 | The mapped pages extend the injective backing and no other translation changes; it cannot panic with four frames per page to spare |
| KernelHeap.Heap.BackingIsInjective | kernel/mem/heap.cpp:10-18 | Every heap address is translated, different pages to different frames, none a table's or the bitmap's |
| KernelHeap.Heap.HeapWritable | kernel/mem/heap.cpp:10-18 | Every heap address is reached through four writable entries |
| KernelHeap.Heap.HeapBounded | kernel/mem/heap.cpp:78 | The heap never exceeds 2 GB, so the signed length computed in split is exact |
| KernelHeap.Heap.InitHeap | kernel/mem/heap.cpp:7-25 | One free segment over freshly backed pages |
| KernelHeap.Heap.ExpandHeap | kernel/mem/heap.cpp:94-122 | The heap after one expansion, still backed and linked; no translation outside the new pages changes |
| KernelHeap.Heap.Take | kernel/mem/heap.cpp:51-70 | The search loop takes the first fitting segment or changes nothing |
| KernelHeap.Heap.Malloc | kernel/mem/heap.cpp:43-74 | NULL for size 0, otherwise the block of the first-fit specification after exactly the expansions it needs; no panic when a segment fits or frames suffice; translations outside the new pages are unchanged |
| KernelHeap.Heap.Free | kernel/mem/heap.cpp:27-32 | The heap after freeing an outstanding block |
| KernelHeap.Heap.GetUsedMem | kernel/mem/heap.cpp:142-151 | The bytes in used segments; with the free ones they make up the heap |
| BootMaps.LastMapConcat | kernel/kernel.cpp:170-192 | In a run of map calls, later requests override earlier ones and only those |
| BootMaps.LowMemoryIsIdentity | kernel/kernel.cpp:189-192 | Whatever the memory map says, the boot code's map calls leave every address below 16 MB mapped to itself |
| BootMaps.BootRequestsInWord | kernel/kernel.cpp:170-187 | The physical addresses that the boot code maps fit in 64 bits |
| BootMaps.PathOfSum | kernel/mem/memutils.cpp:49-51 | The 64-bit wrap-around of the higher-half sum does not change the page |
| BootMaps.EntryServes | kernel/kernel.cpp:170-187 | Page i of an entry, the partial last page included, is mapped to its frame at hhdm plus its address, or at the link address plus 4096 i for kind 6 |
| BootMaps.MapServes | kernel/kernel.cpp:170-187 | After the calls for the memory map, a path has frame g if and only if g is the frame of the last page of the map that belongs there |
| BootMaps.BootServes | kernel/kernel.cpp:170-192 | For every page: below 16 MB its own number, elsewhere the frame of the last page of the map that belongs there, and nothing else is mapped |
| BootMaps.HigherHalfMapped | kernel/kernel.cpp:177-185 | With higher half, kernel and low memory apart, every page of an entry of another kind than 6 is at hhdm plus its physical address |
| BootMaps.KernelMapped | kernel/kernel.cpp:180-185 | In the same layout, page i from the link address on is page i of the last entry of kind 6 that has one |
| BootMaps.KernelKept | kernel/kernel.cpp:180-185 | A page of an entry of kind 6 is found at the link address if and only if the last such entry to have that page starts at the same frame |
| BootMaps.ModuleHidesKernel | kernel/kernel.cpp:180-185 | A kernel and a module entry where the module's page takes the place of the kernel's first |
| BootSequence.Boot | kernel/kernel.cpp:153-202 | If nothing panics, the allocator reflects the memory map; outside the heap a page has a frame if and only if the memory map or the low 16 MB give it that one, in particular entries at the higher half and the kernel at its link address; every page that translates is writable and executable; and the heap is one free segment over pages of its own |
| Numbers.TableDigit | kernel/lib/string.cpp:26 | The table maps a remainder of either sign to the digit of its magnitude |
| Numbers.ParseDigits | kernel/lib/string.cpp:57-62 | For bases 2 to 36 the digits read back to the value |
| Numbers.DigitsCanonical | kernel/lib/string.cpp:57-62 | No leading zero, and only digits of the base |
| Numbers.SignedRoundTrip | kernel/lib/string.cpp:15-28 | Decimal text reads back to every integer; other bases keep the magnitude only |
| Numbers.NumeralIsUnique | kernel/lib/string.cpp:57-62 | A text of digits of the base without a leading zero is the numeral of its value, so a number has one numeral |
| Numbers.SignedTextShape | kernel/lib/string.cpp:14-28 | A minus sign comes first exactly for negative decimals; what follows has digits of the base only and no leading zero unless it is "0" |
| Numbers.SignedTextIsUnique | kernel/lib/string.cpp:14-28 | Every decimal text of that shape is what itoa prints for its value |
| Numbers.BufferSuffices | kernel/debug.cpp:144 | Bases 8, 10 and 16 fit the 32-byte buffer for every 64-bit value |
| Numbers.WriteDigits | kernel/lib/string.cpp:23-28 | The conversion loop writes the digits in reverse |
| Numbers.ReverseBetween | kernel/lib/string.cpp:32-37 | The two-pointer loop reverses the characters in place |
| Numbers.Uitoa | kernel/lib/string.cpp:41-73 | The buffer holds the numeral and a terminator, the rest is untouched; an unsupported base gives the empty string |
| Numbers.Itoa | kernel/lib/string.cpp:3-39 | The same with a sign exactly for negative decimals |
| Numbers.FormatSigned | kernel/debug.cpp:165-174 | %d and %o fit the buffer for every signed 64-bit value |
| Numbers.FormatHex | kernel/debug.cpp:183-194 | %x gives exactly sixteen hexadecimal digits denoting the value |
| Lists.BackwardsTwice | kernel/lib/list.h:112-118 | Reversal is its own inverse |
| Lists.WithoutElements | kernel/lib/list.h:45-49 | Removal shortens the list by one, keeps the items before the index and moves those after it down by one |
| Lists.List.Add | kernel/lib/list.h:25-38 | Appends the item, doubling the capacity when full |
| Lists.List.RemoveAt | kernel/lib/list.h:40-50 | Removes the item at the index, or nothing past the end |
| Lists.List.RemoveItem | kernel/lib/list.h:52-59 | Removes the first occurrence only |
| Lists.List.Clear | kernel/lib/list.h:61-63 | Empties the list |
| Lists.List.Get | kernel/lib/list.h:65-71 | The item at the index, or nothing past the end |
| Lists.List.Set | kernel/lib/list.h:73-79 | Replaces the item at the index, or nothing past the end |
| Lists.List.Contains | kernel/lib/list.h:81-89 | Membership |
| Lists.List.IndexOf | kernel/lib/list.h:91-99 | The first position, or the unsigned value of -1 |
| Lists.PassSettlesOne | kernel/lib/list.h:102-110 | A pass of the bubble sort puts one more item in its final place |
| Lists.List.Sort | kernel/lib/list.h:101-111 | The list becomes sorted and is a permutation of what it was |
| Lists.List.Reverse | kernel/lib/list.h:113-119 | The list is reversed in place |

## Left out

- Port I/O, serial, PIC, PIT, GDT, IDT, TSS and interrupt stubs: device and CPU effects.
- Framebuffer, terminal, fonts, logger, string builder and colour escapes: output plumbing.
- ACPI discovery and the Limine request structures: the memory map is a parameter.
- How page-table frames are reached once the new tables are loaded: a table frame is addressed by its number.
- Contents of heap blocks: only headers are modelled, so sfree appears through ZeroingMissesHeaders and nothing is said about bytes.
- Double frees and frees of foreign pointers: excluded by the precondition of Free.
- lockPageNonAvailable and lockPagesNonAvailable: they bypass the counters and are not called.
- mem_getMemoryMapForAddress, getMemoryMappingName, toPhys, memcpy, memmove, memcmp, strncmp, abs, the timer: easy members.
- 64-bit wrap-around of heap addresses: it cannot occur, since the heap is bounded (HeapBounded) and starts below 2^47.
- 64-bit wrap-around of list capacities: the doubling is on unbounded numbers.
