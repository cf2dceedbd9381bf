# A verified model of the kernel's memory managers, ACPI core and text handling

This project models the parts of the kernel where a mistake is silent: the two allocators, the page-table walker,
the bit-field accesses of the ACPI interpreter, the protocols by which threads, interrupts and firmware share ACPI
state, the ACPI namespace, the terminal and the number printer. What is proved is stated for every input, every
reachable state or every run; where the code does not keep what it promises, a counterexample is given together with
the exact condition under which it does.

`dafny verify dfyconfig.toml` checks everything.

| file | what it models |
|---|---|
| `Options.dfy`, `Extrema.dfy`, `Powers.dfy` | a value that may be missing; the smaller and the larger of two; powers of two and base-two logarithms |
| `Liballoc.dfy` | the boundary-tag heap: bins, split chains, melting and splitting |
| `Pmm.dfy` | the buddy allocator of physical pages and its segment table |
| `Vmm.dfy` | the four-level page tables against a flat map from page to entry |
| `Bits.dfy`, `FieldIo.dfy`, `FieldUnits.dfy` | bit copies, buffer fields and field units, against one bit-sequence specification |
| `GlobalLock.dfy` | the ACPI Global Lock handshake (section 5.2.10.1 of the ACPI 6.5 specification) as interleaved steps |
| `GpeMask.dfy` | masking a general-purpose event while interrupts and deferred work run |
| `RwLock.dfy`, `RecursiveLock.dfy` | the reader/writer lock, the recursive lock and the AML mutex, any number of threads |
| `Namespace.dfy` | the namespace tree: install, uninstall, teardown |
| `NamespaceWalk.dfy`, `WalkAnswers.dfy`, `WalkLoop.dfy` | the walk over it as a recursion, what it makes of its callbacks' answers, and the loop without a stack |
| `NamePaths.dfy`, `NameLaws.dfy`, `NameAgreement.dfy`, `PathPrinter.dfy` | the text resolver, the AML name resolver, their agreement, and the path printer |
| `RegionLists.dfy`, `Opregion.dfy` | which address space handler serves which operation region |
| `NumberText.dfy`, `PrintedText.dfy`, `NumberReading.dfy`, `NumberRoundTrip.dfy`, `MarkedNumbers.dfy` | the integer printer of printf and strtol: what either makes of a number, and one against the other |
| `Utf8.dfy`, `Commands.dfy`, `Terminal.dfy`, `ControlSequences.dfy` | the terminal's UTF-8 decoder, what each byte means, its escape-sequence parser, and whole control sequences |

Code that works step by step is modelled by classes and methods with the same branches and loops; each is proved
against a specification over values, and the theorems are lemmas about that specification. Concurrent code is a state
machine whose actions are the single reads, writes and compare-and-swaps; every lemma about a run quantifies over all
interleavings. Pointers are numbers, 0 is null, and memory is a map; linked structures carry ghost state (the order of
a chain, the children of a node) that the invariant ties to the pointers.

## What the code does not keep

- Freeing pages subtracts the size of the merged block, so the usage counters of the page allocator drift
  (`Pmm.UsageDrift`); they are right exactly when nothing was coalesced (`Pmm.Segment.FreeOrder`).
- A request for more than 2^64 - 4096 bytes wraps round when it is rounded up, and is given a single page
  (`Pmm.OrderHolds`).
- Unmapping can miss the last page when the range does not start on a page boundary (`Vmm.LastPageMissed`), and removes
  nothing when the range ends at or past 2^64 (`Vmm.MunmapCoversRange`): the topmost page, once mapped, stays (`Vmm.MapThenUnmapTop`). A range
  whose last step crosses 2^64 makes the loop go on for ever (`Vmm.LoopEndsExact`) and unmaps the whole address space,
  even for a single byte (`Vmm.MunmapInsideRange`, `Vmm.UnmapTopByte`). When exactly the pages of the range are removed
  is `Vmm.MunmapExact`.
- The window onto physical memory does not round-trip past 128 TiB (`Vmm.WindowRoundTrip`).
- The sequence number an acquisition of the Global Lock returns never releases it (`GlobalLock.AcquireThenRelease`).
- Enabling every event for wake ignores masks (`GpeMask.EnableAllWakeRespects`, `GpeMask.WakeBreaksMask`), and changing
  the handler of a masked event can unmask it (`GpeMask.UpdateHandlerKeepsMask`, `GpeMask.UpdateHandlerUnmasks`).
- A bare NullName and a MultiNamePath of one segment can resolve differently as AML and as text
  (`NameAgreement.TranslationAgrees`, `NameAgreement.TranslationDisagrees`).
- In the walk a node without an object is taken to match when the node compared before it did: its callbacks are called,
  or what lies below it is left out (`NamespaceWalk.EarlierMatchInherited`). The calls are the right ones exactly when
  that never happens (`NamespaceWalk.WalkIsListing`). Where no node is hidden they are right for every set of types
  exactly when no such node is compared after one with an object (`NamespaceWalk.EveryMask`); a walk for every type is
  right exactly when that is so of the nodes it does not pass over (`NamespaceWalk.EveryType`).
- Of two siblings with one name the second's absolute path leads to the first (`PathPrinter.TwinFound`); the path leads
  back exactly when nothing on it is so shadowed (`PathPrinter.PrintThenResolve`).
- A negative number filled up with 32 or more zeros is printed without its sign (`NumberRoundTrip.LongRoundTrip`,
  `NumberRoundTrip.SignCrowdedOut`); a number printed with '#' can lose digits to its base mark, or the mark its room
  (`MarkedNumbers.MarkedExact`, `MarkedNumbers.DigitTaken`); and reading back the zero that '#' printed looks as if nothing had been read
  (`NumberRoundTrip.MarkedZero`).
- Cancelling a private control sequence leaves its mark, so that the next control sequence is taken for a private one
  (`ControlSequences.SendCommand`, `ControlSequences.MarkOutlivesCancel`).

## Model

| member | source | states |
|---|---|---|
| `Liballoc.Heap.constructor` | kernel/src/extra/liballoc/liballoc.c:288-299 | before the first request every bin is empty and the heap invariant holds |
| `Liballoc.Heap.GetExp` | kernel/src/extra/liballoc/liballoc.c:43-67 | the exponent is the base-two logarithm, or -1 below the smallest bin |
| `Liballoc.BinOf` | kernel/src/extra/liballoc/liballoc.c:140-150 | every payload has a bin between MINEXP and MAXEXP |
| `Liballoc.BinBrackets` | kernel/src/extra/liballoc/liballoc.c:140-150 | a bin holds the sizes from its power of two up to the next, but for the first bin and the last |
| `Liballoc.PagesFor` | kernel/src/extra/liballoc/liballoc.c:236-250 | a region has the fewest pages that hold header and payload, and never fewer than the minimum |
| `Liballoc.Heap.InsertTag` | kernel/src/extra/liballoc/liballoc.c:140-161 | all bins stay well linked with the tag in front of its size's bin; no block field and no other tag's bin changes |
| `Liballoc.Heap.RemoveTag` | kernel/src/extra/liballoc/liballoc.c:163-173 | all bins stay well linked without the tag; nothing else moves |
| `Liballoc.Heap.MeltLeft` | kernel/src/extra/liballoc/liballoc.c:176-187 | the left neighbour swallows the tag and the rest of the heap keeps its meaning |
| `Liballoc.Heap.AbsorbRight` | kernel/src/extra/liballoc/liballoc.c:189-202 | the tag swallows its free right neighbour, which leaves its bin |
| `Liballoc.Heap.CutTag` | kernel/src/extra/liballoc/liballoc.c:204-224 | the block is cut behind the requested size and both halves keep the chain tiling the region |
| `Liballoc.Heap.SplitTag` | kernel/src/extra/liballoc/liballoc.c:204-228 | the cut-off remainder is a new free tag in the bin of its size and the invariant holds again |
| `Liballoc.Heap.AllocateNewTag` | kernel/src/extra/liballoc/liballoc.c:236-276 | a granted region becomes one tag that spans it; a refused request changes nothing |
| `Liballoc.Heap.FindTag` | kernel/src/extra/liballoc/liballoc.c:301-320 | the search finds a fitting tag of the size's bin, the one put in last of those that fit, and fails only if none fits |
| `Liballoc.Heap.TakeFound` | kernel/src/extra/liballoc/liballoc.c:334-340 | the found tag leaves its bin and the count of neighbour-less tags follows |
| `Liballoc.Heap.Carve` | kernel/src/extra/liballoc/liballoc.c:342-372 | the block taken is cut behind the requested size exactly when 256 bytes and two headers are left over, and the rest is then a free tag; every other tag stays as it is |
| `Liballoc.Heap.Malloc` | kernel/src/extra/liballoc/liballoc.c:280-389 | the provider is asked exactly when nothing fits; the result is a new live pointer, null only when the provider refuses; the tag that serves it is the one of the size's bin put in last of those that fit; the block is cut exactly when 256 bytes and two headers are left over, and the rest is then a free tag behind the payload; every other tag stays as it is |
| `Liballoc.Heap.Melt` | kernel/src/extra/liballoc/liballoc.c:421-438 | after both melting loops no neighbour of the tag is free |
| `Liballoc.Heap.DropHeld` | kernel/src/extra/liballoc/liballoc.c:427-428 | the melted neighbour is unlinked from its bin and kept in hand |
| `Liballoc.Heap.PutBack` | kernel/src/extra/liballoc/liballoc.c:441-477 | the tag is released if and only if it spans its region and the region's bin already keeps MAXCOMPLETE of them, with the pointer and page count it was granted with; else it goes into its bin |
| `Liballoc.Heap.Free` | kernel/src/extra/liballoc/liballoc.c:395-485 | exactly the given pointer stops being live; its region is handed back, with exactly its page count, if and only if no other live pointer lies in it and the bin for its size is full; nothing else is ever handed back; the tags of all other live pointers stay as they are |
| `Liballoc.Heap.RegionTiled` | kernel/src/extra/liballoc/liballoc.c:176-228 | in every valid heap each region is tiled exactly by the chain from its base, and no two chain neighbours are both free |
| `Liballoc.Heap.PayloadInRegion` | kernel/src/extra/liballoc/liballoc.c:280-389 | every live payload lies in one region, behind the header at its start |
| `Liballoc.Heap.PayloadClear` | kernel/src/extra/liballoc/liballoc.c:280-389 | no header, of a tag in use or free, lies inside a live payload |
| `Liballoc.Heap.PayloadsDisjoint` | kernel/src/extra/liballoc/liballoc.c:280-389 | two live payloads do not overlap, and a header fits between them |
| `Liballoc.Heap.BinExact` | kernel/src/extra/liballoc/liballoc.c:140-173 | each bin's list is doubly linked and holds each free tag of that bin exactly once |
| `Liballoc.Heap.EverythingFreed` | kernel/src/extra/liballoc/liballoc.c:395-485 | once everything is freed each region still held is one free tag that spans it |
| `Liballoc.NoTagInside` | kernel/src/extra/liballoc/liballoc.c:204-228 | no tag lies strictly inside another tag's block |
| `Pmm.SplitKeepsPartition` | kernel/src/mm/pmm.cpp:123-128 | replacing a block by its halves keeps every page in exactly one block |
| `Pmm.MergeKeepsPartition` | kernel/src/mm/pmm.cpp:157-184 | replacing two buddies by their parent keeps every page in exactly one block |
| `Pmm.BuddyAddr` | kernel/src/mm/pmm.cpp:156-158 | flipping the size bit of the relative address gives the buddy's address |
| `Pmm.FreeRunInOneBlock` | kernel/src/mm/pmm.cpp:109-139 | with no two free buddies a wholly free aligned run lies inside one free block |
| `Pmm.RunInFreeBlock` | kernel/src/mm/pmm.cpp:109-139 | conversely every aligned run inside a free block is wholly free |
| `Pmm.AllFreeIsOneBlock` | kernel/src/mm/pmm.cpp:141-186 | with nothing allocated the segment is one block again |
| `Pmm.Segment.FloorOrder` | kernel/src/mm/pmm.cpp:85-89 | the initial order is the largest that fits |
| `Pmm.Segment.constructor` | kernel/src/mm/pmm.cpp:77-91 | a new segment is one free block of its largest order |
| `Pmm.Segment.FindOrder` | kernel/src/mm/pmm.cpp:118-121 | the first non-empty list from the order up; none means that no aligned run is free |
| `Pmm.Segment.SplitDown` | kernel/src/mm/pmm.cpp:123-128 | splitting ends in the leftmost block of the order at the same address |
| `Pmm.Segment.AllocOrder` | kernel/src/mm/pmm.cpp:115-135 | fails, changing nothing, exactly when no aligned run of the order is free; else hands out one such run as a new live block |
| `Pmm.Segment.RemoveFree` | kernel/src/mm/pmm.cpp:160-178 | finds the buddy exactly when it is a free block of that order, and unlinks it |
| `Pmm.Segment.Coalesce` | kernel/src/mm/pmm.cpp:155-184 | ends in the block that contains the freed one and has no free buddy |
| `Pmm.Segment.FreeOrder` | kernel/src/mm/pmm.cpp:141-192 | exactly the given block stops being live; the counter falls by the merged block, which is the block's own size exactly when its buddy was not free |
| `Pmm.Segment.FullyFreed` | kernel/src/mm/pmm.cpp:141-186 | with nothing live every list is empty but the top one, which holds the whole segment |
| `Pmm.Segment.BlockInRange` | kernel/src/mm/pmm.cpp:109-139 | every block lies inside the segment |
| `Pmm.Pmm.Clip` | kernel/src/mm/pmm.cpp:49-70 | what is kept of a memory-map entry: usable, above 1 MiB |
| `Pmm.Pmm.AddSegment` | kernel/src/mm/pmm.cpp:77-94 | one more table entry, nothing of it in use |
| `Pmm.Pmm.constructor` | kernel/src/mm/pmm.cpp:44-107 | the table holds the first 128 usable ranges, all free, with counters at zero |
| `Pmm.Pmm.GetOrder` | kernel/src/mm/pmm.cpp:110-113 | the loop ends in the order of the pages the size rounds up to, in 64 bits |
| `Pmm.OrderHolds` | kernel/src/mm/pmm.cpp:110-113 | a block of that order, and of none smaller, holds the bytes if and only if the rounding does not wrap round; where it does the order is that of one page |
| `Pmm.Pmm.Alloc` | kernel/src/mm/pmm.cpp:109-139 | null exactly when no segment has a free aligned run of the order; else one new live block in one segment and nothing else changes |
| `Pmm.Pmm.FindOwner` | kernel/src/mm/pmm.cpp:149-153 | the range test finds the segment the block came from, and none for a pointer outside all of them |
| `Pmm.Pmm.Free` | kernel/src/mm/pmm.cpp:141-192 | exactly that block stops being live in its segment and other segments are untouched; a pointer outside every segment changes nothing |
| `Pmm.UsageDrift` | kernel/src/mm/pmm.cpp:188-189 | a concrete run after which the usage counter is 2^64 - 1 although nothing is allocated |
| `Vmm.AddrOfOr` | kernel/src/mm/vmm.cpp:50-61 | flag bits do not disturb the address an entry holds |
| `Vmm.LeafEntryDecodes` | kernel/src/mm/vmm.cpp:82-82 | a leaf entry is present and decodes to its frame |
| `Vmm.LeafBits` | kernel/src/mm/vmm.cpp:82-82 | bit k of a leaf entry is set if and only if it is set in the frame or the flags, or k is 0 |
| `Vmm.TableEntryDecodes` | kernel/src/mm/vmm.cpp:50-61 | a table entry is present and decodes to its table |
| `Vmm.TableBits` | kernel/src/mm/vmm.cpp:50-61 | bit k of a table entry is set if and only if it is set in the address, or k is 0 or 1, or k is 2 and the flags have it |
| `Vmm.StoreFrame` | kernel/src/mm/vmm.cpp:63-87 | writing one entry changes only the translations under it |
| `Vmm.NewTableFrame` | kernel/src/mm/vmm.cpp:50-61 | hanging a zeroed table under an absent entry changes no translation |
| `Vmm.AddressSpace.constructor` | kernel/src/mm/vmm.cpp:9-18 | a top table without entries translates nothing |
| `Vmm.AddressSpace.GetOrCreateTable` | kernel/src/mm/vmm.cpp:50-61 | the next table for the index, new or found, with every translation as before; null only when no page is left; a new table's entry is present, writable and has the user bit exactly when the flags do |
| `Vmm.AddressSpace.MapPage` | kernel/src/mm/vmm.cpp:72-84 | on success exactly one page's translation is replaced; on failure none; bit by bit what is stored in the page's entry and in those of new tables |
| `Vmm.AddressSpace.Mmap` | kernel/src/mm/vmm.cpp:63-87 | the flat map is overwritten by exactly the first `done` pages, all of them unless pages ran out; each entry written has exactly the bits of its frame, of the flags, bit 0, and bit 2 below the end of user space; new tables' entries are present, writable, and of user space exactly when the pages are |
| `Vmm.AddressSpace.UnmapPage` | kernel/src/mm/vmm.cpp:94-110 | exactly one page loses its translation |
| `Vmm.AddressSpace.Munmap` | kernel/src/mm/vmm.cpp:89-112 | whenever the loop ends, exactly the pages its rounds meet lose their translation |
| `Vmm.AddressSpace.MunmapRounds` | kernel/src/mm/vmm.cpp:89-112 | after any number of rounds, of a loop that ends or not, exactly the pages met so far have lost their translation |
| `Vmm.LoopEndsExact` | kernel/src/mm/vmm.cpp:91-111 | the loop ends if and only if there is nothing to do or the step over the last page stays below 2^64 |
| `Vmm.WrittenExact` | kernel/src/mm/vmm.cpp:63-87 | page va + i holds the entry for frame pa + i for each i below n and nothing else is written |
| `Vmm.WrittenWords` | kernel/src/mm/vmm.cpp:63-87 | a page met by several steps holds the last one's frame, with exactly the flags asked for, the present bit, and the user bit below the end of user space |
| `Vmm.MmapTranslates` | kernel/src/mm/vmm.cpp:63-87 | page i of aligned memory translates to frame pa + i |
| `Vmm.MetExact` | kernel/src/mm/vmm.cpp:89-112 | in closed form: a loop that ends meets the pages within the range's length of its start, one that does not meets every page |
| `Vmm.MunmapCoversRange` | kernel/src/mm/vmm.cpp:89-112 | every page that holds a byte of the range is unmapped if and only if the range is empty, or ends below 2^64 and the loop does not end, or its start's offset in the page does not push the last byte onto a further page, or it spans all 2^36 pages |
| `Vmm.MunmapInsideRange` | kernel/src/mm/vmm.cpp:89-112 | every page unmapped holds a byte of the range if and only if the loop ends or the range holds a byte of every page |
| `Vmm.MunmapExact` | kernel/src/mm/vmm.cpp:89-112 | exactly the pages of the range are unmapped if and only if both hold |
| `Vmm.LastPageMissed` | kernel/src/mm/vmm.cpp:89-112 | two bytes on either side of a page boundary, of which the second's page stays |
| `Vmm.TopByteUnmapsAll` | kernel/src/mm/vmm.cpp:89-112 | for one byte of the topmost page the loop does not end and meets every page, of which one holds the byte |
| `Vmm.UnmapTopByte` | kernel/src/mm/vmm.cpp:89-112 | asked for that, 2^36 rounds leave no page of the address space mapped and the loop still running |
| `Vmm.MunmapUndoesMmap` | kernel/src/mm/vmm.cpp:63-112 | unmapping n pages' worth of bytes removes exactly what mapping n pages wrote, if and only if n is zero or they end below 2^64 |
| `Vmm.TopPageStays` | kernel/src/mm/vmm.cpp:63-112 | the topmost page is written by mapping it and not met by unmapping it |
| `Vmm.MapThenUnmapTop` | kernel/src/mm/vmm.cpp:63-112 | run one after the other on the topmost page, mmap and munmap leave it mapped |
| `Vmm.WindowRoundTrip` | kernel/src/mm/vmm.cpp:151-169 | the physical window round-trips exactly on the stated ranges |
| `FieldIo.BitSpan.Offset` | kernel/src/extra/uacpi/io.c:38-46 | a span advances by the bits asked for, as far as it reaches |
| `FieldIo.BitCopy` | kernel/src/extra/uacpi/io.c:48-95 | destination bit i is source bit i, or 0 past the source; all other bits stay; only bytes of the spans are touched |
| `FieldIo.CutTail` | kernel/src/extra/uacpi/io.c:16-26 | the bits past the field's length in its last byte are cleared and nothing else |
| `FieldIo.ReadBufferField` | kernel/src/extra/uacpi/io.c:97-128 | both the aligned and the misaligned path give the field's bits zero-extended to bytes |
| `FieldIo.WriteBufferField` | kernel/src/extra/uacpi/io.c:130-176 | both paths write the source's bits into the field, zero past its end, and leave every other bit |
| `FieldIo.BufferWriteThenRead` | kernel/src/extra/uacpi/io.c:97-176 | writing and reading back gives the source truncated or zero-extended to the field |
| `FieldIo.BufferReadThenWrite` | kernel/src/extra/uacpi/io.c:97-176 | writing back what was read leaves the buffer as it was |
| `FieldUnits.AccessRead` | kernel/src/extra/uacpi/io.c:178-244 | one unit-wide read, failing exactly outside the region |
| `FieldUnits.AccessWrite` | kernel/src/extra/uacpi/io.c:178-244 | one unit-wide write, failing exactly outside the region |
| `FieldUnits.ReadUnit` | kernel/src/extra/uacpi/io.c:434-455 | one round of the general loop extends what has been read by the unit's bits |
| `FieldUnits.ReadMisaligned` | kernel/src/extra/uacpi/io.c:406-458 | the general loop reads exactly the field's bits and fails exactly when a unit lies outside |
| `FieldUnits.FastReadBits` | kernel/src/extra/uacpi/io.c:460-511 | the bytes of the single-access path are the bits of the general loop |
| `FieldUnits.ReadFieldUnit` | kernel/src/extra/uacpi/io.c:460-511 | one contract for the fast and the general read |
| `FieldUnits.PrepareUnit` | kernel/src/extra/uacpi/io.c:536-562 | the unit to be written starts as the update rule says |
| `FieldUnits.WriteUnit` | kernel/src/extra/uacpi/io.c:533-579 | one round writes the next bits of the field and, in the rest of its unit, what the update rule says |
| `FieldUnits.WriteFieldUnit` | kernel/src/extra/uacpi/io.c:513-582 | the field gets the source's bits; other bits of touched units are kept, set or cleared as the update rule says; all other bytes stay; on failure the units before are written |
| `FieldUnits.WriteThenRead` | kernel/src/extra/uacpi/io.c:406-582 | writing a field and reading it back gives the source truncated or zero-extended to its length |
| `FieldUnits.ReadThenWrite` | kernel/src/extra/uacpi/io.c:406-582 | under the preserve rule writing back what was read changes nothing |
| `GlobalLock.AcquireBits` | kernel/src/extra/uacpi/mutex.c:20-41 | acquiring takes a free lock or marks a taken one as wanted, and moves no other bit |
| `GlobalLock.ReleaseBits` | kernel/src/extra/uacpi/mutex.c:43-53 | releasing clears both bits and moves no other |
| `GlobalLock.InitInv` | kernel/src/extra/uacpi/mutex.c:20-53 | a free lock with nobody at work satisfies the protocol's invariant |
| `GlobalLock.StepInv` | kernel/src/extra/uacpi/mutex.c:55-116 | every step of an OS thread, the handler or the firmware keeps the invariant |
| `GlobalLock.RunInv` | kernel/src/extra/uacpi/event.c:2136-2161 | so it holds in every state of every run |
| `GlobalLock.MutualExclusion` | kernel/src/extra/uacpi/mutex.c:55-116 | OS and firmware never both own the lock, nor two OS threads, and the owned bit says so |
| `GlobalLock.NoLostWakeup` | kernel/src/extra/uacpi/mutex.c:55-116 | a waiting OS thread has a signal, or its flag is set and a release is outstanding; a waiting firmware has a notification outstanding |
| `GlobalLock.WaiterHelped` | kernel/src/extra/uacpi/event.c:2136-2161 | while a thread waits unsignalled some step is enabled that brings the signal strictly nearer |
| `GlobalLock.WaiterWakes` | kernel/src/extra/uacpi/event.c:2136-2161 | so within a bounded number of such steps the thread can go on |
| `GlobalLock.FreeLockIsTaken` | kernel/src/extra/uacpi/mutex.c:55-103 | an undisturbed attempt takes a free lock |
| `GlobalLock.WokenTakesLock` | kernel/src/extra/uacpi/mutex.c:65-93 | in every state that keeps the invariant a signalled waiter, undisturbed and the firmware not owning, tries again and owns the lock |
| `GlobalLock.TakenLockIsAwaited` | kernel/src/extra/uacpi/mutex.c:65-90 | an undisturbed attempt at a lock the firmware owns marks it as wanted and waits for the next attempt, unless it was the last |
| `GlobalLock.OwnerLetsGo` | kernel/src/extra/uacpi/mutex.c:43-116 | an undisturbed owner clears both bits and tells the firmware exactly if it was waiting |
| `GlobalLock.GivesUpLast` | kernel/src/extra/uacpi/mutex.c:65-97 | over every run, a thread that comes out without ever having owned the lock has made 0xFFFF attempts |
| `GlobalLock.Sequence.Acquire` | kernel/src/extra/uacpi/mutex.c:149-176 | the number returned is one below the number kept |
| `GlobalLock.Sequence.Release` | kernel/src/extra/uacpi/mutex.c:178-191 | succeeds exactly for the number kept while the lock is held |
| `GlobalLock.AcquireThenRelease` | kernel/src/extra/uacpi/mutex.c:149-191 | releasing by one's own number always fails and by the next one succeeds |
| `GpeMask.QuietStep` | kernel/src/extra/uacpi/event.c:335-376 | a quiet masked event stays quiet through every step but its unmasking and an enable-all that names it |
| `GpeMask.DrainedStep` | kernel/src/extra/uacpi/event.c:1276-1284 | once the work in flight has drained nobody can set the bit on purpose |
| `GpeMask.DisabledStep` | kernel/src/extra/uacpi/event.c:1286-1291 | after masking's own disabling nobody holds a stale copy of the register with the bit set |
| `GpeMask.StepInv` | kernel/src/extra/uacpi/event.c:1262-1310 | every step that respects masks keeps the invariant |
| `GpeMask.RunInv` | kernel/src/extra/uacpi/event.c:1262-1310 | so it holds in every state of every run |
| `GpeMask.MaskedStaysDisabled` | kernel/src/extra/uacpi/event.c:1262-1310 | once masking has returned the event's enable bit is 0 in every state until it is unmasked, under every interleaving |
| `GpeMask.UnmaskEnables` | kernel/src/extra/uacpi/event.c:1303-1307 | unmasking an event with its enabling asked for sets its enable bit, undisturbed, if and only if it is in the current mask or has the bit anyway; no other event's bit changes |
| `GpeMask.FirstUserEnables` | kernel/src/extra/uacpi/event.c:1218-1242 | a first user sets the event's enable bit, undisturbed, unless it is masked |
| `GpeMask.LastUserDisables` | kernel/src/extra/uacpi/event.c:1193-1211 | a last user leaving clears it |
| `GpeMask.MaskDisables` | kernel/src/extra/uacpi/event.c:1262-1301 | masking, with nobody to wait for, clears it and no other |
| `GpeMask.AllSet` | kernel/src/extra/uacpi/event.c:719-732 | enabling all for runtime enables exactly the events with users that are not masked; disabling all none |
| `GpeMask.EnableAllWakeRespects` | kernel/src/extra/uacpi/event.c:719-732 | enabling all for wake keeps masked events disabled if and only if none of them is marked for wake |
| `GpeMask.WakeBreaksMask` | kernel/src/extra/uacpi/event.c:719-732 | any run with a masked event can go on to a state where its bit is set |
| `GpeMask.UpdateHandlerKeepsMask` | kernel/src/extra/uacpi/event.c:1318-1326 | changing the handler of a masked event leaves it masked if and only if it is not in the current mask |
| `GpeMask.UpdateHandlerUnmasks` | kernel/src/extra/uacpi/event.c:1318-1326 | from any start a run leads to a masked event with a user, which a handler update then unmasks |
| `RwLock.StepInv` | kernel/src/extra/uacpi/mutex.c:353-394 | every step of every thread, failures included, keeps the lock's invariant |
| `RwLock.RunInv` | kernel/src/extra/uacpi/mutex.c:353-394 | so it holds in every state of every run |
| `RwLock.WriterExcludesAll` | kernel/src/extra/uacpi/mutex.c:386-394 | while a writer is inside nobody else is, reader or writer |
| `RwLock.CounterIsReaders` | kernel/src/extra/uacpi/mutex.c:353-384 | whenever the read mutex is free the counter is the number of readers inside, and the write mutex is held exactly if someone is |
| `RwLock.AllOutMeansFree` | kernel/src/extra/uacpi/mutex.c:353-394 | with every thread out both mutexes are free and the counter is zero |
| `RwLock.ReaderGetsIn` | kernel/src/extra/uacpi/mutex.c:353-374 | an undisturbed reader gets in, the first by taking the write mutex, and only if it is free |
| `RwLock.ReaderTurnedAway` | kernel/src/extra/uacpi/mutex.c:353-374 | one that cannot have the write mutex goes out with the counter at zero and the read mutex free |
| `RwLock.ReaderGetsOut` | kernel/src/extra/uacpi/mutex.c:376-384 | an undisturbed reader gets out, and the write mutex is given back exactly by the last |
| `RwLock.WriterInAndOut` | kernel/src/extra/uacpi/mutex.c:386-394 | a writer gets in exactly when nobody is inside, and out again with everything as before |
| `RecursiveLock.StepInv` | kernel/src/extra/uacpi/mutex.c:287-314 | every step of every thread keeps the invariant |
| `RecursiveLock.RunInv` | kernel/src/extra/uacpi/mutex.c:287-314 | so it holds in every state of every run |
| `RecursiveLock.OwnerAndDepth` | kernel/src/extra/uacpi/mutex.c:287-314 | one thread at most is inside, and at rest the owner word names it and the depth is its nesting |
| `RecursiveLock.HolderNeverWaits` | kernel/src/extra/uacpi/mutex.c:201-218 | the holder's further acquire is refused exactly at the depth limit and otherwise succeeds without waiting |
| `RecursiveLock.FirstAcquireGetsIn` | kernel/src/extra/uacpi/mutex.c:287-314 | in every state of every run a first acquire can take the mutex exactly when it is free, and then ends with the thread as owner at depth one |
| `RecursiveLock.GivenUp` | kernel/src/extra/uacpi/mutex.c:287-314 | one that gives up has changed nothing |
| `RecursiveLock.DepthBounded` | kernel/src/extra/uacpi/mutex.c:201-218 | the depth never passes the limit, so 16 bits never wrap |
| `RecursiveLock.LastReleaseFrees` | kernel/src/extra/uacpi/mutex.c:241-253 | the mutex is released with the release that matches the first acquire and by no earlier one |
| `NamespaceTree.AddedIsTree` | kernel/src/extra/uacpi/namespace.c:302-329 | hanging a loose node behind the last child gives the tree with that child more |
| `NamespaceTree.DroppedIsTree` | kernel/src/extra/uacpi/namespace.c:351-446 | bypassing a childless node gives the tree without it |
| `NamespaceTree.Namespace.constructor` | kernel/src/extra/uacpi/namespace.c:159-187 | the root alone is a tree, and every other node is still unlinked |
| `NamespaceTree.Namespace.Predefine` | kernel/src/extra/uacpi/namespace.c:189-202 | the root's children are the predefined nodes in their order, and nothing but links has changed |
| `NamespaceTree.Namespace.Install` | kernel/src/extra/uacpi/namespace.c:302-329 | a node is added as the last child; one that was removed before is refused unchanged |
| `NamespaceTree.Namespace.Uninstall` | kernel/src/extra/uacpi/namespace.c:351-446 | exactly that node leaves its siblings; refused when dangling, when it has a child, or when it is not linked |
| `NamespaceTree.Namespace.Wipe` | kernel/src/extra/uacpi/namespace.c:228-230 | the inner loop removes all children of a node one by one and touches nothing else |
| `NamespaceTree.Namespace.Deinitialize` | kernel/src/extra/uacpi/namespace.c:208-250 | no removal is refused, every node but the root is removed exactly once and after all its children, and only the root is left |
| `NamespaceTree.NothingLeft` | kernel/src/extra/uacpi/namespace.c:208-250 | when the root has no child no other node is installed |
| `WalkLoop.ForEachChild` | kernel/src/extra/uacpi/namespace.c:836-938 | the walk without a stack makes exactly the calls of the recursive depth-bounded traversal, in order, with type filter and pruning, and ends when that does; for every callback: it goes on after a call unless that was answered Break, or with no known answer on the way down; only the latter is an error; nothing below a node that was passed over is called; a node is called before or after all below it, siblings in their order |
| `WalkAnswers.VisitHeeds` | kernel/src/extra/uacpi/namespace.c:836-938 | every call but the last was answered so that the walk goes on, and the last of a stopped walk was not; the status is an error only for an unknown answer on the way down |
| `WalkAnswers.VisitRespects` | kernel/src/extra/uacpi/namespace.c:917-927 | after NextPeer to a call on the way down no call is for a node below that one |
| `WalkAnswers.VisitInOrder` | kernel/src/extra/uacpi/namespace.c:836-938 | whatever the answers, no call is made twice, a node is called before all below it on the way down and after all below it on the way up, and siblings in their order |
| `WalkAnswers.StoppedEarly` | kernel/src/extra/uacpi/namespace.c:890-893 | a walk that is stopped makes the calls of the one that is not, as far as it gets |
| `WalkAnswers.VisitListed` | kernel/src/extra/uacpi/namespace.c:836-938 | in a tree in which every node has an object only listed calls are made, whatever the answers |
| `WalkAnswers.VisitComplete` | kernel/src/extra/uacpi/namespace.c:836-938 | and one that is not stopped leaves out nothing but what lies below nodes that were passed over |
| `WalkAnswers.ListedExactly` | kernel/src/extra/uacpi/namespace.c:864-888 | listed are exactly the calls of a wanted direction and type, within the depth, below the start and with nothing hidden on the way |
| `NamespaceWalk.WalkIsListing` | kernel/src/extra/uacpi/namespace.c:836-938 | with callbacks that continue, the calls are exactly the listed ones, pre-order down and post-order up, if and only if no node without an object is taken for a match where that has an effect |
| `NamespaceWalk.EveryMask` | kernel/src/extra/uacpi/namespace.c:836-938 | when no node is hidden, that holds for every set of types if and only if no node without an object is compared, in a direction with a callback, after a node with one |
| `NamespaceWalk.EveryType` | kernel/src/extra/uacpi/namespace.c:836-950 | a walk for every type, whatever it hides, makes the listed calls if and only if no node without an object is compared, where that shows, after one with an object, hidden nodes being passed over once an object has been met |
| `NamespaceWalk.HiddenFromOneMask` | kernel/src/extra/uacpi/namespace.c:836-938 | a tree with a temporary node in which the walk for every type is as listed and the walk for one type is not |
| `NamespaceWalk.EarlierMatchInherited` | kernel/src/extra/uacpi/namespace.c:836-938 | a tree of three nodes in which a walk for one type also calls back for a node without an object |
| `NamespaceWalk.ContinueListsAll` | kernel/src/extra/uacpi/namespace.c:836-938 | a tree in which every node has an object is always walked as listed |
| `NamespaceWalk.ListingOnce` | kernel/src/extra/uacpi/namespace.c:836-938 | no call is made twice |
| `NamePaths.FindSubNode` | kernel/src/extra/uacpi/namespace.c:448-468 | the first child with the name, or null |
| `NamePaths.SegmentToName` | kernel/src/extra/uacpi/namespace.c:470-491 | up to four characters before a dot or the end, filled up with underscores |
| `NamePaths.FollowPrefix` | kernel/src/extra/uacpi/namespace.c:519-563 | fails exactly when the carets lead above the root or stand in front of a backslash |
| `NamePaths.SearchAbove` | kernel/src/extra/uacpi/namespace.c:583-593 | the nearest scope above that has the name |
| `NamePaths.Resolve` | kernel/src/extra/uacpi/namespace.c:493-623 | the text resolver finds exactly the node the path means, with search only for a single unprefixed segment, and denies temporary nodes on request |
| `NamePaths.ReadNamePath` | kernel/src/extra/uacpi/interpreter.c:400-438 | dual, multi, null and plain name paths and their malformed forms |
| `NamePaths.SearchUpward` | kernel/src/extra/uacpi/interpreter.c:607-614 | the AML resolver's own climb finds the nearest scope that has the name |
| `NamePaths.ResolveNameString` | kernel/src/extra/uacpi/interpreter.c:477-635 | for any bytes the AML resolver finds the node the NameString means, or the parent under which its last segment is new, or the right error |
| `NamePaths.SegmentAccepted` | kernel/src/extra/uacpi/utilities.c:299-323 | a single segment is refused for its characters if and only if one is no digit, capital letter or underscore |
| `NameLaws.SearchedUpwards` | kernel/src/extra/uacpi/interpreter.c:477-635 | a segment alone is the scope's own child of that name, or else what the parent makes of it |
| `NameLaws.RootSegment` | kernel/src/extra/uacpi/interpreter.c:477-635 | behind a backslash it is looked for in the root alone |
| `NameLaws.CaretSegment` | kernel/src/extra/uacpi/interpreter.c:477-635 | behind a caret a segment is looked for in the parent alone, and the root has none |
| `NameAgreement.SegmentsOfJoined` | kernel/src/extra/uacpi/namespace.c:470-491 | segments joined with dots are read back as themselves |
| `NameAgreement.NameStringToPath` | kernel/src/extra/uacpi/interpreter.c:364-470 | the translation fills a buffer of exactly the computed size with the path and its terminator, and fails exactly on malformed names |
| `NameAgreement.TranslationAgrees` | kernel/src/extra/uacpi/interpreter.c:364-635 | translating a well-formed NameString and resolving the text agrees with resolving it directly if and only if it is no bare NullName and no unprefixed one-segment MultiNamePath found only above the scope |
| `NameAgreement.TranslationDisagrees` | kernel/src/extra/uacpi/interpreter.c:364-635 | a bare NullName and a one-segment MultiNamePath in a tree of two nodes that resolve differently as text |
| `PathPrinter.NodeDepth` | kernel/src/extra/uacpi/namespace.c:1017-1027 | the number of links up to the root |
| `PathPrinter.GenerateAbsolutePath` | kernel/src/extra/uacpi/namespace.c:1036-1074 | the byte count is exact and the buffer filled from the back is the absolute path and its terminator |
| `PathPrinter.PrintThenResolve` | kernel/src/extra/uacpi/namespace.c:493-623 | resolving the printed path from any scope gives the node back if and only if no ancestor and not the node itself has an earlier sibling of the same name |
| `PathPrinter.TwinFound` | kernel/src/extra/uacpi/namespace.c:493-623 | of two siblings of one name the second's printed path leads to the first |
| `PathPrinter.UniqueMeansUnshadowed` | kernel/src/extra/uacpi/namespace.c:448-468 | with unique sibling names that is always so |
| `RegionLists.AttachKeeps` | kernel/src/extra/uacpi/opregion.c:297-309 | pushing a region onto a handler's list keeps all lists and reference counts exact |
| `RegionLists.DetachKeeps` | kernel/src/extra/uacpi/opregion.c:316-381 | taking a region out of its list from any place keeps them exact |
| `RegionLists.ListExact` | kernel/src/extra/uacpi/opregion.c:297-381 | a handler's list holds exactly the regions that name it and its references are one more than they are |
| `Opregion.NewNearest` | kernel/src/extra/uacpi/opregion.c:658-666 | a new handler becomes the nearest exactly for the nodes from which one reaches its device before any other with a handler for the space |
| `Opregion.WalkVisits` | kernel/src/extra/uacpi/opregion.c:425-471 | the walk with the installing callback goes through exactly the nodes not cut off by a nearer handler |
| `Opregion.PushedDown` | kernel/src/extra/uacpi/opregion.c:425-471 | so pushing down and climbing up give the same handler |
| `Opregion.Opregions.FindHandler` | kernel/src/extra/uacpi/opregion.c:193-208 | the first handler of a device for the space |
| `Opregion.Opregions.FindPrevious` | kernel/src/extra/uacpi/opregion.c:210-229 | the region in front in the list, or the region itself when it is first |
| `Opregion.Opregions.Attach` | kernel/src/extra/uacpi/opregion.c:297-309 | the region is first in the handler's list and holds a reference |
| `Opregion.Opregions.Detach` | kernel/src/extra/uacpi/opregion.c:316-381 | the region has no handler and is in no list; no other region's handler changes |
| `Opregion.Opregions.InitializeRegion` | kernel/src/extra/uacpi/opregion.c:783-811 | a new region takes the handler of its nearest ancestor with one; every other region keeps its own |
| `Opregion.Opregions.InstallHandler` | kernel/src/extra/uacpi/opregion.c:620-675 | refused without effect when the node takes no handlers or has one for the space; else afterwards every region again has its nearest handler and all lists are exact |
| `Opregion.Opregions.RemoveRegion` | kernel/src/extra/uacpi/opregion.c:398-406 | removing a region leaves all others served |
| `Opregion.Opregions.AddNode` | kernel/src/extra/uacpi/namespace.c:302-329 | growing the tree by a permanent node leaves every region served |
| `NumberText.Strtol` | kernel/src/klibc/cstring.cpp:218-274 | value and end of reading are those of the blanks, sign, base mark and longest run of digits |
| `NumberReading.StrtolReads` | kernel/src/klibc/cstring.cpp:218-274 | for every base: blanks, a sign, the base's mark and digits are read as the digits' value, negative exactly behind a minus, up to the last digit, whatever follows |
| `NumberText.WriteDigits` | kernel/src/extra/printf/printf.c:284-303 | the digits, least significant first, never past the 32-character buffer |
| `NumberText.Format` | kernel/src/extra/printf/printf.c:230-279 | zeros, base mark and sign as far as the buffer goes |
| `NumberText.PutOut` | kernel/src/extra/printf/printf.c:202-226 | the buffer from its end, padded to the width on the right side |
| `NumberText.Print` | kernel/src/extra/printf/printf.c:284-305 | the text of a number for all flags, widths, precisions and bases |
| `PrintedText.PrintedShape` | kernel/src/extra/printf/printf.c:202-305 | for all flags, widths and precisions: blanks, the sign, digits and letters of the right case, blanks; on the side asked for, as many as the width asks for |
| `NumberRoundTrip.LowDigitsSpell` | kernel/src/extra/printf/printf.c:293-300 | the digits spell the value if they are enough, and something smaller if not |
| `NumberRoundTrip.PrintThenRead` | kernel/src/extra/printf/printf.c:202-305 | printing without a base mark and reading in the same base gives the number back if and only if its digits fit and its sign is not crowded out |
| `NumberRoundTrip.LongRoundTrip` | kernel/src/klibc/cstring.cpp:218-274 | for a long in base 8 to 16, all flags, widths and precisions: the value comes back if and only if it is not negative with 32 or more zero-filled places |
| `NumberRoundTrip.SignCrowdedOut` | kernel/src/extra/printf/printf.c:230-279 | minus one, zero-padded to a width of 33, is read back as one |
| `NumberRoundTrip.MarkedRoundTrip` | kernel/src/extra/printf/printf.c:246-265 | a positive long printed with '#' in base 8 or 16 and read with base 0 comes back and all of the text is read |
| `MarkedNumbers.MarkedExact` | kernel/src/extra/printf/printf.c:230-279 | a positive long printed with '#' in base 8 or 16, for all flags, widths and precisions, comes back if and only if the mark takes no digit away and has room, or has none at all and the number is below eight |
| `MarkedNumbers.DigitTaken` | kernel/src/extra/printf/printf.c:246-253 | eight in octal with '#' in a width of two does not come back |
| `NumberRoundTrip.MarkedZero` | kernel/src/klibc/cstring.cpp:235-246 | the zero that '#' prints reads as zero with nothing consumed |
| `Utf8.NextByte` | kernel/src/extra/flanterm/flanterm.c:1965-2000 | one more byte of a sequence begun: further on, dispatched, or dropped and looked at afresh |
| `Utf8.BegunReached` | kernel/src/extra/flanterm/flanterm.c:2023-2038 | whatever came before, a stream that ends with the beginning of a sequence leaves the decoder in its middle |
| `Utf8.DispatchesWellFormed` | kernel/src/extra/flanterm/flanterm.c:1952-2038 | a code point is dispatched if and only if the bytes just consumed are a well-formed sequence of section 4 of RFC 3629, and it is that sequence's number |
| `Utf8.DispatchesScalars` | kernel/src/extra/flanterm/flanterm.c:1976-2000 | no overlong form, surrogate or number past 0x10FFFF is ever dispatched |
| `Terminal.Terminal.constructor` | kernel/src/extra/flanterm/flanterm.c:85-126 | a new terminal of at least one row and column is within all bounds, in its initial state, with nothing asked of the backend |
| `Terminal.Terminal.SaveState` | kernel/src/extra/flanterm/flanterm.c:1093-1108 | the margins, modes and character sets put aside are the current ones |
| `Terminal.Terminal.RestoreState` | kernel/src/extra/flanterm/flanterm.c:1076-1091 | margins, modes and character sets are those put aside |
| `Terminal.Terminal.ShiftRight` | kernel/src/extra/flanterm/flanterm.c:1939-1950 | the characters from the column on move right, the last first, each inside the grid |
| `Terminal.Terminal.LineFeed` | kernel/src/extra/flanterm/flanterm.c:616-626 | at the bottom margin the backend scrolls and the line stays, else the cursor goes one line down while there is one |
| `Terminal.Terminal.ExecuteC0` | kernel/src/extra/flanterm/flanterm.c:594-640 | byte by byte what backspace, tab, line feeds, carriage return, shift out and in do to cursor, scrolling and character sets; the others nothing |
| `Terminal.Terminal.DecPrivateParse` | kernel/src/extra/flanterm/flanterm.c:455-502 | modes 6, 7 and 1049 change origin, wrap, margins and saved state one after the other, and each change of the origin mode sets the cursor to the origin |
| `Terminal.Terminal.OscParse` | kernel/src/extra/flanterm/flanterm.c:556-592 | a command's buffer takes at most 256 bytes, backslash after an escape and the bell end it, and only an escape without a backslash is given back |
| `Terminal.Terminal.ReadDigit` | kernel/src/extra/flanterm/flanterm.c:659-675 | a number grows by the digit until it would pass 32 bits, and then no further |
| `Terminal.Terminal.FillDefaults` | kernel/src/extra/flanterm/flanterm.c:691-709 | values not given take the default, and so do zeros unless the default is zero |
| `Terminal.Terminal.MoveUp` | kernel/src/extra/flanterm/flanterm.c:747-760 | up by the value, no further than the top or in origin mode the top margin |
| `Terminal.Terminal.MoveDown` | kernel/src/extra/flanterm/flanterm.c:761-775 | down by the value, no further than the last line or in origin mode the bottom margin |
| `Terminal.Terminal.MoveToRow` | kernel/src/extra/flanterm/flanterm.c:792-806 | to the row counted from one, within the grid or the margins |
| `Terminal.Terminal.MoveColumn` | kernel/src/extra/flanterm/flanterm.c:776-815 | left, right or to a column, within the line |
| `Terminal.Terminal.MoveTo` | kernel/src/extra/flanterm/flanterm.c:816-838 | to row and column counted from one, within the grid or the margins |
| `Terminal.Terminal.EraseDisplay` | kernel/src/extra/flanterm/flanterm.c:888-928 | every line below or above the cursor is visited once, in order, and the cursor returns |
| `Terminal.Terminal.InsertBlanks` | kernel/src/extra/flanterm/flanterm.c:929-946 | the line moves right by the value and the cursor returns |
| `Terminal.Terminal.DeleteCharacters` | kernel/src/extra/flanterm/flanterm.c:947-964 | the line moves left by the value and the freed end is erased |
| `Terminal.Terminal.ScrollLines` | kernel/src/extra/flanterm/flanterm.c:839-864 | the backend scrolls the right way as often as asked but no more than there are lines, finding the top margin on the cursor's line; afterwards the margins are as before |
| `Terminal.Terminal.ScrollRegion` | kernel/src/extra/flanterm/flanterm.c:1020-1035 | the same within the margins |
| `Terminal.Terminal.ChangeLine` | kernel/src/extra/flanterm/flanterm.c:1166-1192 | one line down or up, to the first column for E, with the backend scrolling at the bottom margin, or for M at the top one |
| `Terminal.Terminal.SetMargins` | kernel/src/extra/flanterm/flanterm.c:999-1015 | the margins asked for if they leave two lines inside the grid, else the whole grid |
| `Terminal.Terminal.Finish` | kernel/src/extra/flanterm/flanterm.c:745-1060 | case by case over the final bytes: the position the cursor is set to, the scrollings, and what margins, modes and saved cursor become |
| `Terminal.Terminal.ControlSequenceParse` | kernel/src/extra/flanterm/flanterm.c:642-1074 | any byte of a control sequence: digits and semicolons make up the values, and the byte that ends them does what it means with them, in private and unknown sequences too |
| `Terminal.Terminal.EscapeParse` | kernel/src/extra/flanterm/flanterm.c:1110-1205 | any byte behind an escape does what it means: lines down and up, state saved and restored, a reset, a slot chosen, a sequence or command begun |
| `Terminal.Terminal.PutChar` | kernel/src/extra/flanterm/flanterm.c:1952-2102 | any byte keeps all bounds and does what it means, as a relation between the state and the backend's calls before and after; a code point is dispatched exactly when the decoder on the stream so far dispatches it |
| `Terminal.Terminal.Write` | kernel/src/extra/flanterm/flanterm.c:130-138 | so does any stream of bytes |
| `ControlSequences.SendNumber` | kernel/src/extra/flanterm/flanterm.c:659-675 | the decimal digits of a number below 2^32 are read as that number |
| `ControlSequences.SendValues` | kernel/src/extra/flanterm/flanterm.c:659-689 | up to 16 numbers with semicolons between them are read as those numbers |
| `ControlSequences.SendCommand` | kernel/src/extra/flanterm/flanterm.c:642-1074 | for any numbers and final byte, the whole byte sequence from the escape on does what the final byte means with these numbers, or, exactly when a private sequence was cancelled before, what it means in a private one |
| `ControlSequences.MarkOutlivesCancel` | kernel/src/extra/flanterm/flanterm.c:1952-1963 | after a cancelled private sequence the sequence to go five lines up does nothing |

## Left out

Assumptions and limits of what is modelled:

- Liballoc.Heap.Malloc: sizes stay below 0x7FFF0000 and addresses are numbers, so the 32-bit pointer casts are not modelled; the page provider is an answer given to the call.
- Liballoc.Heap.Free: the pointer is live, null, or not preceded by a tag's magic number; double frees of melted tags are not modelled.
- calloc and realloc of liballoc.c, its locking and its memory copies are not modelled.
- Pmm.Pmm.constructor: ranges of the memory map do not overlap and each has between 1 and 65535 pages, which is what 16 lists can hold.
- Pmm.Pmm.Free: a pointer inside a segment is a live block's, and the size is the one used in the allocation.
- Vmm.AddressSpace.Mmap: no large-page entries, tables not shared, fresh pages from the page allocator; TLB invalidation is not modelled. A null result is ambiguous only for virtual address 0.
- Vmm.AddressSpace.Munmap: a call that returns, as `Vmm.LoopEndsExact` tells; what one that does not does is `Vmm.AddressSpace.MunmapRounds`.
- copy_to_user, copy_from_user and the switch of page tables in vmm.cpp are not modelled.
- FieldUnits.WriteFieldUnit: fields of at least one bit over memory that behaves like a byte array; index, bank, connection and buffered serial fields and register side effects are not modelled.
- The mapping of generic addresses in io.c is not modelled.
- GlobalLock.StepInv: the firmware follows the same protocol; the OS gives up after 0xFFFF attempts without entering; native mutexes, spinlocks and events follow kernel/src/uacpi/kernel_api.h:231-368.
- GpeMask.StepInv: one register of events; hardware accesses succeed; interrupts and work items may set the state of any event at any time; all other callers hold the event lock, as the code has it. The raw-handler path, which leaves the register to the driver, is not modelled.
- RwLock.StepInv: a thread does not unlock what it has not locked; mutexes may fail to be acquired but do not change hands by themselves.
- RecursiveLock.StepInv: a thread releases only what it has acquired; the recursive lock's own unbounded depth and the AML mutex's timeouts and Global Lock nesting are not modelled.
- NamespaceTree.Namespace.Install: the node is not already installed; reference counts and object lifetimes are not modelled beyond the detached object.
- NamespaceTree.Namespace.Predefine: creating the predefined nodes' objects, and failing to, is not modelled.
- NamespaceWalk.EveryMask: where nodes are hidden, which ones a walk passes over depends on the types it asks for (NamespaceWalk.HiddenFromOneMask), so such walks are covered one set of types at a time, by NamespaceWalk.WalkIsListing, and for all types at once by NamespaceWalk.EveryType.
- WalkLoop.ForEachChild: callbacks do not change the tree while it is walked; the namespace lock taken around them is not modelled.
- NamePaths.Resolve: the scope is installed, and a search needs a scope, since the code would follow a null one.
- NamePaths.ResolveNameString: the advance of the interpreter's code offset is not modelled.
- PathPrinter.GenerateAbsolutePath: allocation succeeds; stored names have four characters and no dot.
- Opregion.Opregions.InstallHandler: all nodes are permanent and have objects, and the tree is less than 2^32 - 1 levels deep; the callbacks of the walk do not depend on the regions they have already moved, so they are applied after it. Attach and detach notifications and _REG methods are not modelled.
- A region is identified with its node, so alias nodes that share one region object are not modelled.
- Uninstalling an address space handler and the input and output through handlers in opregion.c are not modelled.
- NumberText.Print: the output function is a sequence; the limit on what snprintf stores is not modelled.
- NumberText.Strtol: results beyond a long, which the code lets overflow, are unbounded here.
- Utf8.DispatchesWellFormed: code points are kept in 32 bits, of which 21 are used.
- Terminal.Terminal.PutChar: glyph widths are a parameter in place of the width and code page tables; colours, palettes, callbacks and what the backend draws are not modelled. The cursor position is whatever position inside the grid the backend reports.
- In event.c only masking and the Global Lock handler are modelled; block detection, handler memory and fixed events are not.
- Table loading, the opcode interpreter, registers, sleep states, notifications, the framebuffer, PCI and boot code are not modelled.
