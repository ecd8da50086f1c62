# Relics kernel: verified models

Dafny models of the parts of the Relics exokernel (`root/orbit-kernel`) that carry its
algorithms, with proofs of what they do.

- **The heap.** A first-fit free-list allocator whose block headers live inside the memory it
  manages, linked in a ring through a sentinel. `LinkedList.dfy` and `KernelHeap.dfy` follow the
  pointer code; the memory is a map from the address of a 64-bit word to its value, and every
  store is a step on that map. `Blocks.dfy` says what each call does to the list of free blocks as
  a function on intervals, `KernelHeap` proves that the pointer code does exactly that, and
  `Coalescing.dfy`, `Confluence.dfy`, `RoundTrip.dfy` and `HeapRuns.dfy` prove what follows from
  it over every run. `PhysicalMemory.dfy` seeds the heap from the e820 map and runs the kernel's
  trial allocations.
- **printk and the console.** `Numerals.dfy` and `NumberStrings.dfy` are the number printers,
  `Printk.dfy` the format interpreter with its moving cursor, `Console.dfy` the 80x25 text screen.
- **Interrupts.** `Sleep.dfy` is `millisleep` against the timer interrupt, `Keyboard.dfy` the
  scan-code decoder and the one-character slot between the keyboard interrupt and `getchark`. Both
  are step relations; the lemmas speak about every interleaving.
- **Words.** `Descriptors.dfy` packs a segment descriptor (section 3.4.5 of the Intel SDM, volume
  3A); `Powers.dfy` is modular exponentiation by squaring.

`Arithmetic.dfy` and `Texts.dfy` hold what several parts share.

`dafny verify dfyconfig.toml` checks everything.

## Where the code falls short of what it is for

The models keep these cases; each is stated exactly, for all inputs.

- A header at address 0 counts as "no block" in the merging pass (`if(last_block)`), so a free
  block there never absorbs its successor. Freeing everything gives an ascending seeded list back
  exactly when its block at 0, if it has one, is not in pieces (`Confluence.FreeingEverything`,
  `HeapRuns.SeedingRecovered`). The trial allocations of `pmem_map` need 49136 bytes in a single
  region above address 0 and 49184 in one at address 0.
- `malloc_addblock` pushes at the head, so the list is ascending exactly when the map lists its
  usable regions from high to low (`HeapRuns.AddRegionOrdered`, `PhysicalMemory.SeededOrdered`).
  Neither tiling nor the irrelevance of the order of frees needs that order.
- The pass compares neighbours in the list only. After `kfree` two free blocks touch exactly when
  two did that are not neighbours in the list (`HeapRuns.FreeTouching`); in an ascending list none
  do (`Coalescing.OrderedStray`). An allocation from a merged list leaves mergeable neighbours
  exactly when it splits a block at 0 that touches its successor, or takes a whole block from
  between two that touch (`Coalescing.AllotCoalesced`). `HeapRuns.ScatteredRun` is a run that does
  the latter.
- `kfree` right after `kmalloc` restores a merged heap exactly when no block in front of the one
  taken lies higher, and a block that was split is not at address 0, and a block that was taken
  whole lies lower than its successor in the list (`RoundTrip.MallocFreeRoundTrip`,
  `HeapRuns.MallocThenFree`). In an ascending list only the split at address 0 fails; in a descending
  one of two or more blocks, such as an ascending map gives, only a split of the first is undone.
- The sentinel `free_list` is a static of the kernel image, which is linked at 0x1000
  (`Makefile:165`, `linker.ld:2`), and `pmem_map` hands over every usable entry as it is. In every
  run of the state machine the sentinel overlaps a free or live block exactly when a usable entry
  holds one of its words (`PhysicalMemory.SentinelOwned`), as the low entry of a PC does. The memory
  follows the state machine as long as no header comes to lie on the sentinel
  (`KernelHeap.Heap.PerformAll`); a map clear of the sentinel ensures that (`KernelHeap.AwayForEver`),
  and so does one whose last usable entry is, if it serves all requests, as on a PC with memory
  above 1 MiB (`PhysicalMemory.LastEntryServes`, `PhysicalMemory.UsualBoot`). A header of a free block
  on the sentinel breaks the list (`KernelHeap.NoSuchRing`), and so does a client's store there that
  changes the link (`PhysicalMemory.SentinelStore`).
- The rounding of a request wraps for the seven largest 64-bit sizes; such a request is served with
  less than 56 bytes (`Blocks.AlignUpMeaning`, `HeapRuns.MallocBigEnough`).
- `lltoa` cannot print -2^63: with wrapping negation it stores outside its buffer
  (`NumberStrings.Lltoa`).
- `zero_extend_3` writes two digits for 0, so a whole number of seconds is printed correctly only if
  the buffer already held a '0' in the third cell (`NumberStrings.SecondsInverts`).
- The interpreter passes the terminator of exactly the formats that end in `l` or `ll` behind an odd
  number of consecutive groups of a `%` and zeros (`Printk.OverrunEnd`): `%l` and `%l%l` do,
  `%%l` does not. A padded zero in base 8 prints no digit (`Printk.BaseTextInverts`).
- Filling the last column of the bottom row moves the cursor off the screen without a scroll. A
  printable character is then stored out of bounds, and nothing else is (`Console.PastTheBottom`):
  24 line ends and 81 characters leave the buffer, 80 and a line end do not
  (`Console.FirstOverflow`). `Console.InBounds` and `Console.InBoundsByRows` say which texts stay
  in bounds; `next_line_index`, a 16-bit counter, goes up with every row filled at the bottom, and
  the screen shows the last rows until it wraps (`Console.TextShows`).
- `set_several_bits` shifts an `int` 1, which is defined for fields of up to 31 bits
  (`Descriptors.SetSeveralBits`). The widest in use has 24.
- The comment at `util/malloc_freelist.c:61` speaks of a minimum allocation of 32 bytes; in the code
  that is the minimum of what a split leaves behind, and blocks of 8 bytes are handed out.
- `ppowi(2, 32)` is off by one and larger powers of two index past the table (`Powers.Ppowi`).

## Model

| member | source | states |
|---|---|---|
| LinkedList.Memory.ListAdd_ | root/orbit-kernel/linked_list.h:74-81 | Linking a node between ring neighbours k and k+1, the sentinel included, leaves the ring with the node inserted there, both link directions consistent; only four link words may change. |
| LinkedList.Memory.ListAdd | root/orbit-kernel/linked_list.h:83-87 | The node becomes the first behind the sentinel. |
| LinkedList.Memory.ListAddTail | root/orbit-kernel/linked_list.h:89-93 | The node becomes the last before the sentinel. |
| LinkedList.Memory.ListDel_ | root/orbit-kernel/linked_list.h:100-105 | The ring without its k-th node is a ring again; two words change. |
| LinkedList.Memory.ListDel | root/orbit-kernel/linked_list.h:107-113 | As above, and the links of the removed node are cleared. |
| LinkedList.LinksInverse | root/orbit-kernel/linked_list.h:36-39 | In a ring, next and prev undo each other at every node. |
| LinkedList.FollowRing | root/orbit-kernel/linked_list.h:46-47 | Following next n times from node i reaches node i + n modulo the number of nodes, for every n. |
| LinkedList.RingUnique | root/orbit-kernel/linked_list.h:46-56 | The memory determines the ring: two rings with the same first node are the same sequence. |
| Blocks.AlignUpMeaning | root/orbit-kernel/util/malloc_freelist.c:39 | Rounding gives the least multiple of 8 that is big enough exactly when the 64-bit sum does not wrap, and 0 when it does. |
| Blocks.DisjointByCount | root/orbit-kernel/util/malloc_freelist.c:43-53 | No byte lies in two blocks exactly when the blocks are pairwise disjoint. |
| KernelHeap.Heap.FindFit | root/orbit-kernel/util/malloc_freelist.c:133-141 | The traversal stops at the first block in list order that is big enough, or at the sentinel if there is none. |
| KernelHeap.Heap.Split | root/orbit-kernel/util/malloc_freelist.c:146-153 | The found block is cut in two neighbours of the list, and the memory again represents the list; only headers are written. The new header is clear of the sentinel. |
| KernelHeap.Heap.Unlink | root/orbit-kernel/util/malloc_freelist.c:155 | The block leaves the list and is live; sizes and the rest of the ring survive. |
| KernelHeap.Heap.Kmalloc | root/orbit-kernel/util/malloc_freelist.c:121-163 | For every 64-bit size, unless the call puts a header on the sentinel: the pointer and the new state are those of the interval model; words change only in the sentinel and in headers of blocks that are free before or after; no byte of a block that was live changes, the sentinel's two words aside. |
| KernelHeap.Heap.FindSpot | root/orbit-kernel/util/malloc_freelist.c:184-193 | The traversal stops at the first free block at a higher address. |
| KernelHeap.Heap.LinkBefore | root/orbit-kernel/util/malloc_freelist.c:187-193 | Inserting before that block and adding at the tail are the same ring insertion. |
| KernelHeap.Heap.Insert | root/orbit-kernel/util/malloc_freelist.c:179-193 | The freed block is in the list before every higher block, nothing merged yet. |
| KernelHeap.Heap.Absorb | root/orbit-kernel/util/malloc_freelist.c:90-95 | A merge joins two touching blocks; the absorbed header is out of the ring and all other sizes are intact. |
| KernelHeap.Heap.DefragFreeList | root/orbit-kernel/util/malloc_freelist.c:80-99 | One pass with deletion during traversal visits every original block once in order, ends, and leaves the recursive coalescing of the list, chains of merges included. |
| KernelHeap.Heap.Kfree | root/orbit-kernel/util/malloc_freelist.c:173-201 | Freeing a live pointer (NULL: nothing) gives the interval model's state; words change only in the sentinel, in headers of free blocks and in the moved header; no byte of a block that stays live changes, the sentinel's two words aside. |
| KernelHeap.Heap.MallocAddBlock | root/orbit-kernel/util/malloc_freelist.c:203-215 | A region becomes one free block at the head of the list, with its start aligned and its size reduced accordingly; its header is clear of the sentinel. |
| KernelHeap.Heap.PerformAll | root/orbit-kernel/util/malloc_freelist.c:121-215 | Every legal run of the three calls that never puts a header on the sentinel is, on the memory, the run of the state machine, so that the lemmas about runs hold of the blocks in memory. |
| KernelHeap.Heap.StorePayload | root/orbit-kernel/util/malloc_freelist.c:55-59 | A store behind the header of a live block, but for the words of the sentinel, never disturbs the heap. |
| KernelHeap.Layout | root/orbit-kernel/util/malloc_freelist.c:55-59 | In a valid heap no two blocks overlap, no header overlaps the sentinel, and all headers are 8-aligned and in memory. |
| KernelHeap.AwayForEver | root/orbit-kernel/util/malloc_freelist.c:71-109 | In regions clear of the sentinel no run ever puts a header on it. |
| KernelHeap.NoSuchRing | root/orbit-kernel/util/malloc_freelist.c:211-214 | With a free header on the sentinel no memory represents the list, unless the sentinel's first word is its size and that equals the first block's address. |
| Coalescing.CoalesceCount | root/orbit-kernel/util/malloc_freelist.c:90-94 | The pass covers the same bytes, each as often as before. |
| Coalescing.CoalesceOrdered | root/orbit-kernel/util/malloc_freelist.c:86-98 | The pass keeps an ascending list ascending. |
| Coalescing.CoalesceCoalesced | root/orbit-kernel/util/malloc_freelist.c:86-98 | After one pass, over a list in any order, no two neighbours are left to merge. |
| Coalescing.CoalesceFixed | root/orbit-kernel/util/malloc_freelist.c:86-98 | A list is left as it is exactly when it has nothing to merge. |
| Coalescing.CoalesceIdempotent | root/orbit-kernel/util/malloc_freelist.c:80-99 | A second pass changes nothing. |
| Coalescing.CoalesceAtZero | root/orbit-kernel/util/malloc_freelist.c:88 | Blocks with their header at address 0 are neither created, resized nor absorbed. |
| Coalescing.CoalesceFront | root/orbit-kernel/util/malloc_freelist.c:80-99 | Merging a front part first makes no difference to the pass, for any list. |
| Coalescing.CoalesceBack | root/orbit-kernel/util/malloc_freelist.c:80-99 | Nor does merging a back part first. |
| Coalescing.CoalesceTouching | root/orbit-kernel/util/malloc_freelist.c:86-98 | After a pass over disjoint blocks in any order two blocks touch if and only if two that were not neighbours touched before. |
| Coalescing.OrderedStray | root/orbit-kernel/util/malloc_freelist.c:86-98 | In an ascending list only neighbours touch, so that none do after the pass. |
| Coalescing.AllotCoalesced | root/orbit-kernel/util/malloc_freelist.c:146-155 | For any merged list of disjoint blocks: an allocation keeps it merged if and only if it neither splits a block at address 0 that touches its successor nor takes a whole block from between two that touch. |
| Confluence.CanonicalForm | root/orbit-kernel/util/malloc_freelist.c:80-99 | Two ascending merged lists over the same bytes (and the same block at address 0) are equal: the unique list of maximal free intervals. |
| Confluence.ReleaseAllResult | root/orbit-kernel/util/malloc_freelist.c:173-201 | Freeing a sequence of blocks into a list in any order leaves a merged list of exactly the bytes that were free plus those of the blocks, ascending if the list was. |
| Confluence.PlaceMerged | root/orbit-kernel/util/malloc_freelist.c:179-193 | A pass before a block is placed makes no difference to the pass after it, for a block disjoint from the list. |
| Confluence.ReleaseCommutes | root/orbit-kernel/util/malloc_freelist.c:173-201 | Two calls of kfree commute, for a list in any order. |
| Confluence.PlaceOrder | root/orbit-kernel/util/malloc_freelist.c:179-193 | Without passes, the order in which disjoint blocks are inserted does not matter. |
| Confluence.OnePassAtTheEnd | root/orbit-kernel/util/malloc_freelist.c:173-201 | A pass after every free gives what a single pass gives when all blocks are in their places. |
| Confluence.FreeOrderConfluence | root/orbit-kernel/util/malloc_freelist.c:173-201 | Two orders of freeing the same blocks end in the same free list, whatever the order of the list. |
| Confluence.FreeingEverything | root/orbit-kernel/util/malloc_freelist.c:173-201 | Freeing all live blocks gives the ascending merged list the heap was seeded with if and only if there was one to free or nothing to merge, and its block at address 0, if any, is not in pieces. |
| HeapRuns.FreeRunsConfluent | root/orbit-kernel/util/malloc_freelist.c:173-201 | Any two runs of kfree calls for the same live blocks are legal and end with the same free list, from every tiled heap, its list in any order. |
| HeapRuns.SeedingRecovered | root/orbit-kernel/util/malloc_freelist.c:121-201 | After any run of kmalloc and kfree in a heap seeded with an ascending merged list, freeing what is live in any order gives that list back if and only if its block at address 0, if any, is not in pieces. |
| HeapRuns.OneRegionRecovered | root/orbit-kernel/util/malloc_freelist.c:121-201 | After any run of kmalloc and kfree in one region, freeing what is live in any order gives the initial single block back if and only if it is above address 0 or not in pieces. |
| HeapRuns.RunInv | root/orbit-kernel/util/malloc_freelist.c:121-215 | Every legal run of the three calls keeps the tiling, the byte total and the alignment. |
| HeapRuns.TilingOfEveryRun | root/orbit-kernel/util/malloc_freelist.c:121-215 | In every reachable state, for any list order, free and live blocks are disjoint, cover exactly the regions, and have the same total size. |
| HeapRuns.StepOrdered | root/orbit-kernel/util/malloc_freelist.c:144-197 | kmalloc and kfree keep an ascending list ascending, and kfree leaves it merged. |
| HeapRuns.AddRegionOrdered | root/orbit-kernel/util/malloc_freelist.c:211-214 | Adding a region keeps the list ascending if and only if the region lies below every block of it. |
| HeapRuns.FreeTouching | root/orbit-kernel/util/malloc_freelist.c:173-201 | For a list in any order: after kfree two free blocks touch if and only if two that were not neighbours did once the block was in its place. |
| HeapRuns.ScatteredRun | root/orbit-kernel/util/malloc_freelist.c:121-215 | A run over two regions leaves a merged list in which two blocks touch, and an allocation then makes them neighbours. |
| HeapRuns.RunStaysCanonical | root/orbit-kernel/util/malloc_freelist.c:121-201 | Above address 0 an ascending merged list stays one through every run. |
| HeapRuns.MallocFails | root/orbit-kernel/util/malloc_freelist.c:123-162 | NULL exactly when nothing was asked for or no free block holds the rounded request; then nothing changes. |
| HeapRuns.MallocFirstFit | root/orbit-kernel/util/malloc_freelist.c:133-156 | The first fit in list order is served (the lowest address in an ascending list); the pointer is 8-aligned, 24 bytes behind the start of the block, with at least the rounded request and less than 56 bytes more up to its end; a remainder keeps the place and the end of the block and has 32 bytes or more. |
| HeapRuns.MallocBigEnough | root/orbit-kernel/util/malloc_freelist.c:129 | The caller gets the bytes it asked for exactly when the rounding did not wrap. |
| HeapRuns.MallocThenFree | root/orbit-kernel/util/malloc_freelist.c:121-201 | For a list in any order, kfree of a fresh allocation restores the whole state if and only if the list was merged and the block goes back where it was: nothing in front lies higher, a split block is not at address 0, a whole one lies lower than its successor. In ascending lists that is: no block at address 0 was split. |
| RoundTrip.MallocFreeRoundTrip | root/orbit-kernel/util/malloc_freelist.c:144-197 | The same for any list of disjoint blocks alone. |
| RoundTrip.RequestsServed | root/orbit-kernel/util/malloc_freelist.c:133-156 | From any free list, k equal requests all succeed if and only if the capacities of its blocks add up to k. |
| RoundTrip.ServesBound | root/orbit-kernel/util/malloc_freelist.c:147-152 | The exact size from which a block serves k requests. |
| RoundTrip.SingleBlockBound | root/orbit-kernel/util/malloc_freelist.c:133-156 | From one block of size S, k >= 2 requests for n bytes succeed if and only if S >= (k-1)(n+24) + max(n, 32). |
| PhysicalMemory.PhysicalMap.Filter | root/orbit-kernel/util/d/pmm.d:62-67 | The usable entries, those of type 1, are copied, all of them, in order. |
| PhysicalMemory.UsableType | root/orbit-kernel/util/d/pmm.d:62-67 | An entry of type 1 is usable as often as it is in the map, any other never. |
| PhysicalMemory.UsableOrder | root/orbit-kernel/util/d/pmm.d:62-67 | The usable entries are the entries at all places of type 1 of the map, in rising order of place. |
| PhysicalMemory.PhysicalMap.SumLengths | root/orbit-kernel/util/d/pmm.d:69-73 | total_length is the sum of their lengths modulo 2^64. |
| PhysicalMemory.KmallocInit | root/orbit-kernel/util/malloc_freelist.c:103-109 | For usable entries that are disjoint, in memory, with room for a header, the header clear of the sentinel: the heap holds one region per entry, added in map order. |
| PhysicalMemory.SeededRegions | root/orbit-kernel/util/malloc_freelist.c:103-109 | The free list then holds the regions in reverse map order. |
| PhysicalMemory.SeededInv | root/orbit-kernel/util/malloc_freelist.c:103-109 | Disjoint usable entries give a tiled heap, the state from which all runs are proved. |
| PhysicalMemory.SeededOrdered | root/orbit-kernel/util/malloc_freelist.c:103-109 | The list is then ascending if and only if the map lists its usable regions from high to low. |
| PhysicalMemory.OwnedWords | root/orbit-kernel/util/d/pmm.d:62-77 | After any run of the state machine, an aligned word belongs to a free or live block if and only if a usable entry of the map holds it. |
| PhysicalMemory.SentinelOwned | root/orbit-kernel/util/malloc_freelist.c:71-109 | After any run of the state machine, the sentinel overlaps a free or live block if and only if a usable entry holds one of its words. |
| PhysicalMemory.SentinelApartMeaning | root/orbit-kernel/util/malloc_freelist.c:103-109 | The regions are clear of the sentinel if and only if no usable entry holds one of its words. |
| PhysicalMemory.SentinelStore | root/orbit-kernel/linked_list.h:36-39 | A store to the sentinel's next word keeps the ring if and only if it stores what is there. |
| PhysicalMemory.Conservation | root/orbit-kernel/util/d/pmm.d:69-77 | For usable entries that are disjoint and in memory: in every later state, free and live bytes add up to the total usable length less the alignment padding. |
| PhysicalMemory.PhysicalMap.PmemMap | root/orbit-kernel/util/d/pmm.d:59-102 | For every map of at most 100 entries whose usable ones are disjoint, in memory and with room for a header, and whose trial puts no header and no string on the sentinel: the trial run ends in the halt if and only if both strings fit and the heap then has capacity for 1024 requests of 24 bytes, and otherwise panics; total_length is the free and live bytes and the padding, modulo 2^64. |
| PhysicalMemory.Exhaust | root/orbit-kernel/util/d/pmm.d:93-100 | The loop gets through if and only if the free list has that capacity, wherever first fit finds it. |
| PhysicalMemory.HelloBytes | root/orbit-kernel/util/d/pmm.d:82-89 | The word that the copying of the string leaves: the five letters and a NUL, two bytes as before. |
| PhysicalMemory.ApartAway | root/orbit-kernel/util/d/pmm.d:77-101 | When no usable entry holds the sentinel, neither the seeding nor the trial puts anything on it. |
| PhysicalMemory.LastEntryServes | root/orbit-kernel/util/d/pmm.d:77-101 | Whatever the other entries hold: when the last usable one is clear of the sentinel, above address 0 and has 49136 bytes, and nothing is left to merge, the trial keeps off the sentinel and ends in the halt. |
| PhysicalMemory.UsualBoot | root/orbit-kernel/util/d/pmm.d:59-102 | A PC map with a low entry of type 1 that holds the kernel image with the sentinel, a reserved one of type 2 and a high one of type 1: the reserved one is left out, the map meets all that PmemMap asks, and the trial ends in the halt. |
| PhysicalMemory.SurvivesAboveZero | root/orbit-kernel/util/d/pmm.d:77-101 | With one region above address 0 the trial run needs exactly 49136 bytes behind the first header. |
| PhysicalMemory.SurvivesAtZero | root/orbit-kernel/util/d/pmm.d:77-101 | With one region at address 0 it needs exactly 49184. |
| Numerals.ParseNumeral | root/orbit-kernel/util/kio.c:253-257 | The digits of a number read back as the number, without a leading zero. |
| Numerals.NumeralLength | root/orbit-kernel/util/kio.c:178-190 | A number has at most k digits exactly when it is below base to the k. |
| Numerals.NumeralPositions | root/orbit-kernel/util/kio.c:253-257 | The i-th digit from the right is the hexadecimal digit of the number divided by base to the i, modulo base. |
| Numerals.WordLength | root/orbit-kernel/util/kio.c:242-281 | A 64-bit number has at most 64 digits, 16 in base 16 and 20 in base 10. |
| NumberStrings.DigitCount | root/orbit-kernel/util/kio.c:162-177 | The exact length of the decimal form, sign included, for every value above -2^63. |
| NumberStrings.DigitCountUnsigned | root/orbit-kernel/util/kio.c:179-190 | The exact number of decimal digits. |
| NumberStrings.FillDigits | root/orbit-kernel/util/kio.c:206-212 | The right-to-left digit loop writes the digits where they belong and nothing else, and leaves its buffer exactly for -2^63. |
| NumberStrings.Lltoa | root/orbit-kernel/util/kio.c:192-215 | The buffer holds the decimal form if and only if the number is not -2^63, for which a store leaves the buffer. |
| NumberStrings.ParseDecimalInverts | root/orbit-kernel/util/kio.c:192-215 | The decimal form of every integer reads back as it. |
| NumberStrings.Ulltoa | root/orbit-kernel/util/kio.c:216-234 | The buffer holds the digits of every 64-bit number, the cells behind the terminator untouched. |
| NumberStrings.ZeroExtend3 | root/orbit-kernel/util/kio.c:334-366 | Three digits for numbers below 1000, except that the third cell of 0 keeps what it held. |
| NumberStrings.MillisecondsAsSeconds | root/orbit-kernel/util/kio.c:370-379 | Seconds, a dot and the three cells of milliseconds, terminated within 64 bytes. |
| NumberStrings.SecondsInverts | root/orbit-kernel/util/kio.c:370-379 | The string reads back as the milliseconds if and only if they are no whole number of seconds or the cell happened to hold '0'. |
| Printk.BaseTextInverts | root/orbit-kernel/util/kio.c:239-281 | What is printed in base 2 to 16 reads back as the number and fits 64 cells; no leading zero unpadded; exactly 16, 64 or 20 digits padded in base 16, 2 or 10; empty only for a padded zero in another base. |
| Printk.BaseTextPositions | root/orbit-kernel/util/kio.c:253-277 | The same for what is printed, zeros in front included. |
| Printk.UnsignedDirectives | root/orbit-kernel/util/kio.c:414-525 | %u, %lu, %llu, %b, %lb, %o, %x, %X, %lx and %p take one argument and print, behind nothing, 0b, 0o, 0x or 0X, its low 32 or all 64 bits in base 10, 2, 8 or 16: unpadded without leading zeros, padded with 20, 64 or 16 digits. They clear the flag. |
| Printk.SignedDirectives | root/orbit-kernel/util/kio.c:421-489 | %d and %i print the low 32 bits, %ld and %lld all 64, as the two's-complement number they stand for, behind a '-' if it is negative; the flag stays. |
| Printk.TextDirectives | root/orbit-kernel/util/kio.c:414-538 | %c prints the low 8 bits as a character, %s the string, %% a percent sign; the flag stays. |
| Printk.ZeroSetsFlag | root/orbit-kernel/util/kio.c:417-420 | A 0 behind the '%' is the directive without it with the padding flag set. |
| Printk.UnknownDirectives | root/orbit-kernel/util/kio.c:539-543 | Any other character gives the message, with the character and a line end, and is printed again as text; at the end of the format the message comes without a character. |
| Printk.LongDirectives | root/orbit-kernel/util/kio.c:426-466 | One or two l in front of anything else print nothing, and that is printed as text. |
| Printk.Printer.DecimalToBase | root/orbit-kernel/util/kio.c:239-281 | Prints that text for every 64-bit number and clears the flag; base 0 does nothing. |
| Printk.Printer.Directive | root/orbit-kernel/util/kio.c:410-544 | One directive, with its zeros and its steps back, prints and takes what the grammar says and ends on the last character used; it leaves the format exactly at the end behind l or ll. |
| Printk.Printer.Round | root/orbit-kernel/util/kio.c:409-549 | Every round of the main loop gets ahead and leaves the final output, arguments and fate of the format unchanged. |
| Printk.Printer.ActualPrint | root/orbit-kernel/util/kio.c:405-550 | The output is the meaning of the format, the arguments taken are those the format asks for, and the terminator is passed if and only if the format ends behind l or ll. |
| Printk.OverrunEnd | root/orbit-kernel/util/kio.c:427-436 | A format passes its terminator if and only if it ends in l or ll behind an odd number of consecutive groups of a '%' and zeros. |
| Printk.KindsCompose | root/orbit-kernel/util/kio.c:405-550 | The arguments taken follow from the format alone and compose over concatenation at directive boundaries, as does passing the terminator. |
| Printk.RenderCompose | root/orbit-kernel/util/kio.c:405-550 | Printing f + g is printing f and then g, with the remaining arguments and the padding flag as f left it. |
| Printk.PaddingPersists | root/orbit-kernel/util/kio.c:408-420 | A 0 stays in force through text, signed, character and string conversions until an unsigned one. |
| Printk.ComplaintIsPrinted | root/orbit-kernel/util/kio.c:539-543 | The message about an unknown directive is what the interpreter makes of its own format for it. |
| Console.VgaEntryCharacter | root/orbit-kernel/util/kio.c:53-68 | The low byte of a cell is the character, the high byte the colours. |
| Console.PrintableEffect | root/orbit-kernel/util/kio.c:149-153 | A printable character fills the cell under the cursor, which moves on by one; the row counter goes up behind column 80; it is out of bounds exactly from cell 2000 on. |
| Console.BackspaceEffect | root/orbit-kernel/util/kio.c:137-142 | A backspace in bounds lowers the index by exactly one and blanks that cell; it is out of bounds exactly at index 0 and above 2000. |
| Console.BackspaceUndoes | root/orbit-kernel/util/kio.c:131-155 | A printable character and a backspace leave the index where it was, a blank there, all other cells alone, and the row counter raised exactly if the character ended a row. |
| Console.NulAndTabEffect | root/orbit-kernel/util/kio.c:135-148 | A NUL does nothing; a tab changes no cell and moves the index by 4 modulo 2^16. |
| Console.NewlineEffect | root/orbit-kernel/util/kio.c:113-128 | A line end goes to the start of the next row, or from the 25th on moves the screen up by 80 cells with a blank last row. |
| Console.ResetEffect | root/orbit-kernel/util/kio.c:81-87 | A reset leaves 2000 blank cells and the cursor in the first row. |
| Console.TextShows | root/orbit-kernel/util/kio.c:115-155 | For every text without tabs and backspaces screen and cursor show its last 25 rows throughout, full rows wrapping above the bottom, if and only if all stores are in bounds and the rows filled at the bottom do not make next_line_index wrap. |
| Console.InBounds | root/orbit-kernel/util/kio.c:115-155 | From any cursor in a line, a text without tabs and backspaces stays in the buffer if and only if each of its lines has the room left on the screen where it begins, the 16-bit wrap of next_line_index included. |
| Console.InBoundsByRows | root/orbit-kernel/util/kio.c:115-155 | When the counter cannot wrap: if and only if every line ends within the 2000 cells when it begins in the row, at most the 25th, that the wrapped lines before it lead to. |
| Console.BottomInBounds | root/orbit-kernel/util/kio.c:115-155 | On the bottom row: if and only if no line has more than 80 characters. |
| Console.FirstOverflow | root/orbit-kernel/util/kio.c:115-155 | From a reset, 24 line ends and a line of k characters leave the buffer if and only if k is over 80; 80 characters, a line end and one more do not. |
| Console.LastLinesShown | root/orbit-kernel/util/kio.c:81-155 | After a reset, lines of at most 79 characters, and of 80 from the 25th on, stay in bounds; screen and cursor show the last 25 lines, padded with blanks, throughout, if and only if fewer than 65511 lines have 80. |
| Console.CountersAgree | root/orbit-kernel/util/kio.c:115-155 | vga_index stays in row next_line_index - 1 on the screen throughout a text if and only if it starts there and the text never fills the bottom row. |
| Console.PastTheBottom | root/orbit-kernel/util/kio.c:149-153 | After the bottom row is filled, the next character is stored outside the buffer if and only if it is printable. |
| Console.Screen.ClearVgaBuffer | root/orbit-kernel/util/kio.c:70-79 | All 2000 cells are blank. |
| Console.Screen.ScrollVgaBuffer | root/orbit-kernel/util/kio.c:88-102 | Every row moves up in place, the last is blank, the cursor at its start. |
| Console.Screen.PrintChar | root/orbit-kernel/util/kio.c:131-155 | For every character, tab and backspace included, the new cells and counters, and exactly when the store is out of bounds. |
| Console.Screen.ShowText | root/orbit-kernel/util/kio.c:81-87 | Reset and print says whether all stores stay in the buffer, and leaves the last 25 rows, or the last 25 lines when none wraps, in it. |
| Sleep.NeverEarly | root/orbit-kernel/util/pit.c:20-27 | In every interleaving millisleep(m) has seen at least m ticks when it returns. |
| Sleep.NeverLate | root/orbit-kernel/util/pit.c:20-27 | When the sleeper gets a step between ticks it returns after at most m + 1 ticks, and no run gets further without its return. |
| Sleep.Starved | root/orbit-kernel/util/pit.c:24-26 | Without such steps any number of ticks can pass before it returns. |
| Sleep.ExactlyOnTime | root/orbit-kernel/util/pit.c:20-27 | Some such run returns after exactly m ticks. |
| Sleep.OneTickLate | root/orbit-kernel/util/pit.c:24-26 | Some such run needs m + 1: the last tick lands between the check and hlt. |
| Sleep.OtherWakes | root/orbit-kernel/util/pit.c:24-26 | A halted processor takes no step; any interrupt wakes it, so that a sleep whose only tick came between check and hlt ends with another interrupt, after 1 tick. |
| Sleep.Timer.TimerHandler | root/orbit-kernel/util/idt.c:254-260 | The handler does to the countdown what the tick event does. |
| Keyboard.Decoder.ToCharacter | root/orbit-kernel/util/ps2_keyboard.c:31-277 | Modifiers and character for every scan code. |
| Keyboard.CapsIsParity | root/orbit-kernel/util/ps2_keyboard.c:34-36 | Over any stream, caps lock is the parity of its key. |
| Keyboard.ShiftIsLatest | root/orbit-kernel/util/ps2_keyboard.c:43-48 | Over any stream, shift is held exactly when its latest code was the press. |
| Keyboard.HeldIsLatest | root/orbit-kernel/util/ps2_keyboard.c:37-54 | The same for shift, alt and ctrl by their codes. |
| Keyboard.LetterCase | root/orbit-kernel/util/ps2_keyboard.c:56-275 | After any stream a letter is upper case exactly when one of shift and caps lock is in force. |
| Keyboard.KeyCharacter | root/orbit-kernel/util/ps2_keyboard.c:31-277 | After any stream every key that is no modifier, digits and punctuation included, gives its shifted character exactly when one of shift and caps lock is in force. |
| Keyboard.DigitKeys | root/orbit-kernel/util/ps2_keyboard.c:62-195 | Both characters of the keys 2 to 13. |
| Keyboard.TopLetterKeys | root/orbit-kernel/util/ps2_keyboard.c:90-219 | Both characters of the keys 16 to 25. |
| Keyboard.MiddleLetterKeys | root/orbit-kernel/util/ps2_keyboard.c:116-243 | Both characters of the keys 30 to 38. |
| Keyboard.BottomLetterKeys | root/orbit-kernel/util/ps2_keyboard.c:142-265 | Both characters of the keys 44 to 50. |
| Keyboard.PunctuationKeys | root/orbit-kernel/util/ps2_keyboard.c:110-273 | Both characters of the punctuation keys and the space bar. |
| Keyboard.ControlKeys | root/orbit-kernel/util/ps2_keyboard.c:57-277 | Escape, backspace, tab and enter give the same character either way; no other code gives any. |
| Keyboard.TwoKey | root/orbit-kernel/util/ps2_keyboard.c:31-277 | The 2 key after nothing, shift, shift released, caps lock, and caps lock with shift. |
| Keyboard.DeliveredExactly | root/orbit-kernel/util/kio.c:575-585 | Over every interleaving getchark delivers exactly the characters whose interrupt is followed at once by a read. |
| Keyboard.DeliveredInOrder | root/orbit-kernel/util/ps2_keyboard.c:13-24 | What getchark returns is an in-order subsequence of the nonzero characters decoded, each at most once. |
| Keyboard.Slot.KbdIrqHandler | root/orbit-kernel/util/idt.c:246-253 | The handler is the key event of the interleavings: it overwrites the slot, also with no character. |
| Keyboard.Slot.GetMostRecentChar | root/orbit-kernel/util/ps2_keyboard.c:18-24 | Without an interrupt in between it is the read and the clear of the interleavings, and what it gives is what getchark returns. |
| Descriptors.SetSeveralBits | root/orbit-kernel/util/gdt.c:28-37 | The low bits of the pattern are or-ed in at the given positions and nowhere else; the shifts are defined if and only if there are at most 31. |
| Descriptors.DecodePacked | root/orbit-kernel/util/gdt.c:39-55 | Decoding the packed word gives back all fields if and only if the limit has 20 bits and the flags 4; the bits above are dropped. |
| Descriptors.PackedValue | root/orbit-kernel/util/gdt.c:39-55 | The packed word as a number: the fields times their powers of two. |
| Descriptors.Table.FillGdtDescriptorItem | root/orbit-kernel/util/gdt.c:39-55 | The slot becomes old or new, the others are unchanged, and a zero slot decodes to what was filled in. |
| Powers.CalculatePowerUsingLsb | root/orbit-kernel/util/math.c:4-17 | The squaring loop gives the power modulo 2^32 for all 32-bit arguments. |
| Powers.Ppowi | root/orbit-kernel/util/math.c:19-39 | The power modulo 2^32 if and only if not 2 to the 32 or more, where the table is off by one and then ends. |

## Left out

- Heap regions that overlap, lie outside memory or leave no room for a header, and pointers freed
  that are not live: the allocator relies on its callers not to do this.
- PhysicalMemory.KmallocInit: memory maps that put the header of a region on the sentinel are
  excluded, although the source takes them; no memory then represents the list.
- KernelHeap.Heap.Kmalloc: so are requests whose split puts the new header there;
  `PhysicalMemory.PhysicalMap.PmemMap` asks the same of its trial run.
- `kmalloc_infallible` (a panic on NULL) and the locks, which do nothing.
- What `pmem_map` prints; a panic there is an outcome.
- Arguments of the wrong kind in a format, and -2^63 for `%ld` and `%lld`; a format that has passed
  its terminator is followed no further.
- `decimal_to_base` in base 1, which would not end, and above 16, which has no digits; no caller
  uses either.
- The rows on the screen for texts with tabs and backspaces, which move the cursor without regard
  to rows. The stores and counters of such characters are modelled.
- The cursor registers of the display. The formatter and the console are joined by the sequence of
  characters that the one prints and the other takes.
- `add_character_pressed`, whose flag nothing reads.
- The floating-point conversion, the time stamp of `log_printk`, pixel graphics, the shell, string
  helpers, paging, port I/O, the interrupt and boot assembly.
