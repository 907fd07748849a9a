# Verified models of the contract runtime

This project models, in Dafny, the arithmetic, memory and storage code that every contract
built with this toolchain carries, and proves what that code promises. Each module follows
one component of the repository; its header comment names the files.

- **128-bit arithmetic and conversions** (`libraries/rt`): Knuth's two-digit division with its
  correction loops, the branch-free shift-subtract division, the half-word products, integer to
  double rounded half to even, and double to integer. Words are natural numbers below a power of
  two; every operation that can wrap is written with its modulus, and bit operations are defined
  digit by digit (`Words`). What a double denotes is section 3.4 of IEEE 754-2008, rounding is
  section 4.3.1 (`FloatConv`).
- **Printing doubles** (`libraries/eosiolib/tester`): Grisu2 from the bits of a double to its
  text. The 87 cached powers are proved accurate, the digit loops are proved to stay in the
  interval between the neighbouring midpoints, and the text is proved to denote a number that is
  nearer to the double than to any other double, and nearest and shortest up to the rounding of the
  scaling (`Grisu`, `GrisuPowers`, `Nearness`, `Dtoa`, `DtoaLength`).
- **Two allocators**: `simple_malloc.cpp` with its free lists threaded through freed memory and its
  table of big chunks (`SimpleMalloc`, `BigMemory`, `ReallocTrap`), and the header-in-heap allocator of
  `malloc.cpp` with the manager that chooses among its heaps (`Malloc`, `MemoryManager`), on flat
  memory of bytes with 4-byte pointers and sizes.
- **Tables**: `kv.hpp` over an ordered key-value store (`KvTable`, `KvIterators`), and
  `multi_index.hpp` with its cache of objects and iterators in front of primary and secondary host
  tables (`MultiIndex`).
- **Ropes** (`Rope`): the walk that flattens a rope with its way back kept in the nodes, for graphs
  with shared nodes.
- **Printers, parsers, a generator**: `write_decimal` (`WriteDecimal`), base64 and RSA keys
  (`Base64`, `RsaKey`), the dispatcher generator with a parser and an interpreter for what it
  writes (`Dispatch`), and the check of a block signing authority (`SigningAuthority`).

Code that changes things step by step is a method, or a class with the source's fields; it is
proved against a specification, and the lemmas are about that specification. Loop bodies are
often methods of their own, so that each proof stays small.

What the environment supplies is given or a parameter: whether the host grants more pages, what
memory holds at the start, the host's tables and iterators, and the key functions of tables.

Findings, stated as theorems:

- `kv::table::erase` computes the entries to remove from its argument. Rows and entries agree
  afterwards exactly when the argument has the stored row's secondary keys (`KvTable.EraseKeeps`);
  `KvTable.EraseLeavesEntry` gives a table and an argument for which they do not.
- `realloc_in_place` of `malloc.cpp`, asked to shrink a block, writes a header for the excess inside
  the block but leaves the block's own header: the list of blocks does not change and nothing is
  given back (`Malloc.HeaderHeap.Shrink`, `Malloc.HeaderHeap.ReallocInPlace`).
- `malloc` of `simple_malloc.cpp` returns a block with room for the request exactly when the request,
  its header and the rounding do not wrap around 32 bits (`SimpleMalloc.RequestFits`; the largest
  request gets 64 bytes, `SimpleMalloc.RequestWraps`).
- `rope::append(const char (&)[N])` appends all N characters, the terminator of a literal included
  (`Rope.Rope.AppendArray`).
- The manager of `malloc.cpp` tests whether `sbrk` has failed by widening a 32-bit pointer to 64 bits
  and comparing it with -1. How a pointer is widened is up to the compiler; clang, which the contracts
  are built with, extends it by zeros, and then the test never succeeds (`MemoryManager.NoticedWhen`).
  `next_active_heap` keeps the invariant exactly while the host has a page left; after that the next
  heap is put at address 2^32 - 1 (`MemoryManager.Manager.NextActiveHeap`, and
  `MemoryManager.RefusedAtLimit` for a concrete manager). So `malloc` never returns null for lack of
  memory, and never searches the freed blocks: it traps, exactly when the active heap and the pages
  left do not suffice (`MemoryManager.Manager.Malloc`, `MemoryManager.TrapsAtLimit`). What is proved
  of the search is about its loop, and about compilers that widen with the sign.
- `realloc_in_place` of `malloc.cpp` compares 32-bit addresses after a subtraction that can wrap. Its
  refusal is missed for every size above the address of the heap's end; it is answered wrongly exactly
  if the block is the last one as well, whose payload then reaches past the heap
  (`Malloc.TooHighWhen`, `Malloc.HeaderHeap.ReallocInPlace`; `Malloc.GrowsPastEnd` has an input).
- The comment in `libraries/eosiolib/tester/fpconv.h` promises at most 24 characters. 25 are written
  exactly for negative numbers whose 17 digits are followed by 7 zeros (`Dtoa.FpconvDtoa`);
  -2.2092781970116107e23 is one (`DtoaLength.WritesPastDest`). That can be excluded before a call for
  all doubles without 24 digits before the point (`DtoaLength.LongOnlyThere`), and is certain for
  those that no decimal of 16 digits denotes (`DtoaLength.LongThere`).
- The lower boundary of the smallest normal double, a power of two whose neighbour below is no nearer
  than the one above, is taken half as far as it is; that excludes decimals that would read back, and
  no other double is affected (`Dtoa.LowerMidpoint`).
- `realloc` of `simple_malloc.cpp` notes that reading out of bounds is okay. Unless it aborts, it traps
  exactly when the request wraps around 32 bits, or when the new block does not come from the end of
  the heap and the old payload's address and the new size reach past the last page: a condition on
  the state before the call (`SimpleMalloc.DsMalloc.Realloc`). `ReallocTrap.GrowthTraps` is a run that
  meets it.
- `malloc` of `malloc.cpp` wraps around 32 bits for the largest sizes: its answer is right if and only
  if offset, size and header stay below 2^32 and the size is not one of the last three
  (`Malloc.HeaderHeap.Malloc`, `MemoryManager.Manager.Malloc`); 2^32 - 8 bytes are handed out of an
  empty heap, as a block of none (`MemoryManager.HandsOutNothing`).
- `reverse_iterator::operator--` of `kv.hpp` skips the first key when it starts from `rend()`; it is
  right there only for an empty index (`KvIterators.ReverseIterator.Decrement`,
  `KvIterators.SkipsFirst`).
- `strip_header_trailer` erases from before the beginning exactly when header and trailer share their
  hyphens (`RsaKey.ParseRsaPubkey`, `RsaKey.OverlapReal`).

## Model

| member | source | states |
|---|---|---|
| `UDivMod.QuotientDigit` | libraries/rt/udivmodti4.c:54-64 | for any partial dividend below the divisor the trial digit and its correction loop end with the true quotient digit, after at most two corrections, although the guard products are taken in 64 bits |
| `UDivMod.TrialBound` | libraries/rt/udivmodti4.c:58-59 | the trial digit exceeds the base by at most one, so the guard products cannot wrap where they are used |
| `UDivMod.TrueDigitBelow` | libraries/rt/udivmodti4.c:59-64 | when the guard of the loop holds in machine words the trial digit really is too large |
| `UDivMod.FinalDigit` | libraries/rt/udivmodti4.c:59-64 | when the loop is left, by its guard or by the break, the trial digit is not too large and fits 32 bits |
| `UDivMod.PartialRemainder` | libraries/rt/udivmodti4.c:66-66 | un21, computed modulo 2^64, is the exact remainder and below the divisor |
| `UDivMod.ShiftedDividend` | libraries/rt/udivmodti4.c:35-44 | shifting the two-word dividend word by word, with an or between, multiplies it by the power of two without loss |
| `UDivMod.DivideNormalised` | libraries/rt/udivmodti4.c:46-81 | for a divisor with its top bit set: dividend = q*v + r and r < v, with at most four corrections in all |
| `UDivMod.Udiv128by64to64` | libraries/rt/udivmodti4.c:23-82 | for every u1 < v: u1*2^64 + u0 = q*v + r and r < v, whatever the normalisation shift |
| `UDivMod.SignIsComparison` | libraries/rt/udivmodti4.c:147-150 | while dividend and divisor stay within 2^127 of each other the arithmetic shift of the wrapped difference is all ones exactly when dividend >= divisor |
| `UDivMod.Aligned` | libraries/rt/udivmodti4.c:133-136 | the difference of leading zero counts aligns the divisor below twice the dividend and loses no bit |
| `UDivMod.ShiftSubtract` | libraries/rt/udivmodti4.c:133-155 | the branch-free loop returns quotient and remainder of the division |
| `UDivMod.UDivModTi4` | libraries/rt/udivmodti4.c:100-156 | on every path quotient and remainder are those of integer division, for every a and every b > 0 |
| `MulTi3.MulDdi3` | libraries/rt/multi3.c:19-36 | the two words returned are the exact product: no carry is lost |
| `MulTi3.MulTi3` | libraries/rt/multi3.c:40-49 | the signed result differs from the product of the signed operands by a multiple of 2^128 |
| `MulTi3.MultiplyFrac` | libraries/eosiolib/tester/fpconv.c:102-117 | the significand is exactly (a*b + 2^63) / 2^64, rounded down: no intermediate sum wraps |
| `FloatConv.Clz128` | libraries/rt/int_t.h:73-80 | the branch-free expression counts the leading zeros of all 128 bits |
| `FloatConv.ToFiftyFive` | libraries/rt/floattidf.c:45-55 | the number is brought to 55 digits such that the last two digits decide rounding as all lost digits would |
| `FloatConv.RoundTo53` | libraries/rt/floattidf.c:56-67 | or-ing P into R, adding one and dropping two digits rounds to 53 digits half to even, a carry into a new digit included |
| `FloatConv.RoundedIsNearest` | libraries/rt/floattidf.c:57-66 | rounding to 53 digits half to even gives a double to which no finite double is nearer, and an even one in a tie |
| `FloatConv.FloatUnTiDf` | libraries/rt/floatuntidf.c:26-76 | the result is the encoding of the double nearest to the number, ties to even, compared with every finite double |
| `FloatConv.FloatTiDf` | libraries/rt/floattidf.c:26-79 | the same for signed numbers, with the sign of the argument |
| `FloatConv.FixTruncates` | libraries/rt/fixunsdfti.c:15-37 | the result is the value of the double truncated toward zero, 0 for negative numbers and all ones for values of 2^128 and above |
| `FloatConv.FixInvertsFloat` | libraries/rt/fixunsdfti.c:15-37 | a number of at most 53 significant digits comes back exactly from whichever double is nearest to it |
| `Grisu.RoundDigit` | libraries/eosiolib/tester/fpconv.c:119-125 | no 64-bit difference wraps, the last digit stays a digit, and the candidate reached is the nearest to the target of all in the interval |
| `Grisu.RoomLeft` | libraries/eosiolib/tester/fpconv.c:139-177 | as long as the remainder is at least the tolerance the digits written leave room in a buffer sized for the interval |
| `Grisu.RoundsLeft` | libraries/eosiolib/tester/fpconv.c:164-184 | the second loop ends: the tolerance, growing tenfold, overtakes the remainder in fewer than 20 rounds |
| `Grisu.GenerateDigits` | libraries/eosiolib/tester/fpconv.c:127-185 | both loops end, every character is a digit and the first is not zero, the decimal lies in [lower, upper], is nearest to w of those with its exponent, and no decimal with a larger exponent lies in (lower, upper] |
| `GrisuPowers.Accurate` | libraries/eosiolib/tester/powers.h:21-51 | each of the 87 entries is within half a unit in its last place of its power of ten |
| `GrisuPowers.FracNormalised` | libraries/eosiolib/tester/powers.h:21-51 | every significand of the table has its top bit set and fits 64 bits |
| `GrisuPowers.ExponentStep` | libraries/eosiolib/tester/powers.h:21-51 | neighbouring entries are 26 or 27 binary digits apart |
| `GrisuPowers.FindCachedPow10` | libraries/eosiolib/tester/powers.h:53-76 | from any start in the table the search ends inside it at a power that brings the exponent into [-60, -32], and passes over no such power on the way |
| `GrisuPowers.StartInTable` | libraries/eosiolib/tester/powers.h:56-57 | the start lies in the table for every normalised double, although the product is rounded |
| `Dtoa.BuildFp` | libraries/eosiolib/tester/fpconv.c:50-66 | significand and exponent of the double, normal or subnormal |
| `Dtoa.Normalize` | libraries/eosiolib/tester/fpconv.c:68-77 | the significand fills 64 bits and the value is the same |
| `Dtoa.NormalizedBoundaries` | libraries/eosiolib/tester/fpconv.c:79-100 | the boundaries are the midpoints to the neighbouring doubles, nearer below a power of two, on the scale of the normalised value |
| `Dtoa.Spread` | libraries/eosiolib/tester/fpconv.c:79-100 | the boundaries fit 64 bits and are far enough apart for 17 digits to suffice |
| `Dtoa.Grisu2` | libraries/eosiolib/tester/fpconv.c:187-208 | for every positive finite double: at most 17 digits, whose decimal lies strictly between the midpoints to the neighbours of the double; no decimal of its exponent inside is nearer to the double, and none with a digit less is inside, up to five units of the last place of the 64-bit significand, which the rounding of the cached power and of the products may cost |
| `Dtoa.AreNearest` | libraries/eosiolib/tester/fpconv.c:187-208 | what is nearest and shortest among the scaled integers is so among the real numbers they stand for, up to that error |
| `Dtoa.UpperMidpoint` | libraries/eosiolib/tester/fpconv.c:79-89 | the upper boundary is halfway between the double and the next one, a carry into the exponent included |
| `Dtoa.LowerMidpoint` | libraries/eosiolib/tester/fpconv.c:91-99 | the lower boundary is halfway to the double before for every double but the smallest normal one, where it is nearer |
| `Dtoa.ReadingGivesBack` | libraries/eosiolib/tester/fpconv.c:187-208 | a decimal between the midpoints is nearer to the double than to every other finite double |
| `Dtoa.EmitDigits` | libraries/eosiolib/tester/fpconv.c:210-280 | the text is a numeral for digits times the power of ten: up to 7 zeros behind the digits, up to 6 places behind the point or those of numbers from 0.001 to below 10000, else one digit, the others behind a point, and the exponent; at most 24 characters, and 24 exactly for 17 digits followed by 7 zeros |
| `Dtoa.ExponentDigits` | libraries/eosiolib/tester/fpconv.c:261-277 | hundreds, tens and units of the exponent read back as the exponent, and no zero leads |
| `Dtoa.FpconvDtoa` | libraries/eosiolib/tester/fpconv.c:310-334 | the text of a finite non-zero double denotes, behind its sign and in that layout, a number that rounds to the double; it is as near and as short as Grisu2 says; zero, infinities and NaN are written as the source does; 25 characters are written exactly for a negative number whose 17 digits are followed by 7 zeros, never more |
| `DtoaLength.LongOnlyThere` | libraries/eosiolib/tester/fpconv.c:213-219 | a check before the call: the 25th character is written only if the midpoints around the double reach into the numbers of 24 digits before the point |
| `DtoaLength.LongThere` | libraries/eosiolib/tester/fpconv.c:213-219 | a double whose midpoints have 24 digits before the point, and which no decimal of 16 digits denotes, takes 17 digits and 7 zeros |
| `DtoaLength.LongNeedsSeventeen` | libraries/eosiolib/tester/fpconv.c:187-208 | no decimal of at most 16 digits reads back as -2.2092781970116107e23 |
| `DtoaLength.WritesPastDest` | libraries/eosiolib/tester/fpconv.c:310-334 | that number is written with 25 characters |
| `BigMemory.BigMemAlloc.AllocFromBigChunk` | libraries/eosiolib/malloc/eosio/big_memory_alloc.hpp:11-21 | the first slot large enough is cut from the front, and the tracked bytes shrink by what is returned |
| `BigMemory.BigMemAlloc.AddToBigChunk` | libraries/eosiolib/malloc/eosio/big_memory_alloc.hpp:23-49 | tracked chunks stay disjoint, none of them ends or begins where the freed range does, new total = old total + freed size - one dropped range that is no larger than any range kept, and whatever was clear of chunks and freed range stays clear |
| `BigMemory.Merged` | libraries/eosiolib/malloc/eosio/big_memory_alloc.hpp:27-39 | taking over a neighbour on either side conserves bytes and disjointness |
| `BigMemory.Store` | libraries/eosiolib/malloc/eosio/big_memory_alloc.hpp:40-48 | replacing the smallest slot, or dropping the freed range, drops a range no larger than any kept |
| `SimpleMalloc.FindSmallMemSize` | libraries/eosiolib/malloc/eosio/small_memory_alloc.hpp:19-27 | the smallest class that is large enough, or none above 1 MiB |
| `SimpleMalloc.RequestFits` | libraries/eosiolib/simple_malloc.cpp:66-69 | the block has room for the payload if and only if size + 31 does not reach 2^32 |
| `SimpleMalloc.RequestWraps` | libraries/eosiolib/simple_malloc.cpp:66-69 | a request of 2^32 - 1 bytes gets a block of 64 |
| `SimpleMalloc.GrowthFits` | libraries/eosiolib/simple_malloc.cpp:77-88 | when the host grants the pages asked for, the new bump pointer has not wrapped and lies inside them; a page beyond those the size fills is asked for only if they end at or before that pointer |
| `SimpleMalloc.Adopt` | libraries/eosiolib/simple_malloc.cpp:96-98 | a range nobody owns becomes a block with its header, and all blocks, free chunks and tracked chunks stay disjoint |
| `SimpleMalloc.Unlink` | libraries/eosiolib/malloc/eosio/small_memory_alloc.hpp:29-40 | following the word stored in the first free chunk keeps the list linked, acyclic and of its class |
| `SimpleMalloc.Link` | libraries/eosiolib/malloc/eosio/small_memory_alloc.hpp:42-47 | a released chunk linked in front keeps every list linked and acyclic, and everything disjoint |
| `SimpleMalloc.File` | libraries/eosiolib/simple_malloc.cpp:55-58 | filing a released block among the big chunks keeps everything disjoint and below the bump pointer |
| `SimpleMalloc.Cut` | libraries/eosiolib/simple_malloc.cpp:91-93 | the front of a chunk can be handed out: nobody else owns it |
| `SimpleMalloc.LiveWrite` | libraries/eosiolib/simple_malloc.cpp:49-60 | what the program writes inside a payload it holds disturbs no header and no free list |
| `SimpleMalloc.DsMalloc.Extend` | libraries/eosiolib/simple_malloc.cpp:74-90 | bump pointer and page count grow together, or both are rolled back |
| `SimpleMalloc.DsMalloc.Malloc` | libraries/eosiolib/simple_malloc.cpp:62-99 | null for size 0; else a block apart from every block held, from the free list of its class, from the end of the heap or from the first chunk that fits, in this order, or an abort; no held byte changes; free lists, chunk table, bump pointer and page count move in their own case only: the list loses its first block, the heap ends behind the block with the pages it needs, the chunk loses its front |
| `SimpleMalloc.DsMalloc.Free` | libraries/eosiolib/simple_malloc.cpp:156-160 | ignored while disabled and below the header size; else the block, and no other, is given up: by the class in its header to the front of that list, with the chunks as they were, or to the big chunks, with the lists as they were |
| `SimpleMalloc.DsMalloc.Realloc` | libraries/eosiolib/simple_malloc.cpp:139-154 | a block large enough stays as it is, and so does the allocator; else a disjoint block with room for the request starts with the old contents, and all other blocks keep their bytes; free lists, chunks, bump pointer and page count change first by the allocation and then, if freeing is enabled and it did not abort, by the old block, which is the first of its list or filed among the chunks; from the state before the call it is told whether it aborts (no free block of the class, no pages, no chunk) and whether it traps (the request wraps, or the heap does not grow and the copy reads past its last page) |
| `SimpleMalloc.TagInTurn` | libraries/eosiolib/simple_malloc.cpp:146-151 | the class in the header of the old block outlives allocation and copy, so that it is freed into the list it came from |
| `SimpleMalloc.AllottedNow` | libraries/eosiolib/simple_malloc.cpp:62-99 | what a request takes from lists, chunks and pages depends on its size and the state before it alone |
| `SimpleMalloc.ReadsPastWhen` | libraries/eosiolib/simple_malloc.cpp:144-149 | the copy reads past the last page after allocation exactly if that condition on the state before held |
| `SimpleMalloc.AbortsWhen` | libraries/eosiolib/simple_malloc.cpp:69-94 | no block is found exactly if there is no free one of the class, no pages are granted and no chunk is large enough |
| `ReallocTrap.GrowthTraps` | libraries/eosiolib/simple_malloc.cpp:139-154 | a run of malloc, malloc, free and realloc that traps |
| `SimpleMalloc.MovedInTurn` | libraries/eosiolib/simple_malloc.cpp:146-151 | allocating, copying and freeing in this order leaves the old contents at the new place |
| `SimpleMalloc.DsMalloc.constructor` | libraries/eosiolib/simple_malloc.cpp:44-47 | the invariant holds at the start |
| `Malloc.SplicedTiled` | libraries/eosiolib/malloc.cpp:485-494 | replacing a run of blocks by others of the same total size, and writing only inside it, keeps the heap tiled |
| `Malloc.OffAligned` | libraries/eosiolib/malloc.cpp:232-239 | every block starts at a multiple of 8 |
| `Malloc.MergedLive` | libraries/eosiolib/malloc.cpp:465-497 | merging free blocks and splitting off the rest moves no block in use and changes no flag; merging into a block in use changes its size only |
| `Malloc.MergeKeeps` | libraries/eosiolib/malloc.cpp:465-497 | no byte of a payload in use changes in a merge |
| `Malloc.LiveApart` | libraries/eosiolib/malloc.cpp:275-287 | payloads handed out do not overlap, headers included |
| `Malloc.PayloadWritten` | libraries/eosiolib/malloc.cpp:275-287 | what the program writes inside its own block leaves the heap tiled as it was |
| `Malloc.HeaderHeap.Init` | libraries/eosiolib/malloc.cpp:252-256 | an empty heap is tiled by no block |
| `Malloc.HeaderHeap.Malloc` | libraries/eosiolib/malloc.cpp:275-287 | while offset, size and header do not reach 2^32: null exactly when the rest of the heap is too small, else one more block at the end, apart from all others; the invariant and the answer are right exactly then, and for larger sizes a block that does not fit is handed out |
| `Malloc.Wrapped` | libraries/eosiolib/malloc.cpp:277-278 | the 32-bit sum is exact, or it wraps and does not exceed the offset |
| `Malloc.HandsOutNothing` | libraries/eosiolib/malloc.cpp:275-287 | an empty heap hands out 2^32 - 4 bytes and stays empty |
| `Malloc.HeaderHeap.Free` | libraries/eosiolib/malloc.cpp:362-366 | the block's flag changes, its size and every other block stay |
| `Malloc.HeaderHeap.CleanupRemaining` | libraries/eosiolib/malloc.cpp:368-378 | the rest of the heap becomes one free block and the heap is full |
| `Malloc.HeaderHeap.ExpandMemory` | libraries/eosiolib/malloc.cpp:380-388 | more memory is taken if and only if it continues the heap |
| `Malloc.HeaderHeap.MergeContiguous` | libraries/eosiolib/malloc.cpp:465-497 | where the walk stops among the blocks: succeeds if and only if the block and free blocks after it have room; all or nothing when asked |
| `Malloc.RunDecides` | libraries/eosiolib/malloc.cpp:471-483 | where the merging loop stops decides whether any run of free blocks after the block has room |
| `Malloc.HeaderHeap.MallocFromFreed` | libraries/eosiolib/malloc.cpp:289-312 | the walk ends; a block is found if and only if some run of adjacent free blocks has room, and it is the first such run; it is apart from all blocks in use, whose bytes do not change |
| `Malloc.WalkMerged` | libraries/eosiolib/malloc.cpp:294-308 | a run merged and found too small leaves the walk where no earlier run of the original blocks has room |
| `Malloc.HeaderHeap.Shrink` | libraries/eosiolib/malloc.cpp:334-342 | shrinking writes one word inside the block and changes no block |
| `Malloc.HeaderHeap.ReallocInPlace` | libraries/eosiolib/malloc.cpp:314-360 | for a size up to the address of the heap's end, or a block that is not the last: succeeds exactly for a smaller size, for the last block while the heap has room, or when free blocks follow with room; for a larger size the last block is said to have grown and the end of the blocks is moved, so the invariant or the answer is right exactly in the first case; the payload's bytes and all other payloads stay in both |
| `Malloc.TooHighWhen` | libraries/eosiolib/malloc.cpp:328-332 | the comparison of 32-bit addresses tells whether the size fits, except for sizes above the address of the heap's end, for which it never holds |
| `Malloc.GrowsPastEnd` | libraries/eosiolib/malloc.cpp:328-350 | a heap of 8 KiB at 0x4000 with one block of 12 bytes, asked for 0x10004, ends with its offset behind its end |
| `MemoryManager.Manager.Malloc` | libraries/eosiolib/malloc.cpp:117-172 | null for size 0; while the size does not wrap around behind the active heap: a payload of 0 to 7 bytes more than asked, apart from every payload of every heap, joins those handed out and no byte of them changes, if the active heap and the pages left suffice; it is behind the last block of the active heap then, after the fewest pages for which it fits, and where the next one goes is told by that; if they do not suffice, it traps exactly when pointers are widened by zeros, and otherwise takes the first run with room, in the order of the heaps from the last search on, or returns null if every heap is full and none has one; the check of `malloc_from_freed` never fails; the invariant and the answer are right if and only if the size does not wrap, neither there nor when it is rounded up |
| `MemoryManager.Manager.Free` | libraries/eosiolib/malloc.cpp:217-230 | the pointer's payload, and no other in any heap, is given up; nothing happens for null; where the next block is cut does not change |
| `MemoryManager.Manager.NextActiveHeap` | libraries/eosiolib/malloc.cpp:79-116 | one page more, for the active heap if it ends where memory does and for a new one otherwise; the invariant holds afterwards if and only if the host had a page left or pointers are widened with their sign; else the next heap is put at 2^32 - 1, and the next call traps |
| `MemoryManager.Manager.Retry` | libraries/eosiolib/malloc.cpp:143-152 | each round takes a page from the host or is the last but one, so the loop ends; whether there is enough memory does not change |
| `MemoryManager.Manager.TryActive` | libraries/eosiolib/malloc.cpp:143-152 | the loop finds a block exactly when the active heap, or the part of memory it continues, with all pages left, has room for it: in the active heap as it is if there is room, and with the fewest pages otherwise; if not, it ends with all heaps full, or in a trap |
| `MemoryManager.FewestPages` | libraries/eosiolib/malloc.cpp:143-152 | after k pages there is room for the block exactly if k is at least the number of pages computed for it |
| `MemoryManager.SufficesPages` | libraries/eosiolib/malloc.cpp:143-152 | memory suffices for a block exactly if the host has that many pages left |
| `MemoryManager.RoomAfter` | libraries/eosiolib/malloc.cpp:95-115 | k pages give k times 64 KiB more room to a heap that ends where memory does, and no more than that to any other |
| `MemoryManager.NoticedWhen` | libraries/eosiolib/malloc.cpp:96-96 | of all addresses only 2^32 - 1 passes the test for -1, and only if pointers are widened with their sign |
| `MemoryManager.InMemory` | libraries/eosiolib/malloc.cpp:368-378 | the next header of the active heap is in memory, unless a refusal went unnoticed; then it is not |
| `MemoryManager.MisplacedNow` | libraries/eosiolib/malloc.cpp:96-115 | an unnoticed refusal changes no payload, and leaves a heap at 2^32 - 1 active |
| `MemoryManager.RefusedAtLimit` | libraries/eosiolib/malloc.cpp:95-115 | with one page and no more, the next active heap is at 2^32 - 1 |
| `MemoryManager.OnePage` | libraries/eosiolib/malloc.cpp:117-172 | with one page and no more, memory suffices exactly for blocks of up to 8188 bytes |
| `MemoryManager.TrapsAtLimit` | libraries/eosiolib/malloc.cpp:117-172 | there a request of 8192 bytes traps |
| `MemoryManager.HandsOutNothing` | libraries/eosiolib/malloc.cpp:117-172 | a first request of 2^32 - 8 bytes gets a pointer to a block that is not there |
| `MemoryManager.LastSizes` | libraries/eosiolib/malloc.cpp:232-239 | the rounded size is below the size asked for exactly for the last three sizes of 32 bits |
| `MemoryManager.TooLong` | libraries/eosiolib/malloc.cpp:117-172 | what reaches behind the end of memory is no payload of heaps in order |
| `MemoryManager.ProgramWrites` | libraries/eosiolib/malloc.cpp:275-287 | what the program writes into a payload it holds keeps the heaps in order, and every other payload |
| `MemoryManager.Manager.TryFreed` | libraries/eosiolib/malloc.cpp:154-169 | about the loop, from a state with all heaps full, which only a noticed refusal leads to: the round trip through the heaps from where the last search ended visits every heap, ends, and finds nothing only if no heap has room; what it finds is the first run with room of the first such heap on the way |
| `MemoryManager.SeenMore` | libraries/eosiolib/malloc.cpp:165-168 | about the same loop: going round never comes to a heap twice before it is back at its start |
| `MemoryManager.NewLayout` | libraries/eosiolib/malloc.cpp:104-115 | while the host grants pages two of the 16 slots are ever used: only the initial heap is left for a new one, which all later pages continue |
| `MemoryManager.GrownLayout` | libraries/eosiolib/malloc.cpp:104-106 | memory that continues the active heap keeps the heaps apart and every payload as it is, and the bytes within reach stay as many |
| `MemoryManager.PayloadsApart` | libraries/eosiolib/malloc.cpp:117-172 | payloads handed out, of the same heap or not, never overlap and lie inside the memory the host has given |
| `MemoryManager.NotOther` | libraries/eosiolib/malloc.cpp:222-228 | a pointer handed out is in the heap it came from and in no other |
| `MemoryManager.HandedPayloads` | libraries/eosiolib/malloc.cpp:143-171 | a payload new to its heap is new among the addresses of all heaps |
| `MemoryManager.AdjustToMemBlock` | libraries/eosiolib/malloc.cpp:232-239 | at most 7 bytes are added, and block and header are a multiple of 8; the last three sizes wrap around to 4 |
| `MemoryManager.Manager.Sbrk` | libraries/eosiolib/malloc.cpp:20-54 | returns the old end of memory, or -1 as a pointer; whole pages below 2^31 bytes are granted exactly while they stay below the host's limit; a refusal changes nothing |
| `MemoryManager.Manager.constructor` | libraries/eosiolib/malloc.cpp:66-74 | the invariant holds at the start, without a heap |
| `KvTable.PrefixTells` | libraries/eosiolib/contracts/eosio/kv_base.hpp:173-175 | the bytes of a key begin with the prefix of its own table and index only |
| `KvTable.TablePrefixTells` | libraries/eosiolib/contracts/eosio/kv_base.hpp:173-175 | all keys of a table, and of no other, begin with the same nine bytes |
| `KvTable.BytesInjective` | libraries/eosiolib/contracts/eosio/kv_base.hpp:129-134 | different tables, indices or partial keys give different full keys |
| `KvTable.BytesOrder` | libraries/eosiolib/contracts/eosio/kv_base.hpp:129-134 | within an index the order of full keys is that of the partial keys |
| `KvTable.Unique` | libraries/eosiolib/contracts/eosio/kv.hpp:95-119 | two rows never share a key of a secondary index |
| `KvTable.FoundEntry` | libraries/eosiolib/contracts/eosio/kv.hpp:104-111 | an entry found under the new key belongs to another row exactly when that row has the key |
| `KvTable.StepMoved` | libraries/eosiolib/contracts/eosio/kv.hpp:113-117 | moving one index's entry keeps that index exact and the others untouched |
| `KvTable.Table.Put` | libraries/eosiolib/contracts/eosio/kv.hpp:75-128 | aborts if and only if another row has one of the secondary keys; else the rows change in this row alone and every index is again a bijection with them; other tables keep their keys |
| `KvTable.Table.Erase` | libraries/eosiolib/contracts/eosio/kv.hpp:130-147 | nothing for an unknown key; else the row goes, and rows and entries agree if and only if the argument has the stored row's secondary keys |
| `KvTable.EraseKeeps` | libraries/eosiolib/contracts/eosio/kv.hpp:141-146 | the same condition, for every store that agrees with its rows |
| `KvTable.EraseLeavesEntry` | libraries/eosiolib/contracts/eosio/kv.hpp:141-146 | a table and an argument with another secondary key for which an entry is left that leads nowhere |
| `KvTable.Table.Get` | libraries/eosiolib/contracts/eosio/kv.hpp:150-176 | through any index, the row that a scan of the rows for the key finds, and no check fails |
| `KvTable.Table.LowerBound` | libraries/eosiolib/contracts/eosio/kv.hpp:657-662 | the first entry of the index that is not below the key |
| `KvTable.Table.UpperBound` | libraries/eosiolib/contracts/eosio/kv.hpp:679-688 | the first entry strictly above the key |
| `KvTable.Table.Range` | libraries/eosiolib/contracts/eosio/kv.hpp:708-716 | ends, and returns exactly the rows with keys from b up to e, in ascending order, none if b is not below e |
| `KvTable.AllPassed` | libraries/eosiolib/contracts/eosio/kv.hpp:279-291 | comparing iterators as the source does, no key of the range is left when the loop stops |
| `KvIterators.StepsInvert` | libraries/eosiolib/contracts/eosio/kv.hpp:353-366 | a step forward and a step back are each other's inverse, round the end as well |
| `KvIterators.OneNext` | libraries/eosiolib/contracts/eosio/kv.hpp:353-357 | a step leads to one position |
| `KvIterators.Iterator.Increment` | libraries/eosiolib/contracts/eosio/kv.hpp:353-357 | the next key, or the end; a failed check at the end |
| `KvIterators.Iterator.Decrement` | libraries/eosiolib/contracts/eosio/kv.hpp:359-366 | the key before, the last one from any end; a failed check from the first key |
| `KvIterators.ReverseIterator.Increment` | libraries/eosiolib/contracts/eosio/kv.hpp:425-429 | the key before, or the end; a failed check at the end |
| `KvIterators.ReverseIterator.Decrement` | libraries/eosiolib/contracts/eosio/kv.hpp:431-439 | undoes ++ if and only if the iterator holds one of the host or the index is empty; from rend() it goes to the second key, and its check fails if and only if there are not two |
| `KvIterators.SkippedTo` | libraries/eosiolib/contracts/eosio/kv.hpp:432-437 | the first key sought and then the next one is the second key, and never what precedes rend() |
| `KvIterators.SkipsFirst` | libraries/eosiolib/contracts/eosio/kv.hpp:431-439 | with keys 1 and 2 it goes to 2 |
| `KvIterators.VisitBackward` | libraries/eosiolib/contracts/eosio/kv.hpp:425-429 | from rbegin() to rend() every key is met once, in descending order |
| `MultiIndex.MultiIndex.LoadObjectByPrimaryIterator` | libraries/eosiolib/contracts/eosio/multi_index.hpp:749-788 | the stored row, from the cache if it is there, and one cached object per key |
| `MultiIndex.MultiIndex.Find` | libraries/eosiolib/contracts/eosio/multi_index.hpp:1762-1774 | finds the stored row if and only if there is one, whatever the cache holds |
| `MultiIndex.MultiIndex.Emplace` | libraries/eosiolib/contracts/eosio/multi_index.hpp:1521-1559 | aborts for a foreign table or a key in use; else rows and secondary tables gain exactly this row, the cached object has the right iterators, and the next key becomes the least number that is not below it and above the stored key, but at most the reserved one |
| `MultiIndex.MultiIndex.Modify` | libraries/eosiolib/contracts/eosio/multi_index.hpp:1650-1699 | aborts if the primary key changes; else row, cached object and every secondary table follow, with unknown iterators looked up, and the next key follows as for a stored row |
| `MultiIndex.UpdateOne` | libraries/eosiolib/contracts/eosio/multi_index.hpp:1686-1697 | a secondary table follows the row whether or not its iterator was cached and its key changed |
| `MultiIndex.MultiIndex.Erase` | libraries/eosiolib/contracts/eosio/multi_index.hpp:1878-1907 | row, cached object and every secondary entry go, and nothing else |
| `MultiIndex.MultiIndex.EraseSecondary` | libraries/eosiolib/contracts/eosio/multi_index.hpp:695-704 | the iterator returned points to the object that followed the erased one |
| `MultiIndex.MultiIndex.Next` | libraries/eosiolib/contracts/eosio/multi_index.hpp:492-517 | the entry that follows by (secondary key, primary key), or the end, whichever iterators are cached |
| `MultiIndex.MultiIndex.Previous` | libraries/eosiolib/contracts/eosio/multi_index.hpp:519-547 | the entry before, from the end the last one, and a failed check exactly where there is none |
| `MultiIndex.MultiIndex.LowerBound` | libraries/eosiolib/contracts/eosio/multi_index.hpp:630-643 | the first object with at least the given key |
| `MultiIndex.MultiIndex.FindSecondary` | libraries/eosiolib/contracts/eosio/multi_index.hpp:580-588 | an object with the key if and only if a row has it |
| `MultiIndex.BackAgain` | libraries/eosiolib/contracts/eosio/multi_index.hpp:492-547 | -- undoes ++ |
| `MultiIndex.BackFromEnd` | libraries/eosiolib/contracts/eosio/multi_index.hpp:525-529 | -- from the end undoes the ++ that reached it |
| `MultiIndex.WalkVisitsAll` | libraries/eosiolib/contracts/eosio/multi_index.hpp:492-517 | a walk of ++ from the first entry to the end visits every entry exactly once, in ascending order |
| `MultiIndex.MultiIndex.VisitAll` | libraries/eosiolib/contracts/eosio/multi_index.hpp:561-568 | from begin by ++ to the end: exactly the stored rows, in ascending (secondary key, primary key) order |
| `MultiIndex.MultiIndex.AvailablePrimaryKey` | libraries/eosiolib/contracts/eosio/multi_index.hpp:1315-1332 | the next key, if it is not a reserved value; when first asked it is 0 for an empty table and the highest key plus one otherwise, and it fails exactly if that is reserved |
| `MultiIndex.NextStored` | libraries/eosiolib/contracts/eosio/multi_index.hpp:1542-1543 | the next key stays above all keys as rows are stored, and is the least number that does |
| `MultiIndex.FirstNextIs` | libraries/eosiolib/contracts/eosio/multi_index.hpp:1315-1332 | the number after the highest key is above all of them, and its predecessor is one; none is left exactly if some key leaves none below the reserved values |
| `MultiIndex.NextInTurn` | libraries/eosiolib/contracts/eosio/multi_index.hpp:1542-1543 | a row stored under the next key moves it by one |
| `MultiIndex.TwoInTurn` | libraries/eosiolib/contracts/eosio/multi_index.hpp:1315-1332 | asking, storing and asking again gives k and k + 1, until the reserved values; 0 and 1 on an empty table |
| `Rope.Flatten` | libraries/eosiolib/core/eosio/rope.hpp:46-98 | the walk ends and fills the buffer, from its end, with the concatenation the nodes mean, shared nodes included, and touches nothing else in the buffer |
| `Rope.Descend` | libraries/eosiolib/core/eosio/rope.hpp:57-70 | writing the way back into a child leaves the way back of all nodes entered before as it was |
| `Rope.Entered` | libraries/eosiolib/core/eosio/rope.hpp:56-75 | entering a concatenation changes nothing in the text still to come, and fewer steps are left |
| `Rope.Turned` | libraries/eosiolib/core/eosio/rope.hpp:84-91 | so does turning from the left side to the right |
| `Rope.Popped` | libraries/eosiolib/core/eosio/rope.hpp:92-95 | and so does going back up |
| `Rope.CharAt` | libraries/eosiolib/core/eosio/rope.hpp:111-131 | stops at the character at the position, or has passed the whole text of the node |
| `Rope.StrLen` | libraries/eosiolib/core/eosio/rope.hpp:40-44 | the length up to and with the first terminator |
| `Rope.Rope.AppendString` | libraries/eosiolib/core/eosio/rope.hpp:150-155 | the text grows by the string |
| `Rope.Rope.AppendArray` | libraries/eosiolib/core/eosio/rope.hpp:145-148 | the text grows by all characters of the array, its terminator too |
| `Rope.Rope.Append` | libraries/eosiolib/core/eosio/rope.hpp:165-168 | the text grows by the other rope's text, also when it is the same rope |
| `Rope.Rope.Plus` | libraries/eosiolib/core/eosio/rope.hpp:198-201 | a new rope with both texts; the operands keep theirs although nodes are shared |
| `Rope.Rope.At` | libraries/eosiolib/core/eosio/rope.hpp:157-163 | character i of the text, for every i below the length |
| `Rope.Rope.CStr` | libraries/eosiolib/core/eosio/rope.hpp:217-225 | all pieces appended, in order, and a terminator; the rope keeps its text |
| `WriteDecimal.LargestPower` | libraries/eosiolib/core/eosio/powers.hpp:25-55 | the table of base 10 ends at 10^19: until then no product wraps, and the next one is noticed |
| `WriteDecimal.Pow` | libraries/eosiolib/core/eosio/powers.hpp:57-67 | 10^exponent up to 19, and a failed check above |
| `WriteDecimal.WriteDecimal` | libraries/eosiolib/eosiolib.cpp:113-159 | the end returned is the same in a dry run; nothing is written in a dry run, when the text does not fit or when the end wraps; else the text, and only it, is written and denotes number * 10^-places |
| `WriteDecimal.AllWritten` | libraries/eosiolib/eosiolib.cpp:140-156 | when the loops end nothing is left of the number, and no superfluous zero leads |
| `WriteDecimal.WholeLength` | libraries/eosiolib/eosiolib.cpp:116-135 | a text that denotes the number has exactly the length computed beforehand |
| `WriteDecimal.DenotesUnique` | libraries/eosiolib/eosiolib.cpp:100-111 | there is only one text that denotes the number |
| `Dispatch.NotifyTotal` | tools/include/eosio/cdt_abi.hpp:92-102 | the order of handlers is irreflexive, asymmetric and total on (name, contract) |
| `Dispatch.NotifyTrans` | tools/include/eosio/cdt_abi.hpp:92-102 | and transitive |
| `Dispatch.StarLast` | tools/include/eosio/cdt_abi.hpp:93-99 | the catch-all comes after every other handler of its name |
| `Dispatch.ParsePrint` | tools/src/eosio-codegen.cpp:44-87 | the text of a program is parsed as that program and nothing is left over: its brackets match |
| `Dispatch.EmittedGroup` | tools/src/eosio-codegen.cpp:62-83 | what the loop over notifications writes, with the closing brackets, is the text of a chain of ifs with a switch each |
| `Dispatch.Generate` | tools/src/eosio-codegen.cpp:44-87 | for every table the lines written parse as the program of that table |
| `Dispatch.CaseFound` | tools/src/eosio-codegen.cpp:76-81 | the switch of a name reaches a case for the contract if and only if the table has that handler |
| `Dispatch.ChainLooksUp` | tools/src/eosio-codegen.cpp:64-75 | the chain of ifs does the lookup for all names it covers |
| `Dispatch.SelfLooksUp` | tools/src/eosio-codegen.cpp:47-58 | the contract's own actions: the one of the name, or the failed assertion unless the receiver is eosio |
| `Dispatch.ProgramLooksUp` | tools/src/eosio-codegen.cpp:44-87 | running the program on any receiver, code and action calls exactly what looking up the table says, after the contract name is set |
| `Base64.Decode` | libraries/eosiolib/core/eosio/crypto_utils.hpp:25-73 | the bytes of the characters before the first padding, nothing if one of them is no base64 character |
| `Base64.Alphabet` | libraries/eosiolib/core/eosio/crypto_utils.hpp:10-23 | a character is accepted exactly if it stands for one of the 64 values |
| `Base64.DecodeEncode` | libraries/eosiolib/core/eosio/crypto_utils.hpp:25-73 | decoding gives back every byte string encoded as section 4 of RFC 4648 says |
| `RsaKey.RsaKeyParser.ReadLen` | libraries/eosiolib/core/eosio/crypto_utils.hpp:117-138 | length and number of its bytes are those of the field at the position, read byte by byte, for every sequence of bytes; a length of no byte or of more than four is 0 |
| `RsaKey.RsaKeyParser.ReadInt` | libraries/eosiolib/core/eosio/crypto_utils.hpp:191-208 | the content of the integer at the position without its sign byte, also when it ends the key; nothing for another tag, no content, or content that goes past the end |
| `RsaKey.ReadKey` | libraries/eosiolib/core/eosio/crypto_utils.hpp:246-279 | accepted exactly if the bytes are an outer sequence of the right length, the algorithm sequence with the rsaEncryption identifier and a null, a bit string with the inner sequence, and two integers that are not empty; those are returned |
| `RsaKey.KeyLayout` | libraries/eosiolib/core/eosio/crypto_utils.hpp:246-279 | the DER encoding of every modulus and exponent (appendix A.1.1 of RFC 8017) has that layout |
| `RsaKey.LayoutIsKey` | libraries/eosiolib/core/eosio/crypto_utils.hpp:246-279 | of a key laid out as the standard says modulus and exponent are returned |
| `RsaKey.ArmouredAccepted` | libraries/eosiolib/core/eosio/crypto_utils.hpp:230-282 | the armoured encoding of any positive modulus and exponent, broken into lines anyhow, is accepted, and they are what is read |
| `RsaKey.WholeKey` | libraries/eosiolib/core/eosio/crypto_utils.hpp:246-258 | the outer sequence of an accepted key ends where the key does |
| `RsaKey.ParseRsaPubkey` | libraries/eosiolib/core/eosio/crypto_utils.hpp:230-282 | a text is accepted, with 0, exactly if it has the armour and decodes to such a key, and then the hexadecimal text of its modulus and exponent is returned; every other text is refused, with -1; parsing is undefined exactly for a text whose header and trailer overlap |
| `RsaKey.OverlapReal` | libraries/eosiolib/core/eosio/crypto_utils.hpp:99-112 | there is such a text, of 45 characters |
| `RsaKey.HexInjective` | libraries/eosiolib/core/eosio/crypto_utils.hpp:75-83 | hexadecimal text tells the bytes |
| `RsaKey.UnhexHex` | libraries/eosiolib/core/eosio/crypto_utils.hpp:75-83 | hexadecimal text reads back as the bytes |
| `SigningAuthority.IsValid` | libraries/eosiolib/eosiolib.cpp:21-45 | valid if and only if no key is listed twice, the threshold is positive, and all weights together reach it, although the sum saturates |

## Left out

- The x86 division instruction; the quotients and remainders of signed 128-bit numbers, whose
  implementation file is not part of this model; all builtins that call softfloat.
- `___fixdfti` and its siblings: for magnitudes of 2^127 and above the shift leaves the signed range.
- Dtoa.FpconvDtoa: the text is returned as a sequence instead of written to dest, so writing past
  dest is expressed by its length. Digits are nearest and shortest up to five units of the last place
  of the scaled significand; Grisu2 itself promises neither.
- Grisu.GenerateDigits: requires what its caller establishes, a common exponent from -60 to -32 and an
  interval wide enough for the buffer; `Dtoa.Spread` and `GrisuPowers.FindCachedPow10` prove it.
- GrisuPowers.StartInTable: the product that the start index comes from may be off by anything below
  1; which start double arithmetic gives is not modelled, and does not matter to the search.
- SimpleMalloc.DsMalloc.Malloc: memory is grown by the allocator alone, so the current size is its page
  count; alignments above 16 (`posix_memalign`) and `calloc` are not modelled.
- SimpleMalloc.DsMalloc.Realloc: a pointer handed in is null or a block held.
- Malloc.HeaderHeap.ReallocInPlace: one case is not modelled, a heap that is not full where all blocks
  behind the one to grow are free and too small together: there the source's loop goes on to read
  words behind the last block. Sizes are adjusted by the caller.
- Malloc.HeaderHeap.MergeContiguous: the same case is not modelled.
- Malloc.HeaderHeap.Malloc: for a size that wraps around on a full heap the header is written behind
  the heap; what it hits there is not described.
- MemoryManager.Manager.Malloc: nobody else calls `sbrk`; the host has less than 2 GiB; what memory
  holds after a trap, or after a size has wrapped around, is not described.
- MemoryManager.Manager.Free: a pointer handed in is null or was handed out.
- `realloc` and `calloc` of the manager of `malloc.cpp`.
- KvTable.Table.Put: full keys are kept as (table, index, partial key); the lemmas on their bytes say
  that this loses nothing. Names are taken to be encoded as 8 bytes, the most significant first;
  `to_key.hpp` is not part of this model, and neither is serialising rows.
- KvTable.Table.Range: what the host's iterators do is modelled by seeking the least key in a set of
  keys; iterators whose entry is erased are left out.
- KvIterators.Iterator.Decrement: that the host's iterators go round at the end is taken from
  `tests/unit/test_contracts/kv_single_index_tests.cpp`, which steps back from there.
- MultiIndex.MultiIndex.Next: an iterator is the place of its object in the cache, not an address; several
  instances on one table, iterators kept across an erase of their row, and NaN or signed-zero keys are
  left out, and secondary keys are integers in the order of their type.
- MultiIndex.MultiIndex.Modify: the updater is the row it produces; payers and serialisation are left out.
- Rope.Flatten: the children of a node do not change once it is built (the source sets `right` of a
  fresh node right after); `print` and the unused field `last` are left out.
- WriteDecimal.Pow: base 10 only, the table that `write_decimal` uses.
- Dispatch.Generate: the lines are tokens, and the declarations before `apply` are left out; that names
  stand for different numbers is a premise of `Dispatch.ProgramLooksUp`.
- `map.hpp` and `key_value.hpp`; the compiler and linker plugins, the tester's chain calls, printing,
  and the host's cryptography.
