# The freestanding runtime of the memory game, in Dafny

These files model the C runtime of the lab 5 memory game (a freestanding MIPS program with 32-bit
`int` and `long`) and prove what it promises. Code that changes state in place is a method with
loops, over an array or an object; each such method is proved against a specification, and the
lemmas are about those specifications.

| part | files |
|---|---|
| Storage allocator (K&R 2nd edition, section 8.7) | `FreeRing`, `Allocator`, `AllocatorRuns` |
| Cache maintenance | `CacheMachine`, `IndexLoops`, `Cache`, `CacheFetches`, `CacheRoutines` |
| Numerals | `Numerals`, `Strtoul`, `Atob`, `NumeralRoundTrips`, `BoundedNumerals`, `Sscanf` |
| Formatting | `CStrings`, `Format`, `Vsprintf`, `FormatMeaning`, `FormatOutput`, `Rounding`, `ScanRoundTrip` |
| Tokens | `Strtok` |
| Interrupts | `Bits`, `IrqTables`, `Irq` |
| Shared | `Arithmetic`, `Wrappers` |

## Main results

* **Allocator.** The free list is one address-ordered cycle with one wrap, its blocks disjoint, never
  adjacent, and together with the live blocks an exact partition of the arena (`Inv`); `malloc`,
  `free` and `morecore` keep this, both searches terminate, and growth happens at most once a call.
  The free list is a function of the live blocks and the end of the arena (`HistoryIndependent`), so
  `malloc` then `free` restores it (`MallocThenFree`); units are conserved (`UnitsConserved`). Over any
  run of the transitions `malloc` and `free` make (`MallocStep`, `FreeStep`) the invariant holds at every
  step (`RunKeepsInv`) and an undisturbed block keeps its contents (`BlockUndisturbed`).
* **Caches.** The loops over indices reach every way and set once (`EachSlotOnce`), the loops over
  addresses every line of the range once. `dma_cache_inv` loses nothing outside its range
  (`OutsideKept`); after `flush_icache_range` fetches see prior stores whatever is fetched meanwhile
  (`FlushCoherent`), and the opposite order of its halves would not do (`IThenDFails`).
* **Numerals and formats.** Overflow detection is exact (`OverflowExact`), printers and parsers undo
  each other, and `sscanf` converts every value that `vsprintf` printed with the same format. It
  stores all of them through the first pointer, though, so the caller has them back if and only if the
  format has at most one directive (`ScanReadsPrinted`, with the input in `TwoDirectives`).
  Rounding of decimal digits adds one unit in the last place (`Round`).
* **Tokens.** A run of `strtok` yields exactly the maximal delimiter-free stretches (`TakeAll`,
  `TokensAreRuns`, `RunsUnique`).
* **Interrupts.** The number a dispatcher computes decodes to the register and lowest pending bit it
  came from (`PendingDecodes`); handlers run once each, in registration order, with their line masked
  (`HandleLevelIrq`); enabled lines stay those with an action (`EnabledIffRegistered`).

## How the machine is modelled

* Memory of the allocator is an array of 8-byte units, a pointer is a unit index, and address 0 is
  NULL. The arena starts at `membase`; the sentinel `base` lies below it or above all of it.
  `Allocator.Snap` is the heap as a value: headers, list members, live blocks and arena end.
* A cache line is in at most one way. A clean line may be out of date, as after a device wrote memory.
  `View` is what a load sees of a line, `Fetch` what an instruction fetch sees, `Settled` what memory
  holds once the line is written back. The steps of the CACHE instruction have the
  meaning of the MIPS32 Architecture For Programmers, Volume II. Virtual and physical addresses are
  identified.
* A string is held in a character array up to its terminator; methods take the text as a ghost
  argument. The 32-bit wrap-around of unsigned arithmetic is written out.
* `sscanf.c` generates its printers and parsers per base and type by macros; here base and case are
  parameters. Signed overflow while parsing wraps around in two's complement.
* The interrupt registers are bit-vector words. `log` records, as a ghost, every handler that ran and
  the registers at the time. Handlers do not touch the controller.
* `Tokenizer.TakeAll` and `Controller.SetupRun` stand for an arbitrary caller and are not in the
  source: they state what a whole run of calls amounts to.
* `va_list` is a plain pointer (include/common.h:7) that `sscanf` hands to `parse_arg` by value, so the
  caller's list never advances; the objects a call points to are byte arrays, an int is four bytes, lowest
  first.

Where the code departs from its comments, the code is followed: `strtoul` with base 16 skips only
`0x` though its comment says `0x/0X`; `init_IRQ` claims to mask all interrupts but writes the clear
registers and leaves the enable registers alone.

## Model

| member | source | states |
|---|---|---|
| Allocator.Allocator.Malloc | lab05 CPU例外与中断支持/lab5_memory_game/lib/malloc.c:67-94 | Terminates, makes the transitions of `MallocStep`, calls `morecore` at most once, keeps the invariant; the result is the tail of the first fitting block after the roving pointer, or of the new memory when nothing fitted; exactly one live block of `nunits` units is added and every other live block is untouched; NULL only when `sbrk` fails, and then nothing changed; the arena either stays, or grows by the fewest chunks of 128 units that hold `nunits`, and `membase` moves by exactly that |
| Allocator.Rounded | lab05 CPU例外与中断支持/lab5_memory_game/lib/malloc.c:104 | The units obtained are a multiple of 128, at least those asked for and fewer than 128 more |
| Allocator.Allocator.Free | lab05 CPU例外与中断支持/lab5_memory_game/lib/malloc.c:115-135 | Gives exactly the named live block back, keeps the invariant, leaves the roving pointer on the unique predecessor in address order, touches no other live block; the change is the transition `FreeStep` |
| Allocator.Allocator.FindPlace | lab05 CPU例外与中断支持/lab5_memory_game/lib/malloc.c:120-123 | From any roving position the search ends, at a member that brackets the block, including blocks above the highest or below the lowest member |
| Allocator.Allocator.Coalesce | lab05 CPU例外与中断支持/lab5_memory_game/lib/malloc.c:124-133 | Joins the block with either neighbour it touches; every other unit is unchanged |
| Allocator.Allocator.FirstUse | lab05 CPU例外与中断支持/lab5_memory_game/lib/malloc.c:74-77 | The first call links the sentinel to itself; what fits and every live block stay as they were |
| Allocator.Allocator.Take | lab05 CPU例外与中断支持/lab5_memory_game/lib/malloc.c:79-88 | Unlinks an exact fit or cuts the tail off a larger block; the block handed out has exactly the units asked for |
| Allocator.Allocator.Morecore | lab05 CPU例外与中断支持/lab5_memory_game/lib/malloc.c:97-112 | Adds the fewest chunks of 128 units that hold the request as free memory, and moves `membase` by exactly that; afterwards the request fits, and only in the block that ends at the new end of the arena |
| Allocator.Allocator.Sbrk | lab05 CPU例外与中断支持/lab5_memory_game/lib/malloc.c:59-65 | Returns the old end of memory and moves it, with 32-bit wrap-around |
| Allocator.Allocator.constructor | lab05 CPU例外与中断支持/lab5_memory_game/lib/malloc.c:47-59 | The statics before the first call satisfy the invariant |
| FreeRing.Canonical | lab05 CPU例外与中断支持/lab5_memory_game/lib/malloc.c:115-134 | The free list is a function of the set of free units: members, links and sizes are determined |
| FreeRing.RunInOneBlock | lab05 CPU例外与中断支持/lab5_memory_game/lib/malloc.c:124-133 | Because coalescing is complete, any run of free units lies inside a single block |
| FreeRing.InsertLinked | lab05 CPU例外与中断支持/lab5_memory_game/lib/malloc.c:120-133 | Inserting and merging a block keeps the links one ascending cycle with one wrap |
| FreeRing.InsertSpaced | lab05 CPU例外与中断支持/lab5_memory_game/lib/malloc.c:124-133 | Inserting and merging a block keeps members disjoint and never adjacent |
| FreeRing.InsertCovers | lab05 CPU例外与中断支持/lab5_memory_game/lib/malloc.c:124-133 | Inserting and merging adds exactly the units of the block to the free units |
| FreeRing.UnlinkRing | lab05 CPU例外与中断支持/lab5_memory_game/lib/malloc.c:80-81 | Unlinking an exact fit keeps the ring |
| FreeRing.TailCutRing | lab05 CPU例外与中断支持/lab5_memory_game/lib/malloc.c:82-86 | Cutting a tail off a member keeps the ring |
| Allocator.BracketExists | lab05 CPU例外与中断支持/lab5_memory_game/lib/malloc.c:120-123 | Every address off the list is bracketed by some member and its successor |
| Allocator.BracketUnique | lab05 CPU例外与中断支持/lab5_memory_game/lib/malloc.c:120-123 | No address is bracketed by two members, so the place `free` finds is the only one |
| Allocator.ArcStep | lab05 CPU例外与中断支持/lab5_memory_game/lib/malloc.c:78 | Following a link leaves exactly one member behind: the measure of both searches |
| Allocator.OnlyNewFits | lab05 CPU例外与中断支持/lab5_memory_game/lib/malloc.c:97-112 | After growth, a block that fits when none did before ends at the new end of the arena, also when it was merged into an old block |
| Allocator.GrowThenFree | lab05 CPU例外与中断支持/lab5_memory_game/lib/malloc.c:104-111 | Handing the new chunk to `free` makes the request fit |
| Allocator.FreeKeepsInv | lab05 CPU例外与中断支持/lab5_memory_game/lib/malloc.c:115-135 | The whole heap invariant survives `free` |
| Allocator.TakeKeepsInv | lab05 CPU例外与中断支持/lab5_memory_game/lib/malloc.c:79-88 | The whole heap invariant survives an allocation |
| AllocatorRuns.HistoryIndependent | lab05 CPU例外与中断支持/lab5_memory_game/lib/malloc.c:67-135 | Two heaps with the same sentinel, the same arena end and the same live blocks have the same free list, whatever calls led to them |
| AllocatorRuns.MallocThenFree | lab05 CPU例外与中断支持/lab5_memory_game/lib/malloc.c:78-88 | A `malloc` that does not grow the arena followed by `free` of its result restores the free list exactly, up to the roving pointer |
| AllocatorRuns.AllFreed | lab05 CPU例外与中断支持/lab5_memory_game/lib/malloc.c:115-135 | With nothing live, the arena is a single free block behind the sentinel |
| AllocatorRuns.OneCycleOneWrap | lab05 CPU例外与中断支持/lab5_memory_game/lib/malloc.c:78-93 | From every member every other is reached within one turn, and exactly one link does not ascend |
| AllocatorRuns.UnitsConserved | lab05 CPU例外与中断支持/lab5_memory_game/lib/malloc.c:60-88 | Free sizes plus live sizes are the units obtained from `sbrk`, a multiple of 128 |
| AllocatorRuns.PayloadRoom | lab05 CPU例外与中断支持/lab5_memory_game/lib/malloc.c:73-88 | The block handed out has at least `nbytes` bytes of payload (and fewer than eight more), inside the arena and disjoint from every other live block and every free one |
| Allocator.MallocStepInv | lab05 CPU例外与中断支持/lab5_memory_game/lib/malloc.c:67-94 | First use, growth when nothing fits, and the cut of a tail, as `malloc` makes them, keep the invariant and every live block, and add the one block handed out |
| Allocator.FreeStepInv | lab05 CPU例外与中断支持/lab5_memory_game/lib/malloc.c:115-135 | Linking a live block in behind a member that brackets it, as `free` does, keeps the invariant and gives exactly that block back |
| AllocatorRuns.RunKeepsInv | lab05 CPU例外与中断支持/lab5_memory_game/lib/malloc.c:67-135 | Over any run of the transitions of `malloc` and `free` and of stores into live payload the heap invariant holds at every step, given only that it held at the start |
| AllocatorRuns.BlockUndisturbed | lab05 CPU例外与中断支持/lab5_memory_game/lib/malloc.c:67-135 | Over any such run a block that is neither freed nor stored into keeps its size and every unit |
| IndexLoops.OrIsSum | lab05 CPU例外与中断支持/lab5_memory_game/include/asm/r4kcache.h:366 | The bitwise or of `addr` and `ws` is their sum throughout the whole-cache loop |
| IndexLoops.IndexReaches | lab05 CPU例外与中断支持/lab5_memory_game/include/asm/r4kcache.h:353-370 | The step at line `way*sets + index` of the loop reaches exactly that way and set |
| IndexLoops.EachSlotOnce | lab05 CPU例外与中断支持/lab5_memory_game/include/asm/r4kcache.h:353-370 | The whole-cache loop reaches each (way, set) pair exactly once, for every power-of-two geometry whose ways are multiples of 32 lines and end inside the address space |
| IndexLoops.WayEnd | lab05 CPU例外与中断支持/lab5_memory_game/include/asm/r4kcache.h:356-357 | The end of a way fits 32 bits exactly for ways of up to 2^30 bytes; at 2^31 the bound wraps to zero |
| IndexLoops.BoardGeometry | lab05 CPU例外与中断支持/lab5_memory_game/include/asm/r4kcache.h:22-29 | The 4-way, 4 KB-per-way caches are such a geometry, and the sizes the routines compare with are the cache sizes |
| IndexLoops.WritebackAll | lab05 CPU例外与中断支持/lab5_memory_game/include/asm/r4kcache.h:353-370 | The whole-cache D loop empties the D-cache and leaves every line in memory as it settles: the dirty copy if there was one |
| IndexLoops.InstructionAll | lab05 CPU例外与中断支持/lab5_memory_game/include/asm/r4kcache.h:353-370 | The whole-cache I loop empties the I-cache and nothing else |
| CacheRoutines.Cpu.constructor | lab05 CPU例外与中断支持/lab5_memory_game/include/asm/r4kcache.h:22-29 | The board: four ways of 4 KB in each cache, both empty |
| CacheRoutines.Cpu.BlastRange | lab05 CPU例外与中断支持/lab5_memory_game/include/asm/r4kcache.h:417-435 | Terminates, and issues one step for each line that meets `[start,end)`, ascending, also when the range ends at the top of the address space |
| CacheRoutines.Cpu.Unroll32 | lab05 CPU例外与中断支持/lab5_memory_game/include/asm/r4kcache.h:274-298 | Issues the 32 consecutive line steps |
| CacheRoutines.Cpu.BlastWay | lab05 CPU例外与中断支持/lab5_memory_game/include/asm/r4kcache.h:365-366 | One turn of the outer loop issues the steps of one way |
| CacheRoutines.Cpu.Blast | lab05 CPU例外与中断支持/lab5_memory_game/include/asm/r4kcache.h:353-370 | The nested loops issue the steps of every way in ascending order and no other |
| CacheMachine.WritebackStep | lab05 CPU例外与中断支持/lab5_memory_game/include/asm/r4kcache.h:46-60 | A write-back step loses no store: a load sees what it saw, or, where it saw an out-of-date clean copy, memory; memory changes only on a line that leaves the cache |
| CacheMachine.LoadsUnchanged | lab05 CPU例外与中断支持/lab5_memory_game/include/asm/r4kcache.h:46-60 | Where no out-of-date clean copy was seen, a step that loses no store changes what loads see nowhere |
| CacheMachine.InvalidateStep | lab05 CPU例外与中断支持/lab5_memory_game/include/asm/r4kcache.h:46-60 | Hit Invalidate drops the addressed line, dirty or not, and leaves memory and all other lines alone |
| CacheMachine.WritebackRange | lab05 CPU例外与中断支持/lab5_memory_game/include/asm/r4kcache.h:417-435 | Hit Writeback Invalidate over consecutive lines empties exactly those lines out of the D-cache and loses nothing |
| CacheMachine.InvalidateRange | lab05 CPU例外与中断支持/lab5_memory_game/include/asm/r4kcache.h:417-435 | Hit Invalidate over consecutive lines changes memory nowhere, and what loads see only on those lines |
| CacheRoutines.Cpu.DmaCacheWbackInv | lab05 CPU例外与中断支持/lab5_memory_game/lib/cache.c:6-18 | On both paths: no store is lost, the range is in memory and no line of it is in the D-cache; below 16 KB every other line is untouched in D-cache and memory, from 16 KB on the whole D-cache is empty and all of memory settled |
| CacheRoutines.Cpu.DmaCacheInv | lab05 CPU例外与中断支持/lab5_memory_game/lib/cache.c:21-34 | On both paths, also after a device wrote memory: no D-cache line meets the range; lines outside or only partly in it have lost no store; inner lines are what memory held on the small path and what they settle to on the whole-cache path; below 16 KB lines without a byte of the range are untouched, from 16 KB on the whole D-cache is empty |
| Cache.OutsideKept | lab05 CPU例外与中断支持/lab5_memory_game/lib/cache.c:27-33 | `dma_cache_inv` loses no byte outside its range, even a dirty byte that shares a line with it; such a byte is seen as before exactly when it was not seen through an out-of-date clean copy |
| Cache.DeviceDataSeen | lab05 CPU例外与中断支持/lab5_memory_game/lib/cache.c:24-33 | Afterwards a load from an inner line sees what a device wrote there: always on the small path, and on the whole-cache path exactly when no store to the line was left to be written back |
| Cache.DmaInvEffect | lab05 CPU例外与中断支持/lab5_memory_game/lib/cache.c:24-33 | Both paths refine the one specification of dropping a range, whatever copies were out of date |
| CacheRoutines.Cpu.FlushIcacheRange | lab05 CPU例外与中断支持/lab5_memory_game/lib/cache.c:37-49 | Afterwards memory holds the last value stored to every line of the range, no I-cache line covers it and a fetch sees that value; no store is lost anywhere; the D steps come before the I steps; lines without a byte of the range are untouched in the D-cache below 16 KB and in the I-cache up to 16 KB, and above that the cache is empty |
| Cache.MeetsIff | lab05 CPU例外与中断支持/lab5_memory_game/include/asm/r4kcache.h:417-435 | The lines of a range are those that hold one of its bytes |
| Cache.FlushDScope | lab05 CPU例外与中断支持/lab5_memory_game/lib/cache.c:13-17 | By address no line without a byte of the range is touched; over the whole cache the D-cache is emptied into memory |
| Cache.DmaInvScope | lab05 CPU例外与中断支持/lab5_memory_game/lib/cache.c:24-33 | The same for the two paths of `dma_cache_inv` |
| Cache.FlushIScope | lab05 CPU例外与中断支持/lab5_memory_game/lib/cache.c:45-48 | By address no I-cache line without a byte of the range is touched; over the whole cache the I-cache is emptied |
| CacheMachine.RangeTouches | lab05 CPU例外与中断支持/lab5_memory_game/include/asm/r4kcache.h:417-435 | A range loop touches no line outside its lines |
| Cache.FlushDEffect | lab05 CPU例外与中断支持/lab5_memory_game/lib/cache.c:39-43 | Both D paths refine the one specification of writing a range back |
| Cache.FlushIEffect | lab05 CPU例外与中断支持/lab5_memory_game/lib/cache.c:45-48 | Both I paths leave no I-cache line on the range and change nothing else |
| CacheFetches.FlushCoherent | lab05 CPU例外与中断支持/lab5_memory_game/lib/cache.c:37-49 | Whatever instruction lines are fetched between the steps, after the D-then-I flush every fetch from the range sees the last value stored, which is what a load saw exactly when it did not see an out-of-date clean copy |
| CacheFetches.IThenDFails | lab05 CPU例外与中断支持/lab5_memory_game/lib/cache.c:37-49 | In the opposite order a fetch in between can leave an old instruction behind: a concrete run |
| Strtoul.Strtoul | lab05 CPU例外与中断支持/lab5_memory_game/lib/strtoul.c:12-80 | For every text and base: end position and value are those of the digits behind the detected prefix, saturated when out of range and negated modulo 2^32 under a minus sign |
| Strtoul.Convert | lab05 CPU例外与中断支持/lab5_memory_game/lib/strtoul.c:47-68 | Overflow is flagged exactly when the mathematical value exceeds 2^32-1, and otherwise the value is exact |
| Strtoul.AddDigit | lab05 CPU例外与中断支持/lab5_memory_game/lib/strtoul.c:59-67 | One turn of the loop keeps flag and value exact |
| Strtoul.OverflowExact | lab05 CPU例外与中断支持/lab5_memory_game/lib/strtoul.c:59-67 | The two-stage check has no false alarm and no miss |
| Strtoul.ReadsNumeral | lab05 CPU例外与中断支持/lab5_memory_game/lib/strtoul.c:22-68 | Blanks, a sign and digits of an explicit base are read as their value, and the end is just behind the digits |
| Strtoul.ReadsAnnounced | lab05 CPU例外与中断支持/lab5_memory_game/lib/strtoul.c:22-79 | Behind any blanks and sign: with base 0 digits behind `0x` or `0X` are read in base 16, behind `0` in base 8 and others in base 10, with base 16 also behind `0x`, and with every base as they stand; the end is behind the last digit, a value above 4294967295 is returned as 4294967295 under either sign, and any other as it is or as 2^32 minus it |
| NumeralRoundTrips.HexPrefixCase | lab05 CPU例外与中断支持/lab5_memory_game/lib/strtoul.c:40-45 | With base 16 only a lower-case `0x` is skipped: after `0X` the value is 0, while base 0 takes either case |
| NumeralRoundTrips.EmptyNumeralEnd | lab05 CPU例外与中断支持/lab5_memory_game/lib/strtoul.c:49-78 | With nothing to convert the end is behind blanks and sign, not the start of the text |
| Atob.Btoa | lab05 CPU例外与中断支持/lab5_memory_game/lib/atob.c:135-175 | Writes exactly the shortest numeral of the value (signed for base -10) with its terminator and nothing else |
| Atob.FillDigits | lab05 CPU例外与中断支持/lab5_memory_game/lib/atob.c:156-166 | The digit loop leaves the reversed numeral in the local buffer |
| Atob.CopyReversed | lab05 CPU例外与中断支持/lab5_memory_game/lib/atob.c:170-173 | The second loop reverses it into the destination |
| Atob.AtobInto | lab05 CPU例外与中断支持/lab5_memory_game/lib/atob.c:36-91 | `_atob` accepts exactly prefix, segment and digits as specified, and returns the value modulo 2^32 |
| Atob.ReadDigits | lab05 CPU例外与中断支持/lab5_memory_game/lib/atob.c:73-90 | Accepts exactly strings of digits below the base that it knows (up to `f`), and returns their value modulo 2^32 |
| Atob.Atob | lab05 CPU例外与中断支持/lab5_memory_game/lib/atob.c:97-113 | `atob` with base 0 detects the base and skips the prefix first |
| NumeralRoundTrips.AtobDetects | lab05 CPU例外与中断支持/lab5_memory_game/lib/atob.c:9-30 | With base 0 `0x` and `0X` announce base 16, `0t` and `0n` base 10, `0o` base 8, and plain digits, a leading zero included, are decimal |
| NumeralRoundTrips.AtobReadsPrefix | lab05 CPU例外与中断支持/lab5_memory_game/lib/atob.c:49-52 | Under any base a prefix `0x` or `0X` makes the digits hexadecimal |
| NumeralRoundTrips.TwoPointsRefused | lab05 CPU例外与中断支持/lab5_memory_game/lib/atob.c:63-65 | A second point is refused |
| NumeralRoundTrips.AtobReadsBtoa | lab05 CPU例外与中断支持/lab5_memory_game/lib/atob.c:73-90 | `_atob` recovers every 32-bit value `btoa` printed, for bases 2 to 16; above that it does unless the text has a digit beyond `f`, and then it refuses the text |
| NumeralRoundTrips.BtoaReprints | lab05 CPU例外与中断支持/lab5_memory_game/lib/atob.c:135-175 | `btoa` reproduces every canonical lower-case numeral that `_atob` accepts and that fits 32 bits, for bases 2 to 36 |
| NumeralRoundTrips.AtobReadsSegment | lab05 CPU例外与中断支持/lab5_memory_game/lib/atob.c:54-71 | `seg.offset` is read as the segment times 2^16 plus the offset modulo 2^32, up to 19 segment digits |
| NumeralRoundTrips.StrtoulReadsBtoa | lab05 CPU例外与中断支持/lab5_memory_game/lib/strtoul.c:47-79 | `strtoul` recovers every 32-bit value `btoa` printed, for bases 2 to 36 |
| NumeralRoundTrips.StrtoulReadsSigned | lab05 CPU例外与中断支持/lab5_memory_game/lib/strtoul.c:25-79 | `strtoul` recovers every 32-bit value printed as signed decimal, 0x80000000 included |
| Numerals.CanonicalNumeral | lab05 CPU例外与中断支持/lab5_memory_game/lib/atob.c:156-164 | A digit string without leading zeros is the numeral of its value |
| Numerals.NumeralValue | lab05 CPU例外与中断支持/lab5_memory_game/lib/atob.c:156-164 | The numeral of a value denotes that value |
| BoundedNumerals.PrintSigned | lab05 CPU例外与中断支持/lab5_memory_game/lib/sscanf.c:215-291 | Writes exactly the first `len` characters of the padded signed numeral and returns the position behind them |
| BoundedNumerals.PrintUnsigned | lab05 CPU例外与中断支持/lab5_memory_game/lib/sscanf.c:294-352 | Writes exactly the first `len` characters of the padded unsigned numeral and returns the position behind them |
| BoundedNumerals.ParseSigned | lab05 CPU例外与中断支持/lab5_memory_game/lib/sscanf.c:50-134 | Blanks, sign, optional `0x` and digits: value wrapped to 32 bits and the position behind the last digit, or nothing |
| BoundedNumerals.ParseUnsigned | lab05 CPU例外与中断支持/lab5_memory_game/lib/sscanf.c:79-164 | Blanks, optional `0x` and digits: value wrapped to 32 bits and the position behind the last digit, or nothing |
| BoundedNumerals.PaddedMeans | lab05 CPU例外与中断支持/lab5_memory_game/lib/sscanf.c:215-352 | What the printers write in full is the padding and then the sign and the shortest numeral of the value in the case asked for, as wide as asked and no narrower than the numeral |
| BoundedNumerals.SignedRead | lab05 CPU例外与中断支持/lab5_memory_game/lib/sscanf.c:50-164 | Behind blanks, a sign or none, and in base 16 `0x` or none, digits are read up to the tail as their value modulo 2^32, negated under a minus sign |
| BoundedNumerals.SignedRoundTrip | lab05 CPU例外与中断支持/lab5_memory_game/lib/sscanf.c:50-134 | The signed parser recovers a blank-padded numeral and stops behind its last digit, if and only if it is not a hexadecimal lone zero in front of an `x` |
| BoundedNumerals.UnsignedRoundTrip | lab05 CPU例外与中断支持/lab5_memory_game/lib/sscanf.c:79-164 | The unsigned parser recovers a blank- or zero-padded numeral, if and only if it is not a hexadecimal lone zero in front of an `x` |
| Sscanf.ParseArg | lab05 CPU例外与中断支持/lab5_memory_game/lib/sscanf.c:365-414 | One directive: how much it consumes, and that what it converts is written, byte for byte, at the start of the object its argument pointer refers to and nowhere else |
| Sscanf.Sscanf | lab05 CPU例外与中断支持/lab5_memory_game/lib/sscanf.c:477-511 | The whole scan returns the count of the specification, and all its stores go, one over the other, to the first object, because the argument list is handed on by value; nothing else is written |
| Sscanf.DirectiveFits | lab05 CPU例外与中断支持/lab5_memory_game/lib/sscanf.c:486-497 | A directive that consumed input has a conversion character behind its digits, so the scan never steps past the end of the format |
| ScanRoundTrip.ScanConvertsPrinted | lab05 CPU例外与中断支持/lab5_memory_game/lib/sscanf.c:484-508 | With one and the same format of `d`, `u`, `x`, `X` directives between literals, `sscanf` counts all directives and converts exactly the values `vsprintf` printed, in order |
| ScanRoundTrip.ScanReadsPrinted | lab05 CPU例外与中断支持/lab5_memory_game/lib/sscanf.c:477-511 | With that format the first object ends up with the last value and the others stay as they were, so the caller has every value back, whatever the objects held, if and only if there is at most one directive |
| ScanRoundTrip.TwoDirectives | lab05 CPU例外与中断支持/lab5_memory_game/lib/sscanf.c:477-511 | The input that shows it: `12 34` scanned with `%d %d` counts two, leaves 34 in the first object and never writes the second |
| ScanRoundTrip.WordReadsBack | lab05 CPU例外与中断支持/lab5_memory_game/lib/sscanf.c:401-409 | A word printed with `%s` is read back by `%s`, terminator included, if and only if the field was not wider than the word |
| ScanRoundTrip.CharReadsBack | lab05 CPU例外与中断支持/lab5_memory_game/lib/sscanf.c:391-400 | A character printed with `%c` is read back by `%c` |
| ScanRoundTrip.PercentScanned | lab05 CPU例外与中断支持/lab5_memory_game/lib/sscanf.c:410-412 | `%%` consumes a percent sign, stores nothing and is not counted, and anything else in its place ends the scan |
| ScanRoundTrip.WidthFound | lab05 CPU例外与中断支持/lab5_memory_game/lib/sscanf.c:372 | A width in front of a conversion character is read as spelled |
| ScanRoundTrip.WordCut | lab05 CPU例外与中断支持/lab5_memory_game/lib/sscanf.c:401-409 | With a width `%s` takes so many characters of a word and no more |
| ScanRoundTrip.CharsTaken | lab05 CPU例外与中断支持/lab5_memory_game/lib/sscanf.c:391-400 | With a width `%c` takes so many characters, or all there are |
| Sscanf.WordEnd | lab05 CPU例外与中断支持/lab5_memory_game/lib/sscanf.c:403-408 | The run taken by `%s` holds no blank, respects a nonzero width, and stops only at a blank, the width or the end |
| ScanRoundTrip.ItemsScanned | lab05 CPU例外与中断支持/lab5_memory_game/lib/sscanf.c:484-508 | Scanning what was printed reads every value in order, also when blanks were skipped beforehand |
| Vsprintf.Vsprintf | lab05 CPU例外与中断支持/lab5_memory_game/lib/vsprintf.c:18-140 | The buffer holds the concatenation of literals and rendered fields and the result is its length; nothing in front of the destination or behind the positions `Needs` counts is touched |
| Vsprintf.PutPiece | lab05 CPU例外与中断支持/lab5_memory_game/lib/vsprintf.c:31-136 | One turn copies a character or carries out a directive, and what is left to render follows behind it |
| Vsprintf.Scan | lab05 CPU例外与中断支持/lab5_memory_game/lib/vsprintf.c:34-62 | The flag loop reads the flags, width, precision and stars as specified |
| Vsprintf.PutBody | lab05 CPU例外与中断支持/lab5_memory_game/lib/vsprintf.c:63-128 | The text of one directive is written at the cursor |
| Vsprintf.PutNumber | lab05 CPU例外与中断支持/lab5_memory_game/lib/vsprintf.c:84-119 | Integer conversions, with upper case for `X`, and `0x` and forced zero padding for `p` |
| Vsprintf.CutAndPad | lab05 CPU例外与中断支持/lab5_memory_game/lib/vsprintf.c:129-133 | The text is cut to a nonzero precision, then padded, the cursor ends behind it, and nothing behind the cut, the field and a terminator is touched |
| Vsprintf.PutField | lab05 CPU例外与中断支持/lab5_memory_game/lib/vsprintf.c:32-134 | One directive appends its lead and its field and touches nothing behind what it needs |
| Vsprintf.RenderIsText | lab05 CPU例外与中断支持/lab5_memory_game/lib/vsprintf.c:30-139 | The output never contains a terminator before its end, so the length returned is the string length |
| Vsprintf.StrToUpper | lab05 CPU例外与中断支持/lab5_memory_game/lib/strtoupp.c:1-8 | Every lower-case letter of the stored string is replaced in place |
| FormatMeaning.SpelledRead | lab05 CPU例外与中断支持/lab5_memory_game/lib/vsprintf.c:34-62 | A directive spelled with a flag, a width and a precision is read as exactly these |
| FormatMeaning.IntegerDirective | lab05 CPU例外与中断支持/lab5_memory_game/lib/vsprintf.c:84-133 | A spelled integer directive contributes its numeral, cut to the precision and padded to the width, and takes one argument |
| FormatMeaning.SpelledDirective | lab05 CPU例外与中断支持/lab5_memory_game/lib/vsprintf.c:32-134 | Every directive spelled with a flag, counts or stars, and letters `l`, for `d o b p x X u s c %`, takes its arguments and contributes the text of its argument cut and padded, `(null)` for a null string, `0x` and eight digits for a pointer, and a percent sign that is followed by the padding of its width |
| FormatMeaning.FlagsSkipped | lab05 CPU例外与中断支持/lab5_memory_game/lib/vsprintf.c:36-62 | Among several flags the last one decides, and characters that mean nothing are skipped |
| FormatMeaning.PiecesRendered | lab05 CPU例外与中断支持/lab5_memory_game/lib/vsprintf.c:30-139 | For any format of literals and such directives with arguments of their kinds the output is the concatenation of the literals and the texts of the directives, each with its own arguments |
| FormatOutput.JustifyShaped | lab05 CPU例外与中断支持/lab5_memory_game/lib/str_fmt.c:10-32 | A field is as wide as asked and no narrower than its text: left-justified the text and then blanks, right-justified blanks or zeros and then the text, centred with as many blanks on the left as on the right or one more |
| FormatOutput.IntTextDenotes | lab05 CPU例外与中断支持/lab5_memory_game/lib/vsprintf.c:84-119 | The text of `o b u x X p d` is the shortest numeral of the 32-bit word in base 8, 2, 10, 16, 16, 16 or signed 10, in small letters or, for `X`, capitals |
| FormatOutput.CharTextDenotes | lab05 CPU例外与中断支持/lab5_memory_game/lib/vsprintf.c:72-76 | `%c` contributes the one character whose code is the argument modulo 256, and nothing for code 0 |
| FormatOutput.DirectiveOutput | lab05 CPU例外与中断支持/lab5_memory_game/lib/vsprintf.c:63-133 | Every directive puts what its argument denotes, as far as the precision lets it through, into a field of its width and justification |
| FormatOutput.StarSpelledOut | lab05 CPU例外与中断支持/lab5_memory_game/lib/vsprintf.c:45-49 | A star contributes what its argument spelled out as a count contributes, and letters `l` change nothing |
| FormatMeaning.DecimalReadsBack | lab05 CPU例外与中断支持/lab5_memory_game/lib/vsprintf.c:85-86 | `%d` in a field of any width is read back by the signed parser and by `strtoul` |
| FormatMeaning.HexReadsBack | lab05 CPU例外与中断支持/lab5_memory_game/lib/vsprintf.c:89-119 | `%x`, `%X` and their zero-padded forms are read back by the unsigned hexadecimal parser |
| FormatMeaning.ZerosBeforeMinus | lab05 CPU例外与中断支持/lab5_memory_game/lib/str_fmt.c:20-23 | Zero padding stands in front of a minus sign |
| Format.StrFmt | lab05 CPU例外与中断支持/lab5_memory_game/lib/str_fmt.c:5-33 | The stored string is padded in place to the width in the four justifications; a centred one has its odd blank on the left |
| Format.Centre | lab05 CPU例外与中断支持/lab5_memory_game/lib/str_fmt.c:24-31 | Centring, with truncating division for texts longer than the width |
| Format.Append | lab05 CPU例外与中断支持/lab5_memory_game/lib/str_fmt.c:17-18 | The loop of `strcat` calls appends blanks |
| Format.Prepend | lab05 CPU例外与中断支持/lab5_memory_game/lib/str_fmt.c:13-14 | The loop of `strichr` calls prepends the pad character |
| CStrings.Strichr | lab05 CPU例外与中断支持/lab5_memory_game/lib/strichr.c:3-16 | The string is shifted one place up and the character put in front; nothing else changes |
| CStrings.Strcat | lab05 CPU例外与中断支持/lab5_memory_game/lib/strcat.c:34-48 | The source is stored behind the destination text |
| CStrings.Strcpy | lab05 CPU例外与中断支持/lab5_memory_game/lib/strcpy.c:3-16 | The source is stored with its terminator |
| Rounding.Round | lab05 CPU例外与中断支持/lab5_memory_game/lib/vsprintf.c:450-489 | Rounding up adds one unit in the last place to the number the digits denote, over any carries and across the point; all nines gain a digit (f form) or become one and zeros with the exponent raised (e form); otherwise the digits stay and a minus sign is cleared exactly when all of them are zero |
| Rounding.CarryUp | lab05 CPU例外与中断支持/lab5_memory_game/lib/vsprintf.c:459-477 | The carry loop adds one unit in the last place in place, or rolls all nines over |
| Rounding.CarryDigit | lab05 CPU例外与中断支持/lab5_memory_game/lib/vsprintf.c:461-465 | One turn of it: the digits behind are zeroed nines, the digits before are untouched |
| Rounding.RollOver | lab05 CPU例外与中断支持/lab5_memory_game/lib/vsprintf.c:466-475 | The carry out of the first digit |
| Rounding.ClearSign | lab05 CPU例外与中断支持/lab5_memory_game/lib/vsprintf.c:479-487 | The search for a nonzero digit, stopped by whatever stands below the first one |
| Rounding.CarryOver | lab05 CPU例外与中断支持/lab5_memory_game/lib/vsprintf.c:459-477 | Adding one in front of a run of nines and zeroing the run adds one behind it |
| Rounding.NinesScale | lab05 CPU例外与中断支持/lab5_memory_game/lib/vsprintf.c:467-469 | All nines in e form: one and zeros, worth ten times as much per unit |
| Rounding.Exponent | lab05 CPU例外与中断支持/lab5_memory_game/lib/vsprintf.c:491-517 | Letter, sign and at least two digits of the exponent |
| Rounding.ExponentMeans | lab05 CPU例外与中断支持/lab5_memory_game/lib/vsprintf.c:497-516 | The field is the letter, the sign of the exponent, and the digits of its magnitude, two at least and no more zeros in front than that takes |
| Rounding.WideExponent | lab05 CPU例外与中断支持/lab5_memory_game/lib/vsprintf.c:504-511 | Exponents above nine go through the local buffer from its back |
| Strtok.Tokenizer.Next | lab05 CPU例外与中断支持/lab5_memory_game/lib/strtok.c:34-51 | One call returns the first pending token, stored whole and terminated in place, and leaves the others pending; with none pending it returns null and none stays pending |
| Strtok.Tokenizer.TakeAll | lab05 CPU例外与中断支持/lab5_memory_game/lib/strtok.c:34-51 | Over a whole run every token of the text is returned in order, all of them still stored whole at the end, and a further call gets none |
| Strtok.TokensAreRuns | lab05 CPU例外与中断支持/lab5_memory_game/lib/strtok.c:44-50 | The tokens are exactly the maximal delimiter-free stretches of the text, in ascending order |
| Strtok.RunsUnique | lab05 CPU例外与中断支持/lab5_memory_game/lib/strtok.c:44-50 | Only one sequence of stretches is such |
| Strtok.Tokenizer.FindToken | lab05 CPU例外与中断支持/lab5_memory_game/lib/strtok.c:44-45 | Where the next token starts and how long it is |
| Strtok.Terminate | lab05 CPU例外与中断支持/lab5_memory_game/lib/strtok.c:47-49 | The delimiter behind the token is overwritten and the cursor moved past it, unless the text ends there; nothing behind the text is touched |
| Strtok.Strspn | lab05 CPU例外与中断支持/lab5_memory_game/lib/strspn.c:37-51 | Length of the longest prefix made of the given characters |
| Strtok.Strcspn | lab05 CPU例外与中断支持/lab5_memory_game/lib/strcspn.c:34-48 | Length of the longest prefix free of the given characters |
| Bits.FfsIsLowest | lab05 CPU例外与中断支持/lab5_memory_game/include/irq.h:57-70 | `ffs` is one more than the index of the lowest set bit, and 0 exactly for a zero word |
| Bits.Isolated | lab05 CPU例外与中断支持/lab5_memory_game/include/irq.h:69 | `word & -word` keeps exactly the lowest set bit |
| Bits.SetBit | lab05 CPU例外与中断支持/lab5_memory_game/lib/irq.c:19-30 | Or-ing a mask in sets that bit and no other |
| Bits.ClearBit | lab05 CPU例外与中断支持/lab5_memory_game/lib/irq.c:25 | And-ing with the complement clears that bit and no other |
| IrqTables.BoardBit | lab05 CPU例外与中断支持/lab5_memory_game/lib/irq.c:19-30 | Enable bit and status bit of line `32*m + j` are bit `j` of controller `m` |
| IrqTables.DmaBit | lab05 CPU例外与中断支持/lab5_memory_game/lib/irq.c:179-209 | Enable and status bits of lines `168 + j` and `176 + j` are bit `j` of the read and the write registers |
| IrqTables.PendingDecodes | lab05 CPU例外与中断支持/lab5_memory_game/lib/irq.c:86-101 | What the board dispatcher picks is a served number whose status bit is set in the very register that mask, acknowledge and unmask address for it, and the lowest of its register; bit 10 of the second register leads to the lowest pending DMA line; nothing is picked only when nothing is pending |
| IrqTables.DmaPendingDecodes | lab05 CPU例外与中断支持/lab5_memory_game/lib/irq.c:166-177 | The DMA dispatcher picks the lowest pending DMA line, reads before writes, and nothing exactly when none is pending |
| IrqTables.LevelCycle | lab05 CPU例外与中断支持/lab5_memory_game/lib/irq.c:63-73 | Mask, acknowledge and unmask together leave the line enabled, every other enable bit as it was and every other register as it was |
| IrqTables.ChainsGrown | lab05 CPU例外与中断支持/lab5_memory_game/lib/irq.c:262-278 | Linking a fresh action behind the last one extends that list and no other, and keeps all lists acyclic and disjoint |
| IrqTables.EnabledByNext | lab05 CPU例外与中断支持/lab5_memory_game/lib/irq.c:278-288 | One more registration enables its line exactly when it is the first, and no other line |
| Irq.Controller.DisableBoard | lab05 CPU例外与中断支持/lab5_memory_game/lib/irq.c:22-26 | Clears bit `irq & 31` of the enable register of controller `irq >> 5` and no other |
| Irq.Controller.EnableBoard | lab05 CPU例外与中断支持/lab5_memory_game/lib/irq.c:27-31 | Sets bit `irq & 31` of the enable register of controller `irq >> 5` and no other |
| Irq.Controller.AckBoard | lab05 CPU例外与中断支持/lab5_memory_game/lib/irq.c:16-20 | Sets the clear bit of this line and touches no enable bit |
| Irq.Controller.DisableDma | lab05 CPU例外与中断支持/lab5_memory_game/lib/irq.c:179-192 | Clears the enable bit of this DMA line only, in the read or the write register |
| Irq.Controller.EnableDma | lab05 CPU例外与中断支持/lab5_memory_game/lib/irq.c:194-209 | Sets the enable bit of this DMA line only, in the read or the write register |
| Irq.Controller.AckDma | lab05 CPU例外与中断支持/lab5_memory_game/lib/irq.c:211-225 | Stores the mask of the line in its status register and touches no enable bit |
| Irq.Controller.HandleIrqEvent | lab05 CPU例外与中断支持/lab5_memory_game/lib/irq.c:48-62 | Terminates having run every registered action of the line exactly once, in registration order, with the registers as they were |
| Irq.Controller.HandleLevelIrq | lab05 CPU例外与中断支持/lab5_memory_game/lib/irq.c:63-73 | Every handler runs with the line masked and acknowledged; afterwards the line is enabled and no other enable bit has changed |
| Irq.Controller.DispatchDma | lab05 CPU例外与中断支持/lab5_memory_game/lib/irq.c:166-177 | Handles exactly the line picked, or changes nothing: the lowest set bit of the read status byte, else of the write status byte, and its bit in the enable register is clear while the handlers run and set afterwards |
| Irq.Controller.DispatchBoard | lab05 CPU例外与中断支持/lab5_memory_game/lib/irq.c:86-101 | Handles exactly the line picked, or changes nothing: for the lowest set status bit `k` of controller `n` line `32*n + k`, and bit `k` of that enable register is clear and of that clear register set while the handlers run, and the enable bit set afterwards |
| Irq.Controller.AppendAction | lab05 CPU例外与中断支持/lab5_memory_game/lib/irq.c:265-278 | The walk to the end of the list terminates and links the action there |
| Irq.Controller.SetupIrq | lab05 CPU例外与中断支持/lab5_memory_game/lib/irq.c:262-291 | The action becomes the last of its line; the first registration enables the line and changes no other enable bit, later ones change none |
| Irq.Controller.SetupRun | lab05 CPU例外与中断支持/lab5_memory_game/lib/irq.c:262-291 | After any run of registrations of distinct fresh actions every list is the old one followed by the actions of the run in order, and the enabled lines are exactly those enabled before and those that got their first action in the run; no other register changes |
| Irq.Controller.InitIrq | lab05 CPU例外与中断支持/lab5_memory_game/lib/irq.c:380-404 | Every number a dispatcher can produce has its chip and handler; the cascade action is registered and its line enabled; all other enable bits are as they were found, so enabled lines are those with an action exactly when no other line was enabled at power-on |
| Irq.Controller.InitBoardLines | lab05 CPU例外与中断支持/lab5_memory_game/lib/irq.c:252-260 | Installs chip and handler for numbers 0 to 159 and no other |
| Irq.Controller.InitDmaLines | lab05 CPU例外与中断支持/lab5_memory_game/lib/irq.c:243-250 | Installs chip and handler for numbers 168 to 183 and no other |
| Irq.Controller.InitRegisters | lab05 CPU例外与中断支持/lab5_memory_game/lib/irq.c:387-399 | Polarity, edge and clear registers of the five controllers are set; the enable registers are not |

## Left out

- Allocator.Allocator.Malloc: growth that would run into the sentinel or past the end of the address space is excluded by `CanGrow`, because the code has no check there; the NULL result of `morecore` is modelled for an address space that is exactly used up.
- Allocator.Allocator.Free: needs a live block, as the code does; a second `free` of the same block is not modelled.
- CacheRoutines.Cpu.Blast: ways of 2^31 bytes are excluded, because the loop bound of the code then wraps to zero (`IndexLoops.WayEnd`).
- CacheRoutines.Cpu.FlushIcacheRange: the range must not be empty, as in the code, whose loop would otherwise walk the whole address space.
- The secondary cache, the 16- and 64-byte line and page-indexed variants, and the `CONFIG_MIPS_MT` prologues of r4kcache.h.
- BoundedNumerals.PrintSigned: needs a value above the most negative one, whose negation overflows in the code.
- ScanRoundTrip.ScanConvertsPrinted: covers `d`, `u`, `x` and `X` directives, blank-padded, or zero-padded for `u`, `x` and `X`; zero-padded negative numbers cannot be read back (`FormatMeaning.ZerosBeforeMinus`). A literal must stand between directives and end the numeral in front of it.
- Sscanf.Sscanf: needs an argument pointer if anything is stored, with room for every store, as the code does; the input text and the objects do not overlap.
- `print_arg` of sscanf.c, which no code calls.
- Vsprintf.Vsprintf: formats with floating-point directives, incomplete directives, missing or ill-typed arguments, a negative precision, or more than 39 digits in a count are excluded (`Render` is None), because the code then reads or writes outside its buffers or is undefined.
- Rounding.Round: the rounding digit is given as an integer; `modf`, `cvt` and `dtoa` work on doubles and are left out.
- The `HAVE_QUAD` variants, the `MYOPROFILE` paths and the disabled `strtol`.
- Strtok.Tokenizer.TakeAll: the run uses one set of delimiters; a caller may change it between calls, which `Next` covers one call at a time.
- Irq.Controller.HandleIrqEvent: needs at least one registered action, as the code does.
- Irq.Controller.AckDma: the status register takes the value stored; what the device then shows in it, and the pending bits of the board controllers after an acknowledge, are not modelled.
- Irq.Controller.SetupIrq: the chip's default `enable` and `startup` routines, which only call `unmask`, are folded in; the trigger type has no effect in the code.
- `plat_irq_dispatch`, a fixed priority choice among the timer and the five controllers, and the CP0 registers it reads; `request_irq`, which allocates an action and calls `setup_irq`; the `printf` calls of the dispatchers.
- The screen, timer and keyboard code, the picture data and the file stubs of `stdio.c`: device input and output.
- Plain `strlen`, `strcmp`, `memset`, `memcpy`: on their own they would add only easy members.
