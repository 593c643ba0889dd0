# Verification of the systems labs

This project models six components of the course labs and proves what they are for. Every
module stands beside one source file or one layer of it; loops and in-place updates of the
source are loops and in-place updates here, and each such method is tied by its `ensures` to a
function whose own properties are proved as lemmas.

**Heap allocator** (`mm.c` over `memlib.c`). Memory is one array of 4-byte words; a pointer is a
word offset from the start of the heap area, and 0 is NULL. `HeapLayout` and `HeapSpec` give the
blocks and the operations on them, `HeapTheorems` what each operation keeps and promises,
`HeapAnswers` what each call answers, as arithmetic on the heap before it, `HeapRuns` whole runs
against the map of live payloads that a client would keep by itself, `HeapClient` runs in memory
whose client also writes to its payloads, and `HeapCorners` runs into the corners where a condition
fails.
`HeapImage` says how blocks are stored as boundary tags, with the tag bit of `mm.c` kept apart
from size and allocated bit, and `Allocator` is the code: every write of a header or footer, the
two sweeps of the search, the four cases of merging. Between calls the words hold exactly the
blocks of the specification; each method ends in the state that the specification computes and
leaves every payload word of the other live blocks alone.

**Cache simulator** (`csim.c`). `CacheSet` is one set with its time stamps, `RecencyStack` the
textbook stack, `LruSet` the refinement between them, `CacheRun` the theorems over every trace,
`TextbookLru` the comparison of miss counts with textbook LRU, `Csim` the code. The counter starts
at 0, the stamp of an empty line, so the line filled by the very first access of a run is taken for
an empty one: the theorems name this exception and say exactly when it makes a difference.

**Bit functions** (`bits.c`, HW1). `Binary32` gives the single-precision format of section 3.4
and the rounding of section 4.3.1 of IEEE 754-2008, with values counted in units of 2^-149.
`DataLab` has the three floating-point functions, `BitCount` the population count by lanes,
`Rotate` the rotation. Signed ints are taken as 32-bit words: where the source adds or shifts into
the sign bit, the model takes the two's complement result.

**Transpose** (`trans.c`). Flat row-major buffers of the size in `tracegen.c`; the three tile
kernels and the plain double loop.

**Shell** (`tsh.c`). `Parseline` cuts a command line in place; `JobTable` is the table of jobs;
`JobControl` is the protocol between `eval`, its children and the SIGCHLD handler, whose steps
interleave in every way the signal mask allows.

**K-best sampler** (`fcyc.c`). `KBest` is the sorted array of the k smallest samples, with `real`
for `double`.

Where comments and code differ, the code is followed: `tsh.c` defines MAXJID as the largest job id,
but `addjob` wraps job ids at MAXJOBS; the parameter of `extend_heap` is called `words` and counts
bytes. For the fifteen largest requests the 32-bit rounding of `mm_malloc` wraps around to 0 or 8
bytes: still a multiple of the alignment, but with no room for the request
(`HeapTheorems.WrappedSize`, `HeapTheorems.MallocFulfilledIff`).

These results say where a property fails and on exactly which inputs, with a run or an input that
fails: `MallocFulfilledIff` (room for the request; `OversizedIsAnswered`), `GrowRefines` (the rover
after growing; `RoverIsLost`, and what follows from it, `AnswerInsidePayload`), `TextbookIff` and
`FirstLineCosts` (textbook LRU; `FirstLineIsEvictedEarly`), `TwiceIsIeeeIff` and
`HalfUndoesTwiceIff` (doubling), `TrackedIffRoomAtForks` (the job table; `OneTooManyLosesTrack`) and
`AddsStayDistinctIff` (job ids; `JidsCollide`).

## Model

| member | source | states |
|---|---|---|
| HeapTheorems.RoundingIsTight | ASSN/ASSN6/mm.c:135-141 | a request of n bytes up to 2^32 - 16 is rounded to a multiple of 8, at least 16, between n + 8 and n + 15 |
| HeapTheorems.RoundingWraps | ASSN/ASSN6/mm.c:135-141 | over all 32-bit requests the rounded size leaves room for the tags if and only if the request is at most 2^32 - 16; beyond that it is smaller than the smallest block |
| HeapTheorems.WrappedSize | ASSN/ASSN6/mm.c:138-141 | of the fifteen largest 32-bit requests the rounding makes 0 bytes for the first eight and 8 bytes for the last seven |
| HeapSpec.FirstFitIsFirst | ASSN/ASSN6/mm.c:453-459 | the forward sweep finds the first fitting block from its start, and finds none only if none fits |
| HeapSpec.BestFitIsBest | ASSN/ASSN6/mm.c:462-472 | the second sweep finds the leftmost among the smallest fitting blocks before the rover |
| HeapSpec.FindFitPolicy | ASSN/ASSN6/mm.c:446-475 | the search fails if and only if no free block of the needed size exists anywhere; otherwise first fit at or after the rover, else the leftmost smallest before it; a failed forward sweep leaves the rover where it was |
| HeapTheorems.CoalesceKeepsWf | ASSN/ASSN6/mm.c:393-439 | merging a free block with its neighbours keeps tiling, sizes, the break and the prologue, and the rover stays on a block boundary |
| HeapTheorems.CoalesceKeepsInv | ASSN/ASSN6/mm.c:393-439 | if no two neighbours are free on either side of the new free block, none are after merging, and the live payloads are the same |
| HeapTheorems.MergedCovers | ASSN/ASSN6/mm.c:398-433 | the merged block covers exactly the free run around the block: one, two or three blocks, all free, and is a legal block |
| HeapTheorems.MergedCases | ASSN/ASSN6/mm.c:398-433 | start and size of the merged block in each of the four cases, as sums of the sizes of the blocks it swallows |
| HeapTheorems.MergeKeepsRover | ASSN/ASSN6/mm.c:434-437 | after merging, the rover is the start of some block: it is never left inside the merged one |
| HeapTheorems.PlaceKeepsInv | ASSN/ASSN6/mm.c:481-500 | allocating from a fitting free block, with or without a split, keeps the whole invariant and the break and makes exactly one new payload live, of exactly the size needed where four words or more are left over and of the whole block where not |
| HeapTheorems.ExtendKeepsInv | ASSN/ASSN6/mm.c:364-387 | extending succeeds if and only if the heap area has room; then the break grows by the request, the last block is free and large enough, and the invariant and the live payloads are kept |
| HeapTheorems.MallocRefines | ASSN/ASSN6/mm.c:120-165 | a request fails, changing nothing, if and only if nothing fits and the area is exhausted; otherwise it returns an 8-aligned payload that was not live, in a block of n + 8 to n + 23 bytes, and no other payload changes hands (which address and which size: HeapAnswers.MallocChooses and MallocCuts) |
| HeapAnswers.MallocChooses | ASSN/ASSN6/mm.c:120-165 | which address is answered, over all requests: the nearest free block of the rounded size at or after the rover, which moves there; else the leftmost of the smallest, the rover staying; else the free block that ends the heap after growing by max(rounded size, 4096) bytes; NULL and an unchanged heap if the 20 MB have no room for that or for a request of 0 bytes |
| HeapAnswers.MallocCuts | ASSN/ASSN6/mm.c:120-165 | all blocks afterwards: the chosen block has exactly the rounded size and the rest is one free block, if at least 16 bytes are left; otherwise it is handed out whole, 8 bytes too long at most; every other block is as before, or as the extension left it |
| HeapAnswers.PlaceExact | ASSN/ASSN6/mm.c:481-500 | a rest of four words or more becomes a free block behind a block of exactly the words needed; otherwise the block keeps its length; a size of 0 changes no block |
| HeapAnswers.ExtendExact | ASSN/ASSN6/mm.c:364-439 | extending appends a free block, or enlarges the free block that ends the heap, by exactly the words asked for, with the rover where it was, or fails beyond 20 MB |
| HeapTheorems.MallocNullIff | ASSN/ASSN6/mm.c:120-165 | over all 32-bit requests, wrapped ones included, malloc answers NULL if and only if no free block has the rounded size and the area has no room for more |
| HeapTheorems.MallocFulfilledIff | ASSN/ASSN6/mm.c:120-165 | a block handed out has room for the request if and only if the request is at most 2^32 - 16 |
| HeapCorners.OversizedIsAnswered | ASSN/ASSN6/mm.c:120-165 | every request above 2^32 - 16 is answered by the heap that mm_init leaves, with a block too small for it |
| HeapTheorems.FreeRefines | ASSN/ASSN6/mm.c:171-205 | freeing keeps the invariant and the break and removes exactly the freed payload from the live ones |
| HeapAnswers.FreeRover | ASSN/ASSN6/mm.c:171-205 | the rover stays unless it would end up inside the merged block, and then moves to its start; freeing NULL changes nothing |
| HeapTheorems.FreeUndoesMalloc | ASSN/ASSN6/mm.c:120-205 | freeing what malloc just returned gives back the very blocks there were, or those the heap extension made |
| HeapTheorems.FreeUndoesPlace | ASSN/ASSN6/mm.c:393-500 | merging after a free rejoins what a split had cut, block for block, with the rover unmoved |
| HeapTheorems.LivePayloadsDisjoint | ASSN/ASSN6/mm.c:120-165 | a live payload is 8-aligned, lies between prologue and break, and shares no word with any other block |
| HeapTheorems.HeapSizeIsBlocks | ASSN/ASSN6/memlib.c:90-93 | the block sizes plus the fixed overhead before the prologue add up to the heap size |
| HeapTheorems.EverythingFreedIsOneBlock | ASSN/ASSN6/mm.c:393-439 | with nothing live, everything behind the prologue is at most one free block |
| HeapTheorems.GrowRefines | ASSN/ASSN6/mm.c:229-287 | growing the last allocated block returns the same address as one allocated block that takes in the free block behind it, if any, and new bytes if that is too little (how many: HeapAnswers.GrowExact); just that live block is replaced; it fails without a change if and only if the area is exhausted; the rover stays a boundary if and only if it was not at the block swallowed |
| HeapAnswers.GrowExact | ASSN/ASSN6/mm.c:229-287 | with r the rounded size, the block that grows has exactly what lies up to the break if that is r + 128 bytes, else max(what is missing, 4096) bytes more, by which the break grows; the blocks before it stay; NULL and an unchanged heap exactly if that exceeds 20 MB |
| HeapCorners.RoverIsLost | ASSN/ASSN6/mm.c:247-287 | three calls from mm_init after which growing the first payload, to any size up to 3900 bytes, leaves the rover inside it |
| HeapTheorems.AbsorbTail | ASSN/ASSN6/mm.c:283-287 | giving the free block that ends the heap to the live block before it keeps tiling, break and the no-two-free rule, with the exact condition for the rover |
| HeapTheorems.ReadyToGrow | ASSN/ASSN6/mm.c:256-281 | before the tags are rewritten, exactly one free block lies between the growing block and the epilogue, and its size makes up for what is missing |
| HeapTheorems.ExtendBehindLive | ASSN/ASSN6/mm.c:364-387 | behind an allocated last block, extension appends exactly one free block and merges nothing |
| HeapTheorems.ExtendBehindLast | ASSN/ASSN6/mm.c:364-439 | whether or not the heap ends in a free block, extension leaves one free block behind the last allocated one and the rover where it was |
| HeapRuns.StepKeepsInv | ASSN/ASSN6/mm.c:120-205 | every allowed call keeps tiling, sizes, the no-two-free rule and the rover |
| HeapRuns.StepAgrees | ASSN/ASSN6/mm.c:120-205 | every allowed call keeps the live blocks in step with the map from addresses to requested sizes |
| HeapRuns.GrowAgrees | ASSN/ASSN6/mm.c:229-287 | so does growing the last allocated block |
| HeapRuns.RunRefinesLedger | ASSN/ASSN6/mm.c:120-205 | after any sequence of allowed calls the invariant holds and the live payloads are exactly those of the client's map, each with room for its request and, without growing, at most 23 bytes more |
| HeapRuns.ProgramRun | ASSN/ASSN6/mm.c:94-205 | the same for every run from mm_init; once everything is released, the heap has healed into at most one free block |
| HeapRuns.Initial | ASSN/ASSN6/mm.c:94-114 | the heap that mm_init leaves satisfies the invariant, holds nothing live, and ends two words past the start of the prologue payload |
| Words.MasksAreBitwise | ASSN/ASSN6/mm.c:42-47 | size, allocated bit and tag of a word, and setting and clearing the tag, are the masks of the macros bit for bit |
| Words.PackIsBitwise | ASSN/ASSN6/mm.c:35 | for a block size, size or alloc is their sum |
| Words.WithTagIsBitwise | ASSN/ASSN6/mm.c:40 | writing with the tag keeps bit 1 of the word overwritten and no other bit of it |
| HeapImage.ReadBlock | ASSN/ASSN6/mm.c:45-53 | header and footer of every block in memory agree on size and allocated bit, the header's tag is 0, and the size leads to the next block |
| HeapImage.WalkRecoversBlocks | ASSN/ASSN6/mm.c:45-53 | walking by the recorded sizes from the prologue visits exactly the blocks and stops at the size-0 epilogue |
| HeapImage.ImageCoalesce | ASSN/ASSN6/mm.c:401-433 | rewriting the two outer tags of a free run turns the image of the heap into the image of the merged heap and touches no live payload |
| HeapImage.ImagePlace | ASSN/ASSN6/mm.c:481-500 | the tags that placing writes turn the image into that of the placed heap and touch no live payload |
| HeapImage.ImageFreed | ASSN/ASSN6/mm.c:194-195 | so do the tags that freeing writes |
| HeapImage.ImageAppend | ASSN/ASSN6/mm.c:381-383 | so do those of a block at the old break and the new epilogue |
| HeapImage.ImageAbsorb | ASSN/ASSN6/mm.c:284-285 | so do those that give a last free block to the allocated one before it |
| HeapImage.ClientWrites | ASSN/ASSN6/mm.c:120-165 | the client may overwrite any payload word it holds: the memory still stores the same blocks |
| HeapImage.SplitFooterKeepsPayloadBit | ASSN/ASSN6/mm.c:486-489 | a footer cut out of an old payload inherits bit 1 of the payload word, while the header's tag is 0 |
| HeapImage.FooterTagDecidesNothing | ASSN/ASSN6/mm.c:40-47 | setting or clearing that bit in any footer leaves memory an image of the same blocks, on which all decisions depend |
| Memlib.Memory.Sbrk | ASSN/ASSN6/memlib.c:58-69 | the break advances by the increment and the old break is returned, unless the increment is negative or exceeds the area: then nothing changes |
| Memlib.Memory.ResetBrk | ASSN/ASSN6/memlib.c:48-51 | the heap is empty again |
| Allocator.Allocator.Coalesce | ASSN/ASSN6/mm.c:393-439 | the four cases, reading each size before it is overwritten, end in the merged heap, return its start and change no live payload word |
| Allocator.Allocator.MergeTags | ASSN/ASSN6/mm.c:401-433 | each merging case writes exactly the two outer tags of the joined block |
| Allocator.Allocator.SweepFromRover | ASSN/ASSN6/mm.c:453-459 | stops at the first fit from the rover, or with the rover at the epilogue; a lost rover stops at once at the remains it is at |
| Allocator.Allocator.SweepToBackup | ASSN/ASSN6/mm.c:462-472 | returns the best fit before the saved rover and brings the rover back to it |
| Allocator.Allocator.FindFit | ASSN/ASSN6/mm.c:446-475 | address and rover are those of the specified search; a lost rover is itself the answer to a request that fits the remains |
| Allocator.Allocator.Place | ASSN/ASSN6/mm.c:481-500 | ends in the specified heap (see HeapAnswers.PlaceExact) and changes no live payload word; at a lost rover it writes the tags into the block that grew |
| Allocator.Allocator.PlaceZero | ASSN/ASSN6/mm.c:481-500 | a rounded size of 0 leaves every header as it was, the chosen block free, and memory no longer an image of the blocks |
| HeapImage.ZeroBreaksFooter | ASSN/ASSN6/mm.c:486-489 | what a size of 0 writes keeps all headers and destroys the footer of the block before |
| Allocator.Allocator.ExtendHeap | ASSN/ASSN6/mm.c:364-387 | ends in the specified extension, returning its last block, or fails without a change |
| Allocator.Allocator.MmInit | ASSN/ASSN6/mm.c:94-114 | an 8-aligned break with room yields the initial heap; without room it returns -1 |
| Allocator.Allocator.MmMalloc | ASSN/ASSN6/mm.c:120-165 | result and heap are those of the specification (see HeapAnswers.MallocChooses and MallocCuts), and every payload word live before is unchanged; with a lost rover, a request that fits the remains is answered strictly inside the live block that grew, and a word of its payload changes |
| Allocator.Allocator.MmFree | ASSN/ASSN6/mm.c:171-205 | the heap is the specified one and every payload word of the other live blocks is unchanged; NULL changes nothing |
| Allocator.Allocator.ExtendHeapRecycle | ASSN/ASSN6/mm.c:336-359 | the size of the next block if it is free, else 0, given that no two neighbours are free |
| Allocator.Allocator.ReallocLast | ASSN/ASSN6/mm.c:229-287 | growing the last allocated block ends in the specified heap (see HeapAnswers.GrowExact) and keeps every live payload word, its own included; the whole invariant holds afterwards if and only if it failed or the rover was not at the block swallowed, and otherwise the rover is lost at the header that is left |
| HeapImage.AbsorbLeavesHeader | ASSN/ASSN6/mm.c:284-285 | rewriting the outer tags leaves the header of the block swallowed in memory |
| HeapImage.ClientKeepsStale | ASSN/ASSN6/mm.c:284-285 | it stays there through every client write but one to that very word |
| HeapImage.StaleInside | ASSN/ASSN6/mm.c:481-500 | placing tags at the remains changes that word, which is a payload word of the live block |
| HeapCorners.AnswerInsidePayload | ASSN/ASSN6/mm.c:94-287 | malloc 8, malloc 8, free the second, grow the first: the next request of up to 4000 bytes is answered inside the payload that grew |
| Allocator.Allocator.TagEpilogue | ASSN/ASSN6/mm.c:317-322 | the tag behind a block with little room falls on the epilogue and leaves blocks and payloads as they are |
| HeapClient.OutcomeIsRun | ASSN/ASSN6/mm.c:120-205 | client writes inside its payloads leave heap and ledger as the calls alone would |
| HeapClient.KeepsThrough | ASSN/ASSN6/mm.c:120-205 | a call that keeps the payloads of other blocks keeps every word the client wrote there |
| HeapClient.StoreKeeps | ASSN/ASSN6/mm.c:120-165 | a write to one payload word changes no other word the client has written |
| HeapClient.Do | ASSN/ASSN6/mm.c:120-287 | one call or write in memory ends in the specified heap, ledger and contents |
| HeapClient.Perform | ASSN/ASSN6/mm.c:120-287 | after any run of malloc, free, growth and client writes, heap and ledger are the specified ones and each word written to a payload still held has the value last written there |
| HeapClient.Program | ASSN/ASSN6/mm.c:94-287 | the same from mm_init |
| CacheSet.FindTag | ASSN/ASSN4/csim.c:157-163 | finds a valid line with the tag, and none only if there is none |
| CacheSet.Oldest | ASSN/ASSN4/csim.c:170-175 | finds the leftmost line with the smallest stamp |
| CacheSet.AccessBasics | ASSN/ASSN4/csim.c:157-188 | whatever the stamps, an access hits exactly a resident tag, makes its tag resident, keeps valid tags distinct, and adds a valid line exactly when it fills |
| LruSet.HitImplements | ASSN/ASSN4/csim.c:165-167 | restamping the hit line keeps the set an image of the recency stack with its tag moved to the top |
| LruSet.FillImplements | ASSN/ASSN4/csim.c:168-188 | with a line to spare a miss fills an unused line and evicts nothing |
| LruSet.EvictImplements | ASSN/ASSN4/csim.c:168-188 | in a full set a miss replaces exactly the deepest tag of the stack |
| LruSet.OldestIsDeepest | ASSN/ASSN4/csim.c:170-175 | the smallest stamp belongs to the deepest resident |
| CacheRun.BlockNumber | ASSN/ASSN4/csim.c:144-148 | index and tag together are the block number: two addresses agree on both if and only if they lie in one block |
| CacheRun.RunReflects | ASSN/ASSN4/csim.c:107-191 | after any trace every set implements the recency stack of its own accesses, forgetting the run's first line if the next access to its set had another tag |
| CacheRun.ResidentsAreTopOfStack | ASSN/ASSN4/csim.c:143-191 | the resident tags are the top E of that stack, each once: exactly those at a depth below E |
| CacheRun.HitIffShallow | ASSN/ASSN4/csim.c:157-167 | an access hits if and only if its tag is among the top E |
| CacheRun.EvictIffFull | ASSN/ASSN4/csim.c:168-188 | a miss evicts if and only if the stack is E deep or the set holds only the run's first line, and then the deepest resident |
| CacheRun.TextbookIff | ASSN/ASSN4/csim.c:40-191 | the lines are those of textbook LRU if and only if the first line was not replaced early, or its tag was used again, or E other tags were used |
| TextbookLru.AccessDiffers | ASSN/ASSN4/csim.c:157-188 | at an access to the set of the run's first access, textbook LRU hits whenever the simulator does, and it hits where the simulator misses exactly at the first reuse of the first tag, after another tag and before E others |
| TextbookLru.FirstLineCosts | ASSN/ASSN4/csim.c:40-191 | over any trace the misses are those of textbook LRU plus 0 or 1, and 1 exactly if the replaced first tag is used again before E other tags have been used |
| CacheRun.FirstLineIsEvictedEarly | ASSN/ASSN4/csim.c:171-180 | a trace of two accesses that evicts from a set of two lines with one line unused |
| CacheRun.Inclusion | ASSN/ASSN4/csim.c:130-191 | after any trace, what is resident with E lines is resident with more lines |
| CacheRun.MissesMonotone | ASSN/ASSN4/csim.c:130-191 | over any trace, more lines never mean more misses or fewer hits |
| CacheRun.Conservation | ASSN/ASSN4/csim.c:157-190 | hits + misses is the number of accesses; misses - evictions is the number of valid lines, at most E * 2^s |
| CacheRun.SecondAccessHits | ASSN/ASSN4/csim.c:137-138 | the second access of a modify record hits |
| CacheRun.TraceTotals | ASSN/ASSN4/csim.c:130-140 | hits + misses is the number of records, without instruction fetches, plus the number of modify records |
| CacheRun.OneMoreRecord | ASSN/ASSN4/csim.c:130-140 | a fetch record changes no counter, a modify record counts what a load of its address counts and one hit more, and every other record is one access to its address |
| Csim.Simulator.constructor | ASSN/ASSN4/csim.c:107-119 | the arrays start as 2^s sets of E empty lines |
| Csim.Simulator.Lookup | ASSN/ASSN4/csim.c:157-163 | reports a hit at the specified line, or none |
| Csim.Simulator.PickVictim | ASSN/ASSN4/csim.c:169-175 | picks the leftmost line with the smallest stamp |
| Csim.Simulator.CacheAccess | ASSN/ASSN4/csim.c:143-191 | lines and all four counters end as specified for the access |
| Csim.Simulator.Simulate | ASSN/ASSN4/csim.c:130-140 | the state after a trace file is that of the run over its accesses |
| Binary32.FieldMasks | ASSN/ASSN1/bits.c:342-357 | the masks select sign, exponent and fraction |
| Binary32.RoundsOnGrid | ASSN/ASSN1/bits.c:291-329 | a value rounded, ties to even, on the grid of its binade is nearest among all finite values, ties to even |
| Binary32.RoundingIsUnique | ASSN/ASSN1/bits.c:291-329 | rounding to nearest, ties to even, has one result: two words that round the same number have the same value |
| DataLab.FloatI2f | ASSN/ASSN1/bits.c:291-329 | for every 32-bit int the binary32 number nearest to it, ties to even, with its sign; exact up to 2^24 |
| DataLab.FindExponent | ASSN/ASSN1/bits.c:308-310 | the search loop ends at floor(log2 a) |
| DataLab.RoundedMantissa | ASSN/ASSN1/bits.c:312-325 | the mantissa, rounded by its low byte, is the exact value divided by the spacing, ties to even, exact if the byte is 0 |
| DataLab.Assembled | ASSN/ASSN1/bits.c:327-328 | adding exponent and mantissa encodes the value even when the mantissa rounds up and carries into the exponent |
| DataLab.TwiceDoubles | ASSN/ASSN1/bits.c:342-357 | doubles every finite number below the top binade exactly, subnormals included |
| DataLab.TwiceIsIeeeIff | ASSN/ASSN1/bits.c:342-357 | is the IEEE double of its argument if and only if that is not in the top binade with a nonzero fraction |
| DataLab.HalfRounds | HW/HW1/20190084_HW1.c:6-21 | is f / 2 rounded to nearest, ties to even, with f's sign, for every f that is not a NaN |
| DataLab.HalfEvenRounds | HW/HW1/20190084_HW1.c:19 | adding one when the low bits are 11 rounds half to even |
| DataLab.HalfUndoesTwiceIff | ASSN/ASSN1/bits.c:342-357 | halving gives f back from its double if and only if f's exponent field is not 254 |
| BitCount.StageKeepsSum | ASSN/ASSN1/bits.c:251-255 | at each stage the lanes of the result add up to what the half as wide lanes added up to before |
| BitCount.StageOfWord | ASSN/ASSN1/bits.c:251-255 | the sign bits that >> fills in never reach the sum, and the result is a word |
| BitCount.FinerMask | ASSN/ASSN1/bits.c:245-249 | each mask built by shift and exclusive or selects the lower halves of the next finer lanes |
| BitCount.Masks | ASSN/ASSN1/bits.c:245-249 | the five masks are the lane masks and no shift overflows an int |
| BitCount.BitCount | ASSN/ASSN1/bits.c:234-256 | the number of ones of every 32-bit word |
| Rotate.RotateLeft | HW/HW1/20190084_HW1.c:1-4 | the result is the upper n bits beside the lower 32 - n bits, for n from 0 to 31 |
| Rotate.RotateMovesBits | HW/HW1/20190084_HW1.c:1-4 | every bit moves n places up, around the end of the word |
| Rotate.RotationsCompose | HW/HW1/20190084_HW1.c:1-4 | two rotations are one by the sum modulo 32 |
| Rotate.RotateBack | HW/HW1/20190084_HW1.c:1-4 | rotating by n and then by 32 - n gives the word back |
| Rotate.RotateKeepsOnes | HW/HW1/20190084_HW1.c:1-4 | the number of ones is kept |
| Transpose.Trans | ASSN/ASSN4/trans.c:135-146 | B is the transpose of A and no word of the buffer behind it changes |
| Transpose.Blocking | ASSN/ASSN4/trans.c:61-74 | the tile is transposed and every cell outside it is kept |
| Transpose.BlockingDiag | ASSN/ASSN4/trans.c:76-90 | the same for a tile on the diagonal; behind the result no word changes but diagonal cells of the tile, which receive the words read at A's diagonal |
| Transpose.Blocking64 | ASSN/ASSN4/trans.c:92-130 | the same for the kernel with saved values |
| Transpose.TransposeSubmit | ASSN/ASSN4/trans.c:33-54 | for all M, N up to 256 the tiles cover every cell and B is the transpose of A; each word behind the result is as before, or is a diagonal cell of the last tile holding what was read at A's diagonal |
| Transpose.TransposeByWords | ASSN/ASSN4/trans.c:33-146 | in terms of the buffers: word j * N + i of B is word i * M + j of A, for every i below N and j below M |
| Transpose.TransposesAgree | ASSN/ASSN4/trans.c:33-146 | two buffers that hold the transpose agree on all M * N words of the result, so the tiled and the plain transpose write the same |
| Transpose.BelowIsBehind | ASSN/ASSN4/trans.c:76-90 | a diagonal cell written at row M or below has an offset of at least M * N |
| Transpose.OffsetIsCell | ASSN/ASSN4/trans.c:33-54 | every offset of the result is that of a cell |
| Transpose.AtInjective | ASSN/ASSN4/tracegen.c:28-29 | distinct cells have distinct offsets |
| Parseline.ParseInvertsPrint | ASSN/ASSN5/tsh.c:252-300 | any list of bare or quoted words, printed with any spacing, is recovered in order, and the background flag is set, and the last word dropped, exactly when it begins with & |
| Parseline.TokensOfPrint | ASSN/ASSN5/tsh.c:266-288 | cutting inverts printing word by word |
| Parseline.EveryTokenIsPrintable | ASSN/ASSN5/tsh.c:266-288 | no line yields an argument that could not be typed bare or quoted |
| Parseline.UnclosedQuoteEndsParse | ASSN/ASSN5/tsh.c:266-288 | an opening quote without its partner yields no further argument |
| Parseline.NoArgumentsIff | ASSN/ASSN5/tsh.c:252-293 | a line has no arguments if and only if it is blank or its first character that is no space is a quote without a partner; then the answer is 1 |
| Parseline.NextArg | ASSN/ASSN5/tsh.c:262-272 | start and delimiter of the next argument in the buffer, or none |
| Parseline.BuildArgv | ASSN/ASSN5/tsh.c:265-289 | argv holds, in order, C strings in the buffer that equal the arguments, despite the cuts made in between |
| Parseline.Parse | ASSN/ASSN5/tsh.c:252-300 | for every line that fits, argv ends as the arguments of the command followed by NULL, and the flag says background |
| JobTable.Slot | ASSN/ASSN5/tsh.c:630-639 | the first slot with the pid, or none if no slot has it |
| JobTable.MaxJid | ASSN/ASSN5/tsh.c:565-573 | a largest job id in the table, 0 if there is none above 0 |
| JobTable.AddFillsOneSlot | ASSN/ASSN5/tsh.c:576-599 | exactly the first free slot changes: it holds the pid, state and command line given and the job id that was next, which moves on or wraps; fails without a change exactly for a pid below 1 or with no slot free |
| JobTable.DeleteClearsOneSlot | ASSN/ASSN5/tsh.c:549-617 | exactly the first slot with the pid changes: pid and job id 0, state UNDEF, no command line; the next job id is one above the largest left; fails without a change exactly for a pid below 1 or in no slot |
| JobTable.AddTracks | ASSN/ASSN5/tsh.c:576-599 | adding a new pid makes the table know exactly one process more, if and only if fewer processes are known than there are slots; otherwise nothing changes |
| JobTable.DeleteForgets | ASSN/ASSN5/tsh.c:602-617 | deleting removes exactly that pid and succeeds if and only if it was known |
| JobTable.DeleteUndoesAdd | ASSN/ASSN5/tsh.c:576-617 | deleting the job just added gives back every slot |
| JobTable.PidsCount | ASSN/ASSN5/tsh.c:576-599 | with distinct pids, the table is full if and only if it knows as many processes as it has slots |
| JobTable.NewJidIsFreshIff | ASSN/ASSN5/tsh.c:585-589 | after adding a job the job ids are distinct if and only if they were and the next id was not in use |
| JobTable.IdsInOrder | ASSN/ASSN5/tsh.c:585-589 | a run of adds hands out the ids from the next one up to MAXJOBS and then from 1 up |
| JobTable.AddsStayDistinctIff | ASSN/ASSN5/tsh.c:585-589 | from a table whose next id is ahead of all others, a run of adds keeps the ids distinct if and only if no id from 1 to the number of adds after the wrap is in use |
| JobTable.NextJidIsAhead | ASSN/ASSN5/tsh.c:585-613 | a delete puts the next id ahead of all ids in use, and adding leaves it ahead until it wraps to 1 |
| JobTable.JidsCollide | ASSN/ASSN5/tsh.c:585-613 | a run of adds and one delete, with free slots left, after which two jobs have id 1 |
| JobTable.Jobs.constructor | ASSN/ASSN5/tsh.c:557-562 | sixteen clear slots |
| JobTable.Jobs.ClearJob | ASSN/ASSN5/tsh.c:549-554 | the slot is clear and the others are untouched |
| JobTable.Jobs.MaximumJid | ASSN/ASSN5/tsh.c:565-573 | the largest job id |
| JobTable.Jobs.AddJob | ASSN/ASSN5/tsh.c:576-599 | result, slots and next job id are the specified ones (see JobTable.AddFillsOneSlot) |
| JobTable.Jobs.DeleteJob | ASSN/ASSN5/tsh.c:602-617 | result, slots and next job id are the specified ones (see JobTable.DeleteClearsOneSlot) |
| JobTable.Jobs.GetJobPid | ASSN/ASSN5/tsh.c:630-639 | finds the slot of a pid if and only if the table knows it |
| JobControl.StepKeepsInv | ASSN/ASSN5/tsh.c:187-508 | every step of shell, child or handler keeps the pids distinct and equal to the unreaped children, up to the one child in transit |
| JobControl.TableTracksChildren | ASSN/ASSN5/tsh.c:187-508 | in every interleaving with room at each fork, the table lists exactly the unreaped children except one between fork and addjob or one being deleted, and the handler never loses track |
| JobControl.StepKeepsAccurate | ASSN/ASSN5/tsh.c:187-508 | every step but addjob keeps table and children in step, room or not, and only a fork decides whether there is room |
| JobControl.AddLeavesOut | ASSN/ASSN5/tsh.c:576-599 | an addjob without room leaves the table short of a child |
| JobControl.TrackedIffRoomAtForks | ASSN/ASSN5/tsh.c:187-508 | over every interleaving in which each fork reaches its addjob, the table is right after every addjob if and only if every fork happened with fewer than MAXJOBS children |
| JobControl.ReapedIsRemoved | ASSN/ASSN5/tsh.c:476-508 | a reaped child is in the table and is taken out of it: its slot is cleared and every other slot stays |
| JobControl.StopIsRecorded | ASSN/ASSN5/tsh.c:478-490 | for a stopped child the slot of its job gets state ST and keeps pid, job id and command line, and every other slot stays |
| JobControl.StoppedStays | ASSN/ASSN5/tsh.c:187-508 | through every run after that the job has state ST, job id and command line as they were, until a bg or fg command is for it or its end is reported |
| JobControl.AddedStays | ASSN/ASSN5/tsh.c:226-508 | through every run after addjob the job has the state and command line given and the job id that was next, until a bg or fg command is for it or the handler reports it |
| JobControl.MovedStays | ASSN/ASSN5/tsh.c:418-508 | the same from the state that a bg or fg command writes |
| JobControl.WaitfgReturnsIff | ASSN/ASSN5/tsh.c:448-508 | while the shell waits, in every interleaving of children and handler, the slot that waitfg looks at stops being FG if and only if a stop or the end of its process has been reported |
| JobControl.HandlerLeavesNoZombie | ASSN/ASSN5/tsh.c:476-508 | when waitpid has no more to report, the table lists exactly the children, and they are running or stopped |
| JobControl.HandlerFinishes | ASSN/ASSN5/tsh.c:476-508 | the handler can return if and only if no child is pending, and each turn of its loop settles one pending child and returns to waitpid (what it writes: JobControl.StopIsRecorded, JobControl.ReapedIsRemoved) |
| JobControl.NewJobIsTrackedIff | ASSN/ASSN5/tsh.c:195-223 | the forked child gets a slot if and only if at most MAXJOBS children, itself included, are unreaped |
| JobControl.OneTooManyLosesTrack | ASSN/ASSN5/tsh.c:479-484 | one run from the start: MAXJOBS children with room at every fork, then one more that is not added, stops, and is lost by the handler |
| KBest.SortIsSorted | ASSN/ASSN6/fcyc.c:81-87 | the reference order of all samples is sorted and has the same samples |
| KBest.InsertFront | ASSN/ASSN6/fcyc.c:67-88 | a new sample changes the k smallest of all samples as it changes the array: not at all, or by pushing out the largest |
| KBest.FrontIsSmallest | ASSN/ASSN6/fcyc.c:67-88 | the first k in that order are samples, and no other sample is smaller than any of them |
| KBest.FirstIsMinimum | ASSN/ASSN6/fcyc.c:67-98 | values[0] is the minimum of all samples |
| KBest.Sampler.InitSampler | ASSN/ASSN6/fcyc.c:50-62 | starts over with no samples |
| KBest.Sampler.AddSample | ASSN/ASSN6/fcyc.c:67-88 | the array holds the min(n, k) smallest of all samples seen, in order |
| KBest.Sampler.HasConverged | ASSN/ASSN6/fcyc.c:93-98 | true if and only if k samples are in and the k-th smallest is within epsilon of the minimum; then all k are |

## Left out

- The other growth paths of `mm_realloc` (growth into a free block that does not end the heap, into the previous block, and by malloc and copy): they assume the run is contiguous with the new heap end, leave the rover inside an absorbed block, tag the header of a real block, and copy by the new size, so the invariants above do not hold there.
- HeapRuns.StepKeepsInv: a run grows a block only if the rover is not at the free block it would swallow; otherwise the next request may be answered inside the block that grew (see HeapCorners.AnswerInsidePayload), and what holds after that is not stated.
- A request for 0 bytes, a shrink, or a growth that already fits in `mm_realloc`: no block and no payload moves, but when little room is left it sets the tag in the header of the following block (`mm.c`, lines 320-322), and then that header's tag is not 0; the model has such a tag only in the epilogue.
- Memlib.Memory.Sbrk: takes addresses as unbounded, so the sum of break and increment does not wrap as a 32-bit address would for requests far above the heap area.
- HeapTheorems.MallocFulfilledIff: for the eight requests rounded to 0 bytes the specification leaves the blocks as they are, as their headers do, while the code also overwrites footers (see Allocator.PlaceZero).
- Allocator.Allocator.MmMalloc: does not cover requests above 2^32 - 16, whose rounded size wraps (see HeapTheorems.RoundingWraps and Allocator.PlaceZero), nor a lost rover and a request larger than the remains, nor a lazy `mm_init` that fails, whose result the code ignores before it uses the pointer -1.
- Allocator.Allocator.MmFree: takes only NULL or a live payload; its call of `mm_init` for an uninitialised heap cannot be reached that way.
- Allocator.Allocator.MmInit: assumes an 8-aligned heap area and break, as `mem_init` and `mem_reset_brk` leave them.
- `mm_check`, the debug counters, and the range list of `mdriver.c`.
- Csim.Simulator.CacheAccess: requires the 32-bit counter LRU to be below its maximum; what happens after an overflow is not modelled.
- Csim.Simulator.Simulate: the same for a trace of more than 2^31 - 1 accesses.
- The geometry of the cache is not limited to what fits a machine: `pow`, `malloc` and the width of the index are taken as exact.
- Parseline.Parse: requires a line of 1 to 1023 characters and at most 127 arguments, beyond which the code writes past its buffers; that a second call overwrites the arguments of the first is not stated.
- Job ids over whole runs: the code does not keep them unique (see JobTable.JidsCollide), so no run invariant states it.
- The messages of the handler and its branch for an exited child with a terminating signal, a status that does not occur.
- "At most one foreground job", the sleeping of `waitfg`, and what `do_bgfg` sends to processes; its unmasked write of a job state is a step of the protocol.
- Errors of fork and of the signal calls, which end the shell; SIGINT and SIGTSTP handlers, which only read the table.
- JobTable.Jobs.AddJob: assumes a command line shorter than MAXLINE, as the caller's buffer ensures.
- KBest.Sampler.AddSample: uses exact reals, so NaN samples are not modelled; kbest must be at least 1.
- KBest.Sampler.HasConverged: the product (1 + epsilon) * values[0] is exact, where the code rounds it to a double.
- `addOK`, `negate`, `bitOr`, `logicalShift`, `float_neg`: one-line identities.
- `mm_free` of a pointer twice, writes of a client outside its payload: outside the contract. Client writes are whole words.
- Clocks and timers, argument parsing, trace files, printing, `execve`, real signals, and the remaining labs.
