# Verification models of the course repository

These Dafny modules model the hard, self-contained algorithms of this repository and prove what they promise.
`dafny verify dfyconfig.toml` checks all of them.

| part | modules |
|---|---|
| digits of pi: 64- and 128-bit arithmetic, modular powers, the map-reduce job | `Words`, `NumberTheory`, `CudaPiMath`, `Int128Words`, `Division`, `CudaPi`, `PiTerms`, `PiDigits` |
| in-place LU factorisation and the finite-element solver | `LinearSolve`, `Stiffness` |
| the heap allocator | `Sequences`, `HeapLayout`, `HeapEffects`, `Coalescing`, `HeapHeaders`, `Allocator` |
| the deadlock-resistant mutex and the cycle checks | `Graphs`, `DrmCycles`, `DeadlockMutex`, `Parmake` |
| semaphore with a maximum, barrier, bounded queue | `Semamore`, `Barrier`, `BoundedQueue` |
| the two password crackers | `Ranges`, `SearchSpace`, `CandidateLoop`, `Cracker1`, `Cracker2`, `CrackerSessions` |
| reduction of a list by several threads | `ParReduce` |
| the translation lookaside buffer | `TlbOrder`, `Tlb` |
| block allocation of minixfs | `BlockRefs`, `BlockGrowth`, `MiniFs` |
| map-reduce on files | `Splitter`, `MapReduce` |
| vector and sstring | `Vector`, `SString` |

Code that changes state is modelled by methods and classes with the same fields, loops and branches; each is
proved against a function on values, and the theorems are about those functions. Programs with threads are step
systems: a step is a stretch of code that holds the lock, any thread may take the next step, and a run is any
sequence of steps.

## How the models read the code

- Machine words are integers with the wrap-around written out (`% B32`, `% B64`). Only the portable C paths of
  `pidigits.h` are modelled. The reciprocal that `recipNewton` computes is taken to be floor(2^128 / divisor).
- `divide` keeps the low 64 bits of what its estimate leaves over. It is exact precisely when that value is below
  2^64, which holds for every divisor up to 2^63. Otherwise its quotient is one too small and its remainder off by
  2^64 minus the divisor, and `fraction` is one too small. `DivideLosesRemainder` is an input for which it happens.
- `modPow2` is exact for every modulus from 1 to 2^63 except on the inputs of `CudaPi.MissesRemainder`: exponent 0
  with modulus 1, exponent 1 with modulus 2, and odd moduli from 2^62 on, for which `2 << s` wraps to 0. For even
  moduli above 2^63 its result is `EvenValue`: right as long as no reduction loses its remainder (`NoLoss`), wrong if
  the last one is the first that does; `ModPow2LosesRemainder` is such a power. For odd moduli above 2^63 the code
  shifts a word by 64, which is undefined and not part of the model.
- Products such as `max * thread_id` and `length * idx`, and the sizes of vectors, strings, queues and files, are
  taken not to overflow their words.
- `create_pi_input.py` is read as Python 2 (`/` on integers is integer division). Its loop ends exactly for positive
  chunk sizes. Target digits are below 2^58, so that every modulus of the mapper stays below 2^62. The mapper reads
  `count` into an `int`: the theorems about the job are for the chunk sizes that are below 2^31, or that exceed the
  number of iterations when that is below 2^31 (`ChunksFit`: those are all for which every count fits).
- The matrices hold exact reals, and elimination meets no zero pivot; the code checks neither.
- `sbrk` succeeds and is contiguous, and the first header is at address 0 of the region. Addresses and sizes are
  unbounded. The contents of a header are kept beside the region: writing one changes 48 unspecified bytes of it.
- `resize` does not look at the last block, so it can make a pair of neighbouring free blocks; `malloc` takes the new
  block from its start before it returns, so that no such pair is left between calls.
- `realloc` cuts at the unrounded size; `ReallocAligned` says exactly when that loses the 16-byte alignment, and
  `RunLosesAlignment` is a run in which it does: malloc of 100 bytes, then realloc to 121.
- The last statement of `isCyclic` in `libdrm.c` gives a parameter a new value, so visited vertices stay visited.
  `DrmCycles.IsCyclic` says what that computes on every graph; in the resource graph, where no vertex has two
  successors, it is right. The `isCyclic` of `parmake.c` takes vertices out again and is right on every graph.
- `drm_post` returns 1 for any thread and drm that are in the graph, whether or not the thread holds the drm; the
  header file says 0 for threads that cannot unlock. The model follows the code; `PostResultIff` says exactly where
  the two agree, and `PostWithoutLock` that there are threads for which they do not.
- `semm_init` is called with a value between 0 and the maximum.
- `barrier_wait` has no loop around its wait. With exactly `n_threads` threads a run is safe if and only if no thread
  that wakes up without a broadcast goes on before the barrier opens (`Barrier.SafeIff`).
- The loop of `cracker1.c` over the completions of a hint comes to an end only if some known letter is not a z or
  some completion has the hash: incrementing a string of z's leaves it as it is. `hashCount` is an `int`, so the loop
  has to end before 2^31 passes; beyond them it is undefined. `CandidateLoop.EndsIff` puts both together, and
  `EndsForEveryHash` says which hints are safe for every hash: those with a known letter that is not a z and at most
  six unknown letters. The program can come to its end if and only if the loop ends for every task
  (`Cracker1.ExitsIff`); it does not for the hint `.` and a hash that no letter has (`SingleDotHangs`). There are fewer
  than 2^31 tasks, so that numSuccessful and numFailed do not overflow.
- In `cracker2.c` the variables `hash_count`, `fail` and `password` are read and written under the mutex. `hash_count`
  and the counters of the threads are `int`s. A run consists of steps that keep them below 2^31; `Cracker2.OverflowIff`
  says exactly for which searches some run comes to a step that does not, and `FitsForEveryHash` that for up to six
  unknown letters there is none, whatever the hash.
- `password` is freed after every user and never reset, and only a match gives it a new string. So the session does
  something undefined, a second free of the same string, when a user without a match comes after one with a match.
  `CrackerSessions.BreaksIff` gives the exact condition for a session to stay defined, `SecondFree` two users for which
  it does not.
- Lines of input fit the buffers of the crackers: hints have at most eight characters. The hash function is any
  function on strings.
- `par_reduce` divides by zero for an empty list or no threads. Lengths fit an `int`, and a reducer is a function.
- The list of the translation lookaside buffer starts with a node for page 0 without an entry. The first access of
  page 0 promotes that node before it inserts its own; the order of last use in `TlbOrder` has a key for it.
- `add_single_indirect_block` sets the link count to 1. The models count a file as live while its link count is
  positive. `first_unused_data` returns any free block.
- Strings hold no character 0, and the graph, set and dictionary libraries are finite maps and sets.

## Model

| member | source | states |
|---|---|---|
| CudaPiMath.Split64 | CS_241/mapreduce/pi/pidigits.h:86-104 | the two words joined give the number back, and no other two words do |
| CudaPiMath.AddCarryOut | CS_241/mapreduce/pi/pidigits.h:106-111 | result and carry together are the exact sum |
| CudaPiMath.AddCarryInOut | CS_241/mapreduce/pi/pidigits.h:113-121 | result and carry together are the exact sum of the operands and the incoming carry |
| CudaPiMath.AddCarryOut64 | CS_241/mapreduce/pi/pidigits.h:128-133 | the same for 64 bits |
| CudaPiMath.AddCarryInOut64 | CS_241/mapreduce/pi/pidigits.h:135-143 | the same with an incoming carry for 64 bits |
| CudaPiMath.SubBorrowOut | CS_241/mapreduce/pi/pidigits.h:150-155 | result and borrow together are the exact difference |
| CudaPiMath.SubBorrowInOut | CS_241/mapreduce/pi/pidigits.h:157-165 | the same with an incoming borrow |
| CudaPiMath.MultFull64 | CS_241/mapreduce/pi/pidigits.h:214-257 | the two result words are the exact 128-bit product |
| CudaPiMath.CountLeadingZeros64 | CS_241/mapreduce/pi/pidigits.h:271-313 | the count locates the highest set bit exactly |
| CudaPiMath.HighestSetBit64 | CS_241/mapreduce/pi/pidigits.h:318-320 | the result is the largest power of two not above the word |
| Int128Words.Int128.Less | CS_241/mapreduce/pi/pidigits.h:449-463 | comparison by words is comparison of the 128-bit values |
| Int128Words.Add | CS_241/mapreduce/pi/pidigits.h:547-573 | the sum modulo 2^128 |
| Int128Words.AddSmall | CS_241/mapreduce/pi/pidigits.h:519-545 | the sum with a small number modulo 2^128, with the carry passed on by comparisons |
| Int128Words.Sub | CS_241/mapreduce/pi/pidigits.h:583-595 | the difference modulo 2^128 |
| Int128Words.Mult64 | CS_241/mapreduce/pi/pidigits.h:601-606 | the exact product of two words |
| Int128Words.Mult128 | CS_241/mapreduce/pi/pidigits.h:863-896 | the two results are the exact 256-bit product |
| Int128Words.Mult128Hi | CS_241/mapreduce/pi/pidigits.h:898-907 | the product divided by 2^128 |
| Int128Words.Mult128Lo | CS_241/mapreduce/pi/pidigits.h:909-920 | the product modulo 2^128 |
| Int128Words.MultU64 | CS_241/mapreduce/pi/pidigits.h:922-930 | the product with a word modulo 2^128 |
| Int128Words.Shl | CS_241/mapreduce/pi/pidigits.h:479-492 | multiplication by a power of two modulo 2^128 |
| Int128Words.Shr | CS_241/mapreduce/pi/pidigits.h:494-507 | division by a power of two |
| Division.EstimateIsClose | CS_241/mapreduce/pi/pidigits.h:1002-1010 | the quotient estimated with the reciprocal is the true one or one less: one correction step is enough |
| Division.Divide | CS_241/mapreduce/pi/pidigits.h:1002-1010 | quotient and remainder are exact if what the estimate leaves over fits 64 bits; otherwise the quotient is one too small and the remainder off by 2^64 - divisor |
| Division.DividedExactly | CS_241/mapreduce/pi/pidigits.h:1002-1010 | so they are exact if and only if it fits, and for all divisors up to 2^63 it does |
| Division.DivideLosesRemainder | CS_241/mapreduce/pi/pidigits.h:1002-1010 | a divisor above 2^63 for which it does not fit |
| Division.DivMod | CS_241/mapreduce/pi/pidigits.h:948-964 | all ones for 0, exact for 1, and from 2 on what divide computes, with the same condition |
| CudaPi.InverseStart | CS_241/mapreduce/pi/pidigits.h:1022-1024 | the start value inverts -m modulo 8 for every odd m |
| CudaPi.NewtonDoubles | CS_241/mapreduce/pi/pidigits.h:1025-1029 | each pass doubles the number of right low bits |
| CudaPi.FixedPointIsInverse | CS_241/mapreduce/pi/pidigits.h:1025-1030 | a value that the iteration leaves alone is right in all bits, because it is odd |
| CudaPi.Inverse | CS_241/mapreduce/pi/pidigits.h:1022-1031 | the loop ends for every odd m and returns x < R with m * x = -1 modulo R |
| CudaPi.MontgomeryMult | CS_241/mapreduce/pi/pidigits.h:1039-1074 | result < m and result * R congruent to the product modulo m, without leaving 128 bits |
| CudaPi.MontgomeryModPow2 | CS_241/mapreduce/pi/pidigits.h:1114-1144 | 2^p modulo m for odd m below 2^62; 0 from there to 2^63 |
| CudaPi.ModPow2 | CS_241/mapreduce/pi/pidigits.h:1078-1100 | 1 for exponent 0; for moduli up to 2^63 the remainder of 2^exponent, if and only if the input is none of the listed exceptions; for even moduli above, the value of the even path, which is the remainder as long as no reduction loses it |
| CudaPi.EvenValueExact | CS_241/mapreduce/pi/pidigits.h:1083-1099 | as long as no reduction loses its remainder the even path holds the power modulo the modulus |
| CudaPi.LastLossShows | CS_241/mapreduce/pi/pidigits.h:1083-1099 | if the reduction of the last round is the first that loses its remainder, the result is wrong, whether or not that round doubles it |
| CudaPi.ModPow2LosesRemainder | CS_241/mapreduce/pi/pidigits.h:1083-1099 | a modulus above 2^63 and an exponent for which that happens |
| CudaPi.Fraction | CS_241/mapreduce/pi/pidigits.h:1155-1166 | for every divisor: the top 64 bits of the fractional part of the quotient, if and only if what the division leaves over fits 64 bits, as it does up to 2^63; otherwise one less modulo 2^64 |
| PiTerms.ComputeTerms | CS_241/mapreduce/pi/mapper_pi.cpp:13-36 | the sum of the scaled fractional terms, each cut to 64 bits, modulo 2^64, for every count that fits an int |
| PiTerms.RoundingLoss | CS_241/mapreduce/pi/mapper_pi.cpp:21-30 | cutting loses less than one unit per term against the exact real sum |
| PiTerms.ComputeTail | CS_241/mapreduce/pi/mapper_pi.cpp:39-57 | the loop stops early and still returns the sum of the whole tail |
| PiTerms.TailIsFinite | CS_241/mapreduce/pi/mapper_pi.cpp:49-54 | every longer tail has the same sum |
| PiTerms.PrintTermChunks | CS_241/mapreduce/pi/create_pi_input.py:40-58 | the lines printed are the chunks, followed by the end marker |
| PiTerms.ChunksTile | CS_241/mapreduce/pi/create_pi_input.py:43-52 | for every chunk size the chunks cover the iterations without gap or overlap, none of them empty |
| PiTerms.ChunkIs | CS_241/mapreduce/pi/create_pi_input.py:43-52 | chunk i begins at i times the chunk size, every chunk but the last has that size, and the last one ends with the iterations |
| PiTerms.ChunkingEndsIff | CS_241/mapreduce/pi/create_pi_input.py:43-52 | the loop that cuts the iterations ends if and only if the chunk size is positive |
| PiTerms.ChunksFit | CS_241/mapreduce/pi/create_pi_input.py:44-52 | every count fits an int if and only if the chunk size or the number of iterations does |
| PiTerms.Mapper | CS_241/mapreduce/pi/mapper_pi.cpp:60-90 | the signed value of one input line, the round-off correction included |
| PiTerms.LineValueIs | CS_241/mapreduce/pi/mapper_pi.cpp:74-87 | it is the sum of the terms, or of the tail for the end marker, corrected by the target digit for the tail of the first series only, and negated for the other series |
| PiTerms.Reduce | CS_241/mapreduce/pi/reducer_pi.cpp:24-34 | the sum of all values modulo 2^64 |
| PiTerms.ChunksAddUp | CS_241/mapreduce/pi/mapper_pi.cpp:60-90 | however the iterations are cut into chunks whose counts fit an int, their values add up to the sum of all terms |
| PiTerms.JobIsDigitWord | CS_241/mapreduce/pi/create_pi_input.py:34-37 | the records of all four series add up to the combined sum, for every target digit below 2^58 and every chunk size whose counts fit an int |
| PiTerms.ResultIsDigitWord | CS_241/mapreduce/pi/reducer_pi.cpp:24-34 | for every target digit below 2^58 the job's result depends neither on the order of the records nor on the chunk size, among those whose counts fit an int |
| PiTerms.MapJob | CS_241/mapreduce/pi/create_pi_input.py:34-58 | the mapper on all lines that are printed returns exactly the records of the job |
| PiTerms.Job | CS_241/mapreduce/pi/reducer_pi.cpp:24-34 | the whole job, from the target digit to the word, returns the combined sum modulo 2^64 |
| PiDigits.SeriesError | CS_241/mapreduce/pi/mapper_pi.cpp:13-90 | what the terms and the tail of a series add up to is its exact sum scaled by 2^64, up to whole multiples of 2^64 and less than one unit per term |
| PiDigits.CombinedIsBbp | CS_241/mapreduce/pi/create_pi_input.py:34-37 | S0 - S1 - S2 - S3 is 2^64 * 16^d times the Bailey-Borwein-Plouffe sum for pi |
| PiDigits.ResultIsPi | CS_241/mapreduce/pi/reducer_pi.cpp:24-34 | the final word of the job is that number modulo 2^64, within 2 * d + 54 units, for every target digit d below 2^58 and every order of the records |
| LinearSolve.StageTelescopes | CS_357/MP2 code.py:108-112 | an entry after t rounds is the original one minus the products of the factors found so far |
| LinearSolve.FinalStageFactors | CS_357/MP2 code.py:101-114 | the two factors stored in the final matrix multiply back to the original one |
| LinearSolve.EliminateRow | CS_357/MP2 code.py:110-112 | one pass over a row changes that row only, from the pivot column on |
| LinearSolve.MyLu | CS_357/MP2 code.py:101-114 | L * U = A for every A whose elimination meets no zero pivot |
| LinearSolve.ForwardSubstitute | CS_357/MP2 code.py:132-136 | the result solves the unit lower triangular system |
| LinearSolve.BackSubstitute | CS_357/MP2 code.py:138-142 | the result solves the upper triangular system |
| LinearSolve.SolutionOfFactors | CS_357/MP2 code.py:117-145 | solving with both factors in turn solves A x = b |
| LinearSolve.MyTriangularSolve | CS_357/MP2 code.py:117-145 | A x = b for the matrix whose factors are given |
| LinearSolve.FeaSolve | CS_357/MP2 code.py:148-160 | both block equations of the partitioned system hold |
| Stiffness.ReorderRowsColumns | CS_357/MP2 code.py:14-21 | entry (i, j) is the entry of the original matrix under the equation numbers |
| Stiffness.PartitionStiffnessMatrix | CS_357/MP2 code.py:30-51 | the four results are the blocks of the reordered matrix |
| Stiffness.SumPermuted | CS_357/MP2 code.py:14-21 | a sum does not change when its terms are taken in the order of the equation numbers |
| Stiffness.OriginalSystem | CS_357/MP2 code.py:30-51 | a solution of the block equations solves the whole system in its original numbering |
| HeapLayout.TiledDisjoint | CS_241/malloc/alloc.c:12-20 | blocks of a tiling never overlap, headers included |
| HeapLayout.TiledSum | CS_241/malloc/alloc.c:12-20 | payloads and headers add up to the region |
| HeapLayout.FirstFitIsFirst | CS_241/malloc/alloc.c:108-121 | the search finds a block that is large enough, and no earlier one is |
| HeapLayout.FitAfterGrow | CS_241/malloc/alloc.c:124-130 | after resize the search finds the new block: malloc calls itself at most once |
| HeapLayout.MallocKeeps | CS_241/malloc/alloc.c:87-133 | malloc keeps the invariant, touches no live block and adds one of at least the wanted size |
| HeapLayout.FreeKeeps | CS_241/malloc/alloc.c:149-183 | free keeps the invariant and takes exactly one live block away |
| HeapLayout.ReallocKeeps | CS_241/malloc/alloc.c:230-272 | realloc keeps the invariant and replaces one live block by one of at least the wanted size |
| HeapLayout.MallocAligned | CS_241/malloc/alloc.c:87-133 | malloc keeps all blocks aligned to 16 bytes |
| HeapLayout.FreeAligned | CS_241/malloc/alloc.c:149-183 | free keeps all blocks aligned to 16 bytes |
| HeapLayout.ReallocAligned | CS_241/malloc/alloc.c:245-268 | realloc loses the alignment if and only if it cuts an extended block at an unaligned size |
| HeapLayout.RunLosesAlignment | CS_241/malloc/alloc.c:245-268 | a run of two calls in which it does |
| HeapEffects.MallocIs | CS_241/malloc/alloc.c:87-131 | malloc takes the first block on the list that is large enough for the size rounded up to 16, or the first or another piece of sbrk of exactly the size the code asks for; it cuts the block exactly if more than 96 bytes are left, and the rest is last on the list |
| HeapEffects.FreeIs | CS_241/malloc/alloc.c:149-183 | free makes one block of the block and its free neighbours, which leave the list, and that block is last on it |
| HeapEffects.ReallocIs | CS_241/malloc/alloc.c:230-272 | realloc leaves the block where it is if and only if it is large enough, or its right neighbour is free and the two payloads and a header hold the size; it is cut like a block that malloc takes; otherwise the result and the state are those of malloc and then free |
| HeapLayout.EveryRun | CS_241/malloc/alloc.c:87-290 | in every state of every run the blocks tile the region, their sizes add up to it, and the free list holds exactly the free blocks, once each |
| HeapLayout.RunsKeepAligned | CS_241/malloc/alloc.c:87-183 | runs without realloc keep all blocks aligned |
| Coalescing.RunsStayCoalesced | CS_241/malloc/alloc.c:87-290 | in every state of every run no two neighbouring blocks are both free |
| Coalescing.MallocPairs | CS_241/malloc/alloc.c:108-131 | malloc leaves no pair of free neighbours, although resize may make one on the way |
| Coalescing.ResizeMakesPair | CS_241/malloc/alloc.c:274-290 | resize makes such a pair exactly when the last block is free |
| HeapHeaders.SkipFree | CS_241/malloc/alloc.c:322-345 | the links left by removefromlist are those of the list without the block, at both ends too |
| HeapHeaders.SplitIsChained | CS_241/malloc/alloc.c:292-309 | the links left by split are those of the chain with the block cut in two |
| HeapHeaders.CoalescedIsChained | CS_241/malloc/alloc.c:311-320 | the links left by coalesce are those of the chain with the two blocks joined |
| HeapHeaders.BlockOutside | CS_241/malloc/alloc.c:292-309 | writing inside one block leaves the payloads of all others as they are |
| HeapHeaders.FreeDone | CS_241/malloc/alloc.c:160-182 | all four ways through free end in the state of the specification |
| Allocator.Heap.RemoveFromList | CS_241/malloc/alloc.c:322-345 | chain and list stay well linked; the list loses the block |
| Allocator.Heap.AddToList | CS_241/malloc/alloc.c:347-360 | chain and list stay well linked; the block is the last of the list |
| Allocator.Heap.Split | CS_241/malloc/alloc.c:292-309 | chain and list stay well linked; the rest is a free block of its own |
| Allocator.Heap.Coalesce | CS_241/malloc/alloc.c:311-320 | chain and list stay well linked; two blocks have become one |
| Allocator.Heap.Resize | CS_241/malloc/alloc.c:274-290 | one more free block at the end; the bytes of the region are kept |
| Allocator.Heap.Malloc | CS_241/malloc/alloc.c:87-133 | the code with its pointers does what the function on blocks does, and changes no payload of a live block |
| Allocator.Heap.Free | CS_241/malloc/alloc.c:149-183 | the same for free; no byte of the region changes |
| Allocator.Heap.Realloc | CS_241/malloc/alloc.c:230-272 | the same for realloc, on all its paths: other payloads are kept, and so are the first min(old, new) bytes |
| Allocator.Heap.Calloc | CS_241/malloc/alloc.c:55-64 | the same for calloc; the payload is zero |
| Graphs.HitsStep | CS_241/parallel_make/parmake.c:31-56 | a walk meets the path or itself if and only if one from some successor does, with the vertex on the path |
| Graphs.SharingIsCycle | CS_241/deadlock_demolition/libdrm.c:17-31 | with one successor per vertex, two walks to one vertex are the same as a cycle |
| Graphs.NewEdge | CS_241/deadlock_demolition/libdrm.c:73-82 | an edge keeps a graph acyclic if and only if its end did not reach its start |
| Parmake.Make.IsCyclic | CS_241/parallel_make/parmake.c:31-56 | true if and only if a walk from the file comes back to the path or to itself; after false the path is unchanged; it ends on every graph |
| Parmake.Make.CheckGoals | CS_241/parallel_make/parmake.c:178-188 | each goal is reported exactly if a cycle can be reached from it |
| DrmCycles.IsCyclic | CS_241/deadlock_demolition/libdrm.c:17-31 | on any graph: 0 if and only if no walk ends in a visited vertex and no two walks end in the same one |
| DrmCycles.DiamondHasNoCycle | CS_241/deadlock_demolition/libdrm.c:17-31 | a graph without a cycle on which that test fails |
| DeadlockMutex.OneSuccessor | CS_241/deadlock_demolition/libdrm.c:73-88 | every vertex of the resource graph has at most one successor |
| DeadlockMutex.WaitDecides | CS_241/deadlock_demolition/libdrm.c:73-82 | the cycle check fails if and only if the drm already leads to the thread |
| DeadlockMutex.StepKeeps | CS_241/deadlock_demolition/libdrm.c:33-93 | every step keeps the graph acyclic and its edges equal to who waits for and who holds what |
| DeadlockMutex.EveryRun | CS_241/deadlock_demolition/libdrm.c:33-93 | so in every state of every run of any number of threads |
| DeadlockMutex.NoCircularWait | CS_241/deadlock_demolition/libdrm.c:67-93 | threads blocked on each other's locks never form a circle |
| DeadlockMutex.SomeoneMoves | CS_241/deadlock_demolition/libdrm.c:67-93 | whatever a blocked thread waits for depends on a thread that is not blocked |
| DeadlockMutex.LibDrm.Init | CS_241/deadlock_demolition/libdrm.c:33-43 | the new vertex is added; edges, owners and threads stay as they are, and the invariant holds |
| DeadlockMutex.LibDrm.TryWait | CS_241/deadlock_demolition/libdrm.c:67-82 | returns 0 if and only if the drm leads to the thread, which is when its edge would close a cycle, and then no edge, owner or thread changes; otherwise 1, with exactly that edge added and the thread blocked |
| DeadlockMutex.LibDrm.Lock | CS_241/deadlock_demolition/libdrm.c:83-83 | a free lock gets its owner between the two critical sections; the graph does not change and the invariant holds |
| DeadlockMutex.LibDrm.FinishWait | CS_241/deadlock_demolition/libdrm.c:84-88 | the edge from the thread to the drm is exchanged for one back, nothing else changes, and the graph is still acyclic |
| DeadlockMutex.LibDrm.PostDrm | CS_241/deadlock_demolition/libdrm.c:46-65 | the drm loses its owner and its edge to the thread exactly if the thread held it, and nothing else changes; the result is 1 exactly for two known vertices |
| DeadlockMutex.PostResultIff | CS_241/deadlock_demolition/libdrm.c:46-65 | for threads and drms in the graph the result says whether the thread could unlock the drm if and only if it could |
| DeadlockMutex.PostWithoutLock | CS_241/deadlock_demolition/libdrm.c:46-65 | a run at whose end it could not, because it has posted the drm already, and the result is still 1 |
| Semamore.StepKeeps | CS_241/critical_concurrency/semamore.c:30-51 | every step keeps the value in range, and enough woken threads beside sleeping ones |
| Semamore.ValueIsBalance | CS_241/critical_concurrency/semamore.c:30-51 | in every run: the value is the initial one, plus 1 for each call of semm_post and minus 1 for each call of semm_wait that has gone through, counted from the events |
| Semamore.NoLostWakeup | CS_241/critical_concurrency/semamore.c:30-51 | in every run: sleeping waiters imply value 0; sleeping posters imply a full semamore or a woken poster |
| Semamore.SignalInPostLosesWakeup | CS_241/critical_concurrency/semamore.c:49-49 | with a signal in place of the broadcast this would fail |
| Semamore.Semamore.Wait | CS_241/critical_concurrency/semamore.c:30-37 | it goes through exactly if the value is above 0, and takes 1 from it then; the thread sleeps or leaves, the threads signalled are woken, and no other thread moves |
| Semamore.Semamore.Post | CS_241/critical_concurrency/semamore.c:44-51 | it goes through exactly if the value is below the maximum, and adds 1 to it then; the thread sleeps or leaves, and all sleeping threads are woken |
| Barrier.StepKeeps | CS_241/critical_concurrency/barrier.c:26-42 | every step keeps all threads within one round of each other |
| Barrier.CountsOfRun | CS_241/critical_concurrency/barrier.c:26-42 | in every run the counts of a thread are the numbers of its calls that have begun and ended, counted from the events |
| Barrier.NobodyLeavesEarly | CS_241/critical_concurrency/barrier.c:26-42 | in every run without spurious wakeups no thread leaves round k before all have entered it |
| Barrier.SpuriousWakeupBreaksIt | CS_241/critical_concurrency/barrier.c:33-35 | in every state of such a run and for every sleeping thread: if it wakes up without a broadcast and goes on, it leaves a round that another has not entered |
| Barrier.SafeIff | CS_241/critical_concurrency/barrier.c:26-42 | for every run, with any wakeups: no thread ever leaves a round that another has not entered if and only if no thread that woke up without a broadcast goes on before the barrier opens |
| Barrier.Barrier.Enter | CS_241/critical_concurrency/barrier.c:26-35 | the last thread does not block, sets the count to 0 and wakes all others; any other adds 1 to it and sleeps |
| BoundedQueue.Queue.Push | CS_241/critical_concurrency/queue.c:65-87 | blocked exactly if full, and asleep then; otherwise the element goes behind all others and every sleeping thread is woken; the linked list holds the elements in order |
| BoundedQueue.Queue.Pull | CS_241/critical_concurrency/queue.c:89-112 | blocked exactly if empty; otherwise the head is returned and the rest stays in order |
| BoundedQueue.StepKeeps | CS_241/critical_concurrency/queue.c:65-112 | every step keeps the bound, and sleeping threads only where they have to sleep |
| BoundedQueue.EveryRun | CS_241/critical_concurrency/queue.c:65-112 | under any interleaving: the data of the pushes that found room, in the order of the events, are what the pulls have returned, in order, and behind it what is in the queue |
| CandidateLoop.EndsIff | CS_241/password_cracker/cracker1.c:42-58 | the loop ends before hashCount overflows if and only if some known letter is not a z or some completion has the hash, and the passes up to there are fewer than 2^31 |
| CandidateLoop.EndsForEveryHash | CS_241/password_cracker/cracker1.c:42-58 | for a hint: it does so for every hash and hash function if and only if some known letter is not a z and at most six letters are unknown |
| CandidateLoop.EndedSearch | CS_241/password_cracker/cracker1.c:42-58 | when it has ended, fail says exactly whether no completion has the hash, hashCount is the number of passes up to the first match or over all completions, and the text is that match |
| CandidateLoop.HashedOnce | CS_241/password_cracker/cracker1.c:42-58 | pass i hashes completion i, and no two passes hash the same string |
| CandidateLoop.SearchGoesOn | CS_241/password_cracker/cracker1.c:54-57 | if neither holds the last completion is hashed again and again |
| CandidateLoop.SingleDotNeverEnds | CS_241/password_cracker/cracker1.c:54-57 | so for the hint "." and a hash that no letter has: from pass 25 on the string is "z", and no pass is the last |
| CandidateLoop.TryOne | CS_241/password_cracker/cracker1.c:43-57 | the body of the loop, in place, is one pass of the specification |
| CandidateLoop.Crack | CS_241/password_cracker/cracker1.c:36-58 | for every hint whose loop ends before hashCount overflows: the first completion that has the hash, or fail if there is none, and hashCount stays an int |
| Cracker1.ActKeeps | CS_241/password_cracker/cracker1.c:24-71 | every action keeps the tasks in order, and at most one worker in possession of the null pointer |
| Cracker1.InvKeeps | CS_241/password_cracker/cracker1.c:24-71 | every action keeps the counters: each task taken is counted under what becomes of its search, or a worker is busy with it |
| Cracker1.Shutdown | CS_241/password_cracker/cracker1.c:69-103 | the tasks are taken in order, each once, and never more are counted than taken; when all workers have exited every search has ended, numSuccessful counts exactly the tasks with a match, numFailed the others, and one null pointer is left |
| Cracker1.RunsAreShort | CS_241/password_cracker/cracker1.c:24-71 | if all searches end: the passes and other actions of a run are bounded by an exact count, and until all workers have exited one is possible |
| Cracker1.ExitsIff | CS_241/password_cracker/cracker1.c:24-103 | the workers can all exit if and only if the loop ends for every task before hashCount overflows |
| Cracker1.SingleDotHangs | CS_241/password_cracker/cracker1.c:42-58 | with a task whose loop does not end no run comes to that point |
| Ranges.RangesCover | CS_241/password_cracker/libs/utils.c:74-85 | every position lies in the range of some thread |
| Ranges.RangesDisjoint | CS_241/password_cracker/libs/utils.c:74-85 | and of only one |
| Ranges.EndIs | CS_241/password_cracker/libs/utils.c:80-84 | range i ends at the i-th of the equal parts, rounded down |
| Ranges.SharesAreEqual | CS_241/password_cracker/libs/utils.c:74-85 | the shares of two threads differ by at most one |
| SearchSpace.ValueOfDigits | CS_241/password_cracker/libs/utils.c:39-46 | the string at a position has that position |
| SearchSpace.DigitsOfValue | CS_241/password_cracker/libs/utils.c:39-46 | every string of letters is the one at its position |
| SearchSpace.DigitsWrap | CS_241/password_cracker/libs/utils.c:39-46 | positions from 26^k on wrap around |
| SearchSpace.IncrementedValue | CS_241/password_cracker/libs/utils.c:48-72 | incrementString adds 1 to the position and stops exactly at the last one |
| SearchSpace.IncrementedCompletion | CS_241/password_cracker/libs/utils.c:48-72 | within the unknown letters it leaves the known ones alone |
| SearchSpace.GetPrefixLength | CS_241/password_cracker/libs/utils.c:31-37 | the number of characters before the first dot |
| SearchSpace.SetStringPosition | CS_241/password_cracker/libs/utils.c:39-46 | the buffer holds the string at the position; what is before it is unchanged |
| SearchSpace.IncrementString | CS_241/password_cracker/libs/utils.c:48-72 | the buffer holds the next string; the result tells whether there is one |
| SearchSpace.GetSubrange | CS_241/password_cracker/libs/utils.c:74-85 | the range of the thread, within the search space |
| Cracker2.BuildTask | CS_241/password_cracker/cracker2.c:151-165 | the thread starts at the first completion of its range |
| Cracker2.StepKeeps | CS_241/password_cracker/cracker2.c:48-112 | every step keeps what is known about ruled-out completions, and the bounds on the hashes counted |
| Cracker2.Result | CS_241/password_cracker/cracker2.c:48-112 | under every interleaving of steps that do not overflow the search fails if and only if no completion has the hash; otherwise the password is one that has; hash_count is the number of hashes computed, and an int |
| Cracker2.FailedSearchIsComplete | CS_241/password_cracker/cracker2.c:71-107 | a search that fails without an overflow has hashed every completion, each exactly once, and nothing else |
| Cracker2.NoneTwice | CS_241/password_cracker/cracker2.c:71-107 | in every state of every run without an overflow no completion has been hashed twice |
| Cracker2.RunsEnd | CS_241/password_cracker/cracker2.c:71-110 | every run ends, and until all threads are at the barrier one of them can take a step; if the most hashes that the threads can compute are fewer than 2^31, no such step overflows |
| Cracker2.OverflowIff | CS_241/password_cracker/cracker2.c:71-107 | some run overflows if and only if the hashes that the threads compute when nobody stops them are 2^31 or more |
| Cracker2.MostHashesOf | CS_241/password_cracker/cracker2.c:71-107 | there are at most as many as completions, and exactly as many if nothing matches |
| Cracker2.FitsForEveryHash | CS_241/password_cracker/libs/utils.c:74-85 | for a hint and any number of threads: no run overflows, for any hash and hash function, if and only if at most six letters are unknown |
| CrackerSessions.EveryResultIsRight | CS_241/password_cracker/cracker2.c:135-179 | for any users and any interleaving: each result printed is right for its user, in order, the number of hashes included; and if no user without a match comes after one with a match, and the hashes can be counted, nothing undefined happens |
| CrackerSessions.BreaksIff | CS_241/password_cracker/cracker2.c:88-173 | some session frees a password twice or overflows a counter if and only if a user without a match comes after one with a match, or the hashes for some user cannot be counted |
| CrackerSessions.SecondFree | CS_241/password_cracker/cracker2.c:173-173 | two users after whom every session that gets that far is broken |
| CrackerSessions.SessionEnds | CS_241/password_cracker/cracker2.c:135-179 | every step lowers the number of steps left, and some step is possible exactly as long as the session is not broken and a user has no result; so under that condition all users get theirs |
| ParReduce.ParReduce | CS_241/teaching_threads/par_reduce.c:32-72 | division by zero exactly for an empty list or no threads; with pieces of one element the fold of the list; otherwise the fold of the folds of pieces of equal length, the last one with what remains |
| ParReduce.SameIff | CS_241/teaching_threads/par_reduce.c:32-72 | with a neutral base: the result is that of one thread for all lists and numbers of threads if and only if the function is associative |
| ParReduce.GivenReducers | CS_241/teaching_threads/reducers.c:12-30 | it is for the three reducers of the program |
| ParReduce.SubtractionDiffers | CS_241/teaching_threads/par_reduce.c:49-69 | a function and a list for which it is not |
| TlbOrder.AccessKeeps | CS_241/ideal_indirection/mmu.c:42-68 | a hit exactly if the page is among the most recently used keys; a hit gives the entry last inserted; the list stays in order |
| TlbOrder.RecencyOrder | CS_241/ideal_indirection/tlb.c:28-38 | the order of the keys is the order of last access |
| TlbOrder.DroppedIsOldest | CS_241/ideal_indirection/tlb.c:59-64 | a line is dropped only from a full list, and every other page in it has been used since |
| TlbOrder.EveryRun | CS_241/ideal_indirection/tlb.c:11-77 | in every run of accesses and flushes the list has 1 to 16 lines, in exact order of last use |
| Tlb.Tlb.Get | CS_241/ideal_indirection/tlb.c:11-44 | the relinked list is the one of the specification: the line found is at the front |
| Tlb.Tlb.Add | CS_241/ideal_indirection/tlb.c:46-72 | the new line is at the front; the last one is gone if the list was full |
| Tlb.Tlb.Flush | CS_241/ideal_indirection/tlb.c:74-77 | the list is as it was created |
| Tlb.Tlb.Translate | CS_241/ideal_indirection/mmu.c:48-68 | lookup and insertion after a miss are one access of the specification |
| BlockRefs.AssignKeeps | CS_241/finding_filesystems/minixfs_provided.c:18-79 | assigning a free block to the next slot of a file keeps the invariant |
| BlockRefs.AssignRefs | CS_241/finding_filesystems/minixfs_provided.c:18-79 | no other reference of any file changes |
| BlockRefs.FreeKeeps | CS_241/finding_filesystems/minixfs_utils.c:60-75 | freeing a file keeps the invariant for all others |
| BlockRefs.InitKeeps | CS_241/finding_filesystems/minixfs_utils.c:169-185 | a new file keeps the invariant, whatever its slots held before |
| BlockGrowth.OtherFilesUntouched | CS_241/finding_filesystems/minixfs_provided.c:81-125 | allocation for one file leaves the blocks of the others and their contents as they are |
| BlockGrowth.OneUser | CS_241/finding_filesystems/minixfs_utils.c:81-97 | a block is marked used if and only if a slot refers to it, and then exactly one does |
| BlockGrowth.EveryRun | CS_241/finding_filesystems/minixfs_provided.c:18-125 | so in every state of every run of allocating, freeing and creating |
| MiniFs.FileSystem.FirstUnusedData | CS_241/finding_filesystems/minixfs_utils.c:112-130 | a free block; -1 only if there is none |
| MiniFs.FileSystem.AddDataBlockToInode | CS_241/finding_filesystems/minixfs_provided.c:18-36 | the first empty direct slot gets a free block; nothing changes on the other exits |
| MiniFs.FileSystem.AddDataBlockToIndirectBlock | CS_241/finding_filesystems/minixfs_provided.c:38-56 | the same for the slots of the indirect block |
| MiniFs.FileSystem.AddSingleIndirectBlock | CS_241/finding_filesystems/minixfs_provided.c:58-79 | the indirect pointer gets a free block with empty slots, and the inode the link count 1, unless there is one already |
| MiniFs.FileSystem.MinBlockcount | CS_241/finding_filesystems/minixfs_provided.c:81-125 | succeeds exactly if as many blocks are free as slots are missing for the wanted number of data blocks and, from 11 on, the indirect block; then all of these are there, the new ones zero, and no other slot changes; the link count becomes 1 with a new indirect block; the call is a run of assignments, and the invariant and all used blocks survive the -1 exits too |
| MiniFs.FileSystem.FreeInode | CS_241/finding_filesystems/minixfs_utils.c:60-75 | exactly the blocks that the file referred to become free; the link count becomes 0, and slots and data stay |
| MiniFs.FileSystem.InitInode | CS_241/finding_filesystems/minixfs_utils.c:169-185 | a live file with link count 1 and without blocks; nothing else changes |
| Splitter.NextLine | CS_241/mapreduce/splitter.c:106-114 | the position behind the next newline, or the end |
| Splitter.WritePortion | CS_241/mapreduce/splitter.c:98-152 | the chunk with the given number |
| Splitter.CutsFine | CS_241/mapreduce/splitter.c:116-135 | no chunk ends before it begins, and every cut is at the end of a line or of the file |
| Splitter.CutIsNext | CS_241/mapreduce/splitter.c:106-135 | each cut is behind the first newline at or after its equal part of the file, or at the end |
| Splitter.ChunksAreTheFile | CS_241/mapreduce/splitter.c:116-152 | all chunks, one after the other, are the file |
| MapReduce.RunMapper | CS_241/mapreduce/core/mapper.c:12-33 | the records of all lines, without their line ends |
| MapReduce.LinesAre | CS_241/mapreduce/core/mapper.c:12-33 | the lines one after the other are the file, none is empty, and newlines are only at their ends |
| MapReduce.StripIs | CS_241/mapreduce/core/mapper.c:18-26 | a newline at the end of a line goes, and a return in front of it, and nothing else |
| MapReduce.MapSingle | CS_241/mapreduce/core/mapper.c:17-27 | the records of one line are those that the function makes of what is left of it |
| MapReduce.RunReducer | CS_241/mapreduce/core/reducer.c:22-60 | the datastore after all records |
| MapReduce.TotalsAreSums | CS_241/mapreduce/reducers/sum.c:10-17 | it holds exactly the keys that occur, each with the sum of its values |
| MapReduce.SplittingDoesNotMatter | CS_241/mapreduce/core/reducer.c:22-60 | for every file, number of chunks and order of records the totals are those of one mapper on the whole file |
| Vector.GetNewCapacity | CS_241/vector/vector.c:75-86 | the least power of two that is large enough |
| Vector.Vector.Reserve | CS_241/vector/vector.c:178-195 | the contents stay; the array is exchanged exactly if it was too small, for one of the least sufficient capacity |
| Vector.Vector.PushBack | CS_241/vector/vector.c:233-240 | one element longer at the end |
| Vector.Vector.Insert | CS_241/vector/vector.c:250-262 | the shifted array holds the contents with the element put in |
| Vector.Vector.Erase | CS_241/vector/vector.c:265-275 | the shifted array holds the contents without the element |
| SString.JoinOfPieces | CS_241/vector/sstring.c:52-70 | joining the pieces of a string with the delimiter gives the string back |
| SString.PiecesOfJoin | CS_241/shell/shell.c:50-70 | splitting a joined list gives the list back, if it is not empty and no element holds the delimiter |
| SString.Split | CS_241/vector/sstring.c:52-70 | the pieces between the delimiters, empty ones included |
| SString.Join | CS_241/shell/shell.c:50-70 | the joined string; no result exactly for the empty list |
| SString.Substitute | CS_241/vector/sstring.c:72-96 | the first occurrence at or after the offset is replaced and nothing else; -1 without a change exactly if there is none |

## Left out

- The seed and the convergence of `recipNewton`, the CUDA assembly and the Windows paths of `pidigits.h`.
- Floating point in `code.py`: the model is over exact reals. The input checks that numpy makes.
- CudaPi.ModPow2: odd moduli above 2^63, for which the code shifts a word by 64 places, which is undefined.
- Allocator.Heap.Free: takes only pointers that malloc handed out. For a null pointer the comment above `free` promises that nothing happens, but the code writes to a header in front of address 0, which is undefined.
- malloc failure, `size_t` overflow of requests, and what `free` does with pointers that malloc did not return.
- What a stray write to a header would do: headers are kept in a map beside the bytes of the region.
- `drm_destroy`, which changes the graph without the lock, and calls of `drm_post` with the id of another thread.
- `times_used` of the barrier, which is updated outside the lock.
- The system calls, file times and rule states of `parmake.c` (`check_failed`), and its worker threads.
- Printing, timing and thread status in both crackers, and the freeing of all memory but `password`.
- Page directories, swap files and real addresses of `mmu.c`; only its use of the translation lookaside buffer is modelled.
- `minixfs_write`, `minixfs_read`, path lookup and directory entries.
- MiniFs.FileSystem.MinBlockcount: takes an inode that exists and counts up to 22. For a path without an inode the code first makes one, which needs path lookup; for larger counts it reads words behind the slots of the indirect block, which hold no defined value.
- MiniFs.FileSystem.FirstUnusedData: the random search is modelled by its result, so its termination is not.
- Integer overflow and the text format of the numbers in `reducers/sum.c`, and the datastore of `libds.c`.
- The copy, default and destructor callbacks of the vector, with `vector_resize`, which is about them: elements are values.
- The wrap-around of `int` in the reducers of `reducers.c`, and the creation and joining of threads in `par_reduce.c`: each piece is reduced by a call.
- Networking, chat, the shell's process control, plotting and Monte Carlo scripts.
