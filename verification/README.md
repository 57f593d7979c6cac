# Verified model of the Mojo-V kernels and runtime

This project models the algorithmic core of the Mojo-V repository in Dafny and proves what that
code is for. An encrypted scalar is the 64-bit word it decrypts to, `cmov` is a selection, and the
fixed benchmark sizes are parameters, so every theorem is for all sizes. `dafny verify
dfyconfig.toml` checks everything.

| file | models |
|---|---|
| `Common.dfy`, `Bits.dfy`, `Digits.dfy` | shared definitions; the bitwise operators of C on natural numbers; digits in a base |
| `Bitonic.dfy` | the bitonic sorting network and the duplicate detector built on it |
| `SpanningTree.dfy`, `Prim.dfy` | minimum spanning trees, and Prim's algorithm with oblivious selection |
| `HeldKarp.dfy` | the Held-Karp travelling-salesman tables, the closing loop and the parent walk |
| `KCore.dfy` | k-core decomposition by a fixed number of peeling passes |
| `Lcs.dfy`, `EditDistance.dfy` | longest common subsequence and substring, edit distance |
| `FloodFill.dfy` | flood fill by a fixed number of raster sweeps |
| `Intrinsics.dfy`, `Exo.dfy` | RISC-V words, and the `inte_t` integers of 1 to 64 bits built on them |
| `StringE.dfy` | the packed encrypted string |
| `Sqrt.dfy` | the two-word, bit-by-bit square root |
| `Malloc.dfy` | the first-fit allocator with a shrinking break |
| `Printf.dfy`, `PrintStandard.dfy`, `Directives.dfy`, `Parsers.dfy` | the printer's state machine; what the C standard asks of it, and when it does that, down to the characters of a directive; `atol`, `strtol`, and the round trips |
| `Mersenne.dfy` | the Mersenne Twister on 32-bit and on 64-bit words |
| `Simon.dfy`, `Chaining.dfy`, `ContractText.dfy`, `DcTool.dfy` | SIMON, block chaining, the contract layout and file |

The loops of the source are loops here, over arrays or class fields; each is proved against a
function or a relation on sequences, and what the source promises is proved about that.

Places where the code and its own comments, or the standard it follows, differ; the model follows
the code:

- `minspan.cc:15` says that the algorithm works on graphs with several components; the code spans the component of vertex 0 and leaves the other entries of `path` alone (`Prim.SecondComponentIsLeft`; `Prim.SpansAllExactly` says when all vertices are spanned).
- `substr` wraps `pos + i` at 64 bits, so a position close to 2^64 copies from the start of the string (`StringE.SliceUnlessWrapped` says exactly when, and `StringE.SliceIsClean` when that leaves bytes past the size).
- `rfind` with an empty needle and a position beyond the size returns `npos`, not the size (`StringE.StringE.RFind`).
- A 1-bit signed `inte_t` represents true as -1 (`Exo.TruthIsNonzero`).
- `malloc` adds its header in 64 bits and hands the sum to a signed break; a huge request can get a block that does not lie in the heap (`Malloc.WrappedRequest` and `Malloc.BackwardRequest`; `Malloc.Heap.Malloc` says exactly when).
- `%s` with a width above its precision prints more than the precision allows (`PrintStandard.WidthBreaksPrecision`), a period with no precision behind it prints the whole string instead of nothing (`Directives.LonePeriodPrintsAll`), and a negative width or a precision below -1 from an argument is not read as the standard asks; `PrintStandard.PrecisionIsKept` gives the exact condition for all strings, and `Directives.StringDirectiveIsKept` for a directive of a format.
- Integer conversions ignore `#`, print a zero that precision 0 should leave out, let the zero flag win over the minus flag and the precision, and ignore negative widths; `PrintStandard.IntegerIsStandard` says exactly when an integer prints as the standard asks, `PrintStandard.WidthIsKept` when the least width is kept. `h` does not cut its argument (`PrintStandard.ShortIsNotCut`), and `%c` ignores its width (`Directives.CharacterDirective`).
- Integers of 20 or more digits lose their leading digits (`Parsers.ExactDigits` says exactly when a number is printed in full).
- Appending a string to itself repeats it until the capacity is full (`StringE.StringE.AppendSelf`).
- The digit table of `strtol` has `x` before `w`, so base 33 reads the wrong letter and the bases above it swap two values (`Parsers.BasesReadRight`).
- Flood fill with a colour that is already in the grid can also spread from the cells that have it (`FloodFill.OldColourFloodsToo`; `FloodFill.OnlyFromStart` says exactly when it does not, and `FloodFill.FloodFill` covers every colour).

## Model

| member | source | states |
|---|---|---|
| Bitonic.BitonicSorter.Sort | bringup-bench/bitonic-sort/bitonic-sort.cc:30-50 | for every size 2^m, m <= 30, and every input the array ends ascending and a permutation of the input, after exactly size * m * (m + 1) / 2 counted steps; the pairs of elements touched depend on the size alone |
| Bitonic.BitonicSorter.Merge | bringup-bench/bitonic-sort/bitonic-sort.cc:34-47 | the loop over j turns runs of size k/2 into runs of size k, alternating in direction, in log k sweeps |
| Bitonic.BitonicSorter.Sweep | bringup-bench/bitonic-sort/bitonic-sort.cc:36-46 | one in-place sweep is the parallel pass on the whole sequence and permutes it |
| Bitonic.BitonicSorter.CompareExchange | bringup-bench/bitonic-sort/bitonic-sort.cc:38-45 | the loop body exchanges exactly an out-of-order pair seen from its lower index |
| Bitonic.HalfCleaner | bringup-bench/bitonic-sort/bitonic-sort.cc:36-46 | a half-cleaner on a bitonic block leaves both halves bitonic and one half wholly on its side, at every threshold |
| Bitonic.PassStep | bringup-bench/bitonic-sort/bitonic-sort.cc:34-47 | a pass (k, j) orders the halves of every block of size 2j and keeps all sub-blocks bitonic |
| Bitonic.NextPhase | bringup-bench/bitonic-sort/bitonic-sort.cc:32 | runs of size k, up and down in turn, are bitonic blocks of size 2k |
| Bitonic.SweepIsPass | bringup-bench/bitonic-sort/bitonic-sort.cc:36-46 | the sequential in-place sweep equals the pass that reads only old values |
| Bitonic.IsDistinct | bringup-bench/distinctness-Onlog2n/distinctness.cc:136-151 | returns 1 iff all elements differ; otherwise dup is the smallest repeated value |
| Bitonic.ScanDecides | bringup-bench/distinctness-Onlog2n/distinctness.cc:142-150 | the descending scan of neighbours in the sorted array decides distinctness of the original one |
| SpanningTree.Exchange | bringup-bench/minspan/minspan.cc:64-77 | adding a lightest edge that leaves the tree built so far can be repaired in any spanning tree without making it heavier |
| SpanningTree.ExtendableTreeIsMinimum | bringup-bench/minspan/minspan.cc:47-78 | a spanning tree to which every spanning tree can be traded down is minimum |
| Prim.MinVal | bringup-bench/minspan/minspan.cc:26-43 | picks the first unknown vertex of least distance below INT_MAX and marks exactly it, or returns -1 |
| Prim.Relax | bringup-bench/minspan/minspan.cc:65-75 | the two inner loops let exactly the chosen vertex improve distances and links of unknown vertices |
| Prim.RelaxStep | bringup-bench/minspan/minspan.cc:65-75 | after relaxing, every unknown vertex holds its cheapest link into the whole tree |
| Prim.GrowStep | bringup-bench/minspan/minspan.cc:71-76 | adding the picked vertex keeps the tree part of a minimum spanning tree |
| Prim.NoneLeft | bringup-bench/minspan/minspan.cc:26-43 | when nothing is picked the tree is a minimum spanning tree of the component of vertex 0 |
| Prim.MinSpanTree | bringup-bench/minspan/minspan.cc:47-78 | for every symmetric graph the edges (i, path[i]) form a minimum spanning tree of the component of 0; path is untouched elsewhere; the entries touched depend on the number of vertices alone |
| Prim.SpansAllExactly | bringup-bench/minspan/minspan.cc:14-15 | the tree connects every vertex of the graph exactly when vertex 0 reaches them all |
| Prim.SecondComponentIsLeft | bringup-bench/minspan/minspan.cc:47-78 | a graph of two components where the edge of the second one is not found |
| HeldKarp.HeldKarpTsp | bringup-bench/heldkarp-tsp/heldkarp-tsp.cc:33-79 | fills both tables with the recurrence, mask by mask |
| HeldKarp.FillEntry | bringup-bench/heldkarp-tsp/heldkarp-tsp.cc:43-77 | the loop body with all its skips gives the entry of one mask and last city |
| HeldKarp.BestPrevious | bringup-bench/heldkarp-tsp/heldkarp-tsp.cc:64-72 | the innermost loop finds the cheapest previous city, the first of equals |
| HeldKarp.NoPathIsCheaper | bringup-bench/heldkarp-tsp/heldkarp-tsp.cc:27-79 | no path over exactly the mask's cities costs less than its entry |
| HeldKarp.TraceIsCheapest | bringup-bench/heldkarp-tsp/heldkarp-tsp.cc:29-79 | below the cap the parents trace a path of exactly the entry's cost |
| HeldKarp.EntryIsCappedOptimum | bringup-bench/heldkarp-tsp/heldkarp-tsp.cc:27-79 | dp[mask][end] is the minimum path cost, capped at TSP_INF |
| HeldKarp.CloseCycle | bringup-bench/heldkarp-tsp/heldkarp-tsp.cc:101-110 | the closing loop finds the cheapest last city |
| HeldKarp.CycleIsCappedOptimum | bringup-bench/heldkarp-tsp/heldkarp-tsp.cc:101-110 | best_cycle is the minimum Hamiltonian cycle cost, capped, and its parents trace such a cycle |
| HeldKarp.WalkParents | bringup-bench/heldkarp-tsp/heldkarp-tsp.cc:119-127 | the printed cities, read backwards after city 0, are the traced path |
| HeldKarp.BestTour | bringup-bench/heldkarp-tsp/heldkarp-tsp.cc:82-132 | the reported cost is no more than any tour's and, below the cap, the printed tour visits every city once and costs exactly that |
| KCore.KcoreDecompose | bringup-bench/kcore-decomp/kcore-decomp.cc:57-103 | core_label[v] is the largest k <= MAX_K such that v lies in a set whose members each have k valid slots into it, for any neighbour table; the entries touched depend on the numbers of vertices and slots and on MAX_K alone |
| KCore.Round | bringup-bench/kcore-decomp/kcore-decomp.cc:67-99 | as many passes as vertices always reach the greatest fixed point for k |
| KCore.Pass | bringup-bench/kcore-decomp/kcore-decomp.cc:69-98 | a pass peels and labels exactly the active vertices with fewer than k active slots, by the old flags |
| KCore.CountSlots | bringup-bench/kcore-decomp/kcore-decomp.cc:75-89 | the oblivious count is the number of valid slots into the active set |
| KCore.CoreIsSupported | bringup-bench/kcore-decomp/kcore-decomp.cc:56-103 | the union of all supported sets is supported |
| KCore.PeelStep | bringup-bench/kcore-decomp/kcore-decomp.cc:91-98 | a pass never peels a core vertex and peels something unless only the core remains |
| Lcs.LcseqStartAndLength | bringup-bench/lcs/lcs.cc:43-92 | the maximum length of a common subsequence and the least first position in lhs over all of that length; lhs_len when there is none |
| Lcs.FillSequence | bringup-bench/lcs/lcs.cc:60-85 | one table cell from its three neighbours |
| Lcs.Step | bringup-bench/lcs/lcs.cc:62-81 | the best of up, left and diagonal is the best over all embeddings of the two prefixes |
| Lcs.LcsubStartAndLength | bringup-bench/lcs/lcs.cc:95-128 | the maximum length of a common substring and its least start in lhs; lhs_len when there is none |
| Lcs.FillRun | bringup-bench/lcs/lcs.cc:110-113 | a cell is the length of the longest run ending there |
| Lcs.RunIsLongest | bringup-bench/lcs/lcs.cc:110-113 | stretches ending at a cell agree iff they are no longer than its run |
| Lcs.BestRunIsLongest | bringup-bench/lcs/lcs.cc:114-120 | the best run over all cells is the longest common substring with the least start |
| EditDistance.EditDistance | bringup-bench/edit-distance/edit-distance.cc:24-44 | the result is the least number of insertions, deletions and substitutions, anywhere and in any order: some script attains it and none is shorter |
| EditDistance.DistanceIsEditDistance | bringup-bench/edit-distance/edit-distance.cc:35-42 | the recurrence equals the length of a shortest edit script, for strings of any two lengths |
| EditDistance.ScriptExists | bringup-bench/edit-distance/edit-distance.cc:35-42 | a script of the computed length turns one string into the other |
| EditDistance.NoShorterScript | bringup-bench/edit-distance/edit-distance.cc:35-42 | no script is shorter |
| EditDistance.Triangle | bringup-bench/edit-distance/edit-distance.cc:35-42 | the distance obeys the triangle inequality |
| EditDistance.Symmetric | bringup-bench/edit-distance/edit-distance.cc:17-42 | the distance is symmetric |
| EditDistance.ZeroWhenEqual | bringup-bench/edit-distance/edit-distance.cc:17-42 | the distance is zero exactly between equal strings |
| EditDistance.DistanceBounds | bringup-bench/edit-distance/edit-distance.cc:28-42 | the distance lies between the difference and the maximum of the lengths |
| FloodFill.FloodFill | bringup-bench/flood-fill/flood-fill.cc:110-151 | N*M sweeps leave a cell replaced iff a walk through cells of the target colour reaches it from the start or from a cell that had the replacement colour; every other cell is unchanged; the cells touched depend on the size of the grid alone |
| FloodFill.NewColour | bringup-bench/flood-fill/flood-fill.cc:110-151 | with a new colour these are the cells 8-connected to the start through cells of its colour |
| FloodFill.OnlyFromStart | bringup-bench/flood-fill/flood-fill.cc:110-151 | only cells connected to the start are painted if and only if every target cell next to an old cell of the colour is connected to the start, or the colour is the target's |
| FloodFill.OldColourFloodsToo | bringup-bench/flood-fill/flood-fill.cc:136-148 | an instance where that condition fails: a cell that is not connected to the start is painted |
| FloodFill.StartOutside | bringup-bench/flood-fill/flood-fill.cc:114-123 | a start outside a grid without zeros changes nothing |
| FloodFill.StartOutsideExactly | bringup-bench/flood-fill/flood-fill.cc:114-148 | a start outside changes nothing if and only if no zero touches a cell of the colour, or the colour is zero |
| FloodFill.SeedStart | bringup-bench/flood-fill/flood-fill.cc:113-123 | the oblivious scan finds the target colour, 0 for a start outside, and paints the start |
| FloodFill.Sweep | bringup-bench/flood-fill/flood-fill.cc:128-149 | an in-place raster sweep spreads from every cell painted before it and paints nothing it should not |
| FloodFill.Visit | bringup-bench/flood-fill/flood-fill.cc:136-147 | a painted cell paints exactly its neighbours of the target colour |
| FloodFill.ClosedIsFlooded | bringup-bench/flood-fill/flood-fill.cc:125-150 | painted cells that spread no further are all the cells that are to be flooded |
| FloodFill.GrowsOrCloses | bringup-bench/flood-fill/flood-fill.cc:125-126 | each sweep paints more or nothing is left to paint |
| FloodFill.FullIsClosed | bringup-bench/flood-fill/flood-fill.cc:125-126 | as many painted cells as the grid has leave nothing to paint |
| Intrinsics.ComplementAndNegate | exo/mojov-intrinsics.h:270-283 | the xor and add sequences compute complement and negation |
| Intrinsics.LogicalValues | exo/mojov-intrinsics.h:303-380 | the snez, and, or and sltiu sequences compute the truth values |
| Intrinsics.EqualityValues | exo/mojov-intrinsics.h:438-492 | xor and seqz or snez decide equality |
| Intrinsics.CmovSelects | exo/mojov-intrinsics.h:624-638 | the two conditional-zero instructions and the or select on any nonzero predicate |
| Exo.NormalizeReduces | exo/mojov-exo.h:232-236 | for every width 1..64 normalizing yields the canonical word of the value reduced modulo 2^B |
| Exo.RingOperators | exo/mojov-exo.h:198-203 | sum, difference and product are exact modulo 2^B and canonical |
| Exo.UnaryOperators | exo/mojov-exo.h:193-194 | negation and complement are exact modulo 2^B |
| Exo.BitwiseOperators | exo/mojov-exo.h:208-213 | and, or, xor act on the low B bits |
| Exo.DivisionExact | exo/mojov-exo.h:204-207 | quotient and remainder at width B truncate toward zero, with all ones and the dividend for division by zero, and MIN and 0 for MIN / -1 |
| Exo.QuotientTruncates | exo/mojov-exo.h:204-207 | the remainder is smaller than the divisor and has the dividend's sign |
| Exo.DivisionInRange | exo/mojov-exo.h:204-207 | quotient and remainder of width B are numbers of width B |
| Exo.LeftShift | exo/mojov-exo.h:214 | a left shift multiplies by 2 to the count modulo 64, reduced to the width |
| Exo.RightShift | exo/mojov-exo.h:216 | a right shift is the floor of division by 2 to the count modulo 64, for both signs |
| Exo.RelationalOperators | exo/mojov-exo.h:354-359 | the six relations compare the values the words stand for |
| Exo.LogicalOperators | exo/mojov-exo.h:344-345 | && and or and ! are the truth functions of the values |
| Exo.TruthIsNonzero | exo/mojov-exo.h:354-359 | true is 1 at every type but the 1-bit signed one, where it is -1; never 0 |
| Exo.Conversion | exo/mojov-exo.h:169-170 | converting between any two types reduces modulo the new width |
| Exo.ConditionalMove | exo/mojov-exo.h:444-446 | cmov returns the chosen operand unchanged on any nonzero predicate |
| Exo.Inte.FromWord | exo/mojov-exo.h:165-170 | construction reduces and keeps the canonical form |
| Exo.Inte.AddAssign | exo/mojov-exo.h:198 | += adds modulo the width in place |
| Exo.Inte.SubAssign | exo/mojov-exo.h:200 | -= subtracts modulo the width in place |
| Exo.Inte.MulAssign | exo/mojov-exo.h:202 | *= multiplies modulo the width in place |
| Exo.Inte.DivAssign | exo/mojov-exo.h:204 | /= is the quotient of the width in place |
| Exo.Inte.ModAssign | exo/mojov-exo.h:206 | %= is the remainder of the width in place |
| Exo.Inte.AndAssign | exo/mojov-exo.h:208 | &= on the low bits |
| Exo.Inte.OrAssign | exo/mojov-exo.h:210 | or-assignment on the low bits |
| Exo.Inte.XorAssign | exo/mojov-exo.h:212 | ^= on the low bits |
| Exo.Inte.ShlAssign | exo/mojov-exo.h:214 | <<= with the count modulo 64 |
| Exo.Inte.ShrAssign | exo/mojov-exo.h:216 | >>= with the count modulo 64, arithmetic for signed types |
| Exo.Inte.PreIncrement | exo/mojov-exo.h:218 | prefix ++ adds one modulo the width |
| Exo.Inte.PostIncrement | exo/mojov-exo.h:219 | postfix ++ returns a copy of the old value |
| StringE.LanesAreIndependent | exo/mojov-string.h:415-460 | a lane holds what was last stored in it and storing leaves the other seven alone |
| StringE.StringE.SetCharPublic | exo/mojov-string.h:454-460 | storing a byte in its word changes exactly that byte of the string |
| StringE.StringE.ObliviousWrite | exo/mojov-string.h:462-468 | rewriting every byte changes at most the one asked for |
| StringE.StringE.PushBack | exo/mojov-string.h:107-113 | appends the byte if it fits, otherwise sets the sticky exception; bytes past the size stay zero |
| StringE.StringE.Append | exo/mojov-string.h:116-128 | for another string: appends the prefix that fits; the exception is set iff something was dropped or inherited |
| StringE.StringE.AppendSelf | exo/mojov-string.h:116-128 | for the string itself: repeats its text until the capacity is full, and sets the exception unless it is empty |
| StringE.StringE.Plus | exo/mojov-string.h:137-143 | concatenation never drops anything |
| StringE.StringE.Assign | exo/mojov-string.h:56-67 | assignment copies bytes, size and exception, with new storage when the capacities differ |
| StringE.StringE.Compare | exo/mojov-string.h:146-170 | the three-way lexicographic order on unsigned bytes, whatever the capacities |
| StringE.OrderIsTransitive | exo/mojov-string.h:173-179 | the order is transitive |
| StringE.OrderReverses | exo/mojov-string.h:173-179 | swapping the operands negates the order |
| StringE.OrderZeroIsEqual | exo/mojov-string.h:174-175 | compare is 0 exactly on equal strings |
| StringE.OrderOfExtensions | exo/mojov-string.h:146-170 | a common prefix does not matter |
| StringE.StringE.MatchesAt | exo/mojov-string.h:188-196 | the inner loop decides whether the whole needle lies inside the size at a position |
| StringE.StringE.Find | exo/mojov-string.h:182-204 | the least position >= pos where the needle occurs, npos if none; pos itself for an empty needle within the size |
| StringE.StringE.RFind | exo/mojov-string.h:228-246 | the greatest position <= pos where the needle occurs, npos if none, with the coded rule for empty needles |
| StringE.StringE.Contains | exo/mojov-string.h:371-373 | true iff the needle occurs somewhere |
| StringE.StringE.StartsWith | exo/mojov-string.h:352-359 | true iff the prefix occurs at 0 |
| StringE.StringE.EndsWith | exo/mojov-string.h:361-369 | true iff the suffix occurs at the end |
| StringE.StringE.Substr | exo/mojov-string.h:340-350 | the clipped slice exactly when pos + count does not exceed 2^64 or the string is empty; bytes past the size are zero exactly when the slice does not wrap onto bytes that are not |
| StringE.SliceUnlessWrapped | exo/mojov-string.h:342-347 | the exact condition, for every text, position and count |
| StringE.SliceIsClean | exo/mojov-string.h:342-347 | the exact condition for zeros past the size |
| Sqrt.SqrtNormal | bringup-bench/common/libmin_sqrt.c:108-175 | for every positive normal argument the result words hold half the evened exponent and the correctly rounded root |
| Sqrt.RootIsCorrectlyRounded | bringup-bench/common/libmin_sqrt.c:108-175 | in real arithmetic the result is within half a unit of the root to nearest, and on the right side of it for the directed modes |
| Sqrt.Normalize | bringup-bench/common/libmin_sqrt.c:108-118 | makes the exponent even and leaves twice the significand in the words |
| Sqrt.HighBits | bringup-bench/common/libmin_sqrt.c:119-132 | the first loop finds the high bits of the root and its scaled remainder |
| Sqrt.LowBits | bringup-bench/common/libmin_sqrt.c:134-151 | with borrows and carries across words the second loop ends with Q^2 <= M < (Q+1)^2 |
| Sqrt.HighFits | bringup-bench/common/libmin_sqrt.c:122-132 | the high words never leave 32 signed bits |
| Sqrt.LowFits | bringup-bench/common/libmin_sqrt.c:135-151 | nor in the second loop |
| Sqrt.ExactIsEven | bringup-bench/common/libmin_sqrt.c:154 | a zero remainder implies an even root, so nothing needs rounding |
| Sqrt.Adjust | bringup-bench/common/libmin_sqrt.c:154-168 | the last adjustment, with its carries, rounds the root in the direction in force |
| Sqrt.Pack | bringup-bench/common/libmin_sqrt.c:169-173 | halves the root and puts the exponent on top |
| Malloc.Heap.GetFreeBlock | bringup-bench/common/libmin_malloc.c:42-52 | walks the list to the first free block that is large enough |
| Malloc.Heap.Malloc | bringup-bench/common/libmin_malloc.c:54-99 | first fit or an extension of the break, or NULL without any change, with every live block kept; for requests whose sum with the header is accepted outside the signed range, the address returned and where the break goes |
| Malloc.WrappedRequest | bringup-bench/common/libmin_malloc.c:80-98 | a request of 2^64 - 8 bytes is granted and moves the break by 16 |
| Malloc.BackwardRequest | bringup-bench/common/libmin_malloc.c:80-98 | a request of 2^64 - 32 bytes is granted and moves the break back over a live block |
| Malloc.Heap.Extend | bringup-bench/common/libmin_malloc.c:80-98 | appends a block and moves tail and break; the sum with the header is read as a signed amount |
| Malloc.Heap.Free | bringup-bench/common/libmin_malloc.c:101-131 | releasing the last block moves the break back and ends the list before it; any other block is marked free; every other live block keeps address, size and bytes |
| Malloc.Heap.DropTail | bringup-bench/common/libmin_malloc.c:117-124 | the walk finds the block before the tail |
| Malloc.Heap.Calloc | bringup-bench/common/libmin_malloc.c:133-149 | zeroes exactly the requested bytes; a product beyond 64 bits is refused; every live block keeps address, size and bytes |
| Malloc.QuotientDetectsOverflow | bringup-bench/common/libmin_malloc.c:139-142 | the quotient check finds exactly the products that do not fit |
| Malloc.Heap.Realloc | bringup-bench/common/libmin_malloc.c:151-169 | keeps the block if it is large enough; otherwise moves its whole contents and releases it, or leaves everything as it was; every other live block keeps address, size and bytes |
| Malloc.Heap.Sbrk | bringup-bench/target/libtarg.c:339-346 | the break moves by a signed amount or not at all |
| Malloc.AllocationIsSafe | bringup-bench/common/libmin_malloc.c:54-99 | an allocated block was not live, is aligned and large enough, and meets no live block; live blocks keep place and size |
| Malloc.ReleaseIsSafe | bringup-bench/common/libmin_malloc.c:101-131 | a release ends exactly one live block |
| Malloc.RunKeepsBlock | bringup-bench/common/libmin_malloc.c:54-169 | over any run of malloc, calloc, realloc and free, met or refused, and of stores into live blocks, a live block that none of them is about keeps address, size and bytes |
| Malloc.RunKeepsContents | bringup-bench/common/libmin_malloc.c:54-169 | over any such run a live block that is not released nor stored into keeps its bytes through every reallocation, wherever it is moved |
| Malloc.RunKeepsDisjoint | bringup-bench/common/libmin_malloc.c:54-169 | after any such run the live blocks are aligned, lie between the base and the break, and do not overlap |
| Malloc.StepKeepsBlock | bringup-bench/common/libmin_malloc.c:54-169 | the same for one call, with the place of a block that is moved |
| Malloc.ClearedIsZero | bringup-bench/common/libmin_malloc.c:133-149 | cleared memory that is granted is a block that was not live, and zero |
| Malloc.BlocksAreDisjoint | bringup-bench/common/libmin_malloc.c:28-40 | blocks with their headers never overlap |
| Malloc.LastInFirstOut | bringup-bench/common/libmin_malloc.c:111-128 | freshly extended blocks released in the opposite order restore the heap |
| Malloc.RestoredOnlyLastInFirstOut | bringup-bench/common/libmin_malloc.c:111-130 | releasing as many blocks as were freshly extended restores the layout if and only if the order is last in, first out |
| Malloc.RunRestoresOnlyLastInFirstOut | bringup-bench/common/libmin_malloc.c:54-131 | a run of requests that no free block fits and of as many releases is permitted and gives back the whole state if and only if the releases come in the opposite order |
| Malloc.BreakRestoredOnlyLastInFirstOut | bringup-bench/common/libmin_malloc.c:80-131 | the break comes back exactly in that order, and stays above in every other one |
| Malloc.FirstInFirstOutLeavesAHole | bringup-bench/common/libmin_malloc.c:111-130 | released in the order of allocation they leave a free block behind |
| Malloc.RoundedIsLeast | bringup-bench/common/libmin_malloc.c:65-68 | rounding up to 8, with the requests that wrap to 0 |
| Printf.Dopr | bringup-bench/common/libmin_printf.c:129-384 | ends on every format that does not run over its end; prints the text the format describes, which the rows on directives pin, never past maxlen, NUL-terminated; the result is the length of the whole text and every %n stores the length so far, whatever maxlen is |
| Printf.SmallerShowsPrefix | bringup-bench/common/libmin_printf.c:377-382 | the string in a smaller buffer is a prefix of that in a larger one |
| Printf.OverrunEndsInW | bringup-bench/common/libmin_printf.c:357-365 | only a format that ends in w runs over its end |
| Printf.PlainText | bringup-bench/common/libmin_printf.c:153-159 | a stretch of a format without directives is printed as it is |
| Printf.AdvanceKeepsPending | bringup-bench/common/libmin_printf.c:160-243 | no step changes the directive that the grammar reads |
| Printf.Conv | bringup-bench/common/libmin_printf.c:244-364 | puts the text of the conversion into the buffer and takes its argument; what the text is, the rows on directives say |
| Directives.ArgumentIsRead | bringup-bench/common/libmin_printf.c:246-294 | for every modifier the number read is the one of the range of its C type that is congruent to the argument: modulo 2^64 for l and ll, modulo 2^32 otherwise, signed and unsigned |
| Directives.DirectiveIsRead | bringup-bench/common/libmin_printf.c:160-243 | of a directive written anywhere in a format, with any flags in any order, a width and a precision in digits or as a star, a lone period, and any modifier, exactly what is written is read |
| Directives.IntegerDirectiveIsStandard | bringup-bench/common/libmin_printf.c:244-334 | every written d, i, o, u, x, X or p directive prints the number of its argument in base 10, 8 or 16: the standard's text if and only if the stated condition on number, flags, width and precision holds, and a stated variant of it otherwise |
| Directives.StringDirectiveIsKept | bringup-bench/common/libmin_printf.c:323-330 | a written s directive prints every string as the standard asks if and only if there is no lone period, the width is not negative, and the precision is omitted or not below the width |
| Directives.StringDirectivePrints | bringup-bench/common/libmin_printf.c:323-330 | what a written s directive prints in every case |
| Directives.CharacterDirective | bringup-bench/common/libmin_printf.c:320-356 | c prints the low byte of its argument whatever the width, which is what the standard asks up to width 1; %% prints a percent sign and takes no argument |
| Directives.OtherDirectives | bringup-bench/common/libmin_printf.c:296-364 | f prints what is given from outside; e, E, g, G and n print nothing and take an argument; other characters print nothing and take none, and w skips the next character |
| Directives.DirectiveEffects | bringup-bench/common/libmin_printf.c:335-365 | n stores the characters so far, cut to the type of its modifier, and nothing else stores anything; a directive runs over the format exactly when it is a w at its very end |
| Directives.LonePeriodPrintsAll | bringup-bench/common/libmin_printf.c:205-222 | %.s prints abc where the standard asks for nothing |
| Printf.FmtInt | bringup-bench/common/libmin_printf.c:425-509 | sign, zeros, digits and spaces of an integer, each where the flags want it |
| Printf.Convert | bringup-bench/common/libmin_printf.c:457-464 | the digit loop leaves the low 19 digits at most, last digit first |
| PrintStandard.WidthIsKept | bringup-bench/common/libmin_printf.c:466-475 | a width that is not negative is kept exactly when zero flag and precision do not compete for it; the size of a negative one exactly when nothing has to be added |
| PrintStandard.WidthIsMissed | bringup-bench/common/libmin_printf.c:466-475 | %08.5d of 42 prints five columns, and a width of -10 two |
| PrintStandard.IntegerIsStandard | bringup-bench/common/libmin_printf.c:425-509 | for every value, base 8, 10 or 16, flags, width and precision: the text is the one that the standard asks for if and only if it has at most 19 digits, is no zero that should vanish, needs no prefix, and is padded the right way or not at all |
| PrintStandard.IntegerAlwaysPrints | bringup-bench/common/libmin_printf.c:425-509 | every number of at most 19 digits prints, in any case, as the standard asks for other flags, width and precision, which are stated |
| PrintStandard.LastDigits | bringup-bench/common/libmin_printf.c:457-464 | the digits printed are the last 19 of all digits |
| PrintStandard.ShortIsNotCut | bringup-bench/common/libmin_printf.c:246-260 | an argument under h is read as the standard asks exactly when it fits 16 bits |
| Printf.FmtStr | bringup-bench/common/libmin_printf.c:386-421 | the padded string cut to the limit |
| PrintStandard.PrecisionIsKept | bringup-bench/common/libmin_printf.c:323-330 | every string prints as the standard asks if and only if there is no lone period, the width is not negative, and the precision is omitted or not below the width |
| PrintStandard.StringAlwaysPrints | bringup-bench/common/libmin_printf.c:323-330 | every string prints, in any case, as the standard asks for width max(w, 0) and precision max(w, p); with a precision below -1 nothing |
| PrintStandard.CutAndPadded | bringup-bench/common/libmin_printf.c:323-330 | a string that the precision of the standard does not cut prints right at every width that is not negative |
| PrintStandard.NegativePrecisionPrintsNothing | bringup-bench/common/libmin_printf.c:401-420 | with a precision below -1 no string prints anything, which is right for the empty one at width 0 only |
| PrintStandard.NegativeWidthIsIgnored | bringup-bench/common/libmin_printf.c:466-475 | a negative width prints integers and strings as no width does |
| PrintStandard.WidthBreaksPrecision | bringup-bench/common/libmin_printf.c:328 | a width above the precision prints too much |
| Printf.OutCh | bringup-bench/common/libmin_printf.c:741-748 | stores inside the limit only and counts always |
| Digits.DigitsValue | bringup-bench/common/libmin_printf.c:457-462 | digits cut at a limit stand for the number modulo that power of the base |
| Parsers.ExactDigits | bringup-bench/common/libmin_printf.c:457-464 | a number is printed in full exactly when it is below the 19th power of the base |
| Parsers.TwentyDigitsAreCut | bringup-bench/common/libmin_printf.c:457-464 | ten to the 19th, an unsigned 64-bit number, is printed with the value zero |
| Parsers.LibminAtol | bringup-bench/common/libmin_atol.c:5-18 | of every text made of blanks, a sign or none, decimal digits and a rest that starts with none: the signed value of the digits modulo 2^64; every text is of this form |
| Parsers.LibminStrtol | bringup-bench/common/libmin_strtol.c:27-145 | of every text made of blanks, a sign or none, 0x or 0X or none, digits and a rest that starts with none of the base: the signed value of the digits modulo 2^64, and the end where the rest starts. The prefix is for base 16 or 0; base 0 without it is 8 behind a leading 0, otherwise 10; every text is of this form for every base |
| Parsers.NumeralIsRead | bringup-bench/common/libmin_strtol.c:36-145 | the same for the function that the parser is proved against |
| Parsers.NumeralExists | bringup-bench/common/libmin_strtol.c:36-58 | every text splits into these pieces, for every base asked for |
| Parsers.DigitsAgree | bringup-bench/common/libmin_strtol.c:14 | the table gives the standard's digit values in both cases, with w and x exchanged |
| Parsers.ShiftRun | bringup-bench/common/libmin_strtol.c:67-113 | shifting and or-ing digits computes the value of the run modulo 2^64 |
| Parsers.MultiplyRun | bringup-bench/common/libmin_strtol.c:115-132 | accumulating the negative number computes the negated value modulo 2^64 |
| Parsers.BasesReadRight | bringup-bench/common/libmin_strtol.c:14 | the digit table gives standard values exactly up to base 32, and reads the standard's digits except at base 33 |
| Parsers.DecimalRoundTrip | bringup-bench/common/libmin_strtol.c:115-138 | the %ld text of every 64-bit number reads back in base 10, to its end |
| Parsers.HexRoundTrip | bringup-bench/common/libmin_strtol.c:95-113 | the %lx text reads back in base 16 as the same 64 bits, as the same number exactly below 2^63 |
| Parsers.PrintThenParse | bringup-bench/common/libmin_printf.c:244-294 | printing through the formats %ld and %lx and parsing gives the argument back |
| Mersenne.Fill | bringup-bench/common/libmin_rand.c:24-38 | the seeding loop gives the first 624 words of the sequence |
| Mersenne.Refresh | bringup-bench/common/libmin_rand.c:61-74 | the in-place refresh turns a block of the infinite recurrence into the next block |
| Mersenne.LibminRand.Srand | bringup-bench/common/libmin_rand.c:24-38 | a seed starts the sequence |
| Mersenne.LibminRand.Rand | bringup-bench/common/libmin_rand.c:41-84 | call n returns the tempered word n + 624 modulo 2^31, where the words are given by arithmetic and tempering bit by bit; nothing without a seed |
| Mersenne.Genrand.Sgenrand | bringup-bench/mersenne/mersenne.cc:34-46 | a 64-bit seed starts the sequence |
| Mersenne.Genrand.Next | bringup-bench/mersenne/mersenne.cc:50-85 | call n returns the tempered word n + 624 of the low 32 bits of the seed, in the same terms |
| Mersenne.WordsAgree | bringup-bench/mersenne/mersenne.cc:34-76 | both word sizes give the same sequence for seeds equal in their low 32 bits |
| Mersenne.GeneratorsAgree | bringup-bench/common/libmin_rand.c:77-83 | libmin_rand is genrand & 0x7fffffff at every call |
| Mersenne.DrawBoth | bringup-bench/common/libmin_rand.c:41-84 | two generators seeded and drawn from alike give that at each further call and stay alike |
| Mersenne.WordsFit | bringup-bench/mersenne/mersenne.cc:60-75 | all words of the 64-bit generator stay below 2^32 |
| Mersenne.WordsAreArithmetic | bringup-bench/common/libmin_rand.c:24-74 | word k < 624 is the high half of seed 2k over that of seed 2k + 1, with seeds s -> (69069 s + 1) mod 2^32; word k + 624 is word k + 397 xored with half of x / 2^31 * 2^31 + y mod 2^31, and with 0x9908b0df when that is odd |
| Mersenne.TemperIsTempered | bringup-bench/common/libmin_rand.c:77-81 | the four tempering steps bit by bit, with distances 11, 7, 15, 18 and masks 0x9d2c5680, 0xefc60000, at both word sizes |
| Mersenne.TemperingIsInjective | bringup-bench/common/libmin_rand.c:77-81 | a word has one tempered word, and different words have different ones |
| Mersenne.FirstNumber | bringup-bench/common/libmin_rand.c:59-83 | the first number of seed 4357 is 2867219139, and 719735491 without the high bit |
| Bits.BitOfXor | bringup-bench/common/libmin_rand.c:64-65 | a bit of x ^ y is set iff the bits of x and y differ |
| Simon.SimonInit | dc-tool/simon.c:103-204 | the schedule of each of the ten configurations is the key recurrence, for as many words as rounds; any other configuration is refused |
| Simon.KeyRecurrence | dc-tool/simon.c:142-162 | the recurrence of section 3 of ePrint 2013/404 in terms of rotations, for 2, 3 and 4 key words |
| Simon.RightShiftsUndoRotation | dc-tool/simon.c:21-22 | rshift_one and rshift_three are rotations to the right at every word size |
| Simon.LeftShiftsRotate | dc-tool/simon.c:17-19 | shift_two and shift_eight are rotations by two and eight |
| Simon.RotationDoubles | dc-tool/simon.c:17 | S(x) is 2x mod 2^w plus x / 2^(w - 1), at each of the five word sizes |
| Simon.RoundIsPaperRound | dc-tool/simon.c:338-344 | one turn of the loop is one round of section 2 of ePrint 2013/404, and its words fit |
| Simon.CipherIsPaper | dc-tool/simon.c:324-484 | a ciphertext is what the paper's rounds make of the block, and a plaintext the block they make the ciphertext of |
| Simon.ZSequences | dc-tool/simon.c:24-28 | the five constants are the sequences of the paper: the outputs of its 5-bit registers, from the third on with 0101... added |
| Simon.RoundConstantIs | dc-tool/simon.c:137-153 | the constant of step i is 2^64 - 4 plus bit i mod 62 of the configuration's sequence |
| Simon.Configurations | dc-tool/simon.c:31-32 | word sizes, key words, rounds and sequences of the ten configurations |
| Simon.Encrypt | dc-tool/simon.c:324-346 | the in-place round loop computes, for words and keys that fit, the rounds of the paper in the order of the keys: (x, y) to (y ^ (Sx & S^8 x) ^ S^2 x ^ k, x) |
| Simon.Decrypt | dc-tool/simon.c:462-484 | the in-place loop finds the block from which those rounds lead to the ciphertext |
| Simon.CipherIsBijective | dc-tool/simon.c:324-484 | decryption undoes encryption and encryption undoes decryption, for any keys, number of rounds and word size |
| Chaining.SimonEncrypt | dc-tool/dc-tool.c:297-312 | every ciphertext block enciphers its plaintext block xored with the block before |
| Chaining.SimonDecrypt | dc-tool/dc-tool.c:314-330 | the inverse, block by block |
| Chaining.ChainUndone | dc-tool/dc-tool.c:297-330 | deciphering a chain gives the plaintext back |
| Chaining.UnchainedIsChain | dc-tool/dc-tool.c:297-330 | any ciphertext is the chain of what it deciphers to |
| Chaining.ErrorPropagation | dc-tool/dc-tool.c:324-329 | changing ciphertext block i changes block i, xors both blocks into block i + 1, and changes nothing else |
| ContractText.BytesToHex | dc-tool/dc-tool.c:159-168 | two digits a byte |
| ContractText.HexToBytes | dc-tool/dc-tool.c:171-201 | the bytes of the first line without trailing blanks; refused when empty, odd or not all digits |
| ContractText.HexRoundTrip | dc-tool/dc-tool.c:150-168 | the digits of any bytes stand for them |
| ContractText.DigitsInOrder | dc-tool/dc-tool.c:150-158 | the sixteen digits in order, written in lower case and read in both |
| ContractText.ByteOfDigits | dc-tool/dc-tool.c:163-196 | a byte is 16 times its first digit plus its second, written and read |
| ContractText.HexValueOfLine | dc-tool/dc-tool.c:171-201 | they read back with blanks and any further lines behind them |
| ContractText.DigitsOnly | dc-tool/dc-tool.c:188-196 | accepted iff every character is a digit |
| ContractText.FindKv | dc-tool/dc-tool.c:223-240 | the pointer to the value of the first line with the key, or none; nothing behind a NUL is looked at |
| ContractText.LookupInLines | dc-tool/dc-tool.c:223-240 | of a text made of lines, the first with the key, '=' and a value |
| ContractText.LookupEndsAtNul | dc-tool/dc-tool.c:227-238 | what follows a NUL changes neither whether a key is found nor its value up to there |
| DcTool.DcEncode | dc-tool/dc-tool.c:129-137 | writes the 64-byte layout |
| DcTool.DcDecode | dc-tool/dc-tool.c:139-147 | the contract whose encoding the buffer holds |
| DcTool.LayoutRoundTrip | dc-tool/dc-tool.c:129-147 | contracts and 64-byte strings correspond one to one |
| DcTool.FieldsOf | dc-tool/dc-tool.c:129-137 | salt, header, key, signature, ciphers, format and padding lie at bytes 0, 8, 24, 40, 48, 56 and 57 |
| DcTool.BeRoundTrip | dc-tool/dc-tool.c:77-96 | big-endian storing and loading undo each other |
| DcTool.LoadIsBigEndian | dc-tool/dc-tool.c:87-96 | the first byte loaded is the highest base-256 digit |
| DcTool.StoreIsBigEndian | dc-tool/dc-tool.c:77-86 | the first byte stored is the highest base-256 digit |
| DcTool.BlockIsLittleEndian | dc-tool/dc-tool.c:304-310 | a block takes its 16 bytes as two words with the highest byte last, the low word first |
| DcTool.KeysStart | dc-tool/dc-tool.c:446 | the schedule starts with the low and the high word of the key |
| DcTool.HeaderText | dc-tool/dc-tool.c:101 | the header is the text "Mojo-V ver. #001" |
| DcTool.WriteCombinedFile | dc-tool/dc-tool.c:363-387 | the five lines of the file |
| DcTool.FieldsOfFile | dc-tool/dc-tool.c:377-381 | the three fields read back, for any nonempty byte strings |
| DcTool.DcGen | dc-tool/dc-tool.c:445-464 | the written file carries the contract enciphered under the key, with its hash |
| DcTool.DcChk | dc-tool/dc-tool.c:489-558 | each of the seven outcomes is returned if and only if its condition holds: in particular a contract is accepted exactly when the three fields are found and are hexadecimal, the message has 64 bytes and the hash 32, the key decapsulates, the message is the chain of the encoded contract under it, the hash is that of the encoded contract, and the header is right |
| DcTool.OutcomeExactly | dc-tool/dc-tool.c:493-558 | the same for the function that the check is proved against, in terms of the fields of the text, the encoded contract, the chain and the hash alone |
| DcTool.PipelineRoundTrip | dc-tool/dc-tool.c:445-558 | a written contract is accepted and is the one that was written |
| DcTool.TamperingNeedsCollision | dc-tool/dc-tool.c:534-558 | a changed message is accepted only when it deciphers to another contract with the same hash |

## Left out

- Inline assembly, CSR setup, console and file input and output, PEM files, ML-KEM, HKDF and SHA-256: encapsulation, derived key and hash are parameters.
- Encryption of single words, proof-carrying hashes and the rules for secret registers; `mojov-utils.h` and the simulator sources are not part of this model.
- Floating-point code (`mojov-math.h`, `fpe_t`, `libmin_pow`, `fmtfp` and others); `fmtfp` is a parameter of the printer.
- Sqrt.SqrtNormal: zero, negative, infinite and NaN arguments return early in the source, and the subnormal path (lines 96-107) can shift by 32; neither is modelled. The rounding direction, found by floating adds, is a parameter.
- Bitonic.BitonicSorter.Sort: at size 2^31 the 32-bit k wraps to 0 and the loop would not end, so m <= 30; the counters of the loops are otherwise exact.
- HeldKarp.BestTour: weights must leave room for TSP_INF below 2^64, and there are 2 to 31 cities, as many as the 32-bit mask allows.
- KCore.KcoreDecompose: degrees are counted without a bound; the number of slots is far below 2^64.
- Lcs.LcseqStartAndLength: the lengths passed must not exceed the sizes of the strings; reading past the size would see zero bytes.
- EditDistance.EditDistance: both strings have the one public length, as in the source; the recurrence itself is proved for all lengths.
- Exo.Inte.DivAssign: the overloads with a plain right operand, which is not reduced to the width, are not modelled for division, remainder and shifts; binary operators are copies followed by the compound operator, and -- mirrors ++.
- StringE.StringE.Append: strings are shorter than 2^63 bytes, and no two share their storage. The find_first_of and find_last_of families and the single-byte searches are not modelled.
- Malloc.Heap.Malloc: headers are a map from address to header instead of bytes of the heap; that blocks and headers never overlap is proved. The standalone target stops the program where the break would pass the limit; here the break fails as on the host.
- Malloc.Heap.Calloc: like Realloc, and the runs, is for requests that do not escape (`Malloc.Escapes`): one that does leaves a broken heap, as `Malloc.BackwardRequest` shows, and calloc and realloc would write outside it.
- Malloc.Heap.Realloc: is for requests that do not escape, like Calloc.
- Malloc.StepKeepsBlock: is for calls that do not escape; after one that does, the returned block lies outside the heap (`Malloc.Heap.Malloc`), and nothing can be said of the calls that follow.
- Malloc.RunKeepsBlock: is for runs without such a call, as are RunKeepsContents and RunKeepsDisjoint.
- Malloc.RunKeepsContents: is for runs without a call that escapes.
- Malloc.RunKeepsDisjoint: is for runs without a call that escapes.
- PrintStandard.IntegerIsStandard: `#` has no effect in base 10, where the standard leaves it undefined; `%p`, which the standard leaves to the implementation, is compared as a long number in base 16.
- Printf.Dopr: lengths and counts are not bounded by size_t or int, and what %n stores is returned instead of written through the pointer. The four e and g conversions print nothing, as in the source.
- Parsers.LibminStrtol: the text pointer is not NULL.
- Mersenne.LibminRand.Rand: the default seed 4357 of line 59 is unreachable behind the check of line 44 and is left out.
- Simon.Encrypt: the 48- and 96-bit blocks, whose words are packed without gaps, are not enciphered here; their key schedules are. Round counters of 8 bits are natural numbers.
- DcTool.DcGen: the random fields of a contract are parameters; a file with an empty KEM field would not be found again, since find_kv wants a value.
- `libmin_qsort`, kadane, bloom filter, bubble sorts, small string functions and in-memory files would only add easy members; `gcd-list` and `flood-fill-On2` do not compute what their names say.
