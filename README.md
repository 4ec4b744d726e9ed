# Powersort for Java, modelled in Dafny

This project models the sorting core of PowersortForJava:

- `myPowersort`: a Powersort driver.
  - Runs are found left to right. A short run is extended by insertion sort to the minimum run length.
  - Each boundary between two runs gets a *node power* computed from the runs' midpoints.
  - A stack indexed by power holds the runs waiting to be merged. Merges are bitonic merges through a buffer.
- `TimSortAlterNoComparator`: the helpers of the JDK TimSort that this driver shares or borrows.
  - binary insertion sort, `countRunAndMakeAscending`, the half-open `reverseRange` and `minRunLength`;
  - the small-array path of `sort`.
- `Inputs`: `swap`, `total` and the recursive run-length generator `timsortDragRunlengths`.

The model is written in the code's own form:

- Array algorithms are methods over `array<int>`. Loops become `while`/`for` loops with invariants.
- The two run stacks of `powerSort` stay two arrays.
- Pure computations become functions: node power, `log2`, `minRunLength`'s value, the run-length generator and `total`.
- Java exceptions are values:
  - `Outcome` is `Normal | Abrupt(error)`, for `void` methods;
  - `Result<T>` is `Ok(value) | Throws(error)`.
- Java `int` arithmetic is unbounded `int` with the range stated (`IsInt`). The two places where the code's result depends on 32-bit behaviour are written out:
  - `Integer.numberOfLeadingZeros` of a negative number;
  - the wrapping sum in `total`.

The specification side has these pieces:

- `Sorting.Sorted`, `Sorting.Permutation` (equal multisets) and `Sorting.Rearranged`. `Rearranged(t, s, lo, hi)` means `t` is a permutation of `s` that agrees with `s` outside `[lo, hi)`.
- `Merge.BitonicMerge`: the recursive meaning of the merge loop.
- `Powersort.Chain`: the run stack as a chain of adjacent sorted runs.
- `Powersort.SlotsMarked`: each occupied slot `q` of the stack has bit `31 - q` set in the scaled midpoint of the run in hand.

`SlotsMarked` is the invariant that makes the slot of a new boundary's power free when the run is pushed there. It rests on these facts:

- the node power is the bit position where the two scaled midpoints part;
- the bits above that position are shared by both midpoints;
- the lower midpoint has a 0 there and the upper one a 1.

Modules (one per file):

| module | file | models |
|---|---|---|
| `JavaInt` | javaint.dfy | Java int range, exceptions, powers of two, shifts, `numberOfLeadingZeros`, xor |
| `Sorting` | sorting.dfy | specification predicates and sequence lemmas |
| `MergePolicy` | merge_policy.dfy | `nodePower`, `log2` |
| `Runs` | runs.dfy | `reverseRange`, `findRun`, `insertionsort` of myPowersort |
| `Merge` | merge.dfy | `mergeRuns`, `sebMergeRunsRename` |
| `Timsort` | timsort.dfy | the TimSort helpers and the small path of `sort` |
| `Powersort` | powersort.dfy | `powerSort`, as written and repaired |
| `Inputs` | inputs.dfy | `swap`, `total`, `timsortDragRunlengths` |

`powerSort` is modelled twice, by one method `Powersort.PowerSortWith` with a flag `corrected`:

- **As written** (`Powersort.PowerSort`). Each problem has its own row under Findings.
  - It can end with an `IndexOutOfBoundsException`.
  - It can leave a range unsorted.
- **Repaired** (`Powersort.PowerSortFixed`). It makes four changes, and then it always completes and sorts the range:
  - a range of fewer than two cells is left as it is, instead of throwing from `log2(0)` or from a negative array size;
  - the stack gets `log2(n) + 2` slots;
  - the buffer gets `right + 1` cells;
  - runs are found by `countRunAndMakeAscending`, which never reads past the range and always reverses a descending run.

## Model

| member | source | states |
|---|---|---|
| `JavaInt.LeadingZerosOfXor` | src/myPowersort.java:10 | the leading zeros of `a ^ b` locate the highest bit where `a` and `b` differ |
| `MergePolicy.ScaledMidpoint` | src/myPowersort.java:5-9 | the scaled midpoint `((s + t - 2 left) << 30) / n` of a run `[s, t)` of the range is a non-negative 31-bit value |
| `MergePolicy.MidpointQuotient` | src/myPowersort.java:6-9 | the scaled midpoint equals the long division of lines 8-9, and the shifted long `l << 30` lies in `[0, 2^63)`, so it does not overflow for a range of at most `Integer.MAX_VALUE` cells |
| `MergePolicy.MidpointsOrdered` | src/myPowersort.java:6-9 | the midpoint of run A lies strictly below that of the adjacent run B |
| `MergePolicy.NodePower` | src/myPowersort.java:4-11 | `nodePower` lies in `[1, 31]` for two adjacent non-empty runs |
| `MergePolicy.NodePowerSplitsMidpoints` | src/myPowersort.java:4-11 | at power `p`, the midpoints of A and B agree above bit `31 - p`; A has 0 and B has 1 at that bit |
| `MergePolicy.NodePowerSharedBits` | src/myPowersort.java:4-11 | every bit above the parting bit is the same in both midpoints |
| `MergePolicy.MidpointsApart` | src/myPowersort.java:6-9 | adjacent midpoints are at least `2^(30 - lg)` apart when `n < 2^(lg+1)` |
| `MergePolicy.NodePowerBound` | src/myPowersort.java:4-11 | the node power is at most `floor(log2 n) + 1` |
| `MergePolicy.Log2` | src/myPowersort.java:91-94 | `log2` throws `IllegalArgumentException` exactly for 0; for positive `n` it is the floor of the binary logarithm (`2^r <= n < 2^(r+1)`); for negative `n` it is 31 |
| `MergePolicy.FloorLogUnique` | src/myPowersort.java:91-94 | the floor logarithm is determined by the bracketing powers of two |
| `MergePolicy.StackSlotOverflowExample` | src/myPowersort.java:100-101 | for `n = 13`, `log2` gives 3 slots, yet the boundary between `[5, 8)` and `[8, 10]` of `[0, 12]` has power 3 |
| `MergePolicy.ShortBufferPower` | src/myPowersort.java:119 | in `powerSort(a, 1, 8)` with runs `[1, 4]` and `[5, 8]`, `log2(8)` gives 3 slots and the boundary has power 1, so the run `[1, 4]` is pushed at slot 1 and the final merge of line 138 covers `[1, 8]` |
| `Runs.ReverseRange` | src/myPowersort.java:13-19 | reverses `array[start..end]`, both ends included, and nothing else |
| `Runs.ReversedRun` | src/myPowersort.java:34 | the array with one run reversed is a permutation that differs only in the run |
| `Runs.FindRun` | src/myPowersort.java:21-41 | throws exactly when `startIndex + 1` is past the array (see Findings). Otherwise it returns the end of the maximal weakly ascending run, left in place, or of the maximal strictly descending run. The descending run is reversed unless it reaches `arrayEnd`. The run is sorted except for that unreversed case |
| `Runs.InsertOne` | src/myPowersort.java:80-86 | one outer step inserts `array[i]` into the sorted prefix `[left, i)` at its place, keeping it sorted |
| `Runs.ShiftGreater` | src/myPowersort.java:82-85 | the inner loop shifts the cells greater than `currentValue` one place up and stops at the first one not greater |
| `Runs.InsertionSort` | src/myPowersort.java:78-88 | sorts `array[left..right]` in place: a sorted permutation of it, with the outside unchanged |
| `Merge.BitonicMerge` | src/myPowersort.java:51-53 | the merge loop's output, defined on the bitonic buffer, has the buffer's length |
| `Merge.BitonicMergePermutes` | src/myPowersort.java:51-53 | the bitonic merge is a permutation of the buffer |
| `Merge.BitonicMergeSorted` | src/myPowersort.java:51-53 | a bitonic buffer (ascending, then descending) merges into a sorted sequence |
| `Merge.MergeOfSortedRuns` | src/myPowersort.java:44-57 | two sorted runs `x` and `y`, buffered as `x + reverse(y)`, merge into a sorted permutation of `x + y` |
| `Merge.MergedRunsFacts` | src/myPowersort.java:44-57 | a merge only rearranges `[startX, endY]`, and merges sorted runs into a sorted run |
| `Merge.BufferHoldsBitonic` | src/myPowersort.java:48-49 | the two copy loops leave `x + reverse(y)` in `temp[startX..endY]` |
| `Merge.MergeOutIsBitonicMerge` | src/myPowersort.java:50-53 | the two-pointer loop with `i` and `j` computes the bitonic merge of `temp[i..j]` |
| `Merge.MergeFromBuffer` | src/myPowersort.java:50-53 | the merge loop writes the bitonic merge of the buffer into `array[startX..endY]` and nothing else |
| `Merge.MergeRuns` | src/myPowersort.java:44-57 | `mergeRuns` throws exactly when the buffer has no cell `endY` (the buffer is indexed by array position) and then leaves the array unchanged; otherwise the array holds the bitonic merge of the two runs |
| `Merge.SebMergeRunsRename` | src/myPowersort.java:66-75 | the same contract as `mergeRuns`: Sedgewick's loop order fills the buffer identically |
| `Merge.ShortBufferExample` | src/myPowersort.java:104 | the final merge `mergeRuns(a, 1, 5, 8, buffer)` of `powerSort(a, 1, 8)` on `[9, 5, 6, 7, 8, 1, 2, 3, 4]`, with a buffer of the range's 8 cells, throws `IndexOutOfBoundsException` |
| `Timsort.ReverseRange` | src/TimSortAlterNoComparator.java:348-355 | reverses `a[lo..hi)` and nothing else |
| `Timsort.CountRunAndMakeAscending` | src/TimSortAlterNoComparator.java:322-339 | returns the length of the maximal weakly ascending run at `lo`, or of the maximal strictly descending one, which it reverses. The run stays within `hi`, and afterwards it is ascending |
| `Timsort.InsertionPoint` | src/TimSortAlterNoComparator.java:258-274 | the binary search finds the index after every cell `<=` pivot and before every cell `>` pivot in the sorted prefix |
| `Timsort.ArrayCopy` | src/TimSortAlterNoComparator.java:292 | `System.arraycopy` copies `length` cells, correctly for an overlapping copy within one array |
| `Timsort.SlideUp` | src/TimSortAlterNoComparator.java:283-293 | the switch and `arraycopy` move `a[left..left+n)` one place up |
| `Timsort.BinaryInsert` | src/TimSortAlterNoComparator.java:256-294 | one step inserts the pivot after its equals, keeping `[lo, start]` sorted |
| `Timsort.BinarySort` | src/TimSortAlterNoComparator.java:251-296 | given `[lo, start)` sorted, sorts `a[lo..hi)` into a sorted permutation and leaves the rest alone |
| `Timsort.Sort` | src/TimSortAlterNoComparator.java:159-174 | for fewer than `MIN_MERGE` cells, `sort` leaves `a[lo..hi)` a sorted permutation of itself and the rest unchanged |
| `Timsort.MinRun` | src/TimSortAlterNoComparator.java:390-398 | the `minRunLength` value is `n` below 32, otherwise within `[16, 32]` |
| `Timsort.MinRunLength` | src/TimSortAlterNoComparator.java:390-398 | the shifting loop computes `MinRun(n)` |
| `Timsort.MinRunIsCeiling` | src/TimSortAlterNoComparator.java:380-398 | for `n >= 32`, `minRun * 2^k` is the least multiple of `2^k` that is at least `n`, so `n / minRun` is close to, and at most, a power of two |
| `Timsort.MinRunOfPowerOfTwo` | src/TimSortAlterNoComparator.java:380-398 | for a power of two `n >= 32`, `minRunLength` is `MIN_MERGE / 2 = 16` |
| `Powersort.NextRun` | src/myPowersort.java:107-111 | the run from `start` is found and, if shorter than `minRunLength`, extended to `min(start + 3, right)` by insertion sort. The result is sorted, except for an unreversed descending run that reaches `right`. As written it throws when `start` is the array's last cell |
| `Powersort.FindOrCountRun` | src/myPowersort.java:107 | the run from `start` as `findRun` finds it, or, repaired, as `countRunAndMakeAscending` does |
| `Powersort.MergeSlotRun` | src/myPowersort.java:125 | merging the run of slot `i` into the run in hand gives one sorted run, rearranges only that range, and leaves the rest of the stack valid |
| `Powersort.MergeSlot` | src/myPowersort.java:125-127 | as `MergeSlotRun`, and the slot becomes `NULL_INDEX` |
| `Powersort.MergeDown` | src/myPowersort.java:120-128 | the occupied slots above `runPower` are merged into the run in hand and emptied. The run in hand stays sorted and the stack below `runPower` stays as it was. The call completes whenever the buffer reaches `endA` |
| `Powersort.Push` | src/myPowersort.java:129-130 | pushing the run at slot `runPower` keeps the stack a chain of adjacent sorted runs and marks it by the next run's midpoint |
| `Powersort.PlaceRun` | src/myPowersort.java:119-131 | `runPower` is the `nodePower` of the boundary. After the merges the run in hand is pushed at slot `runPower` (`runEndStack[runPower] == endA`), the slots below it keep their entries and those above it are `NULL_INDEX`. The stack stays a chain marked by the next run's midpoint. With a buffer past `endA` and `log2(n) + 2` slots, this never throws |
| `Powersort.NextRunBeside` | src/myPowersort.java:113-118 | finding run B leaves run A and the stack untouched |
| `Powersort.AddRun` | src/myPowersort.java:113-133 | one round of the main loop keeps the stack invariants (chain, free slots above the top, slots marked by the midpoint) and the rearrangement of `[left, endB]` |
| `Powersort.MainLoop` | src/myPowersort.java:112-134 | the main loop ends with `[start, right]` in hand, sorted, and the stack a chain from `left` to `start`. A range that is one run leaves the loop unentered |
| `Powersort.MergeAll` | src/myPowersort.java:136-139 | the final merges from the top slot down leave `[left, endA]` sorted; they complete whenever the buffer reaches `endA` |
| `Powersort.Fill` | src/myPowersort.java:102 | `Arrays.fill` sets every cell |
| `Powersort.PowerSortWith` | src/myPowersort.java:98-141 | `powerSort` of a non-empty range rearranges only the range. Completed, it is sorted unless the range ends in a strictly descending tail. Repaired, it never throws. As written, a range at the array's last cell throws and a strictly descending range is left as it is |
| `Powersort.PowerSort` | src/myPowersort.java:98-104 | as written: a range of length 0 throws `IllegalArgumentException`, a negative length `NegativeArraySizeException`; otherwise it behaves as `PowerSortWith` |
| `Powersort.PowerSortFixed` | src/myPowersort.java:98-141 | the repaired `powerSort` always completes and leaves the range a sorted permutation of itself, the rest unchanged |
| `Powersort.SingleCellExample` | src/myPowersort.java:23 | `powerSort(a, 0, 0)` on a one-cell array throws `IndexOutOfBoundsException` |
| `Powersort.DescendingExample` | src/myPowersort.java:31-33 | `powerSort` on `[5, 4, 3, 2, 1]` completes and leaves it unsorted |
| `Inputs.Swap` | src/Inputs.java:16-20 | `swap` exchanges cells `i` and `j` (throwing on a bad index, before any write) |
| `Inputs.SwappedPermutes` | src/Inputs.java:16-20 | a swap is a permutation |
| `Inputs.SwappedTwice` | src/Inputs.java:16-20 | swapping twice restores the array |
| `Inputs.TimsortDragRunlengths` | src/Inputs.java:169-182 | `R_Tim(n)` is a non-empty list |
| `Inputs.DragRunlengthsSum` | src/Inputs.java:169-182 | the run lengths of `R_Tim(n)` add up to `n` |
| `Inputs.DragRunlengthsSmall` | src/Inputs.java:169-182 | for `n >= 1`, every run length of `R_Tim(n)` lies in `[1, 3]` |
| `Inputs.DragRunlengthsLast` | src/Inputs.java:176-179 | for `n >= 4`, the last run length is `n - n/2 - (n/2 - 1)`: 1 for even `n`, 2 for odd `n` |
| `Inputs.Total` | src/Inputs.java:231-233 | `total` is an int |
| `Inputs.TotalIsSum` | src/Inputs.java:231-233 | `total` is the mathematical sum wrapped to 32 bits, and equals it when that fits in an int |
| `Inputs.TotalOfDragRunlengths` | src/Inputs.java:169-182 | `total(timsortDragRunlengths(n)) == n` for `1 <= n <= Integer.MAX_VALUE` |

## Left out

- `Main.java` (the benchmark harness) and `ComparInteger.java` are not part of this model.
- The random generators of `Inputs` are not modelled; they depend on `java.util.Random`. These are `shuffle`, `randomRuns`, `sortRandomRuns`, `fillWithTimsortDrag`, `fillWithUpAndDownRuns`, `randomPermutation`, `randomUaryArray` and the `InputGenerator`s.
- The cache `RTimCache` of `Inputs` is not modelled; it is a memo with no effect on results.
- Timsort.Sort requires `hi - lo < MIN_MERGE`. The general path of `sort` is not modelled: the merge-collapse loop on the `runBase`/`runEnd` stacks and the object state of a `TimSortAlterNoComparator` instance.
- Stability is not stated. The model sorts bare `int`s, where equal values cannot be told apart.
- Powersort.PowerSort requires `right - left + 1` to be an int. Java's wrap-around of that length is not modelled.
- Powersort.PowerSort requires a non-empty range to lie within the array. The exceptions of an out-of-range `left` or `right` are not modelled.
- Merge.MergeRuns: the contents of `temp` are not stated, after a throw or a normal return; it is scratch. After a throw only `array` is said to be unchanged.
- Merge.SebMergeRunsRename: the contents of its buffer (`B` in the source, `b` here) are not stated either, for the same reason.
- Powersort.NextRun: `start + MinRunLength` is unbounded. Java's `startA + minRunLength` and `startB + minRunLength` wrap when `start >= Integer.MAX_VALUE - 2`, which needs an array of at least `Integer.MAX_VALUE - 1` cells; that wrap-around is not modelled.
- Merge.SebMergeRunsRename treats `assert B.length >= endY+1` as disabled, as Java runs by default. A short buffer then throws `IndexOutOfBoundsException` from the copy loop.

## Findings

| source | as written | input that shows it | evidently intended | confidence | as-written member | corrected member |
|---|---|---|---|---|---|---|
| src/myPowersort.java:100-101 | the run stacks get `log2(n)` slots, but a node power can be `log2(n) + 1`, and slot `runPower` is written at line 129 | `powerSort(a, 0, 12)` on `[1, 2, 3, 4, 5, 1, 2, 3, 1, 2, 3, 1, 2]`: `log2(13)` is 3; the first runs are `[0, 4]`, `[5, 7]` and `[8, 10]`; the first boundary has power 1 and the second power 3, so `runStartStack[3]` is out of bounds | `log2(n) + 2` slots (the original Powersort's `lgnPlus2`) | high for the power, not executed | `MergePolicy.StackSlotOverflowExample` | `MergePolicy.NodePowerBound` |
| src/myPowersort.java:104 | the buffer has `n = right - left + 1` cells, but `mergeRuns` indexes it by array position up to `endY = right` | `powerSort(a, 1, 8)` on `[9, 5, 6, 7, 8, 1, 2, 3, 4]`: the runs `[1, 4]` and `[5, 8]` meet at power 1, and the final merge `mergeRuns(a, 1, 5, 8, buffer)` indexes `buffer[8]` of an 8-cell buffer | a buffer of `right + 1` cells | not executed | `Merge.ShortBufferExample` | `Powersort.PowerSortFixed` |
| src/myPowersort.java:23 | `findRun` reads `array[startIndex + 1]` before checking `startIndex == arrayEnd`, which throws when the last run starts at the array's last cell | `powerSort(a, 0, 0)` on a one-cell array | test for a one-cell run before reading the next cell, as `countRunAndMakeAscending` does | not executed | `Powersort.SingleCellExample` | `Timsort.CountRunAndMakeAscending` |
| src/myPowersort.java:31-34 | in the descending branch `i == arrayEnd` returns before the run is reversed, so a strictly descending run reaching `right` stays descending | `[5, 4, 3, 2, 1]` is left as it is | reverse the run in every case | not executed | `Powersort.DescendingExample` | `Powersort.PowerSortFixed` |
