# ParallelProgramming: a Dafny model of the sequential cores

This project models the sequential logic of three MPI exercises in C.

- **The chunked big-number adder (`task3/task3.c`).**
  - Operands are stored as base-100 digits, least significant first, in fixed 1024-slot FIFO digit pools.
  - The master cuts both operands into tasks of equal length and stamps each task with an order number.
  - A worker adds each chunk twice: once assuming carry-in 0 and once assuming carry-in 1.
  - The master keeps the returned results in a list sorted by order number. It merges them by letting a running carry pick each chunk's variant.
  - Pools are read from and written to files as text tokens `"dd "`.
- **The sorting kernels (`task4`).**
  - `compare_T` sign functions, `swap_elems`, `compare_swap_elems`, `bubble_sort`, and the small-input branch of `odd_even_sort`.
  - The two-run `merge_sort`, in `odd_even_merge_sort.c` and its copy in `test.c`.
  - `compare_type`, `error_message`, and the partition and neighbour arithmetic of `odd_even_merge_sort`.
  - The `is_sorted_elems` oracle and the drivers' checks.
- **The ring token of `task1/task1_2.c`.** A task holds a text, a done flag and an XOR checksum over the bytes before the checksum. The model covers `InitTask`, `DoTask`, `TaskIsOK` and `CalcTaskChecksum`.

## How the C maps to Dafny

**Imperative code.**
- The C structs with fields updated in place are classes:
  - `DigitPool` holds an array and two cursors;
  - `Task` in `Tasks` holds the four digit arrays;
  - `Task` in `TaskChecksums` holds the 260 checksummed bytes plus the stored checksum.
- The statics `order_gen` and `transfer_digit` become fields of the `Scheduler` class.
- The linked result list is a `seq` field that `CollectTaskResult` reassigns.
- Every loop of the source is a `method` with a `while` loop. Each is proved against a specification function:
  - `PassV0`/`PassV1` for `do_task`;
  - `InsertByOrder` for `collect_task_result`;
  - `MergeFold`/`RoundOutput` for `merge_task_results`;
  - `Encode`/`Decode` for the file format;
  - `Merge` for `merge_sort`;
  - `ChecksumOf` for `CalcTaskChecksum`.
- The properties the source promises are then proved about these functions as lemmas.

**Element types and the syscalls.**
- Generic sorting code over `void *` with an element size becomes generic Dafny over an element type `T` with a comparison `(T, T) -> int`.
- The syscall results (`read`, `write`) and the trust coefficient are parameters.

## Model

| member | source | states |
|---|---|---|
| Digits.ToDigit | task3/task3.c:47 | storing an int into an unsigned-char digit keeps it when it is in 0..255 and otherwise keeps it modulo 256 |
| Digits.AddDigits | task3/task3.c:650-657 | every returned digit is at most 98 and the carry is 0 or 1; while a+b < 256, so that the unsigned-char sum does not wrap, the carry is 1 exactly when a+b > 99 and the digit is (a+b) mod 99 |
| Digits.AddDigitsWrapsAbove255 | task3/task3.c:653 | from 256 on the unsigned-char sum wraps: 200 + 100 gives digit 44 and no carry |
| Digits.AddDigitsExactBelowModulus | task3/task3.c:650-657 | below 99 the sum is returned unchanged, with carry 0 |
| Digits.AddDigitsDropsNinetyNine | task3/task3.c:650-657 | 99 + 0 returns digit 0 with no carry, so the value 99 is lost |
| Digits.AddDigitsTwentyThreePlusSeventySeven | task3/task3.c:650-657 | 23 + 77 returns digit 1 with carry 1, which reads as 101 |
| Digits.AddDigitsRadix100 | task3/task3.c:650-657 | the corrected digit adder: digit + 100·carry equals a+b+carry-in, with the digit in 0..99 |
| DigitPools.Clip | task3/task3.c:792-808 | what a pool keeps of a pushed sequence: its first min(len, 1024) digits |
| DigitPools.ClipAppend | task3/task3.c:792-808 | pushing in two steps stores the same as pushing once, digits past the full pool being dropped |
| DigitPools.DigitPool.constructor | task3/task3.c:682-691 | `new_digits_pool`: zeroed storage, both cursors 0 |
| DigitPools.DigitPool.IsEmpty | task3/task3.c:810-814 | `pool_is_empty` holds iff no digit is left to pop |
| DigitPools.DigitPool.IsFull | task3/task3.c:804-808 | `pool_is_full` holds iff 1024 digits were pushed, and then any further push stores nothing |
| DigitPools.DigitPool.Push | task3/task3.c:792-802 | copies exactly min(n, 1024 − pushed) digits in order after the pushed ones, returns that count, and leaves the pop cursor and the storage past the new push cursor unchanged |
| DigitPools.DigitPool.Pop | task3/task3.c:780-790 | returns exactly min(n, pushed − popped) digits, the oldest first (FIFO), advances only the pop cursor, and leaves `dst` past the count unchanged |
| DigitPools.DigitPool.Clear | task3/task3.c:816-820 | `___clear_digits`: both cursors 0, nothing left to pop |
| Tasks.PassV0 | task3/task3.c:566-572 | the carry-0 pass yields one digit per operand digit, each at most 98, and a carry of at most 1 |
| Tasks.PassV1 | task3/task3.c:574-579 | the carry-1 pass yields one digit per digit and a carry of at most 1; on an empty chunk the carry stays 1 |
| Tasks.PassV1Shape | task3/task3.c:574-579 | on digits that are at most 98, the carry-1 pass changes only the first digit, to (d+1) mod 99, and never carries |
| Tasks.SecondVariantOfChunk | task3/task3.c:563-580 | for every non-empty chunk the second variant is the first with its lowest digit bumped, and its carry is 0 |
| Tasks.PassV0ExactWithoutOverflow | task3/task3.c:563-572 | when every a[n]+b[n] ≤ 98, the carry-0 pass is the exact digit-wise sum with carry 0 |
| Tasks.Task.constructor | task3/task3.c:436-446 | `new_task`: a zeroed task with order 0 and no digits |
| Tasks.Task.IsEmpty | task3/task3.c:582-587 | `task_is_empty` holds iff the task carries no digits |
| Tasks.Task.DoTask | task3/task3.c:563-580 | the carry-0 sums and carry equal `PassV0` of the operands, and the carry-1 sums and carry equal `PassV1` of the carry-0 sums; the arrays past n_digits are untouched |
| Tasks.Task.FirstPass | task3/task3.c:566-572 | the first loop stores `PassV0` of the operands |
| Tasks.Task.FirstPassStep | task3/task3.c:568-570 | one round of the first loop extends the stored prefix to `PassV0` of one more digit pair and touches no other slot |
| Tasks.Task.SecondPass | task3/task3.c:574-579 | the second loop stores `PassV1` of the first variant |
| Tasks.Task.SecondPassStep | task3/task3.c:575-577 | one round of the second loop extends the stored prefix to `PassV1` of one more digit and touches no other slot |
| Scheduling.RequestSize | task3/task3.c:495-496 | the request is the scaled request capped at 4096 digits |
| Scheduling.StaticModeRequest | task3/task3.c:484-496 | with trust coefficient 1.0 the request is 2048 digits |
| Scheduling.Snapshot | task3/task3.c:512 | the copied result has the task's order and n_digits digits in each variant |
| Scheduling.FirstAfter | task3/task3.c:514-530 | the insertion point is after every node whose order is ≤ the new one and before the first larger one |
| Scheduling.InsertByOrderSorted | task3/task3.c:504-533 | inserting into a list sorted by order keeps it sorted |
| Scheduling.InsertByOrderPlacement | task3/task3.c:504-533 | exactly one node is added; it lands after every node of equal order; removing it gives back the old list, so the other nodes keep their relative order |
| Scheduling.CollectAllSortedPermutation | task3/task3.c:504-533 | collecting any arrival sequence gives a sorted permutation of it |
| Scheduling.InsertByOrderMultiset | task3/task3.c:504-533 | inserting adds exactly the new result to the list's contents |
| Scheduling.SortedHeadsEqual | task3/task3.c:504-533 | two sorted lists holding the same results, whose orders identify them, start with the same result |
| Scheduling.SortedUnique | task3/task3.c:504-533 | two sorted lists holding the same results, whose orders identify them, are equal |
| Scheduling.ArrivalOrderIrrelevant | task3/task3.c:504-533 | when order numbers identify results, the collected list does not depend on the arrival order |
| Scheduling.MergeFoldAppend | task3/task3.c:535-554 | merging a list in two parts, with the carry passed between them, is merging it at once |
| Scheduling.MergeFoldSingle | task3/task3.c:542-554 | the walk over one result is the step the carry selects |
| Scheduling.MergeFoldPair | task3/task3.c:542-554 | the walk over two results is the first selected step followed by the one the carry it leaves selects |
| Scheduling.MergeFoldResolves | task3/task3.c:542-554 | while every carry is 0 or 1, the merge loop produces the same digits and final carry as the carry-select walk `Resolve` of the corrected adder, applied to the workers' variants |
| Scheduling.MergeRoundAdds | task3/task3.c:535-561 | when each result holds the exact radix-100 sums of its chunk, one call of `merge_task_results` over all chunks outputs exactly the corrected chunked sum, and so, by `AddChunkedCorrect`, the digits of a + b |
| Scheduling.CarryRepeatedAcrossRounds | task3/task3.c:535-561 | the chunks 98 + 2 and 0 + 0 give the digits [1,1,1,0] when merged in two rounds and [1,1,0] in one, because the kept carry is pushed again; an empty round with carry 1 pushes [1] |
| Scheduling.CarryingChunk | task3/task3.c:563-580 | the worker's result for 98 + 2 is digit 1 with carry 1, and digit 2 with carry 0 in the second variant |
| Scheduling.QuietChunk | task3/task3.c:563-580 | the worker's result for 0 + 0 is digit 0 with carry 0, and digit 1 with carry 0 in the second variant |
| Scheduling.TwoRoundsOutput | task3/task3.c:535-561 | merging the two example chunks in separate rounds pushes [1, 1] and then [1, 0] |
| Scheduling.OneRoundOutput | task3/task3.c:535-561 | merging both example chunks in one round pushes [1, 1, 0] |
| Scheduling.Scheduler.constructor | task3/task3.c:482 | both statics start at 0 and the result list is empty |
| Scheduling.Scheduler.GiveTask | task3/task3.c:479-502 | stamps the task with the counter and bumps it (empty tasks included); pops the same capped request from both pools; n_digits is the count popped from the b pool; the task is empty iff the request is ≤ 0 or the b pool was empty |
| Scheduling.Scheduler.CollectTaskResult | task3/task3.c:504-533 | the list becomes `InsertByOrder` of the old list and a copy of the task's result |
| Scheduling.Scheduler.ClearTasksResults | task3/task3.c:632-648 | the list becomes empty |
| Scheduling.Scheduler.MergeTaskResults | task3/task3.c:535-561 | the pool receives, clipped to 1024, the variants chosen by the running carry followed by the final carry digit; the carry is kept for the next round; the list is emptied |
| Scheduling.Scheduler.MergeWalk | task3/task3.c:542-554 | the walk pushes `MergeFold` of the list and leaves its carry in the static |
| Scheduling.Scheduler.MergeWalkStep | task3/task3.c:543-553 | one loop round extends the pushed digits and the carry to `MergeFold` of one more result, without popping and without touching storage past the push cursor |
| Scheduling.Scheduler.PushSelected | task3/task3.c:543-553 | a carry of 0 pushes variant 0 and takes its carry; a carry of 1 does the same with variant 1 |
| Scheduling.Scheduler.PushTransfer | task3/task3.c:556-558 | the carry digit is pushed, and dropped if the pool is full |
| Decimal.DecimalTextValue | task1/task1_2.c:99 | the `%d` text of n is decimal, has no leading zero and reads back as n |
| Decimal.DecimalTextBelowHundred | task3/task3.c:659-667 | the `%d` text of a value up to 99 has one or two characters |
| Decimal.DecimalTextLength | task1/task1_2.c:99-103 | a value below 10^k prints in at most k characters |
| Decimal.StrtolTwoAgrees | task3/task3.c:669-679 | `strtol` in base 10 on a two-character token equals the closed form that handles leading spaces, signs and non-digits |
| DigitStreams.DigitToStr | task3/task3.c:659-667 | a digit becomes two decimal characters that read back as the digit when it is at most 99 |
| DigitStreams.DigitToStrIsPrinted | task3/task3.c:659-667 | the two characters are the first two of `sprintf("0%d")` below 10 and of `sprintf("%d")` otherwise |
| DigitStreams.Encode | task3/task3.c:735-778 | k digits encode into 3k characters |
| DigitStreams.StrToDigit | task3/task3.c:669-679 | a token of two decimal characters is read as its value |
| DigitStreams.Decode | task3/task3.c:693-733 | k tokens decode into k digits |
| DigitStreams.DecodeStep | task3/task3.c:717-729 | one more token appends its digit |
| DigitStreams.EncodeStep | task3/task3.c:753-765 | one more digit appends its token |
| DigitStreams.EncodeToken | task3/task3.c:753-765 | token i of an encoding is the text of digit i followed by a space |
| DigitStreams.AllSpacedEach | task3/task3.c:717-722 | the format check passes iff every token ends in a space |
| DigitStreams.UnspacedBreaksAll | task3/task3.c:717-722 | one bad token fails the check for every longer prefix |
| DigitStreams.DecodeEncode | task3/task3.c:659-778 | reading back a written pool of digits up to 99 passes the format check and gives the same digits |
| DigitStreams.WriteDigits | task3/task3.c:735-778 | hands `Encode` of the remaining digits to `write`, pops all of them, reports `ErrUnistdWrite` exactly when the check as written sees a short write, and resets the pool only on success |
| DigitStreams.EncodeNext | task3/task3.c:753-765 | one loop round pops the next digit FIFO and extends the buffer to `Encode` of one more digit |
| DigitStreams.CopyToken | task3/task3.c:762-764 | the memcpy appends the token after the earlier ones |
| DigitStreams.ShortWriteAsWritten | task3/task3.c:770-773 | with a non-negative result the check fires iff fewer characters were written; with a negative result it never fires |
| DigitStreams.ShortWrite | task3/task3.c:770-773 | the corrected check fires on any result other than the full length |
| DigitStreams.FailedWriteUndetected | task3/task3.c:770-773 | a failed write (−1) passes the check as written but fails the corrected one |
| DigitStreams.ReadDigits | task3/task3.c:693-733 | clears the pool; a failed `read` gives `ErrUnistdRead` and leaves the caller's digit count as it was; otherwise ⌊chars/3⌋ tokens are taken, a trailing partial token is ignored, the result is Ok iff every token ends in a space, and on Ok the pool holds the decoded digits; on a bad token the pool holds the tokens before it |
| DigitStreams.ScanTokens | task3/task3.c:717-732 | the token loop pushes tokens in order; it returns Ok iff every token ends in a space, with the pool holding their decoded digits, and otherwise stops at the first bad token with the tokens before it pushed |
| DigitStreams.PushToken | task3/task3.c:725-729 | one token read and pushed extends the pool to `Decode` of one more token |
| DigitStreams.PopOne | task3/task3.c:755 | one digit is popped FIFO |
| DigitStreams.PushOne | task3/task3.c:729 | one digit is appended |
| DigitStreams.NonDecimalTokensAccepted | task3/task3.c:669-679 | "ab" and "-1" pass as 0 and 255, because `ok` is always true |
| DigitStreams.ParseToken | task3/task3.c:669-679 | the corrected parser accepts a token iff both characters are decimal |
| DigitStreams.ParseTokenRoundTrip | task3/task3.c:659-679 | the corrected parser and `digit_to_str` are inverse on digits up to 99 |
| CarryResolution.AddChunk | task3/task3.c:563-580 | the corrected chunk adder returns radix-100 digits and a carry of 0 or 1 |
| CarryResolution.AddChunkValue | task3/task3.c:563-580 | the digits and carry of a chunk encode exactly the sum of the two chunks and the carry-in |
| CarryResolution.Speculate | task3/task3.c:563-580 | one speculated pair per chunk |
| CarryResolution.ResolveValue | task3/task3.c:535-554 | letting the running carry pick each chunk's variant adds the concatenated operands |
| CarryResolution.ResolveSpeculated | task3/task3.c:535-554 | for any list of speculated pairs computed from the chunks, the resolved digits and carry encode the sum of the concatenated operands and the carry-in |
| CarryResolution.ResolveDigits | task3/task3.c:535-554 | every resolved digit is a radix-100 digit |
| CarryResolution.AddChunkedCorrect | task3/task3.c:535-580 | the corrected chunked adder, with the carry pushed once at the end, returns the radix-100 digits of the sum of the two numbers |
| CarryResolution.TwentyThreePlusSeventySeven | task3/task3.c:650-657 | 23 + 77 gives [0, 1] in the corrected adder |
| CarryResolution.CarryIntoSecondChunk | task3/task3.c:535-554 | a carry out of the low chunk selects the carry-1 variant of the next chunk |
| Sorting.SwapElems | task4/odd_even_sort.c:28-37 | exchanges the two elements and changes nothing else |
| Sorting.CompareSwapElems | task4/odd_even_sort.c:39-52 | swaps exactly when compare(a[i], a[j]) > 0; afterwards that comparison is ≤ 0 for an antisymmetric compare; nothing else changes |
| Sorting.BubbleSort | task4/odd_even_sort.c:54-62 | the first n_elems elements are permuted and the rest untouched; under a total preorder on the elements' values the result is sorted |
| Sorting.SortedTailWhole | task4/odd_even_sort.c:57-61 | once the tail from position 0 is final, the array is sorted |
| Sorting.StepAt | task4/odd_even_sort.c:59 | one compare-and-swap step keeps the length and the elements |
| Sorting.StepKeepsPassInvariant | task4/odd_even_sort.c:58-60 | after step j the largest element seen so far sits at j+1 |
| Sorting.SwapKeepsPassInvariant | task4/odd_even_sort.c:49-51 | when compare(a[j], a[j+1]) > 0 the swap moves the largest element seen so far to j+1 and keeps the sorted tail |
| Sorting.PassInvariantStart | task4/odd_even_sort.c:58 | the inner-loop invariant holds before the first step |
| Sorting.PassInvariantEnd | task4/odd_even_sort.c:57-61 | at the end of outer pass n the last n positions hold the n largest elements in their final order |
| Sorting.BubbleStep | task4/odd_even_sort.c:59 | the step on the array is `StepAt` of its contents |
| Sorting.BubblePass | task4/odd_even_sort.c:58-60 | an inner pass keeps the elements and makes one more tail position final |
| Sorting.OddEvenSort | task4/odd_even_sort.c:109-117 | below 20 elements of at most 1024 bytes it is `bubble_sort`: a permutation, sorted under a total preorder |
| Comparators.Modulus | task4/odd_even_sort.c:18-21 | the sizes of char, short, int and long |
| Comparators.Wrap | task4/odd_even_sort.c:14 | storing into T keeps the value modulo 2^bits and in T's range, and unchanged when it fits |
| Comparators.Sign | task4/odd_even_sort.c:15 | `(z > 0) - (z < 0)` is −1, 0 or 1 with the sign of z |
| Comparators.CompareAsWritten | task4/odd_even_sort.c:10-16 | `compare_T` returns −1, 0 or 1, and 0 iff the two values are equal in T |
| Comparators.Compare | task4/odd_even_sort.c:10-16 | the corrected comparison (Findings row 3), the sign of the exact difference: ≤ 0 iff x ≤ y and 0 iff x = y |
| Comparators.CompareAsWrittenExact | task4/odd_even_sort.c:10-16 | when the difference fits in T, `compare_T` is the exact comparison |
| Comparators.CompareAsWrittenOnNonNegative | task4/odd_even_sort.c:10-16 | on non-negative values of T it is the exact comparison |
| Comparators.CompareCharNotTransitive | task4/odd_even_sort.c:10-16 | `compare_char` orders −100 < 0 < 100 but 100 < −100, so it is no preorder on char |
| Comparators.CompareIntOverflows | task4/test.c:57-61 | `compare_int` stores x − y in an int, both in `test.c` and as `compare_T` for int in `odd_even_sort.c`; under the two's-complement wrap the model takes for that overflow, compare_int(−2000000000, 2000000000) is 1 |
| Comparators.CompareIsPreorder | task4/odd_even_sort.c:10-16 | the corrected comparison is a total preorder |
| Comparators.CompareAsWrittenPreorderOnNonNegative | task4/odd_even_sort.c:10-16 | any comparator that computes `compare_T` is a total preorder on the non-negative values of T |
| Merging.Merge | task4/odd_even_merge_sort.c:86-109 | the merge of two runs has both runs' elements and length; an exhausted side yields the other side unchanged |
| Merging.NotBeforeMerge | task4/odd_even_merge_sort.c:97-105 | an element not after any element of the two runs is not after any element of their merge |
| Merging.AllInMerge | task4/odd_even_merge_sort.c:86-109 | the merge holds only elements of the runs |
| Merging.SortedCons | task4/odd_even_merge_sort.c:97-105 | a head not after a sorted tail gives a sorted list |
| Merging.MergeSorted | task4/odd_even_merge_sort.c:86-115 | under a total preorder the merge of two sorted runs is sorted |
| Merging.TieTakesRightFirst | task4/odd_even_merge_sort.c:97-105 | on a tie the right element is emitted first |
| Merging.MergeTakesLeft | task4/odd_even_merge_sort.c:97-100 | when compare < 0 the merge starts with the left head |
| Merging.MergeTakesRight | task4/odd_even_merge_sort.c:101-104 | otherwise it starts with the right head |
| Merging.CopyRange | task4/odd_even_merge_sort.c:111-115 | the memcpy overwrites exactly count elements at the target |
| Merging.CopyOne | task4/odd_even_merge_sort.c:111-115 | one element copied extends the overwritten range by one and leaves the rest of the target unchanged |
| Merging.MergeSort | task4/odd_even_merge_sort.c:66-120 | the left buffer holds the first left_count merged elements and the right buffer the rest; together they are a permutation of the input, sorted when both runs were sorted under a total preorder; `task4/test.c` holds an identical copy with the same tie rule and copy-back |
| Merging.MergeIntoBuffer | task4/odd_even_merge_sort.c:86-109 | the temporary buffer receives `Merge` of the two runs |
| Merging.EmitOne | task4/odd_even_merge_sort.c:97-105 | one comparison emits the left head when compare < 0 and the right head otherwise |
| Merging.Flush | task4/odd_even_merge_sort.c:88-95 | once one side is exhausted, the other side's rest is copied in order |
| OddEvenMergeSorts.Code | task4/odd_even_merge_sort.h:6-11 | the error codes 1 (`OK`) to 4 (`ErrOutOfMemory`) of `error_t` |
| OddEvenMergeSorts.ErrorMessage | task4/odd_even_merge_sort.c:18-37 | each of codes 1 to 4 has its own message, and every other code gives "unknown error" |
| OddEvenMergeSorts.ErrorCodesDistinct | task4/odd_even_merge_sort.h:6-11 | different errors have different codes |
| OddEvenMergeSorts.CompareType | task4/odd_even_merge_sort.c:39-64 | a comparator of the matching type for the six supported MPI types, none otherwise |
| OddEvenMergeSorts.TypeSize | task4/odd_even_merge_sort.c:148-152 | `MPI_Type_size` of the integer types |
| OddEvenMergeSorts.RootCount | task4/odd_even_merge_sort.c:167-168 | the root's share is count − (n_proc−1)·⌊count/n_proc⌋, that is ⌊count/n_proc⌋ plus the remainder |
| OddEvenMergeSorts.Counts | task4/odd_even_merge_sort.c:197-201 | rank 0 gets the root's share and every other rank ⌊count/n_proc⌋ |
| OddEvenMergeSorts.Offsets | task4/odd_even_merge_sort.c:197-201 | the offsets are running prefix sums |
| OddEvenMergeSorts.CountsSum | task4/odd_even_merge_sort.c:167-201 | the counts add up to count |
| OddEvenMergeSorts.OffsetsTile | task4/odd_even_merge_sort.c:167-201 | the offsets start at 0, each block starts where the previous one ends, and the last one ends at count |
| OddEvenMergeSorts.Partition | task4/odd_even_merge_sort.c:185-201 | the corrected arrays of n_proc slots hold the counts and offsets |
| OddEvenMergeSorts.PartitionSlot | task4/odd_even_merge_sort.c:198-201 | one loop round stores slot n's count and offset and advances the running offset |
| OddEvenMergeSorts.SlotsAsWritten | task4/odd_even_merge_sort.c:187 | the allocation as written holds root_count·size/4 ints |
| OddEvenMergeSorts.PartitionOverflowsAllocation | task4/odd_even_merge_sort.c:187-201 | with 30 ints on 10 processes the arrays hold 3 ints while the loop writes 10 |
| OddEvenMergeSorts.Neighbor | task4/odd_even_merge_sort.c:213-221 | the target is rank+1 when the phase and the rank have the same parity and rank−1 otherwise, clamped, and always a valid rank |
| OddEvenMergeSorts.NeighborSymmetric | task4/odd_even_merge_sort.c:213-221 | when the target is another rank, that rank targets this one in the same phase |
| OddEvenMergeSorts.NeighborRoles | task4/odd_even_merge_sort.c:213-223 | when a rank's partner is above it, the partner's own partner is below the partner, so each pair has one sender and one receiver |
| OddEvenMergeSorts.OddEvenMergeSort | task4/odd_even_merge_sort.c:131-201 | only the root needs a buffer of count elements (other ranks may pass an empty one for NULL, and theirs is left untouched); an unsupported type returns `ErrInvalidType` with the buffer untouched; below 3·n_proc elements only the root sorts, by permutation, and Ok is returned; otherwise each rank's share and the root's counts and offsets are computed before the exchange |
| OddEvenMergeSorts.SortAtRoot | task4/odd_even_merge_sort.c:159-165 | below 20 elements, the root's `odd_even_sort` permutes the first count elements, leaves the rest, and sorts them under `compare_T` when they are non-negative values of T |
| OddEvenMergeSorts.ElementComparePreorder | task4/odd_even_merge_sort.c:39-64 | the comparator chosen for an integer type is a total preorder on the non-negative values of that type |
| SortChecks.IsSortedElems | task4/task4.c:90-112 | the oracle returns true iff every element is at least its predecessor, true for zero elements, and writes nothing; the MPI driver `task4/task4_2.c` has the same oracle |
| SortChecks.NonDecreasingIffSorted | task4/task4.c:97-111 | adjacent order is every pair in order under the exact comparison |
| SortChecks.SortedUnderExactCompare | task4/odd_even_sort.c:10-16 | sorted by `compare_T` on non-negative values of T is sorted by the exact comparison |
| SortChecks.AllBelowPermutation | task4/task4.c:39-47 | a permutation keeps the generated values in range |
| SortChecks.SortThenCheck | task4/task4.c:39-47 | below 20 elements, sorting values in [0, 100000) with `compare_int` passes `is_sorted_elems` and permutes the array |
| SortChecks.RootSortThenCheck | task4/task4_2.c:43-59 | on the root-sorts-alone branch, values in [0, 100) pass the root's check after `odd_even_merge_sort` |
| TaskChecksums.SignExtendKeepsByte | task1/task1_2.c:131-132 | widening a char to int keeps the byte in the low 8 bits and its sign, so different bytes stay different |
| TaskChecksums.ChecksumRound | task1/task1_2.c:131-132 | one more byte XORs its widened value into the checksum |
| TaskChecksums.XorLaws | task1/task1_2.c:131-132 | XOR lets the words folded in be reordered, and folding a word twice undoes it |
| TaskChecksums.FoldAgree | task1/task1_2.c:125-135 | the checksum depends only on the bytes it covers |
| TaskChecksums.FoldUpdate | task1/task1_2.c:125-135 | for any operation with those two laws, replacing one word changes the fold by folding in the old word and then the new one; for XOR, by the XOR of the old and new widened bytes |
| TaskChecksums.OneByteChangeDetected | task1/task1_2.c:125-135 | changing one covered byte without recomputing makes the checksum differ |
| TaskChecksums.SwapUndetected | task1/task1_2.c:125-135 | swapping two bytes leaves the checksum unchanged |
| TaskChecksums.RankText | task1/task1_2.c:99 | `sprintf("%d\n")` writes the decimal text, a newline and a NUL, with no NUL before it |
| TaskChecksums.Strlen | task1/task1_2.c:108 | `strlen` is the position of the first NUL |
| TaskChecksums.Task.constructor | task1/task1_2.c:60-64 | the zeroed task buffer |
| TaskChecksums.Task.CalcTaskChecksum | task1/task1_2.c:125-135 | 1024 XOR each of the 260 bytes before the checksum, sign-extended; the stored checksum plays no part |
| TaskChecksums.Task.TaskIsOK | task1/task1_2.c:116-123 | true iff the stored checksum equals the recomputed one |
| TaskChecksums.Task.InitTask | task1/task1_2.c:96-104 | writes the rank text at the start of `print` with the text under 256 bytes, clears `done`, keeps the other bytes, and leaves the task consistent |
| TaskChecksums.Task.WriteText | task1/task1_2.c:99 | the text replaces the first bytes of `print` |
| TaskChecksums.Task.DoTask | task1/task1_2.c:106-114 | `done` becomes 1 iff `write` returned strlen(print), nothing else changes, and the task stays consistent whatever `write` returned |
| TaskChecksums.InitialBytes | task1/task1_2.c:96-104 | the 260 bytes of a zeroed task after `InitTask` |
| TaskChecksums.InitThenCheck | task1/task1_2.c:116-123 | a freshly initialised task passes `TaskIsOK`, and after overwriting one byte it passes iff the byte is unchanged |

## Left out

- `main` of `task3/task3.c` is not modelled: the MPI dispatch loop, `send_task`/`recv_task`, the worker loop and timing. The merge rounds it drives are modelled only as repeated calls of `MergeTaskResults`.
- `calc_trust_coef`, `trust_coef_func`, the custom `pow` and `update_work_stat` are not modelled. They are floating-point statistics. `GiveTask` takes the already scaled request `(int)(trust_coef * 2048)` as a parameter, so the error return of `calc_trust_coef` is not modelled either.
- The `open`/`read`/`write` syscalls are parameters. `ReadDigits` receives the outcome of the one `read` call, and `WriteDigits` receives the value `write` returned. `open`, `close` and their errors are not modelled.
- `ReadDigits` requires at most 3·1024 input characters, the size of the buffer the one `read` call fills.
- `DigitStreams.ReadDigits` takes the caller's `n_digits` as the parameter `callerDigits` and returns it unchanged after a failed `read`, because C's pointer out-parameter is not modelled.
- `Decimal.StrtolTwoAgrees`: `strtol` is modelled only on the two-character tokens `str_to_digit` receives, not in general.
- Out-of-memory returns are not modelled: `calloc` failing in `new_digits_pool`, `new_task`, `collect_task_result`, the stream buffers and `odd_even_merge_sort`.
- The diagnostic printing functions (`print_message`, `internal_message`, `errno_message`, `mpi_message`, `help`, `___dump_*`) are not modelled. They are output only.
- `task2/task2.c` and `task2/task2_2.c` are not modelled. They are MPI collectives and a timing harness.
- `Comparators.Wrap`: C leaves signed overflow of x − y undefined for int and long. The model takes the two's-complement wrap, with long 64 bits wide as on LP64 targets, so an optimising compiler may give a different sign than `CompareIntOverflows` states. For char and short the conversion back into T is implementation-defined, and the usual targets wrap.
- `Sorting.OddEvenSort` requires fewer than 20 elements. The threaded path (`do_sort_task`, the pthread barrier) is concurrent and is not modelled. `SortChecks.SortThenCheck`, `SortChecks.RootSortThenCheck` and `OddEvenMergeSorts.SortAtRoot` carry the same bound. So `SortAtRoot` does not cover the root sorting alone with 20 ≤ count < 3·n_proc, which happens from 7 processes on. The drivers' own sizes are all at least 20 ({20, 731, 1024, 16384} in `task4/task4.c:19` and {20, 1024, 16384} in `task4/task4_2.c:27`), so `SortThenCheck` and `RootSortThenCheck` match no run the drivers actually make.
- `OddEvenMergeSorts.OddEvenMergeSort` does not model the exchange after the partition:
  - the Scatterv/Send/Recv/Gatherv exchange;
  - the phase loop's merging;
  - the `ErrMPI` returns of the MPI calls.
  - Its contract stops at the outcome `ExchangeFollows` with this rank's share and the root's counts and offsets.
- `OddEvenMergeSorts.OddEvenMergeSort` requires fewer than 20 elements at the root on the branch where count < 3·n_proc and the root sorts alone, because `Sorting.OddEvenSort` is modelled only below 20 elements.
- `OddEvenMergeSorts.OddEvenMergeSort` requires an integer type. `compare_float` and `compare_double` use floating-point subtraction and are not modelled. `CompareType` still returns their comparators.
- `OddEvenMergeSorts.OddEvenMergeSort`'s sortedness promise holds for non-negative values of the element type only. On negative values `compare_T` can overflow and is not an ordering (see Findings).
- `Sorting.BubbleSort` and `Merging.MergeSort` state sortedness only under a total preorder on the values present. A comparator that is no preorder gives only the permutation guarantees.
- Element sizes are not modelled as bytes: an element is a value of `T`, and `elem_size` is only checked against 1024.
- `generate_elems` (`rand`), `clock` timing and `print_elems` are not modelled: the drivers' inputs are parameters bounded as `rand() % max` bounds them.
- The ring of `task1/task1_2.c` is not modelled: `MPI_Send`/`MPI_Recv` and the `write(1, …)` call. `DoTask` receives the value `write` returned.
- `TaskChecksums.Task.InitTask` requires a rank in 0..2^31−1. MPI ranks are never negative.
- The task struct is modelled as 260 raw bytes followed by the checksum, padding included. `char` is signed, as on the usual targets.
- `DigitStreams.DigitToStr` keeps the first two characters for digits from 100 on. There, `sprintf` writes three characters and a NUL into the 3-byte `str`, one byte past its end. The model does not capture that overflow.
- Static variables are fields of one `Scheduler` object, so their lifetime is that object's.

## Findings

| source | as written | input that shows it | evidently intended | confidence | as-written member | corrected member |
|---|---|---|---|---|---|---|
| task3/task3.c:654-656 | `add_digits` reduces modulo 99 while it carries above 99 | 23 + 77 gives digit 1 and carry 1, read as 101; 99 + 0 gives 0 with no carry | base-100 digits: digit (a+b) mod 100 and carry when a+b ≥ 100 | high, not executed | Digits.AddDigitsTwentyThreePlusSeventySeven | Digits.AddDigitsRadix100 |
| task3/task3.c:556-558 | `merge_task_results` pushes the carry after every round and also keeps it for the next round | the one-digit chunks 98 + 2 and 0 + 0 give digits [1,1,1,0] when merged in two rounds and [1,1,0] in one round | the final carry pushed once, after the last chunk; `Scheduling.MergeRoundAdds` shows that one round of the loop as written, over correct chunk variants, outputs exactly this corrected sum | medium, not executed | Scheduling.CarryRepeatedAcrossRounds | CarryResolution.AddChunkedCorrect |
| task4/odd_even_sort.c:14 | `compare_T` stores x − y in T, which wraps | `compare_char(-100, 100)` returns 1, though −100 < 0 < 100 compare as less | the sign of the exact difference | high, not executed | Comparators.CompareCharNotTransitive | Comparators.CompareIsPreorder |
| task4/odd_even_merge_sort.c:187-201 | `buf_counts` and `buf_offsets` hold proc_count·size bytes but the loop writes n_proc ints | count 30 of MPI_INT on 10 processes: 3 ints allocated, 10 written | n_proc ints each | high, not executed | OddEvenMergeSorts.PartitionOverflowsAllocation | OddEvenMergeSorts.Partition |
| task3/task3.c:770-773 | the int result of `write` is compared with a `size_t`, so −1 becomes huge | `write` failing with −1 on 2 digits is not reported | any result other than the full length is an error | high, not executed | DigitStreams.FailedWriteUndetected | DigitStreams.ShortWrite |
| task3/task3.c:676 | `str_to_digit`'s `ok` flag is always true, so any token passes | the input "ab -1 " reads as digits 0 and 255 | only two decimal characters accepted | high, not executed | DigitStreams.NonDecimalTokensAccepted | DigitStreams.ParseTokenRoundTrip |
