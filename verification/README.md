# Verified model of the uC/LIB, uC/CPU and board support code

Dafny models of the parts of the firmware that have something to prove: the segment and pool allocator, the
word-at-a-time memory functions, number formatting and parsing, string comparison and search, the pseudo-random
generator, the interrupt-driven I2C master, the software-extended timestamps, the interrupt-disable measurement and
the serial line editor. `dafny verify dfyconfig.toml` checks everything.

Where the code updates records, buffers or linked lists in place, so do the classes and methods here; each is tied by
its postcondition to a function on values, and the theorems are about those functions, for every input and every run.

| module | models |
|---|---|
| `SegArith` | sizes and addresses of one memory segment: the allocation step, the allocation loop, the closed-form size |
| `PoolBlks`, `PoolStack` | which addresses count as blocks of a pool; its free stack over every run of gets and frees |
| `MemTable`, `MemTableProps`, `PoolCreation`, `PoolRefusals` | the segment table, heap allocation and pool creation on values, what they keep and what they report |
| `MemPools` | the same as linked `MEM_POOL` records updated in place |
| `AllocRuns` | the allocator as a whole: runs of heap allocations, creations, gets and frees on all pools |
| `MemBytes` | `Mem_Set`, `Mem_Copy`, `Mem_Cmp` over an array of octets |
| `Ascii`, `StrFmt`, `StrParse`, `StrRoundTrip`, `StrShapes`, `StrSearch` | the string library |
| `MathRand` | the linear congruential generator |
| `I2c` | one I2C controller: the interrupt handlers and one transfer from start to end |
| `I2cTasks` | the tasks that share it: set-up store by store, wait, lock and report as separate steps of any run |
| `CpuTs`, `IntDisMeas` | timestamps and the interrupt-disable measurement |
| `SerEdit` | the serial line editor with its one-line history |
| `LibErrors` | the allocator's error codes |
| `Arith` | facts about remainders and products used by all of them |

## What holds, and what does not

* **Allocator.** Over every run of heap allocations, pool creations, gets and frees on all pools, the heap blocks, pointer
  tables and blocks held of exact pools are aligned, inside a segment and disjoint, the table stays in ascending order with disjoint
  segments, and every segment accounts for all its octets -- even where a size calculation wraps. The closed-form
  size agrees with the allocations unless one particular product overflow goes unnoticed; the exact condition is
  `MulOvfMissed`, and `MulOvfMissedExample` is an instance. The comment on `Mem_PoolSegCalcTotSize`
  (lib_mem.c:1634-1637) promises 0 for every error. In the same way the size of a pointer table for 2^30 + 2 blocks
  and more passes the test and wraps, and pools with a table too short are created (`ShortPtrsExample`).
* **Pool blocks.** `Mem_PoolBlkIsValidAddr` accepts exactly the blocks if and only if the distance between them is exact
  in the sense of `ExactStride`, and gets and frees conserve them if and only if, moreover, a `MEM_POOL_IX` can count
  them. Every power-of-two alignment is exact; `InexactStrideExample` and `NotConservedExample` are instances of
  failure. The comments (lib_mem.c:1482-1484, 853) name neither condition.
* **Pool creation.** It succeeds if and only if the pointer table and the blocks fit (`Admissible`). Behind the
  validation the failure branches are dead code except in the cases of `PtrsAtTop` and `BlksMissed`, which for segments
  below the top of the address space come down to a missed overflow; and only in the latter a refusal changes
  segments (`StrandingExample`). `PoolAddrStart` is right if and only if the heap itself was not passed as
  dedicated memory (`WrongRangeExample`).
* **Memory functions.** `Mem_Copy` copies, for all contents, if and only if the destination does not start inside the
  source behind its first octet.
* **Numbers.** Formatting and parsing are inverse in every base from 2 to 36, both letter cases, including the smallest
  signed number; d digits are enough for a number if and only if it is below the d-th power of the base. The comment on `Str_ParseNbr_Int32S` (lib_str.c:2900) names `DEF_INT_32U_MAX_VAL` as the result of a
  positive overflow; the code returns `DEF_INT_32S_MAX_VAL`, as strtol() in IEEE Std 1003.1 would, and so does
  the model.
* **Random numbers.** The period is exactly 2^31 from every seed. The rand() description quoted in lib_math.h:158-160
  asks for at least 2^32.
* **I2C.** For any status flags and errors in any order a transfer never leaves its buffer, and when it completes it has
  passed the right octets in the right order in the exact number of steps. Between several tasks more can go wrong, as
  the code sets up the record store by store with an unfinished transfer's interrupts still enabled, and releases the
  lock before it looks at the record for its result. For every state a run can reach: the next call's set-up is safe
  if and only if the interrupts are disabled when it gets the lock; the completion its wait takes is bound to be its own
  if and only if, moreover, no completion is left over; its report is then that of its own transfer as long
  as no other call stores its length, and after that may go either way (`FalseSuccessExample`, a call given
  up that reports success; `FalseFailureExample`). As long as no wait has timed out both conditions hold for every call.
* **Timestamps.** The accumulated time is the true elapsed time less the timer ranges missed between readings, and is
  right if and only if those vanish in the accumulator's range.
* **Measurement.** The maxima are those of the completed outermost sections, and the overhead is the average to within
  half a count if and only if neither the sum nor its rounding wraps.
* **Line editor.** What it leaves in the buffer and in the history is what an editor on plain strings would; four
  oddities of the code are kept and stated exactly: characters typed into a full line are dropped, so that a
  backspace then rubs out an earlier one; a longer line that was recalled is cut to the length at the first character typed; the
  escape flag stays set after a recall; and an escape sequence begun inside another one is misread.

The allocator, the C form of `Mem_Copy`, the timestamps and the line history are switched off in the application's
configuration (app_cfg.h:97-101, cpu_cfg.h, no `BSP_CFG_SER_CMD_HISTORY_LEN`). The model has them switched on, with argument
checking (`LIB_MEM_CFG_ARG_CHK_EXT_EN`) enabled as it is there. Pointers, `CPU_SIZE_T` and `CPU_ALIGN` are 32 bits wide (cpu.h). The
number of calibration sections and the timer's range are parameters.

## Model

| member | source | states |
|---|---|---|
| SegArith.CalcTotSizeCorrectIff | com板程序/uC-LIB/lib_mem.c:1647-1716 | the closed-form size is the true total, or 0 when that does not fit 32 bits, if and only if no product overflow slips past its comparisons |
| SegArith.MulOvfMissedExample | com板程序/uC-LIB/lib_mem.c:1693-1699 | 49153 blocks of 128 KiB pass the overflow tests with a size 2^32 too small |
| SegArith.SegAllocExact | com板程序/uC-LIB/lib_mem.c:1755-1802 | one allocation succeeds exactly when the aligned block fits the segment and the address space, at the first aligned address, and otherwise changes nothing |
| SegArith.AllocNExact | com板程序/uC-LIB/lib_mem.c:1183-1204 | the creation loop takes as many blocks as fit, one stride apart, and the segment advances by exactly their closed-form total |
| SegArith.AllocNSucceedsIff | com板程序/uC-LIB/lib_mem.c:1183-1204 | N single allocations all succeed if and only if the closed-form total fits |
| PoolBlks.AcceptedAddrs | com板程序/uC-LIB/lib_mem.c:1495-1542 | the addresses accepted are the blocks and at most one address of the leading gap, where the unsigned difference wraps |
| PoolBlks.IsValidAddrExactIff | com板程序/uC-LIB/lib_mem.c:1495-1542 | the address test accepts exactly the blocks the creation loop stored if and only if the stride is exact |
| PoolBlks.StrideInSpace | com板程序/uC-LIB/lib_mem.c:1530-1538 | where the blocks fit the address space the stride is below 2^32, so that the address test neither truncates it nor divides by zero |
| PoolBlks.InexactStrideExample | com板程序/uC-LIB/lib_mem.c:1495-1542 | for blocks of 3 octets aligned to 3 the pool's start, which is no block, is accepted |
| PoolBlks.AlwaysExactIff | com板程序/uC-LIB/lib_mem.c:1511-1538 | which sizes and alignments are exact wherever the pool lies |
| PoolBlks.PowerOfTwoIsExact | com板程序/uC-LIB/lib_mem.c:1511-1538 | every power-of-two alignment is, leading gap included |
| PoolStack.ConservedAnswers | com板程序/uC-LIB/lib_mem.c:1287-1458 | gets fail only when all blocks are held and never hand out a held block; frees succeed exactly for held blocks, and each error of a free has its own kind of address; pool-full and invalid-index never occur |
| PoolStack.FreeThenGet | com板程序/uC-LIB/lib_mem.c:1346-1450 | the block freed last is handed out next, which leaves the free stack as it was |
| PoolStack.NewPoolGets | com板程序/uC-LIB/lib_mem.c:1183-1353 | a new pool hands out its blocks from the last one down |
| PoolStack.RunConserves | com板程序/uC-LIB/lib_mem.c:1287-1458 | free and held blocks are, without repetition, the N blocks of the pool after any run of gets and frees |
| PoolStack.ConservationIff | com板程序/uC-LIB/lib_mem.c:1245-1458 | every run on a created pool conserves its blocks if and only if its stride is exact and its number of blocks survives the 16-bit cast |
| PoolStack.NotConservedExample | com板程序/uC-LIB/lib_mem.c:1287-1458 | one get and one free that leave an address on the free stack that is no block |
| PoolCreation.PtrsHoldBlksIff | com板程序/uC-LIB/lib_mem.c:1157-1204 | the pointer table that a created pool gets has room for its blocks if and only if there are fewer than 2^30 |
| PoolCreation.ShortPtrsExample | com板程序/uC-LIB/lib_mem.c:1157-1204 | a pool of 2^30 + 2 blocks that is created with a pointer table of 8 octets |
| MemTableProps.SearchCorrect | com板程序/uC-LIB/lib_mem.c:1061-1105 | the table search that breaks off early answers for the whole table: exact match if any, else overlap if and only if any segment overlaps, else the place that keeps the order |
| MemTableProps.HeapAllocKeeps | com板程序/uC-LIB/lib_mem.c:592-672 | a heap allocation keeps the table in order and all regions aligned, placed and apart |
| MemTableProps.CreateKeeps | com板程序/uC-LIB/lib_mem.c:901-1251 | so does a pool creation, refused or not |
| MemTableProps.RunSafe | com板程序/uC-LIB/lib_mem.c:592-1251 | over every run from initialisation: regions pairwise disjoint, aligned, inside a segment; segments disjoint, ascending, and each accounting for all its octets. A region is what was allocated; with 2^30 + 2 blocks and more the code writes beyond that of the pointer table |
| PoolCreation.StepHandsOut | com板程序/uC-LIB/lib_mem.c:592-1251 | what each successful call of such a run gives out is among its regions |
| PoolStack.StepSound | com板程序/uC-LIB/lib_mem.c:1287-1458 | for any number of blocks, where the address test is exact: gets and frees keep free and held blocks blocks of the pool, without repetition and apart; a get never hands out what is held |
| AllocRuns.InUseApart | com板程序/uC-LIB/lib_mem.c:592-1458 | over every run of allocations, creations, gets and frees, with any arguments: heap blocks, pointer tables and the blocks held of all exact pools are aligned, inside a segment and pairwise disjoint, whatever other pools there are |
| AllocRuns.LeasesFollow | com板程序/uC-LIB/lib_mem.c:592-1458 | what is in use follows the calls: successful allocations, creations and gets put what they returned in use, and a free takes its block out |
| PoolCreation.HeapAllocOutcome | com板程序/uC-LIB/lib_mem.c:592-672 | success exactly when the aligned block fits; which block; a refusal changes nothing |
| PoolRefusals.HeapAllocErrors | com板程序/uC-LIB/lib_mem.c:617-664 | each error of a heap allocation and the octets reported, by size, alignment and what is left |
| PoolCreation.HeapAllocShortfall | com板程序/uC-LIB/lib_mem.c:653-658 | the octets reported missing are the exact shortfall: that many more suffice, unless the block would end at the top of the address space; fewer do not |
| PoolCreation.CreateSucceedsIff | com板程序/uC-LIB/lib_mem.c:901-1251 | a pool is created if and only if number, size and alignment of its blocks, and the size of dedicated memory, are at least 1, its place is free or its own, and pointer table and blocks fit |
| PoolRefusals.CreateArgErrors | com板程序/uC-LIB/lib_mem.c:956-1092 | each error of the arguments and of the place of dedicated memory, by the arguments and the table alone |
| PoolRefusals.HeapPoolErrors | com板程序/uC-LIB/lib_mem.c:995-1045 | overflow, exhausted heap and late refusal of a pool from the heap, by what its pointer table and blocks need, with the octets reported |
| PoolRefusals.DedicatedPoolErrors | com板程序/uC-LIB/lib_mem.c:1108-1181 | the same for a pool in dedicated memory, against the heap and its own segment |
| PoolRefusals.StrandedExactly | com板程序/uC-LIB/lib_mem.c:1183-1202 | what a refusal among the blocks has used up and reports: the pointer table and as many blocks as fit |
| PoolCreation.CreateGives | com板程序/uC-LIB/lib_mem.c:1157-1204 | what it gets: the pointer table from the heap, blocks one stride apart, and nothing else |
| PoolCreation.CreateAtomicIff | com板程序/uC-LIB/lib_mem.c:995-1202 | from the arguments: a call is refused and yet changes segments if and only if the validation passes, the pointer table fits, and the validation overlooks that the blocks do not -- for segments below the top of the address space and other than the heap as dedicated memory, a missed overflow; it never hands anything out |
| PoolCreation.StrandingExample | com板程序/uC-LIB/lib_mem.c:1183-1202 | a refusal that has used up the heap |
| PoolCreation.ValidationSuffices | com板程序/uC-LIB/lib_mem.c:995-1202 | after the validation, creation succeeds if and only if it overlooked nothing: no table or block that ends at the top of the address space, no missed overflow, no heap passed as dedicated memory and too full for both |
| PoolCreation.PoolRangeIff | com板程序/uC-LIB/lib_mem.c:1110-1132 | the recorded range is the blocks' range if and only if the heap was not passed as dedicated memory |
| PoolCreation.WrongRangeExample | com板程序/uC-LIB/lib_mem.c:1110-1132 | a created pool whose recorded range does not start at its blocks |
| PoolCreation.CreateShortfall | com板程序/uC-LIB/lib_mem.c:1028-1045 | the octets a heap-backed creation reports missing are the exact shortfall, unless an overflow was missed or the blocks would end at the top of the address space |
| PoolCreation.CreatedPool | com板程序/uC-LIB/lib_mem.c:1236-1245 | a created pool is configured as the pool whose runs are treated above, 16-bit block index included |
| MemPools.MemPool.Clear | com板程序/uC-LIB/lib_mem.c:707-744 | every field is cleared |
| MemPools.MemPool.AllocSeg | com板程序/uC-LIB/lib_mem.c:1755-1802 | on the record, does what SegAlloc says |
| MemPools.MemPool.AllocBlks | com板程序/uC-LIB/lib_mem.c:1183-1204 | the loop, with its early exit, does what AllocN says |
| MemPools.BlkGet | com板程序/uC-LIB/lib_mem.c:1287-1353 | errors in the code's order, a null pool first; otherwise pops the top block |
| MemPools.BlkFree | com板程序/uC-LIB/lib_mem.c:1390-1458 | errors in the code's order, a null pool first and the scan for a double free last; otherwise pushes the block |
| MemPools.SpliceSeg | com板程序/uC-LIB/lib_mem.c:1221-1232 | a new head between its neighbours: the segment list stays a doubly linked list of distinct records in that order |
| MemPools.SplicePool | com板程序/uC-LIB/lib_mem.c:1211-1217 | a new pool right behind the head of its segment's list |
| MemPools.MemLib.constructor | com板程序/uC-LIB/lib_mem.c:159-192 | the table holds the heap alone |
| MemPools.MemLib.Search | com板程序/uC-LIB/lib_mem.c:1061-1097 | following the links finds what SearchFrom finds on the table's value, with the right neighbours |
| MemPools.MemLib.AllocHeap | com板程序/uC-LIB/lib_mem.c:592-672 | result, error, octets missing and new table are those of HeapAlloc; the linked table stays valid |
| MemPools.MemLib.CreatePool | com板程序/uC-LIB/lib_mem.c:901-1251 | error, octets missing, new table and the pool's record are those of Create; the linked table stays acyclic, ordered and valid |
| MemBytes.MemSet | com板程序/uC-LIB/lib_mem.c:262-313 | exactly the octets asked for are set, with words stored at word-aligned addresses only |
| MemBytes.MemCopy | com板程序/uC-LIB/lib_mem.c:354-417 | same effect as copying octet by octet upwards, for every alignment, overlaps included |
| MemBytes.CopyUpWord | com板程序/uC-LIB/lib_mem.c:397-406 | an aligned word copy equals four octet copies even for overlapping buffers |
| MemBytes.CopyUpCopiesIff | com板程序/uC-LIB/lib_mem.c:354-417 | upward copying delivers the source's octets and changes nothing else, for all contents, if and only if the destination does not start inside the source behind its first octet |
| MemBytes.MemCmp | com板程序/uC-LIB/lib_mem.c:464-549 | true if and only if the octets agree, for every alignment, scanning from the end |
| StrFmt.FmtNbrInt32 | com板程序/uC-LIB/lib_str.c:3334-3499 | the buffer holds the padded, signed numeral, or question marks if the arguments are invalid or the number too wide; the rest of it is untouched |
| StrFmt.NumeralFromRight | com板程序/uC-LIB/lib_str.c:3456-3490 | the digits of positional notation are what repeated division yields from the right, and division ends with the last of them |
| StrFmt.LeadDigitIff | com板程序/uC-LIB/lib_str.c:3379-3400 | the lead characters rejected are exactly the digits the formatter would write in that base and letter case |
| StrFmt.FmtNbrInt32U | com板程序/uC-LIB/lib_str.c:1921-1942 | unsigned form, with the question marks on failure |
| StrFmt.FmtNbrInt32S | com板程序/uC-LIB/lib_str.c:2138-2169 | signed form, the smallest number included, with the question marks on failure |
| StrParse.ParseNbrInt32 | com板程序/uC-LIB/lib_str.c:3729-3931 | value, end and sign of white space, sign, prefix and digits, without reading past the NUL |
| StrParse.ParseDigits | com板程序/uC-LIB/lib_str.c:3871-3925 | the longest run of digits of the base, and its value saturated at 2^32-1 |
| StrParse.MergeExact | com板程序/uC-LIB/lib_str.c:100-138 | threshold table and wrap test together detect overflow exactly |
| StrParse.ParseNbrInt32U | com板程序/uC-LIB/lib_str.c:2861-2875 | unsigned form |
| StrParse.ParseNbrInt32S | com板程序/uC-LIB/lib_str.c:3078-3102 | signed form |
| StrRoundTrip.NumberOfNumeral | com板程序/uC-LIB/lib_str.c:3406-3490 | the numeral of n consists of digits of its base and denotes n |
| StrRoundTrip.RoundTrip | com板程序/uC-LIB/lib_str.c:3334-3931 | parsing a formatted number in its base gives number and sign back and consumes the string to its end |
| StrRoundTrip.RoundTripUnsigned | com板程序/uC-LIB/lib_str.c:2861-2875 | the same for every unsigned 32-bit number |
| StrRoundTrip.RoundTripSigned | com板程序/uC-LIB/lib_str.c:3078-3102 | the same for every signed 32-bit number |
| StrRoundTrip.NumeralWidth | com板程序/uC-LIB/lib_str.c:3407-3413 | a number has at most d digits if and only if it is below the d-th power of the base |
| StrRoundTrip.FormattedIff | com板程序/uC-LIB/lib_str.c:3364-3439 | a number is formatted if and only if the base is one from 2 to 36, the number is below the power of the base that the digits leave room for besides the sign, and the lead character is NUL, zero, or printable and no digit of the base in the letter case asked for |
| StrRoundTrip.FormattedText | com板程序/uC-LIB/lib_str.c:3456-3490 | a formatted string character by character: digits of the number in the letter case asked for without leading zeros, minus and lead characters before them, and its length |
| StrRoundTrip.SignedText | com板程序/uC-LIB/lib_str.c:2138-2169 | a minus is there exactly if the number is negative |
| StrRoundTrip.EnoughDigitsUnsigned | com板程序/uC-LIB/lib_str.c:1921-1942 | d digits are enough for every unsigned 32-bit number if and only if 2^32 is at most the d-th power of the base |
| StrRoundTrip.EnoughDigitsSigned | com板程序/uC-LIB/lib_str.c:2138-2169 | for the signed ones it takes a sign and the digits of 2^31 |
| StrRoundTrip.DecimalDigits | com板程序/uC-LIB/lib_str.c:1921-2169 | in decimal ten digits format every unsigned number and eleven every signed one; nine and ten do not |
| StrRoundTrip.SignedClamps | com板程序/uC-LIB/lib_str.c:3093-3099 | the signed result is the true value clamped to the signed 32-bit range |
| StrRoundTrip.ParsedMaximal | com板程序/uC-LIB/lib_str.c:3729-3931 | digits all belong to the resolved base, the character behind them does not, and no number is reported exactly when there is neither digit nor prefix |
| StrShapes.ParsedPlain | com板程序/uC-LIB/lib_str.c:3776-3927 | white space, an optional sign, digits of a given base and no further one: the value saturated, the position behind the digits, and negative exactly after a minus |
| StrShapes.ParsedHex | com板程序/uC-LIB/lib_str.c:3800-3867 | "0x" or "0X" before hexadecimal digits, in base 16 or without a base |
| StrShapes.ParsedOctal | com板程序/uC-LIB/lib_str.c:3800-3867 | without a base, any other leading zero makes the number octal |
| StrShapes.ParsedDecimal | com板程序/uC-LIB/lib_str.c:3800-3867 | without a base, anything else is decimal |
| StrShapes.ParsedZero | com板程序/uC-LIB/lib_str.c:3800-3867 | an "0x" with no hexadecimal digit behind it is a zero that ends before the x |
| StrShapes.ParsedNothing | com板程序/uC-LIB/lib_str.c:3921-3925 | without a digit there is no number and the position is the start |
| StrShapes.ParsedRefused | com板程序/uC-LIB/lib_str.c:3740-3800 | an unsigned number is not parsed behind a minus, nor anything in a base that is none |
| StrShapes.SignedOfShape | com板程序/uC-LIB/lib_str.c:3093-3099 | the signed result for such a number is its value clamped to the signed 32-bit range |
| Ascii.Classes | com板程序/uC-LIB/lib_ascii.h:427-760 | the character classes by their codes |
| Ascii.Digits | com板程序/uC-LIB/lib_str.c:3461-3470 | digits by the alphabet, in either letter case |
| StrSearch.LenN | com板程序/uC-LIB/lib_str.c:278-295 | the length up to the NUL, at most the maximum; 0 for a null string |
| StrSearch.CmpN | com板程序/uC-LIB/lib_str.c:860-936 | 0 or the difference at the first disagreement, with and without letter case; a null string compares like an empty one |
| StrSearch.DifferenceZeroIff | com板程序/uC-LIB/lib_str.c:1137-1221 | a comparison yields 0 if and only if the two strings agree in their first n characters, up to letter case where that is ignored |
| StrSearch.DifferenceOrders | com板程序/uC-LIB/lib_str.c:907-932 | otherwise it is the difference of the codes where the strings part, negative exactly if the first comes first in lexicographic order |
| StrSearch.StrN | com板程序/uC-LIB/lib_str.c:1727-1793 | the least index at which the whole search string occurs, or NULL if and only if there is none |
| MathRand.Generator.Rand | com板程序/uC-LIB/lib_math.c:215-229 | the number returned is the next of the sequence and becomes the seed |
| MathRand.RandSeedIsAffine | com板程序/uC-LIB/lib_math.c:273-281 | the 32-bit wrap is invisible modulo 2^31 |
| MathRand.GeoDivisibility | com板程序/uC-LIB/lib_math.h:169-171 | the multiplier's geometric sums carry exactly as many factors of two as their length, because the multiplier is 1 modulo 4 |
| MathRand.ReturnsIff | com板程序/uC-LIB/lib_math.c:273-281 | n calls bring a seed back to itself if and only if 2^31 divides n |
| MathRand.NoRepeatWithinPeriod | com板程序/uC-LIB/lib_math.c:215-281 | no value comes twice within 2^31 calls |
| MathRand.FullPeriod | com板程序/uC-LIB/lib_math.c:215-281 | any 2^31 successive calls return every value of [0, 2^31) |
| MathRand.RepeatsIff | com板程序/uC-LIB/lib_math.c:215-281 | two calls return the same value if and only if they are a multiple of 2^31 calls apart |
| I2c.Event | com板程序/IAR/BSP/bsp_i2c.c:701-862 | for any flags: no octet outside the buffer, no underflow of the length, a bound on the length for each state and access type |
| I2c.Error | com板程序/IAR/BSP/bsp_i2c.c:915-951 | keeps the same invariant and the buffer |
| I2c.TransferCorrect | com板程序/IAR/BSP/bsp_i2c.c:701-951 | over any run of interrupts: one completion per finished transfer; the exact octets in order; n+2 or n+4 state-changing steps unless given up; the unreached part of the buffer untouched |
| I2c.SlaveAddressed | com板程序/IAR/BSP/bsp_i2c.c:728-741 | however far a transfer got, its first octet carries the slave's address and the direction, and so does the third of a combined one |
| I2c.EventAdvancesIff | com板程序/IAR/BSP/bsp_i2c.c:727-860 | which flag each state waits for: nothing is received, sent or posted on another |
| I2c.GivenUpIff | com板程序/IAR/BSP/bsp_i2c.c:778-951 | a transfer counts as given up exactly after an error or an address not acknowledged before its end |
| I2c.ReadyCompletes | com板程序/IAR/BSP/bsp_i2c.c:727-860 | when the bus is always ready, every interrupt advances the transfer and it ends after exactly that many |
| I2cTasks.RawIsHandle | com板程序/IAR/BSP/bsp_i2c.c:701-951 | on a record in order the handlers access nothing outside the buffer; on any other record they are modelled with the accesses they would make |
| I2cTasks.PostsConserved | com板程序/IAR/BSP/bsp_i2c.c:435-951 | in every run of locks, single stores, interrupts, ends of waits and reports, completions posted, the transfer under way and transfers overwritten add up to transfers started; the idle state absorbs every interrupt |
| I2cTasks.SetupSafeIff | com板程序/IAR/BSP/bsp_i2c.c:464-480 | in every reachable state, no run of the next call accesses memory outside a buffer if and only if the interrupts are disabled when it gets the lock |
| I2cTasks.TakesOwnIff | com板程序/IAR/BSP/bsp_i2c.c:464-484 | a completion that the next call's wait takes is bound to be its own, with the transfer over, if and only if the interrupts are disabled and no completion is left over when it gets the lock |
| I2cTasks.TidyWithoutTimeouts | com板程序/IAR/BSP/bsp_i2c.c:435-494 | as long as no wait has timed out, both hold for every call, nothing is overwritten and nothing outside a buffer accessed |
| I2cTasks.SuccessIsComplete | com板程序/IAR/BSP/bsp_i2c.c:478-494 | a call set up with the interrupts disabled that reports before another call gets the lock reports success only if all its octets have passed in order, even with a stale completion |
| I2cTasks.ReportIsOwn | com板程序/IAR/BSP/bsp_i2c.c:478-494 | after its own completion a call reports success if and only if no octet of its transfer is left, and all have passed then, as long as no length is stored for another call; if it was not given up that is success |
| I2cTasks.ReportIsAnyones | com板程序/IAR/BSP/bsp_i2c.c:486-491 | once another call may get the lock, the report may go either way |
| I2cTasks.FalseSuccessExample | com板程序/IAR/BSP/bsp_i2c.c:486-491 | without any timeout a call given up before any octet has passed may report success |
| I2cTasks.FalseFailureExample | com板程序/IAR/BSP/bsp_i2c.c:486-491 | and a call whose transfer is complete may report failure |
| I2cTasks.TimeoutReportsFailure | com板程序/IAR/BSP/bsp_i2c.c:478-493 | a call whose wait has timed out reports failure |
| I2cTasks.TimeoutExample | com板程序/IAR/BSP/bsp_i2c.c:464-484 | a run after which the next set-up is not safe, and one after which a completion is left over |
| I2c.Driver.StartXfer | com板程序/IAR/BSP/bsp_i2c.c:455-477 | with the lock, record set up and interrupts enabled; without it, nothing |
| I2c.Drivers.Start | com板程序/IAR/BSP/bsp_i2c.c:435-650 | a transfer is started if and only if buffer, length, controller and lock permit, on that controller only |
| I2c.Driver.EndWait | com板程序/IAR/BSP/bsp_i2c.c:478-487 | takes a completion or not, and releases the lock |
| I2c.Driver.Report | com板程序/IAR/BSP/bsp_i2c.c:489-493 | success only after a completion, with no octet left in the record at that time |
| I2c.Driver.EventIsr | com板程序/IAR/BSP/bsp_i2c.c:701-862 | on the shared record and the caller's buffer, does what Event says and keeps the rest of the buffer |
| I2c.Driver.ErrIsr | com板程序/IAR/BSP/bsp_i2c.c:915-951 | does what Error says |
| CpuTs.ExtendedExact | com板程序/uC-CPU/cpu_core.c:461-467 | in every run the timestamp is the true elapsed time less the whole timer ranges missed |
| CpuTs.TimestampIsElapsed | com板程序/uC-CPU/cpu_core.c:447-553 | with readings less than a timer range apart it is the elapsed time in the accumulator's range |
| CpuTs.TimestampIsElapsedIff | com板程序/uC-CPU/cpu_core.c:447-553 | it always agrees in the timer's bits, and altogether if and only if the ranges missed vanish in the accumulator |
| CpuTs.Timestamps.Get32 | com板程序/uC-CPU/cpu_core.c:447-471 | one reading accumulated modulo 2^32; a wider timer is truncated |
| CpuTs.Timestamps.Get64 | com板程序/uC-CPU/cpu_core.c:529-553 | the same for 64 bits |
| CpuTs.Timestamps.Update | com板程序/uC-CPU/cpu_core.c:584-595 | both, each with a reading of its own |
| CpuTs.Timestamps.constructor | com板程序/uC-CPU/cpu_core.c:1322-1358 | both start at 0 from the reading at initialisation |
| IntDisMeas.MaximaCorrect | com板程序/uC-CPU/cpu_core.c:834-1040 | over every properly nested run, the maximum is the longest completed outermost section, the current maximum the same since the last reset, and never larger |
| IntDisMeas.DurationIsElapsed | com板程序/uC-CPU/cpu_core.c:1030-1031 | a duration is the time elapsed, if that is less than the timer's range |
| IntDisMeas.Measurement.Start | com板程序/uC-CPU/cpu_core.c:834-841 | only the outermost entry takes the time |
| IntDisMeas.Measurement.Stop | com板程序/uC-CPU/cpu_core.c:1021-1040 | only the outermost exit updates the maxima |
| IntDisMeas.Measurement.MaxCurReset | com板程序/uC-CPU/cpu_core.c:711-723 | with nothing between its two critical sections, returns the current maximum less the overhead and resets it |
| IntDisMeas.ResetMissesNothingIff | com板程序/uC-CPU/cpu_core.c:711-723 | otherwise what it read is the maximum up to the clearing if and only if no section that ended in between was longer |
| IntDisMeas.Measurement.Init | com板程序/uC-CPU/cpu_core.c:1402-1432 | the overhead is the average of the empty sections to within half a count if neither their sum nor its rounding wraps, and, for a timer that counts beyond the number of sections, only then |
| SerEdit.StrCopy | com板程序/uC-LIB/lib_str.c:351-484 | the string with its NUL, and nothing behind it |
| SerEdit.Serial.RdStr | com板程序/IAR/BSP/bsp_ser.c:361-437 | for every input: stops at the first end of line, leaves exactly the edited text, NUL-terminated, in buffer and history, and nothing beyond the longer of the length and the previous line |
| SerEdit.Serial.Receive | com板程序/IAR/BSP/bsp_ser.c:396-434 | one character on the buffer does what the editor on strings does |
| SerEdit.EditedIff | com板程序/IAR/BSP/bsp_ser.c:372-434 | the lines that can result are exactly a beginning of the previous line with printable characters typed behind it while there is room; typing a printable line that fits reproduces it |
| SerEdit.LinesFitIff | com板程序/IAR/BSP/bsp_ser.c:403-430 | no input makes the line longer than asked for if and only if the previous line is not longer |
| SerEdit.ErasedIff | com板程序/IAR/BSP/bsp_ser.c:396-411 | backspace undoes a printable character if and only if the line was not full, or was empty |
| SerEdit.ArrowRecalls | com板程序/IAR/BSP/bsp_ser.c:413-430 | the up-arrow sequence leaves the previous line, from every text; inside another escape sequence it is typed instead |
| SerEdit.ColumnSurvives | com板程序/IAR/BSP/bsp_ser.c:396-434 | for every input each column shows what the one character put there that wrote it last, by typing or by recall, and was not rubbed out since |
| SerEdit.LineMoves | com板程序/IAR/BSP/bsp_ser.c:396-434 | by the codes of the characters alone: what one more character does to the line, and what can shorten it |
| SerEdit.EscapeOpenIff | com板程序/IAR/BSP/bsp_ser.c:413-434 | an escape sequence is open exactly after an odd number of escapes since the last character that is neither an escape nor a bracket |
| SerEdit.EndCodes | com板程序/IAR/BSP/bsp_ser.c:381-382 | a line ends with CR or LF |

## Left out

- I2c.Driver.Report: success does not say that the last octet written was acknowledged.
- I2c.Driver.StartXfer: the stores are one step of the method; I2cTasks has them one by one, in the order of the source text.
- IntDisMeas.Measurement.MaxCurReset: assumes that no section ends between its two critical sections; IntDisMeas.ResetMissesNothingIff says what is lost otherwise.
- I2c.Drivers.Start: the control register bits are not modelled; register set-up (`BSP_I2C_Init`) is device configuration.
- MemPools.MemLib.CreatePool: a pool record that is in the table already must not be passed again; lib_mem.c:698-700 forbids clearing it, which would break the lists.
- MemPools.BlkGet: `PoolPtrs` is a sequence in the record, not octets of the heap block that its address names; so what the stores behind a pointer table that is too short (2^30 blocks and more) destroy is not modelled.
- AllocRuns.InUseApart: the blocks held of a pool that is not exact are not included; PoolStack.ConservationIff, PoolCreation.PtrsHoldBlksIff and PoolCreation.PoolRangeIff say what goes wrong there.
- StrRoundTrip.RoundTrip: lead characters other than NUL, space and '0' are left out; some are digits to the parser (a lower-case letter is accepted as padding for upper-case output).
- StrSearch.CmpN: the two comparison functions share one model with a flag.
- SerEdit.Serial.RdStr: the memory behind the buffer and the history must hold the line recalled and the line typed, as the code copies both unchecked; SerEdit.LinesFitIff says when a buffer for the length asked for is enough. Echo, UART and the lock's release are not modelled.
- The checks for a null `perr`, a null `poctets_reqd` and a missing pool table: error pointers are results here, and the table is never empty after initialisation.
- Critical sections and semaphores are atomic steps; waits return a completion or a timeout as a parameter.
- String pointers that reach address zero.
- `Str_FmtNbr_32` (floating-point rounding), `Str_Cat_N`, `Str_Char_N`, `CPU_CntLeadZeros`, the `MEM_VAL` macros and `Mem_Clr`: easy on their own or about rounding.
- `CPU_IntDisMeasStop_cnts` plays no part in the maxima.
- Interrupt dispatch, peripherals, the temperature sensor and the network stubs are tables and thin wrappers.
