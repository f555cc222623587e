# Verified model of the memory manager

This project models the two-pool memory manager (`src/mem_mgr.c`, `src/policy_mgr.c`) and the looping
cores of the Unity test framework that the repository carries (`unity/src/unity.c`), and proves what
they promise for all inputs and all interleavings.

**Memory manager.** A request is admitted and reserved under a mutex, the allocator is called outside
it, and the counter is corrected afterwards: by the rounding slack, or by rolling the reservation back.
A free reads the real size, releases the block, and only then takes it off the counter. `Protocol.dfy`
states this as a transition system over unbounded integers, with any number of threads between any two
steps and the allocator's answers as part of the steps. `Invariant.dfy` holds the inductive invariant;
`Accounting.dfy`, `StorageBounds.dfy`, `Limits.dfy`, `Rollback.dfy` and `Fill.dfy` derive what it means
for every reachable state, `Tight.dfy` reaches the bounds and so says exactly how far each limit is kept, and
`Draining.dfy` leads from every reachable state back to the initial one.
`PolicyMgr.dfy` and `MemMgr.dfy` are classes with the 64-bit `size_t` and `signed long` arithmetic of
the code (ISO/IEC 9899:2011, sections 6.2.5 and 6.3.1.3); every atomic step of `MemMgr` is proved to be
the protocol step of the same name, and `AllocMem` and `FreeMem` are proved with arbitrary steps of
other threads in between. `SignedRange.dfy` says exactly when the signed additions are in range, and
`WrappedSum.dfy` when the wrapping of the unsigned sum changes a decision.

The parameters of a run are the managed memory, its split, `slack` (the most the allocator adds to one
block) and `inFlight` (the most allocations in flight at one time). The allocator hands out addresses
that are not live and may hand one out again before the free of the previous block is accounted for;
ledgers of unfinished calls are therefore kept by thread. Clients free only blocks they own, once,
through the right pool.

**Unity.** `Decimal.dfy`, `Hex.dfy`, `Mask.dfy`, `FloatText.dfy` and `FloatPrint.dfy` prove the number
printers against texts whose meaning is defined independently, and `FloatLayout.dfy` that the float
printer's text is the only one laid out by its rules. `Compare.dfy` proves the comparison loops, and
`Elements.dfy` what they decide about the bytes in memory. `Matcher.dfy` proves the test-name filter, and
`Filter.dfy` what a filter argument means as a list of names. The build has 32-bit `int`, 64-bit `UNITY_INT` and no
`double` support, so the float printer keeps 7 significant digits.

**Promises that the code does not keep in full**, each with its exact condition:

- "50% of the memory for each pool" (the repository's README, line 18) holds exactly when `50 * total` does not wrap (`QuotaSplit`).
- "Can't go over total_system_memory" (src/policy_mgr.c:82) holds in every reachable state exactly when
  the allocator never rounds up or nothing can be granted at all (`TotalRespectedIffNoSlack`). Otherwise
  the largest overshoot is `min(inFlight, total)` slacks, for the counters (`TotalMarginExact`) and for
  the real bytes in the allocator (`PhysicalMarginExact`) alike.
- "Can't go over storage_pool_total" (src/policy_mgr.c:103) holds in every reachable state exactly when
  the allocator never rounds up or storage can be granted nothing (`StorageRespectedIffNoSlack`).
  Otherwise the largest overshoot is `min(inFlight, storage quota / 4096)` slacks (`StorageMarginExact`).
- The half for exec (README, lines 122-128) is at its disposal whatever storage does exactly when storage
  can not pass its quota or the half is empty (`ExecHalfIffNoSlack`); what is guaranteed otherwise is
  the half less the largest storage overshoot (`ExecShareExact`).
- The signed addition in `policyMgrAdjustAlloc` stays in range exactly when the managed memory plus one
  slack for each allocation that can be in flight is below 2^63 (`SignedAdditionExact`).
- The system-wide check adds the counters with wrap-around. It decides every request in every reachable
  state as published exactly when the total plus the largest overshoot is below 2^64
  (`DecisionIffNoWrap`); `WrapReached` has a full manager grant a request with both counters in range.
- Comparing one value with an array that starts at the same address passes without looking
  (`SamePointerSound`, `SamePointerNumbers`).
- The filter scan reads past the terminator on an argument that is a lone quote, and on no other
  (`StringArgumentMatches`).

`dafny verify dfyconfig.toml` checks the project.

## Model

| member | source | states |
|---|---|---|
| Invariant.StepKeeps | src/mem_mgr.c:27-82 | every atomic step of an allocation or a free, by any thread, keeps the shape of the heap, the ledgers, the overshoot bound and the request bound |
| Invariant.ReachableInv | src/mem_mgr.c:27-82 | the invariant holds in every state of every interleaving |
| Invariant.GrantKeeps | src/policy_mgr.c:65-122 | a grant checks both limits, so whatever is in flight afterwards fits under the overshoot allowance and the outstanding requests fit in the memory |
| Invariant.SettleKeeps | src/mem_mgr.c:36-49 | charging slack without a check is paid for by the allocation leaving flight |
| Invariant.RollbackKeeps | src/mem_mgr.c:51-55 | giving a reservation back keeps every bound |
| Invariant.ShapeKept | src/mem_mgr.c:32-81 | each unfinished call holds exactly the block its locals name, also when addresses are reused |
| Accounting.Conservation | src/mem_mgr.c:27-82 | each counter is the real bytes of adjusted live blocks, plus requested bytes of allocations in flight, plus real bytes freed and not yet un-charged |
| Accounting.CountersCover | src/policy_mgr.c:139-141 | no counter is negative, or smaller than any block or call it accounts for |
| Accounting.OvershootBound | src/mem_mgr.c:32-56 | the counters exceed the managed memory, and storage its quota, by at most one slack per allocation that may be in flight less those now in flight |
| Accounting.PhysicalBound | src/mem_mgr.c:34-47 | the real bytes live in the allocator exceed the counters only by slack not yet charged, and never exceed the memory by more than `inFlight` slacks |
| Accounting.UnchargedSlackBound | src/mem_mgr.c:46-47 | uncharged slack is at most one slack per pending allocation |
| Accounting.RequestsFit | src/policy_mgr.c:103-122 | the requested bytes of all outstanding allocations fit in the memory, those of storage in its quota, whatever the slack |
| Accounting.GuaranteedShares | README.md:122-128 | an exec request within its half, less the slacks that storage allocations not in flight may have added, is granted whatever storage did; storage gets its whole quota back once exec is within its half |
| Accounting.ThreadsBoundInFlight | src/mem_mgr.c:27-59 | among at most `inFlight` threads, one that is idle finds room for its allocation |
| Accounting.ThreadedRunLegal | src/mem_mgr.c:27-82 | with at most `inFlight` threads, whatever they can do step after step is a legal interleaving, so the bound on allocations in flight is automatic |
| Accounting.PendingAtMostUsed | src/policy_mgr.c:65-122 | every pending allocation holds at least one byte of the counters |
| Accounting.ClampInFlight | src/policy_mgr.c:65-122 | allowing more allocations in flight than there are bytes allows no further state |
| Accounting.ClampedBound | src/mem_mgr.c:32-56 | the overshoot bound with as many slacks as allocations can really be in flight |
| Accounting.Quiescence | src/mem_mgr.c:71-82 | with no call in progress each counter is exactly the real bytes of its live blocks, all of them the clients' |
| Accounting.Drain | src/policy_mgr.c:16-35 | when everything granted has been freed the manager is in its initial state again |
| Rollback.ShadowStep | src/policy_mgr.c:65-122 | whatever another thread is granted beside a doomed reservation it is granted without it, to the same effect |
| Rollback.RollbackTransparent | src/mem_mgr.c:51-55 | an allocation that fails in the allocator leaves the state the other threads reach on their own, whatever they did meanwhile |
| Limits.MachineLimits | src/policy_mgr.h:25-29 | whatever the 64-bit counters hold, no exec request outside 1 to 8388608 bytes and no storage request outside 4096 to 67108864 bytes is granted |
| Limits.GrantedExactly | src/policy_mgr.c:65-115 | in every reachable state the machine grants exactly the sizes in those ranges that fit in what the counters leave of the memory and of the storage quota |
| Limits.GrantedByLiveBytes | src/policy_mgr.c:65-115 | with no call in progress, exactly those that fit beside the real bytes of the live blocks |
| Limits.GrantedFresh | src/policy_mgr.c:65-115 | a fresh manager grants every size in range that fits, and no other |
| Limits.SizesRefused | src/tests.c:84-119 | what the size tests expect to be refused is refused in every state |
| Limits.SizesGranted | src/tests.c:60-113 | what they expect to be granted is granted |
| Fill.GreedyFill | src/tests.c:153-204 | repeating one request with constant real size is granted exactly `FillCount` times: every one up to the count, and not the next |
| Fill.CountMeaning | src/policy_mgr.c:103-114 | the closed form `(room - n) / size + 1` is the number of requests that fit, both directions |
| Fill.ExecQuotaTest | src/tests.c:153-175 | the run of the test: 16 exec requests of 8 MiB are granted, and then neither the largest nor the smallest |
| Fill.StorageQuotaTest | src/tests.c:177-204 | the run of the test: one storage request of 64 MiB is granted, and then neither the largest nor the smallest |
| Fill.AllocFreeRoundTrip | src/mem_mgr.c:27-82 | freeing what was just allocated restores counters, heap and calls exactly |
| Tight.OvershootReached | src/mem_mgr.c:46-47 | the system bound is tight: for every number of bytes up to `min(inFlight, total)` slacks an interleaving ends that far above the memory |
| Tight.StorageOvershootReached | src/policy_mgr.c:103-122 | the storage bound is tight: with any part of its half in use by exec, and for every number of bytes up to the bound, an interleaving ends with storage that far above its quota, and exec is then granted exactly what is left of its half less those bytes |
| Tight.TotalMarginExact | src/policy_mgr.c:113-115 | the counters stay within a margin of the memory in every reachable state if and only if it covers one slack for each allocation that can be in flight |
| Tight.PhysicalMarginExact | src/mem_mgr.c:34-47 | the same for the real bytes live in the allocator |
| Tight.StorageMarginExact | src/policy_mgr.c:103-105 | storage stays within a margin of its quota in every reachable state if and only if it covers one slack for each storage allocation that can be in flight |
| Tight.ExecShareExact | README.md:122-128 | exec is granted its half less a margin in every reachable state if and only if the margin covers one slack for each storage allocation that can be in flight, or leaves nothing of the half |
| Tight.TotalRespectedIffNoSlack | src/policy_mgr.c:82-84 | the counters stay within the memory in every reachable state if and only if there is no slack or nothing can be granted |
| Tight.StorageRespectedIffNoSlack | src/policy_mgr.c:103-105 | storage stays within its quota in every reachable state if and only if there is no slack or storage can be granted nothing |
| Tight.ExecHalfIffNoSlack | README.md:122-128 | exec is granted any in-range request within its half in every reachable state if and only if there is no slack, storage can be granted nothing, or the half is empty |
| StorageBounds.BlocksCoverCalls | src/mem_mgr.c:32-47 | the live blocks are charged at least what the calls still charging one of them requested |
| StorageBounds.PendingFitUsed | src/policy_mgr.c:96-122 | each pending allocation of a pool holds at least the pool's smallest request of its counter |
| StorageBounds.StorageBound | src/policy_mgr.c:103-122 | storage exceeds its quota by at most one slack for each storage allocation that can be in flight (`min(inFlight, quota / 4096)`), less those now in flight |
| Draining.ContinuedRun | src/mem_mgr.c:27-82 | in whatever order calls in progress go on, and whatever the allocator answers, they are finished after a fixed number of steps and not before, and the clients' blocks are left alone |
| Draining.NeverStuck | src/mem_mgr.c:27-82 | a thread inside a call can always take its next step |
| Draining.DrainReached | src/mem_mgr.c:27-82 | from every reachable state the calls in progress can finish and the client can free its blocks, with no new request, and the manager is then in its initial state |
| CArith.ToLong | src/policy_mgr.c:140-141 | converting to `signed long` and back is the identity |
| CArith.NegatedSize | src/mem_mgr.c:53 | a negated `size_t` passed as `signed long` is the negative number if and only if the size is at most 2^63 |
| PolicyMgr.QuotaSplit | src/policy_mgr.c:19-31 | for every 64-bit total the split adds up and exec gets no more than storage; it is floor and ceiling of a half exactly when the product does not wrap |
| PolicyMgr.AdmissionExact | src/policy_mgr.c:55-115 | the 64-bit decision is the published policy for all requests if and only if the sum of the counters does not wrap or both pools are full on their own |
| PolicyMgr.PolicyMgr.Init | src/policy_mgr.c:7-38 | a fresh manager: zero counters, the limits, a split that adds up |
| PolicyMgr.PolicyMgr.Alloc | src/policy_mgr.c:45-130 | grants exactly by the range, pool and system limits, never outside 1 byte to 8 MiB or 4 KiB to 64 MiB, and then charges exactly the requested bytes to that pool |
| PolicyMgr.PolicyMgr.AdjustAlloc | src/policy_mgr.c:132-143 | the counter moves by the difference modulo 2^64; the other pool is untouched |
| MemMgr.DecisionExact | src/policy_mgr.c:55-115 | where the largest overshoot stays below 2^64 the machine decision is the published policy in every reachable state, so the exec-only check on line 83 decides nothing the system-wide one does not |
| MemMgr.PendingRoom | src/policy_mgr.c:140-141 | while an allocation is pending its counter has room for a full slack below 2^63 |
| MemMgr.FreedRoom | src/mem_mgr.c:75-81 | a freed block's size is positive and covered by its counter, so un-charging never goes below zero |
| MemMgr.MemMgr.constructor | src/policy_mgr.c:7-38 | initialisation with any 64-bit total gives the initial state of the protocol |
| MemMgr.MemMgr.RequestStep | src/mem_mgr.c:32 | refines the protocol's request step; what is granted is within the size limits of its pool |
| MemMgr.MemMgr.MallocStep | src/mem_mgr.c:34-38 | refines the allocator's answer, block or NULL |
| MemMgr.MemMgr.SettleStep | src/mem_mgr.c:39-47 | refines the charging of slack; the assertion and the signed sum hold |
| MemMgr.MemMgr.RollbackStep | src/mem_mgr.c:53 | refines the rollback through unsigned negation |
| MemMgr.MemMgr.SizeStep | src/mem_mgr.c:75-78 | refines reading the size, which is never zero |
| MemMgr.MemMgr.ReleaseStep | src/mem_mgr.c:80 | refines releasing the block |
| MemMgr.MemMgr.UnchargeStep | src/mem_mgr.c:81 | refines un-charging through unsigned negation |
| MemMgr.MemMgr.RunOthers | src/mem_mgr.c:32-81 | any steps of other threads leave the caller's own call where it was |
| MemMgr.MemMgr.Serve | src/mem_mgr.c:34-55 | from the reservation to the end of the call, with any steps of other threads in both gaps |
| MemMgr.MemMgr.AllocMem | src/mem_mgr.c:27-59 | for any steps of other threads in its gaps, the call is the protocol run of its steps; it returns the block exactly when granted and served, and a failed call leaves no trace |
| MemMgr.MemMgr.FreeMem | src/mem_mgr.c:71-82 | for any steps of other threads in its gaps, the call is the protocol run of its steps |
| SignedRange.SignedAdditionExact | src/policy_mgr.c:139-141 | every signed addition about to be made (slack, rollback or free) is in range in every reachable state if and only if nothing can be in flight, or the total plus one slack for each allocation that can be in flight is below 2^63 |
| SignedRange.Crossing | src/mem_mgr.c:46-47 | otherwise slack charged thread after thread, in blocks of `size_t` sizes, reaches an addition that overflows |
| SignedRange.RollbackOverflow | src/mem_mgr.c:53 | with 2^63 bytes or more, one failed request takes the rollback out of range |
| WrappedSum.DecisionIffNoWrap | src/policy_mgr.c:55-115 | over counters taken modulo 2^64 the machine decision is the published policy in every reachable state if and only if the largest overshoot stays below 2^64 |
| WrappedSum.WrapReached | src/policy_mgr.c:63-115 | a reachable state with both counters in range and a full memory whose wrapped sum is 0, so that the smallest exec request is granted |
| Decimal.PrintNumberUnsigned | unity/src/unity.c:253-269 | prints the decimal text of any 64-bit value; both loops end and the divisor never overflows |
| Decimal.InitialDivisor | unity/src/unity.c:255-261 | the divisor is a power of ten, not above the number unless it is one, and leaves a single leading digit |
| Decimal.PrintNumber | unity/src/unity.c:238-249 | prints the signed text of any 64-bit value, the smallest included |
| Decimal.DecimalRoundTrip | unity/src/unity.c:251-269 | the text has no leading zeros and reads back to the number |
| Decimal.DecimalUnique | unity/src/unity.c:251-269 | every canonical text is what is printed for the number it denotes |
| Decimal.SignedTextExact | unity/src/unity.c:238-249 | a text denotes the number if and only if it is the printed one |
| Hex.PrintNumberHex | unity/src/unity.c:272-295 | appends as many digits as asked for, up to 16, that denote the number modulo that power of 16; for any other count, 16 that denote the number itself |
| Hex.DigitChars | unity/src/unity.c:286-293 | the digits are 0 to 9 and A to F |
| Hex.HexRoundTrip | unity/src/unity.c:272-295 | the text has exactly the digits asked for and denotes the number modulo that power of 16 |
| Hex.HexUnique | unity/src/unity.c:272-295 | every upper-case hexadecimal text is what is printed for the number it denotes |
| Mask.PrintMask | unity/src/unity.c:298-322 | appends 32 characters, each of which shows its own bit of the mask and of the number |
| Mask.MaskChar | unity/src/unity.c:303-321 | the character of a bit is X under a zero of the mask and the bit of the number otherwise |
| Mask.MaskRoundTrip | unity/src/unity.c:298-322 | the low mask bits and the masked number bits, and nothing else, are recovered from the text |
| Mask.AndBit | unity/src/unity.c:305-307 | testing with the moving single bit tests that bit |
| FloatPrint.PrintScaled | unity/src/unity.c:428-488 | from the scaled integer on, prints the text of the literal for `n * 10^x`, which is laid out by the rules of `ScaledTextExact` |
| FloatPrint.FillDigits | unity/src/unity.c:445-451 | the digit loop writes the padded digits backwards and stays inside the 16-byte buffer |
| FloatPrint.PrintBuffer | unity/src/unity.c:453-461 | prints the buffer in order, with the point before the decimals |
| FloatPrint.PrintExponent | unity/src/unity.c:463-488 | prints the signed exponent with at least two digits, or nothing for zero |
| FloatPrint.TrimZeros | unity/src/unity.c:438-443 | drops exactly the zeros at the end of the decimals |
| FloatText.ScaledLiteralDenotes | unity/src/unity.c:428-488 | the text denotes exactly `n * 10^x`, in plain or exponent notation |
| FloatText.Unambiguous | unity/src/unity.c:428-488 | a text can be read as a literal in one way only |
| FloatText.NoTrailingZero | unity/src/unity.c:438-443 | no printed fraction ends in a zero |
| FloatLayout.LayoutLaid | unity/src/unity.c:434-488 | for seven digits, plain notation is chosen exactly for the scales -10 to 0; otherwise one nonzero digit stands before the point and the exponent has two digits, or more only from 100 on; no leading zeros |
| FloatLayout.LaidUnique | unity/src/unity.c:434-488 | no other literal that follows those rules denotes the number |
| FloatLayout.ScaledTextExact | unity/src/unity.c:428-488 | a text is the printed one if and only if it follows the rules and denotes the number; seven digits rounded up to eight carry into the scale |
| FloatLayout.PlainExample | unity/src/unity.c:435-461 | 31.4, character by character |
| FloatLayout.ExponentExample | unity/src/unity.c:463-488 | 1.5e-07 |
| FloatLayout.CarryExample | unity/src/unity.c:428-432 | 1e+07 from the carry |
| Compare.TooFar | unity/src/unity.c:1534-1555 | the unsigned subtraction of the smaller from the larger is the true distance, for both signednesses |
| Compare.Held | unity/src/unity.c:1463-1532 | the 64-bit variable holds the element's true value, or that value wrapped for 64-bit unsigned ones |
| Compare.Unity.AssertNumbersArrayWithin | unity/src/unity.c:1424-1585 | each outcome and its exact condition; passing means all elements are within the delta, failing names the first that is not with its true values |
| Compare.Unity.CompareNumbers | unity/src/unity.c:1458-1584 | the loop: all within, or the first element outside |
| Compare.Unity.AssertEqualMemory | unity/src/unity.c:1750-1819 | each outcome and its exact condition; passing means all bytes agree, failing names the first element and byte that differ |
| Compare.Unity.CompareBytes | unity/src/unity.c:1788-1818 | the two loops, for an array and for one value against an array |
| Compare.SamePointerSound | unity/src/unity.c:1778-1781 | passing on equal pointers is right in every memory if and only if the array is compared with itself or has one element |
| Compare.SamePointerNumbers | unity/src/unity.c:1448-1451 | the same for numbers, where a delta that spans all values also makes it right |
| Elements.ElementValue | unity/src/unity.c:1463-1532 | the value of an element of each display style, written out in its 1, 2, 4 or 8 bytes, as two's complement for the signed styles |
| Elements.WithinDelta | unity/src/unity.c:1534-1555 | an element is accepted exactly when it is neither more than the delta below the expected value nor more than that above it |
| Elements.MismatchValues | unity/src/unity.c:1557-1577 | a mismatch reports the expected value as expected and the actual one as actual |
| Elements.EqualElement | unity/src/unity.c:1463-1584 | with delta 0 an element is accepted if and only if its 1, 2, 4 or 8 bytes are those of the expected element |
| Elements.ElementBytes | unity/src/unity.c:1788-1818 | memory equality compares each element with the one expected value or with the expected element of the same number |
| Elements.NumbersEqualMemory | unity/src/unity.c:1424-1585 | an array of numbers passes with delta 0 if and only if its bytes pass the memory comparison |
| Matcher.IsStringInBiggerString | unity/src/unity.c:2332-2374 | nonzero exactly when the pattern starts with a star, or its prefix up to the first ending character at index 1 or later occurs; 2 exactly when that character is a colon |
| Matcher.StringArgumentMatches | unity/src/unity.c:2377-2437 | for every argument: reads out of bounds exactly when it is a lone quote, and otherwise returns 1 exactly when some token matches file or test name |
| Matcher.MatchToken | unity/src/unity.c:2410-2430 | the three ways a token matches |
| Matcher.ScanToken | unity/src/unity.c:2393-2403 | finds the end of a token and its last colon with a character after it; reads out of bounds exactly when it starts at the terminator |
| Matcher.NoStartBetween | unity/src/unity.c:2405-2408 | the loop skips no token |
| Matcher.LoneQuote | unity/src/unity.c:2386-2398 | a lone quote is the only nonempty argument whose first token would start at the terminator |
| Filter.PatternAnswer | unity/src/unity.c:2332-2374 | for a plain name, whatever ends it: the answer is 0 if it does not occur, else 2 at a colon and 1 at anything else |
| Filter.ItemMeaning | unity/src/unity.c:2410-2430 | a token matches exactly when the name in it occurs in the file or the test name, or the one before the colon in the file and the one after it in the test name |
| Filter.FilterMeaning | unity/src/unity.c:2377-2437 | an argument selects a test if and only if one of its items does, for every list of items with any commas, quotes and colons between them and any stars after them |
| Filter.OneName | unity/src/unity.c:2386-2391 | a name selects the same tests plain, in either quote, and with a star |
| Filter.FileAndTest | unity/src/unity.c:2417-2424 | `f:t` selects the tests with `f` in the file and `t` in the test name |
| Filter.EitherName | unity/src/unity.c:2354-2355 | `a,b` selects the tests that `a` or `b` selects |

## Left out

- The allocator itself: `je_malloc`, `je_sallocx` and `je_free` are answers with the contract above; their size classes are not part of this model.
- The mutex and `destroyPolicyMgr`: a locked region is one atomic step.
- Freeing NULL, garbage, twice or through the other pool, and re-initialising with live blocks: undefined in the code, excluded by precondition as src/tests.c:273-274 does.
- The four public wrappers in src/mem_mgr.c:61-92, which only fix the pool argument.
- Retry on out-of-memory, alignment, eviction and several mutexes: described in the repository's README, not in the code.
- PolicyMgr.PolicyMgr.AdjustAlloc: a signed addition out of range is undefined in C and excluded by precondition; the steps of `MemMgr` that reach it are stated within the range (`Fits`) that `SignedAdditionExact` shows to be necessary, and prove that it is not left.
- Scaling and rounding in the float printer before unity/src/unity.c:428, and the float and double assertions: floating-point arithmetic.
- FloatPrint.PrintScaled: the exponent is any `int` that leaves room for the adjustments, more than a float can give; the configuration with `double` support is not modelled.
- The text of failure messages, `longjmp`, the test runner and option parsing: the assertions' outcomes stand for them.
- Matcher.StringArgumentMatches: strings are sequences with an implied terminator, and pointers into them are indexes; after a read out of bounds the model ends, as C promises nothing.
- Filter.FilterMeaning: names are free of the characters that mean something in a filter; other arguments are covered by `StringArgumentMatches` only.
- Compare.Unity.AssertNumbersArrayWithin: memory is a value, and elements are read in little-endian order.
