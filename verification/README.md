# Verified models of the DRM core in kms-drm

This project models seven pieces of the kernel's graphics core and proves what they promise:

- the lock-free single-producer single-consumer job queue (`SpscQueue.dfy`),
- 32.32 and 20.12 fixed-point arithmetic (`Words.dfy`, `FixedPoint.dfy`, `FixedDivide.dfy`, `FixedExp.dfy`, `Dfixed.dfy`),
- normalisation of plane z-positions, with the part of the atomic state it relies on (`ZposNormalize.dfy`), and the rotation rewrite (`Rotation.dfy`),
- masters and authentication of primary-node clients (`DrmAuth.dfy`),
- the AGP memory list (`AgpMemory.dfy`),
- the bridge chain of an encoder (`BridgeChain.dfy`),
- the ATI GART table (`PciGart.dfy`).

`Options.dfy`, `Errno.dfy` and `Bits.dfy`, which ties bit operations on words to arithmetic on numbers, are shared. `dafny verify dfyconfig.toml` checks everything.

## How the models are built

State that the source changes in place lives in a class, and each method carries out the source's steps in their order. Its contract ties the new state to a step function on values (`Apply`, `Step`, `Attach`), or says outright what holds afterwards. What the source promises is then proved about the step function: invariants of every step, and theorems over every run, where a run is a sequence of operations and the states between them.

Pointers are optional numbers, and a heap of objects is a map from numbers to contents. Whatever an allocator, a hook, a backend or the DMA layer answers is part of the operation, so every theorem is about all answers. A section under a mutex is one operation. The job queue has one action for every access to shared memory, and producer and consumer interleave freely under sequential consistency.

Machine integers are explicit: `WrapS64`, `WrapU64` and `WrapS32` are truncation to a width, a shift to the right is a division that rounds down, and `div64_s64` rounds toward zero. A zero divisor and the signed quotient -2^63 / -1 are outcomes of their own.

## Where the code does less than one would expect

Each of these is a lemma with a concrete input or run, next to a lemma that gives the exact condition, or, for the exponential, bounds it from both sides.

- Multiplying -1.0 by -0.5 overflows, since the two `msbset` values stay below the threshold and the product is 2^63 (`MinusOneTimesMinusHalf`, `ProductFitsIff`).
- Dividing -2^63, which is what every negative power of two is shifted to, by what is shifted to -1 overflows, even where the quotient would fit (`MinusTwoByMinusOneUnit`, `DivYields`).
- The exponential overflows for every argument of magnitude 22.0 or more, negative ones included although their result would be small (`LargeExpOverflows`), and for none up to 21.0 (`ExpWideRange`). At -2^31, whose magnitude is no 32.32 number, it is 1.0 (`MostNegativeExp`). Where nothing overflows the value is the one meant (`ExpAgrees`).
- The z-position comparator subtracts unsigned values into an `int`, so planes more than 2^31 apart can be ordered in a circle (`CompareCycle`, `CompareExactIff`), and two such planes get each other's numbers (`TwoRankedIff`).
- A failing `master_set` hook leaves the file marked as master. Two files can be current master later (`TwoCurrentMasters`, `FailedPromotionKeepsUniqueIff`).
- A file that holds a token keeps it when it becomes master of a new group. If the token was not used, it names the file in the old group even after the file is closed (`TokenOfClosedFile`, `PromotionKeepsTokensIff`). In any case the next file of the new group can be given the same token (`TwoHoldersOfOneToken`, `PromotedHolderClashes`, `PromotionKeepsMagicIff`).
- Freeing AGP memory ignores whether unbinding worked (`FreedBlockLeaks`, `ClearedBlockLeaks`, `FreeKeepsInvIff`, `ClearKeepsInvIff`). A block bound at an offset that does not fit an `int` is kept with a wrong address (`LargeOffsetWrongAddress`, `BoundExactIff`), and one whose offset cancels the base counts as unbound (`BoundAtZero`, `BindKeepsInvIff`).
- GART cleanup stops at the first zero bus address (`ZeroPageStopsCleanup`, `CleanupUnmapsIff`), and after a mapping failure it works with the table address of before (`FailureUnmapsTooLittleOrTooMuch`, `FailureUnmapsIff`).
- Attaching a bridge anywhere but at the end of a chain, be it behind a bridge that has a successor (`SuccessorIsDropped`) or to an encoder that has a bridge (`FirstIsDropped`), drops what was there. The bridges dropped stay attached and are never called again. All attached bridges are reached from their encoders exactly when every successful request went to an end (`AttachReachesIff`, `RunLeadsIff`).

Two more places, which the contracts of the operations state: `drm_agp_enable` does not check for an earlier enable, although its comment says so; and a DMA mask that cannot be set makes `drm_ati_pcigart_init` return 1 without a table.

## Model

| member | source | states |
|---|---|---|
| SpscQueue.StepKeepsInv | include/drm/spsc_queue.h:65-118 | Every atomic access of a push or a pop reads valid pointers and keeps the linked-list invariant, while the queue it stands for makes the matching FIFO step |
| SpscQueue.RunKeepsInv | include/drm/spsc_queue.h:65-118 | The invariant, and the conservation of pushed nodes, hold in every state of every interleaving |
| SpscQueue.RefinesFifo | include/drm/spsc_queue.h:65-118 | In every reachable state, only the link write appends to the FIFO queue, only the head read removes its first node, and all other accesses leave it alone; no read or write, the link write included, goes to memory that is not known |
| SpscQueue.FifoOrder | include/drm/spsc_queue.h:65-118 | What pops returned is a prefix of what was linked, which is a prefix of what was pushed: push order, none lost, none duplicated |
| SpscQueue.StepConserves | include/drm/spsc_queue.h:69-118 | Pushed nodes are linked or still entering, taken nodes returned or still leaving |
| SpscQueue.PopNullIffEmpty | include/drm/spsc_queue.h:55-58 | The head is the oldest linked node not yet taken; a pop returns NULL exactly when every linked node has been returned |
| SpscQueue.ReturnedNodeUntouched | include/drm/spsc_queue.h:101-118 | A returned node is not reachable from the tail, no pending push writes to it, and no access writes to it until it is pushed again |
| SpscQueue.WaitLoopIsFreed | include/drm/spsc_queue.h:104-114 | While the wait loop reads NULL the producer stands between its exchange and its link write to that very node; once written, the next pass leaves the loop with the new head |
| SpscQueue.JobCountLaw | include/drm/spsc_queue.h:60-63 | job_count is the abstract length minus a push that has linked but not counted plus a pop that has taken but not counted; it is at least -1, and exact when both sides are idle |
| SpscQueue.EmptyUntilLink | include/drm/spsc_queue.h:96-99 | After a pop that returned NULL the queue stays empty and the consumer idle until the next link write |
| SpscQueue.PushReturns | include/drm/spsc_queue.h:73-85 | A push returns true exactly when, at its exchange, nothing was linked and untaken and no pop still had its node in the chain, whatever pops do before it returns |
| SpscQueue.FirstLinkAfterNullWakes | include/drm/spsc_queue.h:73-99 | The first node linked after a pop that returned NULL comes from a push that returns true, even if pops get ahead of its return |
| SpscQueue.JobQueue.constructor | include/drm/spsc_queue.h:48-53 | A new queue is empty, with the tail at the head slot and both sides idle |
| SpscQueue.JobQueue.Clear | include/drm/spsc_queue.h:69-69 | The new node's next pointer is cleared |
| SpscQueue.JobQueue.Swap | include/drm/spsc_queue.h:73-73 | The tail is exchanged for the new node's slot |
| SpscQueue.JobQueue.Link | include/drm/spsc_queue.h:74-74 | The node is written to the old tail slot, which is where it joins the queue |
| SpscQueue.JobQueue.CountUp | include/drm/spsc_queue.h:75-85 | The count goes up, and the push returns whether its slot was the head, which `PushReturns` gives a meaning |
| SpscQueue.JobQueue.ReadHead | include/drm/spsc_queue.h:96-99 | The head is read; without a node the pop ends, else the oldest node is taken |
| SpscQueue.JobQueue.ReadNext | include/drm/spsc_queue.h:101-101 | The taken node's next pointer is read |
| SpscQueue.JobQueue.WriteHead | include/drm/spsc_queue.h:102-104 | The head becomes what was read, and NULL leads to the slow path |
| SpscQueue.JobQueue.CompareAndSwap | include/drm/spsc_queue.h:105-108 | The tail returns to the head slot if it still is the taken node's slot, else the pop waits |
| SpscQueue.JobQueue.WaitRead | include/drm/spsc_queue.h:109-112 | One read of the wait loop |
| SpscQueue.JobQueue.WaitWrite | include/drm/spsc_queue.h:112-114 | The head becomes the node the wait loop found |
| SpscQueue.JobQueue.CountDown | include/drm/spsc_queue.h:116-117 | The count goes down and the taken node is returned |
| SpscQueue.JobQueue.Push | include/drm/spsc_queue.h:65-86 | A whole push without a pop in between appends the node, reports whether the queue was empty, and makes the count the length |
| SpscQueue.JobQueue.Spin | include/drm/spsc_queue.h:109-112 | One pass of the wait loop either leaves it or lets a producer that was caught link its node |
| SpscQueue.JobQueue.Detach | include/drm/spsc_queue.h:104-114 | The slow path ends with the node detached; at most the caught producer's node was added meanwhile |
| SpscQueue.JobQueue.Unlink | include/drm/spsc_queue.h:101-114 | From the head read on, the taken node is detached whatever the producer is doing |
| SpscQueue.JobQueue.Pop | include/drm/spsc_queue.h:89-118 | A whole pop returns the oldest node whatever the producer is doing, and NULL exactly on an empty queue, which it leaves alone |
| FixedPoint.MsbSet | include/drm/drm_fixed.h:97-106 | The downward scan finds the most significant bit that differs from the sign, for every s64 |
| FixedPoint.MsbIsMsb | include/drm/drm_fixed.h:97-106 | That bit is m with -2^(m+1) <= a < 2^(m+1) and no smaller m |
| FixedPoint.FixpMul | include/drm/drm_fixed.h:108-129 | The shifting and multiplying steps compute `Mul`, wrap-around included, for all operands |
| FixedPoint.ShiftOperands | include/drm/drm_fixed.h:110-118 | What the msb values exceed 61 by is split between the operands, and the odd bit goes to the first |
| FixedPoint.RescaleBounds | include/drm/drm_fixed.h:122-128 | The final shift, in whichever direction, gives the floor of the product scaled back to 32 bits, for any sign |
| FixedPoint.ProductFitsIff | include/drm/drm_fixed.h:110-120 | The pre-shifts keep the product inside s64 unless both operands are negative, meet the threshold, and shift to the most negative numbers of their widths; then they do not |
| FixedPoint.ProductFits | include/drm/drm_fixed.h:110-120 | Operands that are not both negative never overflow |
| FixedPoint.MinusOneTimesMinusHalf | include/drm/drm_fixed.h:113-120 | -1.0 times -0.5 overflows and comes out as -0.5 |
| FixedPoint.MulExact | include/drm/drm_fixed.h:117-129 | Without pre-shift the result is the floor of the exact product, whatever the signs |
| FixedPoint.MulApprox | include/drm/drm_fixed.h:108-129 | For non-negative operands with a product below 2^95 the result never exceeds the exact one, is its floor if the msb values sum to at most 61, and otherwise falls short by less than the two pre-shifts and the final shift can drop |
| FixedPoint.MulSignedApprox | include/drm/drm_fixed.h:108-129 | For operands of any signs the result is off by less than what the two pre-shifts and the final shift can change, as long as neither the product nor the final shift overflows |
| FixedDivide.FixpDiv | include/drm/drm_fixed.h:131-147 | The shifting and dividing steps compute `Div`, a zero divisor and the quotient that does not fit included |
| FixedDivide.TruncDivIff | include/drm/drm_fixed.h:141-141 | The quotient is rounded toward zero: it is the only number whose product with the divisor does not exceed the numerator in magnitude and is less than a divisor off it |
| FixedDivide.NumeratorFits | include/drm/drm_fixed.h:133-136 | Shifting the numerator to the top never leaves s64 |
| FixedDivide.DivExact | include/drm/drm_fixed.h:131-147 | For a >= 0, b > 0 and msb(a) <= 30 the result is floor(a * 2^32 / b) |
| FixedDivide.DivWithinOneIff | include/drm/drm_fixed.h:131-147 | For any signs and msb(a) <= 30 there is a result, less than one unit off the true quotient, exactly when the division does not overflow |
| FixedDivide.DivYields | include/drm/drm_fixed.h:131-147 | For all operands: the divisor is shifted to zero exactly when 0 <= b < 2^k, the quotient overflows exactly when a is minus a power of two and -2^k <= b < 0, and otherwise there is a value inside s64; k is how far the divisor is shifted |
| FixedDivide.MinusTwoByMinusOneUnit | include/drm/drm_fixed.h:136-141 | -2 units by -1 unit, and -1.0 by -2 units, overflow |
| FixedDivide.MinusOneByThree | include/drm/drm_fixed.h:131-147 | -1.0 by 3.0 is -1431655765 units, the nearer to zero of the two candidates |
| FixedDivide.DivApprox | include/drm/drm_fixed.h:131-147 | For larger numerators and b >= 2^k the result is at least the true floor, and result * (b - 2^k + 1) <= a * 2^32 |
| FixedDivide.DivSignedApprox | include/drm/drm_fixed.h:131-147 | For larger numerators of any sign, whenever there is a value, result * b is off from a * 2^32 by at most what the low bits of the divisor are worth and one shifted divisor |
| FixedDivide.FixpFromFraction | include/drm/drm_fixed.h:149-186 | The bit loop gives the correctly rounded quotient, truncated to s64, for all operands, the most negative ones included |
| FixedDivide.FractionBits | include/drm/drm_fixed.h:161-173 | The 32 turns keep quotient * b + remainder = a * 2^k, so they end with the remainder of a * 2^32 by b and the quotient cut to u64 |
| FixedDivide.FractionAbs | include/drm/drm_fixed.h:158-184 | The magnitude is the rounded quotient of the magnitudes cut to 64 bits, and so is its negation |
| FixedDivide.NearestIsNearest | include/drm/drm_fixed.h:149-186 | That quotient is a * 2^32 / b rounded to nearest, ties away from zero |
| FixedDivide.NearestUnique | include/drm/drm_fixed.h:175-180 | Only one number is nearest in that sense |
| FixedDivide.NearestOdd | include/drm/drm_fixed.h:182-184 | It changes sign with either argument |
| FixedDivide.FromFractionCorrectIff | include/drm/drm_fixed.h:149-186 | The result is correctly rounded exactly when the rounded quotient fits in s64 |
| FixedExp.FixpExp | include/drm/drm_fixed.h:188-209 | The loop terminates for every argument, overflowing ones included, by first reaching 2 * y and then halving terms, and computes `ExpValue`, where sums and products are cut to 64 bits |
| FixedExp.ExpIsSum | include/drm/drm_fixed.h:188-209 | For every argument the value is 1.0 plus the computed terms before the first below 4294 units, a millionth, cut to 64 bits; or 1.0 divided by that |
| FixedExp.ExpAroundMillionth | include/drm/drm_fixed.h:190-203 | 4293 units still give 1.0, 4294 units do not |
| FixedExp.ExpAgrees | include/drm/drm_fixed.h:188-209 | Where no sum or product overflows, the value is the one computed over unbounded integers |
| FixedExp.TermHalves | include/drm/drm_fixed.h:199-203 | Once count has reached 2 * y the next term is at most half of the last, and its product fits |
| FixedExp.SeriesRange | include/drm/drm_fixed.h:199-203 | For y <= 1.0 the loop ends with count at most 10, without overflow, and the sum stays below 3.0 |
| FixedExp.ExpRange | include/drm/drm_fixed.h:188-209 | For arguments in [-1.0, 1.0] there is no overflow, and the result is in [1, 3], or in [1/3, 1] for negative ones |
| FixedExp.ExpWideRange | include/drm/drm_fixed.h:188-209 | Nothing overflows for arguments in [-21.0, 21.0] |
| FixedExp.LargeExpOverflows | include/drm/drm_fixed.h:199-203 | Every argument of magnitude 22.0 or more makes a sum or a product overflow |
| FixedExp.MostNegativeExp | include/drm/drm_fixed.h:194-206 | The most negative argument comes out as 1.0 |
| FixedExp.ExpAccuracy | include/drm/drm_fixed.h:188-209 | For arguments in [0, 1.0] the value returned is below every longer partial sum of the exponential series, by less than 8700 units, which is 2.03 millionths |
| FixedExp.ExpAccuracyNegative | include/drm/drm_fixed.h:205-208 | For arguments in [-1.0, 0) the value returned is less than one unit below, and at most 8703 units above, the reciprocal of every longer partial sum of the series at -x |
| FixedExp.TailBound | include/drm/drm_fixed.h:199-203 | The exact tail of the series is at most twice its first term |
| FixedExp.Reciprocal | include/drm/drm_fixed.h:205-206 | For negative arguments the reciprocal of the sum is defined, at least the floor of the true one, at most 1.0, and at most the reciprocal of the sum less three units |
| Dfixed.DfixedDiv | include/drm/drm_fixed.h:62-70 | The 20.12 division is the rounded quotient cut to 32 bits |
| Dfixed.QuotientIsNearest | include/drm/drm_fixed.h:62-70 | That quotient is rounded to nearest, ties up |
| Dfixed.TimesIsNearest | include/drm/drm_fixed.h:39-39 | The 20.12 product is rounded to nearest, ties up, and never leaves u64 |
| Dfixed.DivideMultiplyBack | include/drm/drm_fixed.h:39-70 | Dividing and multiplying back is off by at most half a unit and half a divisor, and is exact for divisors below 1.0 |
| ZposNormalize.CompareExactIff | drivers/gpu/drm/drm_blend.c:299-308 | The comparator agrees with the order by zpos and then id exactly when the difference it subtracts fits in an int |
| ZposNormalize.CompareCycle | drivers/gpu/drm/drm_blend.c:304-307 | Three z-positions that compare in a circle |
| ZposNormalize.RankIsIndex | drivers/gpu/drm/drm_blend.c:345-353 | The index of a plane in sorted order is the number of planes below it |
| ZposNormalize.RankIncreases | drivers/gpu/drm/drm_blend.c:369-374 | Ranks are strictly increasing by zpos and then id |
| ZposNormalize.NumberedByIndex | drivers/gpu/drm/drm_blend.c:345-353 | Numbering along a sorted list of the masked planes is a bijection onto 0..n-1, gives every plane its rank if they can be compared, and changes no other plane |
| ZposNormalize.TwoRankedIff | drivers/gpu/drm/drm_blend.c:299-353 | Two planes of a CRTC get their ranks exactly when they are less than 2^31 apart; exactly 2^31 apart, it depends on their place in the list |
| ZposNormalize.MaskedBelowLists | drivers/gpu/drm/drm_blend.c:324-339 | The gathered planes are exactly the masked ones, none twice, and fit in as many slots as there are planes |
| ZposNormalize.BuildStepKeeps | drivers/gpu/drm/drm_atomic.c:1375-1398 | Adding planes and CRTCs, setting a zpos and moving a plane keep plane_mask in agreement with each plane's CRTC, and the CRTC in the state |
| ZposNormalize.BuildStepDoes | drivers/gpu/drm/drm_atomic.c:1375-1398 | What building does to the plane states as they will be: moving a plane changes where it goes, setting a zpos that alone, touching nothing. Every mask has exactly the planes that go to the CRTC, and the CRTCs concerned are in the state |
| ZposNormalize.AtomicState.Lookup | drivers/gpu/drm/drm_atomic.c:665-704 | A lookup adds at most a copy of the committed state, and fails with the plane's own error |
| ZposNormalize.AtomicState.Collect | drivers/gpu/drm/drm_blend.c:332-343 | One pass stores a masked plane in the next slot or ends with its error |
| ZposNormalize.AtomicState.Gather | drivers/gpu/drm/drm_blend.c:332-343 | The loop stores the masked planes in list order without leaving the array, or returns the error of the first plane that fails |
| ZposNormalize.AtomicState.Order | drivers/gpu/drm/drm_blend.c:345-345 | Sorting permutes the gathered planes, and puts them in strictly increasing order if any two of them differ, by less than 2^31 |
| ZposNormalize.AtomicState.Number | drivers/gpu/drm/drm_blend.c:347-353 | Each gathered plane gets its index, and no other plane changes |
| ZposNormalize.AtomicState.NormalizeCrtc | drivers/gpu/drm/drm_blend.c:310-359 | The masked planes are renumbered, by rank if any two differ by less than 2^31; or the first error is returned and no state visible to a reader has changed |
| ZposNormalize.AtomicState.MarkChanged | drivers/gpu/drm/drm_blend.c:388-396 | zpos_changed is set exactly on the CRTCs that a plane with a new zpos goes to |
| ZposNormalize.AtomicState.Renumber | drivers/gpu/drm/drm_blend.c:401-404 | A CRTC whose mask or zpos changed joins those that are renumbered, or the pass fails with the error of the allocation or of the first plane that cannot be looked up |
| ZposNormalize.AtomicState.Visit | drivers/gpu/drm/drm_blend.c:398-406 | After one pass all touched CRTCs up to this one are renumbered and marked and nothing else has changed, whether it was renumbered or skipped, or the error of this CRTC is returned |
| ZposNormalize.AtomicState.NormalizeZpos | drivers/gpu/drm/drm_blend.c:379-408 | On success the planes of every touched CRTC have the numbers 0 to n - 1, each once, and zpos_changed marks exactly the touched ones; on each CRTC whose planes differ by less than 2^31 the numbers are the ranks, and nothing else changes. The result is the first error of a CRTC, or zero |
| ZposNormalize.FailsIff | drivers/gpu/drm/drm_blend.c:322-406 | It fails exactly if, for some CRTC that has to be renumbered, there is no memory or one of its planes has no new state and cannot get one |
| ZposNormalize.TouchedIsRanked | drivers/gpu/drm/drm_blend.c:398-406 | A CRTC that was renumbered carries ranks, if its planes can be compared |
| ZposNormalize.SkippedIsRanked | drivers/gpu/drm/drm_blend.c:398-400 | A CRTC that was skipped carries ranks exactly if it did before: same planes, same keys, same numbers |
| ZposNormalize.CommitKeepsInv | drivers/gpu/drm/drm_blend.c:379-408 | Committing a normalised state keeps masks and planes in agreement |
| ZposNormalize.CommitRanks | drivers/gpu/drm/drm_blend.c:379-408 | After a commit a CRTC's planes are ranked if they were renumbered and can be compared, or were skipped and ranked before |
| ZposNormalize.BuiltIsConsistent | drivers/gpu/drm/drm_atomic.c:1375-1398 | Every state built step by step from a committed one is consistent |
| ZposNormalize.RunKeepsInv | drivers/gpu/drm/drm_atomic.c:1375-1398 | Masks and planes agree after every run of successful updates |
| ZposNormalize.RunKeepsRanks | drivers/gpu/drm/drm_blend.c:366-374 | From no plane attached, after every run of successful updates each CRTC's planes carry normalized_zpos equal to their rank by zpos and id, on skipped CRTCs too, provided every update that renumbered that CRTC left its planes pairwise less than 2^31 apart; after one that did not, the next that does restores the ranks |
| ZposNormalize.AttachThenSkip | drivers/gpu/drm/drm_blend.c:379-408 | A run that moves three planes to a CRTC, where they get their ranks by zpos and id, and then skips the CRTC |
| Rotation.SimplifyKeepsMeaning | drivers/gpu/drm/drm_blend.c:193-204 | For every image size, pixel and supported set, the result has one rotate bit and places the pixel where the original did |
| Rotation.RewriteKeepsMeaning | drivers/gpu/drm/drm_blend.c:197-200 | So does the rewrite alone |
| Rotation.HalfTurnIsReflection | drivers/gpu/drm/drm_blend.c:135-138 | Reflecting along both axes and turning by a further half turn changes nothing |
| Rotation.OnlyRewriteMeansTheSame | drivers/gpu/drm/drm_blend.c:135-138 | Of the defined values only two place pixels alike: a value and its rewriting |
| Rotation.RewriteTwice | drivers/gpu/drm/drm_blend.c:197-200 | Rewriting twice gives back the original exactly when it has no undefined bits |
| Rotation.SimplifyFindsSupported | drivers/gpu/drm/drm_blend.c:172-204 | A supported value stays; otherwise the result is supported exactly if the hardware supports any value with the same meaning |
| Rotation.MissingReflectionEliminated | drivers/gpu/drm/drm_blend.c:180-188 | For hardware that lacks just one reflection the result is supported |
| DrmAuth.StepKeepsRefs | drivers/gpu/drm/drm_auth.c:122-305 | Every operation, with every failing allocation or hook, keeps each master's count equal to the open files that point at it plus one if it is the device's, and leaves no pointer to a destroyed one |
| DrmAuth.RunKeepsRefs | drivers/gpu/drm/drm_auth.c:122-305 | So the counts are right in every reachable state |
| DrmAuth.DestroyedIffUnreferenced | drivers/gpu/drm/drm_auth.c:336-367 | A master is destroyed exactly by the operation after which nothing refers to it |
| DrmAuth.DropMasterDoes | drivers/gpu/drm/drm_auth.c:213-244 | DROPMASTER returns zero exactly for the current master; then the device has no master, no file is current, the group has one reference less, and all files keep master, mark and token |
| DrmAuth.DropThenSet | drivers/gpu/drm/drm_auth.c:177-244 | SETMASTER after DROPMASTER restores everything, if the hook is willing |
| DrmAuth.SetMasterDoes | drivers/gpu/drm/drm_auth.c:177-211 | SETMASTER returns zero exactly for the current master, and without a device master for a file that created its group or can be given a new one; then the file is current and no other changes. A failure leaves the device's master and all counts |
| DrmAuth.SetMasterInstalls | drivers/gpu/drm/drm_auth.c:122-136 | The creator of a group gets it installed again with one reference more |
| DrmAuth.SetMasterPromotes | drivers/gpu/drm/drm_auth.c:138-175 | Any other file moves to a group of its own without tokens, and is authenticated; the group it leaves has one reference less or is gone, other groups stay |
| DrmAuth.SetMasterFails | drivers/gpu/drm/drm_auth.c:138-211 | The error of each failing step, after which no file is current |
| DrmAuth.OpenDoes | drivers/gpu/drm/drm_auth.c:246-261 | Opening succeeds with a device master, as a member of its group that is not current, or if a new group can be set up, as its current master; it adds the file and nothing else, or nothing |
| DrmAuth.OpenRelease | drivers/gpu/drm/drm_auth.c:246-305 | Closing a file that was just opened restores everything |
| DrmAuth.ReleaseDoes | drivers/gpu/drm/drm_auth.c:263-305 | Closing removes the file and no other; the device's master goes exactly with the current master, and the group loses the references and the token |
| DrmAuth.GetMagicDoes | drivers/gpu/drm/drm_auth.c:58-76 | GETMAGIC fails only with the allocator's error; asking again returns the same token and changes nothing |
| DrmAuth.TokenRoundTrip | drivers/gpu/drm/drm_auth.c:58-95 | A token just given out lets every file of the group authenticate its holder, and only once |
| DrmAuth.AuthMagicRefusedIff | drivers/gpu/drm/drm_auth.c:78-95 | AUTHMAGIC is refused, without effect, exactly when the group has no unused entry for the token |
| DrmAuth.StepKeepsUnique | drivers/gpu/drm/drm_auth.c:138-305 | Unless a master_set hook fails on a promotion, files marked is_master keep distinct masters and the device's master keeps its creator |
| DrmAuth.FailedPromotionKeepsUniqueIff | drivers/gpu/drm/drm_auth.c:157-172 | After such a failure that still holds exactly when no other file of the group is marked |
| DrmAuth.TwoCurrentMasters | drivers/gpu/drm/drm_auth.c:157-172 | A run with one such failure that ends with two current masters |
| DrmAuth.ExactlyOneCurrent | drivers/gpu/drm/drm_auth.c:317-320 | At most one open file is the current master, and exactly one while there is a device master |
| DrmAuth.RunKeepsUnique | drivers/gpu/drm/drm_auth.c:138-305 | Over every run without such a failure is_master files have distinct masters, and the device's master has one open creator |
| DrmAuth.StepKeepsMagic | drivers/gpu/drm/drm_auth.c:58-95 | Unless a token holder is promoted, each entry of a magic map is an open file with that master and that token, each token given out occupies an entry of its group, and tokens are distinct within a group |
| DrmAuth.PromotionKeepsTokensIff | drivers/gpu/drm/drm_auth.c:138-175 | After a promotion all entries are open files of their group and tokens are distinct exactly when the file leaves no entry behind: it was the last reference of its group, or its entry there is not the file |
| DrmAuth.PromotionKeepsMagicIff | drivers/gpu/drm/drm_auth.c:138-175 | That every token given out also occupies an entry of its group survives a promotion exactly when the file holds no token |
| DrmAuth.PromotedHolderClashes | drivers/gpu/drm/drm_auth.c:58-76 | After any promotion of a token holder, the next file opened can be given the same token in the same group |
| DrmAuth.TwoHoldersOfOneToken | drivers/gpu/drm/drm_auth.c:58-76 | A run after which two files of one group hold the same token |
| DrmAuth.TokenOfClosedFile | drivers/gpu/drm/drm_auth.c:263-270 | A run after which a token names a closed file |
| DrmAuth.RunKeepsMagic | drivers/gpu/drm/drm_auth.c:58-95 | Over every run in which no token holder is promoted, tokens and open files match |
| DrmAuth.TokenHolderIsOpen | drivers/gpu/drm/drm_auth.c:78-95 | What AUTHMAGIC authenticates is an open file of the caller's group with that token, and it changes nothing else |
| DrmAuth.SpentStaysSpent | drivers/gpu/drm/drm_auth.c:86-92 | A used token stays used while its holder is open |
| DrmAuth.AuthenticatesOnce | drivers/gpu/drm/drm_auth.c:78-95 | A token authenticates at most once while its holder stays open |
| DrmAuth.DrmDevice.Get | drivers/gpu/drm/drm_auth.c:329-333 | From a right count to one reference more than pointers, for the pointer about to be stored; no other count suffers |
| DrmAuth.DrmDevice.Put | drivers/gpu/drm/drm_auth.c:336-367 | After a pointer has gone the count is the number of pointers again, and the master lives on exactly if there is one; no other count suffers |
| DrmAuth.DrmDevice.Install | drivers/gpu/drm/drm_auth.c:122-136 | The file's master becomes the device's with a reference of its own, or the hook's error leaves none and no reference |
| DrmAuth.DrmDevice.NewSetMaster | drivers/gpu/drm/drm_auth.c:138-175 | A new master is created, referenced by file and device, and the old one released; the roll-back paths restore everything but the marks a failing master_set leaves |
| DrmAuth.DrmDevice.OpenFile | drivers/gpu/drm/drm_auth.c:246-261 | Opening makes the first file master of a new group and the others members of the current one |
| DrmAuth.DrmDevice.SetMasterIoctl | drivers/gpu/drm/drm_auth.c:177-211 | SETMASTER, with each of its refusals |
| DrmAuth.DrmDevice.DropMasterIoctl | drivers/gpu/drm/drm_auth.c:213-244 | DROPMASTER carried out on the counts and pointers, with the effect `DropMasterDoes` gives |
| DrmAuth.DrmDevice.ReleaseFile | drivers/gpu/drm/drm_auth.c:263-305 | Closing gives up the token, the device's master if current, and the file's reference |
| DrmAuth.DrmDevice.GetMagicIoctl | drivers/gpu/drm/drm_auth.c:58-76 | A file gets one token of its group and keeps it; the token is not zero |
| DrmAuth.DrmDevice.AuthMagicIoctl | drivers/gpu/drm/drm_auth.c:78-95 | AUTHMAGIC authenticates the holder and uses up the token |
| AgpMemory.BoundExactIff | drivers/gpu/drm/drm_agpsupport.c:343-347 | The address kept for a bound block is base plus the offset rounded up to a page exactly when the latter survives being an int |
| AgpMemory.StepReturns | drivers/gpu/drm/drm_agpsupport.c:104-394 | When each call succeeds, and that a call that fails changes nothing |
| AgpMemory.StepErrors | drivers/gpu/drm/drm_agpsupport.c:104-394 | The error of each call that fails |
| AgpMemory.AcquireRelease | drivers/gpu/drm/drm_agpsupport.c:104-183 | Acquiring and enabling set one flag each; releasing undoes acquiring, so the device can be acquired again |
| AgpMemory.AllocDoes | drivers/gpu/drm/drm_agpsupport.c:210-248 | A new block heads the list, unbound, with the least number of pages that hold it |
| AgpMemory.BindUnbindTouch | drivers/gpu/drm/drm_agpsupport.c:293-351 | Binding and unbinding touch the entry with the handle and its block and nothing else |
| AgpMemory.PageOfHolds | drivers/gpu/drm/drm_agpsupport.c:343-343 | The page bound at is the offset rounded up |
| AgpMemory.FreeDoes | drivers/gpu/drm/drm_agpsupport.c:377-394 | Freeing takes exactly the entry with the handle off the list, and gives its block back unless it stays bound |
| AgpMemory.AllocKeepsInv | drivers/gpu/drm/drm_agpsupport.c:210-248 | Allocating keeps the entries and the outstanding blocks in agreement, after failures too |
| AgpMemory.BindKeepsInvIff | drivers/gpu/drm/drm_agpsupport.c:332-351 | A successful bind does exactly when base plus the rounded offset, read as an int, is not a multiple of 2^64 |
| AgpMemory.UnbindKeepsInv | drivers/gpu/drm/drm_agpsupport.c:293-307 | Unbinding does, whether the backend agrees or not |
| AgpMemory.FreeKeepsInvIff | drivers/gpu/drm/drm_agpsupport.c:377-394 | Freeing does exactly when the block was not bound or could be unbound |
| AgpMemory.ClearLeaves | drivers/gpu/drm/drm_agpsupport.c:479-501 | Clearing a legacy device leaves no entry, not acquired, not enabled, and outstanding exactly the bound blocks whose unbinding failed; other devices are left alone |
| AgpMemory.ClearKeepsInvIff | drivers/gpu/drm/drm_agpsupport.c:479-501 | It leaves nothing allocated or bound exactly when every bound block could be unbound |
| AgpMemory.StepKeepsInvIff | drivers/gpu/drm/drm_agpsupport.c:104-501 | An operation keeps the agreement exactly when it binds nothing at address zero and what it frees could be unbound |
| AgpMemory.RunKeepsInv | drivers/gpu/drm/drm_agpsupport.c:104-501 | Over every run of such operations the entries are exactly the outstanding blocks, handles are distinct, and bound is non-zero exactly for bound blocks and is their address |
| AgpMemory.BoundWhereAsked | drivers/gpu/drm/drm_agpsupport.c:332-351 | After a successful bind in such a run, with an offset in int range, the block is bound at base plus the offset rounded up to a page |
| AgpMemory.FreedBlockLeaks | drivers/gpu/drm/drm_agpsupport.c:386-392 | A run that frees a block it cannot unbind: the block stays bound and no entry tells of it |
| AgpMemory.ClearedBlockLeaks | drivers/gpu/drm/drm_agpsupport.c:488-493 | The same for clearing |
| AgpMemory.LargeOffsetWrongAddress | drivers/gpu/drm/drm_agpsupport.c:343-347 | A run that binds at offset 2^31 and keeps an address 2^32 away |
| AgpMemory.BoundAtZero | drivers/gpu/drm/drm_agpsupport.c:343-347 | A run in which a bound block counts as unbound |
| AgpMemory.BindUnbind | drivers/gpu/drm/drm_agpsupport.c:293-351 | Unbinding what was just bound restores everything, exactly when it was not bound at address zero |
| AgpMemory.AcquiredOnce | drivers/gpu/drm/drm_agpsupport.c:104-123 | Over every run, between two successful acquisitions the device is released or cleared |
| AgpMemory.AllocFree | drivers/gpu/drm/drm_agpsupport.c:210-394 | Freeing the block just allocated restores everything, whatever the backend answers |
| AgpMemory.AgpDevice.Lookup | drivers/gpu/drm/drm_agpsupport.c:269-279 | The first entry with the handle, or none if no entry has it |
| AgpMemory.AgpDevice.DoBind | drivers/gpu/drm/drm_agpsupport.c:332-351 | Binding an unbound entry, in the list and in the backend together, and keeping them in agreement |
| AgpMemory.AgpDevice.DoUnbind | drivers/gpu/drm/drm_agpsupport.c:293-307 | Unbinding a bound one, only if the backend agrees, and keeping list and backend in agreement |
| AgpMemory.AgpDevice.DoFree | drivers/gpu/drm/drm_agpsupport.c:377-394 | Taking an entry off the list and giving its block back; the agreement is kept if the block could be unbound |
| AgpMemory.AgpDevice.DoClear | drivers/gpu/drm/drm_agpsupport.c:479-501 | Giving all blocks back in list order, then releasing; the agreement is kept if all could be unbound |
| BridgeChain.AttachKeepsInv | drivers/gpu/drm/drm_bridge.c:110-142 | Attaching keeps successors later attached than their predecessors and on the same encoder, and a request that fails changes nothing |
| BridgeChain.AttachReturns | drivers/gpu/drm/drm_bridge.c:110-142 | What a request returns, in the order of the checks; a failing attach hook's error is returned as it is |
| BridgeChain.AttachDoes | drivers/gpu/drm/drm_bridge.c:120-139 | A successful request makes the bridge name its encoder and device, and the previous bridge or the encoder point at it; all else stays |
| BridgeChain.RunKeepsInv | drivers/gpu/drm/drm_bridge.c:110-142 | That holds after every run of requests, malformed and failing ones included |
| BridgeChain.RunAcyclic | drivers/gpu/drm/drm_bridge.c:110-142 | In every reachable state no bridge leads back to itself, however many next pointers are followed |
| BridgeChain.RunNamesEncoder | drivers/gpu/drm/drm_bridge.c:110-142 | Every bridge reachable from an encoder names it, and every walk ends within as many steps as there are bridges |
| BridgeChain.AttachChains | drivers/gpu/drm/drm_bridge.c:120-139 | What a request does to the chain of every encoder: nothing, a new chain, or the chain up to the previous bridge with the new one behind it |
| BridgeChain.AttachReachesIff | drivers/gpu/drm/drm_bridge.c:110-142 | If every attached bridge is reached from its encoder, that is still so after a successful request exactly when it goes to the end of a chain |
| BridgeChain.LostStaysLost | drivers/gpu/drm/drm_bridge.c:110-142 | A bridge that its encoder no longer leads to is never reached again |
| BridgeChain.RunLeadsIff | drivers/gpu/drm/drm_bridge.c:110-142 | After any run, next pointers lead from its encoder to every attached bridge exactly when every successful request went to the end of a chain |
| BridgeChain.SuccessorIsDropped | drivers/gpu/drm/drm_bridge.c:135-138 | A run after which a bridge is attached to an encoder that does not lead to it |
| BridgeChain.FirstIsDropped | drivers/gpu/drm/drm_bridge.c:135-138 | A run after which a bridge is not reached though no bridge has a successor |
| BridgeChain.ChainIsPath | drivers/gpu/drm/drm_bridge.c:246-254 | Following next visits exactly the chain and then stops, on one encoder and device |
| BridgeChain.OnlyChain | drivers/gpu/drm/drm_bridge.c:135-138 | The chain is the only sequence whose next pointers lead to its end |
| BridgeChain.HookedIff | drivers/gpu/drm/drm_bridge.c:246-348 | A walk calls exactly the bridges of the chain that have the hook |
| BridgeChain.HookedInOrder | drivers/gpu/drm/drm_bridge.c:246-348 | It calls them in chain order, once each |
| BridgeChain.AcceptanceGoesOn | drivers/gpu/drm/drm_bridge.c:191-197 | A bridge that accepts passes the mode it adjusted to the rest of the chain |
| BridgeChain.Bridges.DoAttach | drivers/gpu/drm/drm_bridge.c:110-142 | The checks in their order, the roll-back of a failing hook, and the link from the previous bridge or the encoder; the chain invariant is kept |
| BridgeChain.Bridges.CallForward | drivers/gpu/drm/drm_bridge.c:339-348 | enable, and likewise post_disable and mode_set, call exactly the hooks of the chain, first to last |
| BridgeChain.Bridges.CallBackward | drivers/gpu/drm/drm_bridge.c:317-326 | pre_enable, and likewise disable, call them in the exact reverse order |
| BridgeChain.Bridges.FixupMode | drivers/gpu/drm/drm_bridge.c:185-200 | mode_fixup succeeds exactly when every hook accepts the mode the earlier ones left, and stops at the first refusal |
| BridgeChain.Bridges.ValidateMode | drivers/gpu/drm/drm_bridge.c:218-233 | mode_valid returns the first status that is not MODE_OK, and MODE_OK exactly when there is none |
| PciGart.DecodeEncodeIff | drivers/gpu/drm/ati_pcigart.c:168-179 | In each encoding a word stands for the address it was made from exactly when the bits it gives up are clear |
| PciGart.EncodeIsWord | drivers/gpu/drm/ati_pcigart.c:168-179 | The encodings on numbers are the bit operations of the source on the 32-bit words for them |
| PciGart.DeviceWordIsWord | drivers/gpu/drm/ati_pcigart.c:163-187 | Every word written to the table is what those bit operations make of the 32-bit word for its address |
| Bits.BitsOfC | drivers/gpu/drm/ati_pcigart.c:170-173 | Setting or clearing the bits 0xc of a word does to its number what the encodings compute |
| Bits.WordOf | drivers/gpu/drm/ati_pcigart.c:163-163 | Every number below 2^32 is the number of a 32-bit word |
| Bits.NumBelow | drivers/gpu/drm/ati_pcigart.c:163-163 | No word has a number of 2^32 or more |
| PciGart.DecodesIff | drivers/gpu/drm/ati_pcigart.c:163-179 | After the cut to 32 bits, exactly when the address also fits |
| PciGart.WordDecodes | drivers/gpu/drm/ati_pcigart.c:163-188 | For page-aligned bus addresses below 2^32, word k decodes to busaddr[k / ratio] + (k mod ratio) * 4096 in all three encodings |
| PciGart.Gart.RealPagesIff | drivers/gpu/drm/ati_pcigart.c:142-147 | A page is entered exactly if the list has it and the table has room for its words and those before it |
| PciGart.CleanupUnmapsIff | drivers/gpu/drm/ati_pcigart.c:72-83 | On a fresh list cleanup unmaps each mapped page once and nothing else exactly when no page and not the table has bus address zero |
| PciGart.ZeroPageStopsCleanup | drivers/gpu/drm/ati_pcigart.c:78-83 | Of three pages, one with bus address zero, only the first is unmapped |
| PciGart.FailureUnmapsIff | drivers/gpu/drm/ati_pcigart.c:156-162 | After a mapping failure the pages mapped so far, and only they, are unmapped in two cases: no table was published before and no page was mapped; or one was published, the failing address is zero and no earlier one is |
| PciGart.FailureUnmapsTooLittleOrTooMuch | drivers/gpu/drm/ati_pcigart.c:156-162 | When the second page fails, no page is unmapped without an earlier table, and the failing address too with one |
| PciGart.Gart.Cleanup | drivers/gpu/drm/ati_pcigart.c:59-95 | The addresses before the first zero are unmapped if a table was published, and a table in memory is given up |
| PciGart.Gart.FillPage | drivers/gpu/drm/ati_pcigart.c:165-188 | The inner loop writes the words of one page and no others |
| PciGart.Gart.EnterPage | drivers/gpu/drm/ati_pcigart.c:151-188 | A page is entered behind those before it, inside the table |
| PciGart.Gart.DoPage | drivers/gpu/drm/ati_pcigart.c:151-188 | One turn of the outer loop maps a page and enters it, or stops |
| PciGart.Gart.Fill | drivers/gpu/drm/ati_pcigart.c:149-189 | The outer loop enters all pages, or those before the first that cannot be mapped |
| PciGart.Gart.Build | drivers/gpu/drm/ati_pcigart.c:133-189 | If all pages that the table has room for can be mapped, and only then, each of them is entered as it was mapped and its words decode to it; all later words are zero, and no index reaches table_size / 4 |
| PciGart.Gart.Init | drivers/gpu/drm/ati_pcigart.c:98-203 | The table, the bus addresses, the published address and the return value on each of the paths; it returns 1 with all pages that there is room for entered, exactly if they can all be mapped |
| PciGart.InitThenCleanup | drivers/gpu/drm/ati_pcigart.c:59-203 | A cleanup after a successful init unmaps exactly the mapped pages, once each, exactly when none of the bus addresses is zero |

## Left out

- Memory barriers, preemption control and weak memory in the job queue: the model is sequentially consistent, with one producer and one consumer.
- The width of `job_count` and of `count` in `drm_fixp_exp`: both are unbounded here, since passing their limits takes 2^31 queued nodes or 2^64 terms.
- FixedPoint.MulApprox: gives the one-sided error for non-negative operands; `MulSignedApprox` gives a two-sided one for any signs, with a term more, because arithmetic shifts round negative operands away from zero. `FixedDivide.DivApprox` and `DivSignedApprox` are related in the same way.
- FixedExp.LargeExpOverflows: does not say for which arguments between 21.0 and 22.0 the first overflow comes, because that depends on the bits each product drops; e^x reaches 2^31 at 21.49.
- FixedExp.ExpAccuracy: compares only results for arguments up to 1.0 with the series, because the tolerance is no bound on the tail for larger ones; `ExpAccuracyNegative` is for negative ones, and `ExpIsSum` gives the terms that are added up for all.
- The conversions, `dfixed_ceil`, `dfixed_floor` and `drm_fixp2int_ceil`: single expressions.
- `sort` of the kernel library: any permutation that is in order whenever the comparator agrees with the order, and for two elements as they compare; `ZposNormalize.Sort` is one such.
- ZposNormalize.AtomicState.NormalizeZpos: says which numbers are used, but not in which order, when more than two planes of a CRTC are not all less than 2^31 apart, because the comparator is no order there and the result depends on how the library sorts; `CompareExactIff` gives the exact limit.
- ZposNormalize.AtomicState.Lookup: does not fetch the state of the plane's CRTC, because that CRTC is always part of the atomic state when this runs (`BuildStepKeeps`), so the fetch finds it and cannot fail.
- `BIT`, `ffs` and masks in `drm_rotation_simplify` are bit-vectors of 32 bits; a value without exactly one rotate bit has no defined meaning and is left out.
- Leases, the legacy hardware lock and render clients in `drm_auth.c`; a file whose open fails is freed by its caller and is gone from the model.
- DrmAuth.DrmDevice.AuthMagicIoctl: drops the write to a holder that has been closed, because that memory is no longer a file; `TokenHolderIsOpen` says when there is no such write, and `TokenOfClosedFile` that there can be.
- The AGP backend: a block that is still bound is not taken back when it is freed. `agp_memory_info`, the AGP mode and `drm_agp_bind_pages` are not modelled.
- `drm_bridge_detach` and attaching again after it, hooks that attach bridges, and encoders without a device.
- Byte order of the GART table, the cache flush, and the address of the mapping in video memory: the table is an array of words wherever it lives.
- The memory manager, GEM, the VMA manager, EDID, DP MST, vblank handling, sync objects and the scheduler proper: their logic is not part of this model.
- `drm_cache.c`, `drm_color_mgmt.c`, the PCI id tables and the linuxkpi stubs: cache instructions, single expressions on colour values, constant tables and wrappers, which keep no state and promise nothing over several calls.
