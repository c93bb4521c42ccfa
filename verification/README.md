# Verified models of i.MX driver logic

Dafny models, with proofs, of three parts of Genode's drivers for i.MX SoCs:

* **Clock synthesis** of the i.MX8MP and i.MX8MQ clock controllers: the fractional PLL 1443 (`Pll1443*.dfy`), the
  fractional PLL of the 8MQ (`FracPll.dfy`), the SCCG PLL (`SccgPll.dfy`), and root clocks, root-clock dividers and the
  tree of rates (`RootClock.dfy`).
* **The GPU session of the i.MX8MQ** and its worker task (`Gpu*.dfy`): RPCs, a worker that can block inside any DRM call,
  the shared request slots, the buffer space, exceptions in the worker, and teardown.
* **IPU channel descriptors** of the i.MX53 framebuffer (`Ipu.dfy`): a 512-bit struct of bit-fields, and the overlay's
  hand-coded patch of two of its words.

`Words.dfy` holds 64-bit wrap-around and floor division, `Bits.dfy` registers with bit-fields. Objects whose methods
write registers or fields are classes; their methods are verified against functions on values, and the theorems are
about these functions.

## How the code is read

* Rates are `uint64_t`. A formula that can wrap is written with `Wrap`; theorems about accuracy name the operands for
  which nothing wraps, and `RateIsExactIffItFits` shows that for the rate formula these are all of them.
* Division by zero is undefined in C++. Each division that can meet a zero divisor takes the quotient then delivered
  from a parameter `byZero`, fixed but arbitrary; on ARMv8 it is 0. Nothing else about it is assumed unless a theorem
  says so. So the search of the PLL 1443 keeps its literal range p = 0..64.
* A parent's rate is a parameter that a setter does not change. Hardware that sets a lock or acknowledge bit is a number
  of polls after which it does. Register writes are also recorded in order, since their final contents do not show
  whether dividers changed in reset.
* Every execution of the GPU worker comes with the sequence of outcomes of the DRM calls that return during it; where
  they are used up the worker is blocked. All sequences are allowed, so all interleavings of blocking are covered. DRM
  is taken to hand out only handles that are not open, and to close an open handle when asked to.
* Adding a buffer under a taken id or with an invalid capability throws in the worker, where nothing catches it. The
  model has an absorbing state `Crashed` for that, which keeps the cause.

## Where the code falls short of what it promises

The models follow the code. Each of these is a theorem: a condition that is exact, and an input or a run that fails it.

* PLL 1443, `imx8mp/ccm.cc:86` documents 1 <= p <= 63; the loop at line 115 visits 0 and 64. Requests below the least
  reachable rate end in p = 0 (`PreDividerZeroIffTooLow`). Requests that the pair (64, 6) approaches from below better
  than every documented pair end in p = 64, which reads back as 0 (`PreDivider64Iff`). At 24 MHz these include the band
  from 372070 Hz to 377975 Hz (`LowPicksPreDivider64`, `PreDivider64IsReached`), and others such as 380874 Hz
  (`PreDivider64AboveBand`). Elsewhere the rate read back is the announced one (`FracPll1443.SetRate`).
* PLL 1443, line 114 promises the best values. Masking the sign bit of the deviation at line 131 ranks every overshoot
  behind every undershoot. The result is a closest rate exactly if each overshooting pair is matched by an undershooting
  one (`ClosestIff`), for which one pair with fine steps and an unsaturated k suffices (`FineStepIsClosest`, and over
  the request alone `FineRequestIsClosest`). At 24 MHz, 217189452 Hz is missed by more than necessary
  (`ClosestIsMissed`), and 23999999 Hz by more than 11 kHz (`JustBelowCrystalIsMissed`). Confined to p >= 1, the loop would even answer a
  request below its range with the furthest rate (`DocumentedPicksFurthest`).
* PLL 1443, line 122 truncates m, so that k saturates and the half-step accuracy is lost for remainders from about half
  of the parent rate on (`SaturatesIff`, with an input in `SaturationIsReached`).
* Fractional PLL: setting a rate is accurate exactly for integer quotients 1..128 (`AccurateIffQuotientFits`, with
  inputs in `QuotientsOutOfRange`).
* Root-clock divider: the bound 64 at `imx8mp/ccm.cc:423` admits the quotient 65, which programs divisor 1
  (`LargestIff`, `Quotient65Undivided`).
* GPU, `alloc_vram`: an invalid capability does not mean that nothing was allocated. A call that blocks is answered
  with one and may record the buffer later (`InvalidReplyMeansNothingRecordedIff`). A client that retries then brings
  the driver down (`RetriedAllocationCrashes`). For a client that ignores replies, what is safe is exactly never to
  name an id twice (`CollisionIffRepeatedId`); one that reads them may reuse the ids it freed for as long as no call
  blocks (`CollisionIffInBooks`).
* GPU, `execute`: the exception for an invalid state does not mean that nothing was submitted. It is also raised for a
  submission that blocks, and that may still succeed (`InvalidStateMeansNotSubmittedIff`, with a run in
  `BlockedExecIsSubmitted`).
* GPU, `map_cpu`: the hand-over of an interrupted mapping checks neither the buffer nor the success of the completed
  request (`MapReplyIsBackedIff`, with runs in `HandOverOfAnotherBuffer` and `HandOverOfFailedMap`).
* GPU, destructor: with a request under way it only warns, and then loops for as long as buffers are left
  (`FreePassProgress`, `TeardownStuck`, with a run in `TeardownGetsStuck`).

## Model

| member | source | states |
|---|---|---|
| `Bits.GetSet` | src/drivers/platform/imx8mp/ccm.h:57-65 | a bit-field read after a write holds the low bits of the value |
| `Bits.GetSetOther` | src/drivers/platform/imx8mp/ccm.h:57-65 | a bit-field write leaves every field that does not overlap alone |
| `Bits.GetIsMod` | src/drivers/platform/imx8mp/ccm.h:57-65 | a bit-field in arithmetic: the register divided by 2^lo, modulo 2^width |
| `Pll1443.Compute` | src/drivers/platform/imx8mp/ccm.cc:81-141 | the glitch-free branch, or the search over all 65 x 7 pairs; the loops with their early exit return what a fold over all pairs without early exit returns |
| `Pll1443.ZeroIsFinal` | src/drivers/platform/imx8mp/ccm.cc:132-137 | leaving the loops at deviation zero loses nothing |
| `Pll1443.SearchIsFirstMinimum` | src/drivers/platform/imx8mp/ccm.cc:111-140 | the result is the first pair in loop order with least deviation; without any deviation below the initial one it is the old configuration |
| `Pll1443.DistRanks` | src/drivers/platform/imx8mp/ccm.cc:129-131 | the masked difference is the distance for an undershoot, and 2^63 minus the distance for an overshoot |
| `Pll1443.SearchPicksGreatestBelow` | src/drivers/platform/imx8mp/ccm.cc:111-140 | if some pair does not exceed the request, the result has the greatest such rate, at its first pair; stated for any sequence of pairs with rates below 2^63 |
| `Pll1443.CandidatesAreSmall` | src/drivers/platform/imx8mp/ccm.cc:115-127 | all rates the loops try are below 2^63, wrapped arithmetic included, provided a division by zero delivers such a value |
| `Pll1443.SearchedIsGreatestBelow` | src/drivers/platform/imx8mp/ccm.cc:111-140 | for every request below 2^63 - 1, with division by zero as in the row above: if some p and s of the loops give a rate not above it, the driver returns the greatest such rate, and the first p, then s, that give it |
| `Pll1443Accuracy.RateIsExactIffItFits` | src/drivers/platform/imx8mp/ccm.cc:70-78 | the unsigned 64-bit formula with its signed k equals the manual's formula exactly when the product is non-negative and below 2^64 |
| `Pll1443Accuracy.KdivIsExact` | src/drivers/platform/imx8mp/ccm.cc:60-67 | without overflow, k is the request in DSM steps rounded to the nearest, minus m, clamped to 16 bits |
| `Pll1443Accuracy.GlitchFreeIffInWindow` | src/drivers/platform/imx8mp/ccm.cc:95-104 | the glitch-free branch is taken exactly for the requests between the manual's rates of k = -32768 and k = 32767, and never for m = 0 |
| `Pll1443Accuracy.GlitchFreeWithoutRates` | src/drivers/platform/imx8mp/ccm.cc:95-104 | with p = 0, or a parent at rest, it is taken for one single rate |
| `Pll1443Accuracy.GlitchFreeIsAccurate` | src/drivers/platform/imx8mp/ccm.cc:95-140 | a request in that window keeps p, m and s and is missed by less than half a DSM step plus one; the upper clamp never bites, and where the lower one does the rate is exact; every other request is searched for |
| `Pll1443Accuracy.RetuneTo599MHz` | src/drivers/platform/imx8mp/ccm.cc:104-109 | from 600 MHz, a request of 599 MHz sets k = -10923 and keeps p = 2, m = 100, s = 1 |
| `Pll1443Accuracy.CandidateIsBounded` | src/drivers/platform/imx8mp/ccm.cc:119-127 | a candidate with unclamped m falls short by less than 32769 DSM steps plus one; with k saturated it does not exceed the request, otherwise it is within half a step plus one |
| `Pll1443Accuracy.SaturatesIff` | src/drivers/platform/imx8mp/ccm.cc:119-127 | k of a candidate with unclamped m saturates exactly if the remainder of fout p 2^s by the parent rate passes a threshold, and then misses the half-step bound exactly if what k leaves is large enough |
| `Pll1443Accuracy.SaturationIsReached` | src/drivers/platform/imx8mp/ccm.cc:119-127 | at 24 MHz, the pair (1, 0) stays 10 MHz below a request of 1559 MHz |
| `Pll1443Accuracy.SearchMeetsEveryBound` | src/drivers/platform/imx8mp/ccm.cc:111-140 | a candidate with unclamped m and steps below 2 Hz does not exceed the request; the result of the search is within the bounds of every candidate with unclamped m that does not exceed it |
| `Pll1443Accuracy.CandidateReachesLowest` | src/drivers/platform/imx8mp/ccm.cc:60-78 | the clamps of m and k bound every candidate's rate from both sides |
| `Pll1443Accuracy.TooLowPicksPreDividerZero` | src/drivers/platform/imx8mp/ccm.cc:86-140 | below the least reachable rate the search returns the pair (0, 0) |
| `Pll1443Accuracy.PreDividerZeroIffTooLow` | src/drivers/platform/imx8mp/ccm.cc:86-140 | the search returns p = 0 exactly for requests below the least reachable rate, and never exceeds the request |
| `Pll1443Accuracy.PreDivider64IsReached` | src/drivers/platform/imx8mp/ccm.cc:115-138 | with the 24 MHz crystal, 375 kHz is answered with p = 64, m = 64, s = 6, k = 0 |
| `Pll1443Best.PreDivider64Iff` | src/drivers/platform/imx8mp/ccm.cc:115-138 | the search returns p = 64 exactly if the pair (64, 6) has a positive rate not above the request that exceeds that of every pair with 1 <= p <= 63 not above the request |
| `Pll1443Best.PreDivider64AboveBand` | src/drivers/platform/imx8mp/ccm.cc:115-138 | with the 24 MHz crystal, 380874 Hz is answered with p = 64, m = 65, s = 6, k = 164 |
| `Pll1443Best.ClosestIff` | src/drivers/platform/imx8mp/ccm.cc:114-139 | no candidate is closer than the result exactly if each candidate above the request is matched by one below it |
| `Pll1443Best.FineStepIsClosest` | src/drivers/platform/imx8mp/ccm.cc:114-139 | one candidate with unclamped m, steps below 2 Hz and unsaturated k makes the result closest, and off by 1 Hz at most |
| `Pll1443Best.FineRequestIsClosest` | src/drivers/platform/imx8mp/ccm.cc:114-139 | at 24 MHz, every request for which some p 2^s from 184 on keeps m in range and leaves a remainder below about 12 MHz is met to within 1 Hz, by the closest candidate |
| `Pll1443Best.ClosestIsMissed` | src/drivers/platform/imx8mp/ccm.cc:129-134 | at 24 MHz, 217189452 Hz is answered with a rate at least 2 Hz below it although the pair (1, 3) is 1 Hz above it |
| `Pll1443Best.JustBelowCrystalIsMissed` | src/drivers/platform/imx8mp/ccm.cc:119-134 | at 24 MHz, 23999999 Hz is answered with a rate more than 11 kHz below it although the pair (1, 6) is 1 Hz above it |
| `Pll1443Best.RepeatedRequest` | src/drivers/platform/imx8mp/ccm.cc:81-141 | repeating a request computes the same configuration, whichever branch computed it and even where p = 64 has read back as 0 |
| `Pll1443Best.DocumentedPicksFurthest` | src/drivers/platform/imx8mp/ccm.cc:86-134 | the same search over the pairs with p >= 1 answers a request below the least reachable rate with the furthest rate |
| `Pll1443Device.DividersReadBack` | src/drivers/platform/imx8mp/ccm.h:57-61 | p, m and s read back from their fields, except that p = 64 reads back as 0 |
| `Pll1443Device.FieldsOfDividers` | src/drivers/platform/imx8mp/ccm.h:57-61 | the three dividers in arithmetic over the register |
| `Pll1443Device.DsmReadsBack` | src/drivers/platform/imx8mp/ccm.h:63-65 | every signed 16-bit k survives the unsigned 16-bit field |
| `Pll1443Device.DividersKeepRest` | src/drivers/platform/imx8mp/ccm.h:57-65 | all bits outside the divider fields stay |
| `Pll1443Device.RunningKeepsParent` | src/drivers/platform/imx8mp/ccm.cc:157-188 | the reset sequence ends with bit 9 set and bit 4 clear, out of reset and not bypassed, and keeps all other bits |
| `Pll1443Device.DividersChangeInResetOnly` | src/drivers/platform/imx8mp/ccm.cc:156-188 | at every register write of the reset path: no divider changes unless the PLL is bypassed and in reset before and after; the lock is awaited out of reset and bypassed; the bypass ends last |
| `Pll1443Device.FracPll1443.SetRate` | src/drivers/platform/imx8mp/ccm.cc:144-200 | all three registers and the order of all register accesses on both paths; the path is chosen by the p and m bits of the old register; requests in the glitch-free window never touch the control register; the rate read back is the announced one exactly for requests that retune glitch free or do not settle on p = 64; repeating the request announces the same configuration; the lock bit is polled until it is set, 1025 times at most |
| `Pll1443Device.ChosenCarriesItsRate` | src/drivers/platform/imx8mp/ccm.cc:104-140 | the announced rate is that of the announced dividers, whichever branch chose them |
| `Pll1443Device.ChosenFitsIff` | src/drivers/platform/imx8mp/ccm.cc:95-140 | the announced p exceeds its field exactly for requests that are not glitch free and settle on p = 64 |
| `FracPll.FracPll.SetRate` | src/drivers/platform/imx8mq/ccm.cc:56-88 | both registers, the order of the writes and the number of polls, all other fields kept, the rate the getter returns then, and the manual's rate of the registers |
| `FracPll.RateIsManual` | src/drivers/platform/imx8mq/ccm.cc:91-111 | for every content of both registers and any output divider, the rate read is the manual's parent * 8 / DIVR * (1 + divfi + divff / 2^24) / DIVQ up to a stated loss |
| `FracPll.ProgrammedRateIsManual` | src/drivers/platform/imx8mq/ccm.cc:56-88 | for quotients 1..128 the registers hold the quotient and the 24-bit fraction of the request by parent * 8 / DIVR, and their rate by the manual is less than pr / 2^25 below and less than what rounding the reference costs above the request |
| `FracPll.Setting650MHz` | src/drivers/platform/imx8mq/ccm.cc:62-73 | 25 MHz and 650 MHz program 5 and the fraction 0x800000 |
| `FracPll.DividersAreOfferedComplete` | src/drivers/platform/imx8mq/ccm.cc:75-88 | the dividers are complete before Newdiv_val rises, and it falls last |
| `FracPll.EncodeReadsBack` | src/drivers/platform/imx8mq/ccm.cc:67-73 | what the 7-bit and the 24-bit field hold of an integer and a fraction that may not fit them |
| `FracPll.AccurateIffQuotientFits` | src/drivers/platform/imx8mq/ccm.cc:56-111 | the rate read back never exceeds the request and falls short by less than pr / 2^25 + 3/2, exactly when the integer quotient is in 1..128; for every request |
| `FracPll.QuotientsOutOfRange` | src/drivers/platform/imx8mq/ccm.cc:68-110 | at a reference of 200 MHz, 50 MHz reads back as 12.85 GHz and 12.9 GHz as 100 MHz |
| `FracPll.FractionLoss` | src/drivers/platform/imx8mq/ccm.cc:68-110 | the 24-bit fraction loses less than one step plus one of the remainder |
| `SccgPll.FindValues` | src/drivers/platform/imx8mq/ccm.cc:144-158 | succeeds if and only if some f and q in 1..64 give the rate, and returns the least q and for it the least f |
| `SccgPll.HitIsFloor` | src/drivers/platform/imx8mq/ccm.cc:144-158 | a hit is the exact quotient of parent * f by q, rounded down |
| `SccgPll.SccgPll.SetRate` | src/drivers/platform/imx8mq/ccm.cc:161-206 | after success, bypass included, the rate read back is exactly the request; on failure no register changes |
| `SccgPll.RateAfterSearch` | src/drivers/platform/imx8mq/ccm.cc:177-203 | the getter undoes the encoding of f and q, through all fields and both bypass bits |
| `SccgPll.RateWithoutBypass` | src/drivers/platform/imx8mq/ccm.cc:185-206 | with both bypass bits clear, the rate is the parent's times 2, or 8 with Sse, and both feedback factors, divided once by the product of the three divisors, rounded down |
| `SccgPll.RateWithBypass1` | src/drivers/platform/imx8mq/ccm.cc:201-203 | with Bypass1, the same for the second feedback factor, the second reference divider and the output divider |
| `SccgPll.RateWithBypass2` | src/drivers/platform/imx8mq/ccm.cc:197-199 | with Bypass2 it is the parent's rate |
| `SccgPll.ZeroRegisters` | src/drivers/platform/imx8mq/ccm.cc:187-205 | zero registers double the parent's rate, Sse alone multiplies it by eight |
| `SccgPll.FactorsKeepRest` | src/drivers/platform/imx8mq/ccm.cc:177-181 | bits outside the three written fields stay |
| `RootClock.Search` | src/drivers/platform/imx8mp/ccm.cc:342-362 | despite its early exit the search returns the lexicographically first of the closest of all 512 settings |
| `RootClock.OffIsDistance` | src/drivers/platform/imx8mp/ccm.cc:349-353 | the distance that the search minimises, over the exact quotient |
| `RootClock.RootClock.SetRate` | src/drivers/platform/imx8mq/ccm.cc:231-283 | the rate read back is the closest to the request over all 512 settings; it is the selected reference divided by the product of both dividers; all other bits stay |
| `RootClock.DividersReadBack` | src/drivers/platform/imx8mp/ccm.h:185-191 | both dividers read back, the other fields stay |
| `RootClock.FieldsOfTarget` | src/drivers/platform/imx8mp/ccm.h:185-191 | the fields in arithmetic over the register |
| `RootClock.RootClockDivider.SetRate` | src/drivers/platform/imx8mp/ccm.cc:420-434 | a request is accepted exactly if the quotient modulo 2^32 is in 1..65, and the register stays otherwise; the divisor field, all other bits, and the rate read back; for quotients 1..64 the divisor is the largest that does not fall below the request |
| `RootClock.AcceptedIff` | src/drivers/platform/imx8mp/ccm.cc:422-426 | which quotients pass the guard, and the field they are written with |
| `RootClock.LargestIff` | src/drivers/platform/imx8mp/ccm.cc:422-427 | an accepted divisor is the largest that keeps the rate exactly when the quotient is in 1..64 |
| `RootClock.Quotient65Undivided` | src/drivers/platform/imx8mp/ccm.cc:422-434 | a parent 65 times as fast as the request is accepted and then runs undivided |
| `RootClock.TreeCollapses` | src/drivers/platform/imx8mq/ccm.cc:276-323 | in a tree of gates, dividers and root clocks of any depth, the rate is the source's, floor-divided once by the product of all divisors on the selected path |
| `GpuProtocol.FirstUnknown` | src/drivers/gpu/imx8mq/main.cc:541-559 | the position at which the translation of a submit buffer stops |
| `GpuSafety.StepKeepsInv` | src/drivers/gpu/imx8mq/main.cc:486-623 | every return of a DRM call keeps the invariant on slots and handles |
| `GpuSafety.StartKeepsInv` | src/drivers/gpu/imx8mq/main.cc:349-362 | picking up the pending request keeps it |
| `GpuSafety.ApplyKeepsInv` | src/drivers/gpu/imx8mq/main.cc:721-1015 | every RPC, interrupt and client write keeps it |
| `GpuSafety.RunKeepsInv` | src/drivers/gpu/imx8mq/main.cc:444-624 | it holds in every run |
| `GpuSafety.HandlesAreConserved` | src/drivers/gpu/imx8mq/main.cc:250-269 | in every run, while the worker is idle the handles open in DRM are exactly the recorded ones, one for each id |
| `GpuCrashes.CollisionIffRepeatedId` | src/drivers/gpu/imx8mq/main.cc:250-256 | for a fixed sequence of calls, made without regard to replies: the worker adds a buffer under a taken id in some run exactly if the calls name an id in two allocations, whatever is freed in between |
| `GpuCrashes.CollisionIffInBooks` | src/drivers/gpu/imx8mq/main.cc:940-971 | after a run in which no call blocks, the next allocation can collide exactly if the client's own calls and replies leave the id in use |
| `GpuCrashes.RetriedAllocationCrashes` | src/drivers/gpu/imx8mq/main.cc:940-961 | a run in which an allocation is answered with an invalid capability, completes later, and its retry crashes the worker |
| `GpuResults.NoStaleResult` | src/drivers/gpu/imx8mq/main.cc:721-766 | in every run, a success callback receives the successful result of the request just submitted, with its tag, which is newer than any published before |
| `GpuResults.RunWorkerPursues` | src/drivers/gpu/imx8mq/main.cc:349-362 | while the worker is inside a request the completed slot stays blank; what it publishes is the result of that request |
| `GpuBlocking.RpcIsRefused` | src/drivers/gpu/imx8mq/main.cc:726-741 | while the worker is inside a request, an RPC draws at most a tag, map_cpu and no other RPC notes a pending map, and nothing else changes |
| `GpuBlocking.BlockedRun` | src/drivers/gpu/imx8mq/main.cc:444-624 | however RPCs, client writes and interrupts interleave while a request is under way, slots, buffers, DRM and worker evolve as in an undisturbed run |
| `GpuBlocking.SingleFlight` | src/drivers/gpu/imx8mq/main.cc:349-362 | from the acceptance of a request until its result is published, no sequence of RPCs, interrupts and client writes changes the slots, the recorded buffers or the request under way, submits or closes anything, or notifies |
| `GpuBlocking.ThreeCallsFinish` | src/drivers/gpu/imx8mq/main.cc:491-612 | no request waits for more than three DRM calls |
| `GpuResults.OneNotificationPerResult` | src/drivers/gpu/imx8mq/main.cc:576-621 | an event raises one notification if it publishes a WAIT or MAP, and none otherwise |
| `GpuReplies.CompleteKeepsPromise` | src/drivers/gpu/imx8mq/main.cc:919-933 | a wait is reported as completed exactly if it returned without error during the call |
| `GpuReplies.BlockedWaitNotifies` | src/drivers/gpu/imx8mq/main.cc:576-587 | a wait that blocks notifies the client once when it returns, whatever happens in between |
| `GpuReplies.AllocKeepsPromise` | src/drivers/gpu/imx8mq/main.cc:940-961 | on an idle session the reply is the new capability exactly if the allocation succeeds during the call; then one fresh handle is recorded under an unused id, otherwise nothing, a failed gem_info included |
| `GpuReplies.AllocResultIs` | src/drivers/gpu/imx8mq/main.cc:492-518 | the whole session state after alloc_vram, for every way in which the three DRM calls answer or block; every size below 2^32 reaches DRM |
| `GpuReplies.InvalidReplyMeansNothingRecordedIff` | src/drivers/gpu/imx8mq/main.cc:492-518 | over the whole life of the request, with any events in between: after an invalid reply nothing is recorded exactly if the call did not block or the remaining outcomes make the allocation fail |
| `GpuReplies.ExecuteTranslates` | src/drivers/gpu/imx8mq/main.cc:533-575 | DRM receives the handles of all ids slot by slot, each buffer flushed; at an unknown id nothing is submitted and the slots from there on are untouched |
| `GpuReplies.InvalidStateMeansNotSubmittedIff` | src/drivers/gpu/imx8mq/main.cc:900-917 | after the exception nothing was submitted exactly if the call was refused or an id is unknown |
| `GpuReplies.BlockedExecIsSubmitted` | src/drivers/gpu/imx8mq/main.cc:533-575 | a run in which a submission that blocks is answered with the exception |
| `GpuResults.SubmittedHandlesAreOpen` | src/drivers/gpu/imx8mq/main.cc:541-565 | in every run, a submission consists of open handles only |
| `GpuMapping.BlockedMapHandOver` | src/drivers/gpu/imx8mq/main.cc:973-1005 | a blocked mapping refuses all retries, whatever else happens, until the DRM call returns, which notifies once; a retry for the buffer that is the next request gets its dataspace and ends the hand-over |
| `GpuMapping.OnlyMapCpuNotes` | src/drivers/gpu/imx8mq/main.cc:975-1000 | no event but a map_cpu touches the note of a pending map; it is set by an invalid reply and cleared by a hand-over |
| `GpuMapping.PendingMapIff` | src/drivers/gpu/imx8mq/main.cc:975-1000 | in every run a map is noted as pending, which every hand-over needs, exactly if some map_cpu was answered with an invalid capability and none has handed over since |
| `GpuMapping.MapReplyIsBackedIff` | src/drivers/gpu/imx8mq/main.cc:976-988 | after every run, a hand-over returns the dataspace of the buffer whose map_cpu last reached DRM, and is backed by a granted access to the requested buffer exactly if that call named this buffer and DRM granted it; other capabilities always are |
| `GpuReplies.MapKeepsPromise` | src/drivers/gpu/imx8mq/main.cc:973-1005 | a map_cpu is answered as busy, by hand-over, refused, or by asking DRM, with the dataspace exactly if DRM grants the access during the call |
| `GpuReplies.FreeKeepsPromise` | src/drivers/gpu/imx8mq/main.cc:963-971 | the whole session state after free_vram |
| `GpuReplies.UnmapKeepsPromise` | src/drivers/gpu/imx8mq/main.cc:1007-1015 | the whole session state after unmap_cpu |
| `GpuReplies.InterruptsContinue` | src/drivers/gpu/imx8mq/main.cc:1120-1123 | whether the DRM calls of a request return during the RPC or at a later interrupt makes no difference to the session, apart from the note of a pending map |
| `GpuReplies.OtherEvents` | src/drivers/gpu/imx8mq/main.cc:1120-1123 | an interrupt leaves an idle session alone, a client write replaces one buffer's contents |
| `GpuMapping.HandOverOfAnotherBuffer` | src/drivers/gpu/imx8mq/main.cc:983-987 | a run in which map_cpu of buffer 2 returns the dataspace of buffer 1 |
| `GpuMapping.HandOverOfFailedMap` | src/drivers/gpu/imx8mq/main.cc:983-987 | a run in which a refused access is reported as granted by the retry |
| `GpuMapping.FreePassProgress` | src/drivers/gpu/imx8mq/main.cc:823-834 | a pass of the destructor's loop removes a buffer exactly if the worker is idle and closing does not block |
| `GpuMapping.TeardownClosesEachHandleOnce` | src/drivers/gpu/imx8mq/main.cc:271-276 | the passes are at most as many as the buffers, close each handle once, and leave none |
| `GpuMapping.TeardownStuck` | src/drivers/gpu/imx8mq/main.cc:872-878 | with a request under way no number of passes removes a buffer |
| `GpuMapping.TeardownGetsStuck` | src/drivers/gpu/imx8mq/main.cc:823-878 | a client's run after which the destructor's passes free nothing |
| `GpuSession.Session.TranslateSlots` | src/drivers/gpu/imx8mq/main.cc:539-559 | the loop that overwrites ids by handles in place, slot by slot |
| `GpuSession.Session.DispatchExec` | src/drivers/gpu/imx8mq/main.cc:533-575 | EXEC up to the submission |
| `GpuSession.Session.ExecuteScheduler` | src/drivers/gpu/imx8mq/main.cc:1120-1123 | the worker runs until it is done or blocked |
| `GpuSession.Session.ScheduleRequest` | src/drivers/gpu/imx8mq/main.cc:721-766 | keeps the invariant; what it delivers is the successful result of this very request, with its tag; a request that is refused changes nothing |
| `GpuSession.Session.Execute` | src/drivers/gpu/imx8mq/main.cc:900-917 | keeps the invariant; if all ids are managed their handles are submitted slot by slot, and the reply is the fence exactly if the submission returns successfully during the call; nothing is submitted exactly if the call is refused or an id is unknown; refused calls change no slot and no buffer |
| `GpuSession.Session.Complete` | src/drivers/gpu/imx8mq/main.cc:919-933 | keeps the invariant; true exactly if the fence wait returned without error during the call; buffers and DRM stay |
| `GpuSession.Session.AllocVram` | src/drivers/gpu/imx8mq/main.cc:940-961 | keeps the invariant; a capability exactly if the allocation succeeds during the call, with the handle recorded, and otherwise no buffer is added by the call |
| `GpuSession.Session.FreeVram` | src/drivers/gpu/imx8mq/main.cc:963-971 | keeps the invariant; closes the handle of exactly this buffer and forgets it, or blocks in closing it, or draws a tag and changes nothing else |
| `GpuSession.Session.MapCpu` | src/drivers/gpu/imx8mq/main.cc:973-1005 | keeps the invariant; the dataspace of this buffer exactly if DRM grants the access during the call, apart from the two early returns of an interrupted mapping, which do not reach DRM |
| `GpuSession.Session.UnmapCpu` | src/drivers/gpu/imx8mq/main.cc:1007-1015 | keeps the invariant; ends the CPU's access to exactly this buffer, or blocks in that call, leaves buffers and handles alone, and does not notify |
| `GpuSession.Session.FreeBuffers` | src/drivers/gpu/imx8mq/main.cc:823-834 | the loop ends with no buffer and no open handle, each closed by exactly one call |
| `Ipu.MiddleIsDeclared` | src/drivers/framebuffer/imx53/ipu.h:147-180 | bit positions of the members bpp, fw and fh follow from the declared widths, and so does where the halves end |
| `Ipu.UpperIsDeclared` | src/drivers/framebuffer/imx53/ipu.h:182-204 | so do those of the second half, which ends at bit 512 |
| `Ipu.Ipu.InitDmaChannel` | src/drivers/framebuffer/imx53/ipu.h:211-244 | the sixteen words stored for a channel are the 32-bit slices of the struct; no other word changes |
| `Ipu.DescriptorHoldsSizes` | src/drivers/framebuffer/imx53/ipu.h:218-220 | for every geometry, width, height and stride are found minus one, truncated to 13, 12 and 14 bits |
| `Ipu.SizesReadBackIff` | src/drivers/framebuffer/imx53/ipu.h:218-220 | each of the three reads back exactly if it is not zero and at most 8192, 4096 and 16384 |
| `Ipu.DescriptorHoldsAddress` | src/drivers/framebuffer/imx53/ipu.h:221-222 | both buffer addresses are found in units of eight bytes, the interlace offset is zero |
| `Ipu.DescriptorHoldsFormat` | src/drivers/framebuffer/imx53/ipu.h:223-241 | pixel format, burst size, and width and offset of the four colour components |
| `Ipu.UnassignedBitsAreZero` | src/drivers/framebuffer/imx53/ipu.h:207-218 | all bits outside the sixteen assigned members are zero |
| `Ipu.Ipu.Overlay` | src/drivers/framebuffer/imx53/ipu.h:525-530 | words 440 and 441, of channel 27, take the values of the two expressions over the address; nothing else changes |
| `Ipu.WordsAreArithmetic` | src/drivers/framebuffer/imx53/ipu.h:529-530 | the two patched words in arithmetic over the address |
| `Ipu.PatchIsMemberAssignment` | src/drivers/framebuffer/imx53/ipu.h:525-530 | on any descriptor the patch assigns both address members and clears the low six bits of the interlace offset |
| `Ipu.PatchedMembers` | src/drivers/framebuffer/imx53/ipu.h:525-530 | all other members stay; the interlace offset stays exactly if it is a multiple of 64, as it is in every descriptor that the driver writes |
| `Ipu.HandPackingIsStructPacking` | src/drivers/framebuffer/imx53/ipu.h:211-244 | for every geometry and every two addresses, patching an initialised descriptor gives the sixteen words of an initialisation with the new address |

## Left out

- `Frac_pll1416`: a lookup in twelve constants.
- RateIsManual: stated for parent rates below 2^37 Hz, beyond which the products of the getter can leave 64 bits.
- RateWithoutBypass: stated for products below 2^64, as is RateWithBypass1.
- AccurateIffQuotientFits: stated for multiplied references below 2^40 Hz, and for the quotient 128 for rates below 2^39 Hz, beyond which the formulas of the setter leave 64 bits.
- GlitchFreeIsAccurate, like GlitchFreeIffInWindow: stated where the product of the parent rate and the multiplier fits 64 bits, beyond which the rate formula wraps, and for p > 0.
- SearchedIsGreatestBelow: stated for requests below 2^63 - 1 Hz, the initial deviation of the search.
- PreDivider64Iff: the same, and for division by zero delivering 0, as on ARMv8.
- ClosestIff: the same, and for division by zero delivering at most the request.
- PreDividerZeroIffTooLow: stated for division by zero delivering 0 and parent rates below 537 MHz; the only parents are the 24 MHz crystal and a clock of 0 Hz.
- BlockedMapHandOver: the retry is the next request; one that is accepted in between overwrites the completed slot, and the retry then maps anew.
- The gate's `rate(Rate)`, which forwards to its parent, and enabling and disabling clocks; reference counting and `Fixed_divider` are not part of this model.
- Local requests of the GPU session (opening and closing the DRM file), `_populate_info`, and creation of worker tasks.
- Mapping attributes, which only select the access that DRM waits for, and the contents of buffers other than submit buffers.
- ExecuteTranslates: the relocation of `bos` and the other offsets in the submit buffer, which src/drivers/gpu/imx8mq/lx_emul.c:141-147 does in place and nothing undoes; a buffer that is submitted again without being rewritten has its slots looked up elsewhere.
- Writes of the client to a submit buffer while its EXEC is blocked inside DRM do not change what was submitted.
- The destructor reads the pending request through a pointer that the first request sets; teardown is modelled after that read.
- `unsigned long` tags do not wrap.
- The registers for position and transparency that `overlay` writes after the descriptor, and the other IPU set-up.
