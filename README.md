# findprimes: a verified model of the segmented parallel prime sieve

findprimes writes the first `task` primes to a file. `PrimeFinder::run` splits a cycle of
C = min(2^20, task cast to 32 bits) values into `parties` closed ranges of width
R = C / parties. Worker i starts on [i * R, i * R + R].

Every worker repeats the same round (`ThreadProc`):
1. It sieves its segment with `find_primes`, an odd-only segmented sieve that writes the
   survivors to the worker's buffer.
2. It arrives at the barrier in `await`. The last worker to arrive merges every worker's
   buffer in worker order into the output. On the way it adds each worker's count to the
   running total `found_`. The worker whose count reaches the task has its count cut back,
   and `terminated_` is set.
3. Every worker moves its segment up by C.

The model has five modules:

- `Arith`: facts about multiplication, division and remainder.
- `Primes`: primality and the reference enumeration `PrimesIn(lo, hi)` of the primes in
  [lo, hi).
- `Sieve`: `find_primes` as array code.
  - `FindPrimes` works on `array<bool>` markers and an `array<nat>` buffer.
  - It is proved to write exactly `Emitted(from, to)`. This is the survivor scan,
    followed by the overwrite of slot 0 with 2 when from <= 2.
  - Lemmas relate `Emitted` to `PrimesIn`, including the edge cases where the two differ.
- `Schedule`: the cycle and range sizes, where each segment starts, and what a run of
  rounds emits (`RoundsEmitted`). The main lemma says a tiled schedule emits the primes
  below rounds * C, in ascending order and each exactly once.
- `Finder`: the runtime.
  - `Worker` is a class modelling `ThreadParam`.
  - `PrimeFinder` is a class with `found`, `terminated` and `output`; its `Merge` is the
    merging branch of `await`.
  - The rounds of `ThreadProc` run one after another: every worker sieves, then the
    merge runs, then every worker advances.
  - `Run` is proved to write the schedule's emissions cut back to the task, and to stop
    at the first round whose emissions reach the task.

## Model

| member | source | states |
|---|---|---|
| Sieve.Isqrt | src/Main.cpp:127 | the root used as the sieving bound is the exact floor square root: r * r <= n < (r + 1) * (r + 1) |
| Sieve.Root | src/Main.cpp:127 | the sieving bound is computed by a loop that steps the root up; it returns the floor square root of n, the same value as Isqrt |
| Sieve.FindPrimes | src/Main.cpp:124-153 | for bounds that are not both odd and a buffer large enough for the survivors, the returned count is at most one per odd slot; buffer[0..count) holds exactly Emitted(from, to); every other buffer cell is untouched, and cell 0 holds 2 whenever from <= 2, even when the count is 0 |
| Sieve.SieveMarks | src/Main.cpp:126-138 | starting from all markers set, sieving with every odd i from 3 to the root leaves marker k set exactly when the odd value FirstOdd(from) + 2k is 1 or a prime (KeepMarks) |
| Sieve.StrikeMultiples | src/Main.cpp:131-137 | one sieving value i clears exactly the markers of the odd multiples of i that are at least max(from, i * i), and changes no other marker |
| Sieve.FirstMultiple | src/Main.cpp:131-134 | the start is an odd multiple of i, at least from and at least i * i, and no smaller odd value has those properties |
| Sieve.ClearMultiples | src/Main.cpp:136-137 | stepping by 2i from the first struck value to `to` clears exactly the struck markers not yet cleared |
| Sieve.CollectSurvivors | src/Main.cpp:140-147 | the values of the set markers are written in slot order to primes[0..count), count is their number, and the rest of the buffer is unchanged |
| Sieve.SlotOf | src/Main.cpp:137 | with safe bounds, every odd j in [from, to] maps to an index (j - from) / 2 inside the marker array, whose slot holds the value j |
| Sieve.TopSlotMissing | src/Main.cpp:126 | when from and to are both odd, (to - from + 1) / 2 slots cover only the values below to, and to's index equals the array length |
| Sieve.BothOddWritesPastEnd | src/Main.cpp:126-137 | on [1, 9], sieving value 3 reaches j = 9, whose index (9 - 1) / 2 = 4 is one past the 4-slot marker array |
| Sieve.SurvivesIffKeep | src/Main.cpp:129-137 | once every odd sieving value below b has run, an odd v < b * b keeps its marker exactly when it is 1 or a prime: no prime is cleared and every odd composite is |
| Primes.CompositeHasSmallFactor | src/Main.cpp:127-129 | a composite n has a factor p with p * p <= n, which is why sieving up to the square root is enough |
| Sieve.MarksFinal | src/Main.cpp:129-138 | after the outer loop passes the root, the markers are exactly KeepMarks of the segment |
| Sieve.OverwriteGivesEmitted | src/Main.cpp:149-150 | overwriting cell 0 with 2 when from <= 2 and there is at least one survivor turns the scanned survivors into Emitted(from, to) |
| Sieve.SurvivorsFit | src/Main.cpp:144-150 | the emitted count equals the survivor count and is at most the number of odd slots (to - from + 1) / 2 |
| Sieve.EmittedAscending | src/Main.cpp:144-150 | for any bounds, the emitted values are strictly ascending, including after the overwrite with 2 |
| Sieve.EmittedExact | src/Main.cpp:124-153 | a segment starting at 3 or above with safe bounds emits exactly the primes of [from, to], in ascending order |
| Sieve.SurvivorsExact | src/Main.cpp:140-147 | from 2 on, the scan lists exactly the primes from the first odd value in the segment up to to |
| Sieve.EmittedFromLow | src/Main.cpp:149-150 | a segment starting at 0 or 1 and reaching 2 scans 1 and then the odd primes; once 1 is overwritten with 2, it emits exactly the primes of [from, to] |
| Sieve.EmittedFromTwo | src/Main.cpp:149-150 | a segment starting at 2 emits 2 followed by the primes from 5: the overwrite lands on 3's slot, so 3 is lost |
| Sieve.EmittedTwoTwo | src/Main.cpp:126-150 | [2, 2] has no slot, so the count is 0 and the prime 2 is not emitted |
| Sieve.EmittedZeroOne | src/Main.cpp:149-150 | [0, 1] emits 2, a value outside the segment |
| Sieve.EmittedZeroTen | src/Main.cpp:124-153 | [0, 10] emits 2, 3, 5, 7 |
| Sieve.EmittedHundred | src/Main.cpp:124-153 | [100, 120] emits 101, 103, 107, 109, 113 |
| Sieve.EmittedThirteenSeventeen | src/Main.cpp:126-147 | with both ends odd and a prime top end, [13, 17] sieves with 3 only, never reaches 17, has 2 slots and emits only 13 although 17 is prime |
| Sieve.SegmentEmitted | src/Main.cpp:124-153 | a segment with even ends other than 2 and width at least 4 emits exactly the primes of [lo, hi) |
| Schedule.CycleSize | src/Main.cpp:71-72 | the cycle is at most 2^20, at most the task reduced modulo 2^32, and equal to one of the two |
| Schedule.SmallTaskCycle | src/Main.cpp:72 | a task of at most 2^20 is its own cycle size |
| Schedule.RangeSizeBounds | src/Main.cpp:73 | parties * R <= C < parties * (R + 1): the ranges fit in the cycle, and less than one range is left over |
| Schedule.SafeScheduleIff | src/Main.cpp:72-83 | an odd range width or an even cycle gives every segment of every round bounds that are not both odd; otherwise worker 0's round-1 segment has both ends odd |
| Schedule.SegmentSafety | src/Main.cpp:81-82 | the same, for any cycle c and width r |
| Schedule.SegmentsAbut | src/Main.cpp:81-82 | worker i + 1's segment starts where worker i's ends: the closed ranges share their end points |
| Schedule.RoundsAbut | src/Main.cpp:163-164 | on a tiled schedule, the last worker's end is the next round's first start |
| Schedule.TiledStart | src/Main.cpp:81-82 | on a tiled schedule, every segment starts at an even value other than 2 |
| Schedule.UntiledGap | src/Main.cpp:73-82 | when parties * R < C, the values between k * C + parties * R and (k + 1) * C lie in no segment of any round |
| Schedule.UntiledGapExample | src/Main.cpp:72-82 | with task 30 and 7 workers, C = 30 and R = 4, and the prime 29 lies in no segment of any round |
| Schedule.TiledSegments | src/Main.cpp:81-82 | n segments of even width r >= 4 from an even base other than 2 emit, in worker order, the primes of [base, base + n * r) |
| Schedule.TiledRounds | src/Main.cpp:159-165 | on a tiled schedule, the first `rounds` rounds emit exactly the primes below rounds * C, ascending and each once |
| Schedule.OddRangeSharesEnd | src/Main.cpp:81-82 | with an odd width, a prime at the end shared by two workers is emitted by both segments, so it is written twice |
| Schedule.NarrowRangeRepeatsTwo | src/Main.cpp:72-82 | with a task of 4 on two workers, C = 4 and R = 2; find_primes on the segments [0, 2] and [2, 4] emits 2 for each, so with buffers large enough round 0 would emit 2, 2 instead of the primes 2, 3 (the source's own buffer sizing already fails for R = 2 at line 76) |
| Schedule.NoStartAtTwo | src/Main.cpp:72-82 | with a range width of at least 4, no segment of any round starts at 2, so the loss of 3 at a start of 2 never arises |
| Finder.StalledRounds | src/Main.cpp:72-73 | a non-zero task divisible by 2^32 gives C = R = 0; with the model's one-cell buffers every round then emits nothing, so the task is never met |
| Finder.Clamp | src/Main.cpp:104-109 | cutting back to n values keeps a prefix of length min(length, n) |
| Finder.LaterWorkersIgnored | src/Main.cpp:100-107 | once worker j brings the total to the task, the output cut back to the task is decided by workers 0..j alone |
| Finder.Reached | src/Main.cpp:104-110 | the worker that brings the total from below the task to the task is the first to reach it, and its shortened count fills the output exactly to the task |
| Finder.MergeStep | src/Main.cpp:102-110 | one merger step extends the running total by the worker's count, and the output by its buffer |
| Finder.Worker.constructor | src/Main.cpp:79-83 | a new worker holds its buffer (set by the ThreadParam constructor at line 80) and the segment and cycle size that lines 81-83 assign; the zero count is the model's, since the source leaves count unset until line 161 writes it |
| Finder.Worker.SieveSegment | src/Main.cpp:161 | the worker's count and buffer prefix become Emitted of its segment |
| Finder.Worker.Advance | src/Main.cpp:163-164 | both ends of the segment move up by the cycle size |
| Finder.Spawn | src/Main.cpp:75-83 | parties new workers with distinct fresh buffers; worker i holds [i * R, i * R + R] and cycle size C |
| Finder.SieveOne | src/Main.cpp:161 | what a worker publishes is the emission of its segment, and afterwards its count and the first count cells of its buffer, which the merger reads at lines 102 and 109, hold exactly that emission |
| Finder.Publish | src/Main.cpp:161 | what worker i publishes is its entry of the round (Round), and its count and buffer prefix hold it |
| Finder.SieveNext | src/Main.cpp:159-161 | after worker i sieves, the published values are the round's first i + 1 entries, the segments are unchanged, and every worker up to i still holds its own entry in its count and buffer prefix, since each writes only its own buffer |
| Finder.SieveAll | src/Main.cpp:159-161 | in round k, the workers publish, in worker order, the emissions of the round's consecutive segments (Round), and at the end every worker's count and buffer prefix still hold its own published values, so the state the merger reads is the snapshot it merges |
| Finder.AdvanceAll | src/Main.cpp:163-164 | every worker moves from round k's segment to round k + 1's, and no worker's count changes |
| Finder.FlattenRound | src/Main.cpp:100-110 | concatenating the published values in worker order gives the run of the round's consecutive segments |
| Finder.RoundMerged | src/Main.cpp:100-111 | merging round k extends the total by the round's count, and the output, cut back to the task, to that of rounds 0..k |
| Finder.PrimeFinder.constructor | src/Main.cpp:55-63 | a new finder has found 0, is not terminated and has an empty output |
| Finder.PrimeFinder.Merge | src/Main.cpp:100-111 | an already terminated finder does not change; otherwise the output gains the workers' values in worker order, cut back to the task; the run terminates exactly when the total reaches the task, and then the total is taken at the first worker that reached it |
| Finder.PrimeFinder.PlayRound | src/Main.cpp:159-165 | one round (sieve, merge, advance) takes the finder's progress invariant from k rounds to k + 1 and moves the workers to round k + 1 |
| Finder.PrimeFinder.PlayRounds | src/Main.cpp:155-165 | rounds repeat until termination or the round bound, keeping the progress invariant |
| Finder.PrimeFinder.Run | src/Main.cpp:65-93 | the run stops at the first round whose emissions reach the task; the output is the emissions of the rounds played, cut back to the task; on a tiled schedule it is the primes below rounds * C, cut back to the task |
| Finder.TiledOutput | src/Main.cpp:100-110 | the cut-back enumeration holds min(task, number of primes below hi) values, all prime and below hi, strictly ascending |
| Finder.ClampedPrimesAgree | src/Main.cpp:100-110 | any two enumerations from 0 that reach the task agree on their first task primes, so worker count and cycle width do not change the output of a tiled run that terminates |
| Finder.TenTiled | src/Main.cpp:71-73 | with task 10 and one worker, C = R = 10 and the schedule is tiled |
| Finder.TargetTen | src/Main.cpp:100-110 | an enumeration from 0 that holds at least ten primes, cut back to ten, is 2, 3, 5, ..., 29 |
| Finder.TenRounds | src/Main.cpp:159-165 | the ten-prime run emits fewer than ten primes in up to two rounds and at least ten from three rounds on |
| Finder.RunTen | src/Main.cpp:65-93 | a run for ten primes with one worker terminates in exactly three rounds (when the round bound allows it) and writes 2, 3, 5, 7, 11, 13, 17, 19, 23, 29 |
| Primes.PrimesInExact | src/Main.cpp:144-147 | the reference enumeration holds exactly the primes of its range, strictly ascending |

## Behaviour at the edges

The model follows `find_primes` in each of these cases. For R <= 2 the source's buffer
sizing (line 76) fails before any sieving. For bounds with both ends odd the model excludes
the input by precondition; the source writes out of bounds when `to` is an odd composite
and drops `to` when it is prime.

- Segments are closed ranges [from, to]. Neighbouring workers of one round share an end
  point (`Schedule.SegmentsAbut`). The last worker of one round and the first of the next
  share one only when parties * R == C (`Schedule.RoundsAbut`); otherwise the last segment
  ends at k * C + parties * R, below the next round's start. A shared point
  k * C + i * R is even when R and C are both even. With R even and C odd, every boundary
  of an odd-numbered round is odd. With an odd R, a prime at a shared point is written
  twice (`Schedule.OddRangeSharesEnd`).
- The cycle C is min(2^20, task cast to 32 bits), and parties need not divide C, so the
  ranges need not tile the cycle. The values between parties * R and C of every cycle are
  then never sieved (`Schedule.UntiledGap`), and the output misses the primes among them.
- The overwrite of slot 0 with 2 is correct for segments starting at 0 or 1 and reaching 2
  (`Sieve.EmittedFromLow`). A segment
  starting at 2 loses the prime 3 (`Sieve.EmittedFromTwo`). The segment [2, 2] loses 2.
  The segment [0, 1] emits 2 although 2 lies outside it. No schedule with a range width
  of at least 4 produces a segment starting at 2 (`Schedule.NoStartAtTwo`).
- An even, exact tiling still needs R >= 4 for the sieve itself: a task of 4 on two
  workers gives C = 4 and R = 2, and `find_primes` on the two segments [0, 2] and [2, 4]
  emits 2 for each, so even with buffers large enough the round would repeat 2 and lose 3
  (`Schedule.NarrowRangeRepeatsTwo`). In the source this configuration already fails at
  line 76 (next item).
- A range width R <= 2 breaks the buffer sizing of line 76. With R = 0 (for instance a
  non-zero task that is a multiple of 2^32) and with R = 1, the formula gives an empty
  buffer, and round 0 writes past it. With R = 1, worker 0's segment [0, 1] keeps the slot
  of 1, so the scan's write at line 147 is already out of bounds. With R = 0, the segment
  [0, 0] has no slot, and the write of 2 to cell 0 at line 150 is. With R = 2
  the formula is negative, and converting it to a size is undefined. The model's buffers
  always have at least one cell, so in the R = 0 case it sieves [0, 0] round after round without
  emitting anything (`Finder.StalledRounds`); that stall is the model's, not the source's.
- With both ends of a segment odd, the marker array has no slot for `to`
  (`Sieve.TopSlotMissing`). When `to` is an odd composite, some sieving value strikes it
  and the source writes one slot past the array (`Sieve.BothOddWritesPastEnd`), which is
  undefined. When `to` is prime, the source stays in bounds but silently drops `to`: the
  segment [13, 17] emits only 13 (`Sieve.EmittedThirteenSeventeen`). The model's
  precondition `SafeBounds` (and `SafeSchedule` for a run) excludes both kinds of input,
  the undefined ones and the defined but lossy ones.

## Left out

- Threads, the semaphore, the `InterlockedDecrement` barrier and its reset (lines 67,
  84-91, 98, 112-116) are not modelled. The rounds run sequentially, in the order the
  barrier is meant to enforce: all workers sieve, then one merge runs, then all workers
  advance. (Inside a round, the source runs the sieves concurrently on disjoint state.)
- The model assumes the barrier holds, and does not capture a race in it. A worker can
  be preempted between its decrement (line 98) and its wait (line 116). The merger then
  releases parties - 1 permits (line 113) while only parties - 2 workers are blocked. A
  released worker can then sieve the next round, decrement, and take the spare permit.
  It passes that round's barrier before the merge, and overwrites its buffer with a later
  round. The next merge then writes stale and later-round values, so the output can hold
  duplicates and be out of order.
- Finder.PrimeFinder.Merge: takes the values the workers published (their buffer
  prefixes) as sequences instead of reading the workers' buffers through `params_`.
  `Finder.SieveAll` states that these sequences are what the workers' counts and buffer
  prefixes hold when the merger runs.
- Finder.Worker.SieveSegment and Sieve.FindPrimes: the 64-bit wrap-around of `from`, `to`,
  `i * i`, `j` and `found_` is not modelled, because integers are unbounded. That
  wrap-around needs values near 2^64, far past any count a run reaches.
- Finder.PrimeFinder.Merge: the truncation of a worker's 64-bit count to `unsigned int`
  (line 102) is not modelled. Counts never exceed one per odd slot of a range of at most
  2^20 values.
- Sieve.Isqrt: the floating-point `sqrt` of line 127 is replaced by the exact floor square root.
  For the values a run reaches, the conversion of a double to `uint64_t` gives the same
  root.
- Finder.Spawn: the buffer size `range_size / (log(range_size) - 1.09)` (line 76) is
  floating point. The model instead gives each worker one slot per odd value of its range
  (at least one). This is the bound `FindPrimes` needs, and it cannot be exceeded. For
  R <= 2 the source's formula gives an empty buffer (R = 0 or R = 1) or an undefined size
  (R = 2), so the model's behaviour there is not the source's.
- The `std::ofstream` output and its space separators (lines 52, 61, 109-110) are modelled
  as a sequence of naturals.
- Finder.PrimeFinder.Run: the source loops until the task is met, which need not happen
  (for instance when the ranges never reach enough primes). The model plays at most `maxRounds` rounds, and its contract
  says what holds when the bound stops it. Run's return value (line 93, the task itself)
  is left out.
- The `terminated()` getter (lines 119-122) is not a separate member: the round loop
  reads the field.
- `main` (lines 170-181) is left out: path discovery, processor count and the fixed task
  of 1000 are process start-up.
