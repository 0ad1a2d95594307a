/** The range schedule of PrimeFinder::run and ThreadProc.

    A run of `task` primes over `parties` workers uses a cycle of C = min(2^20, task
    truncated to 32 bits) values per round, split into ranges of R = C / parties values.
    In round k, worker i sieves the closed segment [k * C + i * R, k * C + i * R + R];
    after each merge every worker moves its segment up by C. */
module Schedule {
  import opened Arith
  import opened Primes
  import opened Sieve

  /** The largest cycle the source allows (max_buffer_size). */
  const MaxBufferSize: nat := 1024 * 1024

  /** The cycle size: the task is cast to a 32-bit unsigned value before the minimum. */
  function CycleSize(task: nat): (c: nat)
    ensures c <= MaxBufferSize && c <= task % 0x1_0000_0000
    ensures c == MaxBufferSize || c == task % 0x1_0000_0000
  {
    Min(MaxBufferSize, task % 0x1_0000_0000)
  }

  /** The range size of one worker: the cycle divided evenly, the remainder dropped. */
  function RangeSize(task: nat, parties: nat): nat
    requires parties >= 1
  {
    CycleSize(task) / parties
  }

  /** n copies of r added up, that is n * r (TimesIsProduct), unfolded one copy at a time. */
  function Times(n: nat, r: nat): nat {
    if n == 0 then 0 else Times(n - 1, r) + r
  }

  /** Where worker i's segment starts in round k: k * c + i * r. */
  function SegmentStart(k: nat, i: nat, c: nat, r: nat): nat {
    Times(k, c) + Times(i, r)
  }

  /** The schedule keeps every segment inside the source's marker array: a segment's two
      ends are never both odd. */
  predicate SafeSchedule(task: nat, parties: nat)
    requires parties >= 1
  {
    RangeSize(task, parties) % 2 == 1 || CycleSize(task) % 2 == 0
  }

  /** The ranges tile the cycle exactly, with an even width of at least 4. Under this
      condition the schedule enumerates every prime once and in order. */
  predicate Tiled(task: nat, parties: nat) {
    parties >= 1 && TiledBy(CycleSize(task), RangeSize(task, parties), parties)
  }

  /** p ranges of width r tile a cycle of c values; r is even and at least 4. */
  predicate TiledBy(c: nat, r: nat, p: nat) {
    Times(p, r) == c && r % 2 == 0 && r >= 4
  }

  // ----- repeated addition -----

  lemma {:induction false} TimesIsProduct(n: nat, r: nat)
    ensures Times(n, r) == n * r
  {
    if n > 0 {
      TimesIsProduct(n - 1, r);
      MulSucc(n - 1, r);
    }
  }

  lemma {:induction false} TimesEven(n: nat, r: nat)
    requires r % 2 == 0
    ensures Times(n, r) % 2 == 0
  {
    if n > 0 {
      TimesEven(n - 1, r);
      EvenSum(Times(n - 1, r), r);
    }
  }

  lemma {:induction false} TimesMono(m: nat, n: nat, r: nat)
    requires m <= n
    ensures Times(m, r) <= Times(n, r)
    ensures m < n ==> Times(m, r) + r <= Times(n, r)
    decreases n
  {
    if m < n {
      TimesMono(m, n - 1, r);
    }
  }

  // ----- properties of the schedule -----

  /** A task of at most 2^20 primes is its own cycle size. */
  lemma SmallTaskCycle(task: nat)
    requires task <= MaxBufferSize
    ensures CycleSize(task) == task
  {
  }

  /** The ranges of all workers fit in the cycle, and less than one more range is left over. */
  lemma RangeSizeBounds(task: nat, parties: nat)
    requires parties >= 1
    ensures Times(parties, RangeSize(task, parties)) <= CycleSize(task) < Times(parties, RangeSize(task, parties) + 1)
  {
    var r := RangeSize(task, parties);
    DivBounds(CycleSize(task), parties);
    TimesIsProduct(parties, r);
    TimesIsProduct(parties, r + 1);
  }

  /** A safe schedule gives safe bounds to every segment of every round; an unsafe one
      gives both-odd bounds to worker 0 in round 1. */
  lemma SafeScheduleIff(task: nat, parties: nat, k: nat, i: nat)
    requires parties >= 1
    ensures SafeSchedule(task, parties) ==>
      SafeBounds(SegmentStart(k, i, CycleSize(task), RangeSize(task, parties)),
                 SegmentStart(k, i, CycleSize(task), RangeSize(task, parties)) + RangeSize(task, parties))
    ensures !SafeSchedule(task, parties) ==>
      !SafeBounds(SegmentStart(1, 0, CycleSize(task), RangeSize(task, parties)),
                  SegmentStart(1, 0, CycleSize(task), RangeSize(task, parties)) + RangeSize(task, parties))
  {
    SegmentSafety(k, i, CycleSize(task), RangeSize(task, parties));
  }

  /** Segment bounds are safe when the width is odd or the cycle and width are both even;
      with an even width and an odd cycle, round 1 starts at the odd value c. */
  lemma SegmentSafety(k: nat, i: nat, c: nat, r: nat)
    ensures r % 2 == 1 || c % 2 == 0 ==> SafeBounds(SegmentStart(k, i, c, r), SegmentStart(k, i, c, r) + r)
    ensures r % 2 == 0 && c % 2 == 1 ==> !SafeBounds(SegmentStart(1, 0, c, r), SegmentStart(1, 0, c, r) + r)
  {
    if c % 2 == 0 && r % 2 == 0 {
      TimesEven(k, c);
      TimesEven(i, r);
      EvenSum(Times(k, c), Times(i, r));
    }
    assert Times(1, c) == Times(0, c) + c;
  }

  /** Inside a round, each worker's segment starts where the previous worker's ends. */
  lemma SegmentsAbut(k: nat, i: nat, c: nat, r: nat)
    ensures SegmentStart(k, i + 1, c, r) == SegmentStart(k, i, c, r) + r
  {
  }

  /** In a tiled schedule the last worker's segment ends where the next round starts. */
  lemma RoundsAbut(k: nat, c: nat, r: nat, p: nat)
    requires TiledBy(c, r, p)
    ensures SegmentStart(k, p, c, r) == SegmentStart(k + 1, 0, c, r)
  {
  }

  /** A round of a tiled schedule starts at 0 or at 4 or more, and at an even value. */
  lemma RoundBaseOk(k: nat, c: nat, r: nat, p: nat)
    requires TiledBy(c, r, p)
    ensures Times(k, c) % 2 == 0 && (Times(k, c) == 0 || Times(k, c) >= 4)
  {
    TimesEven(p, r);
    TimesEven(k, c);
    TimesMono(0, p, r);
    TimesMono(0, k, c);
    if p == 0 {
      TimesIsProduct(k, c);
    }
  }

  /** In a tiled schedule every segment starts at an even value other than 2. */
  lemma TiledStart(k: nat, i: nat, c: nat, r: nat, p: nat)
    requires TiledBy(c, r, p)
    ensures SegmentStart(k, i, c, r) % 2 == 0 && SegmentStart(k, i, c, r) != 2
  {
    RoundBaseOk(k, c, r, p);
    TimesEven(i, r);
    TimesMono(0, i, r);
    EvenSum(Times(k, c), Times(i, r));
  }

  /** With a range width of at least 4, no segment of any round starts at 2: a start is
      k * C + i * R, which is 0 or at least R, since C >= R. */
  lemma NoStartAtTwo(task: nat, parties: nat, k: nat, i: nat)
    requires parties >= 1 && RangeSize(task, parties) >= 4
    ensures SegmentStart(k, i, CycleSize(task), RangeSize(task, parties)) != 2
  {
  }

  /** When the ranges do not fill the cycle, the values strictly between the end of the last
      range and the next round's start lie in no segment of any round. */
  lemma UntiledGap(k: nat, v: nat, k2: nat, i: nat, c: nat, r: nat, p: nat)
    requires i < p && Times(p, r) <= c
    requires Times(k, c) + Times(p, r) < v < Times(k + 1, c)
    ensures !(SegmentStart(k2, i, c, r) <= v <= SegmentStart(k2, i, c, r) + r)
  {
    TimesMono(i, p, r);
    if k2 < k {
      TimesMono(k2, k, c);
    } else if k2 > k {
      TimesMono(k + 1, k2, c);
    }
  }

  /** With 7 workers and a task of 30, the ranges have width 4 and cover [0, 28] only in
      each cycle of 30, so the prime 29 lies in no segment of any round. */
  lemma UntiledGapExample(k2: nat, i: nat)
    requires i < 7
    ensures CycleSize(30) == 30 && RangeSize(30, 7) == 4 && IsPrime(29)
    ensures !(SegmentStart(k2, i, 30, 4) <= 29 <= SegmentStart(k2, i, 30, 4) + 4)
  {
    assert Times(7, 4) == 28;
    assert Times(1, 30) == 30;
    NoDivisorFromIff(29, 2);
    forall d | 2 <= d < 29
      ensures 29 % d != 0
    {
    }
    UntiledGap(0, 29, k2, i, 30, 4, 7);
  }

  // ----- what a round emits -----

  /** The concatenated emissions of n consecutive segments of width r from base, in
      worker order: [base, base + r], then [base + r, base + 2 * r], and so on. */
  function Segments(base: nat, r: nat, n: nat): seq<nat>
    decreases n
  {
    if n == 0 then [] else Emitted(base, base + r) + Segments(base + r, r, n - 1)
  }

  /** A non-empty run of segments is its first segment's emission and then the rest. */
  lemma SegmentsCons(base: nat, r: nat, n: nat)
    requires n > 0
    ensures Segments(base, r, n) == Emitted(base, base + r) + Segments(base + r, r, n - 1)
  {
  }

  /** The concatenated emissions of rounds 0 .. rounds-1, the order in which the merger
      writes them; round k's segments start at k * c. */
  function RoundsEmitted(c: nat, r: nat, p: nat, rounds: nat): seq<nat> {
    if rounds == 0 then []
    else RoundsEmitted(c, r, p, rounds - 1) + Segments(Times(rounds - 1, c), r, p)
  }

  /** n segments of even width r >= 4 from an even base other than 2 emit the primes of
      [base, hi) with hi = base + n * r, ascending and each once. */
  lemma {:induction false} TiledSegments(base: nat, r: nat, n: nat, hi: nat)
    requires base % 2 == 0 && base != 2 && r % 2 == 0 && r >= 4
    requires hi == base + Times(n, r)
    ensures Segments(base, r, n) == PrimesIn(base, hi)
    decreases n
  {
    if n == 0 {
      assert PrimesIn(base, base) == [];
    } else {
      assert hi == base + r + Times(n - 1, r);
      EvenSum(base, r);
      TiledSegments(base + r, r, n - 1, hi);
      SegmentsStep(base, r, n, hi);
    }
  }

  /** If the segments after the first emit the primes of [base + r, hi), all n of them
      emit the primes of [base, hi). */
  lemma SegmentsStep(base: nat, r: nat, n: nat, hi: nat)
    requires base % 2 == 0 && (base + r) % 2 == 0 && base != 2 && r >= 4
    requires n > 0 && base + r <= hi
    requires Segments(base + r, r, n - 1) == PrimesIn(base + r, hi)
    ensures Segments(base, r, n) == PrimesIn(base, hi)
  {
    SegmentEmitted(base, base + r);
    SegmentsConcat(base, r, n, hi);
  }

  /** The concatenation behind SegmentsStep, once the first segment is known to be exact. */
  lemma SegmentsConcat(base: nat, r: nat, n: nat, hi: nat)
    requires n > 0 && base + r <= hi
    requires Emitted(base, base + r) == PrimesIn(base, base + r)
    requires Segments(base + r, r, n - 1) == PrimesIn(base + r, hi)
    ensures Segments(base, r, n) == PrimesIn(base, hi)
  {
    SegmentsCons(base, r, n);
    PrimesInSplit(base, base + r, hi);
  }

  /** In a tiled schedule, the first `rounds` rounds emit the primes below rounds * c,
      ascending and each once. */
  lemma {:induction false} TiledRounds(rounds: nat, c: nat, r: nat, p: nat)
    requires TiledBy(c, r, p)
    ensures RoundsEmitted(c, r, p, rounds) == PrimesIn(0, Times(rounds, c))
  {
    if rounds == 0 {
      assert PrimesIn(0, 0) == [];
    } else {
      var base := Times(rounds - 1, c);
      RoundBaseOk(rounds - 1, c, r, p);
      TiledSegments(base, r, p, Times(rounds, c));
      TiledRounds(rounds - 1, c, r, p);
      PrimesInSplit(0, base, Times(rounds, c));
    }
  }

  /** A prime at the top end of a segment is emitted by that segment. */
  lemma TopEmitted(a: nat, b: nat)
    requires 3 <= a < b && SafeBounds(a, b) && IsPrime(b)
    ensures b in Emitted(a, b)
  {
    EmittedExact(a, b);
    PrimeInRange(a, b + 1, b);
  }

  /** A prime at the bottom end of a segment is emitted by that segment. */
  lemma BottomEmitted(a: nat, b: nat)
    requires 3 <= a < b && SafeBounds(a, b) && IsPrime(a)
    ensures a in Emitted(a, b)
  {
    EmittedExact(a, b);
    PrimeInRange(a, b + 1, a);
  }

  /** With an odd range width, worker i's top end is worker i + 1's start, and a prime
      there is emitted by both segments. */
  lemma OddRangeSharesEnd(k: nat, i: nat, c: nat, r: nat)
    requires r % 2 == 1 && SegmentStart(k, i, c, r) >= 3 && IsPrime(SegmentStart(k, i + 1, c, r))
    ensures SegmentStart(k, i, c, r) + r == SegmentStart(k, i + 1, c, r)
    ensures SegmentStart(k, i + 1, c, r) in Emitted(SegmentStart(k, i, c, r), SegmentStart(k, i + 1, c, r))
    ensures SegmentStart(k, i + 1, c, r) in Emitted(SegmentStart(k, i + 1, c, r), SegmentStart(k, i + 1, c, r) + r)
  {
    var a, b := SegmentStart(k, i, c, r), SegmentStart(k, i + 1, c, r);
    assert b == a + r;
    assert SafeBounds(a, b) && SafeBounds(b, b + r);
    SharedEnd(a, b, b + r);
  }

  /** Width 2 is too narrow for the sieve even in an exact even tiling: with a task of 4
      and two workers, C = 4 and R = 2, find_primes on [0, 2] and on [2, 4] emits 2 for
      each (the overwrite), so with buffers large enough round 0 would write 2 twice and
      lose 3. The source's buffer sizing already fails for R = 2, before any sieving. */
  lemma NarrowRangeRepeatsTwo()
    ensures CycleSize(4) == 4 && RangeSize(4, 2) == 2 && SafeSchedule(4, 2) && Times(2, 2) == 4
    ensures Emitted(0, 2) == [2] && Emitted(2, 4) == [2]
    ensures RoundsEmitted(4, 2, 2, 1) == [2, 2] && PrimesIn(0, 4) == [2, 3]
  {
    assert Segments(2, 2, 1) == Emitted(2, 4) + Segments(4, 2, 0);
    assert PrimesIn(0, 4) == [2, 3];
  }

  /** A prime shared by two adjacent segments with safe bounds is emitted by both. */
  lemma SharedEnd(a: nat, b: nat, e: nat)
    requires 3 <= a < b < e && SafeBounds(a, b) && SafeBounds(b, e) && IsPrime(b)
    ensures b in Emitted(a, b) && b in Emitted(b, e)
  {
    TopEmitted(a, b);
    BottomEmitted(b, e);
  }
}
