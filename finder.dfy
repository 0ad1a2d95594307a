/** The merger and the round loop of PrimeFinder (run, await and ThreadProc), played out
    one round at a time: every worker sieves its segment, then the merger appends the
    workers' results in worker order until the task is met, then every worker moves its
    segment up by one cycle. */
module Finder {
  import opened Arith
  import opened Primes
  import opened Sieve
  import opened Schedule

  // ----- sequences of buffers -----

  /** The buffers' values, one buffer after the other. */
  function Flatten(xs: seq<seq<nat>>): seq<nat> {
    if |xs| == 0 then [] else xs[0] + Flatten(xs[1..])
  }

  /** The sum of the counts. */
  function Sum(cs: seq<nat>): nat {
    if |cs| == 0 then 0 else cs[0] + Sum(cs[1..])
  }

  /** The length of each buffer, in order: the counts the workers report. */
  function Lengths(xs: seq<seq<nat>>): (cs: seq<nat>)
    ensures |cs| == |xs| && forall i :: 0 <= i < |xs| ==> cs[i] == |xs[i]|
  {
    seq(|xs|, i requires 0 <= i < |xs| => |xs[i]|)
  }

  /** The first n values of s, or all of s when it is shorter. */
  function Clamp(s: seq<nat>, n: nat): (r: seq<nat>)
    ensures |r| == Min(|s|, n) && r <= s
  {
    s[..Min(|s|, n)]
  }

  /** Worker j is the first one after which the found total reaches the task. */
  predicate FirstReach(f0: nat, task: nat, cs: seq<nat>, j: nat) {
    j < |cs| && f0 + Sum(cs[..j + 1]) >= task && (j == 0 || f0 + Sum(cs[..j]) < task)
  }

  lemma FlattenHead(xs: seq<seq<nat>>, x: seq<nat>, rest: seq<nat>)
    requires |xs| > 0 && xs[0] == x && Flatten(xs[1..]) == rest
    ensures Flatten(xs) == x + rest
  {
  }

  lemma {:induction false} FlattenSnoc(xs: seq<seq<nat>>, x: seq<nat>)
    ensures Flatten(xs + [x]) == Flatten(xs) + x
  {
    if |xs| > 0 {
      assert (xs + [x])[1..] == xs[1..] + [x];
      FlattenSnoc(xs[1..], x);
    }
  }

  lemma {:induction false} SumSnoc(cs: seq<nat>, c: nat)
    ensures Sum(cs + [c]) == Sum(cs) + c
  {
    if |cs| > 0 {
      assert (cs + [c])[1..] == cs[1..] + [c];
      SumSnoc(cs[1..], c);
    }
  }

  /** Buffers holding counts[i] values each hold Sum(counts) values together. */
  lemma {:induction false} FlattenLength(xs: seq<seq<nat>>, cs: seq<nat>)
    requires |xs| == |cs| && forall i :: 0 <= i < |cs| ==> |xs[i]| == cs[i]
    ensures |Flatten(xs)| == Sum(cs)
  {
    if |xs| > 0 {
      FlattenLength(xs[1..], cs[1..]);
    }
  }

  /** Flattening the first j buffers gives a prefix of flattening all of them. */
  lemma {:induction false} FlattenPrefix(xs: seq<seq<nat>>, j: nat)
    requires j <= |xs|
    ensures Flatten(xs[..j]) + Flatten(xs[j..]) == Flatten(xs)
  {
    if j > 0 {
      assert xs[..j][1..] == xs[1..][..j - 1];
      assert xs[j..] == xs[1..][j - 1..];
      FlattenPrefix(xs[1..], j - 1);
    } else {
      assert xs[j..] == xs;
    }
  }

  lemma {:induction false} SumPrefix(cs: seq<nat>, j: nat)
    requires j <= |cs|
    ensures Sum(cs[..j]) <= Sum(cs)
  {
    if j > 0 {
      assert cs[..j][1..] == cs[1..][..j - 1];
      SumPrefix(cs[1..], j - 1);
    }
  }

  /** Once worker j's results have brought the total to the task, the clamped output is
      already fixed by workers 0..j: later workers append nothing. */
  lemma LaterWorkersIgnored(xs: seq<seq<nat>>, cs: seq<nat>, f0: nat, task: nat, j: nat)
    requires |xs| == |cs| && forall i :: 0 <= i < |cs| ==> |xs[i]| == cs[i]
    requires f0 <= task && j < |cs| && f0 + Sum(cs[..j + 1]) >= task
    ensures Clamp(Flatten(xs), task - f0) == Clamp(Flatten(xs[..j + 1]), task - f0)
    ensures |Flatten(xs[..j + 1])| >= task - f0
  {
    FlattenLength(xs, cs);
    FlattenLength(xs[..j + 1], cs[..j + 1]);
    FlattenPrefix(xs, j + 1);
    SumPrefix(cs, j + 1);
  }

  /** Appending a clamped tail to a prefix shorter than the bound clamps the whole. */
  lemma ClampAppend(a: seq<nat>, b: seq<nat>, n: nat)
    requires |a| <= n
    ensures a + b[..Min(|b|, n - |a|)] == Clamp(a + b, n)
  {
    assert (a + b)[..Min(|a + b|, n)] == a + b[..Min(|b|, n - |a|)];
  }

  /** When the task is a non-zero multiple of 2^32, the 32-bit cast makes the cycle empty:
      every segment is [k * 0, k * 0], no round emits anything and the task is never met. */
  lemma {:induction false} StalledRounds(task: nat, parties: nat, rounds: nat)
    requires parties >= 1 && task % 0x1_0000_0000 == 0
    ensures CycleSize(task) == 0 && RangeSize(task, parties) == 0
    ensures RoundsEmitted(CycleSize(task), RangeSize(task, parties), parties, rounds) == []
  {
    if rounds > 0 {
      StalledRounds(task, parties, rounds - 1);
      TimesIsProduct(rounds - 1, 0);
      StalledSegments(Times(rounds - 1, 0), parties);
    }
  }

  lemma {:induction false} StalledSegments(base: nat, n: nat)
    requires base == 0
    ensures Segments(base, 0, n) == []
  {
    if n > 0 {
      StalledSegments(base, n - 1);
      assert Emitted(0, 0) == [];
    }
  }

  // ----- the workers -----

  /** ThreadParam: one worker's segment [from, to], its result count and its buffer. */
  class Worker {
    const buffer: array<nat>
    const cycleSize: nat
    var from: nat
    var to: nat
    var count: nat

    constructor (buffer: array<nat>, from: nat, to: nat, cycleSize: nat)
      ensures this.buffer == buffer && this.cycleSize == cycleSize
      ensures this.from == from && this.to == to && count == 0
    {
      this.buffer := buffer;
      this.cycleSize := cycleSize;
      this.from := from;
      this.to := to;
      count := 0;
    }

    /** The worker's segment is one find_primes can sieve into its buffer. */
    predicate Ready()
      reads this
    {
      SafeBounds(from, to) && buffer.Length >= |Survivors(from, to)| && (from <= 2 ==> buffer.Length >= 1)
    }

    /** The worker's count and the first count cells of its buffer hold x. */
    predicate Holds(x: seq<nat>)
      reads this, buffer
    {
      count <= buffer.Length && buffer[..count] == x
    }

    /** Sieve the current segment into the buffer. */
    method SieveSegment()
      requires Ready()
      modifies this`count, buffer
      ensures count <= buffer.Length && buffer[..count] == Emitted(from, to)
    {
      count := FindPrimes(from, to, buffer);
    }

    /** Move the segment up by one cycle. */
    method Advance()
      modifies this`from, this`to
      ensures from == old(from) + cycleSize && to == old(to) + cycleSize
    {
      from := from + cycleSize;
      to := to + cycleSize;
    }
  }

  /** The workers and their buffers are pairwise distinct objects. */
  predicate Distinct(workers: seq<Worker>) {
    forall i, j :: 0 <= i < j < |workers| ==> workers[i] != workers[j] && workers[i].buffer != workers[j].buffer
  }

  /** In round k, worker i holds the segment [k * c + i * r, k * c + i * r + r]. */
  predicate WorkersAt(workers: seq<Worker>, k: nat, c: nat, r: nat)
    reads workers
  {
    forall i :: 0 <= i < |workers| ==>
      workers[i].from == SegmentStart(k, i, c, r) && workers[i].to == workers[i].from + r &&
      workers[i].cycleSize == c && workers[i].buffer.Length == Max(1, (r + 1) / 2)
  }

  /** The worker set-up of run: worker i gets the segment [i * r, i * r + r] and a buffer
      with one slot per odd value of it (at least one), and moves by c per round. */
  method Spawn(parties: nat, c: nat, r: nat) returns (workers: seq<Worker>)
    ensures |workers| == parties && Distinct(workers) && WorkersAt(workers, 0, c, r)
    ensures forall i :: 0 <= i < parties ==> fresh(workers[i]) && fresh(workers[i].buffer)
  {
    workers := [];
    var i := 0;
    while i < parties
      invariant i <= parties && |workers| == i && Distinct(workers) && WorkersAt(workers, 0, c, r)
      invariant forall j :: 0 <= j < i ==> fresh(workers[j]) && fresh(workers[j].buffer)
    {
      TimesIsProduct(i, r);
      var buffer := new nat[Max(1, (r + 1) / 2)];
      var w := new Worker(buffer, i * r, i * r + r, c);
      assert forall j :: 0 <= j < i ==> workers[j] != w && workers[j].buffer != buffer;
      Joined(workers, w, c, r);
      workers := workers + [w];
      i := i + 1;
    }
  }

  /** A new worker for the next range, with its own buffer, extends the set-up. */
  lemma Joined(workers: seq<Worker>, w: Worker, c: nat, r: nat)
    requires Distinct(workers) && WorkersAt(workers, 0, c, r)
    requires w.from == SegmentStart(0, |workers|, c, r) && w.to == w.from + r
    requires w.cycleSize == c && w.buffer.Length == Max(1, (r + 1) / 2)
    requires forall j :: 0 <= j < |workers| ==> workers[j] != w && workers[j].buffer != w.buffer
    ensures Distinct(workers + [w]) && WorkersAt(workers + [w], 0, c, r)
  {
  }

  /** The first half of round k: every worker sieves its segment (ThreadProc, line 161)
      and publishes the first `count` values of its buffer. The workers run concurrently
      in the source; each writes only its own buffer, so here they run one after the
      other. The published values, in worker order, are the emissions of the round's
      consecutive segments. */
  method SieveAll(workers: seq<Worker>, k: nat, c: nat, r: nat) returns (taken: seq<seq<nat>>)
    requires Distinct(workers) && WorkersAt(workers, k, c, r) && (r % 2 == 1 || c % 2 == 0)
    modifies workers, set i | 0 <= i < |workers| :: workers[i].buffer
    ensures WorkersAt(workers, k, c, r)
    ensures taken == Round(k, c, r, |workers|)
    ensures forall j :: 0 <= j < |workers| ==> workers[j].Holds(taken[j])
  {
    ghost var e := Round(k, c, r, |workers|);
    taken := [];
    var i := 0;
    while i < |workers|
      invariant i <= |workers| && taken == e[..i]
      invariant WorkersAt(workers, k, c, r)
      invariant forall j :: 0 <= j < i ==> workers[j].Holds(taken[j])
    {
      taken := SieveNext(workers, i, k, c, r, taken);
      i := i + 1;
    }
    assert e[..i] == e;
  }

  /** One step of SieveAll: worker i sieves, and the workers before it keep what they
      published, since each writes only its own buffer. */
  method SieveNext(workers: seq<Worker>, i: nat, k: nat, c: nat, r: nat, taken: seq<seq<nat>>) returns (taken': seq<seq<nat>>)
    requires Distinct(workers) && WorkersAt(workers, k, c, r) && (r % 2 == 1 || c % 2 == 0)
    requires i < |workers| && taken == Round(k, c, r, |workers|)[..i]
    requires forall j :: 0 <= j < i ==> workers[j].Holds(taken[j])
    modifies workers[i], workers[i].buffer
    ensures WorkersAt(workers, k, c, r) && taken' == Round(k, c, r, |workers|)[..i + 1]
    ensures forall j :: 0 <= j <= i ==> workers[j].Holds(taken'[j])
  {
    var x := Publish(workers[i], k, i, c, r, |workers|);
    ghost var e := Round(k, c, r, |workers|);
    assert e[..i + 1] == e[..i] + [x];
    taken' := taken + [x];
  }

  /** Worker i sieves its segment and publishes its buffer's first `count` values. */
  method SieveOne(w: Worker, k: nat, i: nat, c: nat, r: nat, ghost expected: seq<nat>) returns (x: seq<nat>)
    requires w.from == SegmentStart(k, i, c, r) && w.to == w.from + r && w.buffer.Length == Max(1, (r + 1) / 2)
    requires (r % 2 == 1 || c % 2 == 0) && expected == Emitted(w.from, w.to)
    modifies w`count, w.buffer
    ensures x == expected && w.Holds(x)
  {
    SegmentSafety(k, i, c, r);
    SurvivorsFit(w.from, w.to);
    w.SieveSegment();
    x := w.buffer[..w.count];
  }

  /** Worker i of n sieves; what it publishes is its entry of the round. */
  method Publish(w: Worker, k: nat, i: nat, c: nat, r: nat, n: nat) returns (x: seq<nat>)
    requires w.from == SegmentStart(k, i, c, r) && w.to == w.from + r && w.buffer.Length == Max(1, (r + 1) / 2)
    requires (r % 2 == 1 || c % 2 == 0) && i < n
    modifies w`count, w.buffer
    ensures x == Round(k, c, r, n)[i] && w.Holds(x)
  {
    RoundAt(k, c, r, n, i, w.from);
    x := SieveOne(w, k, i, c, r, Round(k, c, r, n)[i]);
  }

  /** What the workers of round k publish: worker j the emission of its segment. */
  function Round(k: nat, c: nat, r: nat, n: nat): (outs: seq<seq<nat>>)
    ensures |outs| == n
  {
    seq(n, j requires 0 <= j < n => Emitted(SegmentStart(k, j, c, r), SegmentStart(k, j, c, r) + r))
  }

  /** Worker i publishes the emission of the segment that starts at `start`. */
  lemma RoundAt(k: nat, c: nat, r: nat, n: nat, i: nat, start: nat)
    requires i < n && start == SegmentStart(k, i, c, r)
    ensures Round(k, c, r, n)[i] == Emitted(start, start + r)
  {
  }

  /** The published values of workers i0 .. n - 1, flattened, are the run of their
      consecutive segments. */
  lemma {:induction false} FlattenRound(k: nat, c: nat, r: nat, n: nat, i0: nat, start: nat)
    requires i0 <= n && start == SegmentStart(k, i0, c, r)
    ensures Flatten(Round(k, c, r, n)[i0..]) == Segments(start, r, n - i0)
    decreases n - i0
  {
    var xs := Round(k, c, r, n)[i0..];
    if i0 < n {
      assert xs[1..] == Round(k, c, r, n)[i0 + 1..];
      SegmentsAbut(k, i0, c, r);
      FlattenRound(k, c, r, n, i0 + 1, start + r);
      var e := Round(k, c, r, n)[i0];
      RoundAt(k, c, r, n, i0, start);
      assert xs[0] == e;
      FlattenHead(xs, e, Segments(start + r, r, n - i0 - 1));
      SegmentsCons(start, r, n - i0);
    } else {
      assert xs == [];
    }
  }

  /** The last part of a round: every worker moves up by one cycle (ThreadProc, lines 163-164). */
  method AdvanceAll(workers: seq<Worker>, k: nat, c: nat, r: nat)
    requires Distinct(workers) && WorkersAt(workers, k, c, r)
    modifies workers
    ensures WorkersAt(workers, k + 1, c, r)
    ensures forall j :: 0 <= j < |workers| ==> workers[j].count == old(workers[j].count)
  {
    for i := 0 to |workers|
      invariant forall j :: 0 <= j < |workers| ==> workers[j].count == old(workers[j].count)
      invariant forall j :: 0 <= j < i ==> workers[j].from == SegmentStart(k + 1, j, c, r) && workers[j].to == workers[j].from + r
      invariant forall j :: i <= j < |workers| ==> workers[j].from == SegmentStart(k, j, c, r) && workers[j].to == workers[j].from + r
      invariant forall j :: 0 <= j < |workers| ==> workers[j].cycleSize == c && workers[j].buffer.Length == Max(1, (r + 1) / 2)
    {
      assert Times(k + 1, c) == Times(k, c) + c;
      workers[i].Advance();
    }
  }

  // ----- the merger -----

  /** PrimeFinder: the task, the number of workers, the running total of primes the workers
      have reported, whether the task is met, and what has been written to the output file. */
  class PrimeFinder {
    const task: nat
    const parties: nat
    var found: nat
    var terminated: bool
    var output: seq<nat>

    /** The output holds every value found until the task is met, and then exactly task values. */
    ghost predicate Valid()
      reads this
    {
      if terminated then |output| == task <= found else |output| == found <= task
    }

    constructor (task: nat, parties: nat)
      ensures this.task == task && this.parties == parties
      ensures found == 0 && !terminated && output == [] && Valid()
    {
      this.task := task;
      this.parties := parties;
      found := 0;
      terminated := false;
      output := [];
    }

    /** The merger's branch of await: take the workers' published values in worker order,
        adding each count to the total; the worker that brings the total to the task has its
        count cut back by the excess and ends the run. */
    method Merge(taken: seq<seq<nat>>)
      requires Valid() && |taken| == parties
      modifies this`found, this`terminated, this`output
      ensures Valid()
      ensures old(terminated) ==> terminated && found == old(found) && output == old(output)
      ensures !old(terminated) ==> (terminated <==> |taken| > 0 && old(found) + Sum(Lengths(taken)) >= task)
      ensures !old(terminated) ==> output == old(output) + Clamp(Flatten(taken), task - old(found))
      ensures !old(terminated) && !terminated ==> found == old(found) + Sum(Lengths(taken))
      ensures !old(terminated) && terminated ==>
        exists j :: FirstReach(old(found), task, Lengths(taken), j) && found == old(found) + Sum(Lengths(taken)[..j + 1])
    {
      if terminated {
        return;
      }
      ghost var f0, out0, cs := found, output, Lengths(taken);
      var i := 0;
      while i < parties
        invariant i <= parties && !terminated
        invariant found == f0 + Sum(cs[..i]) && found <= task && (i > 0 ==> found < task)
        invariant output == out0 + Flatten(taken[..i]) && |output| == found
      {
        var count := |taken[i]|;
        MergeStep(cs, taken, out0, i);
        found := found + count;
        if found >= task {
          count := count - (found - task);
          terminated := true;
          output := output + taken[i][..count];
          Reached(cs, taken, out0, f0, task, i, taken[i][..count]);
          return;
        }
        output := output + taken[i];
        i := i + 1;
      }
      assert cs[..i] == cs && taken[..i] == taken;
    }
    /** After k rounds: the output is the emissions of the first k rounds cut back to the
        task, the task is met exactly when they reach it, it was not met after k - 1
        rounds, and until it is met the total counts every value emitted. */
    ghost predicate Progress(k: nat, c: nat, r: nat)
      reads this
    {
      Valid() && output == Clamp(RoundsEmitted(c, r, parties, k), task) &&
      (terminated <==> k > 0 && |RoundsEmitted(c, r, parties, k)| >= task) &&
      (k > 1 ==> |RoundsEmitted(c, r, parties, k - 1)| < task) &&
      (!terminated ==> found == |RoundsEmitted(c, r, parties, k)|)
    }

    /** One round of ThreadProc (lines 159-165) for every worker: sieve, merge, advance. */
    method PlayRound(workers: seq<Worker>, k: nat, c: nat, r: nat)
      requires Progress(k, c, r) && !terminated && (r % 2 == 1 || c % 2 == 0)
      requires |workers| == parties >= 1 && Distinct(workers) && WorkersAt(workers, k, c, r)
      modifies this`found, this`terminated, this`output, workers, set i | 0 <= i < |workers| :: workers[i].buffer
      ensures Progress(k + 1, c, r) && WorkersAt(workers, k + 1, c, r)
    {
      var taken := SieveAll(workers, k, c, r);
      RoundMerged(k, c, r, parties, taken, RoundsEmitted(c, r, parties, k), task);
      Merge(taken);
      AdvanceAll(workers, k, c, r);
    }

    /** run (lines 71-83): size the cycle and the ranges, set up the workers, then play
        rounds until the task is met. The source loops until then, which need not happen;
        here at most maxRounds rounds run. The output is the schedule's
        emissions cut back to the task, and the run stops at the first round whose
        emissions reach the task. On a tiled schedule that output is the primes below
        rounds * C, ascending, cut back to the task. */
    method Run(maxRounds: nat) returns (rounds: nat)
      requires parties >= 1 && SafeSchedule(task, parties)
      requires found == 0 && !terminated && output == []
      modifies this`found, this`terminated, this`output
      ensures Valid() && rounds <= maxRounds && (terminated || rounds == maxRounds)
      ensures output == Clamp(RoundsEmitted(CycleSize(task), RangeSize(task, parties), parties, rounds), task)
      ensures terminated <==> rounds > 0 && |RoundsEmitted(CycleSize(task), RangeSize(task, parties), parties, rounds)| >= task
      ensures rounds > 1 ==> |RoundsEmitted(CycleSize(task), RangeSize(task, parties), parties, rounds - 1)| < task
      ensures !terminated ==> found == |RoundsEmitted(CycleSize(task), RangeSize(task, parties), parties, rounds)|
      ensures Tiled(task, parties) ==> output == Clamp(PrimesIn(0, Times(rounds, CycleSize(task))), task)
    {
      var c := Min(MaxBufferSize, task % 0x1_0000_0000);
      var r := c / parties;
      var workers := Spawn(parties, c, r);
      rounds := PlayRounds(workers, c, r, maxRounds);
      if Tiled(task, parties) {
        TiledRounds(rounds, c, r, parties);
      }
    }

    /** The workers' ThreadProc loop (lines 155-165) from round 0: while the task is not
        met, every worker sieves, the merger merges, every worker moves up one cycle. */
    method PlayRounds(workers: seq<Worker>, c: nat, r: nat, maxRounds: nat) returns (rounds: nat)
      requires parties >= 1 && (r % 2 == 1 || c % 2 == 0)
      requires |workers| == parties && Distinct(workers) && WorkersAt(workers, 0, c, r)
      requires found == 0 && !terminated && output == []
      modifies this`found, this`terminated, this`output, workers, set i | 0 <= i < |workers| :: workers[i].buffer
      ensures rounds <= maxRounds && (terminated || rounds == maxRounds) && Progress(rounds, c, r)
    {
      rounds := 0;
      while rounds < maxRounds && !terminated
        invariant rounds <= maxRounds && Progress(rounds, c, r) && WorkersAt(workers, rounds, c, r)
      {
        PlayRound(workers, rounds, c, r);
        rounds := rounds + 1;
      }
    }
  }

  /** On a tiled schedule Run's output is the smallest primes, strictly ascending and each
      once: the first min(task, number of primes below hi) primes. */
  lemma TiledOutput(hi: nat, task: nat)
    ensures |Clamp(PrimesIn(0, hi), task)| == Min(|PrimesIn(0, hi)|, task)
    ensures forall x :: x in Clamp(PrimesIn(0, hi), task) ==> IsPrime(x) && x < hi
    ensures forall a, b :: 0 <= a < b < |Clamp(PrimesIn(0, hi), task)| ==>
      Clamp(PrimesIn(0, hi), task)[a] < Clamp(PrimesIn(0, hi), task)[b]
  {
    var p := PrimesIn(0, hi);
    PrimesInExact(0, hi);
    forall x | x in Clamp(p, task)
      ensures x in p
    {
      var a :| 0 <= a < |Clamp(p, task)| && Clamp(p, task)[a] == x;
      assert p[a] == x;
    }
  }

  /** Two enumerations from 0 that both hold at least task primes agree on their first
      task primes: how far the rounds went past the task does not matter. */
  lemma ClampedPrimesAgree(hi1: nat, hi2: nat, task: nat)
    requires |PrimesIn(0, hi1)| >= task && |PrimesIn(0, hi2)| >= task
    ensures Clamp(PrimesIn(0, hi1), task) == Clamp(PrimesIn(0, hi2), task)
  {
    if hi1 <= hi2 {
      PrimesInSplit(0, hi1, hi2);
    } else {
      PrimesInSplit(0, hi2, hi1);
    }
  }

  /** With one worker and a task of ten, the cycle and the range are both 10 and the
      schedule is tiled. */
  lemma TenTiled()
    ensures CycleSize(10) == 10 && RangeSize(10, 1) == 10 && Tiled(10, 1)
  {
    assert Times(1, 10) == 10;
  }

  /** A run for ten primes with one worker: once the task is met, the output is the first
      ten primes. */
  lemma TargetTen(hi: nat)
    requires |PrimesIn(0, hi)| >= 10
    ensures Clamp(PrimesIn(0, hi), 10) == [2, 3, 5, 7, 11, 13, 17, 19, 23, 29]
  {
    PrimesBelowThirty();
    ClampedPrimesAgree(hi, 30, 10);
  }

  /** How many primes the first k rounds of the ten-prime run emit: fewer than ten for
      k <= 2, at least ten from k == 3 on. */
  lemma TenRounds(k: nat)
    ensures k <= 2 ==> |PrimesIn(0, Times(k, 10))| < 10
    ensures k >= 3 ==> |PrimesIn(0, Times(k, 10))| >= 10
  {
    if k <= 2 {
      TimesMono(k, 2, 10);
      assert Times(2, 10) == 20;
      PrimesInSplit(0, Times(k, 10), 20);
      PrimesBelowTen();
      PrimesInTeens();
      PrimesInSplit(0, 10, 20);
    } else {
      TimesMono(3, k, 10);
      assert Times(3, 10) == 30;
      PrimesInSplit(0, 30, Times(k, 10));
      PrimesBelowThirty();
    }
  }

  /** A run for ten primes with one worker (the configuration of a ten-prime run on a
      single processor): it meets the task in exactly three rounds, [0, 10], [10, 20] and
      [20, 30], and writes the first ten primes. */
  method RunTen(maxRounds: nat) returns (output: seq<nat>, rounds: nat, met: bool)
    ensures rounds == Min(maxRounds, 3) && (met <==> maxRounds >= 3)
    ensures met ==> output == [2, 3, 5, 7, 11, 13, 17, 19, 23, 29]
  {
    var finder := new PrimeFinder(10, 1);
    TenTiled();
    rounds := finder.Run(maxRounds);
    output, met := finder.output, finder.terminated;
    TiledRounds(rounds, 10, 10, 1);
    TenRounds(rounds);
    if rounds > 0 {
      TiledRounds(rounds - 1, 10, 10, 1);
      TenRounds(rounds - 1);
    }
    if met {
      TargetTen(Times(rounds, 10));
    }
  }

  /** One round's merge, in terms of the schedule: the round's published values are the
      emissions of its segments, so appending them (cut back to the task) extends the
      emissions of the earlier rounds by round k's. */
  lemma RoundMerged(k: nat, c: nat, r: nat, p: nat, taken: seq<seq<nat>>, before: seq<nat>, task: nat)
    requires taken == Round(k, c, r, p) && before == RoundsEmitted(c, r, p, k) && |before| <= task
    ensures |before| + Sum(Lengths(taken)) == |RoundsEmitted(c, r, p, k + 1)|
    ensures Clamp(before, task) + Clamp(Flatten(taken), task - |before|) == Clamp(RoundsEmitted(c, r, p, k + 1), task)
  {
    RoundFlat(k, c, r, p, taken);
    FlattenLength(taken, Lengths(taken));
    MergeClamp(before, Flatten(taken), task, RoundsEmitted(c, r, p, k + 1));
  }

  /** A round's published values, flattened, are its segments' emissions. */
  lemma RoundFlat(k: nat, c: nat, r: nat, p: nat, taken: seq<seq<nat>>)
    requires taken == Round(k, c, r, p)
    ensures RoundsEmitted(c, r, p, k + 1) == RoundsEmitted(c, r, p, k) + Flatten(taken)
  {
    FlattenRound(k, c, r, p, 0, SegmentStart(k, 0, c, r));
    assert taken[0..] == taken;
  }

  /** Appending s to `before`, both cut back to the task, cuts back their concatenation. */
  lemma MergeClamp(before: seq<nat>, s: seq<nat>, task: nat, after: seq<nat>)
    requires after == before + s && |before| <= task
    ensures |after| == |before| + |s|
    ensures Clamp(before, task) + Clamp(s, task - |before|) == Clamp(after, task)
  {
    ClampAppend(before, s, task);
  }

  /** One merger step extends the prefixes of the counts and the buffers by worker i. */
  lemma MergeStep(cs: seq<nat>, xs: seq<seq<nat>>, out0: seq<nat>, i: nat)
    requires |xs| == |cs| && forall k :: 0 <= k < |cs| ==> |xs[k]| == cs[k]
    requires i < |cs|
    ensures Sum(cs[..i + 1]) == Sum(cs[..i]) + cs[i]
    ensures Flatten(xs[..i]) + xs[i] == Flatten(xs[..i + 1])
    ensures out0 + Flatten(xs[..i]) + xs[i] == out0 + Flatten(xs[..i + 1])
    ensures |Flatten(xs[..i])| == Sum(cs[..i])
  {
    assert cs[..i + 1] == cs[..i] + [cs[i]];
    assert xs[..i + 1] == xs[..i] + [xs[i]];
    SumSnoc(cs[..i], cs[i]);
    FlattenSnoc(xs[..i], xs[i]);
    FlattenLength(xs[..i], cs[..i]);
  }

  /** Worker i brings the total from below the task to at least the task: it is the first
      to reach it, and the output cut back to the task is the clamped concatenation of all
      buffers, whatever the later workers hold. */
  lemma Reached(cs: seq<nat>, xs: seq<seq<nat>>, out0: seq<nat>, f0: nat, task: nat, i: nat, y: seq<nat>)
    requires |xs| == |cs| && forall k :: 0 <= k < |cs| ==> |xs[k]| == cs[k]
    requires i < |cs| && f0 + Sum(cs[..i]) <= task && (i > 0 ==> f0 + Sum(cs[..i]) < task)
    requires f0 + Sum(cs[..i]) + cs[i] >= task
    requires y == xs[i][..task - f0 - Sum(cs[..i])]
    ensures FirstReach(f0, task, cs, i) && f0 + Sum(cs) >= task
    ensures out0 + Flatten(xs[..i]) + y == out0 + Clamp(Flatten(xs), task - f0)
  {
    MergeStep(cs, xs, out0, i);
    ClampStep(out0, Flatten(xs[..i]), xs[i], y, task - f0 - Sum(cs[..i]), task - f0);
    LaterWorkersIgnored(xs, cs, f0, task, i);
    SumPrefix(cs, i + 1);
  }

  /** The worker that reaches the task contributes just enough values to fill it. */
  lemma ClampStep(out0: seq<nat>, a: seq<nat>, x: seq<nat>, y: seq<nat>, n: nat, t: nat)
    requires |a| <= t <= |a| + |x| && n == t - |a| && y == x[..n]
    ensures out0 + a + y == out0 + Clamp(a + x, t)
  {
    assert a + y == (a + x)[..t];
  }
}
