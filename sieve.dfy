/** The segmented odd-only sieve of PrimeFinder::find_primes.

    A segment [from, to] gets one marker per odd value: slot k stands for the value
    FirstOdd(from) + 2 * k. Every odd i from 3 up to the square root of `to` strikes out
    its odd multiples from max(from, i * i) on; the values whose slot survives are
    written, ascending, into the caller's buffer, and when from <= 2 the first of them
    is overwritten with 2. */
module Sieve {
  import opened Arith
  import opened Primes

  /** Exact integer floor square root (the model's stand-in for sqrt on a double). */
  function Isqrt(n: nat): (r: nat)
    ensures r * r <= n < (r + 1) * (r + 1)
  {
    if n == 0 then 0
    else
      var s := Isqrt(n - 1);
      assert (s + 2) * (s + 2) == (s + 1) * (s + 1) + 2 * s + 3;
      if (s + 1) * (s + 1) <= n then s + 1 else s
  }

  /** Line 127's bound sqrt(to), computed by stepping a root up from 0 while its
      successor's square still fits; the result is the floor square root. */
  method Root(n: nat) returns (r: nat)
    ensures r * r <= n < (r + 1) * (r + 1)
    ensures r == Isqrt(n)
  {
    r := 0;
    while (r + 1) * (r + 1) <= n
      invariant r * r <= n
      decreases n - r
    {
      MulMono(r + 1, 1, r + 1);
      r := r + 1;
    }
    RootUnique(n, r, Isqrt(n));
  }

  /** Number of marker slots the source allocates for [from, to]. */
  function SlotCount(from: nat, to: nat): nat
    requires from <= to
  {
    (to - from + 1) / 2
  }

  /** The smallest odd value that is not below `from`; slot 0 stands for it. */
  function FirstOdd(from: nat): nat {
    if from % 2 == 0 then from + 1 else from
  }

  /** Bounds on which the source stays inside its marker array: the range is not empty
      backwards and its two ends are not both odd. */
  predicate SafeBounds(from: nat, to: nat) {
    from <= to && (from % 2 == 0 || to % 2 == 0)
  }

  /** The odd sieving value d clears v: v is a multiple of d no smaller than d * d. */
  predicate Strikes(d: nat, v: nat) {
    d % 2 == 1 && 3 <= d && d * d <= v && v % d == 0
  }

  /** Some sieving value below `bound` clears v. */
  ghost predicate ClearedBelow(v: nat, bound: nat) {
    exists d :: 3 <= d < bound && Strikes(d, v)
  }

  /** What a slot should hold at the end of sieving: its value is 1 or a prime. */
  predicate Keep(v: nat) {
    v == 1 || IsPrime(v)
  }

  /** The values of the marked slots, ascending; slot k stands for first + 2 * k. */
  function Pick(first: nat, marks: seq<bool>): (r: seq<nat>)
    ensures |r| <= |marks|
    decreases |marks|
  {
    if |marks| == 0 then []
    else Pick(first, marks[..|marks| - 1]) + (if marks[|marks| - 1] then [first + 2 * (|marks| - 1)] else [])
  }

  /** The markers a correct sieve leaves on n slots starting at first. */
  function KeepMarks(first: nat, n: nat): (m: seq<bool>)
    ensures |m| == n && forall k :: 0 <= k < n ==> m[k] == Keep(first + 2 * k)
  {
    seq(n, k requires 0 <= k < n => Keep(first + 2 * k))
  }

  /** The surviving values of the segment [from, to], before the overwrite with 2. */
  function Survivors(from: nat, to: nat): seq<nat>
    requires from <= to
  {
    Pick(FirstOdd(from), KeepMarks(FirstOdd(from), SlotCount(from, to)))
  }

  /** What find_primes leaves in buffer[0..count): the survivors, the first of them
      replaced by 2 when from <= 2. */
  function Emitted(from: nat, to: nat): (r: seq<nat>)
    requires from <= to
  {
    var s := Survivors(from, to);
    if from <= 2 && |s| > 0 then [2] + s[1..] else s
  }

  // ----- the index arithmetic of the marker array -----

  /** Every odd j in [from, to] that the clearing loop visits has a slot, and that slot
      stands for j: the write at (j - from) / 2 is in bounds and hits j's marker. */
  lemma SlotOf(from: nat, to: nat, j: nat)
    requires SafeBounds(from, to) && j % 2 == 1 && from <= j <= to
    ensures (j - from) / 2 < SlotCount(from, to)
    ensures FirstOdd(from) + 2 * ((j - from) / 2) == j
  {
  }

  /** The value of every slot lies in [from, to] and is odd. */
  lemma SlotValueInRange(from: nat, to: nat, k: nat)
    requires from <= to && k < SlotCount(from, to)
    ensures from <= FirstOdd(from) + 2 * k <= to
    ensures (FirstOdd(from) + 2 * k) % 2 == 1
  {
  }

  /** When both ends are odd, the top value `to` has no slot: its index is one past the
      end of the marker array. */
  lemma TopSlotMissing(from: nat, to: nat)
    requires from <= to && from % 2 == 1 && to % 2 == 1
    ensures (to - from) / 2 == SlotCount(from, to)
    ensures forall k :: 0 <= k < SlotCount(from, to) ==> FirstOdd(from) + 2 * k < to
  {
  }

  /** With from == 1 and to == 9, sieving value 3 reaches j == 9 and writes one slot past
      the marker array. */
  lemma BothOddWritesPastEnd()
    ensures Isqrt(9) == 3 && Strikes(3, 9)
    ensures (9 - 1) / 2 == SlotCount(1, 9)
  {
    RootUnique(9, Isqrt(9), 3);
  }

  // ----- where the clearing loop of a sieving value starts -----

  /** Any two multiples of i that differ are at least i apart. */
  lemma MultipleOrder(i: nat, a: nat, b: nat)
    requires i > 0 && a % i == 0 && b % i == 0
    ensures a < b ==> a + i <= b
  {
    if a < b { MultipleGap(i, a, b); }
  }

  /** ceil(from / i) * i is the smallest multiple of i that is not below from. */
  lemma CeilMultiple(from: nat, i: nat)
    requires i > 0
    ensures ((from + i - 1) / i) * i % i == 0
    ensures from <= ((from + i - 1) / i) * i < from + i
  {
    MulMod((from + i - 1) / i, i);
  }

  /** max(ceil(from / i) * i, i * i) is a multiple of i that is at least both from and
      i * i ... */
  lemma StartMultiple(from: nat, i: nat, c: nat)
    requires i >= 3 && c == Max(((from + i - 1) / i) * i, i * i)
    ensures c % i == 0 && c >= from && c >= i * i
  {
    CeilMultiple(from, i);
    MulMod(i, i);
  }

  /** ... and the smallest such multiple. */
  lemma StartMultipleLeast(from: nat, i: nat, c: nat)
    requires i >= 3 && c == Max(((from + i - 1) / i) * i, i * i)
    ensures forall v: nat :: v % i == 0 && v >= from && v >= i * i ==> v >= c
  {
    var up := ((from + i - 1) / i) * i;
    CeilMultiple(from, i);
    forall v: nat | v % i == 0 && v >= from && v >= i * i
      ensures v >= c
    {
      MultipleOrder(i, v, up);
    }
  }

  /** The start computed for sieving value i, the start multiple c moved to an odd multiple,
      is a value that i strikes in the segment. */
  lemma FirstStrike(from: nat, i: nat, c: nat, current: nat)
    requires i >= 3 && i % 2 == 1 && c % i == 0 && c >= from && c >= i * i
    requires current == if c % 2 == 0 then c + i else c
    ensures Strikes(i, current) && current % 2 == 1 && current >= from
  {
    AddSelf(i, c);
    EvenOddSum(c, i);
  }

  /** Adding i to a multiple of i gives a multiple of i. */
  lemma AddSelf(i: nat, c: nat)
    requires i > 0 && c % i == 0
    ensures (c + i) % i == 0
  {
    AddMultiple(i, c, 1);
    assert c + 1 * i == c + i;
  }

  /** ... and no odd value in the segment below it is struck by i. */
  lemma FirstStrikeLeast(from: nat, i: nat, c: nat, current: nat)
    requires i >= 3 && i % 2 == 1 && c % i == 0
    requires forall v: nat :: v % i == 0 && v >= from && v >= i * i ==> v >= c
    requires current == if c % 2 == 0 then c + i else c
    ensures forall v: nat :: Strikes(i, v) && v % 2 == 1 && v >= from ==> v >= current
  {
    forall v: nat | Strikes(i, v) && v % 2 == 1 && v >= from
      ensures v >= current
    {
      NextMultiple(i, c, v);
    }
  }

  /** A multiple v of i that is at least the multiple c and of the other parity than an
      even c lies at c + i or above. */
  lemma NextMultiple(i: nat, c: nat, v: nat)
    requires i > 0 && c % i == 0 && v % i == 0 && c <= v && v % 2 == 1
    ensures c % 2 == 0 ==> c + i <= v
  {
    if c % 2 == 0 {
      assert c < v;
      MultipleGap(i, c, v);
    }
  }

  /** Between two consecutive odd multiples j and j + 2 * i, the only odd multiple of i
      is j. */
  lemma OnlyStrikeInWindow(i: nat, j: nat, v: nat)
    requires i >= 3 && i % 2 == 1 && j % i == 0 && j % 2 == 1 && v % 2 == 1
    ensures v % i == 0 && j <= v < j + 2 * i ==> v == j
  {
    if v % i == 0 && j < v < j + 2 * i {
      MultipleGap(i, j, v);
      AddMultiple(i, j, 1);
      assert (j + i) % 2 == 0;
      assert v != j + i;
      MultipleGap(i, j + i, v);
      assert false;
    }
  }

  /** Moving the sieving bound past the odd value i adds exactly i's strikes. */
  lemma ClearedBelowStep(v: nat, i: nat)
    requires i >= 3 && i % 2 == 1
    ensures ClearedBelow(v, i + 2) <==> ClearedBelow(v, i) || Strikes(i, v)
  {
    if ClearedBelow(v, i + 2) {
      var d :| 3 <= d < i + 2 && Strikes(d, v);
      assert d < i || d == i;
    }
    if Strikes(i, v) {
      assert 3 <= i < i + 2 && Strikes(i, v);
    }
  }

  /** Soundness and completeness of the sieve on one odd value: once every sieving value
      whose square can reach v has run, v stays unstruck exactly when it is 1 or a prime.
      No prime is ever cleared, and every odd composite is cleared by its smallest factor. */
  lemma SurvivesIffKeep(v: nat, bound: nat)
    requires v % 2 == 1 && v < bound * bound
    ensures !ClearedBelow(v, bound) <==> Keep(v)
  {
    if ClearedBelow(v, bound) {
      var d :| 3 <= d < bound && Strikes(d, v);
      MulMono(d, 1, d);
      PrimeIff(v);
      assert 2 <= d < v && v % d == 0;
    }
    if !Keep(v) {
      var p := CompositeHasSmallFactor(v);
      OddDivisor(v, p);
      SquareBelow(p, bound);
      assert 3 <= p < bound && Strikes(p, v);
    }
  }

  /** Once the sieving value has passed the root, every slot value is below its square. */
  lemma PastRoot(v: nat, to: nat, root: nat, i: nat)
    requires v <= to < (root + 1) * (root + 1) && root < i
    ensures v < i * i
  {
    MulMono(root + 1, root + 1, i);
    MulMono(i, root + 1, i);
  }

  // ----- the marker array as a sequence, stage by stage -----

  /** The markers after sieving value i has cleared its odd multiples below `below`. */
  ghost function Struck(pre: seq<bool>, first: nat, i: nat, below: nat): (r: seq<bool>)
    ensures |r| == |pre|
  {
    seq(|pre|, k requires 0 <= k < |pre| => pre[k] && !(Strikes(i, first + 2 * k) && first + 2 * k < below))
  }

  /** The markers after sieving value i has cleared all its odd multiples in the segment. */
  ghost function StruckAll(pre: seq<bool>, first: nat, i: nat): (r: seq<bool>)
    ensures |r| == |pre|
  {
    seq(|pre|, k requires 0 <= k < |pre| => pre[k] && !Strikes(i, first + 2 * k))
  }

  /** The markers after sieving with every odd value below `bound`. */
  ghost function Marks(first: nat, n: nat, bound: nat): (r: seq<bool>)
    ensures |r| == n
  {
    seq(n, k requires 0 <= k < n => !ClearedBelow(first + 2 * k, bound))
  }

  /** Before its first strike, the clearing loop of i has changed nothing. */
  lemma StrikeStart(pre: seq<bool>, from: nat, to: nat, i: nat, current: nat)
    requires from <= to && |pre| == SlotCount(from, to)
    requires forall v: nat :: Strikes(i, v) && v % 2 == 1 && v >= from ==> v >= current
    ensures Struck(pre, FirstOdd(from), i, current) == pre
  {
    forall k | 0 <= k < |pre|
      ensures Struck(pre, FirstOdd(from), i, current)[k] == pre[k]
    {
      SlotValueInRange(from, to, k);
    }
  }

  /** One turn of the clearing loop: clearing j's slot moves the bound by 2 * i. */
  lemma StrikeStep(pre: seq<bool>, from: nat, to: nat, i: nat, j: nat)
    requires SafeBounds(from, to) && |pre| == SlotCount(from, to)
    requires i >= 3 && i % 2 == 1 && Strikes(i, j) && j % 2 == 1 && from <= j <= to
    ensures (j - from) / 2 < |pre|
    ensures Struck(pre, FirstOdd(from), i, j)[(j - from) / 2 := false] == Struck(pre, FirstOdd(from), i, j + i * 2)
    ensures Strikes(i, j + i * 2) && (j + i * 2) % 2 == 1
  {
    var first := FirstOdd(from);
    SlotOf(from, to, j);
    var idx := (j - from) / 2;
    var updated := Struck(pre, first, i, j)[idx := false];
    forall k | 0 <= k < |pre|
      ensures updated[k] == Struck(pre, first, i, j + i * 2)[k]
    {
      SlotValueInRange(from, to, k);
      OnlyStrikeInWindow(i, j, first + 2 * k);
    }
    AddMultiple(i, j, 2);
    SameParity(j, i);
  }

  /** Once the clearing loop has passed to, every strike of i in the segment is done. */
  lemma StrikeEnd(pre: seq<bool>, from: nat, to: nat, i: nat, j: nat)
    requires from <= to && |pre| == SlotCount(from, to) && j > to
    ensures Struck(pre, FirstOdd(from), i, j) == StruckAll(pre, FirstOdd(from), i)
  {
    forall k | 0 <= k < |pre|
      ensures Struck(pre, FirstOdd(from), i, j)[k] == StruckAll(pre, FirstOdd(from), i)[k]
    {
      SlotValueInRange(from, to, k);
    }
  }

  /** Sieving with i after every odd value below it gives the markers for the bound i + 2. */
  lemma MarksStep(first: nat, n: nat, i: nat)
    requires i >= 3 && i % 2 == 1
    ensures StruckAll(Marks(first, n, i), first, i) == Marks(first, n, i + 2)
  {
    forall k | 0 <= k < n
      ensures StruckAll(Marks(first, n, i), first, i)[k] == Marks(first, n, i + 2)[k]
    {
      ClearedBelowStep(first + 2 * k, i);
    }
  }

  /** When the outer loop stops, past the root of to, the markers are exactly those of a
      correct sieve: a slot survives precisely when its value is 1 or a prime. */
  lemma MarksFinal(from: nat, to: nat, root: nat, i: nat)
    requires from <= to && to < (root + 1) * (root + 1) && root < i
    ensures Marks(FirstOdd(from), SlotCount(from, to), i) == KeepMarks(FirstOdd(from), SlotCount(from, to))
  {
    var first := FirstOdd(from);
    forall k | 0 <= k < SlotCount(from, to)
      ensures Marks(first, SlotCount(from, to), i)[k] == KeepMarks(first, SlotCount(from, to))[k]
    {
      SlotValueInRange(from, to, k);
      PastRoot(first + 2 * k, to, root, i);
      SurvivesIffKeep(first + 2 * k, i);
    }
  }

  /** Scanning one more slot appends its value when it is marked. */
  lemma PickStep(first: nat, marks: seq<bool>, k: nat)
    requires k < |marks|
    ensures Pick(first, marks[..k + 1]) == Pick(first, marks[..k]) + (if marks[k] then [first + 2 * k] else [])
  {
    assert marks[..k + 1][..k] == marks[..k];
  }

  /** The overwrite of buffer slot 0 with 2 turns the scanned survivors into Emitted. */
  lemma OverwriteGivesEmitted(from: nat, to: nat, before: seq<nat>, after: seq<nat>)
    requires from <= to && before == Survivors(from, to) && |after| == |before|
    requires from <= 2 && |before| > 0 ==> after == before[0 := 2]
    requires !(from <= 2 && |before| > 0) ==> after == before
    ensures after == Emitted(from, to)
  {
    if from <= 2 && |before| > 0 {
      assert after == [2] + before[1..];
    }
  }

  // ----- the sieve itself -----

  /** PrimeFinder::find_primes: sieve [from, to] and write the surviving values, ascending,
      to primes[0..count); when from <= 2, primes[0] is then overwritten with 2. */
  method FindPrimes(from: nat, to: nat, primes: array<nat>) returns (count: nat)
    requires SafeBounds(from, to)
    requires primes.Length >= |Survivors(from, to)|
    requires from <= 2 ==> primes.Length >= 1
    modifies primes
    ensures count <= SlotCount(from, to)
    ensures count == |Emitted(from, to)| && primes[..count] == Emitted(from, to)
    ensures forall t :: count <= t < primes.Length && !(t == 0 && from <= 2) ==> primes[t] == old(primes[t])
    ensures from <= 2 ==> primes[0] == 2
  {
    var n := (to - from + 1) / 2;
    var isPrime := new bool[n](_ => true);
    SieveMarks(isPrime, from, to);

    var start := from;
    if start % 2 == 0 {
      start := start + 1;
    }
    assert start == FirstOdd(from);
    count := CollectSurvivors(isPrime, start, primes);
    ghost var before := primes[..count];

    if from <= 2 {
      primes[0] := 2;
    }
    OverwriteGivesEmitted(from, to, before, primes[..count]);
  }

  /** Lines 129-138: for every odd i from 3 up to the square root of to, clear the markers
      of i's odd multiples; afterwards exactly the slots of 1 and of the primes are set. */
  method SieveMarks(isPrime: array<bool>, from: nat, to: nat)
    requires SafeBounds(from, to) && isPrime.Length == SlotCount(from, to)
    requires forall k :: 0 <= k < isPrime.Length ==> isPrime[k]
    modifies isPrime
    ensures isPrime[..] == KeepMarks(FirstOdd(from), SlotCount(from, to))
  {
    var root := Root(to);
    ghost var first, n := FirstOdd(from), isPrime.Length;
    assert isPrime[..] == Marks(first, n, 3);

    var i := 3;
    while i <= root
      invariant i >= 3 && i % 2 == 1
      invariant isPrime[..] == Marks(first, n, i)
    {
      StrikeMultiples(isPrime, from, to, i);
      MarksStep(first, n, i);
      OddStep(i);
      i := i + 2;
    }
    MarksFinal(from, to, root, i);
  }

  /** Lines 144-147: write the value of every slot still marked, in slot order, to the
      front of primes, and count them. */
  method CollectSurvivors(isPrime: array<bool>, start: nat, primes: array<nat>) returns (count: nat)
    requires primes.Length >= |Pick(start, isPrime[..])|
    modifies primes
    ensures count == |Pick(start, isPrime[..])| && primes[..count] == Pick(start, isPrime[..])
    ensures forall t :: count <= t < primes.Length ==> primes[t] == old(primes[t])
  {
    ghost var marks := isPrime[..];
    count := 0;
    for k := 0 to isPrime.Length
      invariant count == |Pick(start, marks[..k])| <= primes.Length
      invariant primes[..count] == Pick(start, marks[..k])
      invariant forall t :: count <= t < primes.Length ==> primes[t] == old(primes[t])
    {
      PickStep(start, marks, k);
      if isPrime[k] {
        PickPrefixShorter(start, marks, k + 1);
        ghost var prefix := primes[..count];
        primes[count] := start + k * 2;
        assert primes[..count + 1] == prefix + [start + 2 * k];
        count := count + 1;
      }
    }
    assert marks[..isPrime.Length] == marks;
  }

  /** Lines 131-137 for one sieving value i: starting from the first odd multiple of i
      that is at least max(from, i * i), clear the marker of every odd multiple up to to. */
  method StrikeMultiples(isPrime: array<bool>, from: nat, to: nat, i: nat)
    requires SafeBounds(from, to) && isPrime.Length == SlotCount(from, to)
    requires i >= 3 && i % 2 == 1
    modifies isPrime
    ensures isPrime[..] == StruckAll(old(isPrime[..]), FirstOdd(from), i)
  {
    var current := FirstMultiple(from, i);
    StrikeStart(isPrime[..], from, to, i, current);
    ClearMultiples(isPrime, from, to, i, current);
  }

  /** Lines 131-133: the first value sieving value i clears, the smallest odd multiple of i
      that is at least both from and i * i. */
  method FirstMultiple(from: nat, i: nat) returns (current: nat)
    requires i >= 3 && i % 2 == 1
    ensures Strikes(i, current) && current % 2 == 1 && current >= from
    ensures forall v: nat :: Strikes(i, v) && v % 2 == 1 && v >= from ==> v >= current
  {
    current := Max(((from + i - 1) / i) * i, i * i);
    ghost var c := current;
    if current % 2 == 0 {
      current := current + i;
    }
    StartMultiple(from, i, c);
    StartMultipleLeast(from, i, c);
    FirstStrike(from, i, c, current);
    FirstStrikeLeast(from, i, c, current);
  }

  /** Lines 134-136: clear the marker of j, j + 2 * i, ... up to to, where j is the first
      odd multiple of i that i strikes in the segment. */
  method ClearMultiples(isPrime: array<bool>, from: nat, to: nat, i: nat, current: nat)
    requires SafeBounds(from, to) && isPrime.Length == SlotCount(from, to)
    requires i >= 3 && i % 2 == 1 && Strikes(i, current) && current % 2 == 1 && current >= from
    requires Struck(isPrime[..], FirstOdd(from), i, current) == isPrime[..]
    modifies isPrime
    ensures isPrime[..] == StruckAll(old(isPrime[..]), FirstOdd(from), i)
  {
    ghost var pre := isPrime[..];
    var j := current;
    while j <= to
      invariant Strikes(i, j) && j % 2 == 1 && j >= from
      invariant isPrime[..] == Struck(pre, FirstOdd(from), i, j)
    {
      StrikeStep(pre, from, to, i, j);
      isPrime[(j - from) / 2] := false;
      j := j + i * 2;
    }
    StrikeEnd(pre, from, to, i, j);
  }

  /** Stepping by an even amount keeps the parity. */
  lemma SameParity(j: nat, i: nat)
    ensures (j + i * 2) % 2 == j % 2
  {
  }

  /** The survivors of a prefix of the slots are never more than those of all slots. */
  lemma {:induction false} PickPrefixShorter(first: nat, marks: seq<bool>, k: nat)
    requires k <= |marks|
    ensures |Pick(first, marks[..k])| <= |Pick(first, marks)|
    decreases |marks|
  {
    if k < |marks| {
      var m := marks[..|marks| - 1];
      assert m[..k] == marks[..k];
      PickPrefixShorter(first, m, k);
    } else {
      assert marks[..k] == marks;
    }
  }

  /** The scan lists slot values only, in strictly ascending order. */
  lemma {:induction false} PickAscending(first: nat, marks: seq<bool>)
    ensures forall x :: x in Pick(first, marks) ==> first <= x < first + 2 * |marks| && (x - first) % 2 == 0
    ensures forall a, b :: 0 <= a < b < |Pick(first, marks)| ==> Pick(first, marks)[a] < Pick(first, marks)[b]
    decreases |marks|
  {
    if |marks| > 0 {
      var s := Pick(first, marks[..|marks| - 1]);
      PickAscending(first, marks[..|marks| - 1]);
      assert forall a :: 0 <= a < |s| ==> s[a] in s;
    }
  }

  /** The survivors of a segment fit in one slot per odd value, and the overwrite with 2
      leaves their number unchanged. */
  lemma SurvivorsFit(from: nat, to: nat)
    requires from <= to
    ensures |Emitted(from, to)| == |Survivors(from, to)| <= SlotCount(from, to)
  {
  }

  /** Whatever the bounds, a segment's emission is strictly ascending: the overwrite with 2
      only ever replaces the smallest survivor, which is at least 3 when there are two. */
  lemma EmittedAscending(from: nat, to: nat)
    requires from <= to
    ensures forall a, b :: 0 <= a < b < |Emitted(from, to)| ==> Emitted(from, to)[a] < Emitted(from, to)[b]
  {
    var s := Survivors(from, to);
    PickAscending(FirstOdd(from), KeepMarks(FirstOdd(from), SlotCount(from, to)));
    if from <= 2 && |s| > 1 {
      assert s[1] in s && s[0] in s && s[0] < s[1];
    }
  }

  // ----- what a segment emits, against the reference enumeration -----

  /** The scan of k correctly sieved slots from an odd first >= 3 lists exactly the primes
      of [first, first + 2 * k). */
  lemma {:induction false} PickKeepOdd(first: nat, k: nat)
    requires first % 2 == 1 && first >= 3
    ensures Pick(first, KeepMarks(first, k)) == PrimesIn(first, first + 2 * k)
  {
    if k == 0 {
      assert PrimesIn(first, first) == [];
    } else {
      PickKeepOdd(first, k - 1);
      PickKeepStep(first, k, first + 2 * k);
    }
  }

  /** One more correctly sieved slot extends the scan as one more odd value extends the
      enumeration. */
  lemma PickKeepStep(first: nat, k: nat, hi: nat)
    requires first % 2 == 1 && first >= 3 && k >= 1 && hi == first + 2 * k
    requires Pick(first, KeepMarks(first, k - 1)) == PrimesIn(first, first + 2 * (k - 1))
    ensures Pick(first, KeepMarks(first, k)) == PrimesIn(first, hi)
  {
    var v := first + 2 * (k - 1);
    assert hi == v + 2 && v % 2 == 1;
    PrimesInOddStep(first, v);
    KeepMarksLast(first, k);
  }

  /** The last of k >= 2 correctly sieved slots, which stands for an odd value >= 3, adds
      that value to the scan exactly when it is prime. */
  lemma KeepMarksLast(first: nat, k: nat)
    requires k >= 1 && first + 2 * (k - 1) >= 3
    ensures Pick(first, KeepMarks(first, k))
         == Pick(first, KeepMarks(first, k - 1)) + (if IsPrime(first + 2 * (k - 1)) then [first + 2 * (k - 1)] else [])
  {
    assert KeepMarks(first, k)[..k - 1] == KeepMarks(first, k - 1);
  }

  /** With slot 0 standing for 1, the scan lists 1 and then the odd primes of [3, 1 + 2 * k). */
  lemma {:induction false} PickKeepOne(k: nat)
    requires k >= 1
    ensures Pick(1, KeepMarks(1, k)) == [1] + PrimesIn(3, 1 + 2 * k)
  {
    if k == 1 {
      assert KeepMarks(1, 1)[..0] == [];
      assert PrimesIn(3, 3) == [];
    } else {
      var v := 1 + 2 * (k - 1);
      assert 1 + 2 * k == v + 2;
      PickKeepOne(k - 1);
      PickKeepOneStep(k, v, 1 + 2 * k);
    }
  }

  /** One more correctly sieved slot after the slot for 1 extends the scan as one more odd
      value extends the enumeration from 3. */
  lemma PickKeepOneStep(k: nat, v: nat, hi: nat)
    requires k >= 2 && v == 1 + 2 * (k - 1) && hi == v + 2
    requires Pick(1, KeepMarks(1, k - 1)) == [1] + PrimesIn(3, v)
    ensures Pick(1, KeepMarks(1, k)) == [1] + PrimesIn(3, hi)
  {
    var last := if IsPrime(v) then [v] else [];
    PrimesInOddStep(3, v);
    KeepMarksLast(1, k);
    assert ([1] + PrimesIn(3, v)) + last == [1] + (PrimesIn(3, v) + last);
  }

  /** Extending a range by an odd value and the even value after it adds at most the odd one. */
  lemma PrimesInOddStep(lo: nat, v: nat)
    requires lo <= v && v % 2 == 1 && v >= 3
    ensures PrimesIn(lo, v + 2) == PrimesIn(lo, v) + (if IsPrime(v) then [v] else [])
  {
    EvenNotPrime(v + 1);
    assert PrimesIn(lo, v + 2) == PrimesIn(lo, v + 1);
  }

  /** The end of the last slot's value range: the enumeration up to it is the one up to to. */
  lemma SlotsEnd(from: nat, to: nat, lo: nat)
    requires SafeBounds(from, to) && lo >= 3
    ensures PrimesIn(lo, FirstOdd(from) + 2 * SlotCount(from, to)) == PrimesIn(lo, to + 1)
  {
    var hi := FirstOdd(from) + 2 * SlotCount(from, to);
    assert hi == to + 1 || (hi == to + 2 && (to + 1) % 2 == 0);
    if hi == to + 2 && lo <= to + 1 {
      EvenNotPrime(to + 1);
      PrimesInSplit(lo, to + 1, to + 2);
      assert PrimesIn(to + 1, to + 2) == [];
    }
  }

  /** A segment that starts at 3 or above emits exactly the primes of [from, to]. */
  lemma EmittedExact(from: nat, to: nat)
    requires SafeBounds(from, to) && from >= 3
    ensures Emitted(from, to) == PrimesIn(from, to + 1)
  {
    SurvivorsExact(from, to);
    if from % 2 == 0 && from < to + 1 {
      EvenNotPrime(from);
      PrimesInSkipLow(from, to + 1);
    }
  }

  /** From 2 on, the odd-only scan lists exactly the primes from the first odd value to to. */
  lemma SurvivorsExact(from: nat, to: nat)
    requires SafeBounds(from, to) && from >= 2
    ensures Survivors(from, to) == PrimesIn(FirstOdd(from), to + 1)
  {
    PickKeepOdd(FirstOdd(from), SlotCount(from, to));
    SlotsEnd(from, to, FirstOdd(from));
  }

  /** A segment that starts at 0 or 1 and reaches 2 emits exactly the primes of [from, to]:
      the odd-only scan lists 1 first, and the overwrite with 2 replaces it. */
  lemma EmittedFromLow(from: nat, to: nat)
    requires SafeBounds(from, to) && from <= 1 && to >= 2
    ensures Survivors(from, to) == [1] + PrimesIn(3, to + 1)
    ensures Emitted(from, to) == PrimesIn(from, to + 1)
  {
    SurvivorsFromLow(from, to);
    PrimesToThree(from);
    PrimesInSplit(from, 3, to + 1);
    var s := Survivors(from, to);
    assert s[1..] == PrimesIn(3, to + 1);
    assert Emitted(from, to) == [2] + s[1..];
  }

  /** From 0 or 1, the odd-only scan lists 1 and then the odd primes up to to. */
  lemma SurvivorsFromLow(from: nat, to: nat)
    requires SafeBounds(from, to) && from <= 1 && to >= 2
    ensures Survivors(from, to) == [1] + PrimesIn(3, to + 1)
  {
    var n := SlotCount(from, to);
    assert FirstOdd(from) == 1 && n >= 1;
    SlotsEnd(from, to, 3);
    PickKeepOne(n);
  }

  /** Below 3 the only prime is 2. */
  lemma PrimesToThree(from: nat)
    requires from <= 2
    ensures PrimesIn(from, 3) == [2]
  {
    assert PrimesIn(from, from) == [];
    if from == 0 {
      assert PrimesIn(0, 1) == [];
    }
    if from <= 1 {
      assert PrimesIn(from, 2) == [];
    }
    assert IsPrime(2);
  }

  /** The segment [0, 10] emits 2, 3, 5 and 7. */
  lemma EmittedZeroTen()
    ensures Emitted(0, 10) == [2, 3, 5, 7]
  {
    EmittedFromLow(0, 10);
    PrimesInDropEvenTop(0, 10);
    PrimesBelowTen();
  }

  /** The segment [100, 120] emits 101, 103, 107, 109 and 113. */
  lemma EmittedHundred()
    ensures Emitted(100, 120) == [101, 103, 107, 109, 113]
  {
    EmittedExact(100, 120);
    PrimesFromHundred();
  }

  /** The segment [0, 1] emits 2, which lies outside it. */
  lemma EmittedZeroOne()
    ensures Emitted(0, 1) == [2] && PrimesIn(0, 2) == []
  {
    PickKeepOne(1);
    assert PrimesIn(0, 1) == [];
  }

  /** A segment starting at 2 loses the prime 3: the overwrite with 2 lands on 3's slot. */
  lemma EmittedFromTwo(to: nat)
    requires to >= 3
    ensures Emitted(2, to) == [2] + PrimesIn(5, to + 1)
    ensures PrimesIn(2, to + 1) == [2, 3] + PrimesIn(5, to + 1)
  {
    SurvivorsFromTwo(to);
    var s := Survivors(2, to);
    assert Emitted(2, to) == [2] + s[1..];
    PrimesToThree(2);
    PrimesFromThree(to + 1);
    PrimesInSplit(2, 3, to + 1);
  }

  /** The odd-only scan of a segment starting at 2 lists 3 first. */
  lemma SurvivorsFromTwo(to: nat)
    requires to >= 3
    ensures Survivors(2, to) == [3] + PrimesIn(5, to + 1)
  {
    SurvivorsExact(2, to);
    assert FirstOdd(2) == 3;
    PrimesFromThree(to + 1);
  }

  /** From 3, the enumeration is 3 followed by the primes from 5. */
  lemma PrimesFromThree(hi: nat)
    requires hi >= 4
    ensures PrimesIn(3, hi) == [3] + PrimesIn(5, hi)
  {
    assert IsPrime(3);
    assert PrimesIn(3, 4) == [3];
    EvenNotPrime(4);
    assert PrimesIn(3, 5) == [3];
    if hi >= 5 {
      PrimesInSplit(3, 5, hi);
    } else {
      assert PrimesIn(5, hi) == [];
    }
  }

  /** The segment [2, 2] has no slot and emits nothing, although 2 is prime. */
  lemma EmittedTwoTwo()
    ensures Emitted(2, 2) == [] && PrimesIn(2, 3) == [2]
  {
    assert PrimesIn(2, 2) == [];
  }

  /** With both ends odd and a prime top end, the sieve stays inside the marker array but
      the top end has no slot: [13, 17] sieves with 3 only, which clears 15 and never
      reaches 17, and the prime 17 is not emitted. */
  lemma EmittedThirteenSeventeen()
    ensures Isqrt(17) == 4 && !Strikes(3, 17) && SlotCount(13, 17) == 2
    ensures Emitted(13, 17) == [13] && IsPrime(17)
  {
    RootSeventeen();
    PrimesElevenToTwentyNine();
    SurvivorsThirteen();
  }

  lemma SurvivorsThirteen()
    ensures Survivors(13, 17) == [13]
  {
    assert FirstOdd(13) == 13 && SlotCount(13, 17) == 2;
    ThirteenFifteenMarks();
    PickThirteen(KeepMarks(13, 2));
  }

  lemma RootSeventeen()
    ensures Isqrt(17) == 4 && !Strikes(3, 17)
  {
    RootUnique(17, Isqrt(17), 4);
  }

  /** 13 is prime and 15 is not. */
  lemma ThirteenFifteenMarks()
    ensures KeepMarks(13, 2) == [true, false]
  {
    PrimeBelowSquare(13, 4);
    assert !IsPrime(15) by {
      PrimeIff(15);
      assert 15 % 3 == 0;
    }
  }

  lemma PickThirteen(marks: seq<bool>)
    requires marks == [true, false]
    ensures Pick(13, marks) == [13]
  {
    assert marks[..1][..0] == [];
  }

  /** A segment [lo, hi] with even ends, lo other than 2 and hi at least lo + 4, emits
      exactly the primes of [lo, hi); its top end hi is even and not prime. */
  lemma SegmentEmitted(lo: nat, hi: nat)
    requires lo % 2 == 0 && hi % 2 == 0 && lo + 4 <= hi && lo != 2
    ensures SafeBounds(lo, hi)
    ensures Emitted(lo, hi) == PrimesIn(lo, hi)
  {
    PrimesInDropEvenTop(lo, hi);
    if lo == 0 {
      EmittedFromLow(lo, hi);
    } else {
      EmittedExact(lo, hi);
    }
  }
}
