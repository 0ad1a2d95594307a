/** Primality and the reference enumeration of primes that both the segment sieve and
    the whole run are measured against. */
module Primes {
  import opened Arith

  /** n is prime: at least 2 and with no divisor strictly between 1 and n (trial division). */
  predicate IsPrime(n: nat) {
    n >= 2 && NoDivisorFrom(n, 2)
  }

  /** No value in [d, n) divides n. */
  predicate NoDivisorFrom(n: nat, d: nat)
    decreases n - d
  {
    d >= n || (d > 0 && n % d != 0 && NoDivisorFrom(n, d + 1))
  }

  /** Trial division from d finds no divisor exactly when no value in [d, n) divides n. */
  lemma {:induction false} NoDivisorFromIff(n: nat, d: nat)
    requires d > 0
    ensures NoDivisorFrom(n, d) <==> forall e :: d <= e < n ==> n % e != 0
    decreases n - d
  {
    if d < n {
      NoDivisorFromIff(n, d + 1);
    }
  }

  /** The textbook characterisation of a prime. */
  lemma PrimeIff(n: nat)
    ensures IsPrime(n) <==> n >= 2 && forall d :: 2 <= d < n ==> n % d != 0
  {
    NoDivisorFromIff(n, 2);
  }

  /** The primes of the half-open range [lo, hi), in ascending order. */
  function PrimesIn(lo: nat, hi: nat): (r: seq<nat>)
    decreases hi
  {
    if hi <= lo then []
    else PrimesIn(lo, hi - 1) + (if IsPrime(hi - 1) then [hi - 1] else [])
  }

  /** The enumeration holds exactly the primes of the range, strictly ascending. */
  lemma {:induction false} PrimesInExact(lo: nat, hi: nat)
    ensures forall x :: x in PrimesIn(lo, hi) <==> lo <= x < hi && IsPrime(x)
    ensures forall a, b :: 0 <= a < b < |PrimesIn(lo, hi)| ==> PrimesIn(lo, hi)[a] < PrimesIn(lo, hi)[b]
    decreases hi
  {
    if hi > lo {
      var below := PrimesIn(lo, hi - 1);
      PrimesInExact(lo, hi - 1);
      assert forall a :: 0 <= a < |below| ==> below[a] in below;
    }
  }

  /** The smallest divisor of n that is at least d. */
  function MinFactor(n: nat, d: nat): (p: nat)
    requires 2 <= d <= n
    ensures d <= p <= n && n % p == 0
    ensures forall e :: d <= e < p ==> n % e != 0
    decreases n - d
  {
    if n % d == 0 then d else MinFactor(n, d + 1)
  }

  /** A number that is not prime has a divisor no larger than its square root. */
  lemma CompositeHasSmallFactor(n: nat) returns (p: nat)
    requires n >= 2 && !IsPrime(n)
    ensures 2 <= p < n && n % p == 0 && p * p <= n
  {
    PrimeIff(n);
    p := MinFactor(n, 2);
    var d :| 2 <= d < n && n % d == 0;
    assert p <= d;
    ModZero(n, p);
    var q := n / p;
    assert n == p * q;
    MulMono(p, q, 1);
    assert q >= 2;
    MulMod(p, q);
    assert n % q == 0;
    MulMono(p, p, q);
  }

  /** An even number other than 2 is not prime. */
  lemma EvenNotPrime(n: nat)
    requires n % 2 == 0 && n != 2
    ensures !IsPrime(n)
  {
    PrimeIff(n);
    if n >= 4 {
      assert 2 <= 2 < n && n % 2 == 0;
    }
  }

  /** The enumeration of a range is the enumeration of its two halves, one after the other. */
  lemma {:induction false} PrimesInSplit(lo: nat, mid: nat, hi: nat)
    requires lo <= mid <= hi
    ensures PrimesIn(lo, mid) + PrimesIn(mid, hi) == PrimesIn(lo, hi)
    decreases hi
  {
    if hi > mid {
      PrimesInSplit(lo, mid, hi - 1);
      var last := if IsPrime(hi - 1) then [hi - 1] else [];
      calc {
        PrimesIn(lo, mid) + PrimesIn(mid, hi);
        PrimesIn(lo, mid) + (PrimesIn(mid, hi - 1) + last);
        (PrimesIn(lo, mid) + PrimesIn(mid, hi - 1)) + last;
        PrimesIn(lo, hi - 1) + last;
      }
    }
  }

  /** A bound that is not prime can be moved past without changing the enumeration. */
  lemma PrimesInSkipLow(lo: nat, hi: nat)
    requires lo < hi && !IsPrime(lo)
    ensures PrimesIn(lo + 1, hi) == PrimesIn(lo, hi)
  {
    PrimesInSplit(lo, lo + 1, hi);
    assert PrimesIn(lo, lo + 1) == [];
  }

  /** An even top bound other than 2 can be dropped from the range. */
  lemma PrimesInDropEvenTop(lo: nat, hi: nat)
    requires lo <= hi && hi % 2 == 0 && hi != 2
    ensures PrimesIn(lo, hi + 1) == PrimesIn(lo, hi)
  {
    EvenNotPrime(hi);
  }

  /** A prime inside the range is listed. */
  lemma PrimeInRange(lo: nat, hi: nat, x: nat)
    requires lo <= x < hi && IsPrime(x)
    ensures x in PrimesIn(lo, hi)
  {
    PrimesInSplit(lo, x, x + 1);
    PrimesInSplit(lo, x + 1, hi);
    assert PrimesIn(x, x + 1) == [x];
  }

  // ----- small cases -----

  /** A number with no divisor below b, where b * b exceeds it, is prime. */
  lemma PrimeBelowSquare(n: nat, b: nat)
    requires 2 <= n < b * b
    requires forall d :: 2 <= d < b ==> n % d != 0
    ensures IsPrime(n)
  {
    if !IsPrime(n) {
      var p := CompositeHasSmallFactor(n);
      SquareBelow(p, b);
    }
  }

  lemma PrimesElevenToTwentyNine()
    ensures IsPrime(11) && IsPrime(13) && IsPrime(17) && IsPrime(19) && IsPrime(23) && IsPrime(29)
  {
    PrimeBelowSquare(11, 4);
    PrimeBelowSquare(13, 4);
    PrimeBelowSquare(17, 5);
    PrimeBelowSquare(19, 5);
    PrimeBelowSquare(23, 5);
    PrimeBelowSquare(29, 6);
  }

  lemma PrimesPastHundred()
    ensures IsPrime(101) && IsPrime(103) && IsPrime(107) && IsPrime(109) && IsPrime(113)
  {
    PrimeBelowSquare(101, 11);
    PrimeBelowSquare(103, 11);
    PrimeBelowSquare(107, 11);
    PrimeBelowSquare(109, 11);
    PrimeBelowSquare(113, 11);
  }

  /** The ten primes below 30, the first ten primes. */
  lemma PrimesBelowThirty()
    ensures PrimesIn(0, 30) == [2, 3, 5, 7, 11, 13, 17, 19, 23, 29]
  {
    PrimesBelowTen();
    PrimesInTeens();
    PrimesInTwenties();
    PrimesInSplit(0, 10, 20);
    PrimesInSplit(0, 20, 30);
    JoinTen(PrimesIn(0, 10), PrimesIn(10, 20), PrimesIn(20, 30));
  }

  lemma PrimesBelowTen()
    ensures PrimesIn(0, 10) == [2, 3, 5, 7]
  {
  }

  lemma PrimesInTeens()
    ensures PrimesIn(10, 20) == [11, 13, 17, 19]
  {
    PrimesElevenToTwentyNine();
  }

  lemma PrimesInTwenties()
    ensures PrimesIn(20, 30) == [23, 29]
  {
    PrimesElevenToTwentyNine();
  }

  lemma JoinTen(a: seq<nat>, b: seq<nat>, c: seq<nat>)
    requires a == [2, 3, 5, 7] && b == [11, 13, 17, 19] && c == [23, 29]
    ensures a + b + c == [2, 3, 5, 7, 11, 13, 17, 19, 23, 29]
  {
  }

  /** The primes from 100 to 120. */
  lemma PrimesFromHundred()
    ensures PrimesIn(100, 121) == [101, 103, 107, 109, 113]
  {
    PrimesInLowHundreds();
    PrimesInHundredTeens();
    PrimesInSplit(100, 110, 121);
  }

  lemma PrimesInLowHundreds()
    ensures PrimesIn(100, 110) == [101, 103, 107, 109]
  {
    PrimesPastHundred();
  }

  lemma PrimesInHundredTeens()
    ensures PrimesIn(110, 121) == [113]
  {
    PrimesPastHundred();
  }
}
