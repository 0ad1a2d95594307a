/** Small facts about multiplication, division and remainder on naturals that the
    solver does not find on its own; the sieve's index arithmetic rests on them. */
module Arith {

  function Min(a: nat, b: nat): (r: nat)
    ensures r <= a && r <= b && (r == a || r == b)
  {
    if a <= b then a else b
  }

  function Max(a: nat, b: nat): (r: nat)
    ensures r >= a && r >= b && (r == a || r == b)
  {
    if a >= b then a else b
  }

  lemma MulMono(k: nat, x: nat, y: nat)
    ensures x <= y ==> k * x <= k * y
  {
  }

  /** A product is a multiple of either factor. */
  lemma MulMod(a: nat, b: nat)
    requires b > 0
    ensures (a * b) % b == 0 && (a * b) / b == a
  {
    var q, r := (a * b) / b, (a * b) % b;
    assert a * b == b * q + r;
    MulMono(b, q + 1, a);
    MulMono(b, a + 1, q);
  }

  /** A multiple of b is b times its quotient. */
  lemma ModZero(a: nat, b: nat)
    requires b > 0 && a % b == 0
    ensures a == b * (a / b)
  {
  }

  /** Two distinct multiples of i are at least i apart. */
  lemma MultipleGap(i: nat, a: nat, b: nat)
    requires i > 0 && a % i == 0 && b % i == 0 && a < b
    ensures a + i <= b
  {
    ModZero(a, i);
    ModZero(b, i);
    var qa, qb := a / i, b / i;
    MulMono(i, qb, qa);
    MulMono(i, qa + 1, qb);
  }

  /** Adding a multiple of i keeps a multiple of i. */
  lemma AddMultiple(i: nat, a: nat, k: nat)
    requires i > 0 && a % i == 0
    ensures (a + k * i) % i == 0
  {
    ModZero(a, i);
    assert a + k * i == (a / i + k) * i;
    MulMod(a / i + k, i);
  }

  /** A divisor of an odd number is odd. */
  lemma OddDivisor(n: nat, d: nat)
    requires d > 0 && n % d == 0 && n % 2 == 1
    ensures d % 2 == 1
  {
    ModZero(n, d);
    EvenMultiple(n / d, d);
    assert n == (n / d) * d;
  }

  /** A multiple of an even number is even. */
  lemma EvenMultiple(k: nat, c: nat)
    ensures c % 2 == 0 ==> (k * c) % 2 == 0
  {
    var h := c / 2;
    assert c == 2 * h + c % 2;
    assert k * (2 * h) == (k * h) * 2;
    MulMod(k * h, 2);
  }

  /** The square is monotone, so d * d < r * r forces d < r. */
  lemma SquareBelow(d: nat, r: nat)
    requires d * d < r * r
    ensures d < r
  {
    MulMono(d, r, d);
    MulMono(r, r, d);
  }

  /** Floor division leaves less than one more divisor's worth of remainder. */
  lemma DivBounds(c: nat, p: nat)
    requires p >= 1
    ensures p * (c / p) <= c < p * (c / p + 1)
  {
    assert c == p * (c / p) + c % p;
  }

  /** The floor square root is unique. */
  lemma RootUnique(n: nat, r: nat, s: nat)
    requires r * r <= n < (r + 1) * (r + 1)
    requires s * s <= n < (s + 1) * (s + 1)
    ensures r == s
  {
    MulMono(r + 1, r + 1, s);
    MulMono(s, r + 1, s);
    MulMono(s + 1, s + 1, r);
    MulMono(r, s + 1, r);
  }

  lemma EvenSum(a: nat, b: nat)
    requires a % 2 == 0 && b % 2 == 0
    ensures (a + b) % 2 == 0
  {
  }

  lemma EvenOddSum(a: nat, b: nat)
    requires b % 2 == 1
    ensures a % 2 == 0 ==> (a + b) % 2 == 1
  {
  }

  lemma OddStep(i: nat)
    requires i % 2 == 1
    ensures (i + 2) % 2 == 1
  {
  }

  lemma MulSucc(k: nat, c: nat)
    ensures (k + 1) * c == k * c + c
  {
  }
}
