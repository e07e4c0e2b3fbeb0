/** The primality test behind the `prime` sampling filter (`is_prime` in
    `src/extractor.rs`): trial division by 2 and then by odd candidates
    `3, 5, 7, …` while `d * d <= n`. */
module Primes {
  import opened BitMath

  /** The mathematical definition: at least 2 and no divisor strictly between
      1 and itself. */
  ghost predicate IsPrime(n: nat) {
    n >= 2 && forall d :: 2 <= d < n ==> n % d != 0
  }

  /** `is_prime`: even numbers are settled at once, odd ones by trial division. */
  function TrialDivision(n: nat): bool {
    if n < 2 then false
    else if n % 2 == 0 then n == 2
    else OddTrials(n, 3)
  }

  /** The `while d * d <= n` loop, started at `d`. */
  function OddTrials(n: nat, d: nat): bool
    requires d >= 3
    decreases n - d
  {
    if d * d > n then true
    else if n % d == 0 then false
    else
      assert d * 3 <= d * d;
      OddTrials(n, d + 2)
  }

  /** An odd number has no even divisor. */
  lemma OddHasNoEvenDivisor(n: nat, k: nat)
    requires n % 2 == 1 && k >= 2 && k % 2 == 0
    ensures n % k != 0
  {
    var h := k / 2;
    assert n == k * (n / k) + n % k;
    assert n == 2 * (h * (n / k)) + n % k;
    if n % k == 0 {
      ModUnique(n, 2, h * (n / k), 0);
    }
  }

  /** A divisor at or above the square root has a cofactor below it. */
  lemma CofactorBelowRoot(n: nat, k: nat, d: nat)
    requires 2 <= k < n && n % k == 0 && d * d > n && k >= d
    ensures 2 <= n / k < d && n % (n / k) == 0
  {
    var q := n / k;
    assert n == q * k;
    if q <= 1 {
      MulMonotone(q, 1, k);
    }
    if q >= d {
      MulMonotone(d, q, k);
      MulMonotone(d, k, d);
    }
    ModUnique(n, q, k, 0);
  }

  lemma {:induction false} OddTrialsCorrect(n: nat, d: nat)
    requires n >= 3 && n % 2 == 1 && d >= 3 && d % 2 == 1
    requires forall k :: 2 <= k < d ==> n % k != 0
    ensures OddTrials(n, d) == IsPrime(n)
    decreases n - d
  {
    if d * d > n {
      forall k | 2 <= k < n
        ensures n % k != 0
      {
        if k >= d && n % k == 0 {
          CofactorBelowRoot(n, k, d);
        }
      }
    } else if n % d == 0 {
    } else {
      assert d * 3 <= d * d;
      forall k | 2 <= k < d + 2
        ensures n % k != 0
      {
        if k == d + 1 {
          OddHasNoEvenDivisor(n, k);
        }
      }
      OddTrialsCorrect(n, d + 2);
    }
  }

  /** The trial division decides primality exactly. */
  lemma TrialDivisionCorrect(n: nat)
    ensures TrialDivision(n) == IsPrime(n)
  {
    if n >= 2 && n % 2 == 0 && n != 2 {
      assert n % 2 == 0;
    } else if n >= 3 && n % 2 == 1 {
      OddTrialsCorrect(n, 3);
    }
  }
}
