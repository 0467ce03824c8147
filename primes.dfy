/**
 * The size search used when the code book grows: `nextPrime` scans upward
 * from its argument and stops at the first candidate that survives a trial
 * division by every i with 2 <= i < candidate / 2.
 *
 * The search terminates because a prime exists above every bound (Euclid:
 * the least divisor of n! + 1 is a prime larger than n), and every prime
 * survives the trial division.
 */
module Primes {

  predicate Divides(d: nat, m: nat) {
    d > 0 && m % d == 0
  }

  /** The test `nextPrime` applies to a candidate m (m / 2 rounds down, as in Java for m >= 0). */
  predicate PassesTrialDivision(m: nat) {
    forall i :: 2 <= i < m / 2 ==> !Divides(i, m)
  }

  predicate IsPrime(p: nat) {
    p >= 2 && forall i :: 2 <= i < p ==> !Divides(i, p)
  }

  // ---------------------------------------------------------------------
  // Division facts
  // ---------------------------------------------------------------------

  /** A positive multiple of d is at least d; a negative one at most -d. */
  lemma MulAwayFromZero(d: int, t: int)
    requires d > 0
    ensures t >= 1 ==> d * t >= d
    ensures t <= -1 ==> d * t <= -d
  {
  }

  /** Division with remainder is unique. */
  lemma DivModUnique(a: int, d: int, q: int, r: int)
    requires d > 0 && 0 <= r < d && a == d * q + r
    ensures a % d == r && a / d == q
  {
    var q', r' := a / d, a % d;
    assert a == d * q' + r';
    assert d * (q - q') == d * q - d * q';
    MulAwayFromZero(d, q - q');
  }

  lemma DividesTransitive(a: nat, b: nat, c: nat)
    requires Divides(b, a) && Divides(c, b)
    ensures Divides(c, a)
  {
    var x, y := a / b, b / c;
    assert a == b * x;
    assert b == c * y;
    assert a == c * (y * x);
    DivModUnique(a, c, y * x, 0);
  }

  // ---------------------------------------------------------------------
  // A prime above every bound
  // ---------------------------------------------------------------------

  function Factorial(n: nat): (f: nat)
    ensures f >= 1
  {
    if n == 0 then 1 else n * Factorial(n - 1)
  }

  lemma {:induction false} FactorialDivisible(n: nat, d: nat)
    requires 1 <= d <= n
    ensures Divides(d, Factorial(n))
  {
    DivModUnique(Factorial(n), n, Factorial(n - 1), 0);
    if d < n {
      FactorialDivisible(n - 1, d);
      DivModUnique(Factorial(n), Factorial(n - 1), n, 0);
      DividesTransitive(Factorial(n), Factorial(n - 1), d);
    }
  }

  /** The least divisor of m that is at least d. */
  ghost function LeastDivisorFrom(m: nat, d: nat): (p: nat)
    requires 2 <= d <= m
    ensures d <= p <= m && Divides(p, m)
    ensures forall q :: d <= q < p ==> !Divides(q, m)
    decreases m - d
  {
    DivModUnique(m, m, 1, 0);
    if Divides(d, m) then d else LeastDivisorFrom(m, d + 1)
  }

  lemma LeastDivisorIsPrime(m: nat)
    requires m >= 2
    ensures IsPrime(LeastDivisorFrom(m, 2))
  {
    var p := LeastDivisorFrom(m, 2);
    forall q | 2 <= q < p
      ensures !Divides(q, p)
    {
      if Divides(q, p) {
        DividesTransitive(m, p, q);
      }
    }
  }

  /** Euclid's argument: the least divisor of n! + 1 exceeds n. */
  lemma EuclidBound(n: nat)
    ensures LeastDivisorFrom(Factorial(n) + 1, 2) > n
  {
    var f := Factorial(n);
    var p := LeastDivisorFrom(f + 1, 2);
    if p <= n {
      FactorialDivisible(n, p);
      DivModUnique(f + 1, p, f / p, 1);
    }
  }

  ghost function PrimeAbove(n: nat): (p: nat)
    ensures p > n && IsPrime(p)
  {
    LeastDivisorIsPrime(Factorial(n) + 1);
    EuclidBound(n);
    LeastDivisorFrom(Factorial(n) + 1, 2)
  }

  // ---------------------------------------------------------------------
  // The value `nextPrime` computes
  // ---------------------------------------------------------------------

  /** The least m in [n, bound] that passes the trial division (bound itself passes). */
  ghost function LeastPassingBelow(n: nat, bound: nat): (r: nat)
    requires n <= bound && PassesTrialDivision(bound)
    decreases bound - n
  {
    if PassesTrialDivision(n) then n else LeastPassingBelow(n + 1, bound)
  }

  lemma {:induction false} LeastPassingBelowIsLeast(n: nat, bound: nat)
    requires n <= bound && PassesTrialDivision(bound)
    ensures var r := LeastPassingBelow(n, bound);
      n <= r <= bound && PassesTrialDivision(r) && forall m :: n <= m < r ==> !PassesTrialDivision(m)
    decreases bound - n
  {
    if !PassesTrialDivision(n) {
      LeastPassingBelowIsLeast(n + 1, bound);
    }
  }

  /** The least m >= n that passes the trial division: what `nextPrime(n)` returns. Its
      defining properties are stated by LeastPassingFromIsLeast. */
  ghost function LeastPassingFrom(n: nat): (r: nat)
  {
    var p := PrimeAbove(n);
    assert PassesTrialDivision(p) by {
      forall i | 2 <= i < p / 2
        ensures !Divides(i, p)
      {
        assert i < p;
      }
    }
    LeastPassingBelow(n, p)
  }

  lemma LeastPassingFromIsLeast(n: nat)
    ensures n <= LeastPassingFrom(n) && PassesTrialDivision(LeastPassingFrom(n))
    ensures forall m :: n <= m < LeastPassingFrom(n) ==> !PassesTrialDivision(m)
  {
    var p := PrimeAbove(n);
    assert PassesTrialDivision(p) by {
      forall i | 2 <= i < p / 2
        ensures !Divides(i, p)
      {
        assert i < p;
      }
    }
    LeastPassingBelowIsLeast(n, p);
  }

  /** A candidate that fails moves the search on by one without changing its result. */
  lemma LeastPassingFromStep(n: nat)
    requires !PassesTrialDivision(n)
    ensures LeastPassingFrom(n + 1) == LeastPassingFrom(n)
  {
    LeastPassingFromIsLeast(n);
    LeastPassingFromIsLeast(n + 1);
  }

  /** From 5 upward the trial division only lets primes through. */
  lemma PassingIsPrimeFromFive(m: nat)
    requires m >= 5 && PassesTrialDivision(m)
    ensures IsPrime(m)
  {
    assert m % 2 == 1 by {
      if m >= 6 {
        assert !Divides(2, m);
      }
    }
    forall i | 2 <= i < m
      ensures !Divides(i, m)
    {
      if i < m / 2 {
      } else if 2 * i > m {
        DivModUnique(m, i, 1, m - i);
      } else {
        assert m == 2 * i + 1;
        DivModUnique(m, i, 2, 1);
      }
    }
  }

  /** Every size the table grows to is prime and larger than the size it grows from. */
  lemma GrownSizeIsPrime(b: nat)
    requires b >= 1
    ensures LeastPassingFrom(2 * b + 1) > b
    ensures IsPrime(LeastPassingFrom(2 * b + 1))
  {
    var r := LeastPassingFrom(2 * b + 1);
    LeastPassingFromIsLeast(2 * b + 1);
    if r >= 5 {
      PassingIsPrimeFromFive(r);
    } else {
      assert r == 3;
      assert IsPrime(3) by {
        forall i | 2 <= i < 3
          ensures !Divides(i, 3)
        {
          DivModUnique(3, 2, 1, 1);
        }
      }
    }
  }

  /** The quirk of the bound m / 2: 4 passes the trial division although it is not prime. */
  lemma FourPassesTrialDivision()
    ensures LeastPassingFrom(4) == 4 && !IsPrime(4)
  {
    assert PassesTrialDivision(4);
    LeastPassingFromIsLeast(4);
    DivModUnique(4, 2, 2, 0);
    assert Divides(2, 4);
  }
}
