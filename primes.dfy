/**
  Prime sizing of the bucket array. `nextPrime` searches upwards from its
  argument for the first number that trial division finds no divisor of,
  trying every i with 2 <= i and i * i <= candidate (the source compares
  i with the floating-point square root of the candidate; for the sizes a
  table can have, that is the same test).
*/
module Primes {

  /** d divides n. */
  predicate Divides(d: nat, n: nat) {
    d != 0 && n % d == 0
  }

  /** The test `nextPrime` applies to a candidate: no i with 2 <= i and
      i * i <= n divides n. It holds of every prime, and also of 0 and 1. */
  ghost predicate NoSmallDivisor(n: nat) {
    forall i: nat :: 2 <= i && i * i <= n ==> !Divides(i, n)
  }

  /** The textbook definition of a prime, independent of the square-root bound. */
  ghost predicate IsPrime(p: nat) {
    2 <= p && forall d: nat :: 2 <= d < p ==> !Divides(d, p)
  }

  /** p is what `nextPrime(n)` returns: the least p >= n passing the test. */
  ghost predicate IsNextPrime(n: nat, p: nat) {
    && n <= p
    && NoSmallDivisor(p)
    && forall m: nat :: n <= m < p ==> !NoSmallDivisor(m)
  }

  /** Trial division: the smallest candidate from n on that has no divisor
      i with 2 <= i and i * i <= candidate. The outer loop is the source's
      `while(1)`; the inner one counts divisors and stops at the first. */
  method NextPrime(n: nat) returns (p: nat)
    ensures IsNextPrime(n, p)
  {
    ghost var bound := PassingAtLeast(n);
    p := n;
    var divisors := 0;
    while true
      invariant n <= p <= bound
      invariant divisors == 0
      invariant forall m: nat :: n <= m < p ==> !NoSmallDivisor(m)
      decreases bound - p
    {
      var i := 2;
      while i * i <= p
        invariant 2 <= i
        invariant divisors == 0
        invariant forall j: nat :: 2 <= j < i ==> !Divides(j, p)
        decreases p - i
      {
        assert i < i * i;
        if p % i == 0 {
          divisors := divisors + 1;
        }
        if divisors != 0 {
          break;
        }
        i := i + 1;
      }
      if divisors == 0 {
        forall j: nat | 2 <= j && j * j <= p
          ensures !Divides(j, p)
        {
          if j >= i {
            SquareMonotone(i, j);
          }
        }
        return;
      }
      assert !NoSmallDivisor(p) by {
        assert 2 <= i && i * i <= p && Divides(i, p);
      }
      p := p + 1;
      divisors := 0;
    }
  }

  lemma SquareMonotone(a: nat, b: nat)
    requires a <= b
    ensures a * a <= b * b
  {
    assert a * a <= a * b <= b * b;
  }

  /** The square-root bound is enough: from 2 on, passing the test of
      `nextPrime` is the same as being prime. */
  lemma NoSmallDivisorIffPrime(n: nat)
    requires 2 <= n
    ensures NoSmallDivisor(n) <==> IsPrime(n)
  {
    if IsPrime(n) {
      forall i: nat | 2 <= i && i * i <= n
        ensures !Divides(i, n)
      {
        assert i < i * i;
      }
    }
    if NoSmallDivisor(n) {
      forall d: nat | 2 <= d < n
        ensures !Divides(d, n)
      {
        if Divides(d, n) {
          var e := SmallDivisor(n, d);
          assert false;
        }
      }
    }
  }

  /** A number with a proper divisor has one no larger than its square root. */
  lemma SmallDivisor(n: nat, d: nat) returns (e: nat)
    requires 2 <= d < n && Divides(d, n)
    ensures 2 <= e && e * e <= n && Divides(e, n)
  {
    var q := n / d;
    assert n == d * q + n % d;
    MulMonotone(d, q, 1);
    assert 2 <= q;
    if d <= q {
      e := d;
      MulMonotone(d, d, q);
    } else {
      e := q;
      MulMonotone(q, q, d);
      MultipleDivisible(q, d);
    }
  }

  /** Multiplying by a non-negative number keeps the order. */
  lemma MulMonotone(a: int, b: int, c: int)
    ensures 0 <= a && b <= c ==> a * b <= a * c
  {
    if 0 <= a && b <= c {
      assert a * c == a * b + a * (c - b);
    }
  }

  /** What `nextPrime` returns from 2 on is the least prime at or above its argument. */
  lemma NextPrimeIsLeastPrime(n: nat, p: nat)
    requires 2 <= n && IsNextPrime(n, p)
    ensures IsPrime(p)
    ensures forall m: nat :: n <= m < p ==> !IsPrime(m)
  {
    NoSmallDivisorIffPrime(p);
    forall m: nat | n <= m < p
      ensures !IsPrime(m)
    {
      NoSmallDivisorIffPrime(m);
    }
  }

  /** At most one number is the next prime of n. */
  lemma NextPrimeUnique(n: nat, p: nat, q: nat)
    requires IsNextPrime(n, p) && IsNextPrime(n, q)
    ensures p == q
  {
  }

  /** A number that passes the test is its own next prime, and only such a number is. */
  lemma NextPrimeFixedPoint(n: nat)
    ensures IsNextPrime(n, n) <==> NoSmallDivisor(n)
  {
  }

  /** The degenerate arguments 0 and 1 are returned unchanged. */
  lemma NextPrimeOfZeroAndOne()
    ensures IsNextPrime(0, 0) && IsNextPrime(1, 1)
  {
    forall i: nat | 2 <= i
      ensures i * i > 1
    {
      SquareMonotone(2, i);
    }
  }

  /** The default table size 11 is kept as it is. */
  lemma NextPrimeOfEleven()
    ensures IsNextPrime(11, 11)
  {
    forall i: nat | 2 <= i && i * i <= 11
      ensures !Divides(i, 11)
    {
      if i >= 4 {
        SquareMonotone(4, i);
      }
    }
  }

  /** 12 is even, so the search moves on to 13. */
  lemma NextPrimeOfTwelve()
    ensures IsNextPrime(12, 13)
  {
    assert Divides(2, 12);
    forall i: nat | 2 <= i && i * i <= 13
      ensures !Divides(i, 13)
    {
      if i >= 4 {
        SquareMonotone(4, i);
      }
    }
  }

  /** A requested size of 2 gives a table of 2 buckets. */
  lemma NextPrimeOfTwo()
    ensures IsNextPrime(2, 2)
  {
    forall i: nat | 2 <= i
      ensures i * i > 2
    {
      SquareMonotone(2, i);
    }
  }

  /** 4 is even, so doubling a table of 2 buckets gives 5. */
  lemma NextPrimeOfFour()
    ensures IsNextPrime(4, 5)
  {
    assert Divides(2, 4);
    forall i: nat | 2 <= i && i * i <= 5
      ensures !Divides(i, 5)
    {
      if i >= 3 {
        SquareMonotone(3, i);
      }
    }
  }

  /** 10 is even, so doubling a table of 5 buckets gives 11. */
  lemma NextPrimeOfTen()
    ensures IsNextPrime(10, 11)
  {
    assert Divides(2, 10);
    NextPrimeOfEleven();
  }

  // Termination of the search: Euclid's argument that some number at or
  // above n passes the test.

  ghost function Factorial(n: nat): (f: nat)
    ensures 1 <= f
  {
    if n == 0 then 1 else n * Factorial(n - 1)
  }

  lemma {:induction false} FactorialMultiple(d: nat, n: nat) returns (q: nat)
    requires 1 <= d <= n
    ensures Factorial(n) == d * q
  {
    if d == n {
      q := Factorial(n - 1);
    } else {
      var q' := FactorialMultiple(d, n - 1);
      q := n * q';
      calc {
        Factorial(n);
        n * Factorial(n - 1);
        n * (d * q');
        d * (n * q');
      }
    }
  }

  /** A nonzero multiple of d is at least d away from 0. */
  lemma MultipleAwayFromZero(d: int, t: int)
    requires 1 <= d && t != 0
    ensures d * t >= d || d * t <= -d
  {
    if t >= 1 {
      assert d * (t - 1) >= 0;
      assert d * t == d * (t - 1) + d;
    } else {
      assert d * (-t - 1) >= 0;
      assert d * t == -(d * (-t - 1)) - d;
    }
  }

  lemma MultipleDivisible(d: nat, q: nat)
    requires 1 <= d
    ensures Divides(d, d * q)
  {
    var m := d * q;
    var k := m / d;
    assert d * (q - k) == m % d;
    if q - k != 0 {
      MultipleAwayFromZero(d, q - k);
      assert false;
    }
  }

  lemma MultiplePlusOne(d: nat, q: nat)
    requires 2 <= d
    ensures !Divides(d, d * q + 1)
  {
    var m := d * q + 1;
    var k := m / d;
    assert d * (q - k) == m % d - 1;
    if q - k != 0 {
      MultipleAwayFromZero(d, q - k);
    }
  }

  lemma DividesTransitive(a: nat, b: nat, c: nat)
    requires Divides(a, b) && Divides(b, c)
    ensures Divides(a, c)
  {
    var x := b / a;
    var y := c / b;
    assert b == a * x;
    assert c == b * y;
    assert c == a * (x * y);
    MultipleDivisible(a, x * y);
  }

  /** The least divisor of m that is at least d. */
  ghost function LeastDivisorFrom(m: nat, d: nat): (r: nat)
    requires 2 <= d <= m
    ensures d <= r <= m && Divides(r, m)
    ensures forall e: nat :: d <= e < r ==> !Divides(e, m)
    decreases m - d
  {
    if m % d == 0 then d else LeastDivisorFrom(m, d + 1)
  }

  /** Some number at or above n passes the test of `nextPrime`. */
  lemma PassingAtLeast(n: nat) returns (p: nat)
    ensures n <= p && NoSmallDivisor(p)
  {
    if n <= 1 {
      p := n;
      NextPrimeOfZeroAndOne();
      return;
    }
    var m := Factorial(n) + 1;
    p := LeastDivisorFrom(m, 2);
    if p <= n {
      var q := FactorialMultiple(p, n);
      MultiplePlusOne(p, q);
    }
    forall i: nat | 2 <= i && i * i <= p
      ensures !Divides(i, p)
    {
      assert i < i * i;
      if Divides(i, p) {
        DividesTransitive(i, p, m);
      }
    }
  }
}
