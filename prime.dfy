/**
 * Trial-division primality test and the search for the next prime
 * (prime/prime.go). The same trial division is the slot-count check of the
 * Maglev hash (maglev_hash/maglev.go, `isPrime`).
 */
module Prime {
  import opened Modular

  /** `n` is prime: at least 2 and without a divisor strictly between 1 and `n`. */
  ghost predicate IsPrimeNumber(n: int) {
    n >= 2 && forall k :: 2 <= k < n ==> n % k != 0
  }

  /**
   * Trial division as the source writes it: 2 and 3 first, then odd
   * candidates from 5 while the candidate is at most `floor(sqrt(n)) + 1`,
   * i.e. while `(i - 1)^2 <= n`.
   */
  method IsPrime(n: int) returns (b: bool)
    ensures b <==> IsPrimeNumber(n)
  {
    if n <= 1 {
      return false;
    }
    if n == 2 || n == 3 {
      return true;
    }
    if n % 2 == 0 || n % 3 == 0 {
      return false;
    }
    var i := 5;
    while (i - 1) * (i - 1) <= n
      invariant 5 <= i && i % 2 == 1
      invariant forall k :: 2 <= k < i ==> n % k != 0
      decreases n + 2 - i
    {
      SquareBound(i - 1, n);
      if n % i == 0 {
        return false;
      }
      NoDivisorStep(n, i);
      i := i + 2;
    }
    forall k | 2 <= k < n
      ensures n % k != 0
    {
      NoLargeDivisor(n, k, i);
    }
    return true;
  }

  /**
   * Stepping over the even number `i + 1` loses nothing: `n` is odd, so an
   * even number cannot divide it.
   */
  lemma NoDivisorStep(n: int, i: int)
    requires n % 2 != 0 && i >= 5 && i % 2 == 1 && n % i != 0
    requires forall k :: 2 <= k < i ==> n % k != 0
    ensures forall k :: 2 <= k < i + 2 ==> n % k != 0
  {
    Divides(n, i + 1, 2);
    assert (i + 1) % 2 == 0;
    forall k | 2 <= k < i + 2 ensures n % k != 0 {
      if k >= i { assert k == i || k == i + 1; }
    }
  }

  /** A candidate whose square (before the step) is at most `n` is below `n`. */
  lemma SquareBound(d: int, n: int)
    requires d >= 4 && d * d <= n
    ensures d + 1 < n
  {
    assert d * d >= 4 * d;
  }

  /**
   * If no number in `[2, i)` divides `n` and `(i - 1)^2 > n`, no number in
   * `[2, n)` does: the smaller cofactor of any divisor would lie below `i`.
   */
  lemma NoLargeDivisor(n: int, k: int, i: int)
    requires 2 <= k < n && i >= 2
    requires (i - 1) * (i - 1) > n
    requires forall j :: 2 <= j < i ==> n % j != 0
    ensures n % k != 0
  {
    var q := n / k;
    if n % k == 0 {
      assert n == q * k;
      MulMonotone(q, 1, k);
      assert q >= 2;
      ModUnique(n, q, k, 0);
      assert n % q == 0;
    }
    // Were `k` a divisor, both `k` and `q` would be at least `i`, so `n == q * k >= i * i`.
    MulMonotone(i, q, i);
    MulMonotone(i, k, q);
  }

  lemma MulMonotone(a: int, b: int, c: int)
    requires 0 <= c
    ensures a <= b ==> a * c <= b * c
  {
  }

  /**
   * The smallest prime strictly greater than `n`: the source counts upwards
   * from `n + 1` and stops at the first candidate `IsPrime` accepts. The loop
   * terminates because a prime above `n` exists (`PrimeAbove`).
   */
  method NextPrime(n: int) returns (p: int)
    ensures IsNextPrime(n, p)
  {
    PrimeAbove(n);
    ghost var bound :| bound > n && IsPrimeNumber(bound);
    var i := n + 1;
    while true
      invariant n < i <= bound
      invariant forall q :: n < q < i ==> !IsPrimeNumber(q)
      decreases bound - i
    {
      var b := IsPrime(i);
      if b {
        return i;
      }
      i := i + 1;
    }
  }

  ghost function Factorial(n: nat): (f: nat)
    ensures f >= 1
  {
    if n == 0 then 1 else n * Factorial(n - 1)
  }

  /** Every number from 1 to `n` divides `n!`. */
  lemma {:induction false} FactorialDivisible(n: nat, k: int)
    requires 1 <= k <= n
    ensures Factorial(n) % k == 0
  {
    if k == n {
      MultipleMod(Factorial(n - 1), n);
    } else {
      FactorialDivisible(n - 1, k);
      var c := Factorial(n - 1) / k;
      assert Factorial(n) == (n * c) * k;
      MultipleMod(n * c, k);
    }
  }

  /** Every number from 2 upwards has a prime divisor. */
  lemma {:induction false} PrimeDivisor(m: int) returns (p: int)
    requires m >= 2
    ensures IsPrimeNumber(p) && m % p == 0
    decreases m
  {
    if IsPrimeNumber(m) {
      p := m;
    } else {
      var k :| 2 <= k < m && m % k == 0;
      p := PrimeDivisor(k);
      Divides(m, k, p);
    }
  }

  /** Euclid: there is a prime above every number, a prime divisor of `n! + 1`. */
  lemma PrimeAbove(n: int)
    ensures exists p :: p > n && IsPrimeNumber(p)
  {
    if n < 2 {
      assert IsPrimeNumber(2);
    } else {
      var p := PrimeDivisor(Factorial(n) + 1);
      if p <= n {
        FactorialDivisible(n, p);
        var c := Factorial(n) / p;
        ModUnique(Factorial(n) + 1, p, c, 1);
      }
      assert p > n;
    }
  }

  /**
   * Euclid's lemma in the form the preference lists need: a prime divides no
   * product of two numbers strictly between 0 and itself.
   */
  lemma {:induction false} NoZeroDivisors(p: int, a: int, b: int)
    requires IsPrimeNumber(p) && 0 < a < p && 0 < b < p
    ensures (a * b) % p != 0
    decreases a
  {
    if a == 1 {
      ModUnique(b, p, 0, b);
    } else {
      var q, r := p / a, p % a;
      assert r != 0;
      NoZeroDivisors(p, r, b);
      assert r * b == p * b - q * (a * b) by {
        assert p * b == (q * a + r) * b;
      }
      MultipleDiff(b, a * b, p, q);
    }
  }

  /** `p` is the smallest prime strictly greater than `n`. */
  ghost predicate IsNextPrime(n: int, p: int) {
    p > n && IsPrimeNumber(p) && forall q :: n < q < p ==> !IsPrimeNumber(q)
  }

  /** There is exactly one smallest prime above `n`. */
  lemma NextPrimeUnique(n: int, p1: int, p2: int)
    requires IsNextPrime(n, p1) && IsNextPrime(n, p2)
    ensures p1 == p2
  {
  }

  /** A number without a divisor in `[2, i)`, where `(i - 1)^2 > n`, is prime. */
  lemma PrimeBySquareRoot(n: int, i: int)
    requires n >= 2 && i >= 2 && (i - 1) * (i - 1) > n
    requires forall j :: 2 <= j < i ==> n % j != 0
    ensures IsPrimeNumber(n)
  {
    forall k | 2 <= k < n ensures n % k != 0 {
      NoLargeDivisor(n, k, i);
    }
  }

  /** 10007, the Maglev hash's default slot count, is prime. */
  lemma TenThousandSevenIsPrime()
    ensures IsPrimeNumber(10007)
  {
    forall j | 2 <= j < 102 ensures 10007 % j != 0 {
    }
    PrimeBySquareRoot(10007, 102);
  }

  /** 100003 is prime. */
  lemma HundredThousandThreeIsPrime()
    ensures IsPrimeNumber(100003)
  {
    forall j | 2 <= j < 318 ensures 100003 % j != 0 {
    }
    PrimeBySquareRoot(100003, 318);
  }

  /** The values the source's tests expect of `NextPrime`. */
  lemma NextPrimeExamples()
    ensures IsNextPrime(1, 2) && IsNextPrime(2, 3) && IsNextPrime(3, 5) && IsNextPrime(4, 5)
    ensures IsNextPrime(5, 7) && IsNextPrime(6, 7)
    ensures IsNextPrime(7, 11) && IsNextPrime(8, 11) && IsNextPrime(9, 11) && IsNextPrime(10, 11)
    ensures IsNextPrime(10000, 10007) && IsNextPrime(100000, 100003)
  {
    assert IsPrimeNumber(2) && IsPrimeNumber(3);
    assert IsPrimeNumber(5) by {
      assert 5 % 2 != 0 && 5 % 3 != 0 && 5 % 4 != 0;
    }
    assert IsPrimeNumber(7) by {
      PrimeBySquareRoot(7, 4);
    }
    assert IsPrimeNumber(11) by {
      PrimeBySquareRoot(11, 5);
    }
    assert 4 % 2 == 0 && 6 % 2 == 0 && 8 % 2 == 0 && 9 % 3 == 0 && 10 % 2 == 0;
    forall q | 10000 < q < 10007 ensures !IsPrimeNumber(q) {
      if q == 10001 {
        assert q % 73 == 0;
      } else if q == 10003 {
        assert q % 7 == 0;
      } else if q == 10005 {
        assert q % 5 == 0;
      } else {
        assert q % 2 == 0;
      }
    }
    TenThousandSevenIsPrime();
    forall q | 100000 < q < 100003 ensures !IsPrimeNumber(q) {
      if q == 100001 {
        assert q % 11 == 0;
      } else {
        assert q % 2 == 0;
      }
    }
    HundredThousandThreeIsPrime();
  }
}
