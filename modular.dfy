/** Facts about Dafny's Euclidean `/` and `%` used by the primality and hashing proofs. */
module Modular {

  /** Division with remainder is unique: a decomposition `z == q*m + r` with `0 <= r < m` is the one `/` and `%` give. */
  lemma ModUnique(z: int, m: int, q: int, r: int)
    requires m > 0 && z == q * m + r && 0 <= r < m
    ensures z % m == r && z / m == q
  {
    var q', r' := z / m, z % m;
    assert (q' - q) * m == r - r';
    SmallMultiple(q' - q, m, r - r');
  }

  /** The only multiple of `m` strictly between `-m` and `m` is 0. */
  lemma SmallMultiple(c: int, m: int, d: int)
    requires m > 0 && c * m == d && -m < d < m
    ensures c == 0
  {
    MulAtLeast(c, m);
    MulAtLeast(-c, m);
  }

  /** A product with a positive factor is at least the other factor. */
  lemma MulAtLeast(a: int, m: int)
    requires m > 0
    ensures a >= 1 ==> a * m >= m
  {
  }

  /** A multiple of `m` leaves remainder 0. */
  lemma MultipleMod(c: int, m: int)
    requires m > 0
    ensures (c * m) % m == 0
  {
    ModUnique(c * m, m, c, 0);
  }

  /** Divisibility is transitive. */
  lemma Divides(n: int, a: int, b: int)
    requires a > 0 && b > 0
    ensures n % a == 0 && a % b == 0 ==> n % b == 0
  {
    if n % a == 0 && a % b == 0 {
      var q, r := n / a, a / b;
      assert n == q * a && a == r * b;
      assert n == (q * r) * b;
      MultipleMod(q * r, b);
    }
  }

  /** Two numbers with the same remainder differ by a multiple of `m`. */
  lemma SameRemainder(x: int, y: int, m: int)
    requires m > 0
    ensures x % m == y % m ==> (y - x) % m == 0
  {
    if x % m == y % m {
      assert y - x == (y / m - x / m) * m;
      MultipleMod(y / m - x / m, m);
    }
  }

  /** Subtracting a multiple of a multiple of `m` from a multiple of `m` leaves a multiple of `m`. */
  lemma MultipleDiff(x: int, y: int, m: int, q: int)
    requires m > 0
    ensures y % m == 0 ==> (m * x - q * y) % m == 0
  {
    if y % m == 0 {
      var c := y / m;
      assert m * x - q * y == (x - q * c) * m;
      MultipleMod(x - q * c, m);
    }
  }
}
