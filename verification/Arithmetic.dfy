/**
 Quotients, remainders and divisors, for the hash tables and the option vector: division with a
 remainder is unique; multiples of a modulus do not show modulo it; where one modulus divides
 another, the coarser remainder can be taken of the finer one; and an odd factor can be cancelled
 modulo a power of two, which is what makes an odd probe step visit every slot and an odd
 multiplier keep residue classes apart. Each fact is stated for one use of it, so that callers
 need no quantified arithmetic.
 */
module Arithmetic {

  lemma MulAtLeast(d: int, a: int)
    requires 0 < d && 1 <= a
    ensures d <= d * a
  {
  }

  lemma Distribute(d: int, a: int, b: int)
    ensures d * (a - b) == d * a - d * b && d * (a + b) == d * a + d * b
  {
  }

  /** Quotient and remainder are unique. */
  lemma DivModUnique(x: int, d: int, q: int, r: int)
    requires 0 < d && 0 <= r < d && x == d * q + r
    ensures x / d == q && x % d == r
  {
    var p, s := x / d, x % d;
    assert x == d * p + s;
    Distribute(d, q, p);
    Distribute(d, p, q);
    if p < q {
      MulAtLeast(d, q - p);
    } else if q < p {
      MulAtLeast(d, p - q);
    }
  }

  lemma SmallMod(x: int, d: int)
    requires 0 <= x < d
    ensures x % d == x
  {
    DivModUnique(x, d, 0, x);
  }

  /** Multiples of d do not matter modulo d. */
  lemma ModOfSum(r: int, q: int, d: int)
    requires 0 < d
    ensures (d * q + r) % d == r % d
  {
    Distribute(d, q, r / d);
    assert d * q + r == d * (q + r / d) + r % d;
    DivModUnique(d * q + r, d, q + r / d, r % d);
  }

  lemma MultipleMod(q: int, d: int)
    requires 0 < d
    ensures d * q % d == 0
  {
    DivModUnique(d * q, d, q, 0);
  }

  /** Where d divides n, taking remainders modulo n first changes nothing modulo d. */
  lemma ModMod(x: int, n: int, d: int)
    requires 0 < d && 0 < n && n % d == 0
    ensures x % n % d == x % d
  {
    var q, m := n / d, x / n;
    assert x == n * m + x % n && n == d * q;
    assert n * m == d * (q * m) by { Reorder(d, q, m); }
    ModOfSum(x % n, q * m, d);
  }

  lemma Reorder(a: int, b: int, c: int)
    ensures a * b * c == a * (b * c)
  {
  }

  // ---------------------------------------------------------------------------------------
  // Odd factors modulo powers of two

  ghost predicate PowerOfTwo(n: int) {
    n == 1 || (0 < n && n % 2 == 0 && PowerOfTwo(n / 2))
  }

  /** An odd factor can be cancelled modulo a power of two. */
  lemma {:induction false} Cancel(n: int, m: int, x: int)
    requires PowerOfTwo(n) && m % 2 == 1 && x * m % n == 0
    ensures x % n == 0
    decreases n
  {
    if n != 1 {
      var h := n / 2;
      var q := x * m / n;
      assert x * m == n * q && n == 2 * h;
      assert n * q == 2 * (h * q) by { Reorder(2, h, q); }
      OddFactor(x, m, h * q);
      var y := x / 2;
      assert x == 2 * y;
      assert x * m == 2 * (y * m) by { Reorder(2, y, m); }
      assert y * m == h * q;
      MultipleMod(q, h);
      Cancel(h, m, y);
      var z := y / h;
      assert y == h * z;
      assert x == n * z by { Reorder(2, h, z); }
      MultipleMod(z, n);
    }
  }

  /** x * m even and m odd: x even. */
  lemma OddFactor(x: int, m: int, e: int)
    requires m % 2 == 1 && x * m == 2 * e
    ensures x % 2 == 0
  {
    var a := m / 2;
    assert m == 2 * a + 1;
    Distribute(x, 2 * a, -1);
    assert x * m == x * (2 * a) + x;
    assert x * (2 * a) == 2 * (x * a) by { Swap(x, a); }
    assert x == 2 * (e - x * a);
  }

  lemma Swap(x: int, a: int)
    ensures x * (2 * a) == 2 * (x * a)
  {
  }

  lemma CongruentDifference(a: int, b: int, n: int)
    requires 0 < n
    ensures a % n == b % n <==> (a - b) % n == 0
  {
    var p, q := a / n, b / n;
    assert a == n * p + a % n && b == n * q + b % n;
    Distribute(n, p, q);
    if a % n == b % n {
      assert a - b == n * (p - q);
      MultipleMod(p - q, n);
    }
    if (a - b) % n == 0 {
      var z := (a - b) / n;
      assert a - b == n * z;
      Distribute(n, q, z);
      assert a == n * (q + z) + b % n;
      DivModUnique(a, n, q + z, b % n);
    }
  }
}
