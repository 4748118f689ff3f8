/** Go's truncated remainder `%` and the program's positive modulus `mod`. */
module Modulus {

  function Abs(x: int): nat {
    if x < 0 then -x else x
  }

  /** `a` and `b` leave the same remainder modulo `m`. */
  predicate Congruent(a: int, b: int, m: int)
    requires m > 0
  {
    (a - b) % m == 0
  }

  lemma {:induction false} MultipleIsCongruent(k: int, m: int)
    requires m > 0
    ensures Congruent(k * m, 0, m)
  {
    var x := k * m;
    var q, r := x / m, x % m;
    assert x == q * m + r && 0 <= r < m;
    assert (k - q) * m == r by {
      assert (k - q) * m == k * m - q * m;
    }
    MulPulls(k - q, m);
  }

  /** A non-zero multiple of `m` is at least `m` in magnitude. */
  lemma {:induction false} MulPulls(k: int, m: int)
    requires m > 0
    ensures k >= 1 ==> k * m >= m
    ensures k <= -1 ==> k * m <= -m
  {
    if k >= 1 {
      assert k * m == m + (k - 1) * m;
    } else if k <= -1 {
      assert k * m == -m + (k + 1) * m;
    }
  }

  lemma {:induction false} CongruentTrans(a: int, b: int, c: int, m: int)
    requires m > 0 && Congruent(a, b, m) && Congruent(b, c, m)
    ensures Congruent(a, c, m)
  {
    var k1, k2 := (a - b) / m, (b - c) / m;
    assert a - c == (k1 + k2) * m;
    MultipleIsCongruent(k1 + k2, m);
  }

  lemma {:induction false} CongruentSymm(a: int, b: int, m: int)
    requires m > 0 && Congruent(a, b, m)
    ensures Congruent(b, a, m)
  {
    var k := (a - b) / m;
    assert b - a == (-k) * m;
    MultipleIsCongruent(-k, m);
  }

  /** Two congruent numbers closer together than `m` are equal. */
  lemma {:induction false} CongruentClose(a: int, b: int, m: int)
    requires m > 0 && Congruent(a, b, m) && -m < a - b < m
    ensures a == b
  {
    var k := (a - b) / m;
    assert a - b == k * m;
    MulPulls(k, m);
  }

  /**
   * Go's `x % m`: the remainder of the division truncated toward zero.
   * It is smaller than `m` in magnitude and has the sign of `x` (or is zero);
   * `GoRemCongruent` adds that it differs from `x` by a multiple of `m`.
   */
  function GoRem(x: int, m: int): (r: int)
    requires m != 0
    ensures Abs(r) < Abs(m)
    ensures x >= 0 ==> r >= 0
    ensures x < 0 ==> r <= 0
  {
    if x >= 0 then x % Abs(m) else -((-x) % Abs(m))
  }

  lemma {:induction false} GoRemCongruent(x: int, m: int)
    requires m != 0
    ensures Congruent(x, GoRem(x, m), Abs(m))
  {
    var d: int := Abs(m);
    if x >= 0 {
      MultipleIsCongruent(x / d, d);
      assert x - x % d == (x / d) * d;
    } else {
      MultipleIsCongruent(-((-x) / d), d);
      assert x - -((-x) % d) == (-((-x) / d)) * d;
    }
  }

  /** On a non-negative dividend and a positive divisor Go's `%` agrees with Dafny's. */
  lemma {:induction false} GoRemNonNeg(x: int, m: int)
    requires x >= 0 && m > 0
    ensures GoRem(x, m) == x % m
  {
    var r := GoRem(x, m);
    GoRemCongruent(x, m);
    assert Congruent(x, x % m, m) by {
      MultipleIsCongruent(x / m, m);
      assert x - x % m == (x / m) * m;
    }
    CongruentSymm(x, r, m);
    CongruentTrans(r, x, x % m, m);
    CongruentClose(r, x % m, m);
  }

  /** Go's `%` on a value in [0, m]: only `m` itself wraps, to 0. */
  lemma {:induction false} GoRemWrap(x: int, m: int)
    requires m > 0 && 0 <= x <= m
    ensures GoRem(x, m) == if x == m then 0 else x
  {
    var r := GoRem(x, m);
    GoRemCongruent(x, m);
    if x == m {
      MultipleIsCongruent(1, m);
      assert x - 0 == 1 * m;
      CongruentSymm(x, r, m);
      CongruentTrans(r, x, 0, m);
      CongruentClose(r, 0, m);
    } else {
      CongruentClose(x, r, m);
    }
  }

  /**
   * The program's positive modulus `((x % n) + n) % n`, with Go's `%`.
   * For a positive `n` it lies in [0, n); for a negative `n` in (n, 0].
   */
  function Mod(x: int, n: int): (r: int)
    requires n != 0
    ensures n > 0 ==> 0 <= r < n
    ensures n < 0 ==> n < r <= 0
  {
    GoRem(GoRem(x, n) + n, n)
  }

  /** `mod(x, n)` differs from `x` by a multiple of `n`. */
  lemma {:induction false} ModCongruent(x: int, n: int)
    requires n != 0
    ensures Congruent(x, Mod(x, n), Abs(n))
  {
    var t := GoRem(x, n);
    var d: int := Abs(n);
    GoRemCongruent(x, n);
    GoRemCongruent(t + n, n);
    assert Congruent(t, t + n, d) by {
      if n > 0 {
        MultipleIsCongruent(-1, d);
        assert t - (t + n) == (-1) * d;
      } else {
        MultipleIsCongruent(1, d);
        assert t - (t + n) == 1 * d;
      }
    }
    CongruentTrans(x, t, t + n, d);
    CongruentTrans(x, t + n, Mod(x, n), d);
  }

  /** For a positive `n`, `mod` is exactly Dafny's Euclidean `%`. */
  lemma {:induction false} ModIsEuclidean(x: int, n: int)
    requires n > 0
    ensures Mod(x, n) == x % n
  {
    var r := Mod(x, n);
    ModCongruent(x, n);
    assert Congruent(x, x % n, n) by {
      MultipleIsCongruent(x / n, n);
      assert x - x % n == (x / n) * n;
    }
    CongruentSymm(x, r, n);
    CongruentTrans(r, x, x % n, n);
    CongruentClose(r, x % n, n);
  }

  /** Congruent arguments have the same `mod`. */
  lemma {:induction false} ModOfCongruent(a: int, b: int, n: int)
    requires n != 0 && Congruent(a, b, Abs(n))
    ensures Mod(a, n) == Mod(b, n)
  {
    var d: int := Abs(n);
    var ra, rb := Mod(a, n), Mod(b, n);
    ModCongruent(a, n);
    ModCongruent(b, n);
    CongruentSymm(a, ra, d);
    CongruentTrans(ra, a, b, d);
    CongruentTrans(ra, b, rb, d);
    CongruentClose(ra, rb, d);
  }

  /** Adding the modulus does not change `mod`. */
  lemma {:induction false} ModShift(x: int, n: int)
    requires n != 0
    ensures Mod(x + n, n) == Mod(x, n)
  {
    var d: int := Abs(n);
    if n > 0 {
      MultipleIsCongruent(1, d);
      assert (x + n) - x == 1 * d;
    } else {
      MultipleIsCongruent(-1, d);
      assert (x + n) - x == (-1) * d;
    }
    ModOfCongruent(x + n, x, n);
  }

  /** A value already in [0, n) is its own `mod`. */
  lemma {:induction false} ModOfInRange(x: int, n: int)
    requires 0 <= x < n
    ensures Mod(x, n) == x
  {
    var r := Mod(x, n);
    ModCongruent(x, n);
    CongruentClose(x, r, n);
  }

  /** For values in [0, n): `c == mod(e, n)` exactly when `e - c` is a multiple of `n`. */
  lemma {:induction false} ModEqIff(c: int, e: int, n: int)
    requires n > 0 && 0 <= c < n
    ensures c == Mod(e, n) <==> Congruent(e, c, n)
  {
    var r := Mod(e, n);
    ModCongruent(e, n);
    if Congruent(e, c, n) {
      CongruentSymm(e, r, n);
      CongruentTrans(r, e, c, n);
      CongruentClose(r, c, n);
    }
  }
}
