/**
 * The colour vector read as a big-endian base-`n` number (the last position is
 * the least significant digit), and `next`, the in-place odometer step.
 */
module Odometer {
  import opened Modulus

  function Pow(b: int, k: nat): int {
    if k == 0 then 1 else Pow(b, k - 1) * b
  }

  lemma {:induction false} PowPositive(b: int, k: nat)
    requires b >= 1
    ensures Pow(b, k) >= 1
  {
    if k > 0 {
      PowPositive(b, k - 1);
      MulPulls(b, Pow(b, k - 1));
    }
  }

  /** Every entry is a colour in [0, n). */
  predicate InRange(s: seq<int>, n: int) {
    forall k :: 0 <= k < |s| ==> 0 <= s[k] < n
  }

  /** One possible world for `n` participants: `n` colours in [0, n). */
  predicate IsAssignment(a: seq<int>, n: int) {
    |a| == n && InRange(a, n)
  }

  /** `m` copies of `x`. */
  function Const(x: int, m: nat): (s: seq<int>)
    ensures |s| == m && forall k :: 0 <= k < m ==> s[k] == x
  {
    seq(m, _ => x)
  }

  /** The big-endian base-`n` value of `s`. */
  function Value(s: seq<int>, n: int): int {
    if |s| == 0 then 0 else Value(s[..|s| - 1], n) * n + s[|s| - 1]
  }

  /** The value of a concatenation: the prefix shifted by the length of the suffix. */
  lemma {:induction false} ValueAppend(p: seq<int>, q: seq<int>, n: int)
    ensures Value(p + q, n) == Value(p, n) * Pow(n, |q|) + Value(q, n)
  {
    if |q| == 0 {
      assert p + q == p;
    } else {
      var q' := q[..|q| - 1];
      assert (p + q)[..|p + q| - 1] == p + q';
      ValueAppend(p, q', n);
      calc {
        Value(p + q, n);
        Value(p + q', n) * n + q[|q| - 1];
        (Value(p, n) * Pow(n, |q'|) + Value(q', n)) * n + q[|q| - 1];
        { assert (Value(p, n) * Pow(n, |q'|)) * n == Value(p, n) * (Pow(n, |q'|) * n); }
        Value(p, n) * Pow(n, |q|) + (Value(q', n) * n + q[|q| - 1]);
        Value(p, n) * Pow(n, |q|) + Value(q, n);
      }
    }
  }

  lemma {:induction false} ValueZeros(m: nat, n: int)
    ensures Value(Const(0, m), n) == 0
  {
    if m > 0 {
      assert Const(0, m)[..m - 1] == Const(0, m - 1);
      ValueZeros(m - 1, n);
    }
  }

  /** All digits `n - 1`: the largest value of its length. */
  lemma {:induction false} ValueAllMax(m: nat, n: int)
    ensures Value(Const(n - 1, m), n) == Pow(n, m) - 1
  {
    if m > 0 {
      assert Const(n - 1, m)[..m - 1] == Const(n - 1, m - 1);
      ValueAllMax(m - 1, n);
      assert (Pow(n, m - 1) - 1) * n == Pow(n, m - 1) * n - n;
    }
  }

  /** A vector of colours in [0, n) has a value in [0, n^|s|). */
  lemma {:induction false} ValueBounds(s: seq<int>, n: int)
    requires InRange(s, n)
    ensures 0 <= Value(s, n) < Pow(n, |s|)
  {
    if |s| > 0 {
      var p := s[..|s| - 1];
      assert InRange(p, n);
      ValueBounds(p, n);
      DigitStep(Value(p, n), s[|s| - 1], Pow(n, |p|), n);
    }
  }

  /** One more digit: a value below `q` becomes a value below `q * n`. */
  lemma DigitStep(v: int, d: int, q: int, n: int)
    requires 0 <= v < q && 0 <= d < n
    ensures 0 <= v * n + d < q * n
  {
    MulLe(v, q - 1, n);
    assert (q - 1) * n == q * n - n;
    MulPulls(v + 1, n);
    assert v * n >= 0 by {
      if v > 0 {
        MulPulls(v, n);
      }
    }
  }

  lemma MulLe(a: int, b: int, c: int)
    requires a <= b && c >= 0
    ensures a * c <= b * c
  {
    assert b * c - a * c == (b - a) * c;
    if b - a > 0 && c > 0 {
      MulPulls(b - a, c);
    }
  }

  /** Two vectors of colours of the same length with the same value are equal. */
  lemma {:induction false} ValueInjective(a: seq<int>, b: seq<int>, n: int)
    requires |a| == |b| && InRange(a, n) && InRange(b, n)
    requires Value(a, n) == Value(b, n)
    ensures a == b
  {
    if |a| > 0 {
      var pa, pb := a[..|a| - 1], b[..|b| - 1];
      var da, db := a[|a| - 1], b[|b| - 1];
      assert InRange(pa, n) && InRange(pb, n);
      var va, vb := Value(pa, n), Value(pb, n);
      assert n >= 1;
      // va * n + da == vb * n + db with 0 <= da, db < n
      assert (va - vb) * n == db - da;
      MulPulls(va - vb, n);
      assert va == vb && da == db;
      ValueInjective(pa, pb, n);
      assert a == pa + [da] && b == pb + [db];
    }
  }

  /**
   * Adding one to a vector that ends in `d` followed by `m` digits `n - 1`
   * gives the same prefix, `d + 1`, and `m` zeros.
   */
  lemma {:induction false} ValueCarry(p: seq<int>, d: int, m: nat, n: int)
    ensures Value(p + [d + 1] + Const(0, m), n) == Value(p + [d] + Const(n - 1, m), n) + 1
  {
    ValueAppend(p + [d + 1], Const(0, m), n);
    ValueAppend(p + [d], Const(n - 1, m), n);
    ValueZeros(m, n);
    ValueAllMax(m, n);
    assert (p + [d + 1])[..|p|] == p;
    assert (p + [d])[..|p|] == p;
    var w := Value(p, n) * n;
    assert Value(p + [d + 1], n) == w + d + 1;
    assert Value(p + [d], n) == w + d;
    assert (w + d + 1) * Pow(n, m) == (w + d) * Pow(n, m) + Pow(n, m);
  }

  /**
   * The digit-wise picture of one carrying increment: `s` agrees with `o`
   * before `i`, has `o[i] + 1` at `i`, and zeros where `o` has `n - 1` after it.
   */
  lemma {:induction false} IncrementAt(o: seq<int>, s: seq<int>, i: int, n: int)
    requires |o| == |s| && 0 <= i < |s|
    requires forall k :: 0 <= k < i ==> s[k] == o[k]
    requires s[i] == o[i] + 1 && s[i] < n
    requires forall k :: i < k < |s| ==> s[k] == 0 && o[k] == n - 1
    ensures Value(s, n) == Value(o, n) + 1
    ensures o != Const(n - 1, |o|)
  {
    assert o[i] != Const(n - 1, |o|)[i];
    var m := |s| - 1 - i;
    assert s == s[..i] + [o[i] + 1] + Const(0, m);
    assert o == s[..i] + [o[i]] + Const(n - 1, m);
    ValueCarry(s[..i], o[i], m, n);
  }

  /**
   * `next`: one step of the odometer. Walking from the last position to the
   * first, it adds one (Go's `%`, wrapping `n - 1` to 0) and stops at the first
   * position that did not wrap. It answers true after adding exactly one to the
   * base-`n` value, and false when every position wrapped: then the vector was
   * all `n - 1` and is now all zeros.
   */
  method Next(cur: array<int>, n: int) returns (more: bool)
    requires cur.Length == n && InRange(cur[..], n)
    modifies cur
    ensures InRange(cur[..], n)
    ensures more <==> old(cur[..]) != Const(n - 1, n)
    ensures more ==> Value(cur[..], n) == Value(old(cur[..]), n) + 1
    ensures !more ==> cur[..] == Const(0, n)
  {
    ghost var o := cur[..];
    var i := n - 1;
    while i >= 0
      invariant -1 <= i < n
      invariant InRange(cur[..], n)
      invariant forall k :: 0 <= k <= i ==> cur[k] == o[k]
      invariant forall k :: i < k < n ==> cur[k] == 0 && o[k] == n - 1
    {
      GoRemWrap(cur[i] + 1, n);
      cur[i] := GoRem(cur[i] + 1, n);
      if cur[i] > 0 {
        IncrementAt(o, cur[..], i, n);
        return true;
      }
      i := i - 1;
    }
    assert o == Const(n - 1, n);
    assert cur[..] == Const(0, n);
    return false;
  }
}
