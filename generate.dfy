/**
 * `generateStrategy`: the closed-form strategy for any number of participants,
 *   g_0 = v_1 + v_2 + ... + v_{n-1}                    (mod n)
 *   g_i = v_0 - (v_1 + ... + v_{n-1} without v_i) + i  (mod n)
 * and the theorem that explains why it always wins.
 */
module Generate {
  import opened Modulus
  import opened Row
  import opened Odometer
  import opened Verifier

  /** The sum of `At(v, j)` for `lo <= j < hi`. */
  function Sum(v: seq<int>, lo: int, hi: int): int
    decreases hi - lo
  {
    if hi <= lo then 0 else Sum(v, lo, hi - 1) + At(v, hi - 1)
  }

  /** The same sum with the term at index `skip` left out. */
  function SumSkipping(v: seq<int>, lo: int, hi: int, skip: int): int
    decreases hi - lo
  {
    if hi <= lo then 0
    else SumSkipping(v, lo, hi - 1, skip) + (if hi - 1 == skip then 0 else At(v, hi - 1))
  }

  /** The guess of participant 0: everybody else's colours summed, mod `n`. */
  function ZeroGuess(n: int, v: seq<int>): (r: int)
    requires n >= 1
    ensures 0 <= r < n
  {
    Mod(Sum(v, 1, n), n)
  }

  /**
   * The guess of participant `i >= 1`: `v_0`, minus every `v_j` with
   * `1 <= j < n` and `j != i`, plus `i`, mod `n`.
   */
  function OtherGuess(n: int, i: int, v: seq<int>): (r: int)
    requires 1 <= i < n
    ensures 0 <= r < n
  {
    Mod(At(v, 0) - SumSkipping(v, 1, n, i) + i, n)
  }

  /** The guess function given to participant `i`; it is bound to its own `i`. */
  function GuessFor(n: int, i: int): Guess
    requires 0 <= i < n
  {
    if i == 0 then v => ZeroGuess(n, v) else v => OtherGuess(n, i, v)
  }

  /** The strategy `generateStrategy(n)` returns. */
  function Generated(n: int): (g: Strategy)
    requires n >= 1
    ensures |g| == n
  {
    seq(n, i requires 0 <= i < n => GuessFor(n, i))
  }

  /** Every generated guess is a colour in [0, n). */
  lemma GuessInRange(n: int, i: int, v: seq<int>)
    requires 0 <= i < n
    ensures 0 <= Generated(n)[i](v) < n
  {
    if i == 0 {
      assert Generated(n)[i](v) == ZeroGuess(n, v);
    } else {
      assert Generated(n)[i](v) == OtherGuess(n, i, v);
    }
  }

  /** The body of `g[0]`: a loop adding up `v[1] .. v[n-1]`, then `mod`. */
  method RunZeroGuess(n: int, v: seq<int>) returns (r: int)
    requires 1 <= n <= |v|
    ensures r == GuessFor(n, 0)(v)
  {
    var res := 0;
    for j := 1 to n
      invariant res == Sum(v, 1, j)
    {
      res := res + v[j];
    }
    r := Mod(res, n);
  }

  /** The body of `g[i]`: start from `v[0]`, subtract `v[j]` for each `j >= 1` except `i`, add `i`, `mod`. */
  method RunOtherGuess(n: int, i: int, v: seq<int>) returns (r: int)
    requires 1 <= i < n <= |v|
    ensures r == GuessFor(n, i)(v)
  {
    var res := v[0];
    var j := 1;
    while j < n
      invariant 1 <= j <= n
      invariant res == v[0] - SumSkipping(v, 1, j, i)
    {
      if j == i {
        j := j + 1;
        continue;
      }
      res := res - v[j];
      j := j + 1;
    }
    res := res + i;
    r := Mod(res, n);
  }

  /**
   * `generateStrategy`: fills a slice of `n` guesses, entry 0 with the sum
   * rule and entry `i >= 1` with the difference rule for its own `i`.
   */
  method GenerateStrategy(n: int) returns (g: Strategy)
    requires n >= 1
    ensures g == Generated(n)
  {
    var a := new Guess[n](_ => GuessFor(n, 0));
    a[0] := GuessFor(n, 0);
    for i := 1 to n
      invariant forall k :: 0 <= k < i ==> a[k] == GuessFor(n, k)
    {
      a[i] := GuessFor(n, i);
    }
    g := a[..];
  }

  /** Leaving out the term at `skip` subtracts exactly that term. */
  lemma {:induction false} SumSkippingIsSum(v: seq<int>, lo: int, hi: int, skip: int)
    requires lo <= skip < hi
    ensures SumSkipping(v, lo, hi, skip) == Sum(v, lo, hi) - At(v, skip)
    decreases hi - lo
  {
    if hi - 1 == skip {
      SumSkippingNoSkip(v, lo, hi - 1, skip);
    } else {
      SumSkippingIsSum(v, lo, hi - 1, skip);
    }
  }

  /** When `skip` lies outside the range, nothing is left out. */
  lemma {:induction false} SumSkippingNoSkip(v: seq<int>, lo: int, hi: int, skip: int)
    requires skip < lo || hi <= skip
    ensures SumSkipping(v, lo, hi, skip) == Sum(v, lo, hi)
    decreases hi - lo
  {
    if lo < hi {
      SumSkippingNoSkip(v, lo, hi - 1, skip);
    }
  }

  /** A sum does not read positions outside its range. */
  lemma {:induction false} SumIgnores(v: seq<int>, lo: int, hi: int, p: int, x: int)
    requires 0 <= p < |v| && (p < lo || hi <= p)
    ensures Sum(v[p := x], lo, hi) == Sum(v, lo, hi)
    decreases hi - lo
  {
    if lo < hi {
      SumIgnores(v, lo, hi - 1, p, x);
    }
  }

  /** A sum that skips `skip` does not read position `skip`. */
  lemma {:induction false} SumSkippingIgnores(v: seq<int>, lo: int, hi: int, skip: int, x: int)
    requires 0 <= skip < |v|
    ensures SumSkipping(v[skip := x], lo, hi, skip) == SumSkipping(v, lo, hi, skip)
    decreases hi - lo
  {
    if lo < hi {
      SumSkippingIgnores(v, lo, hi - 1, skip, x);
    }
  }

  /**
   * Guess `i` never reads position `i`: `g[0]` sums from index 1 and `g[i]`
   * skips `j == i`. So whatever stands there cannot change the guess.
   */
  lemma GuessIgnoresOwn(n: int, i: int, v: seq<int>, x: int)
    requires 0 <= i < n && i < |v|
    ensures Generated(n)[i](v[i := x]) == Generated(n)[i](v)
  {
    if i == 0 {
      SumIgnores(v, 1, n, 0, x);
      assert Generated(n)[i](v[i := x]) == ZeroGuess(n, v[i := x]);
      assert Generated(n)[i](v) == ZeroGuess(n, v);
    } else {
      SumSkippingIgnores(v, 1, n, i, x);
      assert At(v[i := x], 0) == At(v, 0);
      assert Generated(n)[i](v[i := x]) == OtherGuess(n, i, v[i := x]);
      assert Generated(n)[i](v) == OtherGuess(n, i, v);
    }
  }

  /** Hence pruning changes no generated guess on a full-length row. */
  lemma SentinelHarmless(n: int, i: int, a: seq<int>)
    requires 0 <= i < n == |a|
    ensures Generated(n)[i](Pruned(a, i, n)) == Generated(n)[i](a)
  {
    assert Pruned(a, i, n) == a[i := Sentinel];
    GuessIgnoresOwn(n, i, a, Sentinel);
  }

  /** The participant meant to be right: `(a_1 + ... + a_{n-1} - a_0) mod n`. */
  function Winner(a: seq<int>, n: int): (d: int)
    requires n >= 1
    ensures 0 <= d < n
  {
    Mod(Sum(a, 1, n) - At(a, 0), n)
  }

  /**
   * On every assignment, participant `i` of the generated strategy guesses
   * right exactly when `i` is `Winner(a, n)`: one and only one is right.
   */
  lemma GeneratedCorrectIff(a: seq<int>, n: int, i: int)
    requires n >= 1 && IsAssignment(a, n) && 0 <= i < n
    ensures Correct(a, Generated(n), n, i) <==> i == Winner(a, n)
  {
    SentinelHarmless(n, i, a);
    var s, a0, ai := Sum(a, 1, n), a[0], a[i];
    assert At(a, 0) == a0;
    ModEqIff(i, s - a0, n);
    if i == 0 {
      assert Generated(n)[i](a) == Mod(s, n);
      ModEqIff(a0, s, n);
    } else {
      SumSkippingIsSum(a, 1, n, i);
      assert At(a, i) == ai;
      var e := a0 - (s - ai) + i;
      assert Generated(n)[i](a) == Mod(e, n);
      ModEqIff(ai, e, n);
      assert e - ai == -((s - a0) - i);
      if Congruent(e, ai, n) {
        CongruentSymm(e, ai, n);
      }
      if Congruent(s - a0, i, n) {
        CongruentSymm(s - a0, i, n);
      }
    }
  }

  /** The generated strategy wins on every assignment, for every `n >= 1`. */
  lemma GeneratedWins(n: int)
    requires n >= 1
    ensures AllWin(Generated(n), n)
  {
    forall a | IsAssignment(a, n)
      ensures RowWins(a, Generated(n), n)
    {
      var d := Winner(a, n);
      GeneratedCorrectIff(a, n, d);
    }
  }
}
