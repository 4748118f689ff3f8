/**
 * One possible world and the check of a strategy against it: `prune` hides a
 * participant's own hat, `checkRow` asks whether somebody guesses right.
 */
module Row {

  /** A participant's guess: from the (pruned) colour vector to a colour. */
  type Guess = seq<int> -> int

  /** One guess per participant; index `i` belongs to participant `i`. */
  type Strategy = seq<Guess>

  /** The value written over a participant's own position before it guesses. */
  const Sentinel: int := -1

  /**
   * Element `j` of `v`, and 0 past either end. Guesses are total functions, so
   * a read that would be out of range in the program reads 0 here.
   */
  function At(v: seq<int>, j: int): int {
    if 0 <= j < |v| then v[j] else 0
  }

  /**
   * The view participant `i` gets of `v`: a fresh vector of length `n` holding
   * the first `n` values of `v` (zeros where `v` is shorter, as a copy into a
   * zeroed slice leaves them), with `Sentinel` at position `i`.
   */
  function Pruned(v: seq<int>, i: int, n: int): (u: seq<int>)
    requires 0 <= i < n
    ensures |u| == n && u[i] == Sentinel
    ensures forall k :: 0 <= k < n && k != i ==> u[k] == At(v, k)
  {
    seq(n, k => At(v, k))[i := Sentinel]
  }

  /** Participant `i` guesses its own colour in `actual` from its pruned view. */
  predicate Correct(actual: seq<int>, strategy: Strategy, n: int, i: int)
    requires 0 <= i < n <= |actual| && n <= |strategy|
  {
    strategy[i](Pruned(actual, i, n)) == actual[i]
  }

  /** Some participant guesses right: the row is a win. */
  predicate RowWins(actual: seq<int>, strategy: Strategy, n: int)
    requires 0 <= n <= |actual| && n <= |strategy|
  {
    exists i :: 0 <= i < n && Correct(actual, strategy, n, i)
  }

  /**
   * `prune`: a newly allocated array of length `n` that copies `v` and then
   * holds the sentinel at position `i`; `v` itself is left alone.
   */
  method Prune(v: array<int>, i: int, n: int) returns (u: array<int>)
    requires 0 <= i < n
    ensures fresh(u)
    ensures u.Length == n && u[i] == Sentinel
    ensures forall k :: 0 <= k < n && k != i ==> u[k] == At(v[..], k)
    ensures u[..] == Pruned(v[..], i, n)
  {
    u := new int[n](_ => 0);
    // copy(u, v) copies min(len(u), len(v)) elements
    var m := if v.Length < n then v.Length else n;
    for k := 0 to m
      invariant forall j :: 0 <= j < k ==> u[j] == v[j]
      invariant forall j :: m <= j < n ==> u[j] == 0
    {
      u[k] := v[k];
    }
    u[i] := Sentinel;
    assert u[..] == Pruned(v[..], i, n);
  }

  /**
   * `checkRow`: tries participants 0, 1, ... in turn and stops at the first one
   * that guesses right. The result is true exactly when the row is a win; the
   * ghost `who` is the participant it stopped at, and nobody before it was right.
   */
  method CheckRow(actual: array<int>, strategy: Strategy, n: int) returns (ok: bool, ghost who: int)
    requires 0 <= n <= actual.Length && n <= |strategy|
    ensures ok <==> RowWins(actual[..], strategy, n)
    ensures ok ==> 0 <= who < n && Correct(actual[..], strategy, n, who)
    ensures ok ==> forall j :: 0 <= j < who ==> !Correct(actual[..], strategy, n, j)
  {
    for i := 0 to n
      invariant forall j :: 0 <= j < i ==> !Correct(actual[..], strategy, n, j)
    {
      var u := Prune(actual, i, n);
      if actual[i] == strategy[i](u[..]) {
        assert Correct(actual[..], strategy, n, i);
        return true, i;
      }
    }
    return false, n;
  }
}
