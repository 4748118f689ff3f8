/**
 * `try`: run `checkRow` over every assignment in odometer order and stop at
 * the first one nobody guesses.
 */
module Verifier {
  import opened Row
  import opened Odometer

  /** The strategy wins in every possible world of `n` participants. */
  ghost predicate AllWin(strategy: Strategy, n: int)
    requires 0 <= n <= |strategy|
  {
    forall a :: IsAssignment(a, n) ==> RowWins(a, strategy, n)
  }

  /**
   * Every assignment is one of the first `n^n` in odometer order: if the rows
   * with values 0 .. n^n - 1 all win, the strategy wins everywhere.
   */
  lemma {:induction false} AllVisitedAllWin(strategy: Strategy, n: int, visited: seq<seq<int>>)
    requires 0 <= n <= |strategy|
    requires |visited| == Pow(n, n)
    requires forall k :: 0 <= k < |visited| ==>
      IsAssignment(visited[k], n) && Value(visited[k], n) == k && RowWins(visited[k], strategy, n)
    ensures AllWin(strategy, n)
  {
    forall a | IsAssignment(a, n)
      ensures RowWins(a, strategy, n)
    {
      ValueBounds(a, n);
      var k := Value(a, n);
      ValueInjective(a, visited[k], n);
    }
  }

  /**
   * `try`. The result is true exactly when the strategy wins in every world.
   * The ghost `visited` lists the rows handed to `checkRow`, in order: row `k`
   * is the assignment whose base-`n` value is `k`, so the enumeration starts at
   * all zeros and never repeats or skips a row. On success all `n^n` rows were
   * checked; on failure the last row checked is the first losing one.
   */
  method Try(strategy: Strategy, n: int) returns (ok: bool, ghost visited: seq<seq<int>>)
    requires 0 <= n <= |strategy|
    ensures ok <==> AllWin(strategy, n)
    ensures 1 <= |visited| <= Pow(n, n)
    ensures forall k :: 0 <= k < |visited| ==> IsAssignment(visited[k], n) && Value(visited[k], n) == k
    ensures visited[0] == Const(0, n)
    ensures forall k :: 0 <= k < |visited| - 1 ==> RowWins(visited[k], strategy, n)
    ensures ok ==> |visited| == Pow(n, n)
    ensures !ok ==> !RowWins(visited[|visited| - 1], strategy, n)
  {
    var cur := new int[n](_ => 0);
    ValueZeros(n, n);
    assert cur[..] == Const(0, n);
    if n > 0 {
      PowPositive(n, n);
    }
    visited := [];
    var more := true;
    // do-while: the all-zero row is checked before the first call to next
    while more
      invariant cur.Length == n && InRange(cur[..], n)
      invariant more ==> Value(cur[..], n) == |visited|
      invariant !more ==> |visited| == Pow(n, n)
      invariant |visited| <= Pow(n, n)
      invariant |visited| == 0 ==> more && cur[..] == Const(0, n)
      invariant visited != [] ==> visited[0] == Const(0, n)
      invariant forall k :: 0 <= k < |visited| ==>
        IsAssignment(visited[k], n) && Value(visited[k], n) == k && RowWins(visited[k], strategy, n)
      decreases Pow(n, n) - |visited| + (if more then 1 else 0)
    {
      ValueBounds(cur[..], n);
      var wins, _ := CheckRow(cur, strategy, n);
      visited := visited + [cur[..]];
      if !wins {
        ok := false;
        return;
      }
      more := Next(cur, n);
      if !more {
        ValueAllMax(n, n);
      }
    }
    AllVisitedAllWin(strategy, n, visited);
    ok := true;
  }
}
