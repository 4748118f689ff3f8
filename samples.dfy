/**
 * The strategies the driver checks: two drawn by hand for three participants,
 * one for two, and the generated ones for 3, 4 and 7.
 */
module Samples {
  import opened Modulus
  import opened Row
  import opened Odometer
  import opened Verifier
  import opened Generate

  /** For two, participant 0 says the other's colour ... */
  function S2Guess0(v: seq<int>): int {
    At(v, 1)
  }

  /** ... and participant 1 says the other colour than the one it sees. */
  function S2Guess1(v: seq<int>): int {
    GoRem(At(v, 0) + 1, 2)
  }

  function S2(): (s: Strategy)
    ensures |s| == 2
  {
    [S2Guess0, S2Guess1]
  }

  /** Drawn by hand for three: g_A = C - B + 1, g_B = C - A + 2, g_C = A + B (mod 3). */
  function S3GuessA(v: seq<int>): int {
    Mod(At(v, 2) - At(v, 1) + 1, 3)
  }

  function S3GuessB(v: seq<int>): int {
    Mod(At(v, 2) - At(v, 0) + 2, 3)
  }

  function S3GuessC(v: seq<int>): int {
    Mod(At(v, 0) + At(v, 1), 3)
  }

  function S3(): (s: Strategy)
    ensures |s| == 3
  {
    [S3GuessA, S3GuessB, S3GuessC]
  }

  /** The alternative for three: g_A = B + C, g_B = A - C + 1, g_C = A - B + 2 (mod 3). */
  function S3AltGuessA(v: seq<int>): int {
    Mod(At(v, 1) + At(v, 2), 3)
  }

  function S3AltGuessB(v: seq<int>): int {
    Mod(At(v, 0) - At(v, 2) + 1, 3)
  }

  function S3AltGuessC(v: seq<int>): int {
    Mod(At(v, 0) - At(v, 1) + 2, 3)
  }

  function S3Alt(): (s: Strategy)
    ensures |s| == 3
  {
    [S3AltGuessA, S3AltGuessB, S3AltGuessC]
  }

  /** With two participants, 0 is right on equal colours and 1 on different ones. */
  lemma {:induction false} S2CorrectIff(a: seq<int>)
    requires IsAssignment(a, 2)
    ensures Correct(a, S2(), 2, 0) <==> a[0] == a[1]
    ensures Correct(a, S2(), 2, 1) <==> a[0] != a[1]
  {
    assert Pruned(a, 0, 2) == [Sentinel, a[1]];
    assert Pruned(a, 1, 2) == [a[0], Sentinel];
    GoRemWrap(a[0] + 1, 2);
  }

  lemma S2Wins()
    ensures AllWin(S2(), 2)
  {
    forall a | IsAssignment(a, 2)
      ensures RowWins(a, S2(), 2)
    {
      S2CorrectIff(a);
      if a[0] == a[1] {
        assert Correct(a, S2(), 2, 0);
      } else {
        assert Correct(a, S2(), 2, 1);
      }
    }
  }

  /** What the three participants see of a row of three. */
  lemma ViewsOfThree(a: seq<int>)
    requires |a| == 3
    ensures At(Pruned(a, 0, 3), 1) == a[1] && At(Pruned(a, 0, 3), 2) == a[2]
    ensures At(Pruned(a, 1, 3), 0) == a[0] && At(Pruned(a, 1, 3), 2) == a[2]
    ensures At(Pruned(a, 2, 3), 0) == a[0] && At(Pruned(a, 2, 3), 1) == a[1]
  {
  }

  /**
   * What each participant of `S3` says on a row of three, and whether that
   * is its own colour, stated through the selector `A + B - C - 1`.
   */
  lemma S3CorrectA(a: seq<int>)
    requires IsAssignment(a, 3)
    ensures Correct(a, S3(), 3, 0) <==> 0 == Mod(a[0] + a[1] - a[2] - 1, 3)
  {
    ViewsOfThree(a);
    var x, y, z := a[0], a[1], a[2];
    assert S3()[0](Pruned(a, 0, 3)) == Mod(z - y + 1, 3);
    S3Match(x, z - y + 1, 0, x + y - z - 1);
  }

  lemma S3CorrectB(a: seq<int>)
    requires IsAssignment(a, 3)
    ensures Correct(a, S3(), 3, 1) <==> 1 == Mod(a[0] + a[1] - a[2] - 1, 3)
  {
    ViewsOfThree(a);
    var x, y, z := a[0], a[1], a[2];
    assert S3()[1](Pruned(a, 1, 3)) == Mod(z - x + 2, 3);
    S3Match(y, z - x + 2, 1, x + y - z - 1);
  }

  lemma S3CorrectC(a: seq<int>)
    requires IsAssignment(a, 3)
    ensures Correct(a, S3(), 3, 2) <==> 2 == Mod(a[0] + a[1] - a[2] - 1, 3)
  {
    ViewsOfThree(a);
    var x, y, z := a[0], a[1], a[2];
    assert S3()[2](Pruned(a, 2, 3)) == Mod(x + y, 3);
    S3Match(z, x + y, 2, x + y - z - 1);
  }

  /**
   * The arithmetic behind `S3CorrectIff`, one participant at a time: guess
   * `c` of a participant matches its colour `x` exactly when the selector
   * `s` has that participant's value `k`.
   */
  lemma S3Match(x: int, e: int, k: int, s: int)
    requires 0 <= x < 3 && 0 <= k < 3
    requires e - x == k - s || e - x == s - k + 3
    ensures x == Mod(e, 3) <==> k == Mod(s, 3)
  {
    ModIsEuclidean(e, 3);
    ModIsEuclidean(s, 3);
    S3Rem(x, e, k, s);
  }

  /** `S3Match` with Dafny's `%`. */
  lemma S3Rem(x: int, e: int, k: int, s: int)
    requires 0 <= x < 3 && 0 <= k < 3
    requires e - x == k - s || e - x == s - k + 3
    ensures x == e % 3 <==> k == s % 3
  {
  }

  /**
   * For `S3`, `A + B - C (mod 3)` selects the one who is right: C when it is
   * 0, A when it is 1, B when it is 2. So participant `i` is right exactly
   * when `i == (A + B - C - 1) mod 3`.
   */
  lemma {:induction false} S3CorrectIff(a: seq<int>, i: int)
    requires IsAssignment(a, 3) && 0 <= i < 3
    ensures Correct(a, S3(), 3, i) <==> i == Mod(a[0] + a[1] - a[2] - 1, 3)
  {
    if i == 0 {
      S3CorrectA(a);
    } else if i == 1 {
      S3CorrectB(a);
    } else {
      S3CorrectC(a);
    }
  }

  lemma S3Wins()
    ensures AllWin(S3(), 3)
  {
    forall a | IsAssignment(a, 3)
      ensures RowWins(a, S3(), 3)
    {
      var w := Mod(a[0] + a[1] - a[2] - 1, 3);
      S3CorrectIff(a, w);
    }
  }

  /**
   * For `S3Alt`, `A - B - C (mod 3)` selects the one who is right: A when it
   * is 0, C when it is 1, B when it is 2. So participant `i` is right exactly
   * when `i == (B + C - A) mod 3`, the rule of the generated strategy.
   */
  lemma {:induction false} S3AltCorrectIff(a: seq<int>, i: int)
    requires IsAssignment(a, 3) && 0 <= i < 3
    ensures Correct(a, S3Alt(), 3, i) <==> i == Mod(a[1] + a[2] - a[0], 3)
  {
    S3AltIsGenerated(i, Pruned(a, i, 3));
    assert Correct(a, S3Alt(), 3, i) <==> Correct(a, Generated(3), 3, i);
    GeneratedCorrectIff(a, 3, i);
    assert Sum(a, 1, 3) - At(a, 0) == a[1] + a[2] - a[0];
  }

  /** `S3Alt` is, guess by guess, the strategy generated for three. */
  lemma S3AltIsGenerated(i: int, v: seq<int>)
    requires 0 <= i < 3
    ensures S3Alt()[i](v) == Generated(3)[i](v)
  {
    if i == 0 {
      assert Generated(3)[i](v) == Mod(Sum(v, 1, 3), 3);
    } else if i == 1 {
      assert Generated(3)[i](v) == Mod(At(v, 0) - SumSkipping(v, 1, 3, 1) + 1, 3);
    } else {
      assert Generated(3)[i](v) == Mod(At(v, 0) - SumSkipping(v, 1, 3, 2) + 2, 3);
    }
  }

  lemma S3AltWins()
    ensures AllWin(S3Alt(), 3)
  {
    forall a | IsAssignment(a, 3)
      ensures RowWins(a, S3Alt(), 3)
    {
      var w := Mod(a[1] + a[2] - a[0], 3);
      S3AltCorrectIff(a, w);
    }
  }

  /**
   * The driver without its printing: every one of the six checks it runs
   * reports true.
   */
  method RunSamples() returns (r2: bool, r3: bool, r3Alt: bool, r3Gen: bool, r4: bool, r7: bool)
    ensures r2 && r3 && r3Alt && r3Gen && r4 && r7
  {
    ghost var rows: seq<seq<int>>;
    S2Wins();
    r2, rows := Try(S2(), 2);
    S3Wins();
    r3, rows := Try(S3(), 3);
    S3AltWins();
    r3Alt, rows := Try(S3Alt(), 3);
    var s3Gen := GenerateStrategy(3);
    GeneratedWins(3);
    r3Gen, rows := Try(s3Gen, 3);
    var s4 := GenerateStrategy(4);
    GeneratedWins(4);
    r4, rows := Try(s4, 4);
    var s7 := GenerateStrategy(7);
    GeneratedWins(7);
    r7, rows := Try(s7, 7);
  }
}
