# n-hats puzzle verifier, modelled in Dafny

`hats.go` checks strategies for the n-hats puzzle. Each of `n` participants
wears a hat of a colour in `0 .. n-1`. Everyone sees every hat except their
own. Everyone guesses their own colour at the same time, and the group wins
when at least one guess is right.

A *guess* maps the colour vector, with the guesser's own position hidden, to a
colour. A *strategy* holds one guess per participant. The program checks a
strategy by brute force:

- `prune` hides position `i` behind the sentinel `-1`;
- `checkRow` asks whether somebody guesses right on one assignment;
- `try` walks all `n^n` assignments with an in-place odometer, `next`, and
  stops at the first assignment nobody guesses.

The program also holds three hand-drawn strategies (`s2`, `s3`, `s3Alt`) and
`generateStrategy`, a closed form for any `n`. It reports `true` for every
strategy it checks.

The model has six modules:

- `Modulus`: Go's truncated `%` (`GoRem`) and the program's positive modulus
  `mod` (`Mod`), with their congruence facts. For `n > 0`, `Mod` is proved
  equal to Dafny's Euclidean `%`.
- `Row`: guesses are total functions `seq<int> -> int`.
  - `Prune` is a method on arrays, specified by the function `Pruned`.
  - `CheckRow` is the early-exit loop, proved to answer `RowWins`: some
    participant is `Correct`.
- `Odometer`: `Value`, the big-endian base-`n` value of a colour vector (the
  last position is the least significant).
  - `Next` is the in-place carry loop on an `array<int>`. It is proved to add
    exactly one to `Value`, or to report that the vector was all `n - 1` and is
    now all zeros.
- `Verifier`: `Try`, the do-while loop over the mutated array. It is proved to
  answer `AllWin`, meaning every assignment in `[0,n)^n` is a win.
  - A ghost trace of the rows it checked shows that it starts at all zeros and
    that row `k` has base-`n` value `k`. So no row is repeated or skipped.
  - On failure, the last row checked is the first losing one.
- `Generate`: `generateStrategy` and the two guess bodies, as loops proved
  against the functions `ZeroGuess` and `OtherGuess`.
  - Main theorem (`GeneratedCorrectIff`): on every assignment `a`,
    participant `i` is right exactly when `i == (a_1 + ... + a_{n-1} - a_0) mod n`.
  - So exactly one participant is right, and the strategy wins for every
    `n >= 1` (`GeneratedWins`). This is proved symbolically, without brute
    force.
- `Samples`: the strategies `s2`, `s3` and `s3Alt` as concrete inputs.
  - A winning rule is proved for each; `s3Alt` is the strategy generated for
    three.
  - `RunSamples` is the driver without its printing. It proves that all six
    calls to `try` return true.

## Model

| member | source | states |
|---|---|---|
| `Modulus.GoRem` | hats.go:62 | Go's `x % m` truncates toward zero: the result is smaller than `m` in magnitude and has the sign of `x` (or is zero) |
| `Modulus.GoRemCongruent` | hats.go:82 | `x` and Go's `x % m` differ by a multiple of `m` |
| `Modulus.GoRemNonNeg` | hats.go:62 | for a non-negative dividend and a positive divisor, Go's `%` is the Euclidean remainder |
| `Modulus.GoRemWrap` | hats.go:62 | `(c + 1) % n` for `c + 1` in `[0, n]` is `c + 1`, except that `n` wraps to 0 |
| `Modulus.Mod` | hats.go:81-83 | `mod(x, n)` lies in `[0, n)` for `n > 0` (and in `(n, 0]` for `n < 0`) |
| `Modulus.ModCongruent` | hats.go:81-83 | `mod(x, n)` is congruent to `x` modulo `abs(n)` |
| `Modulus.ModIsEuclidean` | hats.go:81-83 | for `n > 0`, `mod(x, n)` equals the Euclidean `x % n`, for negative `x` too |
| `Modulus.ModOfCongruent` | hats.go:81-83 | congruent arguments have the same `mod` |
| `Modulus.ModShift` | hats.go:81-83 | `mod(x + n, n) == mod(x, n)` |
| `Modulus.ModOfInRange` | hats.go:81-83 | `mod` leaves a value in `[0, n)` unchanged |
| `Modulus.ModEqIff` | hats.go:81-83 | for `c` in `[0, n)`: `c == mod(e, n)` exactly when `e - c` is a multiple of `n` |
| `Row.Pruned` | hats.go:30-35 | the view has length `n`, holds `-1` at `i` and agrees with `v` at every other index (zero past the end of a shorter `v`) |
| `Row.Prune` | hats.go:30-35 | returns a freshly allocated array equal to `Pruned(v, i, n)`; `v` is not modified, since the method has no modifies clause |
| `Row.CheckRow` | hats.go:37-44 | true exactly when some `i < n` has `strategy[i](prune(actual, i, n)) == actual[i]`; when true, it stopped at the first such `i` |
| `Odometer.ValueBounds` | hats.go:57-68 | a vector of colours in `[0, n)` has a base-`n` value in `[0, n^len)` |
| `Odometer.ValueInjective` | hats.go:57-78 | two colour vectors of the same length with the same value are equal, so each value names one assignment |
| `Odometer.ValueAllMax` | hats.go:60-68 | the all-`(n-1)` vector has the largest value, `n^m - 1` |
| `Odometer.ValueZeros` | hats.go:58 | the all-zero starting vector has value 0 |
| `Odometer.IncrementAt` | hats.go:61-65 | a carry that stops at position `i` adds exactly one to the value, and the old vector was not all `n - 1` |
| `Odometer.Next` | hats.go:60-68 | keeps every cell in `[0, n)`; answers true exactly when the old vector was not all `n - 1`, and then the value grew by exactly one; on false the vector is all zeros |
| `Verifier.AllVisitedAllWin` | hats.go:57-78 | if the rows with values `0 .. n^n - 1` all win, then every assignment wins |
| `Verifier.Try` | hats.go:57-78 | true exactly when every assignment in `[0,n)^n` is a win; the rows checked start at all zeros and row `k` has value `k`; on true all `n^n` were checked; on false every earlier row won and the last one lost |
| `Generate.ZeroGuess` | hats.go:149-155 | the guess of participant 0 is a colour in `[0, n)` |
| `Generate.OtherGuess` | hats.go:158-168 | the guess of participant `i >= 1` is a colour in `[0, n)` |
| `Generate.Generated` | hats.go:147-171 | the strategy holds exactly `n` guesses |
| `Generate.GuessInRange` | hats.go:147-171 | every generated guess returns a colour in `[0, n)` |
| `Generate.RunZeroGuess` | hats.go:149-155 | the summing loop of `g[0]` computes the guess `GuessFor(n, 0)` |
| `Generate.RunOtherGuess` | hats.go:158-168 | the loop of `g[i]`, with its `continue` at `j == i`, computes `GuessFor(n, i)` for its own `i` |
| `Generate.GenerateStrategy` | hats.go:147-171 | returns exactly `Generated(n)`: entry 0 is the sum rule and entry `i >= 1` the difference rule bound to its own `i` |
| `Generate.SumSkippingIsSum` | hats.go:160-165 | the sum that skips `j == i` is the full sum minus `v[i]` |
| `Generate.GuessIgnoresOwn` | hats.go:147-171 | guess `i` never reads position `i`: writing anything there leaves the guess unchanged |
| `Generate.SentinelHarmless` | hats.go:147-171 | so pruning changes no generated guess on a full row |
| `Generate.Winner` | hats.go:144-146 | the selected participant `(a_1 + ... + a_{n-1} - a_0) mod n` is in `[0, n)` |
| `Generate.GeneratedCorrectIff` | hats.go:144-171 | on every assignment, participant `i` of the generated strategy is right exactly when `i` is `Winner(a, n)` |
| `Generate.GeneratedWins` | hats.go:132-141 | the generated strategy wins on every assignment, for every `n >= 1` |
| `Samples.S2` | hats.go:86-93 | `s2` has one guess for each of the two participants |
| `Samples.S3` | hats.go:97-110 | `s3` has one guess for each of the three participants |
| `Samples.S3Alt` | hats.go:115-128 | `s3Alt` has one guess for each of the three participants |
| `Samples.S2CorrectIff` | hats.go:86-93 | with `s2`, participant 0 is right exactly when `a0 == a1`, and participant 1 exactly when they differ |
| `Samples.S2Wins` | hats.go:86-94 | `s2` wins on every assignment of size 2 |
| `Samples.S3CorrectA` | hats.go:98-101 | participant A of `s3` is right exactly when `(A + B - C - 1) mod 3` is 0 |
| `Samples.S3CorrectB` | hats.go:102-105 | participant B of `s3` is right exactly when `(A + B - C - 1) mod 3` is 1 |
| `Samples.S3CorrectC` | hats.go:106-109 | participant C of `s3` is right exactly when `(A + B - C - 1) mod 3` is 2 |
| `Samples.S3CorrectIff` | hats.go:97-110 | participant `i` of `s3` is right exactly when `i == (A + B - C - 1) mod 3`, so `A + B - C` selects the winner |
| `Samples.S3Wins` | hats.go:97-111 | `s3` wins on every assignment of size 3 |
| `Samples.S3AltIsGenerated` | hats.go:115-128 | every guess of `s3Alt` agrees, on every input, with the guess `generateStrategy(3)` produces |
| `Samples.S3AltCorrectIff` | hats.go:115-128 | participant `i` of `s3Alt` is right exactly when `i == (B + C - A) mod 3`, so `A - B - C` selects the winner |
| `Samples.S3AltWins` | hats.go:115-129 | `s3Alt` wins on every assignment of size 3 |
| `Samples.RunSamples` | hats.go:85-142 | all six calls to `try` in the driver return true |

## Left out

- `printRow` and all console output (`fmt.Print`, `fmt.Println`) in `try` and
  in `main` are left out, because they are diagnostics only. `printRow` even
  evaluates guesses on the unpruned row, which does not affect the verdict.
- `main` as a program is left out. `RunSamples` keeps its six calls to `try` and
  proves their results instead of printing them.
- Guesses are total functions: reading past the end of a view gives 0 in the
  model, where Go would panic. This never happens, because `checkRow` always
  passes a view of length `n` and every strategy here reads only indices
  below `n`.
- Go closures are modelled as Dafny function values. The only capture
  mechanics kept are that `g[i]` is bound to its own `i` and that `n` is fixed
  when the strategy is built.
- `GenerateStrategy` requires `n >= 1`: with `n <= 0` the program fails while
  building the slice. `Try` accepts `n == 0` and then returns false, because
  nobody wins the single empty row, just as in the program.
- Running time is not modelled. Nothing here enumerates `7^7` assignments;
  `GeneratedWins` is proved for all `n` at once.
- Integer overflow is not modelled. The colour sums are proved on unbounded
  integers; in Go they stay far below 64 bits for any `n` the program can
  enumerate.
