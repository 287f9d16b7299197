# Rank-list optimizer core in Dafny

This project models the ranking core of a small resident-to-track scheduler
(`src/rank.rs`). There are N residents and N tracks. The resident at
zero-based position `p` of the working vector holds track `p + 1`. Each
resident ranks the tracks, most preferred first. A resident pays the square
of the zero-based rank of the track it holds. Two residents are exchanged
when that strictly lowers their combined cost.

Files:

- `rank.dfy`, module `Rank`: the `Resident` datatype and the record split.
  The scorer (`ElementToTrack`, `FindPosition`, `GetTrackPosition`,
  `Score`), the pair generator, and the swap-acceptance step on an `array`.
  It also defines the total objective (the sum of every resident's score at
  its own position) and proves how an accepted swap changes it.
- `optimizer.dfy`, module `Optimizer`: a sweep-until-stable driver. The
  source calls `optimize` at `src/main.rs:5`, but `src/rank.rs` does not
  define it, so this driver is reconstructed from the algorithm in the
  header comment of `src/rank.rs` (lines 1-10), not from code. It offers every pair in
  lexicographic order to the swap step. It repeats until a sweep makes no
  swap. It is proved to terminate, to end in a local optimum, and to permute
  the residents.

Panics in the source are modelled as preconditions. These are `unwrap` on a
missing track, `i32::try_from` on large positions, and indexing out of
bounds. The iterator search `position` is modelled as a function returning
an `Option`.

The header comment calls the objective "the sum of the ranks". The code
compares sums of squared ranks (`score`). The model follows the code.

## Model

| member | source | states |
|---|---|---|
| `Rank.FromRecord` | src/rank.rs:22-32 | field 0 becomes the id; the remaining fields, in order, become the rank list (so `[id] + rankList` is the record); an empty record is refused, as reading field 0 panics |
| `Rank.ElementToTrack` | src/rank.rs:35-37 | defined only when the position and its successor fit an i32; the track is then a positive i32 |
| `Rank.FindPosition` | src/rank.rs:39 | the search finds something iff the track is on the list, and then it returns the first index holding it |
| `Rank.GetTrackPosition` | src/rank.rs:38-40 | for a track on the list, returns the first index holding it; a missing track is a caller error (the unwrap panics) |
| `Rank.Score` | src/rank.rs:42-46 | the score is a natural number, and it is zero exactly when track `element + 1` is the resident's first choice |
| `Rank.ScoreIsSquaredFirstIndex` | src/rank.rs:42-46 | if `k` is the first index of track `element + 1`, the score is `k * k` |
| `Rank.ScoreOfRank` | src/rank.rs:98-99 | on a rank list without repeats, the track at rank `k` scores `k * k` (0, 1, 4, 9, ...) |
| `Rank.ScoreExamples` | src/rank.rs:97-105 | for rank list `[2, 1, 3]` the scores at positions 0, 1, 2 are 1, 0, 4 |
| `Rank.GenerateUniquePairs` | src/rank.rs:58-66 | the result holds exactly the pairs `(i, j)` with `i < j < n`, in strictly increasing lexicographic order, with no duplicates, and there are `n * (n - 1) / 2` of them |
| `Rank.Swapped` | src/rank.rs:75 | exchanging positions `i` and `j` keeps the length, puts each resident in the other's place, keeps every other position, and keeps the multiset of residents |
| `Rank.SwapResidentsIfBetter` | src/rank.rs:67-79 | returns true iff the crossed scores sum strictly below the current ones; the array is then the swapped sequence, and otherwise it is unchanged (ties included) |
| `Rank.ObjectivePrefixDiffers` | src/rank.rs:68-73 | two placements that agree outside positions `i` and `j` have objective prefix sums that differ only by the terms at `i` and `j` |
| `Rank.ObjectiveAfterSwap` | src/rank.rs:68-76 | exchanging `i` and `j` changes the total objective by exactly the new pair cost minus the old pair cost, so an accepted swap strictly lowers it |
| `Rank.CrossedFirstChoicesAreSwapped` | src/rank.rs:121-137 | when each of two residents ranks first the track the other holds, the swap is accepted |
| `Rank.HeldFirstChoicesAreKept` | src/rank.rs:139-154 | when both residents already hold their first choice, the swap is refused |
| `Rank.TieIsNotSwapped` | src/rank.rs:74 | two residents with the same rank list tie before and after the exchange, so it is refused |
| `Optimizer.LocallyOptimalIffNoPairImproves` | src/rank.rs:5-8 | when the pairs list exactly the `(i, j)` with `i < j`, no pair improving the placement is the same as the placement being a local optimum |
| `Optimizer.PassProperties` | src/rank.rs:5-7 | one sweep keeps the residents complete and a permutation; it swaps iff some pair improves the starting placement; a sweep that swaps strictly lowers the objective; a sweep without a swap leaves the placement unchanged |
| `Optimizer.Sweep` | src/rank.rs:5-7 | the in-place sweep leaves the array as the `Pass` function describes and reports whether it swapped (reconstructed from the comment) |
| `Optimizer.Optimize` | src/rank.rs:1-10 | the driver terminates; it sweeps the pairs `(i, j)` with `i < j < n` in lexicographic order, and its final placement is exactly the one that repeated sweeps (`Converge`) reach from the input; that placement is a locally optimal permutation of the input with no larger objective, and an already locally optimal input is left unchanged (reconstructed from the comment) |

## Left out

- `read_csv` (src/rank.rs:48-57): reading standard input with a CSV library and printing are I/O.
- Rank.FromRecord: the record arrives already parsed as integers. The string-to-i32 parsing and its panic on a malformed field are a library call, so they are not modelled.
- `src/main.rs`: process entry that only sequences calls.
- `optimize`, `assign_tracks` and `print_residents`: `src/main.rs:5-7` calls them, but `src/rank.rs` does not define them. `Optimizer.Optimize` is reconstructed from the header comment instead. Nothing stands in for `assign_tracks` or `print_residents`.
- Optimizer.Optimize: step 3 of the header comment (src/rank.rs:6-7) can also be read as restarting the pair enumeration right after every swap. The driver instead finishes each pass, so later pairs see earlier swaps. Termination, local optimality, permutation and the objective not growing hold under either reading, but the two readings can end in different final orders. The exact final placement (`Converge`) is stated only for the pass-finishing reading.
- Optimizer.Optimize: requires every rank list to name every track 1..N (`Complete`). This is so that no lookup of the reconstructed driver can panic. The source itself never validates this.
- Rank.Score: the square is taken over unbounded integers. The source's i32 product overflows once a rank exceeds 46340, and the model does not capture that.
- Rank.SwapResidentsIfBetter: the two pair sums (src/rank.rs:70, 73) are unbounded integers. The source adds them as i32, which overflows whenever the two squared ranks sum past i32::MAX, for example both at 32768 (32768² + 32768² = 2^31). A checked build then panics, and a release build wraps, which can flip the comparison. The model captures neither.
- Rank.GetTrackPosition: returns the index as a natural number. The source's `as i32` cast would wrap indices of 2^31 and above.
- Rank.ElementToTrack: models the checked build's panic on `i32::MAX + 1`. It does not model the wrap-around of a release build.
- The swap unit tests (src/rank.rs:121-154) are stated as lemmas over all residents with the tested shape, not as the concrete two-resident vectors. The plain `Vec::swap` test (src/rank.rs:107-119) is covered by `Rank.Swapped`.
- The commented-out seat tests (src/rank.rs:157-172) are unrelated dead code.
