# Hungarian algorithm, modelled and verified in Dafny

This project models `HungarianAlgorithm`, a Kotlin class that solves the
square assignment problem. For a square cost matrix it chooses one cell per
column, in pairwise distinct rows, so that the total cost is as small as
possible. The class copies the matrix into a working array and keeps five
integer arrays beside it:

- the matching ("squares"): `squareInRow` and `squareInCol`;
- the cover flags of rows and columns: `rowIsCovered` and `colIsCovered`;
- the primed zeros: `staredZeroesInRow`.

Its steps update these arrays in place:

- reduction (step 1);
- first-fit squaring of zeros (step 2);
- covering the matched columns (step 3);
- searching for and priming an uncovered zero (step 4);
- augmenting along the chain of primes and squares (step 6);
- adjusting by the smallest uncovered entry (step 7).

The main loop runs until every column is covered, then reports, for every
column k, the pair (k, row matched to k).

In the model, `HungarianAlgorithm` is a Dafny class:

- The working matrix is an `array2<int>`.
- The five index arrays are `array<int>` fields.
- Every step is a method with a `modifies` clause.
- Each loop of the source is a loop with invariants, or a small method
  wrapping one loop.
- Each method is proved against specification functions on sequences:
  - `Reduction.Reduce` for step 1;
  - `Matching.FirstFit` for step 2;
  - `Adjustment.Adjust` and `Adjustment.MinUncovered` for step 7;
  - `Matching.Augmented` and `Matching.Flip` for step 6.

The properties proved about those functions are:

- Reduction and adjustment are shifts of the matrix by row and column
  amounts (`Matrices.Shift`). Each keeps every entry non-negative and
  changes the cost of every permutation by the same constant.
- The search keeps a phase invariant (`Covering.PhaseInv`): a consistent
  matching on zeros, covers that match the matched and primed rows, and
  primes in uncovered columns.
- Augmentation keeps the matching consistent and on zeros, and grows it
  by exactly one.
- The main loop terminates. Each pass either grows the matching or keeps
  it and covers one more row.
- The reported rows form a permutation of minimal total cost in the input
  matrix (`FindOptimalAssignment`). Ghost row and column potentials carry
  the shift from the input matrix to the working matrix.

The modules are:

| file | module | content |
|---|---|---|
| `matrices.dfy` | `Matrices` | sums, square matrices, permutations, cost, shifts, optimality of zero cells |
| `reduction.dfy` | `Reduction` | step 1 as functions, with its properties |
| `adjustment.dfy` | `Adjustment` | step 7 as functions, with its properties |
| `matching.dfy` | `Matching` | matchings, first-fit squaring, alternating paths and their flipping |
| `covering.dfy` | `Covering` | the phase invariant and how each step keeps it |
| `hungarian.dfy` | `Hungarian` | the class `HungarianAlgorithm` and its methods |

## Model

| member | source | states |
|---|---|---|
| Hungarian.HungarianAlgorithm.constructor | HungarianAlgorithm.kt:16-39 | the working matrix is a copy of the input; all six arrays are freshly allocated and have its size; nothing is matched, covered or primed |
| Hungarian.Create | HungarianAlgorithm.kt:16-24 | construction is refused (None) exactly when the row count differs from the length of the first row; otherwise a fresh, valid solver, with freshly allocated arrays, holds a copy of the input |
| Hungarian.Fill | HungarianAlgorithm.kt:36-38 | every entry of the array is set to the given value |
| Hungarian.HungarianAlgorithm.FindOptimalAssignment | HungarianAlgorithm.kt:44-74 | the result has one pair (k, r) per column k; the rows r form a permutation; its cost in the original matrix is at most that of every other permutation |
| Hungarian.HungarianAlgorithm.StartSearch | HungarianAlgorithm.kt:45-47 | after steps 1-3 the working matrix is the original shifted by its row minima and by the column minima of the row-reduced matrix; the phase invariant holds; either some column is unmatched or every column is covered |
| Hungarian.HungarianAlgorithm.Search | HungarianAlgorithm.kt:49-66 | the main loop ends with every column covered, keeps the phase invariant and keeps the matrix a shift of the original; it terminates because the matching grows or, with the matching unchanged, the covered rows grow |
| Hungarian.HungarianAlgorithm.SearchStep | HungarianAlgorithm.kt:50-65 | one pass keeps the invariant and the shift, and either grows the matching or keeps it and covers one more row |
| Hungarian.HungarianAlgorithm.FindUncoveredZero | HungarianAlgorithm.kt:50-56 | the inner loop ends with the first zero in row-major order whose row and column are uncovered, primed; only that prime changed; the matrix is either unchanged or `Adjust` of it under the current covers; the invariant and the shift hold |
| Hungarian.HungarianAlgorithm.AdjustAndSearch | HungarianAlgorithm.kt:53-56 | while a column is unmatched and no uncovered zero exists, the matrix becomes `Adjust` of it under the current covers, and the search that follows always finds and primes the first uncovered zero in row-major order |
| Hungarian.HungarianAlgorithm.AugmentAndCover | HungarianAlgorithm.kt:58-60 | a prime in an unmatched row leads to augmentation and covering: the new matching is the old one flipped along an alternating path that starts at that prime; a new phase starts with one more matched column |
| Hungarian.HungarianAlgorithm.BeginPhase | HungarianAlgorithm.kt:131-135 | covering the matched columns, with no row covered and nothing primed, starts a phase: the invariant holds, and either some column is unmatched or every column is covered |
| Hungarian.HungarianAlgorithm.CoverRowAndAdjust | HungarianAlgorithm.kt:61-65 | a prime in a matched row covers that row, uncovers its matched column, and the matrix becomes `Adjust` of it under those new covers; the matching is unchanged, one more row is covered, the invariant and the shift hold |
| Hungarian.HungarianAlgorithm.CoverRow | HungarianAlgorithm.kt:62-63 | exactly row i becomes covered and its matched column uncovered; the invariant holds for the new prime; the covered count grows by one |
| Hungarian.HungarianAlgorithm.Assignment | HungarianAlgorithm.kt:68-73 | a fresh array whose k-th entry is (k, squareInCol[k]) |
| Hungarian.HungarianAlgorithm.AllColumnsAreCovered | HungarianAlgorithm.kt:76-83 | true exactly when no column flag is 0 |
| Hungarian.HungarianAlgorithm.Step1 | HungarianAlgorithm.kt:91-105 | the working matrix becomes `Reduce` of the old one |
| Hungarian.HungarianAlgorithm.SubtractRowMinimaInPlace | HungarianAlgorithm.kt:92-97 | every row loses its own minimum |
| Hungarian.HungarianAlgorithm.SubtractFromRow | HungarianAlgorithm.kt:94-96 | every entry of row i decreases by x; every other entry is unchanged |
| Hungarian.HungarianAlgorithm.SubtractColumnMinimaInPlace | HungarianAlgorithm.kt:99-104 | every column loses its own minimum (taken after the row pass) |
| Hungarian.HungarianAlgorithm.SubtractFromColumn | HungarianAlgorithm.kt:101-103 | every entry of column j decreases by x; every other entry is unchanged |
| Hungarian.HungarianAlgorithm.Step2 | HungarianAlgorithm.kt:111-125 | the squares form a consistent matching on zeros; it is the first-fit one in row-major order; every zero has its row or its column squared |
| Hungarian.HungarianAlgorithm.SquareRow | HungarianAlgorithm.kt:115-123 | one row of the scan keeps the matching consistent and extends the first-fit invariant by one row |
| Hungarian.HungarianAlgorithm.SquareCell | HungarianAlgorithm.kt:116-122 | one cell of the scan: a zero whose row and column have no square is squared; otherwise nothing changes |
| Hungarian.HungarianAlgorithm.Step3 | HungarianAlgorithm.kt:131-135 | a column is covered exactly when it is matched; nothing else changes |
| Hungarian.HungarianAlgorithm.SearchZero | HungarianAlgorithm.kt:143-155 | Step 4 stated on snapshots of the state: the first uncovered zero in row-major order, primed, or None with no uncovered zero and nothing changed |
| Hungarian.HungarianAlgorithm.AdjustInPhase | HungarianAlgorithm.kt:64 | with some cell uncovered in both row and column, Step 7 turns the matrix into `Adjust` of it and keeps the invariant and the shift |
| Hungarian.HungarianAlgorithm.Step4 | HungarianAlgorithm.kt:143-155 | returns the first zero in row-major order whose row and column are uncovered, and primes only it; or returns None when no such zero exists, changing nothing |
| Hungarian.HungarianAlgorithm.Step6 | HungarianAlgorithm.kt:163-206 | the chain from the new prime is an alternating path; after the flip the matching is augmented along it, stays consistent and on zeros, and has one more matched column; primes and covers are cleared |
| Hungarian.HungarianAlgorithm.BuildChain | HungarianAlgorithm.kt:164-189 | the collected zeros alternate between a prime and the match in its column, all inside the matrix; the chain has odd length, starts at the new prime, and its primes form an alternating path ending in an unmatched column |
| Hungarian.HungarianAlgorithm.FlipChain | HungarianAlgorithm.kt:191-201 | flipping the chain in order makes every prime on the path a match; every other row and column keeps its match |
| Hungarian.HungarianAlgorithm.FlipZero | HungarianAlgorithm.kt:192-200 | one zero of the chain: a match on it is undone, then a prime on it becomes a match |
| Hungarian.HungarianAlgorithm.Step7 | HungarianAlgorithm.kt:214-237 | the working matrix becomes `Adjust` of the old one under the current covers |
| Hungarian.HungarianAlgorithm.MinUncoveredValue | HungarianAlgorithm.kt:215-225 | the smallest entry whose row and column are both uncovered, or None when there is no such cell |
| Hungarian.HungarianAlgorithm.AdjustRow | HungarianAlgorithm.kt:228-235 | on row i, the entry rises by d where the row and column are both covered, falls by d where both are uncovered, and otherwise stays; other rows are unchanged |
| Matrices.ZeroCellsAreOptimal | HungarianAlgorithm.kt:44-74 | a permutation on zero cells of a non-negative shift of c has minimal cost in c |
| Matrices.CostOfShift | HungarianAlgorithm.kt:91-105 | shifting rows by u and columns by v lowers every permutation's cost by sum(u) + sum(v) |
| Matrices.SumOfPermuted | HungarianAlgorithm.kt:44-74 | reordering by a permutation keeps a sum |
| Matrices.PermutationIsOnto | HungarianAlgorithm.kt:68-73 | a permutation of 0..n-1 takes every value in 0..n-1 |
| Reduction.MinOf | HungarianAlgorithm.kt:93 | the minimum is an element and a lower bound of the row |
| Reduction.ReduceNonNegative | HungarianAlgorithm.kt:91-105 | after reduction no entry is negative |
| Reduction.ReduceZeroInEveryRow | HungarianAlgorithm.kt:91-105 | after reduction every row contains a zero |
| Reduction.ReduceZeroInEveryColumn | HungarianAlgorithm.kt:99-104 | after reduction every column contains a zero |
| Reduction.ReduceIsShift | HungarianAlgorithm.kt:91-105 | reduction shifts by the row minima and by the column minima of the row-reduced matrix |
| Reduction.ReduceShiftsEveryCost | HungarianAlgorithm.kt:91-105 | reduction lowers every permutation's cost by the same constant |
| Adjustment.ScanIsMinimum | HungarianAlgorithm.kt:220-224 | the row scan keeps the minimum of the running value and the row's uncovered entries |
| Adjustment.MinUncoveredIsMinimum | HungarianAlgorithm.kt:215-225 | the search yields a value exactly when a doubly-uncovered cell exists, and that value is the smallest doubly-uncovered entry |
| Adjustment.AdjustCells | HungarianAlgorithm.kt:226-236 | doubly-uncovered entries fall by the amount; doubly-covered ones rise by it; singly-covered ones stay; the amount is the doubly-uncovered minimum when positive, else 0 |
| Adjustment.AdjustIsShift | HungarianAlgorithm.kt:226-236 | the adjustment is a shift: covered rows rise and uncovered columns fall by the amount |
| Adjustment.AdjustComposes | HungarianAlgorithm.kt:214-237 | adjusting a shift of c is a shift of c by the summed amounts |
| Adjustment.AdjustNonNegative | HungarianAlgorithm.kt:226-236 | on a non-negative matrix the adjustment keeps every entry non-negative |
| Adjustment.AdjustCreatesZero | HungarianAlgorithm.kt:214-237 | with a doubly-uncovered cell present, the adjustment leaves a doubly-uncovered zero |
| Adjustment.AdjustIdleOnZero | HungarianAlgorithm.kt:226 | when a doubly-uncovered zero exists already, the adjustment changes nothing |
| Matching.FirstFitSquare | HungarianAlgorithm.kt:116-121 | squaring a zero in a free row and column keeps the matching consistent and extends the scan invariant |
| Matching.FirstFitSkip | HungarianAlgorithm.kt:116 | passing over a cell that cannot be squared extends the scan invariant |
| Matching.FirstFitDone | HungarianAlgorithm.kt:111-125 | the finished scan's matching is on zeros and first-fit; every zero has its row or column squared |
| Matching.CountMatchedGrows | HungarianAlgorithm.kt:163-206 | matching one more index adds one to the count |
| Matching.CountCoveredGrows | HungarianAlgorithm.kt:62 | covering an uncovered row adds one to the count of covered rows |
| Matching.AllRowsMatchedAllColumnsMatched | HungarianAlgorithm.kt:68-73 | if every row is matched, so is every column (pigeonhole) |
| Matching.PerfectMatchingIsPermutation | HungarianAlgorithm.kt:68-73 | a matching with every column matched gives each column a distinct row |
| Matching.PathColumnsDistinct | HungarianAlgorithm.kt:166-189 | the columns of an alternating path are distinct |
| Matching.AugmentKeepsConsistent | HungarianAlgorithm.kt:191-201 | flipping an alternating path keeps the two index arrays consistent; it additionally matches exactly the path's first row and last column; the matched count grows by one |
| Matching.AugmentKeepsZeros | HungarianAlgorithm.kt:191-201 | flipping a path of zeros keeps every match on a zero |
| Matching.ChainExtend | HungarianAlgorithm.kt:170-185 | appending the match in the last column and the prime in its row keeps the chain's alternating shape |
| Matching.ChainEnds | HungarianAlgorithm.kt:164-189 | a chain along an alternating path has odd length, starts with the first prime, lies in the matrix and ends with a prime in an unmatched column |
| Matching.FlipAtPrimed | HungarianAlgorithm.kt:197-200 | flipping the s-th prime of the path makes it a match and touches nothing off the path |
| Matching.FlipAtMatched | HungarianAlgorithm.kt:192-195 | flipping a matched zero of the chain, after the prime before it, changes nothing: its column is already re-matched |
| Matching.FlipStep | HungarianAlgorithm.kt:191-201 | each iteration over the chain keeps the flip's progress |
| Matching.FlipDone | HungarianAlgorithm.kt:191-201 | once every prime is flipped, the matching is augmented along the path |
| Covering.StartPhase | HungarianAlgorithm.kt:131-135 | with the matched columns covered, no row covered and nothing primed, the phase invariant holds; either a column is unmatched or all are covered |
| Covering.PathStep | HungarianAlgorithm.kt:181-182 | the row matched in a prime's column is primed, and was primed earlier |
| Covering.PathExtend | HungarianAlgorithm.kt:169-189 | while the chain's last column is matched, the chain extends by a primed row with a strictly smaller rank, so the chain loop ends |
| Covering.PathEnds | HungarianAlgorithm.kt:177-179 | a chain from an unmatched row that stops at an unmatched column is an alternating path |
| Covering.PrimeUnmatchedRow | HungarianAlgorithm.kt:148 | priming an uncovered zero in an unmatched row keeps the invariant |
| Covering.PrimeMatchedRow | HungarianAlgorithm.kt:62-63 | priming in a matched row, covering it and uncovering its matched column keeps the invariant and covers one more row |
| Covering.PositiveAmountOnlyMatchedPrimes | HungarianAlgorithm.kt:226 | when the adjustment amount is positive, every primed row is matched |
| Covering.AdjustKeepsPhase | HungarianAlgorithm.kt:214-237 | the adjustment keeps the phase invariant: matches and primes stay on zeros |
| Covering.AugmentRestartsPhase | HungarianAlgorithm.kt:163-206 | augmenting along the alternating path gives a consistent matching on zeros with one more column matched |
| Covering.UncoveredCellExists | HungarianAlgorithm.kt:215-225 | while a column is unmatched, some cell has both its row and its column uncovered |
| Covering.AdjustKeepsShift | HungarianAlgorithm.kt:64 | an adjustment keeps the invariant, and the matrix stays a shift of the original by new potentials |
| Covering.AdjustStep | HungarianAlgorithm.kt:53-56 | besides the above, while a column is unmatched the adjustment creates a doubly-uncovered zero |
| Covering.PhaseComplete | HungarianAlgorithm.kt:49-73 | when every column is covered, the matched rows form a permutation on zero cells |

## Left out

- Costs are `Double` in the source and unbounded integers here. Rounding,
  NaN and infinities are not modelled. The exact comparisons with 0.0
  become integer comparisons.
- Hungarian.Create: the source prints an error and ends the process when
  the row count differs from the length of the first row. Here that case
  returns None instead.
- Hungarian.Create: requires a non-empty input whose rows all have the
  first row's length. The source indexes `matrix[0]`, so it fails on an
  empty input. It also fails on a later row shorter than the first: the
  column pass reads every row up to the first row's width
  (HungarianAlgorithm.kt:99-100). A later row longer than the first is
  accepted and copied at its own length. Its extra entries then count in
  its row minimum and in the search for an uncovered zero, but not in the
  column pass or the adjustment. When the zero search reaches a zero among
  those extra entries, the source reads `colIsCovered` beyond its end
  (HungarianAlgorithm.kt:147) and fails; `[[0,0,1],[2,2,2,0],[0,1,1]]`
  is such an input. The model leaves such input out.
- Hungarian.HungarianAlgorithm.constructor: requires a square matrix;
  `Create` performs the source's check before calling it.
- Hungarian.HungarianAlgorithm.FindOptimalAssignment: requires the
  freshly constructed state (`Initial`). The source does not reset its
  arrays, so a second call would run on the stale squares and covers.
  That second call is not modelled.
- Hungarian.HungarianAlgorithm.Step2: requires that nothing is squared
  yet, which is the state it is always called in.
- Hungarian.HungarianAlgorithm.Step7: the source starts its minimum
  search from `Double.MAX_VALUE`. When every row or every column is
  covered, it would add that sentinel to the doubly-covered entries.
  - The model returns None, uses amount 0 and changes nothing (`Adjustment.Amount`).
  - `Covering.UncoveredCellExists` shows the main loop never reaches that case; it is applied at both calls of Step 7 (HungarianAlgorithm.kt:54 and :64).
- Hungarian.HungarianAlgorithm.Step7: requires cover flags that are 0 or
  1. The solver's arrays only ever hold those values.
- Reduction.MinOf: the `?: 0.0` fallback of the row minimum is not
  modelled. Rows of a non-empty square matrix are never empty.
- The chain `K` is a `LinkedHashSet` of arrays in the source. It holds
  distinct array objects, so it behaves as a list in insertion order, and
  the model keeps it as a sequence of pairs.
- The result is `Array<IntArray?>` in the source. The model uses an array
  of (column, row) pairs.
- Writing the error to standard error and ending the process are not
  modelled.
- The result pairs are (column, row): the code builds
  `intArrayOf(i, squareInCol[i])` for column i.
