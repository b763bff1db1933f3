/**
 * The solver object: a working copy of the cost matrix, the matching
 * ("squares": `squareInRow[i]` is the column matched to row i,
 * `squareInCol[j]` the row matched to column j, -1 for none), the cover flags
 * of rows and columns (0 or 1) and the primed zeros (`staredZeroesInRow[i]`,
 * the column of the zero primed in row i, -1 for none). Every step updates
 * these arrays in place.
 */
module Hungarian {
  import opened Matrices
  import opened Reduction
  import opened Adjustment
  import opened Matching
  import opened Covering

  /** Sets every entry of `a` to `x`. */
  method Fill(a: array<int>, x: int)
    modifies a
    ensures forall k :: 0 <= k < a.Length ==> a[k] == x
  {
    for k := 0 to a.Length
      invariant forall l :: 0 <= l < k ==> a[l] == x
    {
      a[k] := x;
    }
  }

  /**
   * Builds a solver for `m`; a matrix whose row count differs from the
   * length of its first row is refused (None).
   */
  method Create(m: seq<seq<int>>) returns (r: Option<HungarianAlgorithm>)
    requires |m| > 0 && forall i :: 0 <= i < |m| ==> |m[i]| == |m[0]|
    ensures r.None? <==> |m| != |m[0]|
    ensures r.Some? ==> fresh(r.value) && r.value.Valid() && r.value.Initial() && r.value.Grid() == m
    ensures r.Some? ==> && fresh(r.value.matrix) && fresh(r.value.squareInRow) && fresh(r.value.squareInCol)
                        && fresh(r.value.rowIsCovered) && fresh(r.value.colIsCovered) && fresh(r.value.staredZeroesInRow)
  {
    if |m| != |m[0]| {
      return None;
    }
    var solver := new HungarianAlgorithm(m);
    return Some(solver);
  }

  /** The rows of an assignment given as (column, row) pairs. */
  function AssignedRows(a: seq<(int, int)>): (rows: seq<int>)
    ensures |rows| == |a| && forall k :: 0 <= k < |a| ==> rows[k] == a[k].1
  {
    seq(|a|, k requires 0 <= k < |a| => a[k].1)
  }

  class HungarianAlgorithm {
    const matrix: array2<int>
    const squareInRow: array<int>
    const squareInCol: array<int>
    const rowIsCovered: array<int>
    const colIsCovered: array<int>
    const staredZeroesInRow: array<int>

    /** All arrays have the size of the square matrix, and the five index arrays are distinct. */
    ghost predicate Valid()
    {
      var n := matrix.Length0;
      && n > 0 && matrix.Length1 == n
      && squareInRow.Length == n && squareInCol.Length == n
      && rowIsCovered.Length == n && colIsCovered.Length == n && staredZeroesInRow.Length == n
      && squareInRow != squareInCol && squareInRow != rowIsCovered && squareInRow != colIsCovered
      && squareInRow != staredZeroesInRow && squareInCol != rowIsCovered && squareInCol != colIsCovered
      && squareInCol != staredZeroesInRow && rowIsCovered != colIsCovered && rowIsCovered != staredZeroesInRow
      && colIsCovered != staredZeroesInRow
    }

    /** Nothing matched, nothing covered, nothing primed. */
    ghost predicate Initial()
      reads squareInRow, squareInCol, rowIsCovered, colIsCovered, staredZeroesInRow
    {
      && (forall k :: 0 <= k < squareInRow.Length ==> squareInRow[k] == -1)
      && (forall k :: 0 <= k < squareInCol.Length ==> squareInCol[k] == -1)
      && (forall k :: 0 <= k < rowIsCovered.Length ==> rowIsCovered[k] == 0)
      && (forall k :: 0 <= k < colIsCovered.Length ==> colIsCovered[k] == 0)
      && (forall k :: 0 <= k < staredZeroesInRow.Length ==> staredZeroesInRow[k] == -1)
    }

    /** The working matrix as a sequence of rows. */
    function Grid(): (g: seq<seq<int>>)
      reads matrix
      ensures |g| == matrix.Length0
      ensures forall i :: 0 <= i < |g| ==> |g[i]| == matrix.Length1
      ensures forall i, j :: 0 <= i < matrix.Length0 && 0 <= j < matrix.Length1 ==> g[i][j] == matrix[i, j]
    {
      seq(matrix.Length0, i requires 0 <= i < matrix.Length0 reads matrix =>
        seq(matrix.Length1, j requires 0 <= j < matrix.Length1 reads matrix => matrix[i, j]))
    }

    /** Row i of the working matrix. */
    function RowOf(i: nat): (r: seq<int>)
      requires i < matrix.Length0
      reads matrix
      ensures r == Grid()[i]
    {
      seq(matrix.Length1, j requires 0 <= j < matrix.Length1 reads matrix => matrix[i, j])
    }

    /** Column j of the working matrix. */
    function ColumnOf(j: nat): (c: seq<int>)
      requires j < matrix.Length1 && matrix.Length0 == matrix.Length1
      reads matrix
      ensures c == Column(Grid(), j)
    {
      seq(matrix.Length0, i requires 0 <= i < matrix.Length0 reads matrix => matrix[i, j])
    }

    /** The invariant of a search phase, on the current state. */
    ghost predicate Searching(rank: seq<nat>, next: nat)
      reads matrix, squareInRow, squareInCol, rowIsCovered, colIsCovered, staredZeroesInRow
    {
      PhaseInv(Grid(), squareInRow[..], squareInCol[..], rowIsCovered[..], colIsCovered[..], staredZeroesInRow[..], rank, next)
    }

    /** Copies the matrix; nothing is matched, covered or primed. */
    constructor (m: seq<seq<int>>)
      requires |m| > 0 && IsSquare(m, |m|)
      ensures Valid() && Initial() && Grid() == m
      ensures fresh(matrix) && fresh(squareInRow) && fresh(squareInCol)
      ensures fresh(rowIsCovered) && fresh(colIsCovered) && fresh(staredZeroesInRow)
    {
      var n := |m|;
      matrix := new int[n, n]((i, j) requires 0 <= i < n && 0 <= j < n => m[i][j]);
      squareInRow := new int[n](_ => 0);
      squareInCol := new int[n](_ => 0);
      rowIsCovered := new int[n](_ => 0);
      colIsCovered := new int[n](_ => 0);
      staredZeroesInRow := new int[n](_ => 0);
      new;
      Fill(staredZeroesInRow, -1);
      Fill(squareInRow, -1);
      Fill(squareInCol, -1);
      assert Grid() == m by {
        forall i | 0 <= i < n
          ensures Grid()[i] == m[i]
        {
        }
      }
    }

    /**
     * Solves the assignment problem: the result lists, for every column k,
     * the pair (k, row matched to k); those rows form a permutation whose
     * total cost in the original matrix is the smallest of all permutations.
     *
     * Ghost potentials `u`, `v` record that the working matrix is always the
     * original shifted by row and column amounts, which changes every
     * permutation's cost by the same constant.
     */
    method FindOptimalAssignment() returns (optimalAssignment: array<(int, int)>)
      requires Valid() && Initial()
      modifies matrix, squareInRow, squareInCol, rowIsCovered, colIsCovered, staredZeroesInRow
      ensures fresh(optimalAssignment) && optimalAssignment.Length == matrix.Length0
      ensures forall k :: 0 <= k < optimalAssignment.Length ==> optimalAssignment[k].0 == k
      ensures IsPermutation(AssignedRows(optimalAssignment[..]), matrix.Length0)
      ensures forall q :: IsPermutation(q, matrix.Length0) ==>
                Cost(old(Grid()), AssignedRows(optimalAssignment[..])) <= Cost(old(Grid()), q)
    {
      ghost var c := Grid();
      ghost var u, v, rank := StartSearch(c);
      ghost var next;
      u, v, rank, next := Search(c, u, v, rank);
      PhaseComplete(Grid(), squareInRow[..], squareInCol[..], rowIsCovered[..], colIsCovered[..], staredZeroesInRow[..], rank, next);
      ZeroCellsAreOptimal(c, u, v, squareInCol[..]);
      optimalAssignment := Assignment();
    }

    /**
     * The main loop: while some column is uncovered, take a search step.
     * Each step either grows the matching or, keeping it, covers one more
     * row; both are bounded by the size of the matrix, so the loop ends,
     * with every column covered.
     */
    method Search(ghost c: seq<seq<int>>, ghost u: seq<int>, ghost v: seq<int>, ghost rank: seq<nat>)
      returns (ghost u': seq<int>, ghost v': seq<int>, ghost rank': seq<nat>, ghost next': nat)
      requires Valid() && Searching(rank, 0)
      requires IsSquare(c, matrix.Length0) && |u| == |c| && |v| == |c| && Grid() == Shift(c, u, v)
      requires CountMatched(squareInCol[..]) < |c| || forall j :: 0 <= j < |c| ==> colIsCovered[j] != 0
      modifies matrix, squareInRow, squareInCol, rowIsCovered, colIsCovered, staredZeroesInRow
      ensures Searching(rank', next') && forall j :: 0 <= j < |c| ==> colIsCovered[j] != 0
      ensures |u'| == |c| && |v'| == |c| && Grid() == Shift(c, u', v')
    {
      var n := matrix.Length0;
      u', v', rank', next' := u, v, rank, 0;
      var done := AllColumnsAreCovered();
      while !done
        invariant Searching(rank', next')
        invariant |u'| == n && |v'| == n && Grid() == Shift(c, u', v')
        invariant done <==> forall j :: 0 <= j < n ==> colIsCovered[j] != 0
        invariant done || CountMatched(squareInCol[..]) < n
        decreases n - CountMatched(squareInCol[..]), n - CountCovered(rowIsCovered[..])
      {
        ghost var g, row, col, rc, cc := Grid(), squareInRow[..], squareInCol[..], rowIsCovered[..], colIsCovered[..];
        u', v', rank', next' := SearchStep(c, u', v', g, row, col, rc, cc, staredZeroesInRow[..], rank', next');
        done := AllColumnsAreCovered();
      }
    }

    /**
     * The first three steps: reduce, square a first set of zeros, cover the
     * matched columns. The working matrix is then a shift of the original
     * by the row and column minima, and a search phase begins.
     */
    method StartSearch(ghost c: seq<seq<int>>) returns (ghost u: seq<int>, ghost v: seq<int>, ghost rank: seq<nat>)
      requires Valid() && Initial() && Grid() == c
      modifies matrix, squareInRow, squareInCol, colIsCovered
      ensures Searching(rank, 0)
      ensures u == RowMinima(c) && v == ColumnMinima(SubtractRowMinima(c)) && Grid() == Shift(c, u, v)
      ensures CountMatched(squareInCol[..]) < |c| || forall j :: 0 <= j < |c| ==> colIsCovered[j] != 0
    {
      ReduceIsShift(c);
      ReduceNonNegative(c);
      u, v := RowMinima(c), ColumnMinima(SubtractRowMinima(c));
      Step1();
      Step2();
      rank := seq(|c|, _ => 0);
      BeginPhase(Grid(), squareInRow[..], squareInCol[..], rank);
    }

    /** The result array: the pair (k, squareInCol[k]) for every column k. */
    method Assignment() returns (optimalAssignment: array<(int, int)>)
      requires Valid()
      ensures fresh(optimalAssignment)
      ensures AssignedRows(optimalAssignment[..]) == squareInCol[..]
      ensures optimalAssignment.Length == squareInCol.Length
      ensures forall k :: 0 <= k < optimalAssignment.Length ==> optimalAssignment[k] == (k, squareInCol[k])
    {
      optimalAssignment := new (int, int)[squareInCol.Length];
      for k := 0 to squareInCol.Length
        invariant forall l :: 0 <= l < k ==> optimalAssignment[l] == (l, squareInCol[l])
      {
        optimalAssignment[k] := (k, squareInCol[k]);
      }
    }

    /**
     * One pass of the main loop while some column is uncovered: find and
     * prime an uncovered zero (adjusting as often as needed); then either
     * augment the matching, if that zero's row is unmatched, or cover the row
     * and uncover its matched column and adjust. Either the matching grows or
     * it stays and one more row is covered.
     */
    method SearchStep(ghost c: seq<seq<int>>, ghost u: seq<int>, ghost v: seq<int>, ghost g: seq<seq<int>>,
                      ghost row: seq<int>, ghost col: seq<int>, ghost rc: seq<int>, ghost cc: seq<int>,
                      ghost primed: seq<int>, ghost rank: seq<nat>, ghost next: nat)
      returns (ghost u': seq<int>, ghost v': seq<int>, ghost rank': seq<nat>, ghost next': nat)
      requires Valid() && Grid() == g && PhaseInv(g, row, col, rc, cc, primed, rank, next)
      requires squareInRow[..] == row && squareInCol[..] == col && rowIsCovered[..] == rc && colIsCovered[..] == cc
      requires staredZeroesInRow[..] == primed && CountMatched(col) < |g|
      requires IsSquare(c, |g|) && |u| == |g| && |v| == |g| && g == Shift(c, u, v)
      modifies matrix, squareInRow, squareInCol, rowIsCovered, colIsCovered, staredZeroesInRow
      ensures Searching(rank', next')
      ensures |u'| == |g| && |v'| == |g| && Grid() == Shift(c, u', v')
      ensures || CountMatched(squareInCol[..]) > CountMatched(col)
              || (CountMatched(squareInCol[..]) == CountMatched(col) && CountCovered(rowIsCovered[..]) > CountCovered(rc))
      ensures CountMatched(squareInCol[..]) < |g| || forall j :: 0 <= j < |g| ==> colIsCovered[j] != 0
    {
      var mainZero;
      ghost var h;
      mainZero, h, u', v' := FindUncoveredZero(c, u, v, g, row, col, rc, cc, primed, rank, next);
      rank' := rank[mainZero.0 := next];
      if squareInRow[mainZero.0] == -1 {
        AugmentAndCover(mainZero, h, row, col, rc, cc, primed, rank, next);
        next' := 0;
      } else {
        u', v' := CoverRowAndAdjust(mainZero, c, u', v', h, row, col, rc, cc, primed, rank, next);
        next' := next + 1;
      }
    }

    /**
     * The augmenting branch: the primed zero `mainZero` lies in an unmatched
     * row. Augment along the chain it starts, then cover the matched columns;
     * a new phase begins with one more matched column.
     */
    method AugmentAndCover(mainZero: (int, int), ghost g: seq<seq<int>>,
                           ghost row: seq<int>, ghost col: seq<int>, ghost rc: seq<int>, ghost cc: seq<int>,
                           ghost primed: seq<int>, ghost rank: seq<nat>, ghost next: nat)
      requires Valid() && Grid() == g && PhaseInv(g, row, col, rc, cc, primed, rank, next)
      requires squareInRow[..] == row && squareInCol[..] == col && rowIsCovered[..] == rc && colIsCovered[..] == cc
      requires ZeroAt(g, rc, cc, mainZero.0, mainZero.1) && row[mainZero.0] == -1
      requires staredZeroesInRow[..] == primed[mainZero.0 := mainZero.1]
      modifies squareInRow, squareInCol, rowIsCovered, colIsCovered, staredZeroesInRow
      ensures Searching(rank[mainZero.0 := next], 0)
      ensures exists rows, cols :: && AlternatingPath(row, col, primed[mainZero.0 := mainZero.1], rows, cols, |g|)
                                   && rows[0] == mainZero.0
                                   && Augmented(row, col, rows, cols, squareInRow[..], squareInCol[..], |g|)
      ensures CountMatched(squareInCol[..]) == CountMatched(col) + 1
      ensures CountMatched(squareInCol[..]) < |g| || forall j :: 0 <= j < |g| ==> colIsCovered[j] != 0
    {
      ghost var i, j := mainZero.0, mainZero.1;
      PrimeUnmatchedRow(g, row, col, rc, cc, primed, rank, next, i, j);
      ghost var rows, cols := Step6(mainZero, g, row, col, rc, cc, primed[i := j], rank[i := next], next + 1);
      BeginPhase(g, squareInRow[..], squareInCol[..], rank[i := next]);
    }

    /**
     * Covers the matched columns (step 3) when nothing is covered or primed
     * and the matching is consistent and on zeros: a search phase begins.
     */
    method BeginPhase(ghost g: seq<seq<int>>, ghost row: seq<int>, ghost col: seq<int>, ghost rank: seq<nat>)
      requires Valid() && Grid() == g && squareInRow[..] == row && squareInCol[..] == col
      requires IsSquare(g, |g|) && Consistent(row, col, |g|) && ZeroOnMatch(g, col) && NonNegative(g) && |rank| == |g|
      requires forall k :: 0 <= k < |g| ==> rowIsCovered[k] == 0 && staredZeroesInRow[k] == -1
      modifies colIsCovered
      ensures Searching(rank, 0)
      ensures CountMatched(squareInCol[..]) < |g| || forall j :: 0 <= j < |g| ==> colIsCovered[j] != 0
    {
      Step3();
      StartPhase(g, row, col, rowIsCovered[..], colIsCovered[..], staredZeroesInRow[..], rank);
    }

    /**
     * The covering branch: the primed zero `mainZero` lies in a matched row.
     * Cover that row, uncover its matched column, then adjust.
     */
    method CoverRowAndAdjust(mainZero: (int, int), ghost c: seq<seq<int>>, ghost u: seq<int>, ghost v: seq<int>, ghost g: seq<seq<int>>,
                             ghost row: seq<int>, ghost col: seq<int>, ghost rc: seq<int>, ghost cc: seq<int>,
                             ghost primed: seq<int>, ghost rank: seq<nat>, ghost next: nat)
      returns (ghost u': seq<int>, ghost v': seq<int>)
      requires Valid() && Grid() == g && PhaseInv(g, row, col, rc, cc, primed, rank, next)
      requires squareInRow[..] == row && squareInCol[..] == col && rowIsCovered[..] == rc && colIsCovered[..] == cc
      requires ZeroAt(g, rc, cc, mainZero.0, mainZero.1) && row[mainZero.0] != -1
      requires staredZeroesInRow[..] == primed[mainZero.0 := mainZero.1]
      requires IsSquare(c, |g|) && |u| == |g| && |v| == |g| && g == Shift(c, u, v) && CountMatched(col) < |g|
      modifies matrix, rowIsCovered, colIsCovered
      ensures Searching(rank[mainZero.0 := next], next + 1)
      ensures squareInCol[..] == col && CountCovered(rowIsCovered[..]) == CountCovered(rc) + 1
      ensures Grid() == Adjust(g, rc[mainZero.0 := 1], cc[row[mainZero.0] := 0])
      ensures |u'| == |g| && |v'| == |g| && Grid() == Shift(c, u', v')
    {
      CoverRow(mainZero, g, row, col, rc, cc, primed, rank, next);
      ghost var i, j := mainZero.0, mainZero.1;
      ghost var rc', cc' := rc[i := 1], cc[row[i] := 0];
      ghost var j0 :| 0 <= j0 < |g| && col[j0] == -1;
      UncoveredCellExists(g, row, col, rc', cc', primed[i := j], rank[i := next], next + 1, j0);
      u', v' := AdjustInPhase(c, u, v, g, row, col, rc', cc', primed[i := j], rank[i := next], next + 1);
    }

    /**
     * Step 7 within a phase, on a state with a cell whose row and column are
     * both uncovered: the matrix becomes its adjustment, and the invariant and
     * the shift of the original survive.
     */
    method AdjustInPhase(ghost c: seq<seq<int>>, ghost u: seq<int>, ghost v: seq<int>, ghost g: seq<seq<int>>,
                         ghost row: seq<int>, ghost col: seq<int>, ghost rc: seq<int>, ghost cc: seq<int>,
                         ghost primed: seq<int>, ghost rank: seq<nat>, ghost next: nat)
      returns (ghost u': seq<int>, ghost v': seq<int>)
      requires Valid() && Grid() == g && PhaseInv(g, row, col, rc, cc, primed, rank, next)
      requires squareInRow[..] == row && squareInCol[..] == col && rowIsCovered[..] == rc && colIsCovered[..] == cc
      requires staredZeroesInRow[..] == primed && HasUncoveredCell(|g|, rc, cc, |g|)
      requires IsSquare(c, |g|) && |u| == |g| && |v| == |g| && g == Shift(c, u, v)
      modifies matrix
      ensures Grid() == Adjust(g, rc, cc) && Searching(rank, next)
      ensures |u'| == |g| && |v'| == |g| && Grid() == Shift(c, u', v')
    {
      Step7();
      u', v' := AdjustKeepsShift(c, u, v, g, Grid(), row, col, rc, cc, primed, rank, next);
    }

    /** Covers the row of the primed zero `mainZero` and uncovers the column matched to that row. */
    method CoverRow(mainZero: (int, int), ghost g: seq<seq<int>>,
                    ghost row: seq<int>, ghost col: seq<int>, ghost rc: seq<int>, ghost cc: seq<int>,
                    ghost primed: seq<int>, ghost rank: seq<nat>, ghost next: nat)
      requires Valid() && Grid() == g && PhaseInv(g, row, col, rc, cc, primed, rank, next)
      requires squareInRow[..] == row && squareInCol[..] == col && rowIsCovered[..] == rc && colIsCovered[..] == cc
      requires ZeroAt(g, rc, cc, mainZero.0, mainZero.1) && row[mainZero.0] != -1
      modifies rowIsCovered, colIsCovered
      ensures rowIsCovered[..] == rc[mainZero.0 := 1] && colIsCovered[..] == cc[row[mainZero.0] := 0]
      ensures PhaseInv(g, row, col, rc[mainZero.0 := 1], cc[row[mainZero.0] := 0],
                       primed[mainZero.0 := mainZero.1], rank[mainZero.0 := next], next + 1)
      ensures CountCovered(rc[mainZero.0 := 1]) == CountCovered(rc) + 1
    {
      PrimeMatchedRow(g, row, col, rc, cc, primed, rank, next, mainZero.0, mainZero.1);
      rowIsCovered[mainZero.0] := 1;
      colIsCovered[squareInRow[mainZero.0]] := 0;
    }

    /** Cell (i, j) lies in the matrix, its row and column are uncovered and it holds a zero. */
    static ghost predicate ZeroAt(g: seq<seq<int>>, rc: seq<int>, cc: seq<int>, i: int, j: int)
    {
      0 <= i < |g| && 0 <= j < |g| && |rc| == |g| && |cc| == |g| && |g[i]| == |g| && rc[i] == 0 && cc[j] == 0 && g[i][j] == 0
    }

    /** No cell before (i, j) in row-major order has its row and column uncovered and holds a zero. */
    static ghost predicate NoEarlierZero(g: seq<seq<int>>, rc: seq<int>, cc: seq<int>, i: int, j: int)
      requires IsSquare(g, |g|) && |rc| == |g| && |cc| == |g|
    {
      forall a, b :: 0 <= a < |g| && 0 <= b < |g| && (a < i || (a == i && b < j)) && rc[a] == 0 && cc[b] == 0 ==> g[a][b] != 0
    }

    /**
     * The inner loop of the solver: look for an uncovered zero and prime it;
     * while there is none, adjust the matrix and look again. At most one
     * adjustment is needed, since it creates an uncovered zero.
     */
    method FindUncoveredZero(ghost c: seq<seq<int>>, ghost u: seq<int>, ghost v: seq<int>, ghost g: seq<seq<int>>,
                             ghost row: seq<int>, ghost col: seq<int>, ghost rc: seq<int>, ghost cc: seq<int>,
                             ghost primed: seq<int>, ghost rank: seq<nat>, ghost next: nat)
      returns (mainZero: (int, int), ghost h: seq<seq<int>>, ghost u': seq<int>, ghost v': seq<int>)
      requires Valid() && Grid() == g && PhaseInv(g, row, col, rc, cc, primed, rank, next)
      requires squareInRow[..] == row && squareInCol[..] == col && rowIsCovered[..] == rc && colIsCovered[..] == cc
      requires staredZeroesInRow[..] == primed && CountMatched(col) < |g|
      requires IsSquare(c, |g|) && |u| == |g| && |v| == |g| && g == Shift(c, u, v)
      modifies matrix, staredZeroesInRow
      ensures Grid() == h && PhaseInv(h, row, col, rc, cc, primed, rank, next)
      ensures squareInRow[..] == row && squareInCol[..] == col && rowIsCovered[..] == rc && colIsCovered[..] == cc
      ensures |u'| == |g| && |v'| == |g| && h == Shift(c, u', v')
      ensures ZeroAt(h, rc, cc, mainZero.0, mainZero.1) && NoEarlierZero(h, rc, cc, mainZero.0, mainZero.1)
      ensures staredZeroesInRow[..] == primed[mainZero.0 := mainZero.1]
      ensures h == g || h == Adjust(g, rc, cc)
    {
      var n := matrix.Length0;
      ghost var j0 :| 0 <= j0 < n && col[j0] == -1;
      h, u', v' := g, u, v;
      var zero := SearchZero(g, row, col, rc, cc, primed);
      while zero.None?
        invariant Grid() == h && PhaseInv(h, row, col, rc, cc, primed, rank, next)
        invariant squareInRow[..] == row && squareInCol[..] == col && rowIsCovered[..] == rc && colIsCovered[..] == cc
        invariant |u'| == n && |v'| == n && h == Shift(c, u', v')
        invariant zero.None? ==> staredZeroesInRow[..] == primed
        invariant zero.Some? ==> ZeroAt(h, rc, cc, zero.value.0, zero.value.1) && NoEarlierZero(h, rc, cc, zero.value.0, zero.value.1)
        invariant zero.None? ==> h == g
        invariant h == g || h == Adjust(g, rc, cc)
        invariant zero.Some? ==> staredZeroesInRow[..] == primed[zero.value.0 := zero.value.1]
        decreases if zero.None? then 1 else 0
      {
        zero, h, u', v' := AdjustAndSearch(c, u', v', h, row, col, rc, cc, primed, rank, next, j0);
      }
      mainZero := zero.value;
    }

    /**
     * The body of the inner loop, while column `j` is unmatched and no
     * uncovered zero exists: adjust, then search again. The adjustment keeps
     * the phase invariant, leaves the matrix a shift `h` of `c` and creates an
     * uncovered zero, so the search now finds (and primes) one.
     */
    method AdjustAndSearch(ghost c: seq<seq<int>>, ghost u: seq<int>, ghost v: seq<int>, ghost g: seq<seq<int>>,
                           ghost row: seq<int>, ghost col: seq<int>, ghost rc: seq<int>, ghost cc: seq<int>,
                           ghost primed: seq<int>, ghost rank: seq<nat>, ghost next: nat, ghost j: nat)
      returns (zero: Option<(int, int)>, ghost h: seq<seq<int>>, ghost u': seq<int>, ghost v': seq<int>)
      requires Valid() && Grid() == g && PhaseInv(g, row, col, rc, cc, primed, rank, next)
      requires squareInRow[..] == row && squareInCol[..] == col && rowIsCovered[..] == rc && colIsCovered[..] == cc
      requires staredZeroesInRow[..] == primed
      requires IsSquare(c, |g|) && |u| == |g| && |v| == |g| && g == Shift(c, u, v)
      requires j < |g| && col[j] == -1
      modifies matrix, staredZeroesInRow
      ensures Grid() == h && PhaseInv(h, row, col, rc, cc, primed, rank, next)
      ensures squareInRow[..] == row && squareInCol[..] == col && rowIsCovered[..] == rc && colIsCovered[..] == cc
      ensures |u'| == |g| && |v'| == |g| && h == Shift(c, u', v')
      ensures zero.Some? && ZeroAt(h, rc, cc, zero.value.0, zero.value.1) && NoEarlierZero(h, rc, cc, zero.value.0, zero.value.1)
      ensures staredZeroesInRow[..] == primed[zero.value.0 := zero.value.1]
      ensures h == Adjust(g, rc, cc)
    {
      Step7();
      h := Grid();
      u', v' := AdjustStep(c, u, v, g, h, row, col, rc, cc, primed, rank, next, j);
      zero := SearchZero(h, row, col, rc, cc, primed);
    }

    /** Step 4 on a state given by its snapshots: the first uncovered zero, primed, or None when there is none. */
    method SearchZero(ghost g: seq<seq<int>>, ghost row: seq<int>, ghost col: seq<int>, ghost rc: seq<int>, ghost cc: seq<int>,
                      ghost primed: seq<int>)
      returns (zero: Option<(int, int)>)
      requires Valid() && Grid() == g
      requires squareInRow[..] == row && squareInCol[..] == col && rowIsCovered[..] == rc && colIsCovered[..] == cc
      requires staredZeroesInRow[..] == primed
      modifies staredZeroesInRow
      ensures Grid() == g && squareInRow[..] == row && squareInCol[..] == col && rowIsCovered[..] == rc && colIsCovered[..] == cc
      ensures zero.None? ==> staredZeroesInRow[..] == primed
      ensures zero.None? ==> forall a, b :: 0 <= a < |g| && 0 <= b < |g| && rc[a] == 0 && cc[b] == 0 ==> g[a][b] != 0
      ensures zero.Some? ==> ZeroAt(g, rc, cc, zero.value.0, zero.value.1) && NoEarlierZero(g, rc, cc, zero.value.0, zero.value.1)
      ensures zero.Some? ==> staredZeroesInRow[..] == primed[zero.value.0 := zero.value.1]
    {
      zero := Step4();
    }

    /** True exactly when every column is covered. */
    method AllColumnsAreCovered() returns (b: bool)
      requires Valid()
      ensures b <==> forall j :: 0 <= j < colIsCovered.Length ==> colIsCovered[j] != 0
    {
      for k := 0 to colIsCovered.Length
        invariant forall j :: 0 <= j < k ==> colIsCovered[j] != 0
      {
        if colIsCovered[k] == 0 {
          return false;
        }
      }
      return true;
    }

    /**
     * Reduction: subtract every row's minimum from that row, then every
     * column's minimum from that column.
     */
    method Step1()
      requires Valid()
      modifies matrix
      ensures Grid() == Reduce(old(Grid()))
    {
      SubtractRowMinimaInPlace();
      SubtractColumnMinimaInPlace();
    }

    /** The first loop of the reduction: every row minus its own minimum. */
    method SubtractRowMinimaInPlace()
      requires Valid()
      modifies matrix
      ensures Grid() == SubtractRowMinima(old(Grid()))
    {
      var n := matrix.Length0;
      ghost var g0 := Grid();
      ghost var t0 := SubtractRowMinima(g0);
      RowPassCells(g0);
      for i := 0 to n
        invariant forall a, b :: 0 <= a < n && 0 <= b < n ==> matrix[a, b] == if a < i then t0[a][b] else g0[a][b]
      {
        assert RowOf(i) == g0[i] by {
          forall b | 0 <= b < n
            ensures RowOf(i)[b] == g0[i][b]
          {
            assert RowOf(i)[b] == matrix[i, b];
          }
        }
        var currentRowMin := MinOf(RowOf(i));
        SubtractFromRow(i, currentRowMin);
      }
      assert Grid() == t0 by {
        forall a | 0 <= a < n
          ensures Grid()[a] == t0[a]
        {
        }
      }
    }

    /** The second loop of the reduction: every column minus its own minimum. */
    method SubtractColumnMinimaInPlace()
      requires Valid()
      modifies matrix
      ensures Grid() == SubtractColumnMinima(old(Grid()))
    {
      var n := matrix.Length0;
      ghost var g1 := Grid();
      ghost var t1 := SubtractColumnMinima(g1);
      ColumnPassCells(g1);
      for i := 0 to n
        invariant forall a, b :: 0 <= a < n && 0 <= b < n ==> matrix[a, b] == if b < i then t1[a][b] else g1[a][b]
      {
        assert ColumnOf(i) == Column(g1, i) by {
          forall a | 0 <= a < n
            ensures ColumnOf(i)[a] == Column(g1, i)[a]
          {
            assert ColumnOf(i)[a] == matrix[a, i];
          }
        }
        var currentColMin := MinOf(ColumnOf(i));
        SubtractFromColumn(i, currentColMin);
      }
      assert Grid() == t1 by {
        forall a | 0 <= a < n
          ensures Grid()[a] == t1[a]
        {
        }
      }
    }

    /** The inner loop of the row pass: every entry of row i minus `x`. */
    method SubtractFromRow(i: nat, x: int)
      requires Valid() && i < matrix.Length0
      modifies matrix
      ensures forall a, b :: 0 <= a < matrix.Length0 && 0 <= b < matrix.Length1 ==>
        matrix[a, b] == if a == i then old(matrix[a, b]) - x else old(matrix[a, b])
    {
      for j := 0 to matrix.Length1
        invariant forall a, b :: 0 <= a < matrix.Length0 && 0 <= b < matrix.Length1 ==>
          matrix[a, b] == if a == i && b < j then old(matrix[a, b]) - x else old(matrix[a, b])
      {
        matrix[i, j] := matrix[i, j] - x;
      }
    }

    /** The inner loop of the column pass: every entry of column j minus `x`. */
    method SubtractFromColumn(j: nat, x: int)
      requires Valid() && j < matrix.Length1
      modifies matrix
      ensures forall a, b :: 0 <= a < matrix.Length0 && 0 <= b < matrix.Length1 ==>
        matrix[a, b] == if b == j then old(matrix[a, b]) - x else old(matrix[a, b])
    {
      for i := 0 to matrix.Length0
        invariant forall a, b :: 0 <= a < matrix.Length0 && 0 <= b < matrix.Length1 ==>
          matrix[a, b] == if b == j && a < i then old(matrix[a, b]) - x else old(matrix[a, b])
      {
        matrix[i, j] := matrix[i, j] - x;
      }
    }

    /**
     * Stars ("squares") a first set of zeros: scanning row by row, left to
     * right, a zero is squared when its row and its column have no square yet.
     */
    method Step2()
      requires Valid()
      requires forall k :: 0 <= k < squareInRow.Length ==> squareInRow[k] == -1 && squareInCol[k] == -1
      modifies squareInRow, squareInCol
      ensures Consistent(squareInRow[..], squareInCol[..], matrix.Length0)
      ensures ZeroOnMatch(Grid(), squareInCol[..])
      ensures FirstFit(Grid(), squareInRow[..], squareInCol[..])
      ensures forall i, j :: 0 <= i < matrix.Length0 && 0 <= j < matrix.Length0 && Grid()[i][j] == 0 ==>
        squareInRow[i] != -1 || squareInCol[j] != -1
    {
      var n := matrix.Length0;
      var rowHasSquare := new int[n](_ => 0);
      var colHasSquare := new int[n](_ => 0);
      FirstFitStart(Grid(), squareInRow[..], squareInCol[..]);
      for i := 0 to n
        invariant Consistent(squareInRow[..], squareInCol[..], n)
        invariant FirstFitRows(Grid(), squareInRow[..], squareInCol[..], i)
        invariant HasSquareFlags(rowHasSquare, colHasSquare)
      {
        SquareRow(i, rowHasSquare, colHasSquare);
      }
      FirstFitDone(Grid(), squareInRow[..], squareInCol[..]);
    }

    /** The has-square flags of the first-fit scan mirror the matching. */
    ghost predicate HasSquareFlags(rowHasSquare: array<int>, colHasSquare: array<int>)
      reads squareInRow, squareInCol, rowHasSquare, colHasSquare
    {
      && rowHasSquare.Length == squareInRow.Length && colHasSquare.Length == squareInCol.Length
      && (forall a :: 0 <= a < rowHasSquare.Length ==> rowHasSquare[a] == (if squareInRow[a] != -1 then 1 else 0))
      && (forall b :: 0 <= b < colHasSquare.Length ==> colHasSquare[b] == (if squareInCol[b] != -1 then 1 else 0))
    }

    /** One row of the first-fit scan: square the leftmost zero whose row and column have no square. */
    method SquareRow(i: nat, rowHasSquare: array<int>, colHasSquare: array<int>)
      requires Valid() && i < matrix.Length0
      requires rowHasSquare != colHasSquare
      requires {rowHasSquare, colHasSquare} !! {squareInRow, squareInCol}
      requires Consistent(squareInRow[..], squareInCol[..], matrix.Length0)
      requires FirstFitRows(Grid(), squareInRow[..], squareInCol[..], i)
      requires HasSquareFlags(rowHasSquare, colHasSquare)
      modifies squareInRow, squareInCol, rowHasSquare, colHasSquare
      ensures Consistent(squareInRow[..], squareInCol[..], matrix.Length0)
      ensures FirstFitRows(Grid(), squareInRow[..], squareInCol[..], i + 1)
      ensures HasSquareFlags(rowHasSquare, colHasSquare)
    {
      var n := matrix.Length0;
      ghost var g := Grid();
      ghost var row, col := squareInRow[..], squareInCol[..];
      FirstFitStartRow(g, row, col, i);
      for j := 0 to n
        invariant squareInRow[..] == row && squareInCol[..] == col
        invariant Consistent(row, col, n) && FirstFitScan(g, row, col, i, j)
        invariant HasSquareFlags(rowHasSquare, colHasSquare)
      {
        row, col := SquareCell(i, j, rowHasSquare, colHasSquare, g, row, col);
      }
      FirstFitEndRow(g, row, col, i);
    }

    /** One cell of the first-fit scan: square it if it holds a zero and its row and column have no square. */
    method SquareCell(i: nat, j: nat, rowHasSquare: array<int>, colHasSquare: array<int>,
                      ghost g: seq<seq<int>>, ghost row: seq<int>, ghost col: seq<int>)
      returns (ghost row': seq<int>, ghost col': seq<int>)
      requires Valid() && i < matrix.Length0 && j < matrix.Length0 && Grid() == g
      requires rowHasSquare != colHasSquare
      requires {rowHasSquare, colHasSquare} !! {squareInRow, squareInCol}
      requires squareInRow[..] == row && squareInCol[..] == col
      requires Consistent(row, col, matrix.Length0) && FirstFitScan(g, row, col, i, j)
      requires HasSquareFlags(rowHasSquare, colHasSquare)
      modifies squareInRow, squareInCol, rowHasSquare, colHasSquare
      ensures squareInRow[..] == row' && squareInCol[..] == col'
      ensures Consistent(row', col', matrix.Length0) && FirstFitScan(g, row', col', i, j + 1)
      ensures HasSquareFlags(rowHasSquare, colHasSquare)
    {
      row', col' := row, col;
      if matrix[i, j] == 0 && rowHasSquare[i] == 0 && colHasSquare[j] == 0 {
        FirstFitSquare(g, row, col, i, j);
        rowHasSquare[i] := 1;
        colHasSquare[j] := 1;
        squareInRow[i] := j;
        squareInCol[j] := i;
        row', col' := row[i := j], col[j := i];
      } else {
        FirstFitSkip(g, row, col, i, j);
      }
    }

    /** Covers exactly the matched columns. */
    method Step3()
      requires Valid()
      modifies colIsCovered
      ensures forall j :: 0 <= j < colIsCovered.Length ==> colIsCovered[j] == if squareInCol[j] != -1 then 1 else 0
      ensures Grid() == old(Grid()) && squareInRow[..] == old(squareInRow[..]) && squareInCol[..] == old(squareInCol[..])
      ensures rowIsCovered[..] == old(rowIsCovered[..]) && staredZeroesInRow[..] == old(staredZeroesInRow[..])
    {
      for k := 0 to squareInCol.Length
        invariant forall j :: 0 <= j < k ==> colIsCovered[j] == if squareInCol[j] != -1 then 1 else 0
      {
        colIsCovered[k] := if squareInCol[k] != -1 then 1 else 0;
      }
    }

    /**
     * Looks, row by row and left to right, for a zero whose row and column
     * are uncovered; primes the first one found and returns its cell, or
     * returns None, priming nothing, when there is none.
     */
    method Step4() returns (mainZero: Option<(int, int)>)
      requires Valid()
      modifies staredZeroesInRow
      ensures Grid() == old(Grid()) && squareInRow[..] == old(squareInRow[..]) && squareInCol[..] == old(squareInCol[..])
      ensures rowIsCovered[..] == old(rowIsCovered[..]) && colIsCovered[..] == old(colIsCovered[..])
      ensures mainZero.None? ==> staredZeroesInRow[..] == old(staredZeroesInRow[..])
      ensures mainZero.None? ==> forall a, b :: 0 <= a < matrix.Length0 && 0 <= b < matrix.Length0 && rowIsCovered[a] == 0 && colIsCovered[b] == 0 ==> Grid()[a][b] != 0
      ensures mainZero.Some? ==>
        var (i, j) := mainZero.value;
        && 0 <= i < matrix.Length0 && 0 <= j < matrix.Length0
        && rowIsCovered[i] == 0 && colIsCovered[j] == 0 && Grid()[i][j] == 0
        && staredZeroesInRow[..] == old(staredZeroesInRow[..])[i := j]
        && forall a, b :: 0 <= a < matrix.Length0 && 0 <= b < matrix.Length0 && (a < i || (a == i && b < j)) && rowIsCovered[a] == 0 && colIsCovered[b] == 0 ==> Grid()[a][b] != 0
    {
      var n := matrix.Length0;
      for i := 0 to n
        invariant forall a, b :: 0 <= a < i && 0 <= b < n && rowIsCovered[a] == 0 && colIsCovered[b] == 0 ==> matrix[a, b] != 0
      {
        if rowIsCovered[i] == 0 {
          for j := 0 to n
            invariant forall b :: 0 <= b < j && colIsCovered[b] == 0 ==> matrix[i, b] != 0
          {
            if matrix[i, j] == 0 && colIsCovered[j] == 0 {
              staredZeroesInRow[i] := j;
              return Some((i, j));
            }
          }
        }
      }
      return None;
    }

    /**
     * Augmentation: starting from the primed zero found in an unmatched row,
     * walk to the matched zero in its column and on to the primed zero of that
     * row, until a column without a match; then turn every primed zero of the
     * chain into a match, and clear all primes and covers.
     */
    method Step6(mainZero: (int, int), ghost g: seq<seq<int>>, ghost row: seq<int>, ghost col: seq<int>,
                 ghost rc: seq<int>, ghost cc: seq<int>, ghost primed: seq<int>, ghost rank: seq<nat>, ghost next: nat)
      returns (ghost rows: seq<int>, ghost cols: seq<int>)
      requires Valid() && Grid() == g && squareInRow[..] == row && squareInCol[..] == col && staredZeroesInRow[..] == primed
      requires PhaseInv(g, row, col, rc, cc, primed, rank, next)
      requires 0 <= mainZero.0 < |g| && row[mainZero.0] == -1
      requires 0 <= mainZero.1 < |g| && primed[mainZero.0] == mainZero.1
      modifies squareInRow, squareInCol, staredZeroesInRow, rowIsCovered, colIsCovered
      ensures AlternatingPath(row, col, primed, rows, cols, |g|)
      ensures rows[0] == mainZero.0 && cols[0] == mainZero.1
      ensures Augmented(row, col, rows, cols, squareInRow[..], squareInCol[..], |g|)
      ensures Consistent(squareInRow[..], squareInCol[..], |g|) && ZeroOnMatch(g, squareInCol[..])
      ensures CountMatched(squareInCol[..]) == CountMatched(col) + 1
      ensures forall k :: 0 <= k < |g| ==> staredZeroesInRow[k] == -1 && rowIsCovered[k] == 0 && colIsCovered[k] == 0
      ensures Grid() == g
    {
      var K;
      K, rows, cols := BuildChain(mainZero, g, row, col, rc, cc, primed, rank, next);
      FlipChain(K, rows, cols, row, col, primed);
      AugmentRestartsPhase(g, row, col, rc, cc, primed, rank, next, rows, cols, squareInRow[..], squareInCol[..]);
      Fill(staredZeroesInRow, -1);
      Fill(rowIsCovered, 0);
      Fill(colIsCovered, 0);
    }

    /**
     * The first loop of the augmentation: the chain of zeros from `mainZero`,
     * alternating between the match in the current column and the prime in
     * that match's row, up to a column without a match.
     */
    method BuildChain(mainZero: (int, int), ghost g: seq<seq<int>>, ghost row: seq<int>, ghost col: seq<int>,
                      ghost rc: seq<int>, ghost cc: seq<int>, ghost primed: seq<int>, ghost rank: seq<nat>, ghost next: nat)
      returns (K: seq<(int, int)>, ghost rows: seq<int>, ghost cols: seq<int>)
      requires Valid() && squareInCol[..] == col && staredZeroesInRow[..] == primed
      requires PhaseInv(g, row, col, rc, cc, primed, rank, next) && |g| == matrix.Length0
      requires 0 <= mainZero.0 < |g| && row[mainZero.0] == -1
      requires 0 <= mainZero.1 < |g| && primed[mainZero.0] == mainZero.1
      ensures Chain(K, rows, cols)
      ensures AlternatingPath(row, col, primed, rows, cols, |g|)
      ensures rows[0] == mainZero.0 && cols[0] == mainZero.1
      ensures |K| % 2 == 1 && K[0] == mainZero
      ensures forall t :: 0 <= t < |K| ==> 0 <= K[t].0 < |g| && 0 <= K[t].1 < |g|
    {
      var n := matrix.Length0;
      var i := mainZero.0;
      var j := mainZero.1;
      K := [mainZero];
      rows, cols := [i], [j];
      var found := true;
      while found
        invariant found
        invariant PathPrefix(col, primed, rank, rows, cols, n) && Chain(K, rows, cols)
        invariant rows[0] == mainZero.0 && cols[0] == mainZero.1
        invariant i == rows[|rows| - 1] && j == cols[|cols| - 1]
        decreases rank[i]
      {
        ghost var K0 := K;
        found := squareInCol[j] != -1;
        if found {
          K := K + [(squareInCol[j], j)];
        }
        if !found {
          break;
        }
        PathExtend(g, row, col, rc, cc, primed, rank, next, rows, cols);
        i := squareInCol[j];
        j := staredZeroesInRow[i];
        found := j != -1;
        if found {
          K := K + [(i, j)];
        }
        ChainExtend(K0, rows, cols, i, j);
        rows, cols := rows + [i], cols + [j];
      }
      PathEnds(row, col, primed, rank, rows, cols, n);
      ChainEnds(K, rows, cols, row, col, primed, n);
    }

    /** The second loop of the augmentation: flip every zero of the chain, in order. */
    method FlipChain(K: seq<(int, int)>, ghost rows: seq<int>, ghost cols: seq<int>,
                     ghost row0: seq<int>, ghost col0: seq<int>, ghost primed: seq<int>)
      requires Valid() && squareInRow[..] == row0 && squareInCol[..] == col0 && staredZeroesInRow[..] == primed
      requires Consistent(row0, col0, matrix.Length0) && Chain(K, rows, cols)
      requires AlternatingPath(row0, col0, primed, rows, cols, matrix.Length0)
      modifies squareInRow, squareInCol
      ensures Augmented(row0, col0, rows, cols, squareInRow[..], squareInCol[..], matrix.Length0)
    {
      var n := matrix.Length0;
      PathColumnsDistinct(row0, col0, primed, rows, cols, n);
      assert forall a, b :: 0 <= a < b < |rows| ==> rows[a] != rows[b] && cols[a] != cols[b];
      ghost var row, col := row0, col0;
      ghost var p := 0;
      for t := 0 to |K|
        invariant t <= 2 * p <= t + 1 && p <= |rows|
        invariant squareInRow[..] == row && squareInCol[..] == col
        invariant FlipProgress(row0, col0, rows, cols, row, col, n, p)
      {
        var zero := K[t];
        FlipStep(row0, col0, primed, rows, cols, K, row, col, n, t, p);
        FlipZero(zero.0, zero.1);
        ghost var flipped := Flip(row, col, primed, zero.0, zero.1);
        row, col := flipped.0, flipped.1;
        if 2 * p == t {
          p := p + 1;
        }
      }
      FlipDone(row0, col0, rows, cols, row, col, n);
    }

    /** One zero (r, c) of the chain: undo a match on it, then turn a prime on it into a match. */
    method FlipZero(r: int, c: int)
      requires Valid() && 0 <= r < matrix.Length0 && 0 <= c < matrix.Length0
      modifies squareInRow, squareInCol
      ensures (squareInRow[..], squareInCol[..]) == Flip(old(squareInRow[..]), old(squareInCol[..]), staredZeroesInRow[..], r, c)
    {
      if squareInCol[c] == r {
        squareInCol[c] := -1;
        squareInRow[r] := -1;
      }
      if staredZeroesInRow[r] == c {
        squareInRow[r] := c;
        squareInCol[c] := r;
      }
    }

    /**
     * Adjustment: find the smallest entry whose row and column are both
     * uncovered; if it is positive, subtract it from every doubly-uncovered
     * entry and add it to every doubly-covered one.
     */
    method Step7()
      requires Valid() && Flags(rowIsCovered[..]) && Flags(colIsCovered[..])
      modifies matrix
      ensures Grid() == Adjust(old(Grid()), rowIsCovered[..], colIsCovered[..])
    {
      var n := matrix.Length0;
      ghost var g := Grid();
      ghost var rc, cc := rowIsCovered[..], colIsCovered[..];
      var minUncoveredValue := MinUncoveredValue();
      AdjustCells(g, rc, cc);
      ghost var h := Adjust(g, rc, cc);
      if minUncoveredValue.Some? && minUncoveredValue.value > 0 {
        var d := minUncoveredValue.value;
        for i := 0 to n
          invariant forall a, b :: 0 <= a < n && 0 <= b < n ==> matrix[a, b] == if a < i then h[a][b] else g[a][b]
        {
          AdjustRow(i, d);
        }
      }
      assert Grid() == h by {
        forall a | 0 <= a < n
          ensures Grid()[a] == h[a]
        {
        }
      }
    }

    /**
     * The inner loop of the adjustment, on row i: add `d` where the column is
     * covered too, subtract it where neither is covered.
     */
    method AdjustRow(i: nat, d: int)
      requires Valid() && i < matrix.Length0
      modifies matrix
      ensures forall a, b :: 0 <= a < matrix.Length0 && 0 <= b < matrix.Length1 ==>
        matrix[a, b] == if a != i then old(matrix[a, b]) else old(matrix[a, b]) + Delta(rowIsCovered[a], colIsCovered[b], d)
    {
      for j := 0 to matrix.Length1
        invariant forall a, b :: 0 <= a < matrix.Length0 && 0 <= b < matrix.Length1 ==>
          matrix[a, b] == if a != i || b >= j then old(matrix[a, b]) else old(matrix[a, b]) + Delta(rowIsCovered[a], colIsCovered[b], d)
      {
        if rowIsCovered[i] == 1 && colIsCovered[j] == 1 {
          matrix[i, j] := matrix[i, j] + d;
        } else if rowIsCovered[i] == 0 && colIsCovered[j] == 0 {
          matrix[i, j] := matrix[i, j] - d;
        }
      }
    }

    /**
     * The first loop of the adjustment: the smallest entry whose row and
     * column are both uncovered, None when every row or every column is covered.
     */
    method MinUncoveredValue() returns (minUncoveredValue: Option<int>)
      requires Valid()
      ensures minUncoveredValue == MinUncovered(Grid(), rowIsCovered[..], colIsCovered[..], matrix.Length0)
    {
      var n := matrix.Length0;
      ghost var g := Grid();
      ghost var rc, cc := rowIsCovered[..], colIsCovered[..];
      minUncoveredValue := None;
      for i := 0 to n
        invariant minUncoveredValue == MinUncovered(g, rc, cc, i)
      {
        if rowIsCovered[i] == 1 {
          continue;
        }
        for j := 0 to n
          invariant minUncoveredValue == Scan(MinUncovered(g, rc, cc, i), g[i], cc, j)
        {
          if colIsCovered[j] == 0 && (minUncoveredValue.None? || matrix[i, j] < minUncoveredValue.value) {
            minUncoveredValue := Some(matrix[i, j]);
          }
        }
      }
    }
  }
}
