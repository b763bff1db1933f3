/**
 * The bookkeeping of one search phase of the solver: which rows and columns
 * are covered, which zeros are primed, and what must hold between them
 * while the main loop looks for an augmenting path.
 *
 * `rank[i]` is ghost bookkeeping: the order in which row i was primed in
 * the current phase (`next` is the next rank to hand out). Following a
 * primed zero to the matched zero in its column always leads to a row primed
 * earlier, which is why the path builder of the augmentation terminates.
 */
module Covering {
  import opened Matrices
  import opened Adjustment
  import opened Matching

  /** The invariant of the solver's main loop, within one phase. */
  predicate PhaseInv(g: seq<seq<int>>, row: seq<int>, col: seq<int>, rc: seq<int>, cc: seq<int>,
                     primed: seq<int>, rank: seq<nat>, next: nat)
  {
    && PhaseShape(g, row, col, rc, cc, primed, rank)
    && CoverRules(row, col, rc, cc, primed)
    && PrimeRules(g, row, col, cc, primed, rank, next)
  }

  /** Sizes, flags, a consistent matching on zeros, no negative entry. */
  predicate PhaseShape(g: seq<seq<int>>, row: seq<int>, col: seq<int>, rc: seq<int>, cc: seq<int>,
                       primed: seq<int>, rank: seq<nat>)
  {
    var n := |g|;
    && IsSquare(g, n)
    && |rc| == n && |cc| == n && |primed| == n && |rank| == n
    && Flags(rc) && Flags(cc)
    && Consistent(row, col, n) && ZeroOnMatch(g, col) && NonNegative(g)
  }

  /** Which rows and columns are covered. */
  predicate CoverRules(row: seq<int>, col: seq<int>, rc: seq<int>, cc: seq<int>, primed: seq<int>)
    requires |row| == |col| == |rc| == |cc| == |primed|
    requires forall i :: 0 <= i < |row| ==> -1 <= row[i] < |row|
  {
    var n := |row|;
    // unmatched rows and columns are uncovered
    && (forall i :: 0 <= i < n && row[i] == -1 ==> rc[i] == 0)
    && (forall j :: 0 <= j < n && col[j] == -1 ==> cc[j] == 0)
    // a matched pair has exactly one of its row and its column covered
    && (forall i :: 0 <= i < n && row[i] != -1 ==> rc[i] + cc[row[i]] == 1)
    // covered rows are the primed matched rows
    && (forall i :: 0 <= i < n && rc[i] == 1 ==> primed[i] != -1)
    && (forall i :: 0 <= i < n && primed[i] != -1 && row[i] != -1 ==> rc[i] == 1)
  }

  /** A primed zero sits in an uncovered column, outside its row's match, and was primed after the match in its column. */
  predicate PrimeRules(g: seq<seq<int>>, row: seq<int>, col: seq<int>, cc: seq<int>, primed: seq<int>, rank: seq<nat>, next: nat)
    requires IsSquare(g, |g|) && |row| == |col| == |cc| == |primed| == |rank| == |g|
    requires forall j :: 0 <= j < |g| ==> -1 <= col[j] < |g|
  {
    var n := |g|;
    && (forall i :: 0 <= i < n ==> -1 <= primed[i] < n)
    && (forall i {:trigger primed[i]} :: 0 <= i < n && primed[i] != -1 ==>
          && cc[primed[i]] == 0 && g[i][primed[i]] == 0 && primed[i] != row[i] && rank[i] < next
          && (col[primed[i]] != -1 ==> rank[col[primed[i]]] < rank[i]))
  }

  /** After the matched columns are covered, with nothing primed and no row covered, a phase begins. */
  lemma StartPhase(g: seq<seq<int>>, row: seq<int>, col: seq<int>, rc: seq<int>, cc: seq<int>, primed: seq<int>, rank: seq<nat>)
    requires IsSquare(g, |g|) && Consistent(row, col, |g|) && ZeroOnMatch(g, col) && NonNegative(g)
    requires |rc| == |g| && |cc| == |g| && |primed| == |g| && |rank| == |g|
    requires forall i :: 0 <= i < |g| ==> rc[i] == 0 && primed[i] == -1
    requires forall j :: 0 <= j < |g| ==> cc[j] == (if col[j] != -1 then 1 else 0)
    ensures PhaseInv(g, row, col, rc, cc, primed, rank, 0)
    ensures CountMatched(col) < |g| || forall j :: 0 <= j < |g| ==> cc[j] != 0
  {
  }

  /** Following a primed zero to the matched zero in its column reaches a row primed earlier. */
  lemma PathStep(g: seq<seq<int>>, row: seq<int>, col: seq<int>, rc: seq<int>, cc: seq<int>,
                 primed: seq<int>, rank: seq<nat>, next: nat, i: nat)
    requires PhaseInv(g, row, col, rc, cc, primed, rank, next)
    requires i < |g| && primed[i] != -1 && col[primed[i]] != -1
    ensures primed[col[primed[i]]] != -1 && rank[col[primed[i]]] < rank[i]
  {
    var r := col[primed[i]];
    assert row[r] == primed[i];
  }

  /**
   * A prefix of the augmenting path: primed zeros at (rows[t], cols[t]),
   * each column's matched row the next row, ranks strictly falling.
   */
  predicate PathPrefix(col: seq<int>, primed: seq<int>, rank: seq<nat>, rows: seq<int>, cols: seq<int>, n: nat)
    requires |col| == n && |primed| == n && |rank| == n
  {
    && |rows| == |cols| >= 1
    && (forall t :: 0 <= t < |rows| ==> 0 <= rows[t] < n && 0 <= cols[t] < n && primed[rows[t]] == cols[t])
    && (forall t :: 0 <= t < |rows| - 1 ==> col[cols[t]] == rows[t + 1])
    && (forall s, t :: 0 <= s < t < |rows| ==> rank[rows[t]] < rank[rows[s]])
  }

  /**
   * While the last column of the prefix is matched, its matched row holds a
   * prime, and appending that row and prime keeps a prefix with a lower rank.
   */
  lemma PathExtend(g: seq<seq<int>>, row: seq<int>, col: seq<int>, rc: seq<int>, cc: seq<int>,
                   primed: seq<int>, rank: seq<nat>, next: nat, rows: seq<int>, cols: seq<int>)
    requires PhaseInv(g, row, col, rc, cc, primed, rank, next)
    requires PathPrefix(col, primed, rank, rows, cols, |g|)
    requires col[cols[|cols| - 1]] != -1
    ensures var r := col[cols[|cols| - 1]];
      && 0 <= r < |g| && primed[r] != -1
      && rank[r] < rank[rows[|rows| - 1]]
      && PathPrefix(col, primed, rank, rows + [r], cols + [primed[r]], |g|)
  {
    var last := |rows| - 1;
    PathStep(g, row, col, rc, cc, primed, rank, next, rows[last]);
  }

  /** A prefix from an unmatched row to an unmatched column is an alternating path. */
  lemma PathEnds(row: seq<int>, col: seq<int>, primed: seq<int>, rank: seq<nat>, rows: seq<int>, cols: seq<int>, n: nat)
    requires |row| == n && |col| == n && |primed| == n && |rank| == n
    requires PathPrefix(col, primed, rank, rows, cols, n)
    requires row[rows[0]] == -1 && col[cols[|cols| - 1]] == -1
    ensures AlternatingPath(row, col, primed, rows, cols, n)
  {
    forall s, t | 0 <= s < t < |rows|
      ensures rows[s] != rows[t]
    {
      assert rank[rows[t]] < rank[rows[s]];
    }
  }

  /** Priming an uncovered zero in an unmatched row keeps the invariant. */
  lemma PrimeUnmatchedRow(g: seq<seq<int>>, row: seq<int>, col: seq<int>, rc: seq<int>, cc: seq<int>,
                          primed: seq<int>, rank: seq<nat>, next: nat, i: nat, j: nat)
    requires PhaseInv(g, row, col, rc, cc, primed, rank, next)
    requires i < |g| && j < |g| && rc[i] == 0 && cc[j] == 0 && g[i][j] == 0 && row[i] == -1
    ensures PhaseInv(g, row, col, rc, cc, primed[i := j], rank[i := next], next + 1)
  {
    if col[j] != -1 {
      assert row[col[j]] == j;
    }
  }

  /**
   * Priming an uncovered zero in a matched row, covering that row and
   * uncovering its matched column keeps the invariant and covers one more row.
   */
  lemma PrimeMatchedRow(g: seq<seq<int>>, row: seq<int>, col: seq<int>, rc: seq<int>, cc: seq<int>,
                        primed: seq<int>, rank: seq<nat>, next: nat, i: nat, j: nat)
    requires PhaseInv(g, row, col, rc, cc, primed, rank, next)
    requires i < |g| && j < |g| && rc[i] == 0 && cc[j] == 0 && g[i][j] == 0 && row[i] != -1
    ensures PhaseInv(g, row, col, rc[i := 1], cc[row[i] := 0], primed[i := j], rank[i := next], next + 1)
    ensures CountCovered(rc[i := 1]) == CountCovered(rc) + 1
  {
    var n := |g|;
    var c := row[i];
    var rc', cc', primed', rank' := rc[i := 1], cc[c := 0], primed[i := j], rank[i := next];
    if col[j] != -1 {
      assert row[col[j]] == j;
    }
    forall k | 0 <= k < n && row[k] != -1
      ensures rc'[k] + cc'[row[k]] == 1
    {
      if k != i {
        assert row[k] != c;
      }
    }
    forall k | 0 <= k < n && primed'[k] != -1 && k != i
      ensures cc'[primed'[k]] == 0
      ensures col[primed'[k]] != -1 ==> rank'[col[primed'[k]]] < rank'[k]
    {
      if col[primed[k]] != -1 {
        assert row[col[primed[k]]] == primed[k];
      }
    }
    CountCoveredGrows(rc, i);
  }

  /** A positive adjustment amount means no unmatched row is primed (such a prime is a doubly-uncovered zero). */
  lemma PositiveAmountOnlyMatchedPrimes(g: seq<seq<int>>, row: seq<int>, col: seq<int>, rc: seq<int>, cc: seq<int>,
                                        primed: seq<int>, rank: seq<nat>, next: nat)
    requires PhaseInv(g, row, col, rc, cc, primed, rank, next)
    requires Amount(g, rc, cc) > 0
    ensures forall i :: 0 <= i < |g| && primed[i] != -1 ==> row[i] != -1
  {
    AdjustCells(g, rc, cc);
  }

  /** The adjustment step keeps the invariant. */
  lemma AdjustKeepsPhase(g: seq<seq<int>>, row: seq<int>, col: seq<int>, rc: seq<int>, cc: seq<int>,
                         primed: seq<int>, rank: seq<nat>, next: nat)
    requires PhaseInv(g, row, col, rc, cc, primed, rank, next)
    ensures PhaseInv(Adjust(g, rc, cc), row, col, rc, cc, primed, rank, next)
  {
    var n := |g|;
    var h := Adjust(g, rc, cc);
    if Amount(g, rc, cc) == 0 {
      assert h == g;
      return;
    }
    AdjustCells(g, rc, cc);
    AdjustNonNegative(g, rc, cc);
    PositiveAmountOnlyMatchedPrimes(g, row, col, rc, cc, primed, rank, next);
    assert ZeroOnMatch(h, col) by {
      forall j | 0 <= j < n && col[j] != -1
        ensures h[col[j]][j] == 0
      {
        assert row[col[j]] == j;
      }
    }
    forall i | 0 <= i < n && primed[i] != -1
      ensures h[i][primed[i]] == 0
    {
    }
  }

  /**
   * Augmenting along an alternating path of primed zeros gives a consistent
   * matching, still on zeros, with one more matched column.
   */
  lemma AugmentRestartsPhase(g: seq<seq<int>>, row: seq<int>, col: seq<int>, rc: seq<int>, cc: seq<int>,
                             primed: seq<int>, rank: seq<nat>, next: nat,
                             rows: seq<int>, cols: seq<int>, row2: seq<int>, col2: seq<int>)
    requires PhaseInv(g, row, col, rc, cc, primed, rank, next)
    requires AlternatingPath(row, col, primed, rows, cols, |g|)
    requires Augmented(row, col, rows, cols, row2, col2, |g|)
    ensures Consistent(row2, col2, |g|) && ZeroOnMatch(g, col2)
    ensures CountMatched(col2) == CountMatched(col) + 1
  {
    var n := |g|;
    AugmentKeepsConsistent(row, col, primed, rows, cols, row2, col2, n);
    forall t | 0 <= t < |rows|
      ensures g[rows[t]][cols[t]] == 0
    {
      assert primed[rows[t]] == cols[t];
    }
    AugmentKeepsZeros(g, col, rows, cols, col2, n);
  }

  /** While some column is unmatched there is a cell whose row and column are both uncovered. */
  lemma UncoveredCellExists(g: seq<seq<int>>, row: seq<int>, col: seq<int>, rc: seq<int>, cc: seq<int>,
                            primed: seq<int>, rank: seq<nat>, next: nat, j: nat)
    requires PhaseInv(g, row, col, rc, cc, primed, rank, next)
    requires j < |g| && col[j] == -1
    ensures HasUncoveredCell(|g|, rc, cc, |g|)
  {
    var n := |g|;
    if forall i :: 0 <= i < n ==> row[i] != -1 {
      AllRowsMatchedAllColumnsMatched(row, col, n);
    }
    var i :| 0 <= i < n && row[i] == -1;
    assert rc[i] == 0 && cc[j] == 0;
  }

  /**
   * One adjustment `h` of `g` keeps the invariant and leaves `h` a shift of
   * `c`, by new potentials `u'`, `v'`.
   */
  lemma AdjustKeepsShift(c: seq<seq<int>>, u: seq<int>, v: seq<int>, g: seq<seq<int>>, h: seq<seq<int>>,
                         row: seq<int>, col: seq<int>, rc: seq<int>, cc: seq<int>, primed: seq<int>,
                         rank: seq<nat>, next: nat)
    returns (u': seq<int>, v': seq<int>)
    requires PhaseInv(g, row, col, rc, cc, primed, rank, next)
    requires IsSquare(c, |g|) && |u| == |g| && |v| == |g| && g == Shift(c, u, v)
    requires h == Adjust(g, rc, cc)
    ensures PhaseInv(h, row, col, rc, cc, primed, rank, next)
    ensures |u'| == |g| && |v'| == |g| && h == Shift(c, u', v')
  {
    AdjustKeepsPhase(g, row, col, rc, cc, primed, rank, next);
    AdjustComposes(c, u, v, rc, cc);
    var d := Amount(g, rc, cc);
    u', v' := Plus(u, RowAmounts(rc, d)), Plus(v, ColumnAmounts(cc, d));
  }

  /**
   * One adjustment `h` of `g` while some column is unmatched: besides the
   * above, a zero appears in a cell whose row and column are both uncovered.
   */
  lemma AdjustStep(c: seq<seq<int>>, u: seq<int>, v: seq<int>, g: seq<seq<int>>, h: seq<seq<int>>,
                   row: seq<int>, col: seq<int>, rc: seq<int>, cc: seq<int>, primed: seq<int>,
                   rank: seq<nat>, next: nat, j: nat)
    returns (u': seq<int>, v': seq<int>)
    requires PhaseInv(g, row, col, rc, cc, primed, rank, next)
    requires IsSquare(c, |g|) && |u| == |g| && |v| == |g| && g == Shift(c, u, v)
    requires j < |g| && col[j] == -1
    requires h == Adjust(g, rc, cc)
    ensures PhaseInv(h, row, col, rc, cc, primed, rank, next)
    ensures |u'| == |g| && |v'| == |g| && h == Shift(c, u', v')
    ensures exists a, b :: 0 <= a < |g| && 0 <= b < |g| && rc[a] == 0 && cc[b] == 0 && h[a][b] == 0
  {
    UncoveredCellExists(g, row, col, rc, cc, primed, rank, next, j);
    AdjustCreatesZero(g, rc, cc);
    u', v' := AdjustKeepsShift(c, u, v, g, h, row, col, rc, cc, primed, rank, next);
  }

  /** When every column is covered, every column is matched, to distinct rows, on zero cells. */
  lemma PhaseComplete(g: seq<seq<int>>, row: seq<int>, col: seq<int>, rc: seq<int>, cc: seq<int>,
                      primed: seq<int>, rank: seq<nat>, next: nat)
    requires PhaseInv(g, row, col, rc, cc, primed, rank, next)
    requires forall j :: 0 <= j < |g| ==> cc[j] != 0
    ensures IsPermutation(col, |g|)
    ensures forall j :: 0 <= j < |g| ==> g[col[j]][j] == 0
  {
    PerfectMatchingIsPermutation(row, col, |g|);
  }
}
