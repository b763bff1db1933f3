/**
 * Partial matchings between rows and columns, kept as two index arrays
 * (`row[i]`: the column matched to row i, `col[j]`: the row matched to
 * column j, -1 for none), and augmentation along an alternating path.
 */
module Matching {
  import opened Matrices

  /** The two index arrays are in range and describe the same matching. */
  predicate Consistent(row: seq<int>, col: seq<int>, n: nat)
  {
    && |row| == n && |col| == n
    && (forall i :: 0 <= i < n ==> -1 <= row[i] < n)
    && (forall j :: 0 <= j < n ==> -1 <= col[j] < n)
    && (forall i :: 0 <= i < n && row[i] != -1 ==> col[row[i]] == i)
    && (forall j :: 0 <= j < n && col[j] != -1 ==> row[col[j]] == j)
  }

  /** Every matched cell holds a zero. */
  predicate ZeroOnMatch(g: seq<seq<int>>, col: seq<int>)
    requires IsSquare(g, |col|) && forall j :: 0 <= j < |col| ==> -1 <= col[j] < |col|
  {
    forall j :: 0 <= j < |col| && col[j] != -1 ==> g[col[j]][j] == 0
  }

  /**
   * The matching a row-by-row, left-to-right first-fit scan of the zeros
   * picks: a zero left of its row's match, or anywhere in an unmatched row,
   * lies in a column already taken by an earlier row.
   */
  predicate FirstFit(g: seq<seq<int>>, row: seq<int>, col: seq<int>)
    requires IsSquare(g, |row|) && Consistent(row, col, |row|)
  {
    forall i, j :: 0 <= i < |row| && 0 <= j < |row| && g[i][j] == 0 && (row[i] == -1 || j < row[i]) ==> 0 <= col[j] < i
  }

  /** The first-fit scan has finished rows 0..i-1 and squared nothing further down. */
  predicate FirstFitRows(g: seq<seq<int>>, row: seq<int>, col: seq<int>, i: nat)
    requires IsSquare(g, |row|) && Consistent(row, col, |row|) && i <= |row|
  {
    var n := |row|;
    && (forall a :: i <= a < n ==> row[a] == -1)
    && (forall b :: 0 <= b < n && col[b] != -1 ==> col[b] < i)
    && ZeroOnMatch(g, col)
    && (forall a, b :: 0 <= a < i && 0 <= b < n && g[a][b] == 0 && (row[a] == -1 || b < row[a]) ==> 0 <= col[b] < a)
  }

  /** The first-fit scan has finished rows 0..i-1 and columns 0..j-1 of row i. */
  predicate FirstFitScan(g: seq<seq<int>>, row: seq<int>, col: seq<int>, i: nat, j: nat)
    requires IsSquare(g, |row|) && Consistent(row, col, |row|) && i < |row| && j <= |row|
  {
    var n := |row|;
    && (forall a :: i < a < n ==> row[a] == -1)
    && (row[i] == -1 || row[i] < j)
    && (forall b :: 0 <= b < n && col[b] != -1 ==> col[b] <= i)
    && ZeroOnMatch(g, col)
    && (forall a, b :: 0 <= a < i && 0 <= b < n && g[a][b] == 0 && (row[a] == -1 || b < row[a]) ==> 0 <= col[b] < a)
    && (forall b :: 0 <= b < j && g[i][b] == 0 && (row[i] == -1 || b < row[i]) ==> 0 <= col[b] < i)
  }

  lemma FirstFitStart(g: seq<seq<int>>, row: seq<int>, col: seq<int>)
    requires IsSquare(g, |row|) && Consistent(row, col, |row|)
    requires forall k :: 0 <= k < |row| ==> row[k] == -1 && col[k] == -1
    ensures FirstFitRows(g, row, col, 0)
  {
  }

  lemma FirstFitStartRow(g: seq<seq<int>>, row: seq<int>, col: seq<int>, i: nat)
    requires IsSquare(g, |row|) && Consistent(row, col, |row|) && i < |row|
    requires FirstFitRows(g, row, col, i)
    ensures FirstFitScan(g, row, col, i, 0)
  {
  }

  lemma FirstFitEndRow(g: seq<seq<int>>, row: seq<int>, col: seq<int>, i: nat)
    requires IsSquare(g, |row|) && Consistent(row, col, |row|) && i < |row|
    requires FirstFitScan(g, row, col, i, |row|)
    ensures FirstFitRows(g, row, col, i + 1)
  {
    var n := |row|;
    forall b | 0 <= b < n && col[b] != -1
      ensures col[b] < i + 1
    {
    }
  }

  /** Squaring the zero (i, j) when row i and column j have no square keeps the scan's invariant. */
  lemma FirstFitSquare(g: seq<seq<int>>, row: seq<int>, col: seq<int>, i: nat, j: nat)
    requires IsSquare(g, |row|) && Consistent(row, col, |row|) && i < |row| && j < |row|
    requires FirstFitScan(g, row, col, i, j)
    requires g[i][j] == 0 && row[i] == -1 && col[j] == -1
    ensures Consistent(row[i := j], col[j := i], |row|)
    ensures FirstFitScan(g, row[i := j], col[j := i], i, j + 1)
  {
  }

  /** Passing over a cell that cannot be squared keeps the scan's invariant. */
  lemma FirstFitSkip(g: seq<seq<int>>, row: seq<int>, col: seq<int>, i: nat, j: nat)
    requires IsSquare(g, |row|) && Consistent(row, col, |row|) && i < |row| && j < |row|
    requires FirstFitScan(g, row, col, i, j)
    requires !(g[i][j] == 0 && row[i] == -1 && col[j] == -1)
    ensures FirstFitScan(g, row, col, i, j + 1)
  {
    if g[i][j] == 0 && row[i] == -1 {
      assert col[j] != -1;
      assert row[col[j]] == j;
    }
  }

  /** When every row is scanned, the matching is the first-fit one, and every zero has its row or its column squared. */
  lemma FirstFitDone(g: seq<seq<int>>, row: seq<int>, col: seq<int>)
    requires IsSquare(g, |row|) && Consistent(row, col, |row|)
    requires FirstFitRows(g, row, col, |row|)
    ensures ZeroOnMatch(g, col) && FirstFit(g, row, col)
    ensures forall i, j :: 0 <= i < |row| && 0 <= j < |row| && g[i][j] == 0 ==> row[i] != -1 || col[j] != -1
  {
  }

  /** Number of matched entries (those other than -1). */
  function CountMatched(s: seq<int>): (k: nat)
    ensures k <= |s|
    ensures k == |s| <==> forall j :: 0 <= j < |s| ==> s[j] != -1
  {
    if s == [] then 0
    else CountMatched(s[..|s| - 1]) + (if s[|s| - 1] != -1 then 1 else 0)
  }

  /** Number of covered entries (those equal to 1). */
  function CountCovered(s: seq<int>): (k: nat)
    ensures k <= |s|
  {
    if s == [] then 0
    else CountCovered(s[..|s| - 1]) + (if s[|s| - 1] == 1 then 1 else 0)
  }

  /** Matching one more index, and changing nothing else about which are matched, adds one to the count. */
  lemma {:induction false} CountMatchedGrows(s: seq<int>, t: seq<int>, c: nat)
    requires |s| == |t| && c < |s| && s[c] == -1 && t[c] != -1
    requires forall j :: 0 <= j < |s| && j != c ==> (t[j] != -1 <==> s[j] != -1)
    ensures CountMatched(t) == CountMatched(s) + 1
  {
    var m := |s| - 1;
    if c < m {
      CountMatchedGrows(s[..m], t[..m], c);
    } else {
      CountMatchedSame(s[..m], t[..m]);
    }
  }

  lemma {:induction false} CountMatchedSame(s: seq<int>, t: seq<int>)
    requires |s| == |t|
    requires forall j :: 0 <= j < |s| ==> (t[j] != -1 <==> s[j] != -1)
    ensures CountMatched(t) == CountMatched(s)
  {
    if s != [] {
      CountMatchedSame(s[..|s| - 1], t[..|t| - 1]);
    }
  }

  /** Covering one uncovered index adds one to the count of covered ones. */
  lemma {:induction false} CountCoveredGrows(s: seq<int>, c: nat)
    requires c < |s| && s[c] != 1
    ensures CountCovered(s[c := 1]) == CountCovered(s) + 1
  {
    var m := |s| - 1;
    if c < m {
      assert s[c := 1][..m] == s[..m][c := 1];
      CountCoveredGrows(s[..m], c);
    } else {
      assert s[c := 1][..m] == s[..m];
    }
  }

  /** If every row is matched then, by pigeonhole, so is every column. */
  lemma {:induction false} AllRowsMatchedAllColumnsMatched(row: seq<int>, col: seq<int>, n: nat)
    requires Consistent(row, col, n)
    requires forall i :: 0 <= i < n ==> row[i] != -1
    ensures forall j :: 0 <= j < n ==> col[j] != -1
  {
    assert IsPermutation(row, n) by {
      forall a, b | 0 <= a < b < n
        ensures row[a] != row[b]
      {
        assert col[row[a]] == a && col[row[b]] == b;
      }
    }
    PermutationIsOnto(row, n);
    forall j | 0 <= j < n
      ensures col[j] != -1
    {
      assert j in row;
      var i :| 0 <= i < n && row[i] == j;
    }
  }

  /** A matching in which every column is matched gives each column a distinct row: a permutation. */
  lemma {:induction false} PerfectMatchingIsPermutation(row: seq<int>, col: seq<int>, n: nat)
    requires Consistent(row, col, n)
    requires forall j :: 0 <= j < n ==> col[j] != -1
    ensures IsPermutation(col, n)
  {
    forall a, b | 0 <= a < b < n
      ensures col[a] != col[b]
    {
      assert row[col[a]] == a && row[col[b]] == b;
    }
  }

  // ---------------------------------------------------------------------
  // Augmentation

  /**
   * An alternating path: primed zeros (rows[t], cols[t]) linked by matched
   * zeros (rows[t+1], cols[t]). It starts in an unmatched row and ends in
   * an unmatched column.
   */
  predicate AlternatingPath(row: seq<int>, col: seq<int>, primed: seq<int>, rows: seq<int>, cols: seq<int>, n: nat)
    requires |row| == n && |col| == n && |primed| == n
  {
    && |rows| == |cols| >= 1
    && (forall t :: 0 <= t < |rows| ==> 0 <= rows[t] < n && 0 <= cols[t] < n && primed[rows[t]] == cols[t])
    && (forall s, t :: 0 <= s < t < |rows| ==> rows[s] != rows[t])
    && row[rows[0]] == -1
    && (forall t :: 0 <= t < |rows| - 1 ==> col[cols[t]] == rows[t + 1])
    && col[cols[|cols| - 1]] == -1
  }

  /** The columns of an alternating path are distinct too. */
  lemma PathColumnsDistinct(row: seq<int>, col: seq<int>, primed: seq<int>, rows: seq<int>, cols: seq<int>, n: nat)
    requires |row| == n && |col| == n && |primed| == n
    requires AlternatingPath(row, col, primed, rows, cols, n)
    ensures forall s, t :: 0 <= s < t < |cols| ==> cols[s] != cols[t]
  {
    var last := |cols| - 1;
    forall s, t | 0 <= s < t < |cols|
      ensures cols[s] != cols[t]
    {
      if t < last {
        assert col[cols[s]] == rows[s + 1] && col[cols[t]] == rows[t + 1];
      } else {
        assert col[cols[s]] == rows[s + 1];
      }
    }
  }

  /** `row2`/`col2` are `row`/`col` with every primed zero of the path made a match. */
  predicate Augmented(row: seq<int>, col: seq<int>, rows: seq<int>, cols: seq<int>, row2: seq<int>, col2: seq<int>, n: nat)
    requires |row| == n && |col| == n && |rows| == |cols|
    requires forall t :: 0 <= t < |rows| ==> 0 <= rows[t] < n && 0 <= cols[t] < n
  {
    && |row2| == n && |col2| == n
    && (forall t :: 0 <= t < |rows| ==> row2[rows[t]] == cols[t] && col2[cols[t]] == rows[t])
    && (forall i :: 0 <= i < n && i !in rows ==> row2[i] == row[i])
    && (forall j :: 0 <= j < n && j !in cols ==> col2[j] == col[j])
  }

  /** Each matched row on the path, after the first, is matched to the previous primed zero's column. */
  lemma PathRowsMatched(row: seq<int>, col: seq<int>, primed: seq<int>, rows: seq<int>, cols: seq<int>, n: nat)
    requires Consistent(row, col, n) && |primed| == n
    requires AlternatingPath(row, col, primed, rows, cols, n)
    ensures forall t :: 0 < t < |rows| ==> row[rows[t]] == cols[t - 1]
  {
    forall t | 0 < t < |rows|
      ensures row[rows[t]] == cols[t - 1]
    {
      assert col[cols[t - 1]] == rows[t];
    }
  }

  /** A row off the path is not matched to a column on it. */
  lemma OffPathRow(row: seq<int>, col: seq<int>, primed: seq<int>, rows: seq<int>, cols: seq<int>, n: nat, i: int)
    requires Consistent(row, col, n) && |primed| == n
    requires AlternatingPath(row, col, primed, rows, cols, n)
    requires 0 <= i < n && i !in rows && row[i] != -1
    ensures row[i] !in cols
  {
    forall t | 0 <= t < |cols|
      ensures cols[t] != row[i]
    {
      if t < |cols| - 1 {
        assert col[cols[t]] == rows[t + 1];
      }
    }
  }

  /** A column off the path is not matched to a row on it. */
  lemma OffPathColumn(row: seq<int>, col: seq<int>, primed: seq<int>, rows: seq<int>, cols: seq<int>, n: nat, j: int)
    requires Consistent(row, col, n) && |primed| == n
    requires AlternatingPath(row, col, primed, rows, cols, n)
    requires 0 <= j < n && j !in cols && col[j] != -1
    ensures col[j] !in rows
  {
    forall t | 0 <= t < |rows|
      ensures rows[t] != col[j]
    {
      if t > 0 {
        assert col[cols[t - 1]] == rows[t];
        assert row[rows[t]] == cols[t - 1];
      }
    }
  }

  /**
   * Flipping an alternating path keeps the two index arrays consistent,
   * matches the path's first row and last column in addition to everything
   * that was matched, and so adds one to the number of matched columns.
   */
  lemma {:induction false} AugmentKeepsConsistent(row: seq<int>, col: seq<int>, primed: seq<int>, rows: seq<int>, cols: seq<int>,
                                                  row2: seq<int>, col2: seq<int>, n: nat)
    requires Consistent(row, col, n) && |primed| == n
    requires AlternatingPath(row, col, primed, rows, cols, n)
    requires Augmented(row, col, rows, cols, row2, col2, n)
    ensures Consistent(row2, col2, n)
    ensures forall i :: 0 <= i < n ==> (row2[i] != -1 <==> row[i] != -1 || i == rows[0])
    ensures forall j :: 0 <= j < n ==> (col2[j] != -1 <==> col[j] != -1 || j == cols[|cols| - 1])
    ensures CountMatched(col2) == CountMatched(col) + 1
  {
    var last := |cols| - 1;
    PathRowsMatched(row, col, primed, rows, cols, n);
    forall i | 0 <= i < n
      ensures -1 <= row2[i] < n
      ensures row2[i] != -1 ==> col2[row2[i]] == i
      ensures row2[i] != -1 <==> row[i] != -1 || i == rows[0]
    {
      if i in rows {
        var t :| 0 <= t < |rows| && rows[t] == i;
        if t > 0 {
          assert row[rows[t]] == cols[t - 1];
        }
      } else if row[i] != -1 {
        OffPathRow(row, col, primed, rows, cols, n, i);
      }
    }
    forall j | 0 <= j < n
      ensures -1 <= col2[j] < n
      ensures col2[j] != -1 ==> row2[col2[j]] == j
      ensures col2[j] != -1 <==> col[j] != -1 || j == cols[last]
    {
      if j in cols {
        var t :| 0 <= t < |cols| && cols[t] == j;
        if t < last {
          assert col[cols[t]] == rows[t + 1];
        }
      } else if col[j] != -1 {
        OffPathColumn(row, col, primed, rows, cols, n, j);
      }
    }
    CountMatchedGrows(col, col2, cols[last]);
  }

  /** Flipping a path of zeros keeps every matched cell a zero. */
  lemma AugmentKeepsZeros(g: seq<seq<int>>, col: seq<int>, rows: seq<int>, cols: seq<int>, col2: seq<int>, n: nat)
    requires IsSquare(g, n) && |col| == n && |col2| == n && |rows| == |cols|
    requires forall j :: 0 <= j < n ==> -1 <= col[j] < n && -1 <= col2[j] < n
    requires forall t :: 0 <= t < |rows| ==> 0 <= rows[t] < n && 0 <= cols[t] < n && g[rows[t]][cols[t]] == 0
    requires ZeroOnMatch(g, col)
    requires forall t :: 0 <= t < |rows| ==> col2[cols[t]] == rows[t]
    requires forall j :: 0 <= j < n && j !in cols ==> col2[j] == col[j]
    ensures ZeroOnMatch(g, col2)
  {
    forall j | 0 <= j < n && col2[j] != -1
      ensures g[col2[j]][j] == 0
    {
      if j in cols {
        var t :| 0 <= t < |cols| && cols[t] == j;
      }
    }
  }

  // ---------------------------------------------------------------------
  // The chain of zeros and its flip, one zero at a time

  /**
   * The chain of zeros the augmentation collects, in order: primed zeros
   * (rows[s], cols[s]) interleaved with matched zeros (rows[s+1], cols[s]).
   */
  predicate Chain(K: seq<(int, int)>, rows: seq<int>, cols: seq<int>)
  {
    && |rows| == |cols| >= 1 && |K| == 2 * |rows| - 1
    && (forall s :: 0 <= s < |rows| ==> K[2 * s] == (rows[s], cols[s]))
    && (forall s :: 0 <= s < |rows| - 1 ==> K[2 * s + 1] == (rows[s + 1], cols[s]))
  }

  /** Two more zeros at the end of a chain: the match in the last column, then the prime in its row. */
  lemma ChainExtend(K: seq<(int, int)>, rows: seq<int>, cols: seq<int>, r: int, c: int)
    requires Chain(K, rows, cols)
    ensures Chain(K + [(r, cols[|cols| - 1])] + [(r, c)], rows + [r], cols + [c])
  {
    var K' := K + [(r, cols[|cols| - 1])] + [(r, c)];
    var rows', cols' := rows + [r], cols + [c];
    forall s | 0 <= s < |rows'| - 1
      ensures K'[2 * s + 1] == (rows'[s + 1], cols'[s])
    {
      if s < |rows| - 1 {
        assert K'[2 * s + 1] == K[2 * s + 1];
      }
    }
  }

  /** A chain along an alternating path starts with its first prime, lies in the matrix and ends in an unmatched column. */
  lemma ChainEnds(K: seq<(int, int)>, rows: seq<int>, cols: seq<int>, row: seq<int>, col: seq<int>, primed: seq<int>, n: nat)
    requires |row| == n && |col| == n && |primed| == n
    requires Chain(K, rows, cols) && AlternatingPath(row, col, primed, rows, cols, n)
    ensures |K| % 2 == 1 && K[0] == (rows[0], cols[0])
    ensures forall t :: 0 <= t < |K| ==> 0 <= K[t].0 < n && 0 <= K[t].1 < n
    ensures K[|K| - 1] == (rows[|rows| - 1], cols[|cols| - 1]) && col[K[|K| - 1].1] == -1
  {
    forall t | 0 <= t < |K|
      ensures 0 <= K[t].0 < n && 0 <= K[t].1 < n
    {
      var s := t / 2;
      if t == 2 * s {
        assert K[t] == (rows[s], cols[s]);
      } else {
        assert t == 2 * s + 1 && s < |rows| - 1;
        assert K[t] == (rows[s + 1], cols[s]);
      }
    }
    var last := |rows| - 1;
    assert K[|K| - 1] == K[2 * last] == (rows[last], cols[last]);
  }

  /**
   * One zero (r, c) of the chain: a match on it is undone, then a prime on
   * it becomes a match.
   */
  function Flip(row: seq<int>, col: seq<int>, primed: seq<int>, r: nat, c: nat): (rc: (seq<int>, seq<int>))
    requires r < |row| && r < |primed| && c < |col|
    ensures |rc.0| == |row| && |rc.1| == |col|
  {
    var (row1, col1) := if col[c] == r then (row[r := -1], col[c := -1]) else (row, col);
    if primed[r] == c then (row1[r := c], col1[c := r]) else (row1, col1)
  }

  /** The first `p` primed zeros of the path are matches now; every other row and column is as before. */
  predicate FlipProgress(row0: seq<int>, col0: seq<int>, rows: seq<int>, cols: seq<int>, row: seq<int>, col: seq<int>, n: nat, p: nat)
    requires |rows| == |cols| && p <= |rows|
    requires forall t :: 0 <= t < |rows| ==> 0 <= rows[t] < n && 0 <= cols[t] < n
  {
    && |row0| == n && |col0| == n && |row| == n && |col| == n
    && (forall s :: 0 <= s < p ==> row[rows[s]] == cols[s] && col[cols[s]] == rows[s])
    && (forall x :: 0 <= x < n && x !in rows[..p] ==> row[x] == row0[x])
    && (forall y :: 0 <= y < n && y !in cols[..p] ==> col[y] == col0[y])
  }

  /** Flipping the s-th primed zero of a path without repeated rows or columns makes it a match. */
  lemma FlipAtPrimed(row0: seq<int>, col0: seq<int>, primed: seq<int>, rows: seq<int>, cols: seq<int>,
                     row: seq<int>, col: seq<int>, n: nat, s: nat)
    requires |rows| == |cols| && |primed| == n
    requires forall t :: 0 <= t < |rows| ==> 0 <= rows[t] < n && 0 <= cols[t] < n
    requires forall a, b :: 0 <= a < b < |rows| ==> rows[a] != rows[b] && cols[a] != cols[b]
    requires s < |rows| && primed[rows[s]] == cols[s]
    requires FlipProgress(row0, col0, rows, cols, row, col, n, s)
    ensures var (row2, col2) := Flip(row, col, primed, rows[s], cols[s]);
      FlipProgress(row0, col0, rows, cols, row2, col2, n, s + 1)
  {
    var r, c := rows[s], cols[s];
    var (row2, col2) := Flip(row, col, primed, r, c);
    assert row2 == row[r := c] && col2 == col[c := r];
    forall t | 0 <= t < s + 1
      ensures row2[rows[t]] == cols[t] && col2[cols[t]] == rows[t]
    {
      if t < s {
        assert rows[t] != r && cols[t] != c;
      }
    }
    assert rows[..s + 1] == rows[..s] + [r];
    assert cols[..s + 1] == cols[..s] + [c];
  }

  /** Flipping a matched zero of the path, after the primed zero before it, changes nothing. */
  lemma FlipAtMatched(row0: seq<int>, col0: seq<int>, primed: seq<int>, rows: seq<int>, cols: seq<int>,
                      row: seq<int>, col: seq<int>, n: nat, s: nat)
    requires |rows| == |cols| && |primed| == n
    requires forall t :: 0 <= t < |rows| ==> 0 <= rows[t] < n && 0 <= cols[t] < n && primed[rows[t]] == cols[t]
    requires forall a, b :: 0 <= a < b < |rows| ==> rows[a] != rows[b] && cols[a] != cols[b]
    requires s + 1 < |rows| && FlipProgress(row0, col0, rows, cols, row, col, n, s + 1)
    ensures Flip(row, col, primed, rows[s + 1], cols[s]) == (row, col)
  {
    assert col[cols[s]] == rows[s];
    assert primed[rows[s + 1]] == cols[s + 1];
  }

  /**
   * Flipping the t-th zero of the chain, when the first p primed zeros are
   * already matches (p counts the primed zeros among the first t), keeps the
   * flip's progress: a primed zero becomes a match, a matched zero is left alone.
   */
  lemma FlipStep(row0: seq<int>, col0: seq<int>, primed: seq<int>, rows: seq<int>, cols: seq<int>, K: seq<(int, int)>,
                 row: seq<int>, col: seq<int>, n: nat, t: nat, p: nat)
    requires Chain(K, rows, cols) && |primed| == n
    requires forall s :: 0 <= s < |rows| ==> 0 <= rows[s] < n && 0 <= cols[s] < n && primed[rows[s]] == cols[s]
    requires forall a, b :: 0 <= a < b < |rows| ==> rows[a] != rows[b] && cols[a] != cols[b]
    requires t < |K| && t <= 2 * p <= t + 1 && p <= |rows|
    requires FlipProgress(row0, col0, rows, cols, row, col, n, p)
    ensures 0 <= K[t].0 < n && 0 <= K[t].1 < n
    ensures var p' := if 2 * p == t then p + 1 else p;
      var flipped := Flip(row, col, primed, K[t].0, K[t].1);
      p' <= |rows| && FlipProgress(row0, col0, rows, cols, flipped.0, flipped.1, n, p')
  {
    if 2 * p == t {
      assert K[2 * p] == (rows[p], cols[p]);
      FlipAtPrimed(row0, col0, primed, rows, cols, row, col, n, p);
    } else {
      var s := p - 1;
      assert K[2 * s + 1] == (rows[s + 1], cols[s]);
      FlipAtMatched(row0, col0, primed, rows, cols, row, col, n, s);
    }
  }

  /** Once every primed zero of the path is flipped, the matching is augmented along the path. */
  lemma FlipDone(row0: seq<int>, col0: seq<int>, rows: seq<int>, cols: seq<int>, row: seq<int>, col: seq<int>, n: nat)
    requires |rows| == |cols|
    requires forall t :: 0 <= t < |rows| ==> 0 <= rows[t] < n && 0 <= cols[t] < n
    requires FlipProgress(row0, col0, rows, cols, row, col, n, |rows|)
    ensures Augmented(row0, col0, rows, cols, row, col, n)
  {
    assert rows[..|rows|] == rows;
    assert cols[..|cols|] == cols;
  }
}
