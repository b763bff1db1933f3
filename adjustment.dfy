/**
 * The adjustment step: find the smallest entry whose row and column are
 * both uncovered; if it is positive, subtract it from every doubly-uncovered
 * entry and add it to every doubly-covered entry.
 *
 * Cover flags are 0 (uncovered) or 1 (covered), as in the solver's arrays.
 */
module Adjustment {
  import opened Matrices

  predicate Flags(s: seq<int>)
  {
    forall k :: 0 <= k < |s| ==> s[k] == 0 || s[k] == 1
  }

  /** Row a and column b of an n x n matrix are both uncovered, with a among the first i rows. */
  predicate HasUncoveredCell(n: nat, rc: seq<int>, cc: seq<int>, i: nat)
    requires i <= n == |rc| == |cc|
  {
    exists a, b :: 0 <= a < i && 0 <= b < n && rc[a] == 0 && cc[b] == 0
  }

  /**
   * One row of the minimum search: starting from `cur`, look at the first `k`
   * entries of `r` whose column is uncovered and keep any strictly smaller one.
   */
  function Scan(cur: Option<int>, r: seq<int>, cc: seq<int>, k: nat): Option<int>
    requires k <= |r| && k <= |cc|
  {
    if k == 0 then cur
    else
      var before := Scan(cur, r, cc, k - 1);
      if cc[k - 1] == 0 && (before.None? || r[k - 1] < before.value) then Some(r[k - 1]) else before
  }

  /**
   * The row scan finds the minimum of `cur` and the uncovered entries: it is
   * None only when both are absent, it is at most each of them, and it is one of them.
   */
  lemma {:induction false} ScanIsMinimum(cur: Option<int>, r: seq<int>, cc: seq<int>, k: nat)
    requires k <= |r| && k <= |cc|
    ensures var m := Scan(cur, r, cc, k);
      && (m.Some? <==> cur.Some? || exists j :: 0 <= j < k && cc[j] == 0)
      && (m.Some? && cur.Some? ==> m.value <= cur.value)
      && (m.Some? ==> forall j :: 0 <= j < k && cc[j] == 0 ==> m.value <= r[j])
      && (m.Some? ==> (cur.Some? && m.value == cur.value) || exists j :: 0 <= j < k && cc[j] == 0 && m.value == r[j])
  {
    if k > 0 {
      ScanIsMinimum(cur, r, cc, k - 1);
    }
  }

  /** The smallest entry over the first `i` rows whose row and column are uncovered; None if there is none. */
  function MinUncovered(g: seq<seq<int>>, rc: seq<int>, cc: seq<int>, i: nat): Option<int>
    requires IsSquare(g, |g|) && |rc| == |g| && |cc| == |g| && i <= |g|
  {
    if i == 0 then None
    else
      var before := MinUncovered(g, rc, cc, i - 1);
      if rc[i - 1] == 1 then before else Scan(before, g[i - 1], cc, |g|)
  }

  /**
   * The search over the first `i` rows finds a value exactly when some cell
   * there has its row and column uncovered, and the value is the smallest
   * such entry.
   */
  lemma {:induction false} MinUncoveredIsMinimum(g: seq<seq<int>>, rc: seq<int>, cc: seq<int>, i: nat)
    requires IsSquare(g, |g|) && |rc| == |g| && |cc| == |g| && i <= |g| && Flags(rc)
    ensures var m := MinUncovered(g, rc, cc, i);
      && (m.Some? <==> HasUncoveredCell(|g|, rc, cc, i))
      && (m.Some? ==> forall a, b :: 0 <= a < i && 0 <= b < |g| && rc[a] == 0 && cc[b] == 0 ==> m.value <= g[a][b])
      && (m.Some? ==> exists a, b :: 0 <= a < i && 0 <= b < |g| && rc[a] == 0 && cc[b] == 0 && g[a][b] == m.value)
  {
    if i > 0 {
      MinUncoveredIsMinimum(g, rc, cc, i - 1);
      if rc[i - 1] != 1 {
        ScanIsMinimum(MinUncovered(g, rc, cc, i - 1), g[i - 1], cc, |g|);
      }
    }
  }

  /** The amount the adjustment moves by: the doubly-uncovered minimum when it is positive, else 0. */
  function Amount(g: seq<seq<int>>, rc: seq<int>, cc: seq<int>): (d: int)
    requires IsSquare(g, |g|) && |rc| == |g| && |cc| == |g|
    ensures d >= 0
  {
    var m := MinUncovered(g, rc, cc, |g|);
    if m.Some? && m.value > 0 then m.value else 0
  }

  /** What an adjustment by `d` adds to a cell whose row and column cover flags are `r` and `c`. */
  function Delta(r: int, c: int, d: int): int
  {
    if r == 1 && c == 1 then d else if r == 0 && c == 0 then -d else 0
  }

  /** The adjustment: every cell moves by `Delta` of its flags and the amount, when the amount is positive. */
  function Adjust(g: seq<seq<int>>, rc: seq<int>, cc: seq<int>): seq<seq<int>>
    requires IsSquare(g, |g|) && |rc| == |g| && |cc| == |g|
  {
    var n := |g|;
    var d := Amount(g, rc, cc);
    if d > 0 then
      seq(n, i requires 0 <= i < n => seq(n, j requires 0 <= j < n => g[i][j] + Delta(rc[i], cc[j], d)))
    else g
  }

  function RowAmounts(rc: seq<int>, d: int): seq<int>
  {
    seq(|rc|, i requires 0 <= i < |rc| => if rc[i] == 0 then d else 0)
  }

  function ColumnAmounts(cc: seq<int>, d: int): seq<int>
  {
    seq(|cc|, j requires 0 <= j < |cc| => if cc[j] == 1 then -d else 0)
  }

  /**
   * What the adjustment does cell by cell: doubly-uncovered entries drop by the
   * amount, doubly-covered ones rise by it, singly-covered ones stay; and the
   * amount is the doubly-uncovered minimum when that is positive, else zero.
   */
  lemma AdjustCells(g: seq<seq<int>>, rc: seq<int>, cc: seq<int>)
    requires IsSquare(g, |g|) && |rc| == |g| && |cc| == |g| && Flags(rc) && Flags(cc)
    ensures IsSquare(Adjust(g, rc, cc), |g|)
    ensures var d := Amount(g, rc, cc);
      forall a, b :: 0 <= a < |g| && 0 <= b < |g| ==>
        Adjust(g, rc, cc)[a][b] == g[a][b] + Delta(rc[a], cc[b], d)
    ensures Amount(g, rc, cc) > 0 ==>
      forall a, b :: 0 <= a < |g| && 0 <= b < |g| && rc[a] == 0 && cc[b] == 0 ==> Amount(g, rc, cc) <= g[a][b]
    ensures Amount(g, rc, cc) == 0 ==>
      !HasUncoveredCell(|g|, rc, cc, |g|) ||
      exists a, b :: 0 <= a < |g| && 0 <= b < |g| && rc[a] == 0 && cc[b] == 0 && g[a][b] <= 0
  {
    MinUncoveredIsMinimum(g, rc, cc, |g|);
  }

  /** One cell of the adjustment. */
  lemma AdjustAt(g: seq<seq<int>>, rc: seq<int>, cc: seq<int>, a: nat, b: nat)
    requires IsSquare(g, |g|) && |rc| == |g| && |cc| == |g| && a < |g| && b < |g|
    ensures Adjust(g, rc, cc)[a][b] == g[a][b] + Delta(rc[a], cc[b], Amount(g, rc, cc))
  {
  }

  /** The adjustment is a shift by row and column amounts, so every permutation's cost moves by the same constant. */
  lemma AdjustIsShift(g: seq<seq<int>>, rc: seq<int>, cc: seq<int>)
    requires IsSquare(g, |g|) && |rc| == |g| && |cc| == |g| && Flags(rc) && Flags(cc)
    ensures Adjust(g, rc, cc) == Shift(g, RowAmounts(rc, Amount(g, rc, cc)), ColumnAmounts(cc, Amount(g, rc, cc)))
  {
    var n := |g|;
    var a, b := Adjust(g, rc, cc), Shift(g, RowAmounts(rc, Amount(g, rc, cc)), ColumnAmounts(cc, Amount(g, rc, cc)));
    forall i | 0 <= i < n
      ensures a[i] == b[i]
    {
    }
  }

  /**
   * Adjusting a shifted matrix is shifting the original by the potentials
   * plus the adjustment's row and column amounts.
   */
  lemma AdjustComposes(c: seq<seq<int>>, u: seq<int>, v: seq<int>, rc: seq<int>, cc: seq<int>)
    requires IsSquare(c, |c|) && |u| == |c| && |v| == |c| && |rc| == |c| && |cc| == |c| && Flags(rc) && Flags(cc)
    ensures var d := Amount(Shift(c, u, v), rc, cc);
      Adjust(Shift(c, u, v), rc, cc) == Shift(c, Plus(u, RowAmounts(rc, d)), Plus(v, ColumnAmounts(cc, d)))
  {
    var g := Shift(c, u, v);
    var d := Amount(g, rc, cc);
    AdjustIsShift(g, rc, cc);
    ShiftTwice(c, u, v, RowAmounts(rc, d), ColumnAmounts(cc, d));
  }

  /** The adjustment keeps every entry non-negative. */
  lemma AdjustNonNegative(g: seq<seq<int>>, rc: seq<int>, cc: seq<int>)
    requires IsSquare(g, |g|) && |rc| == |g| && |cc| == |g| && Flags(rc) && Flags(cc)
    requires NonNegative(g)
    ensures NonNegative(Adjust(g, rc, cc))
  {
    AdjustCells(g, rc, cc);
  }

  /** On a non-negative matrix with a doubly-uncovered cell, the adjustment leaves a doubly-uncovered zero. */
  lemma AdjustCreatesZero(g: seq<seq<int>>, rc: seq<int>, cc: seq<int>)
    requires IsSquare(g, |g|) && |rc| == |g| && |cc| == |g| && Flags(rc) && Flags(cc)
    requires NonNegative(g) && HasUncoveredCell(|g|, rc, cc, |g|)
    ensures exists a, b :: 0 <= a < |g| && 0 <= b < |g| && rc[a] == 0 && cc[b] == 0 && Adjust(g, rc, cc)[a][b] == 0
  {
    var n := |g|;
    var m := MinUncovered(g, rc, cc, n);
    MinUncoveredIsMinimum(g, rc, cc, n);
    var a, b :| 0 <= a < n && 0 <= b < n && rc[a] == 0 && cc[b] == 0 && g[a][b] == m.value;
    var d := Amount(g, rc, cc);
    assert d == g[a][b] by {
      assert g[a][b] >= 0;
    }
    AdjustAt(g, rc, cc, a, b);
  }

  /** When a non-negative matrix already has a doubly-uncovered zero, the adjustment changes nothing. */
  lemma AdjustIdleOnZero(g: seq<seq<int>>, rc: seq<int>, cc: seq<int>, a: nat, b: nat)
    requires IsSquare(g, |g|) && |rc| == |g| && |cc| == |g| && Flags(rc)
    requires NonNegative(g) && a < |g| && b < |g| && rc[a] == 0 && cc[b] == 0 && g[a][b] == 0
    ensures Adjust(g, rc, cc) == g
  {
    assert HasUncoveredCell(|g|, rc, cc, |g|);
    MinUncoveredIsMinimum(g, rc, cc, |g|);
  }
}
