/**
 * The reduction step: subtract each row's minimum from that row, then each
 * column's minimum (of the row-reduced matrix) from that column.
 */
module Reduction {
  import opened Matrices

  /** The smallest entry of a non-empty sequence. */
  function MinOf(s: seq<int>): (m: int)
    requires |s| > 0
    ensures m in s
    ensures forall k :: 0 <= k < |s| ==> m <= s[k]
  {
    if |s| == 1 then s[0]
    else
      var rest := MinOf(s[..|s| - 1]);
      if s[|s| - 1] < rest then s[|s| - 1] else rest
  }

  /** Column j of a square matrix. */
  function Column(g: seq<seq<int>>, j: nat): seq<int>
    requires IsSquare(g, |g|) && j < |g|
  {
    seq(|g|, i requires 0 <= i < |g| => g[i][j])
  }

  function RowMinima(g: seq<seq<int>>): seq<int>
    requires |g| > 0 && IsSquare(g, |g|)
  {
    seq(|g|, i requires 0 <= i < |g| => MinOf(g[i]))
  }

  function ColumnMinima(g: seq<seq<int>>): seq<int>
    requires |g| > 0 && IsSquare(g, |g|)
  {
    seq(|g|, j requires 0 <= j < |g| => MinOf(Column(g, j)))
  }

  function SubtractRowMinima(g: seq<seq<int>>): seq<seq<int>>
    requires |g| > 0 && IsSquare(g, |g|)
  {
    Shift(g, RowMinima(g), Zeros(|g|))
  }

  function SubtractColumnMinima(g: seq<seq<int>>): seq<seq<int>>
    requires |g| > 0 && IsSquare(g, |g|)
  {
    Shift(g, Zeros(|g|), ColumnMinima(g))
  }

  /** Rows first, then columns of the row-reduced matrix. */
  function Reduce(g: seq<seq<int>>): seq<seq<int>>
    requires |g| > 0 && IsSquare(g, |g|)
  {
    SubtractColumnMinima(SubtractRowMinima(g))
  }

  /** Cell by cell, the row pass subtracts the row's minimum. */
  lemma RowPassCells(g: seq<seq<int>>)
    requires |g| > 0 && IsSquare(g, |g|)
    ensures IsSquare(SubtractRowMinima(g), |g|)
    ensures forall a, b :: 0 <= a < |g| && 0 <= b < |g| ==> SubtractRowMinima(g)[a][b] == g[a][b] - MinOf(g[a])
  {
  }

  /** Cell by cell, the column pass subtracts the column's minimum. */
  lemma ColumnPassCells(g: seq<seq<int>>)
    requires |g| > 0 && IsSquare(g, |g|)
    ensures IsSquare(SubtractColumnMinima(g), |g|)
    ensures forall a, b :: 0 <= a < |g| && 0 <= b < |g| ==> SubtractColumnMinima(g)[a][b] == g[a][b] - MinOf(Column(g, b))
  {
  }

  /** After the row pass every entry is non-negative and every row holds a zero. */
  lemma RowPass(g: seq<seq<int>>)
    requires |g| > 0 && IsSquare(g, |g|)
    ensures IsSquare(SubtractRowMinima(g), |g|)
    ensures NonNegative(SubtractRowMinima(g))
    ensures forall i :: 0 <= i < |g| ==> 0 in SubtractRowMinima(g)[i]
  {
    var h := SubtractRowMinima(g);
    forall i | 0 <= i < |g|
      ensures 0 in h[i]
    {
      var j :| 0 <= j < |g[i]| && g[i][j] == MinOf(g[i]);
      assert h[i][j] == 0;
    }
  }

  /** After reduction no entry is negative. */
  lemma {:induction false} ReduceNonNegative(g: seq<seq<int>>)
    requires |g| > 0 && IsSquare(g, |g|)
    ensures IsSquare(Reduce(g), |g|)
    ensures NonNegative(Reduce(g))
  {
    var h := SubtractRowMinima(g);
    var r := Reduce(g);
    forall i, j | 0 <= i < |g| && 0 <= j < |g|
      ensures r[i][j] >= 0
    {
      assert Column(h, j)[i] == h[i][j];
    }
  }

  /** After reduction every row contains a zero. */
  lemma {:induction false} ReduceZeroInEveryRow(g: seq<seq<int>>)
    requires |g| > 0 && IsSquare(g, |g|)
    ensures IsSquare(Reduce(g), |g|)
    ensures forall i :: 0 <= i < |g| ==> 0 in Reduce(g)[i]
  {
    var h := SubtractRowMinima(g);
    var r := Reduce(g);
    RowPass(g);
    forall i | 0 <= i < |g|
      ensures 0 in r[i]
    {
      var j :| 0 <= j < |g| && h[i][j] == 0;
      var m := MinOf(Column(h, j));
      assert Column(h, j)[i] == 0;
      assert m >= 0 by {
        var k :| 0 <= k < |g| && Column(h, j)[k] == m;
        assert h[k][j] >= 0;
      }
      assert r[i][j] == 0;
    }
  }

  /** After reduction every column contains a zero. */
  lemma {:induction false} ReduceZeroInEveryColumn(g: seq<seq<int>>)
    requires |g| > 0 && IsSquare(g, |g|)
    ensures IsSquare(Reduce(g), |g|)
    ensures forall j :: 0 <= j < |g| ==> 0 in Column(Reduce(g), j)
  {
    var h := SubtractRowMinima(g);
    var r := Reduce(g);
    forall j | 0 <= j < |g|
      ensures 0 in Column(r, j)
    {
      var c := Column(h, j);
      var i :| 0 <= i < |g| && c[i] == MinOf(c);
      assert Column(r, j)[i] == 0;
    }
  }

  /** Reduction is one shift: by the row minima and by the column minima of the row-reduced matrix. */
  lemma ReduceIsShift(g: seq<seq<int>>)
    requires |g| > 0 && IsSquare(g, |g|)
    ensures Reduce(g) == Shift(g, RowMinima(g), ColumnMinima(SubtractRowMinima(g)))
  {
    var n := |g|;
    var u, v := RowMinima(g), ColumnMinima(SubtractRowMinima(g));
    ShiftTwice(g, u, Zeros(n), Zeros(n), v);
    assert Plus(u, Zeros(n)) == u;
    assert Plus(Zeros(n), v) == v;
  }

  /**
   * Reduction lowers the cost of every permutation by the same constant,
   * so a permutation is optimal for the reduced matrix exactly when it is
   * optimal for the original.
   */
  lemma {:induction false} ReduceShiftsEveryCost(g: seq<seq<int>>, p: seq<int>)
    requires |g| > 0 && IsSquare(g, |g|)
    requires IsPermutation(p, |g|)
    ensures Cost(Reduce(g), p) == Cost(g, p) - Sum(RowMinima(g)) - Sum(ColumnMinima(SubtractRowMinima(g)))
  {
    ReduceIsShift(g);
    CostOfShift(g, RowMinima(g), ColumnMinima(SubtractRowMinima(g)), p);
  }
}
