/**
 * Square cost matrices, permutations and the cost of an assignment.
 *
 * An assignment is given column by column: `p[j]` is the row assigned to
 * column `j`, which is how the solver reports its result.
 */
module Matrices {

  datatype Option<T> = None | Some(value: T)

  /** Sum of a sequence, folded from its last element. */
  function Sum(s: seq<int>): int
  {
    if s == [] then 0 else Sum(s[..|s| - 1]) + s[|s| - 1]
  }

  /** `g` is an n x n matrix. */
  predicate IsSquare(g: seq<seq<int>>, n: nat)
  {
    |g| == n && forall i :: 0 <= i < n ==> |g[i]| == n
  }

  predicate NonNegative(g: seq<seq<int>>)
  {
    forall i, j :: 0 <= i < |g| && 0 <= j < |g[i]| ==> g[i][j] >= 0
  }

  /** `p` is a permutation of 0..n-1: in range and without repetition. */
  predicate IsPermutation(p: seq<int>, n: nat)
  {
    && |p| == n
    && (forall j :: 0 <= j < n ==> 0 <= p[j] < n)
    && (forall a, b :: 0 <= a < b < n ==> p[a] != p[b])
  }

  /** The entries `v[p[j]]`, in the order of `p`. */
  function Pick(v: seq<int>, p: seq<int>): seq<int>
    requires forall j :: 0 <= j < |p| ==> 0 <= p[j] < |v|
  {
    seq(|p|, j requires 0 <= j < |p| => v[p[j]])
  }

  /** Total cost of the cells (p[j], j) of `g`. */
  function Cost(g: seq<seq<int>>, p: seq<int>): int
    requires IsSquare(g, |p|) && forall j :: 0 <= j < |p| ==> 0 <= p[j] < |p|
  {
    Sum(seq(|p|, j requires 0 <= j < |p| => g[p[j]][j]))
  }

  /** `g` with `u[i]` taken from every entry of row i and `v[j]` from every entry of column j. */
  function Shift(g: seq<seq<int>>, u: seq<int>, v: seq<int>): seq<seq<int>>
    requires IsSquare(g, |g|) && |u| == |g| && |v| == |g|
  {
    seq(|g|, i requires 0 <= i < |g| => seq(|g|, j requires 0 <= j < |g| => g[i][j] - u[i] - v[j]))
  }

  function Zeros(n: nat): seq<int>
  {
    seq(n, _ => 0)
  }

  function Plus(a: seq<int>, b: seq<int>): seq<int>
    requires |a| == |b|
  {
    seq(|a|, k requires 0 <= k < |a| => a[k] + b[k])
  }

  // ---------------------------------------------------------------------
  // Sums

  lemma {:induction false} SumOfDifference(a: seq<int>, b: seq<int>, c: seq<int>)
    requires |a| == |b| == |c|
    requires forall k :: 0 <= k < |a| ==> a[k] == b[k] - c[k]
    ensures Sum(a) == Sum(b) - Sum(c)
  {
    if a != [] {
      var m := |a| - 1;
      SumOfDifference(a[..m], b[..m], c[..m]);
    }
  }

  lemma {:induction false} SumOfNonNegative(s: seq<int>)
    requires forall k :: 0 <= k < |s| ==> s[k] >= 0
    ensures Sum(s) >= 0
  {
    if s != [] {
      SumOfNonNegative(s[..|s| - 1]);
    }
  }

  lemma {:induction false} SumOfZeros(s: seq<int>)
    requires forall k :: 0 <= k < |s| ==> s[k] == 0
    ensures Sum(s) == 0
  {
    if s != [] {
      SumOfZeros(s[..|s| - 1]);
    }
  }

  /** Replacing one entry changes the sum by the difference. */
  lemma {:induction false} SumOfUpdate(s: seq<int>, k: nat, x: int)
    requires k < |s|
    ensures Sum(s[k := x]) == Sum(s) - s[k] + x
  {
    var m := |s| - 1;
    if k < m {
      assert s[k := x][..m] == s[..m][k := x];
      SumOfUpdate(s[..m], k, x);
    } else {
      assert s[k := x][..m] == s[..m];
    }
  }

  // ---------------------------------------------------------------------
  // Permutations

  lemma SubsetSize<T>(a: set<T>, b: set<T>)
    requires a <= b
    ensures |a| <= |b|
  {
    assert b == a + (b - a);
    assert a * (b - a) == {};
  }

  lemma {:induction false} ImageSize(p: seq<int>, k: nat)
    requires k <= |p|
    requires forall a, b :: 0 <= a < b < k ==> p[a] != p[b]
    ensures |set j | 0 <= j < k :: p[j]| == k
  {
    if k > 0 {
      ImageSize(p, k - 1);
      var before := set j | 0 <= j < k - 1 :: p[j];
      assert (set j | 0 <= j < k :: p[j]) == before + {p[k - 1]};
      assert p[k - 1] !in before;
    }
  }

  function Iota(n: nat): seq<int>
  {
    seq(n, i => i)
  }

  /** A permutation of 0..n-1 takes every value in 0..n-1 (pigeonhole). */
  lemma {:induction false} PermutationIsOnto(p: seq<int>, n: nat)
    requires IsPermutation(p, n)
    ensures forall r :: 0 <= r < n ==> r in p
  {
    var image := set j | 0 <= j < n :: p[j];
    var iota := Iota(n);
    var range := set j | 0 <= j < n :: iota[j];
    ImageSize(p, n);
    ImageSize(iota, n);
    assert forall j :: 0 <= j < n ==> p[j] == iota[p[j]];
    forall r | 0 <= r < n
      ensures r in p
    {
      if r !in image {
        assert r == iota[r] && r in range;
        assert |range - {r}| == n - 1;
        assert image <= range - {r};
        SubsetSize(image, range - {r});
        assert false;
      }
    }
  }

  lemma PickDropLast(v: seq<int>, p: seq<int>)
    requires |v| > 0 && IsPermutation(p, |v|) && p[|v| - 1] == |v| - 1
    ensures IsPermutation(p[..|v| - 1], |v| - 1)
    ensures Pick(v[..|v| - 1], p[..|v| - 1]) == Pick(v, p)[..|v| - 1]
  {
  }

  lemma PickMoveLast(v: seq<int>, p: seq<int>, k: nat)
    requires |v| > 0 && IsPermutation(p, |v|) && k < |v| - 1 && p[k] == |v| - 1
    ensures IsPermutation(p[..|v| - 1][k := p[|v| - 1]], |v| - 1)
    ensures Pick(v[..|v| - 1], p[..|v| - 1][k := p[|v| - 1]]) == Pick(v, p)[..|v| - 1][k := v[p[|v| - 1]]]
  {
  }

  /** Reordering the entries of `v` by a permutation does not change their sum. */
  lemma {:induction false} SumOfPermuted(v: seq<int>, p: seq<int>)
    requires IsPermutation(p, |v|)
    ensures Sum(Pick(v, p)) == Sum(v)
    decreases |v|
  {
    var n := |v|;
    if n == 0 {
      return;
    }
    var m := n - 1;
    PermutationIsOnto(p, n);
    assert m in p;
    var k :| 0 <= k < |p| && p[k] == m;
    var w := Pick(v, p);
    assert Sum(w) == Sum(w[..m]) + w[m];
    assert Sum(v) == Sum(v[..m]) + v[m];
    if k == m {
      PickDropLast(v, p);
      SumOfPermuted(v[..m], p[..m]);
    } else {
      PickMoveLast(v, p, k);
      SumOfPermuted(v[..m], p[..m][k := p[m]]);
      SumOfUpdate(w[..m], k, v[p[m]]);
    }
  }

  // ---------------------------------------------------------------------
  // Shifts and costs

  /** Shifting rows by `u` and columns by `v` lowers every permutation's cost by the same amount. */
  lemma CostOfShift(g: seq<seq<int>>, u: seq<int>, v: seq<int>, p: seq<int>)
    requires IsSquare(g, |g|) && |u| == |g| && |v| == |g|
    requires IsPermutation(p, |g|)
    ensures Cost(Shift(g, u, v), p) == Cost(g, p) - Sum(u) - Sum(v)
  {
    var n := |g|;
    var h := Shift(g, u, v);
    var a := seq(n, j requires 0 <= j < n => h[p[j]][j]);
    var b := seq(n, j requires 0 <= j < n => g[p[j]][j]);
    var bu := seq(n, j requires 0 <= j < n => g[p[j]][j] - u[p[j]]);
    SumOfDifference(a, bu, v);
    SumOfDifference(bu, b, Pick(u, p));
    SumOfPermuted(u, p);
  }

  /** Two shifts in a row are one shift by the summed amounts. */
  lemma ShiftTwice(g: seq<seq<int>>, u: seq<int>, v: seq<int>, u': seq<int>, v': seq<int>)
    requires IsSquare(g, |g|) && |u| == |v| == |u'| == |v'| == |g|
    ensures Shift(Shift(g, u, v), u', v') == Shift(g, Plus(u, u'), Plus(v, v'))
  {
    var a, b := Shift(Shift(g, u, v), u', v'), Shift(g, Plus(u, u'), Plus(v, v'));
    forall i | 0 <= i < |g|
      ensures a[i] == b[i]
    {
    }
  }

  /**
   * If `g` is a shift of `c`, has no negative entry and is zero on the cells
   * selected by `p`, then `p` is a cheapest permutation for `c`.
   */
  lemma {:induction false} ZeroCellsAreOptimal(c: seq<seq<int>>, u: seq<int>, v: seq<int>, p: seq<int>)
    requires IsSquare(c, |c|) && |u| == |c| && |v| == |c|
    requires NonNegative(Shift(c, u, v))
    requires IsPermutation(p, |c|)
    requires forall j :: 0 <= j < |c| ==> Shift(c, u, v)[p[j]][j] == 0
    ensures forall q :: IsPermutation(q, |c|) ==> Cost(c, p) <= Cost(c, q)
  {
    var n := |c|;
    var g := Shift(c, u, v);
    SumOfZeros(seq(n, j requires 0 <= j < n => g[p[j]][j]));
    CostOfShift(c, u, v, p);
    forall q | IsPermutation(q, n)
      ensures Cost(c, p) <= Cost(c, q)
    {
      SumOfNonNegative(seq(n, j requires 0 <= j < n => g[q[j]][j]));
      CostOfShift(c, u, v, q);
    }
  }
}
