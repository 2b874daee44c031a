/** Payoff matrices of a two-player strategic-form game.

    A payoff matrix is an m-by-n grid of integers: row i is an action of the
    row player, column j an action of the column player.  This module holds
    the shape predicates, the cell coordinates and the column and row maxima
    that the best-response comparison is made against.
 */
module Payoff {

  /** A zero-based (row action, column action) coordinate. */
  datatype Cell = Cell(row: nat, col: nat)

  /** M has exactly m rows, each of exactly n entries: a payoff matrix, or a
      grid of best-response marks. */
  predicate IsMatrix<T>(M: seq<seq<T>>, m: nat, n: nat) {
    |M| == m && forall i :: 0 <= i < m ==> |M[i]| == n
  }

  /** The number of columns, read off the first row (0 for a matrix without rows). */
  function Cols(M: seq<seq<int>>): nat {
    if |M| == 0 then 0 else |M[0]|
  }

  /** Both matrices are rectangular and of one and the same shape. */
  predicate SameShape(A: seq<seq<int>>, B: seq<seq<int>>) {
    IsMatrix(A, |A|, Cols(A)) && IsMatrix(B, |A|, Cols(A))
  }

  /** The cell lies inside an m-by-n grid. */
  predicate InGrid(c: Cell, m: nat, n: nat) {
    c.row < m && c.col < n
  }

  /** The largest entry of a non-empty sequence. */
  function Max(s: seq<int>): (r: int)
    requires |s| > 0
    ensures r in s
    ensures forall k :: 0 <= k < |s| ==> s[k] <= r
  {
    if |s| == 1 then s[0]
    else
      var rest := Max(s[1..]);
      assert forall k :: 1 <= k < |s| ==> s[k] == s[1..][k - 1];
      if s[0] >= rest then s[0] else rest
  }

  /** Column j of M, top to bottom. */
  function Column(M: seq<seq<int>>, j: nat): (r: seq<int>)
    requires forall i :: 0 <= i < |M| ==> j < |M[i]|
    ensures |r| == |M|
    ensures forall i :: 0 <= i < |M| ==> r[i] == M[i][j]
  {
    seq(|M|, i requires 0 <= i < |M| => M[i][j])
  }

  /** The largest entry of column j: the best payoff the row player can get
      against column action j. */
  function ColMax(A: seq<seq<int>>, j: nat): (r: int)
    requires |A| > 0
    requires forall i :: 0 <= i < |A| ==> j < |A[i]|
    ensures exists i :: 0 <= i < |A| && A[i][j] == r
    ensures forall i :: 0 <= i < |A| ==> A[i][j] <= r
  {
    var col := Column(A, j);
    var r := Max(col);
    assert exists i :: 0 <= i < |col| && col[i] == r;
    r
  }

  /** The largest entry of row i: the best payoff the column player can get
      against row action i. */
  function RowMax(B: seq<seq<int>>, i: nat): (r: int)
    requires i < |B| && |B[i]| > 0
    ensures exists j :: 0 <= j < |B[i]| && B[i][j] == r
    ensures forall j :: 0 <= j < |B[i]| ==> B[i][j] <= r
  {
    Max(B[i])
  }
}
