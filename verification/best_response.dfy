/** Best responses of the two players.

    The row player's payoff matrix A is compared column by column: row i is a
    best response to column action j when A[i][j] attains the maximum of
    column j.  The column player's matrix B is compared row by row: column j
    is a best response to row action i when B[i][j] attains the maximum of
    row i.  Ties are kept: every maximising action is marked.
 */
module BestResponse {
  import opened Payoff

  /** Row i is a best response to column j: no other row pays the row player more. */
  predicate RowPlayerBest(A: seq<seq<int>>, i: nat, j: nat)
    requires IsMatrix(A, |A|, Cols(A)) && i < |A| && j < Cols(A)
  {
    forall k :: 0 <= k < |A| ==> A[k][j] <= A[i][j]
  }

  /** Column j is a best response to row i: no other column pays the column player more. */
  predicate ColPlayerBest(B: seq<seq<int>>, i: nat, j: nat)
    requires IsMatrix(B, |B|, Cols(B)) && i < |B| && j < Cols(B)
  {
    forall k :: 0 <= k < Cols(B) ==> B[i][k] <= B[i][j]
  }

  /** Attaining the column maximum is the same as being a best response for the row player. */
  lemma AtColMaxIffRowPlayerBest(A: seq<seq<int>>, i: nat, j: nat)
    requires IsMatrix(A, |A|, Cols(A)) && i < |A| && j < Cols(A)
    ensures A[i][j] == ColMax(A, j) <==> RowPlayerBest(A, i, j)
  {}

  /** Attaining the row maximum is the same as being a best response for the column player. */
  lemma AtRowMaxIffColPlayerBest(B: seq<seq<int>>, i: nat, j: nat)
    requires IsMatrix(B, |B|, Cols(B)) && i < |B| && j < Cols(B)
    ensures B[i][j] == RowMax(B, i) <==> ColPlayerBest(B, i, j)
  {}

  /** The row player's marks: entry [i][j] says whether A[i][j] equals the
      maximum of its column. */
  function BestRows(A: seq<seq<int>>): (r: seq<seq<bool>>)
    requires IsMatrix(A, |A|, Cols(A))
    ensures |r| == |A|
    ensures forall i :: 0 <= i < |A| ==> |r[i]| == Cols(A)
    ensures forall i, j :: 0 <= i < |A| && 0 <= j < Cols(A) ==>
              (r[i][j] <==> RowPlayerBest(A, i, j))
  {
    var r := seq(|A|, i requires 0 <= i < |A| =>
                  seq(Cols(A), j requires 0 <= j < Cols(A) => A[i][j] == ColMax(A, j)));
    forall i, j | 0 <= i < |A| && 0 <= j < Cols(A)
      ensures r[i][j] <==> RowPlayerBest(A, i, j)
    {
      AtColMaxIffRowPlayerBest(A, i, j);
    }
    r
  }

  /** The column player's marks: entry [i][j] says whether B[i][j] equals the
      maximum of its row. */
  function BestCols(B: seq<seq<int>>): (r: seq<seq<bool>>)
    requires IsMatrix(B, |B|, Cols(B))
    ensures |r| == |B|
    ensures forall i :: 0 <= i < |B| ==> |r[i]| == Cols(B)
    ensures forall i, j :: 0 <= i < |B| && 0 <= j < Cols(B) ==>
              (r[i][j] <==> ColPlayerBest(B, i, j))
  {
    var r := seq(|B|, i requires 0 <= i < |B| =>
                  seq(Cols(B), j requires 0 <= j < Cols(B) => B[i][j] == RowMax(B, i)));
    forall i, j | 0 <= i < |B| && 0 <= j < Cols(B)
      ensures r[i][j] <==> ColPlayerBest(B, i, j)
    {
      AtRowMaxIffColPlayerBest(B, i, j);
    }
    r
  }
}
