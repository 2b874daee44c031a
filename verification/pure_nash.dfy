/** The pure-strategy Nash equilibrium finder.

    Given the row player's payoff matrix A and the column player's payoff
    matrix B, both m-by-n, the finder marks the column maxima of A and the
    row maxima of B and collects, in row-major order, every cell marked by
    both.  The result is unique: it is the one strictly row-major-increasing
    list whose members are exactly the pure equilibria.
 */
module PureNash {
  import opened Payoff
  import opened BestResponse

  /** Why the finder cannot produce a result.  A matrix without rows has no
      two-dimensional shape to unpack, and a matrix without columns leaves
      the row-wise maximum of B with nothing to reduce; both are raised as
      errors by the array library. */
  datatype NashError = EmptyPayoffMatrix

  datatype Result<+T> = Success(value: T) | Failure(error: NashError)

  /** Neither player gains by deviating alone from cell c. */
  predicate IsPureNash(A: seq<seq<int>>, B: seq<seq<int>>, c: Cell)
    requires SameShape(A, B)
  {
    && InGrid(c, |A|, Cols(A))
    && RowPlayerBest(A, c.row, c.col)
    && ColPlayerBest(B, c.row, c.col)
  }

  /** Row-major order: c comes strictly before d. */
  predicate Before(c: Cell, d: Cell) {
    c.row < d.row || (c.row == d.row && c.col < d.col)
  }

  /** Every element comes strictly before every later one. */
  predicate StrictlyIncreasing(s: seq<Cell>) {
    forall p, q :: 0 <= p < q < |s| ==> Before(s[p], s[q])
  }

  /** r lists exactly the pure equilibria of (A, B), in strictly increasing
      row-major order. */
  ghost predicate IsEquilibriumList(A: seq<seq<int>>, B: seq<seq<int>>, r: seq<Cell>)
    requires SameShape(A, B)
  {
    && StrictlyIncreasing(r)
    && (forall c :: c in r ==> IsPureNash(A, B, c))
    && (forall c :: IsPureNash(A, B, c) ==> c in r)
  }

  /** The cells strictly before (i, j), row-major, that both mark grids
      select, in the order the nested scan appends them: what the scan has
      collected on reaching (i, j). */
  function Collected(rows: seq<seq<bool>>, cols: seq<seq<bool>>, m: nat, n: nat, i: nat, j: nat): seq<Cell>
    requires IsMatrix(rows, m, n) && IsMatrix(cols, m, n)
    requires (i < m && j <= n) || (i == m && j == 0)
    decreases i, j
  {
    if j == 0 then
      if i == 0 then [] else Collected(rows, cols, m, n, i - 1, n)
    else if rows[i][j - 1] && cols[i][j - 1] then Collected(rows, cols, m, n, i, j - 1) + [Cell(i, j - 1)]
    else Collected(rows, cols, m, n, i, j - 1)
  }

  /** Cell c is in the grid, strictly before (i, j), and selected by both grids. */
  predicate SelectedBefore(rows: seq<seq<bool>>, cols: seq<seq<bool>>, m: nat, n: nat, i: nat, j: nat, c: Cell)
    requires IsMatrix(rows, m, n) && IsMatrix(cols, m, n)
  {
    InGrid(c, m, n) && Before(c, Cell(i, j)) && rows[c.row][c.col] && cols[c.row][c.col]
  }

  /** What the scan has collected on reaching (i, j) is, in strictly
      increasing row-major order, exactly the selected cells before (i, j). */
  lemma {:induction false} CollectedSelects(rows: seq<seq<bool>>, cols: seq<seq<bool>>, m: nat, n: nat, i: nat, j: nat)
    requires IsMatrix(rows, m, n) && IsMatrix(cols, m, n)
    requires (i < m && j <= n) || (i == m && j == 0)
    ensures StrictlyIncreasing(Collected(rows, cols, m, n, i, j))
    ensures forall c :: c in Collected(rows, cols, m, n, i, j) <==> SelectedBefore(rows, cols, m, n, i, j, c)
    decreases i, j
  {
    if j == 0 {
      if i > 0 {
        CollectedSelects(rows, cols, m, n, i - 1, n);
      }
    } else {
      var done := Collected(rows, cols, m, n, i, j - 1);
      CollectedSelects(rows, cols, m, n, i, j - 1);
      if rows[i][j - 1] && cols[i][j - 1] {
        forall p | 0 <= p < |done| ensures Before(done[p], Cell(i, j - 1)) {
          assert done[p] in done;
        }
      }
    }
  }

  /** The pure equilibria of (A, B), in row-major order. */
  function Equilibria(A: seq<seq<int>>, B: seq<seq<int>>): (r: Result<seq<Cell>>)
    requires SameShape(A, B)
    ensures r.Failure? <==> |A| == 0 || Cols(A) == 0
    ensures r.Success? ==> IsEquilibriumList(A, B, r.value)
  {
    if |A| == 0 || Cols(A) == 0 then Failure(EmptyPayoffMatrix)
    else
      assert Cols(B) == Cols(A) by { assert |B[0]| == Cols(A); }
      var rows, cols := BestRows(A), BestCols(B);
      CollectedSelects(rows, cols, |A|, Cols(A), |A|, 0);
      Success(Collected(rows, cols, |A|, Cols(A), |A|, 0))
  }

  /** The finder as written: mark both matrices, then walk the grid in a
      nested loop and append every cell marked by both. */
  method PureNashEquilibria(A: seq<seq<int>>, B: seq<seq<int>>) returns (r: Result<seq<Cell>>)
    requires SameShape(A, B)
    ensures r == Equilibria(A, B)
    ensures r.Failure? <==> |A| == 0 || Cols(A) == 0
    ensures r.Success? ==> IsEquilibriumList(A, B, r.value)
  {
    if |A| == 0 || Cols(A) == 0 {
      return Failure(EmptyPayoffMatrix);
    }
    assert Cols(B) == Cols(A) by { assert |B[0]| == Cols(A); }
    var bestRows := BestRows(A);
    var bestCols := BestCols(B);
    var equilibria := CollectMarked(bestRows, bestCols, |A|, Cols(A));
    r := Success(equilibria);
  }

  /** The nested loop of the finder over precomputed marks. */
  method CollectMarked(rows: seq<seq<bool>>, cols: seq<seq<bool>>, m: nat, n: nat) returns (equilibria: seq<Cell>)
    requires IsMatrix(rows, m, n) && IsMatrix(cols, m, n)
    ensures equilibria == Collected(rows, cols, m, n, m, 0)
    ensures StrictlyIncreasing(equilibria)
    ensures forall c :: c in equilibria <==> InGrid(c, m, n) && rows[c.row][c.col] && cols[c.row][c.col]
  {
    equilibria := [];
    var i := 0;
    while i < m
      invariant i <= m
      invariant equilibria == Collected(rows, cols, m, n, i, 0)
    {
      var j := 0;
      while j < n
        invariant j <= n
        invariant equilibria == Collected(rows, cols, m, n, i, j)
      {
        if rows[i][j] && cols[i][j] {
          equilibria := equilibria + [Cell(i, j)];
        }
        j := j + 1;
      }
      i := i + 1;
    }
    CollectedSelects(rows, cols, m, n, m, 0);
  }

  /** The head of a strictly increasing list comes before every other member. */
  lemma HeadComesFirst(s: seq<Cell>, c: Cell)
    requires StrictlyIncreasing(s)
    requires c in s
    ensures c == s[0] || Before(s[0], c)
  {
    var p :| 0 <= p < |s| && s[p] == c;
    if p > 0 {
      assert Before(s[0], s[p]);
    }
  }

  /** Two strictly increasing lists with the same members are the same list. */
  lemma {:induction false} SameMembersSameList(r: seq<Cell>, s: seq<Cell>)
    requires StrictlyIncreasing(r) && StrictlyIncreasing(s)
    requires forall c :: c in r <==> c in s
    ensures r == s
  {
    assert |s| > 0 ==> s[0] in r;
    if |r| > 0 {
      assert r[0] in s && s[0] in r;
      HeadComesFirst(s, r[0]);
      HeadComesFirst(r, s[0]);
      forall c ensures c in r[1..] <==> c in s[1..] {
        if c in r[1..] {
          var p :| 1 <= p < |r| && r[p] == c;
          assert Before(r[0], c);
          assert c in s;
          assert c != s[0];
        }
        if c in s[1..] {
          var p :| 1 <= p < |s| && s[p] == c;
          assert Before(s[0], c);
          assert c in r;
          assert c != r[0];
        }
      }
      SameMembersSameList(r[1..], s[1..]);
      assert r == [r[0]] + r[1..];
      assert s == [s[0]] + s[1..];
    }
  }

  /** Determinism: the equilibrium list of a game is unique, so any list
      meeting the specification is the one the finder returns. */
  lemma EquilibriumListUnique(A: seq<seq<int>>, B: seq<seq<int>>, r: seq<Cell>)
    requires SameShape(A, B) && |A| > 0 && Cols(A) > 0
    requires IsEquilibriumList(A, B, r)
    ensures Equilibria(A, B) == Success(r)
  {
    var s := Equilibria(A, B).value;
    SameMembersSameList(r, s);
  }

  /** Empty is a normal outcome: the finder returns the empty list exactly
      when no cell is a pure equilibrium. */
  lemma EmptyIffNoEquilibrium(A: seq<seq<int>>, B: seq<seq<int>>)
    requires SameShape(A, B) && |A| > 0 && Cols(A) > 0
    ensures Equilibria(A, B).Success?
    ensures Equilibria(A, B).value == [] <==> forall c :: !IsPureNash(A, B, c)
  {
    var eq := Equilibria(A, B).value;
    if eq != [] {
      assert eq[0] in eq;
    }
  }

  /** Position of a cell in the row-major enumeration of an n-column grid. */
  function Index(c: Cell, n: nat): nat {
    c.row * n + c.col
  }

  /** Row-major order on an n-column grid is the order of positions. */
  lemma BeforeIndexLess(c: Cell, d: Cell, n: nat)
    requires c.col < n && d.col < n
    requires Before(c, d)
    ensures Index(c, n) < Index(d, n)
  {
    if c.row < d.row {
      assert (c.row + 1) * n <= d.row * n by {
        MulMonotone(c.row + 1, d.row, n);
      }
    }
  }

  lemma MulMonotone(a: nat, b: nat, n: nat)
    requires a <= b
    ensures a * n <= b * n
  {}

  /** A cell of the m-by-n grid has a position below m * n. */
  lemma IndexInRange(c: Cell, m: nat, n: nat)
    requires InGrid(c, m, n)
    ensures Index(c, n) < m * n
  {
    MulMonotone(c.row + 1, m, n);
  }

  /** A strictly increasing list of grid cells, all at positions at least lo,
      holds at most m * n - lo cells. */
  lemma {:induction false} IncreasingCellsBounded(s: seq<Cell>, m: nat, n: nat, lo: nat)
    requires StrictlyIncreasing(s)
    requires forall c :: c in s ==> InGrid(c, m, n) && lo <= Index(c, n)
    ensures |s| + lo <= m * n || |s| == 0
  {
    if |s| > 0 {
      IndexInRange(s[0], m, n);
      var next := Index(s[0], n) + 1;
      forall c | c in s[1..] ensures InGrid(c, m, n) && next <= Index(c, n) {
        var q :| 1 <= q < |s| && s[q] == c;
        assert c in s && s[0] in s;
        assert Before(s[0], s[q]);
        BeforeIndexLess(s[0], c, n);
      }
      assert StrictlyIncreasing(s[1..]) by {
        forall p, q | 0 <= p < q < |s[1..]| ensures Before(s[1..][p], s[1..][q]) {
          assert s[1..][p] == s[p + 1] && s[1..][q] == s[q + 1];
        }
      }
      IncreasingCellsBounded(s[1..], m, n, next);
    }
  }

  /** Bounds: every reported cell is inside the grid, the list holds at most
      m * n cells, and it has no duplicates. */
  lemma EquilibriumListBounds(A: seq<seq<int>>, B: seq<seq<int>>, r: seq<Cell>)
    requires SameShape(A, B)
    requires IsEquilibriumList(A, B, r)
    ensures forall k :: 0 <= k < |r| ==> r[k].row < |A| && r[k].col < Cols(A)
    ensures |r| <= |A| * Cols(A)
    ensures forall p, q :: 0 <= p < q < |r| ==> r[p] != r[q]
  {
    forall k | 0 <= k < |r| ensures r[k].row < |A| && r[k].col < Cols(A) {
      assert r[k] in r;
    }
    IncreasingCellsBounded(r, |A|, Cols(A), 0);
  }
}
