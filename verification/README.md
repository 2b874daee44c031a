# Pure-strategy Nash equilibria of two-player games

This project models the equilibrium core of the Game Strategy Simulator. The
core is `pure_nash_equilibria(A, B)`. It takes the row player's payoff matrix
A and the column player's payoff matrix B, both m-by-n. It marks every cell
whose A entry equals the maximum of its column. Such a row is a best
response for the row player. It also marks every cell whose B entry equals
the maximum of its row. Such a column is a best response for the column
player. Finally it walks the grid in row-major order and collects every cell
that carries both marks. Ties are not broken.

The model also covers the two games the simulator analyses, a Prisoner's
Dilemma and a sample 3-by-3 game. It covers the report block built for each
game as well: the pure-equilibrium lines, the fallback line when there are
none, and the lines for the mixed-equilibrium solver's outcome.

Modules, one per component:

- `Payoff` (payoff.dfy): matrix shape, cells, and the column and row maxima.
- `BestResponse` (best_response.dfy): the two players' best-response marks.
  Each mark is proved equivalent to "no other action pays that player more".
- `PureNash` (pure_nash.dfy): the functional finder `Equilibria` and the
  nested-loop method `PureNashEquilibria`, which is proved to return the same
  result. It also holds the uniqueness (determinism) and bounds lemmas.
- `Report` (report.dfy): report lines as structured values, one block per game.
- `Games` (games.dfy): the two concrete games and what the finder and the
  report yield for them.

The central specification is `PureNash.IsEquilibriumList(A, B, r)`. It says
that r is strictly increasing in row-major order and that its members are
exactly the pure equilibria. `SameMembersSameList` shows that at most one list
meets it. So soundness, completeness, ordering and the absence of duplicates
pin the finder's output down completely.

Modelling decisions:

- Payoffs are `int` with exact equality. The source only uses integer literals.
- Callers must pass two rectangular matrices of the same shape
  (`requires SameShape(A, B)`). The source states this demand in a comment at
  main.py:19.
- A matrix with no rows or no columns raises an error in the source. With no
  rows, the shape cannot be unpacked into (m, n). With no columns, the
  row-wise maximum of B has nothing to reduce. The model returns
  `Failure(EmptyPayoffMatrix)` in both cases. An empty equilibrium list on a
  non-empty game is a normal `Success([])`.
- The mixed-equilibrium solver is an outside capability. For each game the
  model receives a `SolverResult` per game: the installed solver failed with
  a reason, or it returned a list of strategy pairs. The pairs have an opaque
  type `P`. The startup probe for the solver becomes the boolean parameter
  `available`. `Outcome` combines the two into the `MixedOutcome` a block
  reports: missing, failed or returned.

## Model

| member | source | states |
|---|---|---|
| `Payoff.Max` | main.py:22-23 | the maximum of a non-empty sequence is one of its entries and no entry exceeds it |
| `Payoff.ColMax` | main.py:22 | the column maximum of A is attained in that column and bounds every entry of it |
| `Payoff.RowMax` | main.py:23 | the row maximum of B is attained in that row and bounds every entry of it |
| `BestResponse.AtColMaxIffRowPlayerBest` | main.py:22 | A[i][j] equals its column's maximum iff no row pays the row player more against column j (both directions) |
| `BestResponse.AtRowMaxIffColPlayerBest` | main.py:23 | B[i][j] equals its row's maximum iff no column pays the column player more against row i (both directions) |
| `BestResponse.BestRows` | main.py:22 | the mark grid `best_rows` has the shape of A, and a cell is marked iff its row is a best response of the row player (all tied rows marked) |
| `BestResponse.BestCols` | main.py:23 | the mark grid `best_cols` has the shape of B, and a cell is marked iff its column is a best response of the column player (all tied columns marked) |
| `PureNash.CollectedSelects` | main.py:24-28 | what the nested scan has collected on reaching (i, j) is strictly increasing and holds exactly the doubly marked cells before (i, j) |
| `PureNash.CollectMarked` | main.py:24-28 | the nested loop returns the doubly marked cells of the whole grid, strictly increasing in row-major order, and nothing else |
| `PureNash.Equilibria` | main.py:18-29 | fails exactly on an empty matrix; otherwise returns a strictly row-major-increasing list whose members are exactly the cells that are best responses for both players (soundness and completeness) |
| `PureNash.PureNashEquilibria` | main.py:18-29 | the imperative finder fails exactly on an empty matrix and otherwise returns exactly the specified equilibrium list, the same as `Equilibria` |
| `PureNash.SameMembersSameList` | main.py:25-28 | two strictly row-major-increasing lists with the same members are equal, so the row-major order fixes the output |
| `PureNash.EquilibriumListUnique` | main.py:18-29 | determinism: any list meeting the equilibrium specification is the finder's result |
| `PureNash.EquilibriumListBounds` | main.py:21-28 | every returned cell is inside the m-by-n grid, there are at most m*n of them, and no cell appears twice |
| `PureNash.EmptyIffNoEquilibrium` | main.py:24-29 | on a non-empty game the finder returns the empty list, not an error, exactly when no cell is a pure equilibrium |
| `Games.PrisonersDilemmaEquilibria` | main.py:33-34 | the Prisoner's Dilemma has exactly one pure equilibrium, (1, 1), with payoffs (-2, -2) |
| `Games.SampleRowPlayerBest` | main.py:37-41 | in the 3-by-3 game the row player's best responses are exactly (0,0), (2,1) and (0,2) |
| `Games.SampleColPlayerBest` | main.py:42-46 | in the 3-by-3 game the column player's best responses are exactly (0,1), (1,0) and (2,0) |
| `Games.SampleGameHasNoPureEquilibrium` | main.py:37-46 | the 3-by-3 game has no pure equilibrium, and the finder returns the empty list, not an error |
| `Games.ReportedPureLines` | main.py:48-65 | the Prisoner's Dilemma report shows one line, (D, D) with payoffs (-2, -2); the 3-by-3 report shows only the no-equilibrium line |
| `Report.PureLines` | main.py:61-65 | one line per equilibrium in the order found, each naming the row label, column label and both payoffs; exactly the single fallback line when there is none |
| `Report.PureLinesFaithful` | main.py:60-65 | the report says "none" iff the game has no pure equilibrium; every equilibrium gets its line, and every other line names an equilibrium |
| `Report.MixedLines` | main.py:67-79 | a missing solver, a failure and an empty return each give exactly one line; the skip marker appears iff the solver is missing; a failure line with reason e appears iff the solver failed with e; the no-mixed line appears iff it returned nothing; otherwise there is one line per returned strategy pair, in order |
| `Report.GameBlock` | main.py:55-80 | a block fails exactly when the finder fails; otherwise it opens with the name and both matrices and ends with a blank separator |
| `Report.Outcome` | main.py:67-79 | the block's solver outcome is "missing" iff the solver is not installed, "failed with e" iff it is installed and failed on that game with e, and "returned" iff it is installed and returned, carrying exactly the strategy pairs it returned |
| `Report.BlockParts` | main.py:55-80 | a successful block is exactly the header, both matrices, the pure lines, the mixed lines and the separator, in that order |
| `Report.FullReport` | main.py:54-80 | one block per game, in the order of the games, each built with the solver outcome the availability flag allows; the report fails iff some game has an empty matrix, since that error is not caught |
| `Report.BlockSolverMarkers` | main.py:67-79 | within a block, the skip marker appears iff the solver is missing, and a failure line appears iff the solver failed on that game |
| `Report.BlockNoPureMarker` | main.py:61-65 | a block carries the no-equilibrium line iff the game has no pure equilibrium |
| `Report.MissingSolverSkipsEveryGame` | main.py:78-79 | with the solver missing, every block carries the skip marker and no failure line |
| `Report.SolverFailureIsolated` | main.py:69-77 | with the solver installed, block k shows a failure exactly when the solver failed on game k |
| `Report.SolverResultsReported` | main.py:69-75 | with the solver installed and returning pairs ps for game k, block k lists one line per pair of ps, in order, just before the separator, and carries the no-mixed line iff ps is empty |
| `Report.SkipMarkerIffSolverMissing` | main.py:67-79 | block k carries the skip marker iff the solver is not installed; an installed solver never yields it |

## Left out

- Mixed-strategy equilibria (main.py:67-79): support enumeration is done by an outside library using floating-point linear solves. The model takes its per-game outcome as input and does not compute it.
- The startup probe for the solver (main.py:10-15) is a runtime import check. It becomes the boolean parameter `available`.
- The solver's game constructor `nash.Game(A, B)` (main.py:68) runs outside the `try`, so its failure would end the run. The model assumes it always succeeds.
- Directory creation, writing the report file and console output (main.py:4-7, 83-86, 110) are I/O.
- Heatmap rendering (main.py:88-108) is graphics through outside libraries.
- Text rendering of report lines (main.py:56-58, 63, 73) is not modelled. This covers the array printing, the f-string formatting and the rounding of mixed strategies. Lines are structured values, and joining them with newlines is part of the file write.
- Array library specifics (main.py:20-23) are not modelled. The library converts inputs to arrays and broadcasts with `keepdims`. The model computes column and row maxima directly over integer sequences.
- Ragged or differently shaped matrices are excluded by `requires SameShape`, as the source's comment demands. The source's behaviour on such input depends on the array library.
- `ValidGame` requires exactly one label per action. The source only indexes the labels of reported equilibria (main.py:63), so it would also accept longer label lists. Both games the program defines (main.py:49-50) have exactly one label per action.
- Non-integer payoffs are not modelled: the source only uses integer literals.
