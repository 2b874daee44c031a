/** The two games the simulator analyses, with their pure equilibria worked out. */
module Games {
  import opened Payoff
  import opened BestResponse
  import opened PureNash
  import opened Report

  /** Prisoner's Dilemma, actions C (cooperate) and D (defect): the row player's payoffs. */
  const PrisonersA: seq<seq<int>> := [[-1, -3], [0, -2]]
  /** Prisoner's Dilemma: the column player's payoffs. */
  const PrisonersB: seq<seq<int>> := [[-1, 0], [-3, -2]]

  /** The sample 3-by-3 game: the row player's payoffs. */
  const SampleA: seq<seq<int>> := [[3, 1, 2], [2, 3, 0], [0, 4, 1]]
  /** The sample 3-by-3 game: the column player's payoffs. */
  const SampleB: seq<seq<int>> := [[2, 3, 1], [3, 1, 2], [4, 0, 3]]

  /** The games in the order they are analysed, with their action labels. */
  const AllGames: seq<Game> := [
    Game("prisoners_dilemma", PrisonersA, PrisonersB, ["C", "D"], ["C", "D"]),
    Game("three_by_three", SampleA, SampleB, ["A1", "A2", "A3"], ["B1", "B2", "B3"])
  ]

  /** Mutual defection is the one pure equilibrium of the Prisoner's Dilemma,
      and it pays both players -2. */
  lemma PrisonersDilemmaEquilibria()
    ensures SameShape(PrisonersA, PrisonersB)
    ensures Equilibria(PrisonersA, PrisonersB) == Success([Cell(1, 1)])
    ensures PrisonersA[1][1] == -2 && PrisonersB[1][1] == -2
  {
    var A, B := PrisonersA, PrisonersB;
    assert SameShape(A, B);
    forall c | IsPureNash(A, B, c) ensures c == Cell(1, 1) {
      assert !RowPlayerBest(A, 0, 0) by { assert A[0][0] < A[1][0]; }
      assert !RowPlayerBest(A, 0, 1) by { assert A[0][1] < A[1][1]; }
      assert !ColPlayerBest(B, 1, 0) by { assert B[1][0] < B[1][1]; }
    }
    assert IsPureNash(A, B, Cell(1, 1));
    EquilibriumListUnique(A, B, [Cell(1, 1)]);
  }

  /** In the sample game the row player's best responses sit at (0,0),
      (2,1) and (0,2). */
  lemma SampleRowPlayerBest(i: nat, j: nat)
    requires i < 3 && j < 3
    ensures SameShape(SampleA, SampleB)
    ensures RowPlayerBest(SampleA, i, j) <==> Cell(i, j) in {Cell(0, 0), Cell(2, 1), Cell(0, 2)}
  {
    var A := SampleA;
    assert SameShape(A, SampleB);
    if RowPlayerBest(A, i, j) {
      assert A[0][j] <= A[i][j] && A[1][j] <= A[i][j] && A[2][j] <= A[i][j];
    }
  }

  /** In the sample game the column player's best responses sit at (0,1),
      (1,0) and (2,0). */
  lemma SampleColPlayerBest(i: nat, j: nat)
    requires i < 3 && j < 3
    ensures SameShape(SampleA, SampleB)
    ensures ColPlayerBest(SampleB, i, j) <==> Cell(i, j) in {Cell(0, 1), Cell(1, 0), Cell(2, 0)}
  {
    var B := SampleB;
    assert SameShape(SampleA, B);
    if ColPlayerBest(B, i, j) {
      assert B[i][0] <= B[i][j] && B[i][1] <= B[i][j] && B[i][2] <= B[i][j];
    }
  }

  /** The two sets of best responses are disjoint, so the sample game has no
      pure equilibrium, and the finder reports an empty list rather than an error. */
  lemma SampleGameHasNoPureEquilibrium()
    ensures SameShape(SampleA, SampleB)
    ensures Equilibria(SampleA, SampleB) == Success([])
  {
    var A, B := SampleA, SampleB;
    assert SameShape(A, B);
    forall c | IsPureNash(A, B, c) ensures false {
      SampleRowPlayerBest(c.row, c.col);
      SampleColPlayerBest(c.row, c.col);
    }
    EquilibriumListUnique(A, B, []);
  }

  /** The pure part of each game's report: the Prisoner's Dilemma reports
      mutual defection with payoffs (-2, -2); the sample game reports that
      there is no pure equilibrium. */
  lemma ReportedPureLines<P>()
    ensures ValidGame(AllGames[0]) && ValidGame(AllGames[1])
    ensures PureLines<P>(AllGames[0], Equilibria(PrisonersA, PrisonersB).value) == [PureNashAt("D", "D", -2, -2)]
    ensures PureLines<P>(AllGames[1], Equilibria(SampleA, SampleB).value) == [NoPureNash]
  {
    PrisonersDilemmaEquilibria();
    SampleGameHasNoPureEquilibrium();
    assert ValidGame(AllGames[0]) && ValidGame(AllGames[1]);
  }
}
