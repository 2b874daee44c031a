/** The equilibria report: one block of lines per game.

    A block opens with the game's name and its two payoff matrices, then
    lists the pure equilibria (or a single line saying there are none), then
    what the mixed-equilibrium solver produced, and closes with a blank line.
    The solver is an outside capability: the model receives, per game, what
    it returned or why it failed, and a flag saying whether it is installed.
    Lines are kept as structured values; their rendering as text is not
    modelled.
 */
module Report {
  import opened Payoff
  import opened PureNash

  /** A game: a name, the two payoff matrices and the action labels. */
  datatype Game = Game(
    name: string,
    a: seq<seq<int>>,
    b: seq<seq<int>>,
    rowLabels: seq<string>,
    colLabels: seq<string>)

  /** Both matrices share one shape and there is a label for every action. */
  predicate ValidGame(g: Game) {
    && SameShape(g.a, g.b)
    && |g.rowLabels| == |g.a|
    && |g.colLabels| == Cols(g.a)
  }

  /** What the mixed-equilibrium solver did for one game; P is the solver's
      mixed-strategy type, passed through untouched. */
  datatype MixedOutcome<P> =
    | SolverMissing
    | SolverFailed(reason: string)
    | SolverReturned(equilibria: seq<(P, P)>)

  /** What an installed solver does for one game: it fails with a reason or
      returns its equilibria.  It cannot be missing. */
  datatype SolverResult<P> =
    | Failed(reason: string)
    | Returned(profiles: seq<(P, P)>)

  /** One report line. */
  datatype Line<P> =
    | GameHeader(name: string)
    | RowPayoffs(a: seq<seq<int>>)
    | ColPayoffs(b: seq<seq<int>>)
    | PureNashAt(rowAction: string, colAction: string, rowPayoff: int, colPayoff: int)
    | NoPureNash
    | MixedNashAt(rowStrategy: P, colStrategy: P)
    | NoMixedNash
    | SolverFailure(reason: string)
    | SolverSkipped
    | Separator

  /** The line naming cell c of game g by its action labels and payoffs. */
  function PureLine<P>(g: Game, c: Cell): Line<P>
    requires ValidGame(g) && InGrid(c, |g.a|, Cols(g.a))
  {
    PureNashAt(g.rowLabels[c.row], g.colLabels[c.col], g.a[c.row][c.col], g.b[c.row][c.col])
  }

  /** The pure-equilibrium part of a block: one line per equilibrium, in
      the order found, or the single fallback line when there are none. */
  function PureLines<P>(g: Game, eq: seq<Cell>): (r: seq<Line<P>>)
    requires ValidGame(g)
    requires forall c :: c in eq ==> InGrid(c, |g.a|, Cols(g.a))
    ensures |eq| == 0 ==> r == [NoPureNash]
    ensures |eq| > 0 ==> |r| == |eq| && NoPureNash !in r
    ensures forall k :: 0 <= k < |eq| ==> r[k] == PureLine(g, eq[k])
    ensures forall k :: 0 <= k < |r| ==> r[k].NoPureNash? || r[k].PureNashAt?
  {
    if |eq| == 0 then [NoPureNash]
    else seq(|eq|, k requires 0 <= k < |eq| => assert eq[k] in eq; PureLine(g, eq[k]))
  }

  /** The mixed-equilibrium part of a block. */
  function MixedLines<P>(o: MixedOutcome<P>): (r: seq<Line<P>>)
    ensures |r| >= 1
    ensures !(o.SolverReturned? && |o.equilibria| > 0) ==> |r| == 1
    ensures SolverSkipped in r <==> o.SolverMissing?
    ensures forall e :: SolverFailure(e) in r <==> o == SolverFailed(e)
    ensures NoMixedNash in r <==> o == SolverReturned([])
    ensures o.SolverReturned? && |o.equilibria| > 0 ==>
              |r| == |o.equilibria| &&
              forall k :: 0 <= k < |r| ==> r[k] == MixedNashAt(o.equilibria[k].0, o.equilibria[k].1)
  {
    match o
    case SolverMissing => [SolverSkipped]
    case SolverFailed(e) => [SolverFailure(e)]
    case SolverReturned(eqs) =>
      if |eqs| == 0 then [NoMixedNash]
      else
        var r := seq(|eqs|, k requires 0 <= k < |eqs| => MixedNashAt(eqs[k].0, eqs[k].1));
        assert forall l :: l in r ==> l.MixedNashAt?;
        r
  }

  /** The report block of one game; the finder's failure on an empty matrix
      is not caught and ends the run. */
  function GameBlock<P>(g: Game, o: MixedOutcome<P>): (r: Result<seq<Line<P>>>)
    requires ValidGame(g)
    ensures r.Failure? <==> EmptyGame(g)
    ensures r.Success? ==>
              && |r.value| >= 6
              && r.value[..3] == [GameHeader(g.name), RowPayoffs(g.a), ColPayoffs(g.b)]
              && r.value[|r.value| - 1] == Separator
  {
    match Equilibria(g.a, g.b)
    case Failure(e) => Failure(e)
    case Success(eq) =>
      Success([GameHeader(g.name), RowPayoffs(g.a), ColPayoffs(g.b)] + PureLines(g, eq) + MixedLines(o) + [Separator])
  }

  /** The solver's outcome as the report sees it: when the solver is not
      installed it is never called and every game gets the skip marker. */
  function Outcome<P>(available: bool, solved: SolverResult<P>): (o: MixedOutcome<P>)
    ensures o.SolverMissing? <==> !available
    ensures forall e :: o == SolverFailed(e) <==> available && solved == Failed(e)
    ensures o.SolverReturned? <==> available && solved.Returned?
    ensures o.SolverReturned? ==> o.equilibria == solved.profiles
  {
    if !available then SolverMissing
    else
      match solved
      case Failed(e) => SolverFailed(e)
      case Returned(eqs) => SolverReturned(eqs)
  }

  /** A game whose matrices have no rows or no columns: the finder raises on it. */
  predicate EmptyGame(g: Game) {
    |g.a| == 0 || Cols(g.a) == 0
  }

  /** The whole report: one block per game, in order.  `solved[k]` is what
      the solver returned for game k, or why it failed, when it is installed.
      The finder's error on an empty game is not caught and ends the run. */
  function FullReport<P>(games: seq<Game>, available: bool, solved: seq<SolverResult<P>>): (r: Result<seq<seq<Line<P>>>>)
    requires |solved| == |games|
    requires forall k :: 0 <= k < |games| ==> ValidGame(games[k])
    ensures r.Failure? <==> exists k :: 0 <= k < |games| && EmptyGame(games[k])
    ensures r.Success? ==>
              && |r.value| == |games|
              && forall k :: 0 <= k < |games| ==>
                   r.value[k] == GameBlock(games[k], Outcome(available, solved[k])).value
  {
    if exists k :: 0 <= k < |games| && EmptyGame(games[k]) then Failure(EmptyPayoffMatrix)
    else
      Success(seq(|games|, k requires 0 <= k < |games| =>
                GameBlock(games[k], Outcome(available, solved[k])).value))
  }

  /** The pure part of a block tells the truth about the game: it says
      "none" exactly when no cell is a pure equilibrium, and otherwise its
      lines are exactly the labelled payoffs of the pure equilibria. */
  lemma PureLinesFaithful<P>(g: Game)
    requires ValidGame(g) && !EmptyGame(g)
    ensures var lines: seq<Line<P>> := PureLines(g, Equilibria(g.a, g.b).value);
            && (lines == [NoPureNash] <==> forall c :: !IsPureNash(g.a, g.b, c))
            && (forall c :: IsPureNash(g.a, g.b, c) ==> PureLine(g, c) in lines)
            && (forall l :: l in lines && l != NoPureNash ==>
                  exists c :: IsPureNash(g.a, g.b, c) && l == PureLine(g, c))
  {
    var eq := Equilibria(g.a, g.b).value;
    var lines: seq<Line<P>> := PureLines(g, eq);
    forall c | IsPureNash(g.a, g.b, c) ensures PureLine<P>(g, c) in lines {
      var k :| 0 <= k < |eq| && eq[k] == c;
      assert lines[k] == PureLine(g, c);
    }
    forall l | l in lines && l != NoPureNash
      ensures exists c :: IsPureNash(g.a, g.b, c) && l == PureLine(g, c)
    {
      var k :| 0 <= k < |lines| && lines[k] == l;
      assert eq[k] in eq;
    }
    if |eq| == 0 {
      forall c ensures !IsPureNash(g.a, g.b, c) {
        assert c !in eq;
      }
    } else {
      assert eq[0] in eq;
      assert NoPureNash !in lines;
    }
  }

  /** A line is in a block exactly when it is in one of the block's parts. */
  lemma InBlock<P>(block: seq<Line<P>>, head: seq<Line<P>>, pure: seq<Line<P>>, mixed: seq<Line<P>>, l: Line<P>)
    requires block == head + pure + mixed + [Separator]
    ensures l in block <==> l in head || l in pure || l in mixed || l == Separator
  {
    assert block == head + (pure + (mixed + [Separator]));
  }

  /** The parts a successful block is made of. */
  lemma BlockParts<P>(g: Game, o: MixedOutcome<P>)
    requires ValidGame(g) && !EmptyGame(g)
    ensures GameBlock(g, o).Success?
    ensures GameBlock(g, o).value ==
              [GameHeader(g.name), RowPayoffs(g.a), ColPayoffs(g.b)]
              + PureLines(g, Equilibria(g.a, g.b).value) + MixedLines(o) + [Separator]
  {}

  /** The solver markers of a block: the skip marker appears exactly when the
      solver is missing, and a failure line exactly when the solver failed
      with that reason. */
  lemma BlockSolverMarkers<P>(g: Game, o: MixedOutcome<P>)
    requires ValidGame(g) && !EmptyGame(g)
    ensures GameBlock(g, o).Success?
    ensures SolverSkipped in GameBlock(g, o).value <==> o.SolverMissing?
    ensures forall e :: SolverFailure(e) in GameBlock(g, o).value <==> o == SolverFailed(e)
  {
    BlockParts(g, o);
    var head: seq<Line<P>> := [GameHeader(g.name), RowPayoffs(g.a), ColPayoffs(g.b)];
    var pure: seq<Line<P>> := PureLines(g, Equilibria(g.a, g.b).value);
    var mixed := MixedLines(o);
    var block := GameBlock(g, o).value;
    InBlock(block, head, pure, mixed, SolverSkipped);
    forall e ensures SolverFailure(e) in block <==> o == SolverFailed(e) {
      InBlock(block, head, pure, mixed, SolverFailure(e));
    }
  }

  /** The block says there is no pure equilibrium exactly when there is none. */
  lemma BlockNoPureMarker<P>(g: Game, o: MixedOutcome<P>)
    requires ValidGame(g) && !EmptyGame(g)
    ensures GameBlock(g, o).Success?
    ensures NoPureNash in GameBlock(g, o).value <==> forall c :: !IsPureNash(g.a, g.b, c)
  {
    BlockParts(g, o);
    var head: seq<Line<P>> := [GameHeader(g.name), RowPayoffs(g.a), ColPayoffs(g.b)];
    var eq := Equilibria(g.a, g.b).value;
    var pure: seq<Line<P>> := PureLines(g, eq);
    var mixed := MixedLines(o);
    InBlock(GameBlock(g, o).value, head, pure, mixed, NoPureNash);
    EmptyIffNoEquilibrium(g.a, g.b);
  }

  /** Without the solver installed, every block carries the skip marker and
      no solver failure. */
  lemma MissingSolverSkipsEveryGame<P>(games: seq<Game>, solved: seq<SolverResult<P>>)
    requires |solved| == |games|
    requires forall k :: 0 <= k < |games| ==> ValidGame(games[k])
    requires FullReport(games, false, solved).Success?
    ensures forall k :: 0 <= k < |games| ==>
              SolverSkipped in FullReport(games, false, solved).value[k] &&
              forall e :: SolverFailure(e) !in FullReport(games, false, solved).value[k]
  {
    var blocks := FullReport(games, false, solved).value;
    forall k | 0 <= k < |games|
      ensures SolverSkipped in blocks[k] && forall e :: SolverFailure(e) !in blocks[k]
    {
      assert !EmptyGame(games[k]);
      BlockSolverMarkers(games[k], Outcome(false, solved[k]));
    }
  }

  /** A solver failure stays in its own game: with the solver installed,
      block k reports a failure exactly when the solver failed on game k. */
  lemma SolverFailureIsolated<P>(games: seq<Game>, solved: seq<SolverResult<P>>, k: nat, e: string)
    requires |solved| == |games|
    requires forall i :: 0 <= i < |games| ==> ValidGame(games[i])
    requires FullReport(games, true, solved).Success?
    requires k < |games|
    ensures SolverFailure(e) in FullReport(games, true, solved).value[k] <==> solved[k] == Failed(e)
  {
    assert !EmptyGame(games[k]);
    BlockSolverMarkers(games[k], Outcome(true, solved[k]));
  }

  /** The skip marker is the mark of a missing solver: block k carries it
      exactly when the solver is not installed. */
  lemma SkipMarkerIffSolverMissing<P>(games: seq<Game>, available: bool, solved: seq<SolverResult<P>>, k: nat)
    requires |solved| == |games|
    requires forall i :: 0 <= i < |games| ==> ValidGame(games[i])
    requires FullReport(games, available, solved).Success?
    requires k < |games|
    ensures SolverSkipped in FullReport(games, available, solved).value[k] <==> !available
  {
    assert !EmptyGame(games[k]);
    BlockSolverMarkers(games[k], Outcome(available, solved[k]));
  }

  /** A successful solver run is reported in its own game: with the solver
      installed and returning ps for game k, block k lists one line per
      strategy pair of ps, in order, just before the closing separator, and
      says "no mixed equilibrium" exactly when ps is empty. */
  lemma SolverResultsReported<P>(games: seq<Game>, solved: seq<SolverResult<P>>, k: nat, ps: seq<(P, P)>)
    requires |solved| == |games|
    requires forall i :: 0 <= i < |games| ==> ValidGame(games[i])
    requires FullReport(games, true, solved).Success?
    requires k < |games|
    requires solved[k] == Returned(ps)
    ensures var block := FullReport(games, true, solved).value[k];
            && (NoMixedNash in block <==> ps == [])
            && |block| > |ps| + 1
            && forall p :: 0 <= p < |ps| ==>
                 block[|block| - 1 - |ps| + p] == MixedNashAt(ps[p].0, ps[p].1)
  {
    var g := games[k];
    assert !EmptyGame(g);
    var o := Outcome(true, solved[k]);
    assert o == SolverReturned(ps);
    BlockParts(g, o);
    var head: seq<Line<P>> := [GameHeader(g.name), RowPayoffs(g.a), ColPayoffs(g.b)];
    var pure: seq<Line<P>> := PureLines(g, Equilibria(g.a, g.b).value);
    var mixed := MixedLines(o);
    var block := FullReport(games, true, solved).value[k];
    assert block == head + pure + mixed + [Separator];
    InBlock(block, head, pure, mixed, NoMixedNash);
    assert NoMixedNash !in pure;
    if |ps| > 0 {
      forall p | 0 <= p < |ps|
        ensures block[|block| - 1 - |ps| + p] == MixedNashAt(ps[p].0, ps[p].1)
      {
        assert block[|head| + |pure| + p] == mixed[p];
      }
    }
  }
}
