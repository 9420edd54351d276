/** Ordering and equality of maze states, used to rank states in a priority
    queue: both look at the evaluated score and at nothing else. */
module StateOrder {
  import opened Geometry
  import opened Maze

  datatype Ordering = Less | Equal | Greater

  /** The ordering with its two sides swapped. */
  function Reverse(o: Ordering): Ordering {
    match o
    case Less => Greater
    case Equal => Equal
    case Greater => Less
  }

  /** Three-way comparison of two states by evaluated score. `partial_cmp`
      always returns this same ordering. */
  function Compare(a: MazeState, b: MazeState): (o: Ordering)
    ensures o == Less <==> a.evaluatedScore < b.evaluatedScore
    ensures o == Equal <==> a.evaluatedScore == b.evaluatedScore
    ensures o == Greater <==> a.evaluatedScore > b.evaluatedScore
  {
    if a.evaluatedScore < b.evaluatedScore then Less
    else if a.evaluatedScore == b.evaluatedScore then Equal
    else Greater
  }

  /** State equality: the two evaluated scores agree. */
  function SameRank(a: MazeState, b: MazeState): (eq: bool)
    ensures eq <==> Compare(a, b) == Equal
  {
    a.evaluatedScore == b.evaluatedScore
  }

  /** Compare is a total order on the scores: swapping the sides reverses
      it, and it is transitive; SameRank is an equivalence. */
  lemma CompareIsTotalPreorder(a: MazeState, b: MazeState, c: MazeState)
    ensures Compare(b, a) == Reverse(Compare(a, b))
    ensures Compare(a, b) != Greater && Compare(b, c) != Greater ==> Compare(a, c) != Greater
    ensures Compare(a, b) == Less && Compare(b, c) == Less ==> Compare(a, c) == Less
    ensures SameRank(a, a)
    ensures SameRank(a, b) == SameRank(b, a)
    ensures SameRank(a, b) && SameRank(b, c) ==> SameRank(a, c)
  {
  }

  /** Only the evaluated score matters: replacing either state by one with the
      same evaluated score, whatever its grid, position, turn or game score,
      changes neither the ordering nor equality. */
  lemma CompareSeesOnlyEvaluatedScore(a: MazeState, a': MazeState, b: MazeState, b': MazeState)
    requires a.evaluatedScore == a'.evaluatedScore && b.evaluatedScore == b'.evaluatedScore
    ensures Compare(a, b) == Compare(a', b')
    ensures SameRank(a, b) == SameRank(a', b')
  {
  }

  /** Equal rank does not mean equal state: a board with one coin next to the
      character and the board one move later, with that coin collected, have
      different grids, positions and game scores, yet compare equal until the
      later one is evaluated. */
  lemma SameRankIsNotIdentity()
    ensures exists a: MazeState, b: MazeState ::
              && WellFormed(a) && WellFormed(b)
              && InGrid(Step(a.character, 0)) && b == Advance(a, 0)
              && a.points != b.points && a.character != b.character && a.gameScore != b.gameScore
              && SameRank(a, b)
  {
    var empty: seq<seq<int>> := seq(H, _ => seq(W, _ => 0));
    var grid := empty[0 := empty[0][1 := 1]];
    var a := MazeState(grid, 0, Coord(0, 0), 0, 0, -1, []);
    assert WellFormed(a) && InGrid(Step(a.character, 0));
    var b := Advance(a, 0);
    assert b.points[0][1] == 0 != a.points[0][1];
    assert SameRank(a, b);
  }

  /** After evaluation, states are ranked by their game scores. */
  lemma EvaluatedStatesRankByGameScore(a: MazeState, b: MazeState)
    ensures Compare(EvaluateScore(a), EvaluateScore(b)) == Less <==> a.gameScore < b.gameScore
    ensures SameRank(EvaluateScore(a), EvaluateScore(b)) <==> a.gameScore == b.gameScore
  {
  }
}
