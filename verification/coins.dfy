/** Coin accounting over sequences of moves: the score plus the coins still
    on the board is invariant, so a coin is collected at most once. */
module Coins {
  import opened Geometry
  import opened Maze

  /** Total value of the uncollected coins (positive cells) of one row. */
  function RowCoins(row: seq<int>): nat {
    if |row| == 0 then 0
    else (if row[0] > 0 then row[0] else 0) + RowCoins(row[1..])
  }

  /** Total value of the uncollected coins of a grid. */
  function GridCoins(g: seq<seq<int>>): nat {
    if |g| == 0 then 0 else RowCoins(g[0]) + GridCoins(g[1..])
  }

  /** Emptying a coin cell lowers the row total by exactly that coin. */
  lemma {:induction false} RowCoinsCollect(row: seq<int>, x: nat)
    requires x < |row| && row[x] > 0
    ensures RowCoins(row[x := 0]) + row[x] == RowCoins(row)
  {
    if x == 0 {
      assert row[x := 0][1..] == row[1..];
    } else {
      assert row[x := 0][1..] == row[1..][x - 1 := 0];
      RowCoinsCollect(row[1..], x - 1);
    }
  }

  /** Emptying a coin cell lowers the grid total by exactly that coin. */
  lemma {:induction false} GridCoinsCollect(g: seq<seq<int>>, y: nat, x: nat)
    requires y < |g| && x < |g[y]| && g[y][x] > 0
    ensures GridCoins(g[y := g[y][x := 0]]) + g[y][x] == GridCoins(g)
  {
    if y == 0 {
      assert g[y := g[y][x := 0]][1..] == g[1..];
      RowCoinsCollect(g[0], x);
    } else {
      assert g[y := g[y][x := 0]][1..] == g[1..][y - 1 := g[1..][y - 1][x := 0]];
      GridCoinsCollect(g[1..], y - 1, x);
    }
  }

  /** One move transfers coins from the board to the score and creates none. */
  lemma AdvanceConservesCoins(s: MazeState, a: nat)
    requires WellFormed(s) && a < 4 && InGrid(Step(s.character, a))
    ensures var r := Advance(s, a);
            r.gameScore + GridCoins(r.points) == s.gameScore + GridCoins(s.points)
  {
    var c := Step(s.character, a);
    if s.points[c.y][c.x] > 0 {
      GridCoinsCollect(s.points, c.y, c.x);
    }
  }

  /** Every move of `acts`, applied in order from `s`, is a valid action whose
      target lies on the board. */
  predicate CanRun(s: MazeState, acts: seq<nat>)
    requires WellFormed(s)
    decreases |acts|
  {
    |acts| == 0 ||
    (acts[0] < 4 && InGrid(Step(s.character, acts[0])) && CanRun(Advance(s, acts[0]), acts[1..]))
  }

  /** The state after applying every move of `acts` in order. */
  function Run(s: MazeState, acts: seq<nat>): (t: MazeState)
    requires WellFormed(s) && CanRun(s, acts)
    ensures WellFormed(t)
    decreases |acts|
  {
    if |acts| == 0 then s else Run(Advance(s, acts[0]), acts[1..])
  }

  /** Over any run: score plus remaining coins is constant, the score never
      decreases and never exceeds the coins initially present, the turn
      counter advances once per move, and the only cells that change are coin
      cells, which become 0. */
  lemma {:induction false} RunConservesCoins(s: MazeState, acts: seq<nat>)
    requires WellFormed(s) && CanRun(s, acts)
    ensures var t := Run(s, acts);
            && t.gameScore + GridCoins(t.points) == s.gameScore + GridCoins(s.points)
            && s.gameScore <= t.gameScore <= s.gameScore + GridCoins(s.points)
            && t.turn == s.turn + |acts|
            && t.traps == s.traps
            && forall y, x :: 0 <= y < H && 0 <= x < W ==>
                 t.points[y][x] == s.points[y][x] || (s.points[y][x] > 0 && t.points[y][x] == 0)
    decreases |acts|
  {
    if |acts| > 0 {
      var r := Advance(s, acts[0]);
      AdvanceConservesCoins(s, acts[0]);
      RunConservesCoins(r, acts[1..]);
    }
  }

  /** A cell whose coin was collected by a move yields nothing when the
      character returns to it after any further run of moves. */
  lemma CollectedCoinIsNotCollectedAgain(s: MazeState, a: nat, acts: seq<nat>, b: nat)
    requires WellFormed(s) && a < 4 && InGrid(Step(s.character, a))
    requires CanRun(Advance(s, a), acts)
    requires b < 4
    requires Step(Run(Advance(s, a), acts).character, b) == Advance(s, a).character
    ensures var t := Run(Advance(s, a), acts);
            Advance(t, b).gameScore == t.gameScore
  {
    var r := Advance(s, a);
    RunConservesCoins(r, acts);
  }
}
