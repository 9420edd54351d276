/** The single-board game state and its transition engine: decoding a map
    into a point grid, the trap test, one move, the legal moves and the
    evaluation step. */
module Maze {
  import opened Geometry

  /** One board in play. `points` holds -1 for a wall, the coin value for an
      uncollected coin and 0 otherwise; `traps` lists the trap cells. */
  datatype MazeState = MazeState(
    points: seq<seq<int>>,
    turn: nat,
    character: Coord,
    gameScore: nat,
    evaluatedScore: nat,
    firstAction: int,
    traps: seq<Coord>)

  /** The point grid has the full H x W shape. */
  predicate WellFormed(s: MazeState) {
    |s.points| == H && forall y :: 0 <= y < H ==> |s.points[y]| == W
  }

  /** Every map row the decoder reads exists: H rows of at least W characters. */
  predicate ValidMap(m: seq<string>) {
    |m| >= H && forall y :: 0 <= y < H ==> |m[y]| >= W
  }

  /** Point value a map character decodes to. */
  function CellPoint(ch: char): int {
    match ch
    case '#' => -1
    case 'o' => 1
    case _ => 0
  }

  /** The three point values, read back: -1 only for a wall, 1 only for a
      coin, 0 for every other character. */
  lemma CellPointMeaning(ch: char)
    ensures CellPoint(ch) == -1 <==> ch == '#'
    ensures CellPoint(ch) == 1 <==> ch == 'o'
    ensures CellPoint(ch) == 0 <==> ch != '#' && ch != 'o'
  {
  }

  // Loop invariants of the decoder: every cell read before `next` is decoded.

  ghost predicate PointsDecodedBefore(m: seq<string>, points: seq<seq<int>>, next: Coord)
    requires ValidMap(m)
  {
    && |points| == H
    && (forall y :: 0 <= y < H ==> |points[y]| == W)
    && forall y, x :: 0 <= y < H && 0 <= x < W ==>
         points[y][x] == (if ReadsBefore(Coord(y, x), next) then CellPoint(m[y][x]) else 0)
  }

  ghost predicate TrapsListedBefore(m: seq<string>, traps: seq<Coord>, next: Coord)
    requires ValidMap(m)
  {
    TrapsSound(m, traps, next) && TrapsComplete(m, traps, next) && TrapsOrdered(traps)
  }

  /** Every listed trap is an `x` cell read before `next`. */
  ghost predicate TrapsSound(m: seq<string>, traps: seq<Coord>, next: Coord)
    requires ValidMap(m)
  {
    forall i :: 0 <= i < |traps| ==>
      InGrid(traps[i]) && ReadsBefore(traps[i], next) && m[traps[i].y][traps[i].x] == 'x'
  }

  /** Every `x` cell read before `next` is listed. */
  ghost predicate TrapsComplete(m: seq<string>, traps: seq<Coord>, next: Coord)
    requires ValidMap(m)
  {
    forall y, x :: 0 <= y < H && 0 <= x < W && ReadsBefore(Coord(y, x), next) && m[y][x] == 'x' ==>
      Coord(y, x) in traps
  }

  /** The list is strictly increasing in reading order. */
  ghost predicate TrapsOrdered(traps: seq<Coord>) {
    forall i, j :: 0 <= i < j < |traps| ==> ReadsBefore(traps[i], traps[j])
  }

  ghost predicate LastStartBefore(m: seq<string>, character: Coord, next: Coord)
    requires ValidMap(m)
  {
    && InGrid(character)
    && ((m[character.y][character.x] == '@' && ReadsBefore(character, next)) || character == Coord(0, 0))
    && forall y, x :: 0 <= y < H && 0 <= x < W && ReadsBefore(Coord(y, x), next) && m[y][x] == '@' ==>
         m[character.y][character.x] == '@' && !ReadsBefore(character, Coord(y, x))
  }

  /** The point grid after decoding cell (y, x) on top of `before`. */
  function DecodeCell(before: seq<seq<int>>, y: nat, x: nat, ch: char): seq<seq<int>>
    requires y < |before| && x < |before[y]|
  {
    if CellPoint(ch) == 0 then before else before[y := before[y][x := CellPoint(ch)]]
  }

  lemma PointsDecodedStep(m: seq<string>, before: seq<seq<int>>, y: nat, x: nat)
    requires ValidMap(m) && y < H && x < W
    requires PointsDecodedBefore(m, before, Coord(y, x))
    ensures PointsDecodedBefore(m, DecodeCell(before, y, x, m[y][x]), Coord(y, x + 1))
  {
    var after := DecodeCell(before, y, x, m[y][x]);
    forall r, c | 0 <= r < H && 0 <= c < W
      ensures after[r][c] == (if ReadsBefore(Coord(r, c), Coord(y, x + 1)) then CellPoint(m[r][c]) else 0)
    {
      if r != y || c != x {
        assert after[r][c] == before[r][c];
      }
    }
  }

  /** The trap list after reading cell (y, x). */
  function ListTrap(before: seq<Coord>, y: nat, x: nat, ch: char): seq<Coord> {
    if ch == 'x' then before + [Coord(y, x)] else before
  }

  lemma TrapsListedStep(m: seq<string>, before: seq<Coord>, y: nat, x: nat)
    requires ValidMap(m) && y < H && x < W
    requires TrapsListedBefore(m, before, Coord(y, x))
    ensures TrapsListedBefore(m, ListTrap(before, y, x, m[y][x]), Coord(y, x + 1))
  {
    TrapsSoundStep(m, before, y, x);
    TrapsCompleteStep(m, before, y, x);
    TrapsOrderedStep(m, before, y, x);
  }

  lemma TrapsSoundStep(m: seq<string>, before: seq<Coord>, y: nat, x: nat)
    requires ValidMap(m) && y < H && x < W
    requires TrapsSound(m, before, Coord(y, x))
    ensures TrapsSound(m, ListTrap(before, y, x, m[y][x]), Coord(y, x + 1))
  {
    var after := ListTrap(before, y, x, m[y][x]);
    forall i | 0 <= i < |after|
      ensures InGrid(after[i]) && ReadsBefore(after[i], Coord(y, x + 1)) && m[after[i].y][after[i].x] == 'x'
    {
      if i < |before| {
        assert after[i] == before[i];
      }
    }
  }

  lemma TrapsCompleteStep(m: seq<string>, before: seq<Coord>, y: nat, x: nat)
    requires ValidMap(m) && y < H && x < W
    requires TrapsComplete(m, before, Coord(y, x))
    ensures TrapsComplete(m, ListTrap(before, y, x, m[y][x]), Coord(y, x + 1))
  {
    var after := ListTrap(before, y, x, m[y][x]);
    forall r, c | 0 <= r < H && 0 <= c < W && ReadsBefore(Coord(r, c), Coord(y, x + 1)) && m[r][c] == 'x'
      ensures Coord(r, c) in after
    {
      if ReadsBefore(Coord(r, c), Coord(y, x)) {
        assert Coord(r, c) in before;
      } else {
        assert Coord(r, c) == Coord(y, x);
        assert after[|after| - 1] == Coord(r, c);
      }
    }
  }

  lemma TrapsOrderedStep(m: seq<string>, before: seq<Coord>, y: nat, x: nat)
    requires ValidMap(m) && y < H && x < W
    requires TrapsSound(m, before, Coord(y, x)) && TrapsOrdered(before)
    ensures TrapsOrdered(ListTrap(before, y, x, m[y][x]))
  {
    var after := ListTrap(before, y, x, m[y][x]);
    forall i, j | 0 <= i < j < |after|
      ensures ReadsBefore(after[i], after[j])
    {
      assert after[i] == before[i];
      if j < |before| {
        assert after[j] == before[j];
      }
    }
  }

  lemma LastStartStep(m: seq<string>, before: Coord, y: nat, x: nat)
    requires ValidMap(m) && y < H && x < W
    requires LastStartBefore(m, before, Coord(y, x))
    ensures LastStartBefore(m, if m[y][x] == '@' then Coord(y, x) else before, Coord(y, x + 1))
  {
  }

  /** A fully decoded row is the same as having reached the start of the next one. */
  lemma NextRow(m: seq<string>, points: seq<seq<int>>, traps: seq<Coord>, character: Coord, y: nat)
    requires ValidMap(m) && y < H
    requires PointsDecodedBefore(m, points, Coord(y, W))
    requires TrapsListedBefore(m, traps, Coord(y, W))
    requires LastStartBefore(m, character, Coord(y, W))
    ensures PointsDecodedBefore(m, points, Coord(y + 1, 0))
    ensures TrapsListedBefore(m, traps, Coord(y + 1, 0))
    ensures LastStartBefore(m, character, Coord(y + 1, 0))
  {
  }

  /** Decodes a map into a fresh state, scanning rows top to bottom and each
      row left to right. */
  method FromMap(m: seq<string>) returns (s: MazeState)
    requires ValidMap(m)
    ensures WellFormed(s)
    ensures forall y, x :: 0 <= y < H && 0 <= x < W ==>
              && (s.points[y][x] == -1 <==> m[y][x] == '#')
              && (s.points[y][x] == 1 <==> m[y][x] == 'o')
              && (s.points[y][x] == 0 <==> m[y][x] != '#' && m[y][x] != 'o')
    ensures s.turn == 0 && s.gameScore == 0 && s.evaluatedScore == 0 && s.firstAction == -1
    ensures forall i :: 0 <= i < |s.traps| ==>
              InGrid(s.traps[i]) && m[s.traps[i].y][s.traps[i].x] == 'x'
    ensures forall y, x :: 0 <= y < H && 0 <= x < W && m[y][x] == 'x' ==> Coord(y, x) in s.traps
    ensures forall i, j :: 0 <= i < j < |s.traps| ==> ReadsBefore(s.traps[i], s.traps[j])
    ensures InGrid(s.character)
    ensures m[s.character.y][s.character.x] == '@' || s.character == Coord(0, 0)
    ensures forall y, x :: 0 <= y < H && 0 <= x < W && m[y][x] == '@' ==>
              m[s.character.y][s.character.x] == '@' && !ReadsBefore(s.character, Coord(y, x))
    ensures IsDone(s) <==> m[s.character.y][s.character.x] == 'x'
  {
    var points: seq<seq<int>> := seq(H, _ => seq(W, _ => 0));
    var character := Coord(0, 0);
    var traps: seq<Coord> := [];
    var y := 0;
    while y < H
      invariant 0 <= y <= H
      invariant PointsDecodedBefore(m, points, Coord(y, 0))
      invariant TrapsListedBefore(m, traps, Coord(y, 0))
      invariant LastStartBefore(m, character, Coord(y, 0))
    {
      points, traps, character := DecodeRow(m, y, points, traps, character);
      NextRow(m, points, traps, character, y);
      y := y + 1;
    }
    s := MazeState(points, 0, character, 0, 0, -1, traps);
    DecodedPoints(m, points);
    DecodedTraps(m, traps);
    DecodedStart(m, character);
    DecodedDone(m, s);
  }

  /** Decodes row `y` left to right on top of the rows above it. */
  method DecodeRow(m: seq<string>, y: nat, points0: seq<seq<int>>, traps0: seq<Coord>, character0: Coord)
      returns (points: seq<seq<int>>, traps: seq<Coord>, character: Coord)
    requires ValidMap(m) && y < H
    requires PointsDecodedBefore(m, points0, Coord(y, 0))
    requires TrapsListedBefore(m, traps0, Coord(y, 0))
    requires LastStartBefore(m, character0, Coord(y, 0))
    ensures PointsDecodedBefore(m, points, Coord(y, W))
    ensures TrapsListedBefore(m, traps, Coord(y, W))
    ensures LastStartBefore(m, character, Coord(y, W))
  {
    points, traps, character := points0, traps0, character0;
    var x := 0;
    while x < W
      invariant 0 <= x <= W
      invariant PointsDecodedBefore(m, points, Coord(y, x))
      invariant TrapsListedBefore(m, traps, Coord(y, x))
      invariant LastStartBefore(m, character, Coord(y, x))
    {
      ghost var points', traps', character' := points, traps, character;
      points, traps, character := ReadCell(m[y][x], y, x, points, traps, character);
      ReadCellStep(m, points', traps', character', y, x);
      x := x + 1;
    }
  }

  /** Reading cell (y, x) advances the decoder's invariant by one cell. */
  lemma ReadCellStep(m: seq<string>, points: seq<seq<int>>, traps: seq<Coord>, character: Coord, y: nat, x: nat)
    requires ValidMap(m) && y < H && x < W
    requires PointsDecodedBefore(m, points, Coord(y, x))
    requires TrapsListedBefore(m, traps, Coord(y, x))
    requires LastStartBefore(m, character, Coord(y, x))
    ensures PointsDecodedBefore(m, DecodeCell(points, y, x, m[y][x]), Coord(y, x + 1))
    ensures TrapsListedBefore(m, ListTrap(traps, y, x, m[y][x]), Coord(y, x + 1))
    ensures LastStartBefore(m, if m[y][x] == '@' then Coord(y, x) else character, Coord(y, x + 1))
  {
    PointsDecodedStep(m, points, y, x);
    TrapsListedStep(m, traps, y, x);
    LastStartStep(m, character, y, x);
  }

  /** Reads one cell: a wall or coin sets its point, a trap is appended to the
      list and a start moves the character there. */
  method ReadCell(ch: char, y: nat, x: nat, points0: seq<seq<int>>, traps0: seq<Coord>, character0: Coord)
      returns (points: seq<seq<int>>, traps: seq<Coord>, character: Coord)
    requires y < |points0| && x < |points0[y]|
    ensures points == DecodeCell(points0, y, x, ch)
    ensures traps == ListTrap(traps0, y, x, ch)
    ensures character == if ch == '@' then Coord(y, x) else character0
  {
    points, traps, character := points0, traps0, character0;
    match ch {
      case '#' =>
        points := points[y := points[y][x := -1]];
      case 'o' =>
        points := points[y := points[y][x := 1]];
      case 'x' =>
        traps := traps + [Coord(y, x)];
      case '@' =>
        character := Coord(y, x);
      case _ =>
    }
  }

  /** Once every cell is read, each cell holds the point value of its character. */
  lemma DecodedPoints(m: seq<string>, points: seq<seq<int>>)
    requires ValidMap(m)
    requires PointsDecodedBefore(m, points, Coord(H, 0))
    ensures |points| == H && forall y :: 0 <= y < H ==> |points[y]| == W
    ensures forall y, x :: 0 <= y < H && 0 <= x < W ==>
              && (points[y][x] == -1 <==> m[y][x] == '#')
              && (points[y][x] == 1 <==> m[y][x] == 'o')
              && (points[y][x] == 0 <==> m[y][x] != '#' && m[y][x] != 'o')
  {
    forall y, x | 0 <= y < H && 0 <= x < W
      ensures && (points[y][x] == -1 <==> m[y][x] == '#')
              && (points[y][x] == 1 <==> m[y][x] == 'o')
              && (points[y][x] == 0 <==> m[y][x] != '#' && m[y][x] != 'o')
    {
      assert ReadsBefore(Coord(y, x), Coord(H, 0));
      assert points[y][x] == CellPoint(m[y][x]);
      CellPointMeaning(m[y][x]);
    }
  }

  /** Once every cell is read, the trap list holds exactly the `x` cells in reading order. */
  lemma DecodedTraps(m: seq<string>, traps: seq<Coord>)
    requires ValidMap(m)
    requires TrapsListedBefore(m, traps, Coord(H, 0))
    ensures forall i :: 0 <= i < |traps| ==> InGrid(traps[i]) && m[traps[i].y][traps[i].x] == 'x'
    ensures forall y, x :: 0 <= y < H && 0 <= x < W && m[y][x] == 'x' ==> Coord(y, x) in traps
    ensures forall i, j :: 0 <= i < j < |traps| ==> ReadsBefore(traps[i], traps[j])
  {
    forall y, x | 0 <= y < H && 0 <= x < W && m[y][x] == 'x'
      ensures Coord(y, x) in traps
    {
      assert ReadsBefore(Coord(y, x), Coord(H, 0));
    }
  }

  /** Once every cell is read, the character stands on the last `@`, or at (0, 0). */
  lemma DecodedStart(m: seq<string>, character: Coord)
    requires ValidMap(m)
    requires LastStartBefore(m, character, Coord(H, 0))
    ensures InGrid(character)
    ensures m[character.y][character.x] == '@' || character == Coord(0, 0)
    ensures forall y, x :: 0 <= y < H && 0 <= x < W && m[y][x] == '@' ==>
              m[character.y][character.x] == '@' && !ReadsBefore(character, Coord(y, x))
  {
    forall y, x | 0 <= y < H && 0 <= x < W && m[y][x] == '@'
      ensures m[character.y][character.x] == '@' && !ReadsBefore(character, Coord(y, x))
    {
      assert ReadsBefore(Coord(y, x), Coord(H, 0));
    }
  }

  /** A decoded state is over exactly when the character's own cell is a trap. */
  lemma DecodedDone(m: seq<string>, s: MazeState)
    requires ValidMap(m) && InGrid(s.character)
    requires forall i :: 0 <= i < |s.traps| ==> InGrid(s.traps[i]) && m[s.traps[i].y][s.traps[i].x] == 'x'
    requires forall y, x :: 0 <= y < H && 0 <= x < W && m[y][x] == 'x' ==> Coord(y, x) in s.traps
    ensures IsDone(s) <==> m[s.character.y][s.character.x] == 'x'
  {
    if m[s.character.y][s.character.x] == 'x' {
      assert Coord(s.character.y, s.character.x) in s.traps;
    }
  }

  /** True iff some trap in `traps` sits at `c`; scans the list front to back. */
  function TrapAt(traps: seq<Coord>, c: Coord): (found: bool)
    ensures found <==> c in traps
  {
    if |traps| == 0 then false
    else if traps[0] == c then true
    else TrapAt(traps[1..], c)
  }

  /** The game is over once the character stands on a trap. */
  function IsDone(s: MazeState): (done: bool)
    ensures done <==> exists i :: 0 <= i < |s.traps| && s.traps[i] == s.character
  {
    TrapAt(s.traps, s.character)
  }

  /** Moves the character by one action, collects a coin on the destination
      cell and counts the turn. */
  function Advance(s: MazeState, action: nat): (r: MazeState)
    requires WellFormed(s) && action < 4 && InGrid(Step(s.character, action))
    ensures WellFormed(r)
    ensures r.turn == s.turn + 1
    ensures r.character.x == s.character.x + DX[action]
    ensures r.character.y == s.character.y + DY[action]
    ensures var c := r.character;
            s.points[c.y][c.x] > 0 ==>
              r.gameScore == s.gameScore + s.points[c.y][c.x] && r.points[c.y][c.x] == 0
    ensures var c := r.character;
            s.points[c.y][c.x] <= 0 ==>
              r.gameScore == s.gameScore && r.points[c.y][c.x] == s.points[c.y][c.x]
    ensures forall y, x :: 0 <= y < H && 0 <= x < W && Coord(y, x) != r.character ==>
              r.points[y][x] == s.points[y][x]
    ensures r.gameScore >= s.gameScore
    ensures r.evaluatedScore == s.evaluatedScore && r.firstAction == s.firstAction && r.traps == s.traps
  {
    var c := Step(s.character, action);
    var point := s.points[c.y][c.x];
    if point > 0 then
      s.(character := c,
         points := s.points[c.y := s.points[c.y][c.x := 0]],
         gameScore := s.gameScore + point,
         turn := s.turn + 1)
    else
      s.(character := c, turn := s.turn + 1)
  }

  /** The grid lookup of every neighbour succeeds: all four targets are on the board. */
  predicate NeighboursInGrid(s: MazeState) {
    WellFormed(s) && forall a :: 0 <= a < 4 ==> InGrid(Step(s.character, a))
  }

  /** Action `a` leads to an on-board cell that is not a wall. */
  predicate Open(s: MazeState, a: nat)
    requires WellFormed(s) && a < 4
  {
    var t := Step(s.character, a);
    InGrid(t) && s.points[t.y][t.x] != -1
  }

  /** The legal actions among a .. 3, in increasing order. The wall lookup
      comes before the bounds test, as in the loop it models. */
  function LegalFrom(s: MazeState, a: nat): (r: seq<nat>)
    requires NeighboursInGrid(s) && a <= 4
    ensures forall i :: 0 <= i < |r| ==> a <= r[i] < 4
    ensures forall i, j :: 0 <= i < j < |r| ==> r[i] < r[j]
    ensures forall b :: a <= b < 4 ==> (b in r <==> Open(s, b))
    decreases 4 - a
  {
    if a == 4 then []
    else
      var t := Step(s.character, a);
      assert InGrid(t);
      var rest := LegalFrom(s, a + 1);
      PrependAction(a, rest);
      if s.points[t.y][t.x] == -1 then rest
      else if 0 <= t.y < H && 0 <= t.x < W then [a] + rest
      else rest
  }

  /** Putting an action in front of a list of larger actions keeps the list
      increasing and adds exactly that action. */
  lemma PrependAction(a: nat, rest: seq<nat>)
    requires a < 4
    requires forall i :: 0 <= i < |rest| ==> a + 1 <= rest[i] < 4
    requires forall i, j :: 0 <= i < j < |rest| ==> rest[i] < rest[j]
    ensures a !in rest
    ensures forall i :: 0 <= i < |[a] + rest| ==> a <= ([a] + rest)[i] < 4
    ensures forall i, j :: 0 <= i < j < |[a] + rest| ==> ([a] + rest)[i] < ([a] + rest)[j]
    ensures forall b :: b in [a] + rest <==> b == a || b in rest
  {
  }

  /** All actions whose target is on the board and not a wall, in increasing
      order. Traps are not excluded. */
  function LegalActions(s: MazeState): (r: seq<nat>)
    requires NeighboursInGrid(s)
    ensures |r| <= 4
    ensures forall i, j :: 0 <= i < j < |r| ==> r[i] < r[j]
    ensures forall i :: 0 <= i < |r| ==> r[i] < 4
    ensures forall a :: 0 <= a < 4 ==>
              (a in r <==> (var t := Step(s.character, a); InGrid(t) && s.points[t.y][t.x] != -1))
  {
    var r := LegalFrom(s, 0);
    IncreasingBelowFourIsShort(r);
    r
  }

  lemma {:induction false} IncreasingBelowFourIsShort(r: seq<nat>)
    requires forall i :: 0 <= i < |r| ==> r[i] < 4
    requires forall i, j :: 0 <= i < j < |r| ==> r[i] < r[j]
    ensures |r| <= 4
  {
    if |r| > 0 {
      IncreasingAtLeastPosition(r, |r| - 1);
    }
  }

  lemma {:induction false} IncreasingAtLeastPosition(r: seq<nat>, i: nat)
    requires i < |r|
    requires forall i, j :: 0 <= i < j < |r| ==> r[i] < r[j]
    ensures r[i] >= i
  {
    if i > 0 {
      IncreasingAtLeastPosition(r, i - 1);
    }
  }

  /** Every legal action can be applied, and it never puts the character on a
      wall; it may put the character on a trap. */
  lemma LegalActionsAreSafeToAdvance(s: MazeState, a: nat)
    requires NeighboursInGrid(s)
    requires a in LegalActions(s)
    ensures a < 4 && InGrid(Step(s.character, a))
    ensures var r := Advance(s, a); r.points[r.character.y][r.character.x] != -1
    ensures IsDone(Advance(s, a)) <==> Step(s.character, a) in s.traps
  {
  }

  /** Copies the game score into the evaluated score used for ranking. */
  function EvaluateScore(s: MazeState): (r: MazeState)
    ensures r.evaluatedScore == r.gameScore
    ensures r.(evaluatedScore := s.evaluatedScore) == s
  {
    s.(evaluatedScore := s.gameScore)
  }

  /** Evaluating twice is the same as evaluating once, and a move never lowers
      the evaluated score of the state it produces once that is evaluated. */
  lemma EvaluateScoreIdempotentAndMonotone(s: MazeState, a: nat)
    requires WellFormed(s) && a < 4 && InGrid(Step(s.character, a))
    ensures EvaluateScore(EvaluateScore(s)) == EvaluateScore(s)
    ensures EvaluateScore(Advance(s, a)).evaluatedScore >= EvaluateScore(s).evaluatedScore
  {
  }
}
