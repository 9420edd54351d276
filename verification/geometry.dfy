/** Board geometry of the maze: the fixed 50 x 50 field, coordinates and the
    direction table that maps an action number to a coordinate delta. */
module Geometry {

  /** Height and width of every map. */
  const H: nat := 50
  const W: nat := 50

  /** Command letter of each action number. */
  const Commands: seq<string> := ["U", "D", "R", "L"]

  /** Per-action deltas. Note that action 0 ("U") moves along x, not y. */
  const DX: seq<int> := [1, -1, 0, 0]
  const DY: seq<int> := [0, 0, 1, -1]

  /** A signed position on the board: row y, column x. */
  datatype Coord = Coord(y: int, x: int)

  predicate InGrid(c: Coord) {
    0 <= c.y < H && 0 <= c.x < W
  }

  /** Reading order: `c` comes strictly before `d` when the board is read
      row by row, each row left to right. */
  predicate ReadsBefore(c: Coord, d: Coord) {
    c.y < d.y || (c.y == d.y && c.x < d.x)
  }

  /** Position of a cell in reading order, counted from 0. The program never
      computes it; it serves only the sanity fact IndexIsRowMajor about the
      order in which the decoder reads the board. */
  function Index(c: Coord): int {
    c.y * W + c.x
  }

  /** The coordinate reached from `c` by one `action`. */
  function Step(c: Coord, action: nat): Coord
    requires action < 4
  {
    Coord(c.y + DY[action], c.x + DX[action])
  }

  /** The action that undoes `action`: U/D and R/L are pairs. The program
      never computes it; it serves only the sanity fact StepIsUnitMove about
      the direction table. */
  function Opposite(action: nat): (back: nat)
    requires action < 4
    ensures back < 4 && back != action
    ensures DX[back] == -DX[action] && DY[back] == -DY[action]
  {
    if action % 2 == 0 then action + 1 else action - 1
  }

  /** Every action moves exactly one cell along exactly one axis, the
      four actions reach four different neighbours, and the opposite action
      comes back. */
  lemma StepIsUnitMove(c: Coord, a: nat, b: nat)
    requires a < 4 && b < 4
    ensures (Step(c, a).x - c.x) * (Step(c, a).x - c.x) + (Step(c, a).y - c.y) * (Step(c, a).y - c.y) == 1
    ensures a != b ==> Step(c, a) != Step(c, b)
    ensures Step(Step(c, a), Opposite(a)) == c
  {
  }

  /** The "U" command moves the character one column to the right and keeps its row. */
  lemma CommandUMovesAlongX(c: Coord)
    ensures Commands[0] == "U"
    ensures Step(c, 0) == Coord(c.y, c.x + 1)
  {
  }

  /** Index numbers the in-grid cells one-to-one with 0 .. H * W - 1, in
      reading order. */
  lemma IndexIsRowMajor(c: Coord, d: Coord)
    requires InGrid(c) && InGrid(d)
    ensures 0 <= Index(c) < H * W
    ensures ReadsBefore(c, d) <==> Index(c) < Index(d)
    ensures Index(c) == Index(d) <==> c == d
  {
  }
}
