# Maze board model: decoding, moves, scoring and map selection

This project models the single-board game engine of a contest solution for a
maze puzzle played on 50 x 50 maps. A map is a grid of characters: `#` is a
wall, `o` a coin, `x` a trap and `@` the start. The engine decodes a map into
a `MazeState`. It moves the character with the four commands `U`, `D`, `R`
and `L`, collects coins, and detects when the character stands on a trap.
States are ranked by their evaluated score. Maps are chosen for play by
counting their traps, stably sorting by that count and keeping the first `k`.

Modules:

- `Geometry` (`geometry.dfy`): the board size, the direction table, `Coord`,
  one-cell steps and reading order.
- `Maze` (`maze.dfy`): `MazeState`, map decoding (`FromMap`), the trap test
  (`IsDone`), one move (`Advance`), the legal moves (`LegalActions`) and
  `EvaluateScore`.
- `Coins` (`coins.dfy`): coin accounting over runs of moves.
- `StateOrder` (`state_order.dfy`): the ordering and equality of states.
- `Ranking` (`ranking.dfy`): `count_trap` and the selection of maps.

Modelling choices that follow the code as written:

- The direction table is kept as written. Action 0 (`U`) has `DX = 1`,
  `DY = 0`, so `U` moves the character one column to the right.
- A trap cell decodes to point 0, exactly like an empty cell. Only walls
  (-1) stop a move. A move onto a trap is legal, and `IsDone` then reports
  the end of the game.
- `legal_actions` looks up the target cell before it checks the bounds.
  An off-board lookup panics, so the model requires all four neighbours of
  the character to be on the board. Given that, the bounds test always passes.
- Decoding does not reject malformed maps. A map with fewer than 50 rows, or
  a row with fewer than 50 characters, panics on indexing. This is the
  precondition `ValidMap`. Characters other than `#`, `o`, `x` and `@`
  decode to 0. If there is no `@`, the character starts at (0, 0). If there
  are several, it starts at the last one in reading order.
- At `src/bin/a.rs:107` the cell value, an `isize`, is added with `+=` to
  the game score, a `usize`. Rust defines no such `+=` between the two types,
  so this line does not type-check as written. The model takes the evident
  intent: the positive cell value is added to the score as a plain integer.
- Integers are unbounded. A game lasts at most 2500 turns and collects at
  most 2500 coins, so no counter comes near the width of `usize`.
- `sort_by` is a stable sort. It is modelled as a stable insertion sort
  (`Ranking.StableSortByTraps`). Any stable sort gives the same result.

## Model

| member | source | states |
|---|---|---|
| Geometry.StepIsUnitMove | src/bin/a.rs:6-8 | each action moves exactly one cell along one axis; the four actions reach four different cells; U/D and R/L undo each other |
| Geometry.CommandUMovesAlongX | src/bin/a.rs:6-8 | command `U` (action 0) adds 1 to x and keeps y |
| Geometry.IndexIsRowMajor | src/bin/a.rs:60-61 | the decoder's scan, rows outer and columns inner, numbers the 2500 cells one-to-one, and a cell is scanned before another exactly when its number is smaller |
| Maze.FromMap | src/bin/a.rs:55-89 | the grid is 50 x 50; a cell is -1 exactly for `#`, 1 exactly for `o`, 0 for every other character (including `x` and `@`); traps hold exactly the `x` cells, strictly in reading order; the character is the last `@` in reading order, or (0, 0) when there is none; turn, scores are 0 and the first action is -1; the new state is done exactly when the character's own cell is `x` |
| Maze.DecodeRow | src/bin/a.rs:61-78 | scanning one row left to right extends the decoded prefix by that row: cell points, the `x` cells in reading order and the last `@` so far |
| Maze.TrapAt | src/bin/a.rs:93-98 | the scan of the trap list finds a match exactly when the coordinate is in the list |
| Maze.IsDone | src/bin/a.rs:92-99 | the game is over exactly when some trap equals the character's position |
| Maze.Advance | src/bin/a.rs:102-111 | turn goes up by exactly 1; the character moves by (DX, DY) of the action; a positive destination cell adds its value to the score and becomes 0; otherwise the score and cell stay; no other cell, the traps, the evaluated score or the first action change; the score never decreases |
| Maze.LegalFrom | src/bin/a.rs:116-125 | the actions kept from a onward are increasing, lie in a..3 and are exactly those whose target is on the board and not a wall |
| Maze.LegalActions | src/bin/a.rs:114-127 | the result is a strictly increasing subsequence of 0..3 holding an action exactly when its target is on the board and not a wall; traps are not excluded; requires every neighbour to be on the board because of the lookup before the bounds test |
| Maze.LegalActionsAreSafeToAdvance | src/bin/a.rs:102-127 | every legal action can be applied, never lands on a wall, and ends the game exactly when it lands on a trap |
| Maze.EvaluateScore | src/bin/a.rs:129-131 | the evaluated score becomes the game score and nothing else changes |
| Maze.EvaluateScoreIdempotentAndMonotone | src/bin/a.rs:129-131 | evaluating twice equals evaluating once; evaluating after a move never gives a lower score than before it |
| Coins.AdvanceConservesCoins | src/bin/a.rs:105-109 | one move keeps the game score plus the coins left on the board constant |
| Coins.RunConservesCoins | src/bin/a.rs:102-111 | over any sequence of moves: score plus remaining coins is constant; the score never decreases and never exceeds the initial score plus the coins initially on the board; the turn counter grows by the number of moves; only coin cells change, and only to 0 |
| Coins.CollectedCoinIsNotCollectedAgain | src/bin/a.rs:105-109 | after a coin is collected, returning to its cell after any further moves adds nothing to the score |
| StateOrder.Compare | src/bin/a.rs:34-44 | states compare as their evaluated scores compare (less, equal, greater) |
| StateOrder.SameRank | src/bin/a.rs:46-52 | two states are equal exactly when the comparison says Equal, which is when their evaluated scores agree |
| StateOrder.CompareIsTotalPreorder | src/bin/a.rs:34-52 | swapping the states reverses the comparison; the comparison is transitive; equality is reflexive, symmetric and transitive |
| StateOrder.CompareSeesOnlyEvaluatedScore | src/bin/a.rs:34-52 | replacing a state by any other with the same evaluated score changes neither the ordering nor equality |
| StateOrder.SameRankIsNotIdentity | src/bin/a.rs:48-52 | two well-formed 50 x 50 states, one move apart, with different grids, positions and game scores, still compare equal |
| StateOrder.EvaluatedStatesRankByGameScore | src/bin/a.rs:34-38 | once evaluated, states are ordered and equated by their game scores |
| Ranking.RowTraps | src/bin/a.rs:148 | the count for one row is the number of `x` characters in it |
| Ranking.CountTrap | src/bin/a.rs:145-151 | the count for a map is the number of `x` characters over all its rows |
| Ranking.CountTrapAdditive | src/bin/a.rs:145-151 | the count of a map split into two blocks of rows is the sum of the counts of the blocks |
| Ranking.StableSortByTraps | src/bin/a.rs:166 | the sorted list is a permutation of its input |
| Ranking.InsertKeepsSorted | src/bin/a.rs:166 | inserting an entry with a larger index than all entries of a sorted list keeps it ordered by count, then index |
| Ranking.StableSortIsSorted | src/bin/a.rs:166 | for input listed by increasing index, the stable sort orders by trap count and breaks ties by index |
| Ranking.SelectByTraps | src/bin/a.rs:165-167 | the selection has min(k, n) distinct indices below n, ordered by trap count with ties by index, and no unselected map precedes a selected one |
| Ranking.SelectMaps | src/bin/a.rs:165-167 | the same facts stated over the maps' trap counts |
| Ranking.SelectionExample | src/bin/a.rs:165-167 | for any three maps with 5, 0 and 2 traps and k = 2, the selection is maps 1 then 2; the selection's contract alone fixes this answer |

## Left out

- `random_command` (`src/bin/a.rs:136-143`) draws from a thread-local random generator; its only fact is that it yields `t` letters from `U`, `D`, `R`, `L`.
- Reading the input and printing the two output lines in `main` are I/O. Maps are given as `seq<seq<string>>` and the selection is returned as `seq<nat>`.
- `BinaryHeap` is imported but not used in this file, and no search over states exists in it. So there is no beam search and no state shared by several boards to model.
- `Coord::new` is the `Coord` datatype constructor.
- `partial_cmp` always returns `Some(cmp)`. It is represented by `StateOrder.Compare` itself.
- `traps` is a `Vec<Vec<usize>>` of `[y, x]` pairs (`src/bin/a.rs:31`, `70`, `94`) and `IsDone` casts each part to `isize`. The model keeps a `seq<Coord>`. This is exact because every listed coordinate is below 50.
- Out-of-range indexing panics (a short map in `new`, an action above 3, a move off the board in `advance`, an off-board neighbour in `legal_actions`) become preconditions. The panic itself is not modelled.
- StableSortIsSorted: states the stable order only for input listed by increasing index. That is the only input the selection gives the sort.
