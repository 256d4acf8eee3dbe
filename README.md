# Sliding-tile puzzle core of `game/Game.js`

The game is a React page built around an N x N sliding-tile puzzle (the
"15-puzzle" for N = 4). This project models the puzzle logic of
`game/Game.js` and proves properties of it:

- **Shuffle.** `shuffleArray` is an in-place Fisher-Yates shuffle. It is
  modelled as a method on an `array<int>` with a decrementing `while` loop.
  It is proved against `Shuffle.Shuffled`, a function on sequences that
  applies the same swaps. The random draws are a parameter `r`, where
  `r[c]` lies in `[0, c]` and is the index swapped with position `c`.
- **Generator.** `generateSolvablePuzzle` works in stages:
  - it builds the board `[1, ..., N*N - 1, 0]`;
  - it counts inversions with the nested `for` loops (a method on an
    array);
  - it computes the empty cell's row from the bottom and applies the
    15-puzzle parity rule;
  - the `do/while` loop is a method that consumes one draw sequence per
    pass;
  - the accepted 1-D board is converted into tile records and an
    empty-slot coordinate.
- **Loop specification.** The loop is proved against `Generator.FirstSolvable`.
  That function applies one pass after another and returns the first board
  the rule accepts. It returns nothing when the draws run out first.
- **Session.** The state the component keeps (`tiles`, `emptySlot` and the
  two overlay flags) is a class, `Session.Game`. `handleTileClick` is a
  method on it, proved against the pure `Tiles.Click`. `isSolved` is a
  function on the tile list.

Modules follow the structure of the code:

| module | file | contents |
|---|---|---|
| `Grid` | `grid.dfy` | coordinates, the 1-D index <-> (x, y) bijection, 4-adjacency |
| `Shuffle` | `shuffle.dfy` | Fisher-Yates over supplied draws |
| `Board` | `board.dfy` | the initial board, `indexOf`, the inversion count, the parity rule |
| `Tiles` | `tiles.dfy` | tile records, board -> tiles conversion, `isSolved`, the click |
| `Parity` | `parity.dfy` | a click never changes the parity rule's verdict |
| `Generator` | `generator.dfy` | one pass of the loop, the rejection loop, the generator |
| `Session` | `session.dfy` | the component's state and its two puzzle handlers |
| `Scenarios` | `scenario.dfy` | a 1x1 grid and a 3x3 board one move from solved |

Tiles are identified by their label. The record's `id` is `tile-<value>`,
which is injective in the value, so the model has no separate `id` field and
`tile.id === clickedTile.id` becomes equality of labels.

On a 1x1 grid the loop stops after one pass: the board `[0]` has no
inversions and 1 is odd, so the code needs no guard for N = 1
(`Scenarios.OneByOneStopsAtOnce`). The model therefore admits every N >= 1.

## Model

| member | source | states |
|---|---|---|
| Grid.CellOf | game/Game.js:54-57 | the coordinate `(k % N, floor(k / N))` of an index `k < N*N` lies in the grid, and its row-major index is `k` again |
| Grid.IndexCellRoundTrip | game/Game.js:54-57 | every grid cell has a row-major index in `[0, N*N)` that maps back to the same cell (the other half of the index/coordinate bijection) |
| Grid.CellOfInjective | game/Game.js:54-57 | distinct indices get distinct coordinates, and equal coordinates come from equal indices |
| Grid.AdjacentIsUnitDistance | game/Game.js:171-172 | the click handler's adjacency test holds exactly when the Manhattan distance is 1; it is symmetric and never holds for a cell and itself |
| Grid.AdjacentIndices | game/Game.js:171-172 | adjacent cells lie 1 apart in the same row, or N apart in the same column, on the 1-D board |
| Board.InitialBoard | game/Game.js:20-22 | the starting board holds each label `1 .. N*N-1` and the 0 exactly once, and nothing else |
| Board.InitialBoardAt | game/Game.js:20-22 | cell `i` of the starting board holds `i + 1`, and the last cell holds 0 |
| Board.BoardHasEmpty | game/Game.js:22 | every board contains the empty marker 0 |
| Board.BoardIsDistinct | game/Game.js:20-22 | no label repeats on a board |
| Board.PermutationIsBoard | game/Game.js:28 | any rearrangement of a board is again a board, so each label `1 .. N*N-1` and the 0 are still there exactly once after shuffling |
| Board.IndexOf | game/Game.js:38 | `indexOf` returns -1 exactly when the value is absent; otherwise it returns the first index holding it |
| Board.IndexOfDistinct | game/Game.js:50 | on a board without repeats, `indexOf` of the label at `k` is `k` |
| Board.InversionsCountPairs | game/Game.js:29-36 | the inversion count equals the number of index pairs `i < j` whose cells are both non-zero with `s[i] > s[j]` |
| Board.CountInversions | game/Game.js:29-36 | the nested loops compute exactly that inversion count |
| Board.EmptyRowInRange | game/Game.js:38 | on a board, `emptyRowFromBottom` lies in `[1, N]` |
| Board.InitialBoardSolvable | game/Game.js:38-46 | the goal board `[1, ..., N*N-1, 0]` has no inversions and its empty cell in row 1 from the bottom, so the rule accepts it for every N >= 1 |
| Board.InitialBoardNoInversions | game/Game.js:29-36 | the inversion count of the goal board is 0 |
| Board.InitialBoardEmptyLast | game/Game.js:38 | `indexOf(0)` on the goal board is its last cell, `N*N - 1` |
| Shuffle.Swap | game/Game.js:12-13 | the destructuring swap exchanges cells `i` and `j` and leaves every other cell alone |
| Shuffle.SwapPermutes | game/Game.js:12-13 | a swap keeps the multiset of values |
| Shuffle.ShuffledDownToPermutes | game/Game.js:9-14 | every intermediate state of the loop is a rearrangement of the input |
| Shuffle.ShuffledIsPermutation | game/Game.js:7-16 | the shuffle keeps the length, the multiset and the set of values |
| Shuffle.LaterStepsKeepSuffix | game/Game.js:9-14 | each step swaps `currentIndex` with an index at most `currentIndex`, so cells at or above a position are settled once the counter has passed it |
| Shuffle.ShuffleArray | game/Game.js:7-16 | the in-place loop leaves the array equal to `Shuffled` of its old contents under the supplied draws |
| Tiles.NonZero | game/Game.js:49 | the filter keeps exactly the non-zero values, each as often as before, and drops exactly the 0s |
| Tiles.PuzzleTileFacts | game/Game.js:49-63 | the `k`-th tile has a label in `[1, N*N)`, a position equal to the cell of that label's index, a `correctPosition` equal to the cell of `label - 1`, and both positions lie in the grid |
| Tiles.MadeTilesInPlace | game/Game.js:49-69 | every tile has a label in `[1, N*N)`, a `correctPosition` equal to the cell of `label - 1`, a position inside the grid equal to the cell of the label's index, and does not sit on the empty slot |
| Tiles.MadeTilesDistinct | game/Game.js:49-63 | no two tiles share a label (so ids are unique) or a position |
| Tiles.MadeTilesPerCell | game/Game.js:49-63 | each non-zero cell `k` of the board yields the tile `(b[k], cell of k, correct cell of b[k])` |
| Tiles.MadeTilesHaveLabels | game/Game.js:49-63 | every label `1 .. N*N-1` has a tile |
| Tiles.MadeTilesCoverGrid | game/Game.js:49-69 | every grid cell is the empty slot or holds a tile |
| Tiles.MadeBoardRoundTrip | game/Game.js:49-69 | reading the tiles and the empty slot back into a 1-D board gives the accepted board |
| Tiles.MakePuzzleWellFormed | game/Game.js:49-69 | the conversion yields `N*N-1` tiles, one per label, whose positions and the empty slot `(idx0 % N, floor(idx0 / N))` cover every cell exactly once; it reads back as the board it came from |
| Tiles.BoardOfWellFormed | game/Game.js:49-69 | conversely, every well-formed tile set with its empty slot reads back as a board |
| Tiles.CellValue | game/Game.js:49-69 | on a well-formed puzzle a cell reads 0 exactly when it is the empty slot, and otherwise the label of the tile placed there |
| Tiles.IsSolved | game/Game.js:150-155 | the solved test holds iff every tile's position equals its correct position; it is true for an empty tile list |
| Tiles.DisplacedNotSolved | game/Game.js:150-155 | one displaced tile is enough to make the solved test false |
| Tiles.SolvedIffInitialBoard | game/Game.js:150-155 | on a well-formed puzzle, the solved test holds exactly when the puzzle reads back as the starting board `[1, ..., N*N-1, 0]` |
| Tiles.SolvedEmptySlotBottomRight | game/Game.js:150-155 | a solved well-formed puzzle has its empty slot at `(N-1, N-1)`, so ignoring the empty slot loses nothing |
| Tiles.ClickEffect | game/Game.js:164-184 | a legal click moves the clicked tile to the old empty slot and the empty slot to the tile's old cell; it leaves every other tile and every correct position unchanged and keeps the puzzle well-formed; an overlay or a non-adjacent tile changes nothing |
| Tiles.MovedIndex | game/Game.js:176-178 | on a well-formed puzzle the clicked tile is the only one whose id matches, so the `map` moves exactly one tile |
| Tiles.MoveKeepsWellFormed | game/Game.js:174-183 | trading places of one tile and the empty slot keeps labels, correct positions and the grid cover |
| Tiles.MovePreservesCover | game/Game.js:174-183 | after the move, the tiles and the empty slot still cover every cell exactly once |
| Tiles.ClickUndo | game/Game.js:164-184 | clicking the moved tile again is legal and restores the puzzle |
| Parity.ClickOnBoard | game/Game.js:174-183 | on the 1-D board a legal click writes 0 into the tile's cell and the tile's label into the empty cell |
| Parity.HorizontalSlide | game/Game.js:29-36 | a sideways slide leaves the inversion count unchanged |
| Parity.VerticalSlide | game/Game.js:29-36 | a vertical slide past `N-1` tiles changes the inversion parity by `N-1` |
| Parity.NeighbourSwapKeepsRule | game/Game.js:38-46 | moving the empty cell to a grid neighbour keeps the parity rule's verdict |
| Parity.ClickKeepsSolvable | game/Game.js:164-184 | no click changes whether the board satisfies the generator's parity rule |
| Parity.RejectedNeverSolved | game/Game.js:150-184 | a well-formed puzzle whose board the rule rejects is not solved, and no click on one of its tiles makes it solved |
| Generator.AttemptRearranges | game/Game.js:28 | one pass only rearranges the board |
| Generator.FirstSolvable | game/Game.js:27-46 | a board the loop returns satisfies the parity rule and has the starting board's length |
| Generator.FirstSolvableRearranges | game/Game.js:27-46 | a board the loop returns is a rearrangement of the starting board |
| Generator.FirstSolvableNone | game/Game.js:27-46 | the loop returns nothing exactly when every pass is rejected |
| Generator.RejectedPassesRejected | game/Game.js:27-46 | every pass before the first accepted one is rejected |
| Generator.FirstSolvableSome | game/Game.js:27-46 | a returned board is the board of the first accepted pass |
| Generator.ShuffleAndJudge | game/Game.js:28-45 | shuffling a copy, counting inversions and applying the rule give that pass's board and verdict |
| Generator.GenerateSolvablePuzzle | game/Game.js:19-72 | the generator fails only when the draws run out; otherwise it returns a well-formed puzzle that reads back as the loop's accepted board and satisfies the parity rule |
| Session.Game.constructor | game/Game.js:134-137 | the session starts with no tiles, the empty slot at `(0, 0)`, the narrative shown and the instructions hidden |
| Session.Game.InitializePuzzle | game/Game.js:140-144 | on success the state holds a well-formed puzzle accepted by the parity rule, reading back as the generated board; otherwise nothing changes |
| Session.Game.HandleTileClick | game/Game.js:164-184 | the new state is the click's effect on the old one (nothing while an overlay is shown), and a live puzzle stays well-formed and solvable |
| Scenarios.OneByOneStopsAtOnce | game/Game.js:19-46 | on a 1x1 grid the loop accepts `[0]` on its first pass |
| Scenarios.OneMoveFromSolved | game/Game.js:150-184 | on the 3x3 board `[1..7, 0, 8]`, tile 8 sits at `(2, 2)` next to the empty slot `(1, 2)`, the board is not solved, and clicking tile 8 solves it |

## Left out

- Rendering: the JSX (`game/Game.js:204-248`) and `game/components/Tile.js` and `game/components/Grid.js`. They only produce CSS and pixel offsets with floating-point division.
- `app/page.tsx`: a page wrapper with no logic.
- React plumbing. `useState`/`useCallback` become the fields and methods of `Session.Game`. The effect that regenerates the puzzle when `level.gridSize` changes (`game/Game.js:146-148`) is left out, since it is scheduling only; with the three levels of `game/Game.js:75-129`, all of grid size 3, it runs only on mount. So is the effect that shows the closing narrative once the puzzle is solved (`game/Game.js:157-162`); its test is `Tiles.IsSolved`.
- The level list, the narrative strings and the SVG clues (`game/Game.js:75-129`), and the narrative and level flow in `handleNarrativeClick` (`game/Game.js:186-202`). These are presentation. The only overlay fact a move needs is the two flags, which `Session.Game` keeps.
- `Math.random` (`game/Game.js:10`): the draws are parameters.
- The uniformity of the shuffle's distribution: it is probabilistic, so only the permutation property is stated.
- Generator.GenerateSolvablePuzzle: the source loop keeps drawing until a board is accepted. The model consumes a finite list of draw sequences and returns `None` when they run out before an acceptance.
- Session.Game.InitializePuzzle: when the draws run out, the state is left unchanged. The source instead never returns.
- Grid size 0 is excluded (`gridSize >= 1`). For 0 the source's row computation is `NaN`, no board is ever accepted, and the loop never ends.
- Session.Game.HandleTileClick: the clicked tile is an argument. A tile record that is not part of the current state (which the rendered grid cannot produce) is still handled as the source handles it, but the preservation of the puzzle's invariant is stated only for tiles of the current state.
