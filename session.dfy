/** The game session's puzzle state: the tile records, the empty slot and
    the two overlay flags that block moves while a narrative or the
    instructions are on screen. Rendering, the narrative text and the level
    sequence are not part of this model. */
module Session {
  import opened Grid
  import opened Board
  import opened Tiles
  import opened Generator
  import Parity

  class Game {
    const gridSize: nat
    var tiles: seq<Tile>
    var emptySlot: Pos
    var showNarrative: bool
    var showInstructions: bool

    /** The state as a puzzle value. */
    function Current(): Puzzle
      reads this
    {
      Puzzle(tiles, emptySlot)
    }

    /** A live puzzle: well-formed (every label once, tiles and empty slot
        covering the grid) and accepted by the parity rule. */
    ghost predicate Valid()
      reads this
    {
      gridSize >= 1 && WellFormed(gridSize, Current()) && Solvable(gridSize, BoardOf(gridSize, Current()))
    }

    /** The initial state: no tiles yet, the empty slot at the origin and
        the opening narrative on screen. */
    constructor(gridSize: nat)
      ensures this.gridSize == gridSize
      ensures tiles == [] && emptySlot == Pos(0, 0)
      ensures showNarrative && !showInstructions
    {
      this.gridSize := gridSize;
      tiles := [];
      emptySlot := Pos(0, 0);
      showNarrative := true;
      showInstructions := false;
    }

    /** `initializePuzzle`: generate a puzzle for this grid size and install
        its tiles and empty slot. When the supplied draws run out before a
        board is accepted the state is left as it was. */
    method InitializePuzzle(draws: seq<seq<int>>) returns (ok: bool)
      requires gridSize >= 1 && AllValid(draws, gridSize * gridSize)
      modifies this`tiles, this`emptySlot
      ensures ok <==> FirstSolvable(gridSize, InitialBoard(gridSize), draws).Some?
      ensures ok ==> Valid() && BoardOf(gridSize, Current()) == FirstSolvable(gridSize, InitialBoard(gridSize), draws).value
      ensures !ok ==> tiles == old(tiles) && emptySlot == old(emptySlot)
    {
      var generated := GenerateSolvablePuzzle(gridSize, draws);
      match generated
      case None =>
        ok := false;
      case Some(puzzle) =>
        tiles := puzzle.tiles;
        emptySlot := puzzle.emptySlot;
        ok := true;
    }

    /** `handleTileClick`: while an overlay is shown nothing happens;
        otherwise a tile next to the empty slot trades places with it and
        any other click is ignored. A click on one of the puzzle's tiles
        keeps the puzzle live: well-formed and accepted by the parity rule. */
    method HandleTileClick(clicked: Tile)
      modifies this`tiles, this`emptySlot
      ensures Current() == Click(old(Current()), clicked, showNarrative || showInstructions)
      ensures old(Valid()) && clicked in old(tiles) ==> Valid()
    {
      ghost var before := Current();
      if showNarrative || showInstructions {
        return;
      }
      var tileX, tileY := clicked.position.x, clicked.position.y;
      var emptyX, emptyY := emptySlot.x, emptySlot.y;
      var isAdjacent := (Abs(tileX - emptyX) == 1 && tileY == emptyY) ||
                        (Abs(tileY - emptyY) == 1 && tileX == emptyX);
      if isAdjacent {
        tiles := MoveTile(tiles, clicked, Pos(emptyX, emptyY));
        emptySlot := Pos(tileX, tileY);
      }
      if gridSize >= 1 && WellFormed(gridSize, before) && clicked in before.tiles {
        ClickEffect(gridSize, before, clicked, false);
        Parity.ClickKeepsSolvable(gridSize, before, clicked, false);
      }
    }
  }
}
