/** A worked example on a 3x3 board. */
module Scenarios {
  import opened Grid
  import opened Shuffle
  import opened Board
  import opened Tiles
  import opened Generator
  import Parity

  /** On a 1x1 grid the board is the lone empty cell, the first pass is
      accepted, and the generator needs no special case to stop. */
  lemma OneByOneStopsAtOnce(draws: seq<seq<int>>)
    requires |draws| >= 1 && AllValid(draws, 1)
    ensures FirstSolvable(1, InitialBoard(1), draws) == Some([0])
  {
    var b := InitialBoard(1);
    assert b == [0];
    FirstSolvableStep(1, b, draws);
    assert Shuffled(b, draws[0]) == ShuffledDownTo(b, draws[0], 0);
    assert ShuffledDownTo(b, draws[0], 1) == b;
    assert Shuffled(b, draws[0]) == [0];
    assert Inversions([0]) == 0;
  }

  /** A board one move from the goal: the empty cell in the middle of the
      bottom row, tile 8 to its right. */
  function NearlySolved(): seq<int> {
    [1, 2, 3, 4, 5, 6, 7, 0, 8]
  }

  lemma NearlySolvedIsBoard()
    ensures IsBoard(3, NearlySolved())
  {
    assert NearlySolved() == Swap(InitialBoard(3), 7, 8);
    SwapPermutes(InitialBoard(3), 7, 8);
    PermutationIsBoard(3, InitialBoard(3), NearlySolved());
  }

  lemma NearlySolvedEmpty()
    ensures IndexOf(NearlySolved(), 0) == 7 && NearlySolved()[8] == 8
  {
  }

  lemma NearlySolvedMove()
    ensures NearlySolved()[8 := 0][7 := 8] == InitialBoard(3)
  {
    var b := NearlySolved()[8 := 0][7 := 8];
    assert |InitialBoard(3)| == 9;
    forall i | 0 <= i < 9 ensures b[i] == InitialBoard(3)[i] {
      InitialBoardAt(3, i);
    }
  }

  /** Clicking tile 8 slides it left, moves the empty slot to the corner and
      solves the puzzle. */
  lemma OneMoveFromSolved(p: Puzzle, eight: Tile)
    requires p == MakePuzzle(3, NearlySolved()) && eight == Tile(8, Pos(2, 2), Pos(1, 2))
    ensures eight in p.tiles && p.emptySlot == Pos(1, 2) && !IsSolved(p.tiles)
    ensures Click(p, eight, false).emptySlot == Pos(2, 2) && IsSolved(Click(p, eight, false).tiles)
  {
    NearlySolvedIsBoard();
    EightIsATile(p, eight);
    EmptyInTheMiddle(p);
    DisplacedNotSolved(p.tiles, eight);
    MovingEightSolves(p, eight);
  }

  lemma NearlySolvedPuzzle(p: Puzzle)
    requires IsBoard(3, NearlySolved()) && p == MakePuzzle(3, NearlySolved())
    ensures WellFormed(3, p) && BoardOf(3, p) == NearlySolved()
  {
    MakePuzzleWellFormed(3, NearlySolved());
  }

  lemma EightIsATile(p: Puzzle, eight: Tile)
    requires IsBoard(3, NearlySolved())
    requires p == MakePuzzle(3, NearlySolved()) && eight == Tile(8, Pos(2, 2), Pos(1, 2))
    ensures eight in p.tiles
  {
    var b := NearlySolved();
    NearlySolvedEmpty();
    EightCells();
    BoardHasEmpty(3, b);
    MadeTileAtCell(b, 8);
    TileSitsAtIsIn(p.tiles, eight);
  }

  lemma EightCells()
    ensures CellOf(3, 8) == Pos(2, 2) && CorrectPosition(3, 8) == Pos(1, 2)
  {
  }

  lemma MadeTileAtCell(b: seq<int>, k: nat)
    requires IsBoard(3, b) && 0 in b && k < |b| && b[k] != 0
    ensures TileSitsAt(MakePuzzle(3, b).tiles, Tile(b[k], CellOf(3, k), CorrectPosition(3, b[k])))
  {
    BoardHasEmpty(3, b);
    BoardIsDistinct(3, b);
    MadeTilesPerCell(3, b);
  }

  lemma EmptyInTheMiddle(p: Puzzle)
    requires IsBoard(3, NearlySolved()) && p == MakePuzzle(3, NearlySolved())
    ensures p.emptySlot == Pos(1, 2)
  {
    NearlySolvedEmpty();
    assert CellOf(3, 7) == Pos(1, 2);
  }

  lemma MovingEightSolves(p: Puzzle, eight: Tile)
    requires IsBoard(3, NearlySolved()) && p == MakePuzzle(3, NearlySolved())
    requires eight in p.tiles && p.emptySlot == Pos(1, 2) && eight == Tile(8, Pos(2, 2), Pos(1, 2))
    ensures Click(p, eight, false).emptySlot == Pos(2, 2) && IsSolved(Click(p, eight, false).tiles)
  {
    NearlySolvedPuzzle(p);
    SlideEight(p, eight);
  }

  lemma SlideEight(p: Puzzle, eight: Tile)
    requires WellFormed(3, p) && BoardOf(3, p) == NearlySolved()
    requires eight in p.tiles && p.emptySlot == Pos(1, 2) && eight == Tile(8, Pos(2, 2), Pos(1, 2))
    ensures Click(p, eight, false).emptySlot == Pos(2, 2) && IsSolved(Click(p, eight, false).tiles)
  {
    ClickEffect(3, p, eight, false);
    var q := Click(p, eight, false);
    Parity.ClickOnBoard(3, p, eight);
    assert IndexOfCell(3, eight.position) == 8 && IndexOfCell(3, p.emptySlot) == 7;
    NearlySolvedMove();
    SolvedIffInitialBoard(3, q);
  }
}
