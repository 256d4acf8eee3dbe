/** Tile records and the puzzle state a game session holds: the conversion of
    an accepted 1-D board into tiles and an empty slot, the solved test, and
    the move a click on a tile makes. */
module Tiles {
  import opened Grid
  import opened Board

  /** A tile: its label, the cell it occupies and the cell it belongs in.
      The record's `id` is the string `tile-<value>`, a function of the
      label, so the label identifies the tile here. */
  datatype Tile = Tile(value: int, position: Pos, correctPosition: Pos)

  /** What the session keeps of a puzzle: its tiles and the empty slot. */
  datatype Puzzle = Puzzle(tiles: seq<Tile>, emptySlot: Pos)

  /** Where label `v` belongs: ((v - 1) % n, floor((v - 1) / n)). */
  function CorrectPosition(n: nat, v: int): Pos
    requires n >= 1 && v >= 1
  {
    CellOf(n, v - 1)
  }

  /** `tiles.filter(val => val !== 0)`. */
  function NonZero(s: seq<int>): (t: seq<int>)
    ensures forall v :: v in t <==> v in s && v != 0
    ensures forall v :: multiset(t)[v] == if v == 0 then 0 else multiset(s)[v]
    ensures |t| == |s| - multiset(s)[0]
  {
    if |s| == 0 then []
    else
      assert s == [s[0]] + s[1..];
      (if s[0] != 0 then [s[0]] else []) + NonZero(s[1..])
  }

  /** The tile record built for label `val` of the accepted board. */
  function MakeTile(n: nat, board: seq<int>, val: int): Tile
    requires n >= 1 && val >= 1 && val in board
  {
    var current1DIndex := IndexOf(board, val);
    Tile(val, CellOf(n, current1DIndex), CorrectPosition(n, val))
  }

  predicate NonNegative(board: seq<int>) {
    forall k :: 0 <= k < |board| ==> board[k] >= 0
  }

  /** One tile per non-zero cell, in board order. */
  function PuzzleTiles(n: nat, board: seq<int>): seq<Tile>
    requires n >= 1 && NonNegative(board)
  {
    var labels := NonZero(board);
    LabelsArePositive(board);
    seq(|labels|, i requires 0 <= i < |labels| => MakeTile(n, board, labels[i]))
  }

  lemma LabelsArePositive(board: seq<int>)
    requires NonNegative(board)
    ensures forall i :: 0 <= i < |NonZero(board)| ==> NonZero(board)[i] >= 1 && NonZero(board)[i] in board
  {
    var labels := NonZero(board);
    forall i | 0 <= i < |labels| ensures labels[i] >= 1 && labels[i] in board {
      assert labels[i] in labels;
      var k :| 0 <= k < |board| && board[k] == labels[i];
    }
  }

  /** The converted puzzle: the tiles and the empty slot at the cell of the 0. */
  function MakePuzzle(n: nat, board: seq<int>): Puzzle
    requires n >= 1 && NonNegative(board) && 0 in board
  {
    var emptySlotIndex := IndexOf(board, 0);
    Puzzle(PuzzleTiles(n, board), CellOf(n, emptySlotIndex))
  }

  /** The tile positions and the empty slot cover every cell of the grid
      exactly once. */
  ghost predicate Covers(n: nat, p: Puzzle) {
    InGrid(n, p.emptySlot) &&
    (forall k :: 0 <= k < |p.tiles| ==> InGrid(n, p.tiles[k].position) && p.tiles[k].position != p.emptySlot) &&
    (forall k, l :: 0 <= k < l < |p.tiles| ==> p.tiles[k].position != p.tiles[l].position) &&
    (forall c :: InGrid(n, c) ==> c == p.emptySlot || exists k :: 0 <= k < |p.tiles| && p.tiles[k].position == c)
  }

  /** A puzzle of an n x n game: n*n - 1 tiles, one per label 1 .. n*n - 1,
      each knowing its correct cell, covering the grid with the empty slot. */
  ghost predicate WellFormed(n: nat, p: Puzzle)
    requires n >= 1
  {
    |p.tiles| == n * n - 1 &&
    (forall k :: 0 <= k < |p.tiles| ==>
       1 <= p.tiles[k].value < n * n && p.tiles[k].correctPosition == CorrectPosition(n, p.tiles[k].value)) &&
    (forall k, l :: 0 <= k < l < |p.tiles| ==> p.tiles[k].value != p.tiles[l].value) &&
    (forall v :: 1 <= v < n * n ==> HasLabel(p.tiles, v)) &&
    Covers(n, p)
  }

  ghost predicate HasLabel(tiles: seq<Tile>, v: int) {
    exists k :: 0 <= k < |tiles| && tiles[k].value == v
  }

  /** Label of the tile occupying cell `c`, or 0 when no tile does. */
  function ValueAt(tiles: seq<Tile>, c: Pos): int {
    if |tiles| == 0 then 0
    else if tiles[0].position == c then tiles[0].value
    else ValueAt(tiles[1..], c)
  }

  /** The puzzle read back as a 1-D board, row by row, 0 for the empty cell. */
  function BoardOf(n: nat, p: Puzzle): seq<int>
    requires n >= 1
  {
    seq(n * n, i requires 0 <= i < n * n => ValueAt(p.tiles, CellOf(n, i)))
  }

  lemma {:induction false} ValueAtFound(tiles: seq<Tile>, k: nat, c: Pos)
    requires k < |tiles| && tiles[k].position == c
    requires forall i, j :: 0 <= i < j < |tiles| ==> tiles[i].position != tiles[j].position
    ensures ValueAt(tiles, c) == tiles[k].value
  {
    if k > 0 {
      ValueAtFound(tiles[1..], k - 1, c);
    }
  }

  lemma {:induction false} ValueAtAbsent(tiles: seq<Tile>, c: Pos)
    requires forall i :: 0 <= i < |tiles| ==> tiles[i].position != c
    ensures ValueAt(tiles, c) == 0
  {
    if |tiles| > 0 {
      ValueAtAbsent(tiles[1..], c);
    }
  }

  /** Facts about the tiles built from a board, one tile at a time. */
  lemma PuzzleTileFacts(n: nat, b: seq<int>, k: nat)
    requires n >= 1 && IsBoard(n, b) && k < |PuzzleTiles(n, b)|
    ensures var t := PuzzleTiles(n, b)[k];
      1 <= t.value < n * n && t.correctPosition == CorrectPosition(n, t.value) &&
      0 <= IndexOf(b, t.value) < n * n && t.position == CellOf(n, IndexOf(b, t.value)) &&
      InGrid(n, t.position)
  {
    var labels := NonZero(b);
    assert labels[k] in labels;
  }

  /** Converting an accepted board yields a well-formed puzzle whose tiles
      sit where the board had their labels, whose empty slot is the cell of
      the 0, and which reads back as the same board. */
  lemma MakePuzzleWellFormed(n: nat, b: seq<int>)
    requires n >= 1 && IsBoard(n, b)
    ensures 0 in b && NonNegative(b)
    ensures WellFormed(n, MakePuzzle(n, b))
    ensures MakePuzzle(n, b).emptySlot == CellOf(n, IndexOf(b, 0))
    ensures forall k :: 0 <= k < |b| && b[k] != 0 ==> TileSitsAt(MakePuzzle(n, b).tiles, Tile(b[k], CellOf(n, k), CorrectPosition(n, b[k])))
    ensures BoardOf(n, MakePuzzle(n, b)) == b
  {
    assert 0 in multiset(b);
    BoardIsDistinct(n, b);
    var p := MakePuzzle(n, b);
    assert |p.tiles| == n * n - 1;
    MadeTilesInPlace(n, b);
    MadeTilesDistinct(n, b);
    MadeTilesPerCell(n, b);
    MadeTilesHaveLabels(n, b);
    MadeTilesCoverGrid(n, b);
    MadeBoardRoundTrip(n, b);
  }

  lemma MadeTilesHaveLabels(n: nat, b: seq<int>)
    requires n >= 1 && IsBoard(n, b) && 0 in b && Distinct(b)
    requires forall k :: 0 <= k < |b| && b[k] != 0 ==> TileSitsAt(MakePuzzle(n, b).tiles, Tile(b[k], CellOf(n, k), CorrectPosition(n, b[k])))
    ensures forall v :: 1 <= v < n * n ==> HasLabel(MakePuzzle(n, b).tiles, v)
  {
    var p := MakePuzzle(n, b);
    forall v | 1 <= v < n * n ensures HasLabel(p.tiles, v) {
      assert v in multiset(b);
      var i :| 0 <= i < |b| && b[i] == v;
      assert TileSitsAt(p.tiles, Tile(b[i], CellOf(n, i), CorrectPosition(n, b[i])));
    }
  }

  lemma MadeTilesCoverGrid(n: nat, b: seq<int>)
    requires n >= 1 && IsBoard(n, b) && 0 in b && Distinct(b)
    requires forall k :: 0 <= k < |b| && b[k] != 0 ==> TileSitsAt(MakePuzzle(n, b).tiles, Tile(b[k], CellOf(n, k), CorrectPosition(n, b[k])))
    ensures var p := MakePuzzle(n, b);
      forall c :: InGrid(n, c) ==> c == p.emptySlot || exists k :: 0 <= k < |p.tiles| && p.tiles[k].position == c
  {
    var p := MakePuzzle(n, b);
    forall c | InGrid(n, c) ensures c == p.emptySlot || exists k :: 0 <= k < |p.tiles| && p.tiles[k].position == c {
      IndexCellRoundTrip(n, c);
      var i := IndexOfCell(n, c);
      IndexOfDistinct(b, i);
      if b[i] != 0 {
        assert TileSitsAt(p.tiles, Tile(b[i], CellOf(n, i), CorrectPosition(n, b[i])));
      }
    }
  }

  ghost predicate TileSitsAt(tiles: seq<Tile>, t: Tile) {
    exists i :: 0 <= i < |tiles| && tiles[i] == t
  }

  lemma TileSitsAtIsIn(tiles: seq<Tile>, t: Tile)
    requires TileSitsAt(tiles, t)
    ensures t in tiles
  {
  }

  lemma MadeTilesInPlace(n: nat, b: seq<int>)
    requires n >= 1 && IsBoard(n, b) && 0 in b
    ensures var p := MakePuzzle(n, b);
      forall k :: 0 <= k < |p.tiles| ==>
        1 <= p.tiles[k].value < n * n && p.tiles[k].correctPosition == CorrectPosition(n, p.tiles[k].value) &&
        InGrid(n, p.tiles[k].position) && p.tiles[k].position != p.emptySlot &&
        p.tiles[k].position == CellOf(n, IndexOf(b, p.tiles[k].value))
  {
    var p := MakePuzzle(n, b);
    forall k | 0 <= k < |p.tiles|
      ensures 1 <= p.tiles[k].value < n * n && p.tiles[k].correctPosition == CorrectPosition(n, p.tiles[k].value)
      ensures InGrid(n, p.tiles[k].position) && p.tiles[k].position != p.emptySlot
      ensures p.tiles[k].position == CellOf(n, IndexOf(b, p.tiles[k].value))
    {
      PuzzleTileFacts(n, b, k);
      CellOfInjective(n, IndexOf(b, p.tiles[k].value), IndexOf(b, 0));
    }
  }

  lemma MadeTilesDistinct(n: nat, b: seq<int>)
    requires n >= 1 && IsBoard(n, b) && 0 in b
    ensures var tiles := MakePuzzle(n, b).tiles;
      forall k, l :: 0 <= k < l < |tiles| ==> tiles[k].value != tiles[l].value && tiles[k].position != tiles[l].position
  {
    var tiles := MakePuzzle(n, b).tiles;
    var labels := NonZero(b);
    forall k, l | 0 <= k < l < |tiles|
      ensures tiles[k].value != tiles[l].value && tiles[k].position != tiles[l].position
    {
      if labels[k] == labels[l] {
        RepeatCountsTwice(labels, k, l);
        assert false;
      }
      PuzzleTileFacts(n, b, k);
      PuzzleTileFacts(n, b, l);
      CellOfInjective(n, IndexOf(b, tiles[k].value), IndexOf(b, tiles[l].value));
    }
  }

  lemma MadeTilesPerCell(n: nat, b: seq<int>)
    requires n >= 1 && IsBoard(n, b) && 0 in b && Distinct(b)
    ensures forall k :: 0 <= k < |b| && b[k] != 0 ==> TileSitsAt(MakePuzzle(n, b).tiles, Tile(b[k], CellOf(n, k), CorrectPosition(n, b[k])))
  {
    var tiles := MakePuzzle(n, b).tiles;
    var labels := NonZero(b);
    forall k | 0 <= k < |b| && b[k] != 0
      ensures TileSitsAt(tiles, Tile(b[k], CellOf(n, k), CorrectPosition(n, b[k])))
    {
      assert b[k] in labels;
      var i :| 0 <= i < |labels| && labels[i] == b[k];
      IndexOfDistinct(b, k);
      assert tiles[i] == Tile(b[k], CellOf(n, k), CorrectPosition(n, b[k]));
    }
  }

  lemma MadeBoardRoundTrip(n: nat, b: seq<int>)
    requires n >= 1 && IsBoard(n, b) && 0 in b && Distinct(b)
    requires var p := MakePuzzle(n, b);
      (forall k :: 0 <= k < |p.tiles| ==> p.tiles[k].position != p.emptySlot) &&
      (forall k, l :: 0 <= k < l < |p.tiles| ==> p.tiles[k].position != p.tiles[l].position) &&
      (forall k :: 0 <= k < |b| && b[k] != 0 ==> TileSitsAt(p.tiles, Tile(b[k], CellOf(n, k), CorrectPosition(n, b[k]))))
    ensures BoardOf(n, MakePuzzle(n, b)) == b
  {
    var p := MakePuzzle(n, b);
    var e := IndexOf(b, 0);
    forall i | 0 <= i < n * n ensures BoardOf(n, p)[i] == b[i] {
      var c := CellOf(n, i);
      IndexOfDistinct(b, i);
      if b[i] == 0 {
        ValueAtAbsent(p.tiles, c);
      } else {
        var j :| 0 <= j < |p.tiles| && p.tiles[j] == Tile(b[i], CellOf(n, i), CorrectPosition(n, b[i]));
        ValueAtFound(p.tiles, j, c);
      }
    }
  }

  /** `tiles.every(tile => position equals correctPosition)`. */
  function IsSolved(tiles: seq<Tile>): (r: bool)
    ensures r <==> forall k :: 0 <= k < |tiles| ==> tiles[k].position == tiles[k].correctPosition
  {
    |tiles| == 0 || (tiles[0].position == tiles[0].correctPosition && IsSolved(tiles[1..]))
  }

  /** A well-formed puzzle reads back as a board: the empty slot's cell holds
      0 and each tile's cell holds its label. */
  lemma BoardOfWellFormed(n: nat, p: Puzzle)
    requires n >= 1 && WellFormed(n, p)
    ensures IsBoard(n, BoardOf(n, p))
    ensures 0 <= IndexOfCell(n, p.emptySlot) < n * n && BoardOf(n, p)[IndexOfCell(n, p.emptySlot)] == 0
    ensures forall k :: 0 <= k < |p.tiles| ==>
      0 <= IndexOfCell(n, p.tiles[k].position) < n * n && BoardOf(n, p)[IndexOfCell(n, p.tiles[k].position)] == p.tiles[k].value
  {
    var b := BoardOf(n, p);
    BoardOfPlaces(n, p);
    BoardOfDistinct(n, p);
    forall v | 0 <= v < n * n ensures multiset(b)[v] == 1 {
      DistinctCountsOnce(b, v);
      if v == 0 {
        assert b[IndexOfCell(n, p.emptySlot)] == v;
      } else {
        assert HasLabel(p.tiles, v);
        var k :| 0 <= k < |p.tiles| && p.tiles[k].value == v;
        assert b[IndexOfCell(n, p.tiles[k].position)] == v;
      }
      assert v in b;
    }
  }

  lemma BoardOfPlaces(n: nat, p: Puzzle)
    requires n >= 1 && WellFormed(n, p)
    ensures 0 <= IndexOfCell(n, p.emptySlot) < n * n && BoardOf(n, p)[IndexOfCell(n, p.emptySlot)] == 0
    ensures forall k :: 0 <= k < |p.tiles| ==>
      0 <= IndexOfCell(n, p.tiles[k].position) < n * n && BoardOf(n, p)[IndexOfCell(n, p.tiles[k].position)] == p.tiles[k].value
  {
    IndexCellRoundTrip(n, p.emptySlot);
    ValueAtAbsent(p.tiles, p.emptySlot);
    forall k | 0 <= k < |p.tiles|
      ensures 0 <= IndexOfCell(n, p.tiles[k].position) < n * n && BoardOf(n, p)[IndexOfCell(n, p.tiles[k].position)] == p.tiles[k].value
    {
      IndexCellRoundTrip(n, p.tiles[k].position);
      ValueAtFound(p.tiles, k, p.tiles[k].position);
    }
  }

  lemma BoardOfDistinct(n: nat, p: Puzzle)
    requires n >= 1 && WellFormed(n, p)
    ensures Distinct(BoardOf(n, p))
    ensures forall i :: 0 <= i < n * n ==> 0 <= BoardOf(n, p)[i] < n * n
  {
    var b := BoardOf(n, p);
    forall i | 0 <= i < n * n ensures 0 <= b[i] < n * n {
      CellValue(n, p, i);
    }
    forall i, j | 0 <= i < j < n * n ensures b[i] != b[j] {
      CellValue(n, p, i);
      CellValue(n, p, j);
      CellOfInjective(n, i, j);
    }
  }

  /** Each cell of a well-formed puzzle holds 0 exactly when it is the empty
      slot, and otherwise the label of the one tile placed there. */
  lemma CellValue(n: nat, p: Puzzle, i: nat)
    requires n >= 1 && WellFormed(n, p) && i < n * n
    ensures var b := BoardOf(n, p);
      0 <= b[i] < n * n && (b[i] == 0 <==> CellOf(n, i) == p.emptySlot) &&
      (b[i] != 0 ==> exists k :: 0 <= k < |p.tiles| && p.tiles[k].position == CellOf(n, i) && p.tiles[k].value == b[i])
  {
    var c := CellOf(n, i);
    if c == p.emptySlot {
      ValueAtAbsent(p.tiles, c);
    } else {
      var k :| 0 <= k < |p.tiles| && p.tiles[k].position == c;
      ValueAtFound(p.tiles, k, c);
    }
  }

  /** A single displaced tile is enough to make the solved test fail. */
  lemma DisplacedNotSolved(tiles: seq<Tile>, t: Tile)
    requires t in tiles && t.position != t.correctPosition
    ensures !IsSolved(tiles)
  {
  }

  /** On a well-formed puzzle the solved test holds exactly when the puzzle
      reads back as the starting board [1, 2, ..., n*n - 1, 0]. */
  lemma SolvedIffInitialBoard(n: nat, p: Puzzle)
    requires n >= 1 && WellFormed(n, p)
    ensures IsSolved(p.tiles) <==> BoardOf(n, p) == InitialBoard(n)
  {
    if IsSolved(p.tiles) {
      SolvedReadsInitial(n, p);
    }
    if BoardOf(n, p) == InitialBoard(n) {
      InitialReadsSolved(n, p);
    }
  }

  lemma SolvedReadsInitial(n: nat, p: Puzzle)
    requires n >= 1 && WellFormed(n, p) && IsSolved(p.tiles)
    ensures BoardOf(n, p) == InitialBoard(n)
  {
    var b := BoardOf(n, p);
    forall i | 0 <= i < n * n ensures b[i] == InitialBoard(n)[i] {
      SolvedCell(n, p, i);
    }
  }

  lemma SolvedCell(n: nat, p: Puzzle, i: nat)
    requires n >= 1 && WellFormed(n, p) && IsSolved(p.tiles) && i < n * n
    ensures BoardOf(n, p)[i] == InitialBoard(n)[i]
  {
    InitialBoardAt(n, i);
    if i < n * n - 1 {
      assert HasLabel(p.tiles, i + 1);
      var k :| 0 <= k < |p.tiles| && p.tiles[k].value == i + 1;
      ValueAtFound(p.tiles, k, CellOf(n, i));
    } else {
      CellValue(n, p, i);
    }
  }

  lemma InitialReadsSolved(n: nat, p: Puzzle)
    requires n >= 1 && WellFormed(n, p) && BoardOf(n, p) == InitialBoard(n)
    ensures IsSolved(p.tiles)
  {
    BoardOfPlaces(n, p);
    forall k | 0 <= k < |p.tiles| ensures p.tiles[k].position == p.tiles[k].correctPosition {
      var t := p.tiles[k];
      IndexCellRoundTrip(n, t.position);
      var i := IndexOfCell(n, t.position);
      InitialBoardAt(n, i);
      assert BoardOf(n, p)[i] == t.value;
      assert t.value == i + 1;
    }
  }

  /** A solved well-formed puzzle has its empty slot in the bottom-right
      cell, so the solved test loses nothing by not looking at it. */
  lemma SolvedEmptySlotBottomRight(n: nat, p: Puzzle)
    requires n >= 1 && WellFormed(n, p) && IsSolved(p.tiles)
    ensures p.emptySlot == Pos(n - 1, n - 1)
  {
    SolvedIffInitialBoard(n, p);
    BoardOfPlaces(n, p);
    IndexCellRoundTrip(n, p.emptySlot);
    var e := IndexOfCell(n, p.emptySlot);
    assert e == n * n - 1;
    assert n * n - 1 == (n - 1) + n * (n - 1);
    DivModUnique(n * n - 1, n, n - 1, n - 1);
  }

  /** `tiles.map(...)`: the tile with the clicked tile's id moves to `to`. */
  function MoveTile(tiles: seq<Tile>, clicked: Tile, to: Pos): seq<Tile> {
    seq(|tiles|, k requires 0 <= k < |tiles| =>
      if tiles[k].value == clicked.value then tiles[k].(position := to) else tiles[k])
  }

  /** A click on a tile: ignored while an overlay (narrative or
      instructions) is shown or when the tile is not next to the empty slot;
      otherwise the tile and the empty slot trade places. */
  function Click(p: Puzzle, clicked: Tile, overlayShown: bool): Puzzle {
    if overlayShown then p
    else
      var tileX, tileY := clicked.position.x, clicked.position.y;
      var emptyX, emptyY := p.emptySlot.x, p.emptySlot.y;
      if Adjacent(Pos(tileX, tileY), Pos(emptyX, emptyY)) then
        Puzzle(MoveTile(p.tiles, clicked, Pos(emptyX, emptyY)), Pos(tileX, tileY))
      else p
  }

  /** A legal click: no overlay, and the tile is next to the empty slot. */
  predicate Legal(p: Puzzle, clicked: Tile, overlayShown: bool) {
    !overlayShown && Adjacent(clicked.position, p.emptySlot)
  }

  /** What a click does to a well-formed puzzle: a legal click moves the
      clicked tile into the empty slot and the empty slot to the tile's old
      cell, leaving every other tile and every correct position as it was;
      any other click changes nothing. The puzzle stays well-formed. */
  lemma ClickEffect(n: nat, p: Puzzle, clicked: Tile, overlayShown: bool)
    requires n >= 1 && WellFormed(n, p) && clicked in p.tiles
    ensures var q := Click(p, clicked, overlayShown);
      WellFormed(n, q) &&
      (!Legal(p, clicked, overlayShown) ==> q == p) &&
      (Legal(p, clicked, overlayShown) ==>
         q.emptySlot == clicked.position && |q.tiles| == |p.tiles| &&
         forall k :: 0 <= k < |p.tiles| ==>
           q.tiles[k].value == p.tiles[k].value &&
           q.tiles[k].correctPosition == p.tiles[k].correctPosition &&
           (p.tiles[k] == clicked ==> q.tiles[k].position == p.emptySlot) &&
           (p.tiles[k] != clicked ==> q.tiles[k] == p.tiles[k]))
  {
    var q := Click(p, clicked, overlayShown);
    if Legal(p, clicked, overlayShown) {
      var m := MovedIndex(n, p, clicked);
      AdjacentIsUnitDistance(clicked.position, p.emptySlot);
      MoveKeepsWellFormed(n, p, q, m);
    }
  }

  /** The index of the clicked tile, the only one carrying its label. */
  lemma MovedIndex(n: nat, p: Puzzle, clicked: Tile) returns (m: nat)
    requires n >= 1 && WellFormed(n, p) && clicked in p.tiles
    ensures m < |p.tiles| && p.tiles[m] == clicked
    ensures forall k :: 0 <= k < |p.tiles| ==> (p.tiles[k].value == clicked.value <==> k == m)
  {
    m :| 0 <= m < |p.tiles| && p.tiles[m] == clicked;
    forall k | 0 <= k < |p.tiles| ensures (p.tiles[k].value == clicked.value) == (k == m) {
      if k < m {
        assert p.tiles[k].value != p.tiles[m].value;
      } else if k > m {
        assert p.tiles[m].value != p.tiles[k].value;
      }
    }
  }

  /** Trading the places of tile m and the empty slot keeps a puzzle
      well-formed. */
  lemma MoveKeepsWellFormed(n: nat, p: Puzzle, q: Puzzle, m: nat)
    requires n >= 1 && WellFormed(n, p) && m < |p.tiles| && p.tiles[m].position != p.emptySlot
    requires |q.tiles| == |p.tiles| && q.emptySlot == p.tiles[m].position
    requires q.tiles[m] == p.tiles[m].(position := p.emptySlot)
    requires forall k :: 0 <= k < |p.tiles| && k != m ==> q.tiles[k] == p.tiles[k]
    ensures WellFormed(n, q)
  {
    MovePreservesCover(n, p, q, m);
    MovePreservesLabels(n, p, q);
  }

  lemma MovePreservesLabels(n: nat, p: Puzzle, q: Puzzle)
    requires n >= 1 && WellFormed(n, p) && |q.tiles| == |p.tiles|
    requires forall k :: 0 <= k < |p.tiles| ==>
      q.tiles[k].value == p.tiles[k].value && q.tiles[k].correctPosition == p.tiles[k].correctPosition
    ensures |q.tiles| == n * n - 1
    ensures forall k :: 0 <= k < |q.tiles| ==>
       1 <= q.tiles[k].value < n * n && q.tiles[k].correctPosition == CorrectPosition(n, q.tiles[k].value)
    ensures forall k, l :: 0 <= k < l < |q.tiles| ==> q.tiles[k].value != q.tiles[l].value
    ensures forall v :: 1 <= v < n * n ==> HasLabel(q.tiles, v)
  {
    forall v | 1 <= v < n * n ensures HasLabel(q.tiles, v) {
      assert HasLabel(p.tiles, v);
      var k :| 0 <= k < |p.tiles| && p.tiles[k].value == v;
      assert q.tiles[k].value == v;
    }
  }

  lemma MovePreservesCover(n: nat, p: Puzzle, q: Puzzle, m: nat)
    requires n >= 1 && Covers(n, p) && m < |p.tiles| && p.tiles[m].position != p.emptySlot
    requires |q.tiles| == |p.tiles| && q.emptySlot == p.tiles[m].position
    requires q.tiles[m].position == p.emptySlot
    requires forall k :: 0 <= k < |p.tiles| && k != m ==> q.tiles[k].position == p.tiles[k].position
    ensures Covers(n, q)
  {
    forall k | 0 <= k < |q.tiles| ensures InGrid(n, q.tiles[k].position) && q.tiles[k].position != q.emptySlot {
    }
    forall k, l | 0 <= k < l < |q.tiles| ensures q.tiles[k].position != q.tiles[l].position {
    }
    forall c | InGrid(n, c) ensures c == q.emptySlot || exists k :: 0 <= k < |q.tiles| && q.tiles[k].position == c {
      if c == p.emptySlot {
        assert q.tiles[m].position == c;
      } else if c != q.emptySlot {
        var k :| 0 <= k < |p.tiles| && p.tiles[k].position == c;
        assert q.tiles[k].position == c;
      }
    }
  }

  /** A legal move is undone by clicking the moved tile again. */
  lemma ClickUndo(n: nat, p: Puzzle, clicked: Tile)
    requires n >= 1 && WellFormed(n, p) && clicked in p.tiles && Legal(p, clicked, false)
    ensures var q := Click(p, clicked, false);
      var moved := clicked.(position := p.emptySlot);
      moved in q.tiles && Legal(q, moved, false) && Click(q, moved, false) == p
  {
    var q := Click(p, clicked, false);
    var moved := clicked.(position := p.emptySlot);
    var m := MovedIndex(n, p, clicked);
    ClickEffect(n, p, clicked, false);
    assert q.tiles[m] == moved;
    AdjacentIsUnitDistance(clicked.position, p.emptySlot);
    MoveBack(p, q, clicked, m);
  }

  /** Moving the tile with label `clicked.value` back to the tile's old cell
      restores every tile. */
  lemma MoveBack(p: Puzzle, q: Puzzle, clicked: Tile, m: nat)
    requires m < |p.tiles| && p.tiles[m] == clicked && |q.tiles| == |p.tiles|
    requires forall k :: 0 <= k < |p.tiles| ==> (p.tiles[k].value == clicked.value <==> k == m)
    requires q.tiles[m] == clicked.(position := p.emptySlot)
    requires forall k :: 0 <= k < |p.tiles| && k != m ==> q.tiles[k] == p.tiles[k]
    ensures MoveTile(q.tiles, clicked.(position := p.emptySlot), clicked.position) == p.tiles
  {
    var back := MoveTile(q.tiles, clicked.(position := p.emptySlot), clicked.position);
    forall k | 0 <= k < |p.tiles| ensures back[k] == p.tiles[k] {
    }
  }
}
