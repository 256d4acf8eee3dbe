/** The invariant behind the generator's parity rule: a legal slide never
    changes whether a board satisfies the rule, so every position a session
    reaches from an accepted board still satisfies it. */
module Parity {
  import opened Grid
  import opened Board
  import opened Tiles

  function Ind(b: bool): nat {
    if b then 1 else 0
  }

  lemma {:induction false} InversionsWithConcat(a: int, s: seq<int>, t: seq<int>)
    ensures InversionsWith(a, s + t) == InversionsWith(a, s) + InversionsWith(a, t)
  {
    if |t| > 0 {
      InversionsWithConcat(a, s, t[..|t| - 1]);
      assert (s + t)[..|s + t| - 1] == s + t[..|t| - 1];
    } else {
      assert s + t == s;
    }
  }

  lemma InversionsWithPair(a: int, x: int, y: int)
    ensures InversionsWith(a, [x, y]) == Ind(Inverted(a, x)) + Ind(Inverted(a, y))
    ensures InversionsWith(a, [x]) == Ind(Inverted(a, x))
  {
    assert [x, y][..1] == [x];
    assert [x][..0] == [];
  }

  /** Exchanging two neighbouring cells changes the inversion count by
      exactly the pair itself: by one when both hold tiles, else not at all. */
  lemma {:induction false} SwapNeighbours(p: seq<int>, a: int, b: int, q: seq<int>)
    ensures Inversions(p + [a, b] + q) + Ind(Inverted(b, a)) == Inversions(p + [b, a] + q) + Ind(Inverted(a, b))
  {
    if |p| == 0 {
      assert p + [a, b] + q == [a] + ([b] + q);
      assert p + [b, a] + q == [b] + ([a] + q);
      assert ([a, b] + q)[1..] == [b] + q;
      assert ([b, a] + q)[1..] == [a] + q;
      assert ([b] + q)[1..] == q;
      assert ([a] + q)[1..] == q;
      InversionsWithConcat(a, [b], q);
      InversionsWithConcat(b, [a], q);
      InversionsWithPair(a, b, b);
      InversionsWithPair(b, a, a);
    } else {
      var p' := p[1..];
      SwapNeighbours(p', a, b, q);
      assert (p + [a, b] + q)[1..] == p' + [a, b] + q;
      assert (p + [b, a] + q)[1..] == p' + [b, a] + q;
      InversionsWithConcat(p[0], p' + [a, b], q);
      InversionsWithConcat(p[0], p', [a, b]);
      InversionsWithConcat(p[0], p' + [b, a], q);
      InversionsWithConcat(p[0], p', [b, a]);
      InversionsWithPair(p[0], a, b);
      InversionsWithPair(p[0], b, a);
    }
  }

  /** Sliding the empty marker across a run of cells does not change the
      inversion count. */
  lemma {:induction false} SlideEmpty(p: seq<int>, m: seq<int>, q: seq<int>)
    ensures Inversions(p + [0] + m + q) == Inversions(p + m + [0] + q)
    decreases |m|
  {
    if |m| > 0 {
      var r := m[1..] + q;
      assert p + [0] + m + q == p + [0, m[0]] + r;
      SwapNeighbours(p, 0, m[0], r);
      assert p + [m[0], 0] + r == (p + [m[0]]) + [0] + m[1..] + q;
      SlideEmpty(p + [m[0]], m[1..], q);
      assert (p + [m[0]]) + m[1..] + [0] + q == p + m + [0] + q;
    } else {
      assert p + [0] + m + q == p + m + [0] + q;
    }
  }

  /** Sliding a tile across a run of other tiles changes the inversion
      count's parity by the parity of the run's length. */
  lemma {:induction false} SlideTile(p: seq<int>, z: int, m: seq<int>, q: seq<int>)
    requires z != 0 && forall i :: 0 <= i < |m| ==> m[i] != 0 && m[i] != z
    ensures (Inversions(p + [z] + m + q) + |m|) % 2 == Inversions(p + m + [z] + q) % 2
    decreases |m|
  {
    if |m| > 0 {
      var r := m[1..] + q;
      assert p + [z] + m + q == p + [z, m[0]] + r;
      SwapNeighbours(p, z, m[0], r);
      assert p + [m[0], z] + r == (p + [m[0]]) + [z] + m[1..] + q;
      SlideTile(p + [m[0]], z, m[1..], q);
      assert (p + [m[0]]) + m[1..] + [z] + q == p + m + [z] + q;
    } else {
      assert p + [z] + m + q == p + m + [z] + q;
    }
  }

  /** A tile at index t sliding down into the empty cell at t + n passes the
      n - 1 tiles between them: the inversion parity changes by n - 1. */
  lemma VerticalSlide(b: seq<int>, t: nat, n: nat)
    requires n >= 1 && t + n < |b| && b[t] != 0 && b[t + n] == 0
    requires forall i :: t < i < t + n ==> b[i] != 0 && b[i] != b[t]
    ensures (Inversions(b) + (n - 1)) % 2 == Inversions(b[t := 0][t + n := b[t]]) % 2
  {
    var v := b[t];
    var p, m, q := b[..t], b[t + 1..t + n], b[t + n + 1..];
    assert b == p + [v] + m + [0] + q;
    assert b[t := 0][t + n := v] == (p + [0]) + m + [v] + q;
    SlideEmpty(p + [v], m, q);
    assert (p + [v]) + [0] + m + q == p + [v, 0] + (m + q);
    SwapNeighbours(p, v, 0, m + q);
    assert p + [0, v] + (m + q) == (p + [0]) + [v] + m + q;
    SlideTile(p + [0], v, m, q);
  }

  /** A tile sliding sideways into the neighbouring empty cell keeps the
      inversion count. */
  lemma HorizontalSlide(b: seq<int>, i: nat)
    requires i + 1 < |b| && (b[i] == 0 || b[i + 1] == 0)
    ensures Inversions(b) == Inversions(b[i := b[i + 1]][i + 1 := b[i]])
  {
    var p, q := b[..i], b[i + 2..];
    assert b == p + [b[i], b[i + 1]] + q;
    assert b[i := b[i + 1]][i + 1 := b[i]] == p + [b[i + 1], b[i]] + q;
    SwapNeighbours(p, b[i], b[i + 1], q);
  }

  /** On the 1-D board a legal click swaps the clicked tile's cell (now 0)
      with the empty slot's cell (now the tile's label). */
  lemma ClickOnBoard(n: nat, p: Puzzle, clicked: Tile)
    requires n >= 1 && WellFormed(n, p) && clicked in p.tiles && Legal(p, clicked, false)
    ensures var t, e := IndexOfCell(n, clicked.position), IndexOfCell(n, p.emptySlot);
      0 <= t < n * n && 0 <= e < n * n && t != e &&
      BoardOf(n, p)[t] == clicked.value &&
      BoardOf(n, Click(p, clicked, false)) == BoardOf(n, p)[t := 0][e := clicked.value]
  {
    var t, e := IndexOfCell(n, clicked.position), IndexOfCell(n, p.emptySlot);
    var b := BoardOf(n, p);
    var b' := BoardOf(n, Click(p, clicked, false));
    BoardOfPlaces(n, p);
    ClickEffect(n, p, clicked, false);
    IndexCellRoundTrip(n, clicked.position);
    IndexCellRoundTrip(n, p.emptySlot);
    forall i | 0 <= i < n * n ensures b'[i] == b[t := 0][e := clicked.value][i] {
      ClickCell(n, p, clicked, i);
    }
  }

  lemma ClickCell(n: nat, p: Puzzle, clicked: Tile, i: nat)
    requires n >= 1 && WellFormed(n, p) && clicked in p.tiles && Legal(p, clicked, false) && i < n * n
    ensures var t, e := IndexOfCell(n, clicked.position), IndexOfCell(n, p.emptySlot);
      BoardOf(n, Click(p, clicked, false))[i] ==
        if i == t then 0 else if i == e then clicked.value else BoardOf(n, p)[i]
  {
    var q := Click(p, clicked, false);
    var t, e := IndexOfCell(n, clicked.position), IndexOfCell(n, p.emptySlot);
    ClickEffect(n, p, clicked, false);
    var m := MovedIndex(n, p, clicked);
    IndexCellRoundTrip(n, clicked.position);
    IndexCellRoundTrip(n, p.emptySlot);
    var c := CellOf(n, i);
    if i == t {
      ValueAtAbsent(q.tiles, c);
    } else if i == e {
      ValueAtFound(q.tiles, m, c);
    } else {
      CellOfInjective(n, i, t);
      CellOfInjective(n, i, e);
      UntouchedCell(n, p, q, m, i);
    }
  }

  lemma UntouchedCell(n: nat, p: Puzzle, q: Puzzle, m: nat, i: nat)
    requires n >= 1 && WellFormed(n, p) && Covers(n, q) && i < n * n && m < |p.tiles|
    requires |q.tiles| == |p.tiles| && forall k :: 0 <= k < |p.tiles| && k != m ==> q.tiles[k] == p.tiles[k]
    requires CellOf(n, i) != p.emptySlot && CellOf(n, i) != p.tiles[m].position
    ensures BoardOf(n, q)[i] == BoardOf(n, p)[i]
  {
    var c := CellOf(n, i);
    CellValue(n, p, i);
    var k :| 0 <= k < |p.tiles| && p.tiles[k].position == c && p.tiles[k].value == BoardOf(n, p)[i];
    ValueAtFound(q.tiles, k, c);
  }

  /** The parity bookkeeping of one slide: the empty row moves by one and the
      inversion parity by n - 1 (vertical), or neither changes
      (horizontal); either way the rule's verdict stays the same. */
  lemma RuleKept(n: nat, inv: nat, inv': nat, row: int, row': int, vertical: bool)
    requires n >= 1
    requires vertical ==> (inv + (n - 1)) % 2 == inv' % 2 && (row' == row + 1 || row' == row - 1)
    requires !vertical ==> inv == inv' && row == row'
    ensures (if n % 2 == 1 then inv % 2 == 0
             else (row % 2 == 1 && inv % 2 == 0) || (row % 2 == 0 && inv % 2 == 1)) <==>
            (if n % 2 == 1 then inv' % 2 == 0
             else (row' % 2 == 1 && inv' % 2 == 0) || (row' % 2 == 0 && inv' % 2 == 1))
  {
  }

  /** Moving the empty cell of a board to a grid neighbour (the next or
      previous cell of the same row, or the cell n away) keeps the board's
      verdict under the parity rule. */
  lemma NeighbourSwapKeepsRule(n: nat, b: seq<int>, t: nat, e: nat)
    requires n >= 1 && IsBoard(n, b) && t < n * n && e < n * n && b[e] == 0
    requires (t / n == e / n && (t == e + 1 || e == t + 1)) || t == e + n || e == t + n
    ensures Solvable(n, b[t := 0][e := b[t]]) <==> Solvable(n, b)
  {
    var b' := b[t := 0][e := b[t]];
    var vertical := t == e + n || e == t + n;
    SwapInversions(n, b, t, e);
    EmptyMoves(n, b, t, e);
    RowStep(n, t, e);
    RuleKept(n, Inversions(b), Inversions(b'), n - e / n, n - t / n, vertical);
  }

  lemma RowStep(n: nat, t: nat, e: nat)
    requires n >= 1
    ensures t == e + n ==> t / n == e / n + 1
    ensures e == t + n ==> e / n == t / n + 1
  {
    if t == e + n {
      assert t == n * (e / n + 1) + e % n;
      DivModUnique(t, n, e / n + 1, e % n);
    }
    if e == t + n {
      assert e == n * (t / n + 1) + t % n;
      DivModUnique(e, n, t / n + 1, t % n);
    }
  }

  /** After the swap the empty marker is found at t, the tile's old cell. */
  lemma EmptyMoves(n: nat, b: seq<int>, t: nat, e: nat)
    requires n >= 1 && IsBoard(n, b) && t < n * n && e < n * n && b[e] == 0 && t != e
    ensures IndexOf(b, 0) == e && IndexOf(b[t := 0][e := b[t]], 0) == t
  {
    var b' := b[t := 0][e := b[t]];
    BoardIsDistinct(n, b);
    IndexOfDistinct(b, e);
    assert b'[t] == 0;
  }

  lemma SwapInversions(n: nat, b: seq<int>, t: nat, e: nat)
    requires n >= 1 && IsBoard(n, b) && t < n * n && e < n * n && b[e] == 0
    requires (t / n == e / n && (t == e + 1 || e == t + 1)) || t == e + n || e == t + n
    ensures var b' := b[t := 0][e := b[t]];
      if t == e + n || e == t + n then (Inversions(b) + (n - 1)) % 2 == Inversions(b') % 2
      else Inversions(b) == Inversions(b')
  {
    BoardIsDistinct(n, b);
    if e == t + n {
      TileSlidesDown(n, b, t);
    } else if t == e + n {
      TileSlidesUp(n, b, t, e);
    } else if t < e {
      assert b[t := 0][e := b[t]] == b[t := b[t + 1]][t + 1 := b[t]];
      HorizontalSlide(b, t);
    } else {
      assert b[t := 0][e := b[t]] == b[e := b[e + 1]][e + 1 := b[e]];
      HorizontalSlide(b, e);
    }
  }

  lemma TileSlidesDown(n: nat, b: seq<int>, t: nat)
    requires n >= 1 && Distinct(b) && t + n < |b| && b[t + n] == 0
    ensures (Inversions(b) + (n - 1)) % 2 == Inversions(b[t := 0][t + n := b[t]]) % 2
  {
    var e := t + n;
    assert b[t] != 0 by {
      assert b[t] != b[e];
    }
    forall i | t < i < t + n ensures b[i] != 0 && b[i] != b[t] {
      assert b[i] != b[e];
    }
    VerticalSlide(b, t, n);
  }

  lemma TileSlidesUp(n: nat, b: seq<int>, t: nat, e: nat)
    requires n >= 1 && Distinct(b) && t < |b| && t == e + n && b[e] == 0
    ensures (Inversions(b) + (n - 1)) % 2 == Inversions(b[t := 0][e := b[t]]) % 2
  {
    var v := b[t];
    var b' := b[t := 0][e := v];
    assert v != 0 by {
      assert b[t] != b[e];
    }
    assert b'[e := 0][t := v] == b;
    forall i | e < i < e + n ensures b'[i] != 0 && b'[i] != b'[e] {
      assert b[i] != b[t];
      assert b[i] != b[e];
    }
    VerticalSlide(b', e, n);
  }

  /** The central invariant: no click, legal or not, changes whether the
      board satisfies the generator's parity rule. Every position a session
      reaches from an accepted board therefore satisfies it too. */
  lemma ClickKeepsSolvable(n: nat, p: Puzzle, clicked: Tile, overlayShown: bool)
    requires n >= 1 && WellFormed(n, p) && clicked in p.tiles
    ensures Solvable(n, BoardOf(n, Click(p, clicked, overlayShown))) <==> Solvable(n, BoardOf(n, p))
  {
    if Legal(p, clicked, overlayShown) {
      var t, e := IndexOfCell(n, clicked.position), IndexOfCell(n, p.emptySlot);
      ClickOnBoard(n, p, clicked);
      BoardOfWellFormed(n, p);
      DivModUnique(e, n, p.emptySlot.y, p.emptySlot.x);
      DivModUnique(t, n, clicked.position.y, clicked.position.x);
      AdjacentIndices(n, clicked.position, p.emptySlot);
      NeighbourSwapKeepsRule(n, BoardOf(n, p), t, e);
    }
  }

  /** Why the generator applies the rule: the goal board satisfies it and no
      click changes its verdict, so a puzzle whose board the rule rejects is
      not solved, and no click solves it. */
  lemma RejectedNeverSolved(n: nat, p: Puzzle, clicked: Tile, overlayShown: bool)
    requires n >= 1 && WellFormed(n, p) && clicked in p.tiles
    requires !Solvable(n, BoardOf(n, p))
    ensures !IsSolved(p.tiles)
    ensures !IsSolved(Click(p, clicked, overlayShown).tiles)
  {
    InitialBoardSolvable(n);
    SolvedIffInitialBoard(n, p);
    ClickEffect(n, p, clicked, overlayShown);
    ClickKeepsSolvable(n, p, clicked, overlayShown);
    SolvedIffInitialBoard(n, Click(p, clicked, overlayShown));
  }
}
