/** Grid coordinates of an N x N sliding-tile board, the mapping between a
    board's 1-D cell index and its (x, y) coordinate, and 4-adjacency. */
module Grid {

  /** A grid coordinate: `x` is the column, `y` the row (row 0 is the top). */
  datatype Pos = Pos(x: int, y: int)

  predicate InGrid(n: nat, p: Pos) {
    0 <= p.x < n && 0 <= p.y < n
  }

  /** Row-major 1-D index of a coordinate. */
  function IndexOfCell(n: nat, p: Pos): int {
    p.x + n * p.y
  }

  /** Coordinate of 1-D index `k` on an n-wide board: (k % n, floor(k / n)). */
  function CellOf(n: nat, k: nat): (p: Pos)
    requires n >= 1
    ensures k < n * n ==> InGrid(n, p)
    ensures IndexOfCell(n, p) == k
  {
    RowBound(n, k);
    Pos(k % n, k / n)
  }

  lemma RowBound(n: nat, k: nat)
    requires n >= 1
    ensures k < n * n ==> k / n < n
  {
    if k < n * n && k / n >= n {
      MulMonotone(n, n, k / n);
    }
  }

  lemma MulMonotone(c: nat, a: int, b: int)
    requires a <= b
    ensures c * a <= c * b
  {
  }

  /** Euclidean division has exactly one quotient/remainder pair. */
  lemma {:induction false} DivModUnique(a: int, n: nat, q: int, r: int)
    requires n >= 1 && 0 <= r < n && a == n * q + r
    ensures a / n == q && a % n == r
  {
    var q', r' := a / n, a % n;
    assert n * q + r == n * q' + r';
    if q < q' {
      MulMonotone(n, q + 1, q');
      assert false;
    } else if q > q' {
      MulMonotone(n, q' + 1, q);
      assert false;
    }
  }

  /** The 1-D index and the coordinate determine each other: every index in
      [0, n*n) names a distinct cell of the grid, and every cell of the grid
      is named by exactly one such index. */
  lemma IndexCellRoundTrip(n: nat, p: Pos)
    requires n >= 1 && InGrid(n, p)
    ensures 0 <= IndexOfCell(n, p) < n * n
    ensures CellOf(n, IndexOfCell(n, p)) == p
  {
    DivModUnique(IndexOfCell(n, p), n, p.y, p.x);
    MulMonotone(n, p.y, n - 1);
  }

  lemma CellOfInjective(n: nat, i: nat, j: nat)
    requires n >= 1
    ensures CellOf(n, i) == CellOf(n, j) <==> i == j
  {
  }

  function Abs(a: int): nat {
    if a < 0 then -a else a
  }

  /** 4-adjacency as the click handler tests it: the coordinates differ by
      one on exactly one axis and agree on the other. */
  predicate Adjacent(t: Pos, e: Pos) {
    (Abs(t.x - e.x) == 1 && t.y == e.y) || (Abs(t.y - e.y) == 1 && t.x == e.x)
  }

  /** Adjacency is Manhattan distance one, which makes it symmetric and
      irreflexive. */
  lemma AdjacentIsUnitDistance(a: Pos, b: Pos)
    ensures Adjacent(a, b) <==> Abs(a.x - b.x) + Abs(a.y - b.y) == 1
    ensures Adjacent(a, b) <==> Adjacent(b, a)
    ensures !Adjacent(a, a)
  {
  }

  /** On the 1-D board, a slide between adjacent cells moves by one index
      within a row, or by n indices across rows. */
  lemma AdjacentIndices(n: nat, a: Pos, b: Pos)
    requires Adjacent(a, b)
    ensures (a.y == b.y && Abs(IndexOfCell(n, a) - IndexOfCell(n, b)) == 1) ||
            (a.x == b.x && Abs(IndexOfCell(n, a) - IndexOfCell(n, b)) == n)
  {
    if a.y == b.y + 1 {
      assert n * a.y == n * b.y + n;
    } else if b.y == a.y + 1 {
      assert n * b.y == n * a.y + n;
    }
  }
}
