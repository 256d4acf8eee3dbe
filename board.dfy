/** The generator's 1-D board: the initial label sequence, the inversion count
    with the nested loop that computes it, and the 15-puzzle parity rule. */
module Board {
  import Grid

  /** `[1, 2, ..., n*n - 1, 0]`: the labels in order, then the empty cell. */
  function InitialBoard(n: nat): (b: seq<int>)
    requires n >= 1
    ensures IsBoard(n, b)
  {
    LabelsMultiset(n * n - 1);
    var b := Labels(n * n - 1) + [0];
    assert multiset(b) == multiset(Labels(n * n - 1)) + multiset{0};
    b
  }

  /** Cell `i` of the starting board holds label `i + 1`, the last one 0. */
  lemma InitialBoardAt(n: nat, i: nat)
    requires n >= 1 && i < n * n
    ensures InitialBoard(n)[i] == if i < n * n - 1 then i + 1 else 0
  {
  }

  /** `Array.from({ length: m }, (_, i) => i + 1)`. */
  function Labels(m: nat): seq<int> {
    seq(m, i => i + 1)
  }

  /** A board of an n x n puzzle: n*n cells holding every label
      1 .. n*n - 1 exactly once and the empty marker 0 exactly once. */
  predicate IsBoard(n: nat, s: seq<int>) {
    |s| == n * n &&
    (forall k :: 0 <= k < |s| ==> 0 <= s[k] < n * n) &&
    (forall v :: 0 <= v < n * n ==> multiset(s)[v] == 1)
  }

  predicate Distinct(s: seq<int>) {
    forall i, j :: 0 <= i < j < |s| ==> s[i] != s[j]
  }

  lemma {:induction false} LabelsMultiset(m: nat)
    ensures forall v :: multiset(Labels(m))[v] == (if 1 <= v <= m then 1 else 0)
  {
    if m > 0 {
      LabelsMultiset(m - 1);
      assert Labels(m) == Labels(m - 1) + [m];
    }
  }

  lemma BoardHasEmpty(n: nat, s: seq<int>)
    requires n >= 1 && IsBoard(n, s)
    ensures 0 in s
  {
    assert 0 < n * n;
    assert 0 in multiset(s);
  }

  /** Two equal cells make a value occur at least twice. */
  lemma RepeatCountsTwice(s: seq<int>, i: nat, j: nat)
    requires i < j < |s| && s[i] == s[j]
    ensures multiset(s)[s[i]] >= 2
  {
    assert s == s[..j] + s[j..];
    assert s[i] in s[..j];
    assert s[j] == s[j..][0];
    assert multiset(s) == multiset(s[..j]) + multiset(s[j..]);
  }

  /** A board holds no value twice. */
  lemma BoardIsDistinct(n: nat, s: seq<int>)
    requires IsBoard(n, s)
    ensures Distinct(s)
  {
    forall i, j | 0 <= i < j < |s| ensures s[i] != s[j] {
      if s[i] == s[j] {
        RepeatCountsTwice(s, i, j);
      }
    }
  }

  /** Without repeats, no value occurs more than once. */
  lemma {:induction false} DistinctCountsOnce(s: seq<int>, v: int)
    requires Distinct(s)
    ensures multiset(s)[v] <= 1
  {
    if |s| > 0 {
      DistinctCountsOnce(s[1..], v);
      assert s == [s[0]] + s[1..];
      if s[0] == v {
        assert v !in s[1..];
      }
    }
  }

  /** Every permutation of a board is a board. */
  lemma PermutationIsBoard(n: nat, s: seq<int>, t: seq<int>)
    requires |t| == |s| && multiset(t) == multiset(s)
    ensures IsBoard(n, s) ==> IsBoard(n, t)
  {
    if IsBoard(n, s) {
      forall k | 0 <= k < |t| ensures 0 <= t[k] < n * n {
        assert t[k] in multiset(s);
      }
    }
  }

  /** `Array.prototype.indexOf`: the first index holding `v`, or -1. */
  function IndexOf(s: seq<int>, v: int): (r: int)
    ensures -1 <= r < |s|
    ensures r == -1 <==> v !in s
    ensures 0 <= r ==> s[r] == v && v !in s[..r]
  {
    if |s| == 0 then -1
    else if s[0] == v then 0
    else
      var i := IndexOf(s[1..], v);
      assert s[1..][..if i < 0 then 0 else i] == s[1..if i < 0 then 1 else i + 1];
      if i == -1 then -1 else i + 1
  }

  /** In a sequence without repeats, indexOf finds the only occurrence. */
  lemma IndexOfDistinct(s: seq<int>, k: nat)
    requires Distinct(s) && k < |s|
    ensures IndexOf(s, s[k]) == k
  {
  }

  /** The pair test of the inversion loop: both cells hold tiles and the
      earlier one has the larger label. */
  predicate Inverted(a: int, b: int) {
    a != 0 && b != 0 && a > b
  }

  /** Number of cells of `t` that form an inversion with an earlier cell
      holding `a`. */
  function InversionsWith(a: int, t: seq<int>): (r: nat)
    ensures r <= |t|
  {
    if |t| == 0 then 0
    else InversionsWith(a, t[..|t| - 1]) + (if Inverted(a, t[|t| - 1]) then 1 else 0)
  }

  /** The inversion count: for each cell, the later cells it forms an
      inversion with. */
  function Inversions(s: seq<int>): nat {
    if |s| == 0 then 0 else InversionsWith(s[0], s[1..]) + Inversions(s[1..])
  }

  /** Independent reference: the set of inverted index pairs. */
  ghost function InversionPairs(s: seq<int>): set<(int, int)> {
    set i, j | 0 <= i < j < |s| && Inverted(s[i], s[j]) :: (i, j)
  }

  lemma {:induction false} InversionsWithPairs(a: int, t: seq<int>)
    ensures InversionsWith(a, t) == |set j | 0 <= j < |t| && Inverted(a, t[j])|
  {
    var S := set j | 0 <= j < |t| && Inverted(a, t[j]);
    if |t| > 0 {
      var u := t[..|t| - 1];
      InversionsWithPairs(a, u);
      var U := set j | 0 <= j < |u| && Inverted(a, u[j]);
      if Inverted(a, t[|t| - 1]) {
        assert S == U + {|t| - 1};
      } else {
        assert S == U;
      }
    } else {
      assert S == {};
    }
  }

  /** The recursive count is the number of inverted index pairs. */
  lemma {:induction false} InversionsCountPairs(s: seq<int>)
    ensures Inversions(s) == |InversionPairs(s)|
  {
    if |s| > 0 {
      var t := s[1..];
      InversionsCountPairs(t);
      InversionsWithPairs(s[0], t);
      var head := set j | 0 <= j < |t| && Inverted(s[0], t[j]);
      var first := set j | j in head :: (0, j + 1);
      var shift := set p | p in InversionPairs(t) :: (p.0 + 1, p.1 + 1);
      PairsSplit(s, head, first, shift);
      assert first * shift == {};
      MapCardinality(head, first, 0);
      ShiftCardinality(InversionPairs(t), shift);
    } else {
      assert InversionPairs(s) == {};
    }
  }

  /** The inverted pairs of a non-empty board are those starting at its first
      cell and, shifted by one, those of its tail. */
  lemma PairsSplit(s: seq<int>, head: set<int>, first: set<(int, int)>, shift: set<(int, int)>)
    requires |s| > 0
    requires head == set j | 0 <= j < |s| - 1 && Inverted(s[0], s[1..][j])
    requires first == set j | j in head :: (0, j + 1)
    requires shift == set p | p in InversionPairs(s[1..]) :: (p.0 + 1, p.1 + 1)
    ensures InversionPairs(s) == first + shift
  {
    var t := s[1..];
    forall p | p in InversionPairs(s) ensures p in first + shift {
      if p.0 > 0 {
        assert (p.0 - 1, p.1 - 1) in InversionPairs(t);
      } else {
        assert p.1 - 1 in head;
      }
    }
    forall p | p in first + shift ensures p in InversionPairs(s) {
      if p in shift {
        var q :| q in InversionPairs(t) && p == (q.0 + 1, q.1 + 1);
        assert t[q.0] == s[p.0] && t[q.1] == s[p.1];
      }
    }
  }

  lemma MapCardinality(js: set<int>, ps: set<(int, int)>, i: int)
    requires ps == set j | j in js :: (i, j + 1)
    ensures |ps| == |js|
    decreases |js|
  {
    if js != {} {
      if forall x :: x !in js {
        assert false;
      }
      var j :| j in js;
      var js' := js - {j};
      var ps' := set j' | j' in js' :: (i, j' + 1);
      MapCardinality(js', ps', i);
      forall p | p in ps ensures p in ps' + {(i, j + 1)} {
        var k :| k in js && p == (i, k + 1);
        if k != j { assert k in js'; }
      }
      assert ps == ps' + {(i, j + 1)};
      assert (i, j + 1) !in ps';
    } else {
      assert ps == {};
    }
  }
  lemma ShiftCardinality(ps: set<(int, int)>, qs: set<(int, int)>)
    requires qs == set p | p in ps :: (p.0 + 1, p.1 + 1)
    ensures |qs| == |ps|
    decreases |ps|
  {
    if ps != {} {
      if forall x :: x !in ps {
        assert false;
      }
      var p :| p in ps;
      var ps' := ps - {p};
      var qs' := set p' | p' in ps' :: (p'.0 + 1, p'.1 + 1);
      ShiftCardinality(ps', qs');
      forall q | q in qs ensures q in qs' + {(p.0 + 1, p.1 + 1)} {
        var k :| k in ps && q == (k.0 + 1, k.1 + 1);
        if k != p { assert k in ps'; }
      }
      assert qs == qs' + {(p.0 + 1, p.1 + 1)};
      assert (p.0 + 1, p.1 + 1) !in qs';
    } else {
      assert qs == {};
    }
  }

  /** The nested loop of the generator, counting inverted pairs. */
  method CountInversions(tiles: array<int>) returns (inversions: nat)
    ensures inversions == Inversions(tiles[..])
  {
    var totalTiles := tiles.Length;
    ghost var s := tiles[..];
    inversions := 0;
    var i := 0;
    while i < totalTiles - 1
      invariant 0 <= i <= totalTiles
      invariant totalTiles > 0 ==> i <= totalTiles - 1
      invariant inversions + Inversions(s[i..]) == Inversions(s)
    {
      assert s[i..][1..] == s[i + 1..];
      ghost var before := inversions;
      var j := i + 1;
      while j < totalTiles
        invariant i + 1 <= j <= totalTiles
        invariant inversions == before + InversionsWith(s[i], s[i + 1..j])
      {
        assert s[i + 1..j + 1][..j - i - 1] == s[i + 1..j];
        if tiles[i] != 0 && tiles[j] != 0 && tiles[i] > tiles[j] {
          inversions := inversions + 1;
        }
        j := j + 1;
      }
      assert s[i + 1..j] == s[i..][1..];
      i := i + 1;
    }
    if totalTiles > 0 {
      assert s[i..] == [s[i]];
    }
  }

  /** The empty cell's row counted from the bottom, 1-based:
      n - floor(indexOf(0) / n). */
  function EmptyRowFromBottom(n: nat, s: seq<int>): int
    requires n >= 1
  {
    n - IndexOf(s, 0) / n
  }

  /** The classic 15-puzzle parity rule the generator accepts a board by. */
  predicate Solvable(n: nat, s: seq<int>)
    requires n >= 1
  {
    var inversions := Inversions(s);
    var emptyRowFromBottom := EmptyRowFromBottom(n, s);
    if n % 2 == 1 then inversions % 2 == 0
    else (emptyRowFromBottom % 2 == 1 && inversions % 2 == 0) ||
         (emptyRowFromBottom % 2 == 0 && inversions % 2 == 1)
  }

  lemma EmptyRowInRange(n: nat, s: seq<int>)
    requires IsBoard(n, s) && n >= 1
    ensures 1 <= EmptyRowFromBottom(n, s) <= n
  {
    assert 0 in multiset(s);
    Grid.RowBound(n, IndexOf(s, 0));
  }

  /** The goal board [1, ..., n*n - 1, 0] satisfies the rule: it has no
      inversions and its empty cell lies in the bottom row. */
  lemma InitialBoardSolvable(n: nat)
    requires n >= 1
    ensures Inversions(InitialBoard(n)) == 0
    ensures EmptyRowFromBottom(n, InitialBoard(n)) == 1
    ensures Solvable(n, InitialBoard(n))
  {
    InitialBoardNoInversions(n);
    InitialBoardEmptyLast(n);
    Grid.DivModUnique(n * n - 1, n, n - 1, n - 1);
  }

  lemma InitialBoardNoInversions(n: nat)
    requires n >= 1
    ensures Inversions(InitialBoard(n)) == 0
  {
    var b := InitialBoard(n);
    InversionsCountPairs(b);
    forall i, j | 0 <= i < j < |b| ensures !Inverted(b[i], b[j]) {
      InitialBoardAt(n, i);
      InitialBoardAt(n, j);
    }
    assert InversionPairs(b) == {};
  }

  lemma InitialBoardEmptyLast(n: nat)
    requires n >= 1
    ensures IndexOf(InitialBoard(n), 0) == n * n - 1
    ensures n * n - 1 == n * (n - 1) + (n - 1)
  {
    var b := InitialBoard(n);
    BoardIsDistinct(n, b);
    InitialBoardAt(n, n * n - 1);
    IndexOfDistinct(b, n * n - 1);
  }
}
