/** `generateSolvablePuzzle`: shuffle the label sequence until the parity
    rule accepts it, then convert it into tiles and an empty slot. The random
    source is a sequence of draw sequences, one per pass of the rejection
    loop. */
module Generator {
  import opened Shuffle
  import opened Board
  import opened Tiles

  datatype Option<T> = None | Some(value: T)

  /** What one pass of the loop body produces: the shuffled board and the
      rule's verdict on it. */
  datatype Draw = Draw(board: seq<int>, solvable: bool)

  predicate AllValid(draws: seq<seq<int>>, len: nat) {
    forall k :: 0 <= k < |draws| ==> ValidDraws(draws[k], len)
  }

  /** One pass of the do/while body: shuffle the current board with the
      draws `r`, then judge the result by the parity rule. */
  function Attempt(n: nat, tiles: seq<int>, r: seq<int>): (d: Draw)
    requires n >= 1 && ValidDraws(r, |tiles|)
    ensures |d.board| == |tiles|
  {
    var shuffled := Shuffled(tiles, r);
    Draw(shuffled, Solvable(n, shuffled))
  }

  /** The board the loop exits with: each pass shuffles the previous pass's
      board, and the first one the rule accepts is returned. None when the
      draws run out first. What it returns is a board the rule accepts. */
  function FirstSolvable(n: nat, tiles: seq<int>, draws: seq<seq<int>>): (r: Option<seq<int>>)
    requires n >= 1 && AllValid(draws, |tiles|)
    ensures r.Some? ==> |r.value| == |tiles| && Solvable(n, r.value)
    decreases |draws|
  {
    if |draws| == 0 then None
    else
      var d := Attempt(n, tiles, draws[0]);
      if d.solvable then Some(d.board)
      else FirstSolvable(n, d.board, draws[1..])
  }

  /** The outcome of pass `k`, had the loop not stopped before it. */
  function Pass(n: nat, tiles: seq<int>, draws: seq<seq<int>>, k: nat): (d: Draw)
    requires n >= 1 && AllValid(draws, |tiles|) && k < |draws|
    ensures |d.board| == |tiles|
    decreases k
  {
    var d := Attempt(n, tiles, draws[0]);
    if k == 0 then d else Pass(n, d.board, draws[1..], k - 1)
  }

  /** A pass only rearranges the board. */
  lemma AttemptRearranges(n: nat, tiles: seq<int>, r: seq<int>)
    requires n >= 1 && ValidDraws(r, |tiles|)
    ensures multiset(Attempt(n, tiles, r).board) == multiset(tiles)
  {
    ShuffledIsPermutation(tiles, r);
  }

  /** So the board the loop returns is a rearrangement of the one it
      started from. */
  lemma {:induction false} FirstSolvableRearranges(n: nat, tiles: seq<int>, draws: seq<seq<int>>)
    requires n >= 1 && AllValid(draws, |tiles|)
    ensures FirstSolvable(n, tiles, draws).Some? ==>
      multiset(FirstSolvable(n, tiles, draws).value) == multiset(tiles)
    decreases |draws|
  {
    if |draws| > 0 {
      FirstSolvableStep(n, tiles, draws);
      var d := Attempt(n, tiles, draws[0]);
      AttemptRearranges(n, tiles, draws[0]);
      if !d.solvable {
        FirstSolvableRearranges(n, d.board, draws[1..]);
      }
    }
  }

  /** Pass `k + 1` from a board is pass `k` from the board the first pass
      leaves behind. */
  lemma PassShift(n: nat, tiles: seq<int>, draws: seq<seq<int>>, k: nat)
    requires n >= 1 && AllValid(draws, |tiles|) && k + 1 < |draws|
    ensures Pass(n, tiles, draws, k + 1) == Pass(n, Attempt(n, tiles, draws[0]).board, draws[1..], k)
  {
  }

  /** One unfolding of the loop: the first pass either is accepted or
      hands its board on to the rest of the loop. */
  lemma FirstSolvableStep(n: nat, tiles: seq<int>, draws: seq<seq<int>>)
    requires n >= 1 && AllValid(draws, |tiles|) && |draws| > 0
    ensures Pass(n, tiles, draws, 0) == Attempt(n, tiles, draws[0])
    ensures AllValid(draws[1..], |Attempt(n, tiles, draws[0]).board|)
    ensures Attempt(n, tiles, draws[0]).solvable ==>
      FirstSolvable(n, tiles, draws) == Some(Attempt(n, tiles, draws[0]).board)
    ensures !Attempt(n, tiles, draws[0]).solvable ==>
      FirstSolvable(n, tiles, draws) == FirstSolvable(n, Attempt(n, tiles, draws[0]).board, draws[1..])
  {
  }

  /** The loop gives up only when every pass was rejected. */
  lemma {:induction false} FirstSolvableNone(n: nat, tiles: seq<int>, draws: seq<seq<int>>)
    requires n >= 1 && AllValid(draws, |tiles|)
    ensures FirstSolvable(n, tiles, draws).None? <==>
      forall k :: 0 <= k < |draws| ==> !Pass(n, tiles, draws, k).solvable
    decreases |draws|
  {
    if |draws| > 0 {
      FirstSolvableStep(n, tiles, draws);
      var d := Attempt(n, tiles, draws[0]);
      if !d.solvable {
        var rest := draws[1..];
        FirstSolvableNone(n, d.board, rest);
        if FirstSolvable(n, d.board, rest).None? {
          forall k | 0 <= k < |draws| ensures !Pass(n, tiles, draws, k).solvable {
            if k > 0 {
              PassShift(n, tiles, draws, k - 1);
              assert !Pass(n, d.board, rest, k - 1).solvable;
            }
          }
        } else {
          var k :| 0 <= k < |rest| && Pass(n, d.board, rest, k).solvable;
          PassShift(n, tiles, draws, k);
        }
      }
    }
  }

  /** The number of passes rejected before the first accepted one (all of
      them when none is accepted). */
  function RejectedPasses(n: nat, tiles: seq<int>, draws: seq<seq<int>>): (k: nat)
    requires n >= 1 && AllValid(draws, |tiles|)
    ensures k <= |draws|
    decreases |draws|
  {
    if |draws| == 0 then 0
    else
      var d := Attempt(n, tiles, draws[0]);
      if d.solvable then 0 else 1 + RejectedPasses(n, d.board, draws[1..])
  }

  /** Every pass before that point is rejected. */
  lemma {:induction false} RejectedPassesRejected(n: nat, tiles: seq<int>, draws: seq<seq<int>>, j: nat)
    requires n >= 1 && AllValid(draws, |tiles|) && j < RejectedPasses(n, tiles, draws)
    ensures !Pass(n, tiles, draws, j).solvable
    decreases |draws|
  {
    var d := Attempt(n, tiles, draws[0]);
    if j > 0 {
      RejectedPassesRejected(n, d.board, draws[1..], j - 1);
      PassShift(n, tiles, draws, j - 1);
    }
  }

  /** When the loop returns a board, it is the one the pass at that point
      produced, and that pass was accepted. */
  lemma {:induction false} FirstSolvableSome(n: nat, tiles: seq<int>, draws: seq<seq<int>>)
    requires n >= 1 && AllValid(draws, |tiles|)
    requires FirstSolvable(n, tiles, draws).Some?
    ensures RejectedPasses(n, tiles, draws) < |draws|
    ensures Pass(n, tiles, draws, RejectedPasses(n, tiles, draws)).solvable
    ensures FirstSolvable(n, tiles, draws).value == Pass(n, tiles, draws, RejectedPasses(n, tiles, draws)).board
    decreases |draws|
  {
    FirstSolvableStep(n, tiles, draws);
    var d := Attempt(n, tiles, draws[0]);
    if d.solvable {
      assert RejectedPasses(n, tiles, draws) == 0;
    } else {
      FirstSolvableSome(n, d.board, draws[1..]);
      SomeLater(n, tiles, draws);
    }
  }

  /** The inductive step of the lemma above: a rejected first pass shifts
      the accepted pass one further on. */
  lemma SomeLater(n: nat, tiles: seq<int>, draws: seq<seq<int>>)
    requires n >= 1 && AllValid(draws, |tiles|) && |draws| > 0
    requires !Attempt(n, tiles, draws[0]).solvable
    requires AllValid(draws[1..], |Attempt(n, tiles, draws[0]).board|)
    requires FirstSolvable(n, tiles, draws) == FirstSolvable(n, Attempt(n, tiles, draws[0]).board, draws[1..])
    requires var b := Attempt(n, tiles, draws[0]).board;
      var k := RejectedPasses(n, b, draws[1..]);
      FirstSolvable(n, b, draws[1..]).Some? && k < |draws[1..]| &&
      Pass(n, b, draws[1..], k).solvable && FirstSolvable(n, b, draws[1..]).value == Pass(n, b, draws[1..], k).board
    ensures RejectedPasses(n, tiles, draws) < |draws|
    ensures Pass(n, tiles, draws, RejectedPasses(n, tiles, draws)).solvable
    ensures FirstSolvable(n, tiles, draws).value == Pass(n, tiles, draws, RejectedPasses(n, tiles, draws)).board
  {
    var b := Attempt(n, tiles, draws[0]).board;
    var k := RejectedPasses(n, b, draws[1..]);
    assert RejectedPasses(n, tiles, draws) == k + 1;
    PassShift(n, tiles, draws, k);
  }

  lemma AllValidSuffix(draws: seq<seq<int>>, len: nat, i: nat)
    requires AllValid(draws, len) && i <= |draws|
    ensures AllValid(draws[i..], len)
  {
  }

  /** One pass of the loop, seen from the outcome of the whole loop: an
      accepted pass fixes the outcome... */
  lemma PassAccepted(n: nat, start: seq<int>, tiles: seq<int>, draws: seq<seq<int>>, attempt: nat)
    requires n >= 1 && AllValid(draws, |tiles|) && |start| == |tiles| && attempt < |draws|
    requires FirstSolvable(n, start, draws) == FirstSolvable(n, tiles, draws[attempt..])
    requires Attempt(n, tiles, draws[attempt]).solvable
    ensures FirstSolvable(n, start, draws) == Some(Attempt(n, tiles, draws[attempt]).board)
  {
    AllValidSuffix(draws, |tiles|, attempt);
    RestShape(draws, attempt);
    FirstSolvableStep(n, tiles, draws[attempt..]);
  }

  /** ... and a rejected one hands its board to the remaining passes. */
  lemma PassRejected(n: nat, start: seq<int>, tiles: seq<int>, draws: seq<seq<int>>, attempt: nat)
    requires n >= 1 && AllValid(draws, |tiles|) && |start| == |tiles| && attempt < |draws|
    requires FirstSolvable(n, start, draws) == FirstSolvable(n, tiles, draws[attempt..])
    requires !Attempt(n, tiles, draws[attempt]).solvable
    ensures FirstSolvable(n, start, draws) == FirstSolvable(n, Attempt(n, tiles, draws[attempt]).board, draws[attempt + 1..])
  {
    AllValidSuffix(draws, |tiles|, attempt);
    RestShape(draws, attempt);
    FirstSolvableStep(n, tiles, draws[attempt..]);
  }

  lemma RestShape(draws: seq<seq<int>>, attempt: nat)
    requires attempt < |draws|
    ensures draws[attempt..][0] == draws[attempt] && draws[attempt..][1..] == draws[attempt + 1..]
  {
  }

  /** One pass of the do/while body: shuffle a copy of the current board,
      count its inversions, find the empty cell's row from the bottom and
      apply the parity rule. */
  method ShuffleAndJudge(gridSize: nat, tiles: seq<int>, r: seq<int>) returns (shuffled: seq<int>, solvable: bool)
    requires gridSize >= 1 && ValidDraws(r, |tiles|)
    ensures Draw(shuffled, solvable) == Attempt(gridSize, tiles, r)
  {
    var a := new int[|tiles|](i requires 0 <= i < |tiles| => tiles[i]);
    assert a[..] == tiles;
    ShuffleArray(a, r);
    var inversions := CountInversions(a);
    shuffled := a[..];
    var emptyRowFromBottom := gridSize - IndexOf(shuffled, 0) / gridSize;
    if gridSize % 2 == 1 {
      solvable := inversions % 2 == 0;
    } else {
      solvable := (emptyRowFromBottom % 2 == 1 && inversions % 2 == 0) ||
                  (emptyRowFromBottom % 2 == 0 && inversions % 2 == 1);
    }
  }

  /** The generator: the rejection loop over the supplied draws, then the
      conversion to tiles. It fails only when the draws run out before the
      rule accepts a board; on success the puzzle is well-formed, reads back
      as the accepted board and satisfies the parity rule. */
  method GenerateSolvablePuzzle(gridSize: nat, draws: seq<seq<int>>) returns (res: Option<Puzzle>)
    requires gridSize >= 1 && AllValid(draws, gridSize * gridSize)
    ensures res.None? <==> FirstSolvable(gridSize, InitialBoard(gridSize), draws).None?
    ensures res.Some? ==> BoardOf(gridSize, res.value) == FirstSolvable(gridSize, InitialBoard(gridSize), draws).value
    ensures res.Some? ==> WellFormed(gridSize, res.value) && Solvable(gridSize, BoardOf(gridSize, res.value))
  {
    var totalTiles := gridSize * gridSize;
    var tiles := Labels(totalTiles - 1) + [0];
    assert tiles == InitialBoard(gridSize);
    ghost var start := tiles;
    var solvable := false;
    var attempt := 0;
    while !solvable && attempt < |draws|
      invariant 0 <= attempt <= |draws|
      invariant |tiles| == |start| && multiset(tiles) == multiset(start)
      invariant FirstSolvable(gridSize, start, draws) ==
        if solvable then Some(tiles) else FirstSolvable(gridSize, tiles, draws[attempt..])
    {
      AttemptRearranges(gridSize, tiles, draws[attempt]);
      if Attempt(gridSize, tiles, draws[attempt]).solvable {
        PassAccepted(gridSize, start, tiles, draws, attempt);
      } else {
        PassRejected(gridSize, start, tiles, draws, attempt);
      }
      tiles, solvable := ShuffleAndJudge(gridSize, tiles, draws[attempt]);
      attempt := attempt + 1;
    }
    if solvable {
      PermutationIsBoard(gridSize, start, tiles);
      MakePuzzleWellFormed(gridSize, tiles);
      res := Some(MakePuzzle(gridSize, tiles));
    } else {
      assert draws[attempt..] == [];
      res := None;
    }
  }
}
