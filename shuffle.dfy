/** The in-place Fisher-Yates shuffle used by the puzzle generator. The random
    source is replaced by an explicit sequence of draws: `r[c]` is the index
    that the step at position `c` swaps with. */
module Shuffle {

  /** Draws a shuffle of a `len`-element array can consume: one per step, the
      draw for position `c` lying in [0, c] (floor(random * (c + 1))). */
  predicate ValidDraws(r: seq<int>, len: nat) {
    |r| == len && forall c :: 0 <= c < len ==> 0 <= r[c] <= c
  }

  /** The destructuring swap of cells `i` and `j`. */
  function Swap(s: seq<int>, i: nat, j: nat): (t: seq<int>)
    requires i < |s| && j < |s|
    ensures |t| == |s|
    ensures t[i] == s[j] && t[j] == s[i]
    ensures forall k :: 0 <= k < |s| && k != i && k != j ==> t[k] == s[k]
  {
    s[i := s[j]][j := s[i]]
  }

  /** A swap only rearranges the cells. */
  lemma SwapPermutes(s: seq<int>, i: nat, j: nat)
    requires i < |s| && j < |s|
    ensures multiset(Swap(s, i, j)) == multiset(s)
  {
    var u := s[i := s[j]];
    assert multiset(u) == multiset(s) - multiset{s[i]} + multiset{s[j]};
  }

  /** The array after the shuffle loop has brought its counter down to `c`:
      positions |s|-1, |s|-2, ..., c have each been swapped with their draw,
      in that order. */
  function ShuffledDownTo(s: seq<int>, r: seq<int>, c: nat): (t: seq<int>)
    requires ValidDraws(r, |s|) && c <= |s|
    ensures |t| == |s|
    decreases |s| - c
  {
    if c == |s| then s else Swap(ShuffledDownTo(s, r, c + 1), c, r[c])
  }

  /** The whole shuffle: the loop runs its counter down to 0. */
  function Shuffled(s: seq<int>, r: seq<int>): (t: seq<int>)
    requires ValidDraws(r, |s|)
  {
    ShuffledDownTo(s, r, 0)
  }

  /** Every stage of the loop holds a rearrangement of the input. */
  lemma {:induction false} ShuffledDownToPermutes(s: seq<int>, r: seq<int>, c: nat)
    requires ValidDraws(r, |s|) && c <= |s|
    ensures multiset(ShuffledDownTo(s, r, c)) == multiset(s)
    decreases |s| - c
  {
    if c < |s| {
      ShuffledDownToPermutes(s, r, c + 1);
      SwapPermutes(ShuffledDownTo(s, r, c + 1), c, r[c]);
    }
  }

  /** The shuffle permutes its argument: same length, same multiset. */
  lemma ShuffledIsPermutation(s: seq<int>, r: seq<int>)
    requires ValidDraws(r, |s|)
    ensures |Shuffled(s, r)| == |s|
    ensures multiset(Shuffled(s, r)) == multiset(s)
    ensures forall v :: v in Shuffled(s, r) <==> v in s
  {
    ShuffledDownToPermutes(s, r, 0);
    var t := Shuffled(s, r);
    forall v ensures v in t <==> v in s {
      assert v in t <==> v in multiset(t);
      assert v in s <==> v in multiset(s);
    }
  }

  /** Once the counter has passed position `c`, later steps never touch it:
      the last |s| - c cells are fixed by the first |s| - c steps. */
  lemma {:induction false} LaterStepsKeepSuffix(s: seq<int>, r: seq<int>, c: nat, d: nat)
    requires ValidDraws(r, |s|) && d <= c <= |s|
    ensures ShuffledDownTo(s, r, d)[c..] == ShuffledDownTo(s, r, c)[c..]
    decreases c - d
  {
    if d < c {
      LaterStepsKeepSuffix(s, r, c, d + 1);
      var u := ShuffledDownTo(s, r, d + 1);
      SwapBelowKeepsSuffix(u, d, r[d], c);
    }
  }

  lemma SwapBelowKeepsSuffix(u: seq<int>, i: nat, j: nat, c: nat)
    requires j <= i < c <= |u|
    ensures Swap(u, i, j)[c..] == u[c..]
  {
  }

  /** Fisher-Yates, in place, with the draws supplied by the caller. */
  method ShuffleArray(a: array<int>, r: seq<int>)
    requires ValidDraws(r, a.Length)
    modifies a
    ensures a[..] == Shuffled(old(a[..]), r)
  {
    ghost var original := a[..];
    var currentIndex := a.Length;
    while currentIndex != 0
      invariant 0 <= currentIndex <= a.Length
      invariant a[..] == ShuffledDownTo(original, r, currentIndex)
    {
      var randomIndex := r[currentIndex - 1];
      currentIndex := currentIndex - 1;
      ghost var before := a[..];
      a[currentIndex], a[randomIndex] := a[randomIndex], a[currentIndex];
      assert a[..] == Swap(before, currentIndex, randomIndex);
    }
  }
}
