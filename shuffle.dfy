/**
 * The in-place Fisher-Yates shuffle of the key column `_keys`. Step `i`
 * swaps cell `i` with the cell `rnd.Next(i, n)` picks; the results of those
 * calls are abstracted as the sequence `picks`.
 */
module Shuffle {

  /** `Random.Next(i, n)` returns a value in `[i, n)`; `picks[i]` is the one step `i` receives. */
  predicate ValidPicks(picks: seq<int>, n: nat) {
    |picks| >= n && forall i | 0 <= i < n :: i <= picks[i] < n
  }

  /** `s` with cells `i` and `j` exchanged. */
  function SwapAt<T>(s: seq<T>, i: nat, j: nat): (r: seq<T>)
    requires i < |s| && j < |s|
    ensures |r| == |s|
  {
    s[i := s[j]][j := s[i]]
  }

  /** A swap changes only the two swapped cells, and so keeps the multiset. */
  lemma SwapAtCells<T>(s: seq<T>, i: nat, j: nat)
    requires i < |s| && j < |s|
    ensures SwapAt(s, i, j)[i] == s[j] && SwapAt(s, i, j)[j] == s[i]
    ensures forall k | 0 <= k < |s| && k != i && k != j :: SwapAt(s, i, j)[k] == s[k]
    ensures multiset(SwapAt(s, i, j)) == multiset(s)
  {
  }

  /** The shuffle's steps `i`, `i + 1`, ... applied to `s`. */
  function ShuffleFrom<T>(s: seq<T>, picks: seq<int>, i: nat): seq<T>
    requires ValidPicks(picks, |s|)
    decreases |s| - i
  {
    if i >= |s| then s else ShuffleFrom(SwapAt(s, i, picks[i]), picks, i + 1)
  }

  /** The whole shuffle. */
  function FisherYates<T>(s: seq<T>, picks: seq<int>): seq<T>
    requires ValidPicks(picks, |s|)
  {
    ShuffleFrom(s, picks, 0)
  }

  lemma {:induction false} ShuffleFromLength<T>(s: seq<T>, picks: seq<int>, i: nat)
    requires ValidPicks(picks, |s|)
    ensures |ShuffleFrom(s, picks, i)| == |s|
    decreases |s| - i
  {
    if i < |s| {
      ShuffleFromLength(SwapAt(s, i, picks[i]), picks, i + 1);
    }
  }

  /** The remaining steps only reorder: the multiset of keys is unchanged. */
  lemma {:induction false} ShuffleFromPermutes<T>(s: seq<T>, picks: seq<int>, i: nat)
    requires ValidPicks(picks, |s|)
    ensures multiset(ShuffleFrom(s, picks, i)) == multiset(s)
    decreases |s| - i
  {
    if i < |s| {
      var t := SwapAt(s, i, picks[i]);
      SwapAtCells(s, i, picks[i]);
      ShuffleFromPermutes(t, picks, i + 1);
      assert ShuffleFrom(s, picks, i) == ShuffleFrom(t, picks, i + 1);
    }
  }

  /** Once step `i` has run, cells `0..i` are never written again. */
  lemma {:induction false} ShuffleFromKeepsPrefix<T>(s: seq<T>, picks: seq<int>, i: nat)
    requires ValidPicks(picks, |s|) && i <= |s|
    ensures |ShuffleFrom(s, picks, i)| == |s|
    ensures ShuffleFrom(s, picks, i)[..i] == s[..i]
    decreases |s| - i
  {
    ShuffleFromLength(s, picks, i);
    if i < |s| {
      var t := SwapAt(s, i, picks[i]);
      ShuffleFromKeepsPrefix(t, picks, i + 1);
      SwapAtCells(s, i, picks[i]);
      assert t[..i] == s[..i];
    }
  }

  /** The shuffled column is a permutation of the original one; an empty column stays empty. */
  lemma FisherYatesPermutes<T>(s: seq<T>, picks: seq<int>)
    requires ValidPicks(picks, |s|)
    ensures |FisherYates(s, picks)| == |s|
    ensures multiset(FisherYates(s, picks)) == multiset(s)
    ensures s == [] ==> FisherYates(s, picks) == []
  {
    ShuffleFromLength(s, picks, 0);
    ShuffleFromPermutes(s, picks, 0);
  }

  /**
   * The `for` loop of the constructor. After step `i` the cells `0..i` hold
   * their final keys, and each step touches only the two swapped cells.
   */
  method ShuffleInPlace<T>(keys: array<T>, picks: seq<int>)
    requires ValidPicks(picks, keys.Length)
    modifies keys
    ensures keys[..] == FisherYates(old(keys[..]), picks)
    ensures multiset(keys[..]) == multiset(old(keys[..]))
  {
    ghost var shuffled := FisherYates(old(keys[..]), picks);
    FisherYatesPermutes(old(keys[..]), picks);
    var i := 0;
    while i < keys.Length
      invariant 0 <= i <= keys.Length
      invariant ShuffleFrom(keys[..], picks, i) == shuffled
      invariant keys[..i] == shuffled[..i]
      invariant multiset(keys[..]) == multiset(old(keys[..]))
    {
      ghost var before := keys[..];
      var swap := picks[i];
      var tmp := keys[i];
      keys[i] := keys[swap];
      keys[swap] := tmp;
      assert keys[..] == SwapAt(before, i, swap);
      SwapAtCells(before, i, swap);
      i := i + 1;
      ShuffleFromKeepsPrefix(keys[..], picks, i);
    }
    assert keys[..] == keys[..keys.Length];
  }
}
