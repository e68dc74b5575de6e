/**
 * The workload generator of the `Benchmarks` constructor: draws from the
 * random source are rendered as decimal keys, each tagged with its draw
 * index, de-duplicated first-seen-wins (`DistinctBy`), cut to the first
 * `size` pairs (`Take`), and summed into a `long` reference checksum.
 *
 * The random source is abstracted as the sequence of values that successive
 * `Random.Next()` calls return; the counting sequence
 * `Enumerable.Range(0, int.MaxValue)` is the index of each draw.
 */
module Generator {
  import opened Wrappers
  import opened Int64
  import Decimal

  /** One `(string k, int v)` pair of `_kvs`. */
  datatype KeyValue = KeyValue(key: string, value: int)

  /** `Random.Next()` returns a value in `[0, int.MaxValue)`. */
  predicate ValidNextDraws(draws: seq<int>) {
    forall i | 0 <= i < |draws| :: 0 <= draws[i] < Int32Max
  }

  /** The key of a draw: its invariant-culture decimal text. */
  function KeyOf(d: nat): string {
    Decimal.NatToString(d)
  }

  /** The `Select` stage: draw number `v` becomes the pair `(key of the draw, v)`. */
  function Tagged(draws: seq<int>): seq<KeyValue>
    requires ValidNextDraws(draws)
  {
    seq(|draws|, v requires 0 <= v < |draws| => KeyValue(KeyOf(draws[v]), v))
  }

  function KeySet(s: seq<KeyValue>): set<string> {
    set i | 0 <= i < |s| :: s[i].key
  }

  lemma KeySetAppend(s: seq<KeyValue>, x: KeyValue)
    ensures KeySet(s + [x]) == KeySet(s) + {x.key}
  {
    var t := s + [x];
    assert forall i | 0 <= i < |s| :: t[i] == s[i];
    assert t[|s|] == x;
  }

  predicate DistinctKeys(s: seq<KeyValue>) {
    forall i, j | 0 <= i < j < |s| :: s[i].key != s[j].key
  }

  /** No earlier pair of `s` has the key of `s[i]`. */
  predicate IsFirstKey(s: seq<KeyValue>, i: nat)
    requires i < |s|
  {
    forall t | 0 <= t < i :: s[t].key != s[i].key
  }

  predicate StrictlyIncreasingValues(s: seq<KeyValue>) {
    forall i, j | 0 <= i < j < |s| :: s[i].value < s[j].value
  }

  /**
   * `DistinctBy(kv => kv.k)`: walks the input in order and keeps a pair
   * only when its key was not seen among the earlier pairs.
   */
  function DistinctByKey(s: seq<KeyValue>): (r: seq<KeyValue>)
    ensures DistinctKeys(r)
    ensures KeySet(r) == KeySet(s)
    ensures |r| <= |s|
  {
    if s == [] then []
    else
      var seen := s[..|s| - 1];
      var r0 := DistinctByKey(seen);
      KeySetAppend(seen, s[|s| - 1]);
      KeySetAppend(r0, s[|s| - 1]);
      assert seen + [s[|s| - 1]] == s;
      if s[|s| - 1].key in KeySet(seen) then r0 else r0 + [s[|s| - 1]]
  }

  /** `Take(n)`: the first `n` elements, or all of them when there are fewer. */
  function Take<T>(s: seq<T>, n: nat): seq<T> {
    if |s| <= n then s else s[..n]
  }

  /** `Take(n)` keeps a prefix of length min(n, |s|). */
  lemma TakeIsPrefix<T>(s: seq<T>, n: nat)
    ensures |Take(s, n)| == if |s| <= n then |s| else n
    ensures Take(s, n) == s[..|Take(s, n)|]
  {
  }

  /** The `_kvs` array of the constructor. */
  function GenerateRecords(draws: seq<int>, size: nat): seq<KeyValue>
    requires ValidNextDraws(draws)
  {
    Take(DistinctByKey(Tagged(draws)), size)
  }

  /** The key column `_kvs.Select(kv => kv.k)`, before it is shuffled. */
  function KeyColumn(s: seq<KeyValue>): (r: seq<string>)
    ensures |r| == |s|
  {
    seq(|s|, i requires 0 <= i < |s| => s[i].key)
  }

  /** The exact sum of the values, left to right. */
  function SumValues(s: seq<KeyValue>): int {
    if s == [] then 0 else SumValues(s[..|s| - 1]) + s[|s| - 1].value
  }

  /**
   * `Select(kv => (long)kv.v).Sum()`: LINQ adds `long`s in a checked
   * context, so the sum fails (an `OverflowException`) as soon as a partial
   * sum leaves the 64-bit range.
   */
  function CheckedSum(s: seq<KeyValue>): (r: Option<int>)
    ensures r.Some? <==> forall j | 0 <= j <= |s| :: InLong(SumValues(s[..j]))
    ensures r.Some? ==> r.value == SumValues(s)
  {
    if s == [] then Some(0)
    else
      var p := s[..|s| - 1];
      assert forall j | 0 <= j <= |p| :: p[..j] == s[..j];
      assert s[..|s|] == s;
      match CheckedSum(p)
      case None => None
      case Some(t) =>
        if InLong(t + s[|s| - 1].value) then Some(t + s[|s| - 1].value) else None
  }

  // ---------------------------------------------------------------------
  // De-duplication

  lemma {:induction false} DistinctKeysCount(s: seq<KeyValue>)
    requires DistinctKeys(s)
    ensures |KeySet(s)| == |s|
  {
    if s != [] {
      var p := s[..|s| - 1];
      DistinctKeysCount(p);
      KeySetAppend(p, s[|s| - 1]);
      assert p + [s[|s| - 1]] == s;
      assert s[|s| - 1].key !in KeySet(p);
    }
  }

  /** De-duplication keeps exactly one pair per distinct key of the input. */
  lemma DistinctByKeyLength(s: seq<KeyValue>)
    ensures |DistinctByKey(s)| == |KeySet(s)|
  {
    DistinctKeysCount(DistinctByKey(s));
  }

  /** First-seen-wins: a pair is kept exactly when it is the first with its key. */
  lemma {:induction false} DistinctByKeyKeepsFirst(s: seq<KeyValue>)
    ensures forall x :: x in DistinctByKey(s) <==> exists i :: 0 <= i < |s| && s[i] == x && IsFirstKey(s, i)
  {
    if s != [] {
      var n := |s| - 1;
      var p := s[..n];
      DistinctByKeyKeepsFirst(p);
      assert forall i | 0 <= i < n :: IsFirstKey(p, i) == IsFirstKey(s, i);
      assert s[n].key in KeySet(p) <==> !IsFirstKey(s, n);
      forall x
        ensures x in DistinctByKey(s) <==> exists i :: 0 <= i < |s| && s[i] == x && IsFirstKey(s, i)
      {
        if x in DistinctByKey(s) {
          if x in DistinctByKey(p) {
            var i :| 0 <= i < n && p[i] == x && IsFirstKey(p, i);
            assert s[i] == x && IsFirstKey(s, i);
          } else {
            assert x == s[n] && IsFirstKey(s, n);
          }
        } else {
          forall i | 0 <= i < |s| && s[i] == x
            ensures !IsFirstKey(s, i)
          {
            if i < n {
              assert p[i] == x;
            }
          }
        }
      }
    }
  }

  /** De-duplication keeps the order of the input. */
  lemma {:induction false} DistinctByKeyKeepsOrder(s: seq<KeyValue>)
    requires StrictlyIncreasingValues(s)
    ensures StrictlyIncreasingValues(DistinctByKey(s))
  {
    if s != [] {
      var n := |s| - 1;
      var p := s[..n];
      DistinctByKeyKeepsOrder(p);
      DistinctByKeyKeepsFirst(p);
      var r0 := DistinctByKey(p);
      forall j | 0 <= j < |r0|
        ensures r0[j].value < s[n].value
      {
        assert r0[j] in r0;
        var i :| 0 <= i < n && p[i] == r0[j] && IsFirstKey(p, i);
      }
    }
  }

  // ---------------------------------------------------------------------
  // The generated workload

  /** Draw `v` is the first draw of its value. */
  predicate IsFirstDraw(draws: seq<int>, v: nat)
    requires v < |draws|
  {
    forall t | 0 <= t < v :: draws[t] != draws[v]
  }

  function DrawSet(draws: seq<int>): set<int> {
    set i | 0 <= i < |draws| :: draws[i]
  }

  lemma TaggedFirstKey(draws: seq<int>, v: nat)
    requires ValidNextDraws(draws) && v < |draws|
    ensures IsFirstKey(Tagged(draws), v) <==> IsFirstDraw(draws, v)
  {
    var s := Tagged(draws);
    forall t | 0 <= t < v && s[t].key == s[v].key
      ensures draws[t] == draws[v]
    {
      Decimal.NatToStringInjective(draws[t], draws[v]);
    }
  }

  lemma DrawSetAppend(draws: seq<int>, d: int)
    ensures DrawSet(draws + [d]) == DrawSet(draws) + {d}
  {
    var t := draws + [d];
    assert forall i | 0 <= i < |draws| :: t[i] == draws[i];
    assert t[|draws|] == d;
  }

  /** A draw's key was already produced exactly when its value was already drawn. */
  lemma KeySeenIffDrawSeen(draws: seq<int>, n: nat)
    requires ValidNextDraws(draws) && n < |draws|
    ensures KeyOf(draws[n]) in KeySet(Tagged(draws[..n])) <==> draws[n] in DrawSet(draws[..n])
  {
    var p := draws[..n];
    var sp := Tagged(p);
    if KeyOf(draws[n]) in KeySet(sp) {
      var t :| 0 <= t < n && sp[t].key == KeyOf(draws[n]);
      Decimal.NatToStringInjective(draws[t], draws[n]);
      assert p[t] == draws[n];
    }
    if draws[n] in DrawSet(p) {
      var t :| 0 <= t < n && p[t] == draws[n];
      assert sp[t].key == KeyOf(draws[n]);
    }
  }

  lemma {:induction false} TaggedKeyCount(draws: seq<int>)
    requires ValidNextDraws(draws)
    ensures |KeySet(Tagged(draws))| == |DrawSet(draws)|
  {
    if draws != [] {
      var n := |draws| - 1;
      var p := draws[..n];
      TaggedKeyCount(p);
      var s, sp := Tagged(draws), Tagged(p);
      assert sp + [s[n]] == s;
      assert p + [draws[n]] == draws;
      KeySetAppend(sp, s[n]);
      DrawSetAppend(p, draws[n]);
      KeySeenIffDrawSeen(draws, n);
    }
  }

  /**
   * The generated pairs have pairwise-distinct keys and there are at most
   * `size` of them, exactly `size` when the draws hold at least `size`
   * distinct values.
   */
  lemma GeneratedKeysUnique(draws: seq<int>, size: nat)
    requires ValidNextDraws(draws)
    ensures DistinctKeys(GenerateRecords(draws, size))
    ensures |GenerateRecords(draws, size)| <= size
    ensures |GenerateRecords(draws, size)| == if |DrawSet(draws)| < size then |DrawSet(draws)| else size
  {
    DistinctByKeyLength(Tagged(draws));
    TaggedKeyCount(draws);
  }

  /**
   * Each kept pair is the first draw of its value, tagged with that draw's
   * index; values increase strictly; and no first draw before the cut-off
   * is skipped (all of them when fewer than `size` pairs were found).
   */
  lemma GeneratedFirstSeen(draws: seq<int>, size: nat)
    requires ValidNextDraws(draws)
    ensures var r := GenerateRecords(draws, size);
      && (forall j | 0 <= j < |r| ::
            0 <= r[j].value < |draws| && r[j].key == KeyOf(draws[r[j].value]) && IsFirstDraw(draws, r[j].value))
      && StrictlyIncreasingValues(r)
      && (forall v | 0 <= v < |draws| && IsFirstDraw(draws, v) && (|r| < size || (|r| > 0 && v <= r[|r| - 1].value)) ::
            exists j :: 0 <= j < |r| && r[j].value == v)
  {
    GeneratedPairsAreFirstDraws(draws, size);
    GeneratedKeepsEveryFirstDraw(draws, size);
  }

  /** The first and second parts of `GeneratedFirstSeen`. */
  lemma GeneratedPairsAreFirstDraws(draws: seq<int>, size: nat)
    requires ValidNextDraws(draws)
    ensures var r := GenerateRecords(draws, size);
      && (forall j | 0 <= j < |r| ::
            0 <= r[j].value < |draws| && r[j].key == KeyOf(draws[r[j].value]) && IsFirstDraw(draws, r[j].value))
      && StrictlyIncreasingValues(r)
  {
    var s := Tagged(draws);
    var d := DistinctByKey(s);
    var r := GenerateRecords(draws, size);
    DistinctByKeyKeepsFirst(s);
    DistinctByKeyKeepsOrder(s);
    TakeIsPrefix(d, size);
    forall j | 0 <= j < |r|
      ensures 0 <= r[j].value < |draws| && r[j].key == KeyOf(draws[r[j].value]) && IsFirstDraw(draws, r[j].value)
    {
      assert r[j] in d;
      var i :| 0 <= i < |s| && s[i] == r[j] && IsFirstKey(s, i);
      TaggedFirstKey(draws, i);
    }
  }

  /** The completeness part of `GeneratedFirstSeen`. */
  lemma GeneratedKeepsEveryFirstDraw(draws: seq<int>, size: nat)
    requires ValidNextDraws(draws)
    ensures var r := GenerateRecords(draws, size);
      forall v | 0 <= v < |draws| && IsFirstDraw(draws, v) && (|r| < size || (|r| > 0 && v <= r[|r| - 1].value)) ::
        exists j :: 0 <= j < |r| && r[j].value == v
  {
    var s := Tagged(draws);
    var d := DistinctByKey(s);
    var r := GenerateRecords(draws, size);
    DistinctByKeyKeepsFirst(s);
    DistinctByKeyKeepsOrder(s);
    TakeIsPrefix(d, size);
    forall v | 0 <= v < |draws| && IsFirstDraw(draws, v) && (|r| < size || (|r| > 0 && v <= r[|r| - 1].value))
      ensures exists j :: 0 <= j < |r| && r[j].value == v
    {
      TaggedFirstKey(draws, v);
      assert s[v] in d;
      var j :| 0 <= j < |d| && d[j] == s[v];
      if |d| > size {
        assert forall k | size <= k < |d| :: d[size - 1].value < d[k].value;
      }
      assert j < |r|;
      assert r[j].value == v;
    }
  }

  // ---------------------------------------------------------------------
  // The reference checksum

  lemma {:induction false} SumValuesBounds(s: seq<KeyValue>)
    requires forall i | 0 <= i < |s| :: 0 <= s[i].value <= Int32Max
    ensures 0 <= SumValues(s) <= |s| * Int32Max
  {
    if s != [] {
      SumValuesBounds(s[..|s| - 1]);
    }
  }

  /**
   * With non-negative `int` values and at most 2^32 + 2 pairs, the checked
   * `long` sum cannot overflow, so it is the exact sum of the values.
   */
  lemma CheckedSumNeverOverflows(s: seq<KeyValue>)
    requires forall i | 0 <= i < |s| :: 0 <= s[i].value <= Int32Max
    requires |s| * Int32Max <= Int64Max
    ensures CheckedSum(s) == Some(SumValues(s))
  {
    forall j | 0 <= j <= |s|
      ensures InLong(SumValues(s[..j]))
    {
      SumValuesBounds(s[..j]);
    }
  }
}
