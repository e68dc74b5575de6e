/**
 * The lookup probe shared by the four benchmark methods: walk the shuffled
 * keys, add each value the lookup finds into a `long`, then compare the
 * total with the reference checksum.
 */
module Probe {
  import opened Wrappers
  import opened Int64
  import opened Generator
  import opened KeyValueMaps

  /** What one key adds to the probe total: its value when found, nothing when missing. */
  function Contribution(view: map<string, int>, key: string): int {
    match TryGetValue(view, key)
    case Some(v) => v
    case None => 0
  }

  /** The exact total of a probe over `keys`, accumulated left to right. */
  function LookupSum(view: map<string, int>, keys: seq<string>): int {
    if keys == [] then 0
    else LookupSum(view, keys[..|keys| - 1]) + Contribution(view, keys[|keys| - 1])
  }

  /** The oracle's verdict: `Fail` is the "Test case is broken" exception. */
  datatype Outcome = Pass | Fail(message: string)

  const BrokenMessage: string := "Test case is broken"

  /**
   * The loop of a lookup benchmark. `sum += v` on a `long` is unchecked, so
   * the running total wraps around; the map and the keys are only read, so
   * repeated calls return the same total.
   */
  method ProbeSum(view: map<string, int>, keys: array<string>) returns (sum: int)
    ensures sum == Wrap(LookupSum(view, keys[..]))
  {
    sum := 0;
    for i := 0 to keys.Length
      invariant sum == Wrap(LookupSum(view, keys[..i]))
    {
      assert keys[..i + 1][..i] == keys[..i];
      var k := keys[i];
      WrapAdd(LookupSum(view, keys[..i]), Contribution(view, k));
      match TryGetValue(view, k) {
        case Some(v) => sum := Wrap(sum + v);
        case None =>
      }
    }
    assert keys[..keys.Length] == keys[..];
  }

  /** A benchmark method: probe, then throw "Test case is broken" unless the total is the reference sum. */
  method CheckedProbe(view: map<string, int>, keys: array<string>, reference: int) returns (outcome: Outcome)
    ensures outcome == Pass <==> Wrap(LookupSum(view, keys[..])) == reference
    ensures outcome != Pass ==> outcome == Fail(BrokenMessage)
  {
    var sum := ProbeSum(view, keys);
    if sum != reference {
      outcome := Fail(BrokenMessage);
    } else {
      outcome := Pass;
    }
  }

  // ---------------------------------------------------------------------
  // Properties of the probe total

  /** Keys the map does not hold contribute nothing. */
  lemma {:induction false} LookupSumOfMissingKeys(view: map<string, int>, keys: seq<string>)
    requires forall i | 0 <= i < |keys| :: keys[i] !in view
    ensures LookupSum(view, keys) == 0
  {
    if keys != [] {
      LookupSumOfMissingKeys(view, keys[..|keys| - 1]);
    }
  }

  lemma {:induction false} LookupSumAppend(view: map<string, int>, a: seq<string>, b: seq<string>)
    ensures LookupSum(view, a + b) == LookupSum(view, a) + LookupSum(view, b)
    decreases |b|
  {
    if b == [] {
      assert a + b == a;
    } else {
      var n := |b| - 1;
      LookupSumAppend(view, a, b[..n]);
      assert (a + b)[..|a + b| - 1] == a + b[..n];
    }
  }

  /** Taking key `j` out of a run removes exactly its contribution. */
  lemma LookupSumRemove(view: map<string, int>, b: seq<string>, j: nat)
    requires j < |b|
    ensures LookupSum(view, b) == LookupSum(view, b[..j] + b[j + 1..]) + Contribution(view, b[j])
  {
    assert b == (b[..j] + [b[j]]) + b[j + 1..];
    LookupSumAppend(view, b[..j] + [b[j]], b[j + 1..]);
    LookupSumAppend(view, b[..j], b[j + 1..]);
    assert (b[..j] + [b[j]])[..j] == b[..j];
  }

  lemma MultisetRemove(b: seq<string>, j: nat)
    requires j < |b|
    ensures multiset(b[..j] + b[j + 1..]) == multiset(b) - multiset{b[j]}
  {
    assert b == b[..j] + [b[j]] + b[j + 1..];
  }

  /** The probe total does not depend on the order of the keys. */
  lemma {:induction false} LookupSumPermutation(view: map<string, int>, a: seq<string>, b: seq<string>)
    requires multiset(a) == multiset(b)
    ensures LookupSum(view, a) == LookupSum(view, b)
    decreases |a|
  {
    if a == [] {
      assert |b| == |multiset(b)| == 0;
    } else {
      var n := |a| - 1;
      var x := a[n];
      assert a == a[..n] + [x];
      assert x in multiset(b);
      var j :| 0 <= j < |b| && b[j] == x;
      var rest := b[..j] + b[j + 1..];
      MultisetRemove(b, j);
      assert multiset(a) == multiset(a[..n]) + multiset{x};
      LookupSumPermutation(view, a[..n], rest);
      LookupSumRemove(view, b, j);
    }
  }

  /** Two maps that agree on the probed keys give the same total. */
  lemma {:induction false} LookupSumAgree(m1: map<string, int>, m2: map<string, int>, keys: seq<string>)
    requires forall i | 0 <= i < |keys| :: TryGetValue(m1, keys[i]) == TryGetValue(m2, keys[i])
    ensures LookupSum(m1, keys) == LookupSum(m2, keys)
  {
    if keys != [] {
      LookupSumAgree(m1, m2, keys[..|keys| - 1]);
    }
  }

  /** Probing a map built from distinct-key pairs with its own key column yields the sum of the values. */
  lemma {:induction false} KeyColumnLookupSum(kvs: seq<KeyValue>)
    requires DistinctKeys(kvs)
    ensures LookupSum(ToMap(kvs), KeyColumn(kvs)) == SumValues(kvs)
  {
    if kvs != [] {
      var n := |kvs| - 1;
      var p := kvs[..n];
      var keys := KeyColumn(kvs);
      assert keys[..n] == KeyColumn(p);
      KeyColumnLookupSum(p);
      forall i | 0 <= i < n
        ensures TryGetValue(ToMap(kvs), keys[..n][i]) == TryGetValue(ToMap(p), keys[..n][i])
      {
        assert kvs[i].key != kvs[n].key;
      }
      LookupSumAgree(ToMap(kvs), ToMap(p), keys[..n]);
    }
  }

  lemma {:induction false} LookupSumNonNegative(view: map<string, int>, keys: seq<string>)
    requires forall k | k in view :: 0 <= view[k]
    ensures 0 <= LookupSum(view, keys)
  {
    if keys != [] {
      LookupSumNonNegative(view, keys[..|keys| - 1]);
    }
  }

  /**
   * With non-negative stored values, every running total of the probe loop
   * lies between 0 and the final total.
   */
  lemma RunningTotalsBounded(view: map<string, int>, keys: seq<string>)
    requires forall k | k in view :: 0 <= view[k]
    ensures forall i | 0 <= i <= |keys| :: 0 <= LookupSum(view, keys[..i]) <= LookupSum(view, keys)
  {
    forall i | 0 <= i <= |keys|
      ensures 0 <= LookupSum(view, keys[..i]) <= LookupSum(view, keys)
    {
      assert keys == keys[..i] + keys[i..];
      LookupSumAppend(view, keys[..i], keys[i..]);
      LookupSumNonNegative(view, keys[..i]);
      LookupSumNonNegative(view, keys[i..]);
    }
  }

  /**
   * Build-then-probe round trip: probing a map built from `kvs` with any
   * permutation of its key column yields exactly the sum of the values.
   */
  lemma BuildThenProbe(kvs: seq<KeyValue>, keys: seq<string>)
    requires DistinctKeys(kvs)
    requires multiset(keys) == multiset(KeyColumn(kvs))
    ensures LookupSum(ToMap(kvs), keys) == SumValues(kvs)
  {
    KeyColumnLookupSum(kvs);
    LookupSumPermutation(ToMap(kvs), keys, KeyColumn(kvs));
  }
}
