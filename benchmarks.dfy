/**
 * The `Benchmarks` class: its constructor generates the workload, shuffles
 * the query keys, computes the reference checksum and builds the four maps;
 * each lookup benchmark probes one map and checks the checksum.
 */
module Benchmarks {
  import opened Wrappers
  import opened Int64
  import opened Generator
  import opened Shuffle
  import opened KeyValueMaps
  import opened Probe

  /** The number of distinct pairs the workload asks for. */
  const Size: nat := 1000

  /**
   * Probing a map built from a well-formed workload with a permutation of its
   * keys wraps to exactly the reference sum: the oracle never throws.
   */
  lemma OracleNeverFires(kvs: seq<KeyValue>, keys: seq<string>, reference: int)
    requires DistinctKeys(kvs)
    requires multiset(keys) == multiset(KeyColumn(kvs))
    requires reference == SumValues(kvs) && InLong(reference)
    ensures Wrap(LookupSum(ToMap(kvs), keys)) == reference
  {
    BuildThenProbe(kvs, keys);
  }

  /**
   * No `sum += v` step of a probe wraps around: every running total of the
   * loop is the exact partial sum and lies between 0 and the reference sum.
   */
  lemma ProbeNeverWraps(kvs: seq<KeyValue>, keys: seq<string>, reference: int)
    requires DistinctKeys(kvs)
    requires forall i | 0 <= i < |kvs| :: 0 <= kvs[i].value
    requires multiset(keys) == multiset(KeyColumn(kvs))
    requires reference == SumValues(kvs) && InLong(reference)
    ensures forall i | 0 <= i <= |keys| ::
      && 0 <= LookupSum(ToMap(kvs), keys[..i]) <= reference
      && Wrap(LookupSum(ToMap(kvs), keys[..i])) == LookupSum(ToMap(kvs), keys[..i])
  {
    var view := ToMap(kvs);
    forall k | k in view
      ensures 0 <= view[k]
    {
      ToMapValuesFromPairs(kvs, k);
    }
    RunningTotalsBounded(view, keys);
    BuildThenProbe(kvs, keys);
  }

  /** What the constructor relies on about `_kvs`: distinct keys, at most `Size` of them, non-negative values that keep the sum in range. */
  lemma GeneratedWorkloadFits(draws: seq<int>)
    requires ValidNextDraws(draws) && |draws| <= Int32Max
    ensures DistinctKeys(GenerateRecords(draws, Size))
    ensures |GenerateRecords(draws, Size)| <= Size
    ensures forall i | 0 <= i < |GenerateRecords(draws, Size)| :: 0 <= GenerateRecords(draws, Size)[i].value
    ensures CheckedSum(GenerateRecords(draws, Size)) == Some(SumValues(GenerateRecords(draws, Size)))
    ensures InLong(SumValues(GenerateRecords(draws, Size)))
  {
    var records := GenerateRecords(draws, Size);
    GeneratedKeysUnique(draws, Size);
    GeneratedFirstSeen(draws, Size);
    CheckedSumNeverOverflows(records);
  }

  /** `_kvs.Select(kv => kv.k).ToArray()` followed by the in-place shuffle. */
  method ShuffledKeyColumn(records: seq<KeyValue>, picks: seq<int>) returns (keys: array<string>)
    requires ValidPicks(picks, |records|)
    ensures fresh(keys)
    ensures keys[..] == FisherYates(KeyColumn(records), picks)
    ensures multiset(keys[..]) == multiset(KeyColumn(records))
  {
    keys := new string[|records|](i requires 0 <= i < |records| => records[i].key);
    assert keys[..] == KeyColumn(records);
    ShuffleInPlace(keys, picks);
  }

  class Benchmarks {
    const kvs: seq<KeyValue>
    const keys: array<string>
    const sum: int
    const dictionary: HashTable
    const immutableDictionary: map<string, int>
    const csPersistentHashMap: PersistentMap
    const fsPersistentHashMap: PersistentMap

    /** The workload invariants, and each of the four maps holding exactly the pairs of `kvs`. */
    ghost predicate Valid()
      reads this, keys, dictionary
    {
      && DistinctKeys(kvs)
      && |kvs| <= Size
      && (forall i | 0 <= i < |kvs| :: 0 <= kvs[i].value)
      && multiset(keys[..]) == multiset(KeyColumn(kvs))
      && sum == SumValues(kvs)
      && InLong(sum)
      && dictionary.contents == ToMap(kvs)
      && immutableDictionary == ToMap(kvs)
      && csPersistentHashMap.entries == ToMap(kvs)
      && fsPersistentHashMap.entries == ToMap(kvs)
    }

    /**
     * `draws` are the values of the successive `rnd.Next()` calls, `picks`
     * those of the `rnd.Next(i, n)` calls of the shuffle. Neither the
     * duplicate-key `ArgumentException` of `Add` nor the `OverflowException`
     * of the checked sum can happen.
     */
    constructor (draws: seq<int>, picks: seq<int>)
      requires ValidNextDraws(draws) && |draws| <= Int32Max
      requires ValidPicks(picks, |GenerateRecords(draws, Size)|)
      ensures Valid()
      ensures kvs == GenerateRecords(draws, Size)
      ensures keys[..] == FisherYates(KeyColumn(kvs), picks)
      ensures fresh(keys) && fresh(dictionary)
    {
      var records := GenerateRecords(draws, Size);
      GeneratedWorkloadFits(draws);
      var column := ShuffledKeyColumn(records, picks);
      var total := CheckedSum(records);

      var table, added := BuildDictionary(records);
      var snapshot, built := BuildImmutableDictionary(records);
      var cs, fs;
      ghost var csVersions, fsVersions;
      cs, csVersions := BuildPersistent(records);
      fs, fsVersions := BuildPersistent(records);
      assert added && built;

      kvs := records;
      keys := column;
      sum := total.value;
      dictionary := table;
      immutableDictionary := snapshot;
      csPersistentHashMap := cs;
      fsPersistentHashMap := fs;
    }

    method DictionaryLookup() returns (outcome: Outcome)
      requires Valid()
      ensures outcome == Pass
    {
      OracleNeverFires(kvs, keys[..], sum);
      outcome := CheckedProbe(dictionary.contents, keys, sum);
    }

    method ImmutableDictionaryLookup() returns (outcome: Outcome)
      requires Valid()
      ensures outcome == Pass
    {
      OracleNeverFires(kvs, keys[..], sum);
      outcome := CheckedProbe(immutableDictionary, keys, sum);
    }

    method CsPersistentHashMap() returns (outcome: Outcome)
      requires Valid()
      ensures outcome == Pass
    {
      OracleNeverFires(kvs, keys[..], sum);
      outcome := CheckedProbe(csPersistentHashMap.entries, keys, sum);
    }

    method FsPersistentHashMap() returns (outcome: Outcome)
      requires Valid()
      ensures outcome == Pass
    {
      OracleNeverFires(kvs, keys[..], sum);
      outcome := CheckedProbe(fsPersistentHashMap.entries, keys, sum);
    }
  }
}
