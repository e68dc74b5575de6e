/**
 * The four maps of the benchmark, seen through their external contract as a
 * finite map from key to value. `Dictionary` is a mutable hash table whose
 * `Add` throws on any duplicate key. `ImmutableDictionary.Builder` is a
 * mutable table whose `Add` throws only when the key is already present
 * with a different value. The two persistent hash maps are values whose
 * `Set` returns a new version and leaves the old one as it was.
 */
module KeyValueMaps {
  import opened Wrappers
  import opened Generator

  /** The content of a map after inserting `kvs` in order, the last pair for a key winning. */
  function ToMap(kvs: seq<KeyValue>): (m: map<string, int>)
    ensures m.Keys == KeySet(kvs)
  {
    if kvs == [] then map[]
    else
      var p := kvs[..|kvs| - 1];
      KeySetAppend(p, kvs[|kvs| - 1]);
      assert p + [kvs[|kvs| - 1]] == kvs;
      ToMap(p)[kvs[|kvs| - 1].key := kvs[|kvs| - 1].value]
  }

  /** Pairs that share a key also share the value (implied by distinct keys). */
  predicate ConsistentKeys(kvs: seq<KeyValue>) {
    forall i, j | 0 <= i < j < |kvs| && kvs[i].key == kvs[j].key :: kvs[i].value == kvs[j].value
  }

  /**
   * When pairs sharing a key share the value (in particular with distinct
   * keys), the map holds every pair of `kvs`, and nothing else (its keys are
   * those of `kvs`).
   */
  lemma {:induction false} ToMapHoldsEveryPair(kvs: seq<KeyValue>)
    requires ConsistentKeys(kvs)
    ensures forall i | 0 <= i < |kvs| :: ToMap(kvs)[kvs[i].key] == kvs[i].value
  {
    if kvs != [] {
      var n := |kvs| - 1;
      var p := kvs[..n];
      assert ConsistentKeys(p) by {
        forall i, j | 0 <= i < j < |p| && p[i].key == p[j].key
          ensures p[i].value == p[j].value
        {
          assert kvs[i] == p[i] && kvs[j] == p[j];
        }
      }
      ToMapHoldsEveryPair(p);
      var m := ToMap(kvs);
      assert m == ToMap(p)[kvs[n].key := kvs[n].value];
      forall i | 0 <= i < n
        ensures m[kvs[i].key] == kvs[i].value
      {
        assert p[i] == kvs[i];
      }
    }
  }

  /** Every value of the built map is the value of some pair of `kvs`. */
  lemma ToMapValuesFromPairs(kvs: seq<KeyValue>, key: string)
    requires key in ToMap(kvs)
    ensures exists i :: 0 <= i < |kvs| && kvs[i].key == key && ToMap(kvs)[key] == kvs[i].value
    decreases |kvs|
  {
    var n := |kvs| - 1;
    var p := kvs[..n];
    if kvs[n].key != key {
      ToMapValuesFromPairs(p, key);
      var i :| 0 <= i < |p| && p[i].key == key && ToMap(p)[key] == p[i].value;
      assert kvs[i] == p[i];
    }
  }

  /** With distinct keys, the map has one entry per pair. */
  lemma ToMapSize(kvs: seq<KeyValue>)
    requires DistinctKeys(kvs)
    ensures |ToMap(kvs)| == |kvs|
  {
    DistinctKeysCount(kvs);
    assert |ToMap(kvs)| == |ToMap(kvs).Keys|;
  }

  /** `TryGetValue` / `TryFind`: the value stored for `key`, if any. */
  function TryGetValue(m: map<string, int>, key: string): (r: Option<int>)
    ensures r.Some? <==> key in m
    ensures r.Some? ==> r.value == m[key]
  {
    if key in m then Some(m[key]) else None
  }

  /** A mutable hash table: `Dictionary<string, int>`. */
  class HashTable {
    var contents: map<string, int>

    constructor ()
      ensures contents == map[]
    {
      contents := map[];
    }

    /**
     * `Add` inserts a new key; a key already present makes it throw an
     * `ArgumentException`, modelled as `added == false` with the table unchanged.
     */
    method Add(key: string, value: int) returns (added: bool)
      modifies this
      ensures added <==> key !in old(contents)
      ensures contents == if added then old(contents)[key := value] else old(contents)
    {
      added := key !in contents;
      if added {
        contents := contents[key := value];
      }
    }
  }

  /** The mutable builder of an `ImmutableDictionary<string, int>`. */
  class DictionaryBuilder {
    var contents: map<string, int>

    constructor ()
      ensures contents == map[]
    {
      contents := map[];
    }

    /**
     * `Add` stores a new pair and accepts a pair that is already present with
     * the same value, leaving the table as it is; a key present with a
     * different value makes it throw an `ArgumentException`, modelled as
     * `ok == false` with the table unchanged.
     */
    method Add(key: string, value: int) returns (ok: bool)
      modifies this
      ensures ok <==> key !in old(contents) || old(contents)[key] == value
      ensures contents == if ok then old(contents)[key := value] else old(contents)
    {
      ok := key !in contents || contents[key] == value;
      if ok {
        contents := contents[key := value];
      }
    }
  }

  /** One version of a persistent hash map (`CsPersistentHashMap` or `FsPersistentHashMap`). */
  datatype PersistentMap = PersistentMap(entries: map<string, int>) {

    static function Empty(): (m: PersistentMap)
      ensures forall key :: TryGetValue(m.entries, key) == None
    {
      PersistentMap(map[])
    }

    /** `Set` returns a new version mapping `key` to `value`; every other key keeps its lookup. */
    function Set(key: string, value: int): (r: PersistentMap)
      ensures TryGetValue(r.entries, key) == Some(value)
      ensures forall k | k != key :: TryGetValue(r.entries, k) == TryGetValue(entries, k)
    {
      PersistentMap(entries[key := value])
    }
  }

  lemma AddNewKey(kvs: seq<KeyValue>, i: nat)
    requires i < |kvs| && DistinctKeys(kvs[..i])
    ensures kvs[i].key !in KeySet(kvs[..i]) ==> DistinctKeys(kvs[..i + 1])
    ensures kvs[i].key in KeySet(kvs[..i]) ==> !DistinctKeys(kvs)
    ensures ToMap(kvs[..i + 1]) == ToMap(kvs[..i])[kvs[i].key := kvs[i].value]
  {
    var p := kvs[..i + 1];
    assert p[..i] == kvs[..i];
    if kvs[i].key in KeySet(kvs[..i]) {
      var t :| 0 <= t < i && kvs[..i][t].key == kvs[i].key;
      assert kvs[t].key == kvs[i].key;
    }
  }

  lemma ConsistentExtend(kvs: seq<KeyValue>, i: nat)
    requires i < |kvs| && ConsistentKeys(kvs[..i])
    requires forall a | 0 <= a < i && kvs[a].key == kvs[i].key :: kvs[a].value == kvs[i].value
    ensures ConsistentKeys(kvs[..i + 1])
  {
    var p := kvs[..i + 1];
    forall a, b | 0 <= a < b < |p| && p[a].key == p[b].key
      ensures p[a].value == p[b].value
    {
      assert p[a] == kvs[a] && p[b] == kvs[b];
      if b < i {
        assert kvs[..i][a] == kvs[a] && kvs[..i][b] == kvs[b];
      }
    }
  }

  lemma AddConsistentKey(kvs: seq<KeyValue>, i: nat)
    requires i < |kvs| && ConsistentKeys(kvs[..i])
    ensures (kvs[i].key !in ToMap(kvs[..i]) || ToMap(kvs[..i])[kvs[i].key] == kvs[i].value) ==> ConsistentKeys(kvs[..i + 1])
    ensures (kvs[i].key in ToMap(kvs[..i]) && ToMap(kvs[..i])[kvs[i].key] != kvs[i].value) ==> !ConsistentKeys(kvs)
    ensures ToMap(kvs[..i + 1]) == ToMap(kvs[..i])[kvs[i].key := kvs[i].value]
  {
    assert kvs[..i + 1][..i] == kvs[..i];
    var m := ToMap(kvs[..i]);
    var k := kvs[i].key;
    if k in m {
      ToMapValuesFromPairs(kvs[..i], k);
      var t :| 0 <= t < i && kvs[..i][t].key == k && m[k] == kvs[..i][t].value;
      assert kvs[t] == kvs[..i][t];
      if m[k] == kvs[i].value {
        ToMapHoldsEveryPair(kvs[..i]);
        forall a | 0 <= a < i && kvs[a].key == k
          ensures kvs[a].value == kvs[i].value
        {
          assert kvs[..i][a] == kvs[a];
        }
        ConsistentExtend(kvs, i);
      }
    } else {
      forall a | 0 <= a < i
        ensures kvs[a].key != k
      {
        assert kvs[..i][a] == kvs[a];
        assert kvs[a].key in KeySet(kvs[..i]);
      }
      ConsistentExtend(kvs, i);
    }
  }

  /**
   * The `Dictionary` build loop: `Add` every pair in order. It completes
   * exactly when the keys are distinct, and then the table holds `kvs`.
   */
  method BuildDictionary(kvs: seq<KeyValue>) returns (table: HashTable, ok: bool)
    ensures fresh(table)
    ensures ok <==> DistinctKeys(kvs)
    ensures ok ==> table.contents == ToMap(kvs)
  {
    table := new HashTable();
    ok := true;
    var i := 0;
    while i < |kvs| && ok
      invariant 0 <= i <= |kvs|
      invariant ok ==> DistinctKeys(kvs[..i]) && table.contents == ToMap(kvs[..i])
      invariant !ok ==> !DistinctKeys(kvs)
    {
      AddNewKey(kvs, i);
      ok := table.Add(kvs[i].key, kvs[i].value);
      i := i + 1;
    }
    assert ok ==> kvs[..i] == kvs;
  }

  /**
   * The `ImmutableDictionary` build: `Add` every pair to a builder, then
   * `ToImmutable` freezes the builder's content into a read-only snapshot.
   * It completes exactly when no key repeats with a different value, and then
   * the snapshot holds `kvs`.
   */
  method BuildImmutableDictionary(kvs: seq<KeyValue>) returns (snapshot: map<string, int>, ok: bool)
    ensures ok <==> ConsistentKeys(kvs)
    ensures ok ==> snapshot == ToMap(kvs)
  {
    var builder := new DictionaryBuilder();
    ok := true;
    var i := 0;
    while i < |kvs| && ok
      invariant 0 <= i <= |kvs|
      invariant ok ==> ConsistentKeys(kvs[..i]) && builder.contents == ToMap(kvs[..i])
      invariant !ok ==> !ConsistentKeys(kvs)
    {
      AddConsistentKey(kvs, i);
      ok := builder.Add(kvs[i].key, kvs[i].value);
      i := i + 1;
    }
    assert ok ==> kvs[..i] == kvs;
    snapshot := builder.contents;
  }

  /**
   * A persistent-map build: rebind the variable to `Set` of each pair in
   * order. `versions[j]` is the version after `j` insertions; each keeps
   * exactly the content of its own prefix of `kvs`, untouched by later `Set`s.
   */
  method BuildPersistent(kvs: seq<KeyValue>) returns (m: PersistentMap, ghost versions: seq<PersistentMap>)
    ensures m.entries == ToMap(kvs)
    ensures |versions| == |kvs| + 1 && versions[|kvs|] == m
    ensures forall j | 0 <= j <= |kvs| :: versions[j].entries == ToMap(kvs[..j])
  {
    m := PersistentMap.Empty();
    versions := [m];
    assert kvs[..0] == [];
    for i := 0 to |kvs|
      invariant |versions| == i + 1 && versions[i] == m
      invariant forall j | 0 <= j <= i :: versions[j].entries == ToMap(kvs[..j])
    {
      assert kvs[..i + 1][..i] == kvs[..i];
      m := m.Set(kvs[i].key, kvs[i].value);
      assert m.entries == ToMap(kvs[..i + 1]);
      versions := versions + [m];
    }
    assert kvs[..|kvs|] == kvs;
  }
}
