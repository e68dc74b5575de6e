# Benchmark workload and checksum oracle, in Dafny

This project models the sequential core of the `Benchmarks` class of the
C# lookup benchmark in `src/CsBenchmarkNet/Program.cs`. That class compares
four string-to-int maps: `Dictionary`, `ImmutableDictionary`, and two
persistent hash maps. The model covers four parts:

- **Workload generator.** Random draws are rendered as decimal keys. Each key
  is tagged with the index of its draw. `DistinctBy` keeps the first pair for
  each key and `Take(1000)` cuts the result. A copy of the key column is
  shuffled in place with Fisher–Yates, and a checked `long` reference sum of
  the values is computed.
- **Build phase.** Every pair is inserted, in order, into the four maps:
  with `Add` into a `Dictionary` (which throws on any duplicate key), with
  `Add` into an `ImmutableDictionary` builder (which throws only on a
  duplicate key with a different value) that is then frozen, and with `Set`
  rebinding for each persistent map.
- **Probe.** One generic probe walks the shuffled keys and adds each value
  it finds into a `long`. It then throws "Test case is broken" unless the
  total equals the reference sum. The four benchmark methods are this probe
  applied to their own map.
- **Main result.** On every workload the constructor can build, the oracle
  never throws, and this is proved for all four methods.

Modules, one file each:

| file | module | what it holds |
|---|---|---|
| wrappers.dfy | `Wrappers` | `Option` |
| decimal.dfy | `Decimal` | canonical decimal text of a natural; parser; round trips; injectivity |
| int64.dfy | `Int64` | `int`/`long` ranges; two's-complement wrap of unchecked `long` addition |
| generator.dfy | `Generator` | tagging, `DistinctBy`, `Take`, key column, exact and checked sums, their lemmas |
| shuffle.dfy | `Shuffle` | Fisher–Yates as a specification function and as an in-place array method |
| maps.dfy | `KeyValueMaps` | abstract map content `ToMap`, `Dictionary` and builder tables with their `Add` rules, persistent map with `Set`, the three build loops |
| probe.dfy | `Probe` | the probe total `LookupSum`, the probe loop, the oracle, and the build-then-probe round trip |
| benchmarks.dfy | `Benchmarks` | the `Benchmarks` class: constructor and the four lookup benchmarks |

The random source `new Random(19740531)` is abstracted as two input sequences:

- `draws` holds the values of the successive `rnd.Next()` calls. Each is in
  `[0, int.MaxValue)`, and there are at most `int.MaxValue` of them, which is
  the length of `Enumerable.Range(0, int.MaxValue)`.
- `picks` holds the values of the `rnd.Next(i, n)` calls of the shuffle. Each
  `picks[i]` is in `[i, n)`.

Two places where the code behaves differently from what a reader might expect. The model follows the code:

- When the draws do not hold `Size` distinct values, the generator does not
  fail: `Take` returns fewer pairs. `GeneratedKeysUnique`
  states the exact count.
- The probe total and the reference sum are both `long`s, but `sum += v` is
  unchecked and wraps around, while LINQ's `Sum` over `long` is checked and
  throws `OverflowException`. The model keeps both behaviours: `ProbeSum` uses
  `Wrap`, and `CheckedSum` fails on overflow. For the generated workload
  (`Size = 1000`), the proofs show that the checked sum cannot overflow
  (`CheckedSumNeverOverflows`). They also show that no `sum += v` step
  wraps: every running total of a probe is the exact partial sum and lies
  between 0 and `_sum` (`ProbeNeverWraps`).

## Model

| member | source | states |
|---|---|---|
| Decimal.NatToString | src/CsBenchmarkNet/Program.cs:54 | The key text of a draw is canonical: non-empty, digits only, no leading zero, and it starts with '0' exactly for 0 |
| Decimal.ParseOfNatToString | src/CsBenchmarkNet/Program.cs:54 | Reading the decimal text of `n` back gives `n` |
| Decimal.NatToStringOfParse | src/CsBenchmarkNet/Program.cs:54 | Every canonical digit string is the text of the number it denotes, so rendering is onto the canonical strings |
| Decimal.NatToStringInjective | src/CsBenchmarkNet/Program.cs:54 | Two draws with the same key text are equal, so keys identify draws |
| Int64.Wrap | src/CsBenchmarkNet/Program.cs:120 | An unchecked `long` result is in the 64-bit range, congruent to the exact result modulo 2^64, and equal to it when that fits |
| Int64.WrapAdd | src/CsBenchmarkNet/Program.cs:115-121 | Wrapping the running total at every `sum += v` equals wrapping the exact total once |
| Generator.KeyOf | src/CsBenchmarkNet/Program.cs:54 | Defines the key of a draw as its invariant-culture decimal text (`Decimal.NatToString`); its properties are those of `NatToString` and `NatToStringInjective` |
| Generator.Tagged | src/CsBenchmarkNet/Program.cs:52-56 | Defines the `Select` stage: draw number `v` becomes the pair (key of the draw, `v`). `TaggedFirstKey` and `TaggedKeyCount` state its properties |
| Generator.DistinctByKey | src/CsBenchmarkNet/Program.cs:57 | `DistinctBy` output has pairwise-distinct keys, the same key set as its input, and is no longer than its input |
| Generator.DistinctByKeyLength | src/CsBenchmarkNet/Program.cs:57 | `DistinctBy` keeps exactly one pair per distinct key of its input |
| Generator.DistinctByKeyKeepsFirst | src/CsBenchmarkNet/Program.cs:57 | First-seen-wins: a pair is in the output if and only if it is the first input pair with its key |
| Generator.DistinctByKeyKeepsOrder | src/CsBenchmarkNet/Program.cs:57 | `DistinctBy` preserves input order: strictly increasing values stay strictly increasing |
| Generator.TaggedFirstKey | src/CsBenchmarkNet/Program.cs:52-57 | A tagged draw is the first with its key if and only if it is the first draw of its value |
| Generator.TaggedKeyCount | src/CsBenchmarkNet/Program.cs:52-57 | The tagged draws have as many distinct keys as the draws have distinct values |
| Generator.GeneratedKeysUnique | src/CsBenchmarkNet/Program.cs:50-59 | `_kvs` has pairwise-distinct keys and min(Size, number of distinct draw values) pairs, which is at most Size and exactly Size when the draws hold enough distinct values |
| Generator.GeneratedFirstSeen | src/CsBenchmarkNet/Program.cs:51-58 | Each pair of `_kvs` is (key of draw v, v) for the first draw v of its value. Values strictly increase. No first draw before the cut-off is skipped |
| Generator.Take | src/CsBenchmarkNet/Program.cs:58 | Defines `Take(n)`: the whole input when it has at most `n` elements, else its first `n`. `TakeIsPrefix` states its property |
| Generator.TakeIsPrefix | src/CsBenchmarkNet/Program.cs:58 | `Take(n)` returns a prefix of its input of length min(n, length) |
| Generator.GenerateRecords | src/CsBenchmarkNet/Program.cs:50-60 | Defines `_kvs` as `Take(Size)` of `DistinctBy` of the tagged draws. `GeneratedKeysUnique` and `GeneratedFirstSeen` state its properties |
| Generator.KeyColumn | src/CsBenchmarkNet/Program.cs:61 | The key column `_kvs.Select(kv => kv.k)` has one key per pair. `FisherYatesPermutes`, `KeyColumnLookupSum` and `BuildThenProbe` state what it is used for |
| Generator.CheckedSum | src/CsBenchmarkNet/Program.cs:70 | The checked `long` sum succeeds if and only if every left-to-right partial sum fits in 64 bits, and then it is the exact sum of the values |
| Generator.SumValuesBounds | src/CsBenchmarkNet/Program.cs:70 | With values in `[0, int.MaxValue]`, the sum is between 0 and n * int.MaxValue |
| Generator.CheckedSumNeverOverflows | src/CsBenchmarkNet/Program.cs:70 | With non-negative `int` values (the indices `Select` attaches) and few enough pairs (1000 qualifies), `_sum` is the exact sum of the values and no `OverflowException` occurs |
| Shuffle.SwapAt | src/CsBenchmarkNet/Program.cs:66-68 | The three assignments through `tmp` keep the length. `SwapAtCells` states which cells they change |
| Shuffle.SwapAtCells | src/CsBenchmarkNet/Program.cs:66-68 | A swap step exchanges cells `i` and `swap`, leaves every other cell alone, and keeps the multiset |
| Shuffle.ShuffleFrom | src/CsBenchmarkNet/Program.cs:63-69 | Defines the loop's steps `i`, `i + 1`, ... as a function: each step swaps cell `i` with cell `picks[i]`. `ShuffleFromLength`, `ShuffleFromPermutes` and `ShuffleFromKeepsPrefix` state its properties |
| Shuffle.FisherYates | src/CsBenchmarkNet/Program.cs:63-69 | Defines the whole shuffle as the steps from 0. `FisherYatesPermutes` states its properties and `ShuffleInPlace` is proved equal to it |
| Shuffle.ShuffleFromLength | src/CsBenchmarkNet/Program.cs:63-69 | The remaining shuffle steps keep the length |
| Shuffle.ShuffleFromPermutes | src/CsBenchmarkNet/Program.cs:63-69 | The remaining shuffle steps keep the multiset of keys |
| Shuffle.ShuffleFromKeepsPrefix | src/CsBenchmarkNet/Program.cs:63-69 | Once step `i` has run, cells `0..i` are never written again |
| Shuffle.FisherYatesPermutes | src/CsBenchmarkNet/Program.cs:61-69 | `_keys` has the length of `_kvs` and is a permutation of its key column. An empty column stays empty |
| Shuffle.ShuffleInPlace | src/CsBenchmarkNet/Program.cs:63-69 | The in-place loop leaves the array equal to the Fisher–Yates result of its old contents and a permutation of them. After step `i`, cells `0..i` hold their final keys |
| KeyValueMaps.ToMap | src/CsBenchmarkNet/Program.cs:74-107 | The map built by inserting `kvs` in order has exactly the keys of `kvs` |
| KeyValueMaps.ToMapHoldsEveryPair | src/CsBenchmarkNet/Program.cs:74-107 | When pairs sharing a key share the value (in particular with distinct keys), the built map maps every key of `kvs` to that pair's value |
| KeyValueMaps.ToMapValuesFromPairs | src/CsBenchmarkNet/Program.cs:74-107 | Every entry of the built map is the key and value of some pair of `kvs` |
| KeyValueMaps.ToMapSize | src/CsBenchmarkNet/Program.cs:74-107 | With distinct keys, the built map has one entry per pair, no more and no fewer |
| KeyValueMaps.TryGetValue | src/CsBenchmarkNet/Program.cs:118 | A lookup finds a value if and only if the key is in the map, and the value it finds is the stored one |
| KeyValueMaps.HashTable.constructor | src/CsBenchmarkNet/Program.cs:75 | A new `Dictionary` is empty |
| KeyValueMaps.HashTable.Add | src/CsBenchmarkNet/Program.cs:78 | `Dictionary.Add` succeeds if and only if the key is new, and then it adds exactly that pair. On a duplicate (the `ArgumentException`) the table is unchanged |
| KeyValueMaps.DictionaryBuilder.constructor | src/CsBenchmarkNet/Program.cs:83 | A new builder is empty |
| KeyValueMaps.DictionaryBuilder.Add | src/CsBenchmarkNet/Program.cs:86 | The builder's `Add` succeeds if and only if the key is new or already holds the same value, and then the builder maps the key to that value. On a key with a different value (the `ArgumentException`) the builder is unchanged |
| KeyValueMaps.PersistentMap.Empty | src/CsBenchmarkNet/Program.cs:92 | The empty persistent map finds no key |
| KeyValueMaps.PersistentMap.Set | src/CsBenchmarkNet/Program.cs:95 | The new version finds the set value under its key and agrees with the old version on every other key |
| KeyValueMaps.BuildDictionary | src/CsBenchmarkNet/Program.cs:74-80 | The `Add` loop completes if and only if the keys are distinct, and then the dictionary holds exactly the pairs of `kvs` |
| KeyValueMaps.BuildImmutableDictionary | src/CsBenchmarkNet/Program.cs:82-89 | The builder loop completes if and only if no key repeats with a different value, and then the frozen snapshot holds exactly the pairs of `kvs` |
| KeyValueMaps.BuildPersistent | src/CsBenchmarkNet/Program.cs:91-107 | The final version holds exactly the pairs of `kvs`. Each intermediate version still holds only the pairs inserted before it |
| Probe.Contribution | src/CsBenchmarkNet/Program.cs:118-121 | Defines what one key adds to the total: its value when `TryGetValue` finds it, nothing otherwise. `LookupSumOfMissingKeys` states the missing case |
| Probe.LookupSum | src/CsBenchmarkNet/Program.cs:116-121 | Defines the exact probe total, accumulated left to right. `ProbeSum` is proved to compute its wrapped value, and the `LookupSum*` lemmas state its properties |
| Probe.ProbeSum | src/CsBenchmarkNet/Program.cs:113-122 | The probe total is the wrapped left-to-right sum of the values found for the keys. The map and keys are only read, so the total is the same on every call |
| Probe.CheckedProbe | src/CsBenchmarkNet/Program.cs:113-123 | A benchmark passes if and only if the wrapped probe total equals the reference sum; otherwise it fails with "Test case is broken" |
| Probe.LookupSumOfMissingKeys | src/CsBenchmarkNet/Program.cs:118-121 | Keys the map does not hold add nothing to the probe total |
| Probe.LookupSumAppend | src/CsBenchmarkNet/Program.cs:116-122 | The probe total over two key runs is the sum of their totals |
| Probe.LookupSumRemove | src/CsBenchmarkNet/Program.cs:116-122 | Taking one key out of the probed run removes exactly that key's contribution |
| Probe.LookupSumPermutation | src/CsBenchmarkNet/Program.cs:116-122 | The probe total depends only on the multiset of probed keys, not their order |
| Probe.LookupSumAgree | src/CsBenchmarkNet/Program.cs:116-122 | Two maps that agree on every probed key give the same total |
| Probe.KeyColumnLookupSum | src/CsBenchmarkNet/Program.cs:116-122 | Probing the map built from distinct-key pairs with its own key column gives the sum of the values |
| Probe.LookupSumNonNegative | src/CsBenchmarkNet/Program.cs:116-122 | With non-negative stored values, a probe total is non-negative |
| Probe.RunningTotalsBounded | src/CsBenchmarkNet/Program.cs:115-122 | With non-negative stored values, every running total of the probe loop lies between 0 and the final total |
| Probe.BuildThenProbe | src/CsBenchmarkNet/Program.cs:123 | Build-then-probe round trip: probing the built map with any permutation of the key column gives the sum of the values |
| Benchmarks.OracleNeverFires | src/CsBenchmarkNet/Program.cs:123 | For a well-formed workload whose sum fits in a `long`, the wrapped probe total equals the reference sum |
| Benchmarks.ProbeNeverWraps | src/CsBenchmarkNet/Program.cs:115-121 | On a well-formed workload, no `sum += v` step wraps: every running total is the exact partial sum and lies between 0 and the reference sum |
| Benchmarks.GeneratedWorkloadFits | src/CsBenchmarkNet/Program.cs:50-70 | The generated `_kvs` has distinct keys, at most Size pairs and non-negative values. Its checked sum succeeds with the exact sum, which fits in a `long` |
| Benchmarks.ShuffledKeyColumn | src/CsBenchmarkNet/Program.cs:61-69 | `_keys` is a fresh array holding the Fisher–Yates shuffle of the key column, and so a permutation of it |
| Benchmarks.Benchmarks.constructor | src/CsBenchmarkNet/Program.cs:47-108 | `_kvs` is the generated workload and `_keys` is its Fisher–Yates shuffled key column. The four maps each hold exactly `_kvs`, `_sum` is its exact sum, and no `Add` or `Sum` throws (both build loops are asserted to complete) |
| Benchmarks.Benchmarks.DictionaryLookup | src/CsBenchmarkNet/Program.cs:111-124 | The `Dictionary` probe never throws "Test case is broken" |
| Benchmarks.Benchmarks.ImmutableDictionaryLookup | src/CsBenchmarkNet/Program.cs:127-140 | The `ImmutableDictionary` probe never throws "Test case is broken" |
| Benchmarks.Benchmarks.CsPersistentHashMap | src/CsBenchmarkNet/Program.cs:143-156 | The `CsPersistentHashMap` probe never throws "Test case is broken" |
| Benchmarks.Benchmarks.FsPersistentHashMap | src/CsBenchmarkNet/Program.cs:159-172 | The `FsPersistentHashMap` probe never throws "Test case is broken" |

## Left out

- `BenchmarkConfig` and its jobs and environment variables (lines 11-30), the `[MemoryDiagnoser]` and `[Benchmark]` attributes, and `BenchmarkRunner.Run` in `Main`: these are measurement wiring with no logic to state.
- The internals of `Dictionary`, `ImmutableDictionary`, `CsPersistentHashMap.PersistentHashMap` and `FsPersistentHashMap.PersistentHashMap`: these are library or other-project code. Each is modelled only as a finite map with an insert/lookup contract, so hashing, tries, structural sharing and the capacity hint `new(kvs.Length)` are not modelled. Persistent versions are plain values, so an old version is unaffected by a later `Set` by construction. `TryFind2` and `TryFind` are both modelled by `TryGetValue`.
- The algorithm of `System.Random` and the output of seed 19740531: the draws are inputs constrained only by the ranges `Random` promises.
- Benchmarks.Benchmarks.constructor: the shuffle's `rnd.Next(i, n)` calls continue the same generator right after the last draw the lazy generation pipeline consumed. The model takes them as a separate input `picks`, so it does not capture how the shuffle depends on how many draws generation used.
- The laziness of `Enumerable.Range(0, int.MaxValue)`: the draws are a finite sequence. Generation over it yields the same pairs as the lazy pipeline, which stops after `Size` distinct keys.
- Culture-specific formatting: only the invariant-culture rendering of a non-negative `int` is modelled, as digits with no sign or separators.
- Timing, allocation statistics and repeated invocation by the runner: a probe is modelled as one call that only reads.
