# BijectiveDictionary in Dafny

A model of the Swift package BijectiveDictionary. It is a dictionary whose
keys ("left values") and values ("right values") are both unique, so each
side can look up the other. The store is two dictionaries kept as exact
inverses of each other: `_ltr` maps left to right and `_rtl` maps right to
left. Every mutation has to keep them in step.

The model has six modules, one file each:

- `wrappers.dfy` (`Wrappers`): Swift's `Optional` with its `??`, and the
  dictionary subscript `m[k]` as a lookup that returns an `Option`.
- `invariant.dfy` (`Invariant`): the consistency check `_invariantCheck`,
  written as the predicate `IsBijection` on the two maps: equal counts, and
  every entry on each side mirrored on the other. It also holds the facts
  derived from it: the two mirror conditions alone imply the equal counts,
  and the forward values are pairwise distinct.
- `pairs.dfy` (`Pairs`): sequences of pairs. It covers their left and right
  projections, `Collection.hasDuplicates`, and the dictionary that a run of
  insertions builds (`Dictionary(uniqueKeysWithValues:)`). On input with no
  repeats, that dictionary and the one built from the swapped pairs form a
  bijection.
- `bijective_dictionary.dfy` (`BijectiveDictionaries`):
  - The class `BijectiveDictionary`. Its fields `ltr` and `rtl` are `_ltr`
    and `_rtl`. `Valid()` is the invariant; every mutator requires it and
    re-establishes it.
  - The initializers, the getters, the default-value subscripts, the
    subscript setters (the nil set included), the removals and `findPairBy…`.
  - Swift's `updateValue(_:forKey:)` and `removeValue(forKey:)` on either
    field. Each is a small method that returns the replaced value and updates
    one field.
  - A reference definition of what setting a pair does, on plain maps:
    `Assign`, which evicts whatever held either value and then writes the
    pair. The setters are proved to compute exactly `Assign`, and lemmas about
    `Assign` state eviction, frame, size and the closed forms.
- `conflict.dfy` (`ConflictCheck`): the `Conflict` enum and `conflict(with:)`.
  A lemma ties each conflict class to what setting that pair would do.
- `build.dfy` (`Builder`):
  - `BijectiveDictionaryBuildResults` and `build(from:)`.
  - The first-come-first-served pass is specified by the function
    `Partition`. The loop is proved to compute it, and `Partition` is proved
    to account for every input pair.
  - The result equality, as the source writes it and corrected (see
    Findings).

## Model

| member | source | states |
|---|---|---|
| Wrappers.Get | Sources/BijectiveDictionary/BijectiveDictionary.swift:150-152 | A lookup yields a value exactly when the key is present, and that value is the stored one. |
| Invariant.InjectiveCardinality | Sources/BijectiveDictionary/BijectiveDictionary+Invariant.swift:13 | A map with pairwise distinct values has as many distinct values as keys. This is why the count assertion holds. |
| Invariant.MirroredIsBijection | Sources/BijectiveDictionary/BijectiveDictionary+Invariant.swift:12-27 | The two mirror loops alone imply the whole check. Both maps are injective. Each map's values are the other's keys. The counts agree. |
| Invariant.ReverseIsDetermined | Sources/BijectiveDictionary/BijectiveDictionary+Invariant.swift:15-26 | Two reverse maps that both mirror the same forward map are equal, so the reverse map carries no extra information. |
| Invariant.ExtendBijection | Sources/BijectiveDictionary/BijectiveDictionary+Invariant.swift:12-27 | Adding a pair whose two values are both new keeps the invariant and grows the count by one. |
| Pairs.ElementSetCardinality | Sources/BijectiveDictionary/BijectiveDictionary+build.swift:86-94 | A sequence has at most as many distinct elements as positions. The counts are equal exactly when no element repeats. |
| Pairs.HasDuplicatesIff | Sources/BijectiveDictionary/BijectiveDictionary+build.swift:86-94 | `hasDuplicates` holds exactly when two different positions hold equal elements. |
| Pairs.ToMapKeys | Sources/BijectiveDictionary/BijectiveDictionary+Initializers.swift:42 | The keys of the dictionary built from pairs are exactly the pairs' left values. |
| Pairs.PrefixIsNew | Sources/BijectiveDictionary/BijectiveDictionary+ExpressibleByDictionaryLiteral.swift:16-23 | Without repeats, neither value of the i-th pair is a key of the maps built from the pairs before it, so neither `updateValue` finds an old value. |
| Pairs.ToMapOfUnique | Sources/BijectiveDictionary/BijectiveDictionary+Initializers.swift:40-45 | Without repeats on either side, the map has one entry per pair and every pair is found in both directions. The forward and reverse maps form a bijection. |
| BijectiveDictionaries.WithoutPartner | Sources/BijectiveDictionary/BijectiveDictionary.swift:156-160 | In a bijection, the only reverse entry that points back at `l` is the one under `l`'s partner. |
| BijectiveDictionaries.RemoveLeftPreservesBijection | Sources/BijectiveDictionary/BijectiveDictionary.swift:97-102 | Removing `l` and its partner removes exactly one pair from each map when `l` is present and nothing otherwise. The result is a bijection. |
| BijectiveDictionaries.AssignClosedForm | Sources/BijectiveDictionary/BijectiveDictionary.swift:164-171 | Setting (l, r) drops the old partner of `r` from the forward map and the old partner of `l` from the reverse map, then writes the pair into both. |
| BijectiveDictionaries.AssignPreservesBijection | Sources/BijectiveDictionary/BijectiveDictionary.swift:153-172 | Setting a pair keeps the invariant. |
| BijectiveDictionaries.AssignEvicts | Sources/BijectiveDictionary/BijectiveDictionary.swift:164-171 | Afterwards `l` and `r` are paired in both maps. The left value that held `r` is gone from the forward map, and the right value that `l` held is gone from the reverse map. |
| BijectiveDictionaries.AssignFrame | Sources/BijectiveDictionary/BijectiveDictionary.swift:164-171 | Every pair sharing neither `l` nor `r` is unchanged. The forward keys afterwards are the old keys, minus the former holder of `r`, plus `l`. |
| BijectiveDictionaries.DoubleEvictionIsAssign | Sources/BijectiveDictionary/BijectiveDictionary.swift:164-171 | The two `updateValue` calls with their `!=` guards and removals compute exactly `Assign` on both maps. |
| BijectiveDictionaries.AssignFresh | Sources/BijectiveDictionary/BijectiveDictionary.swift:164-171 | A pair whose two values are both new is simply added. |
| BijectiveDictionaries.AssignPresentPair | Sources/BijectiveDictionary/BijectiveDictionary.swift:165-169 | Setting a pair that is already present leaves both maps unchanged. |
| BijectiveDictionaries.AssignCount | Sources/BijectiveDictionary/BijectiveDictionary.swift:164-171 | Setting a pair gives one pair more when both values were new, and one fewer when two different pairs held them. Otherwise the count is the same. |
| BijectiveDictionaries.EvictionExample | Sources/BijectiveDictionary/BijectiveDictionary.swift:164-171 | In {A:1, B:2, C:3}, setting A to 2 leaves {A:2, C:3} forward and {2:A, 3:C} backward. |
| BijectiveDictionaries.BijectiveDictionary.constructor | Sources/BijectiveDictionary/BijectiveDictionary+Initializers.swift:12-15 | Both maps start empty, which is valid. |
| BijectiveDictionaries.BijectiveDictionary.WithMinimumCapacity | Sources/BijectiveDictionary/BijectiveDictionary+Initializers.swift:27-30 | Both maps start empty, which is valid. |
| BijectiveDictionaries.BijectiveDictionary.FromUniquePairs | Sources/BijectiveDictionary/BijectiveDictionary+Initializers.swift:40-45 | On pairs with distinct lefts and distinct rights: forward is built from the pairs and reverse from the swapped pairs. The count equals the number of pairs, and every pair is found by left and by right. |
| BijectiveDictionaries.BijectiveDictionary.FromLiteral | Sources/BijectiveDictionary/BijectiveDictionary+ExpressibleByDictionaryLiteral.swift:14-25 | Same promise as `FromUniquePairs`, reached by the insertion loop. The two fatal-error branches are unreachable under distinct values. |
| BijectiveDictionaries.BijectiveDictionary.FromDictionary | Sources/BijectiveDictionary/BijectiveDictionary+Initializers.swift:55-67 | The result is nil exactly when two keys share a value. Otherwise forward is the given dictionary and the result is valid. |
| BijectiveDictionaries.BijectiveDictionary.ToDictionary | Sources/BijectiveDictionary/BijectiveDictionary+Initializers.swift:75-77 | Gives the forward map. Under the invariant it is injective and its values are the reverse map's keys. |
| BijectiveDictionaries.DictionaryRoundTrip | Sources/BijectiveDictionary/BijectiveDictionary+Initializers.swift:55-77 | `Dictionary(BijectiveDictionary(d)!)` exists exactly when `d` is injective, and then equals `d`. |
| BijectiveDictionaries.FromDictionaryRejectsExample | Sources/BijectiveDictionary/BijectiveDictionary+Initializers.swift:60-64 | `init?` on [A:1, B:2, C:1] is nil. |
| BijectiveDictionaries.BijectiveDictionary.GetByLeft | Sources/BijectiveDictionary/BijectiveDictionary.swift:150-152 | The forward lookup. Under the invariant, its result maps back to `l`. |
| BijectiveDictionaries.BijectiveDictionary.GetByRight | Sources/BijectiveDictionary/BijectiveDictionary.swift:179-181 | The reverse lookup. Under the invariant, its result maps back to `r`. |
| BijectiveDictionaries.BijectiveDictionary.GetByLeftOr | Sources/BijectiveDictionary/BijectiveDictionary.swift:126-130 | The right value of `l`, or the default when `l` is absent. |
| BijectiveDictionaries.BijectiveDictionary.GetByRightOr | Sources/BijectiveDictionary/BijectiveDictionary.swift:138-142 | The left value of `r`, or the default when `r` is absent. |
| BijectiveDictionaries.BijectiveDictionary.FindPairByLeft | Sources/BijectiveDictionary/BijectiveDictionary.swift:205-208 | The pair (l, forward[l]) exactly when `l` is present, else nil. |
| BijectiveDictionaries.BijectiveDictionary.FindPairByRight | Sources/BijectiveDictionary/BijectiveDictionary.swift:211-214 | The pair (reverse[r], r) exactly when `r` is present, else nil. |
| BijectiveDictionaries.BijectiveDictionary.SetPair | Sources/BijectiveDictionary/BijectiveDictionary.swift:164-171 | The double eviction keeps the invariant and leaves both maps as `Assign` describes. |
| BijectiveDictionaries.BijectiveDictionary.SetByLeft | Sources/BijectiveDictionary/BijectiveDictionary.swift:153-172 | A non-nil value gives `Assign` on both maps. Nil removes `l` and its partner, and does nothing when `l` is absent. The invariant is kept. |
| BijectiveDictionaries.BijectiveDictionary.SetByRight | Sources/BijectiveDictionary/BijectiveDictionary.swift:182-201 | The mirror image of `SetByLeft`, with the same non-nil outcome. Nil removes `r` and its partner. |
| BijectiveDictionaries.BijectiveDictionary.SetByLeftWithDefault | Sources/BijectiveDictionary/BijectiveDictionary.swift:131 | The default subscript's setter is the left setter. |
| BijectiveDictionaries.BijectiveDictionary.SetByRightWithDefault | Sources/BijectiveDictionary/BijectiveDictionary.swift:143 | The default subscript's setter is the right setter. |
| BijectiveDictionaries.BijectiveDictionary.RemoveByLeft | Sources/BijectiveDictionary/BijectiveDictionary.swift:97-102 | Returns the old partner of `l`. When present, the pair leaves both maps; when absent, nothing changes. |
| BijectiveDictionaries.BijectiveDictionary.RemoveByRight | Sources/BijectiveDictionary/BijectiveDictionary.swift:81-86 | Returns the old partner of `r`. When present, the pair leaves both maps; when absent, nothing changes. |
| BijectiveDictionaries.BijectiveDictionary.RemoveAll | Sources/BijectiveDictionary/BijectiveDictionary.swift:116-120 | Both maps become empty, which is valid. |
| ConflictCheck.ConflictWith | Sources/BijectiveDictionary/BijectiveDictionary+Conflict.swift:58-71 | Nil exactly when neither value is present. `Right` or `Left` exactly when only that value is present. `Pair` exactly when the two are paired. `Both` takes `otherLeft` from the by-right pair and `otherRight` from the by-left pair; under the invariant these differ from the queried values. |
| ConflictCheck.ConflictPredictsAssign | Sources/BijectiveDictionary/BijectiveDictionary+Conflict.swift:13-26 | Each class says what inserting the pair would do. No conflict adds the pair. `Pair` changes nothing. `Left` or `Right` overrides one pair. `Both` evicts the pairs of `otherLeft` and `otherRight`, and there is one pair fewer. |
| ConflictCheck.ConflictExamples | Tests/BijectiveDictionaryTests/BijectiveDictionaryTests.swift:293-301 | The five classifications for {A:1, B:2, C:3}. |
| Builder.PartitionCounts | Sources/BijectiveDictionary/BijectiveDictionary+build.swift:45-71 | Accepted pairs plus rejected pairs number exactly the input pairs. No two accepted pairs share a right value. |
| Builder.PartitionCovers | Sources/BijectiveDictionary/BijectiveDictionary+build.swift:45-71 | Every accepted and every rejected pair comes from the input. Every input pair is either accepted as it is or rejected. |
| Builder.PartitionOfUnique | Sources/BijectiveDictionary/BijectiveDictionary+build.swift:37-39 | Without repeats the pass rejects nothing and accepts the dictionary of all pairs, so the two branches of `build` agree. |
| Builder.NoRejectionMeansUnique | Sources/BijectiveDictionary/BijectiveDictionary+build.swift:37-72 | A pass that rejects nothing had no repeated value on either side, so the conflict branch always reports at least one conflict. |
| Builder.KeepingFirstStep | Sources/BijectiveDictionary/BijectiveDictionary+build.swift:46-70 | A pair is rejected exactly when one of its values was taken by an earlier accepted pair. Otherwise it is accepted. |
| Builder.PartitionRepeatedLeftExample | Tests/BijectiveDictionaryTests/BijectiveDictionaryTests.swift:311-314 | [(A,1), (B,2), (C,3), (A,4)] is split into {A:1, B:2, C:3} and [(A,4)]. |
| Builder.PartitionRepeatedBothExample | Tests/BijectiveDictionaryTests/BijectiveDictionaryTests.swift:315-318 | [(A,1), (A,2), (C,3), (D,3)] is split into {A:1, C:3} and [(A,2), (D,3)]. |
| Builder.Build | Sources/BijectiveDictionary/BijectiveDictionary+build.swift:30-83 | The result is valid and fresh. It is `Success` exactly when neither side repeats, and then holds every pair. Otherwise it is `Conflicts`, with the accepted pairs and the non-empty rejected list of the pass. |
| Builder.BuildKeepingFirst | Sources/BijectiveDictionary/BijectiveDictionary+build.swift:42-72 | The loop computes `Partition`. The consumed-value sets equal the dictionary's key sets throughout, and accepted insertions never evict. |
| Builder.InsertNewPair | Sources/BijectiveDictionary/BijectiveDictionary+build.swift:67-68 | For a pair with both values new, the left setter then the right setter add exactly that pair. |
| Builder.BuildFromUnique | Sources/BijectiveDictionary/BijectiveDictionary+build.swift:73-82 | The direct `updateValue` loop builds the forward and reverse dictionaries of the pairs, which form a bijection. |
| Builder.AsWrittenIsNotSymmetric | Sources/BijectiveDictionary/BijectiveDictionary+build.swift:8-23 | As written, a `conflicts` result equals every `success` result, but not the other way round. |
| Builder.ResultsEqual | Sources/BijectiveDictionary/BijectiveDictionary+build.swift:8-23 | Results are equal exactly when they are the same case, with equal forward maps and, for conflicts, equal conflict lists. |
| Builder.ProjectionsDetermine | Sources/BijectiveDictionary/BijectiveDictionary+build.swift:17-20 | Comparing the conflicts' lefts and rights position by position is the same as comparing the lists. |
| Builder.ResultsEqualIsEquivalence | Sources/BijectiveDictionary/BijectiveDictionary+build.swift:8-23 | The corrected equality is reflexive, symmetric and transitive. |
| Builder.ExpectedDictionaries | Tests/BijectiveDictionaryTests/BijectiveDictionaryTests.swift:310-319 | The dictionary literals of the expected results are {A:1, B:2, C:3} and {A:1, C:3}. |
| Builder.BuildWithoutConflictsExample | Tests/BijectiveDictionaryTests/BijectiveDictionaryTests.swift:303-308 | Building from [(A,1), (B,2), (C,3), (D,4)] is a `Success` equal to the literal dictionary. |
| Builder.BuildWithRepeatedLeftExample | Tests/BijectiveDictionaryTests/BijectiveDictionaryTests.swift:310-324 | Building from [(A,1), (B,2), (C,3), (A,4)] equals `conflicts({A:1, B:2, C:3}, [(A,4)])`. |
| Builder.BuildWithConflictsExample | Tests/BijectiveDictionaryTests/BijectiveDictionaryTests.swift:310-324 | Building from [(A,1), (A,2), (C,3), (D,3)] equals `conflicts({A:1, C:3}, [(A,2), (D,3)])`. |

## Left out

- Codable (`BijectiveDictionary.swift:217-248`): encoder and decoder machinery. Decoding only delegates to `init?(_:)`, which is modelled as `FromDictionary`.
- `Hashable` and the `==` operators: a hash is not modelled. Equality of two dictionaries is the equality of their forward maps, and is used that way in `ResultsEqual`.
- Collection, Sequence, `leftValues` and `rightValues`: their indices and iteration order come from the hash-table layout of Swift's `Dictionary`, which is not visible here. `count`, `isEmpty` and the key sets are `|ltr|` and the field key sets.
- Iteration order in `init?(_:)`: the loop visits the keys in an arbitrary order, chosen by `:|`. The proof holds for every order.
- Capacity and `reserveCapacity`: allocation hints with no effect on the mapping. The `minimumCapacity` and `keepingCapacity` parameters are accepted and ignored.
- `#if DEBUG` around `_invariantCheck`: the check is a class invariant (`Valid()`) that every mutator requires and re-establishes, not a runtime assertion.
- The read-modify-write compound through a default subscript (`dict[left: k, default: d] += 1`): it is the default getter followed by the left setter on the result, and both are modelled separately.
- `SetPair`: this one method models the non-nil branch of both subscript setters, whose code is identical in the source (`BijectiveDictionary.swift:164-171` and `193-200`).
- Value semantics and copy-on-write: the struct becomes a class, so aliasing between copies is not modelled.
- `Descriptions`, `Sendable`, the benchmark and the `Experiments` prototype: string rendering, a concurrency marker, timing code and an abandoned alternative implementation.
- `init(uniqueLeftRightPairs:)` and `init(dictionaryLiteral:)` trap on repeated values. The model makes distinct values a precondition, so the trap paths are not modelled.

## Findings

| source | as written | input that shows it | evidently intended | confidence | as-written member | corrected member |
|---|---|---|---|---|---|---|
| Sources/BijectiveDictionary/BijectiveDictionary+build.swift:15-16 | `(.conflicts, .success)` compares equal (returns true), while `(.success, .conflicts)` returns false, so `==` is not symmetric. | `conflicts([:], conflicts: [])` == `success([:])` is true, but the reverse is false. In the test at `Tests/BijectiveDictionaryTests/BijectiveDictionaryTests.swift:303-308`, a `build` that wrongly returned `conflicts` would still compare equal to the expected success. | A conflict result never equals a success, the same as the mirrored case on lines 13-14. | not executed | Builder.AsWrittenIsNotSymmetric | Builder.ResultsEqual |
