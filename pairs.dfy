/**
 * Sequences of left-right pairs, as the constructors and the batch builder
 * receive them: their projections, the duplicate test of the builder, and
 * the dictionary that Swift's `Dictionary(uniqueKeysWithValues:)` makes
 * of them.
 */
module Pairs {
  import opened Invariant

  /** The left values of `pairs`, in order (`pairs.map { $0.0 }`). */
  function Lefts<L, R>(pairs: seq<(L, R)>): seq<L> {
    seq(|pairs|, i requires 0 <= i < |pairs| => pairs[i].0)
  }

  /** The right values of `pairs`, in order (`pairs.map { $0.1 }`). */
  function Rights<L, R>(pairs: seq<(L, R)>): seq<R> {
    seq(|pairs|, i requires 0 <= i < |pairs| => pairs[i].1)
  }

  /** Every pair with its sides exchanged (`pairs.lazy.map { ($0.1, $0.0) }`). */
  function Swapped<L, R>(pairs: seq<(L, R)>): seq<(R, L)> {
    seq(|pairs|, i requires 0 <= i < |pairs| => (pairs[i].1, pairs[i].0))
  }

  /** No element occurs twice. */
  ghost predicate Distinct<T>(s: seq<T>) {
    forall i, j | 0 <= i < j < |s| :: s[i] != s[j]
  }

  /** `Collection.hasDuplicates`: the count differs from the count of the set of elements. */
  function HasDuplicates<T(==)>(s: seq<T>): bool {
    |s| != |set x | x in s|
  }

  lemma {:induction false} ElementSetCardinality<T>(s: seq<T>)
    ensures |set x | x in s| <= |s|
    ensures |set x | x in s| == |s| <==> Distinct(s)
  {
    if s != [] {
      var init, last := s[..|s| - 1], s[|s| - 1];
      ElementSetCardinality(init);
      assert s == init + [last];
      assert (set x | x in s) == (set x | x in init) + {last};
      if last in init {
        var k :| 0 <= k < |init| && init[k] == last;
        assert s[k] == s[|s| - 1];
      } else {
        assert Distinct(s) <==> Distinct(init) by {
          if Distinct(init) {
            forall i, j | 0 <= i < j < |s| ensures s[i] != s[j] {
              if j < |s| - 1 { assert s[i] == init[i] && s[j] == init[j]; }
            }
          }
          if Distinct(s) {
            forall i, j | 0 <= i < j < |init| ensures init[i] != init[j] {
              assert s[i] == init[i] && s[j] == init[j];
            }
          }
        }
      }
    }
  }

  /** `hasDuplicates` is true exactly when two positions hold equal elements. */
  lemma HasDuplicatesIff<T>(s: seq<T>)
    ensures HasDuplicates(s) <==> exists i, j :: 0 <= i < j < |s| && s[i] == s[j]
  {
    ElementSetCardinality(s);
  }

  /**
   * The dictionary built from `pairs` by inserting them in order, a later pair
   * overwriting an earlier one with the same left value: what
   * `Dictionary(uniqueKeysWithValues:)` builds on unique input, and what a run
   * of `updateValue` calls builds on any input.
   */
  function ToMap<L, R>(pairs: seq<(L, R)>): map<L, R>
    decreases |pairs|
  {
    if pairs == [] then map[]
    else ToMap(pairs[..|pairs| - 1])[pairs[|pairs| - 1].0 := pairs[|pairs| - 1].1]
  }

  lemma PrefixProjections<L, R>(pairs: seq<(L, R)>, n: nat)
    requires n <= |pairs|
    ensures Lefts(pairs[..n]) == Lefts(pairs)[..n]
    ensures Rights(pairs[..n]) == Rights(pairs)[..n]
    ensures Swapped(pairs[..n]) == Swapped(pairs)[..n]
  {
  }

  /** The keys of `ToMap(pairs)` are the left values of `pairs`. */
  lemma {:induction false} ToMapKeys<L, R>(pairs: seq<(L, R)>)
    ensures ToMap(pairs).Keys == set x | x in Lefts(pairs)
    decreases |pairs|
  {
    if pairs != [] {
      var init := pairs[..|pairs| - 1];
      ToMapKeys(init);
      PrefixProjections(pairs, |pairs| - 1);
      assert Lefts(pairs) == Lefts(init) + [pairs[|pairs| - 1].0];
    }
  }

  /** The last pair of a non-empty sequence is the last one written, in both directions. */
  lemma ToMapSnoc<L, R>(pairs: seq<(L, R)>)
    requires pairs != []
    ensures var n := |pairs| - 1;
      && ToMap(pairs) == ToMap(pairs[..n])[pairs[n].0 := pairs[n].1]
      && ToMap(Swapped(pairs)) == ToMap(Swapped(pairs[..n]))[pairs[n].1 := pairs[n].0]
  {
    var n := |pairs| - 1;
    PrefixProjections(pairs, n);
  }

  /** A value that occurs only at the last position of `s` does not occur in `s[..|s| - 1]`. */
  lemma LastIsFresh<T>(s: seq<T>)
    requires Distinct(s) && s != []
    ensures s[|s| - 1] !in s[..|s| - 1]
    ensures Distinct(s[..|s| - 1])
  {
  }

  /** The entries of the two maps after the last pair is written, given those of the prefix. */
  lemma SnocEntries<L, R>(pairs: seq<(L, R)>, fwd: map<L, R>, rev: map<R, L>)
    requires pairs != []
    requires var n := |pairs| - 1;
      && (forall i | 0 <= i < n :: pairs[i].0 in fwd && fwd[pairs[i].0] == pairs[i].1)
      && (forall i | 0 <= i < n :: pairs[i].1 in rev && rev[pairs[i].1] == pairs[i].0)
      && (forall i | 0 <= i < n :: pairs[i].0 != pairs[n].0 && pairs[i].1 != pairs[n].1)
    ensures var n := |pairs| - 1; var fwd', rev' := fwd[pairs[n].0 := pairs[n].1], rev[pairs[n].1 := pairs[n].0];
      && (forall i | 0 <= i < |pairs| :: pairs[i].0 in fwd' && fwd'[pairs[i].0] == pairs[i].1)
      && (forall i | 0 <= i < |pairs| :: pairs[i].1 in rev' && rev'[pairs[i].1] == pairs[i].0)
  {
  }

  lemma LastDiffers<L, R>(pairs: seq<(L, R)>)
    requires pairs != [] && Distinct(Lefts(pairs)) && Distinct(Rights(pairs))
    ensures var n := |pairs| - 1; forall i | 0 <= i < n :: pairs[i].0 != pairs[n].0 && pairs[i].1 != pairs[n].1
  {
    var n := |pairs| - 1;
    forall i | 0 <= i < n ensures pairs[i].0 != pairs[n].0 && pairs[i].1 != pairs[n].1 {
      assert Lefts(pairs)[i] == pairs[i].0 && Rights(pairs)[i] == pairs[i].1;
      assert Lefts(pairs)[n] == pairs[n].0 && Rights(pairs)[n] == pairs[n].1;
    }
  }

  /** The last pair's sides are not keys of the maps built from the prefix. */
  lemma LastIsNew<L, R>(pairs: seq<(L, R)>)
    requires pairs != [] && Distinct(Lefts(pairs)) && Distinct(Rights(pairs))
    ensures var n := |pairs| - 1;
      && Distinct(Lefts(pairs[..n])) && Distinct(Rights(pairs[..n]))
      && pairs[n].0 !in ToMap(pairs[..n]) && pairs[n].1 !in ToMap(Swapped(pairs[..n]))
  {
    var n := |pairs| - 1;
    var init := pairs[..n];
    PrefixProjections(pairs, n);
    LastIsFresh(Lefts(pairs));
    LastIsFresh(Rights(pairs));
    ToMapKeys(init);
    ToMapKeys(Swapped(init));
    assert Lefts(Swapped(init)) == Rights(init);
  }

  /** With distinct values on both sides, the i-th pair's values are not yet keys of the maps built from the pairs before it. */
  lemma PrefixIsNew<L, R>(pairs: seq<(L, R)>, i: nat)
    requires i < |pairs| && Distinct(Lefts(pairs)) && Distinct(Rights(pairs))
    ensures pairs[i].0 !in ToMap(pairs[..i]) && pairs[i].1 !in ToMap(Swapped(pairs[..i]))
  {
    var p := pairs[..i + 1];
    PrefixProjections(pairs, i + 1);
    assert p[..i] == pairs[..i];
    LastIsNew(p);
  }

  /**
   * On input with distinct left values and distinct right values, the forward
   * map built from the pairs and the reverse map built from the swapped pairs
   * hold every pair, have one entry per pair, and mirror each other.
   */
  lemma {:induction false} ToMapOfUnique<L, R>(pairs: seq<(L, R)>)
    requires Distinct(Lefts(pairs)) && Distinct(Rights(pairs))
    ensures |ToMap(pairs)| == |pairs|
    ensures forall i | 0 <= i < |pairs| :: pairs[i].0 in ToMap(pairs) && ToMap(pairs)[pairs[i].0] == pairs[i].1
    ensures forall i | 0 <= i < |pairs| :: pairs[i].1 in ToMap(Swapped(pairs)) && ToMap(Swapped(pairs))[pairs[i].1] == pairs[i].0
    ensures IsBijection(ToMap(pairs), ToMap(Swapped(pairs)))
    decreases |pairs|
  {
    if pairs != [] {
      var n := |pairs| - 1;
      LastIsNew(pairs);
      ToMapOfUnique(pairs[..n]);
      ToMapSnoc(pairs);
      ExtendBijection(ToMap(pairs[..n]), ToMap(Swapped(pairs[..n])), pairs[n].0, pairs[n].1);
      LastDiffers(pairs);
      SnocEntries(pairs, ToMap(pairs[..n]), ToMap(Swapped(pairs[..n])));
    }
  }
}
