/**
 * The batch builder: makes a bijective dictionary from a sequence of pairs
 * that may repeat left or right values. Without repeats every pair goes in;
 * otherwise a single pass in input order accepts a pair only when neither of
 * its values was taken by an earlier accepted pair, and hands back the pairs
 * it rejected, in order.
 */
module Builder {
  import opened Wrappers
  import opened Invariant
  import opened Pairs
  import opened BijectiveDictionaries

  /** `BijectiveDictionaryBuildResults`. */
  datatype BuildResults<L(==), R(==)> =
    | Success(dict: BijectiveDictionary<L, R>)
    | Conflicts(dict: BijectiveDictionary<L, R>, conflicts: seq<(L, R)>)

  /** The outcome of the first-come-first-served pass: the accepted pairs as a map, and the rejected pairs in input order. */
  datatype Split<L, R> = Split(accepted: map<L, R>, rejected: seq<(L, R)>)

  /**
   * The pass over `pairs`, as a function of the input: the last pair is
   * accepted exactly when neither its left value is a key nor its right value
   * a value of what the pass over the earlier pairs accepted.
   */
  ghost function Partition<L, R>(pairs: seq<(L, R)>): Split<L, R>
    decreases |pairs|
  {
    if pairs == [] then Split(map[], [])
    else
      var s := Partition(pairs[..|pairs| - 1]);
      var (l, r) := pairs[|pairs| - 1];
      if l in s.accepted || r in s.accepted.Values then Split(s.accepted, s.rejected + [(l, r)])
      else Split(s.accepted[l := r], s.rejected)
  }

  /**
   * Every input pair lands in exactly one of the two outcomes: the
   * accepted pairs and the rejected pairs add up to the input, and no two
   * accepted pairs share a right value.
   */
  lemma {:induction false} PartitionCounts<L, R>(pairs: seq<(L, R)>)
    ensures |Partition(pairs).accepted| + |Partition(pairs).rejected| == |pairs|
    ensures Injective(Partition(pairs).accepted)
    decreases |pairs|
  {
    if pairs != [] {
      PartitionCounts(pairs[..|pairs| - 1]);
    }
  }

  /**
   * Nothing is invented: every accepted pair and every rejected pair is a
   * pair of the input, and every input pair is accepted as it is or rejected.
   */
  lemma {:induction false} PartitionCovers<L, R>(pairs: seq<(L, R)>)
    ensures forall l | l in Partition(pairs).accepted :: (l, Partition(pairs).accepted[l]) in pairs
    ensures forall p | p in Partition(pairs).rejected :: p in pairs
    ensures forall p | p in pairs ::
      (p.0 in Partition(pairs).accepted && Partition(pairs).accepted[p.0] == p.1) || p in Partition(pairs).rejected
    decreases |pairs|
  {
    if pairs != [] {
      var init := pairs[..|pairs| - 1];
      PartitionCovers(init);
      var s := Partition(init);
      var (l, r) := pairs[|pairs| - 1];
      assert pairs == init + [(l, r)];
      if !(l in s.accepted || r in s.accepted.Values) {
        forall p | p in init
          ensures (p.0 in s.accepted[l := r] && s.accepted[l := r][p.0] == p.1) || p in s.rejected
        {
          if p.0 == l {
            assert p.0 in s.accepted || p in s.rejected;
          }
        }
      }
    }
  }

  /** Without repeated values on either side nothing is rejected, and the accepted map is the one built from all the pairs. */
  lemma {:induction false} PartitionOfUnique<L, R>(pairs: seq<(L, R)>)
    requires Distinct(Lefts(pairs)) && Distinct(Rights(pairs))
    ensures Partition(pairs) == Split(ToMap(pairs), [])
    decreases |pairs|
  {
    if pairs != [] {
      var init := pairs[..|pairs| - 1];
      LastIsNew(pairs);
      PartitionOfUnique(init);
      ToMapOfUnique(init);
      MirroredIsBijection(ToMap(init), ToMap(Swapped(init)));
      ToMapSnoc(pairs);
    }
  }

  /** Conversely, a pass that rejects nothing was given no repeated value on either side. */
  lemma {:induction false} NoRejectionMeansUnique<L, R>(pairs: seq<(L, R)>)
    requires Partition(pairs).rejected == []
    ensures Distinct(Lefts(pairs)) && Distinct(Rights(pairs))
    decreases |pairs|
  {
    if pairs != [] {
      var n := |pairs| - 1;
      var init, l, r := pairs[..n], pairs[n].0, pairs[n].1;
      LastWasAccepted(pairs);
      NoRejectionMeansUnique(init);
      UniqueValuesAreIn(init);
      PrefixProjections(pairs, n);
      assert Lefts(pairs) == Lefts(init) + [l];
      assert Rights(pairs) == Rights(init) + [r];
      AppendFresh(Lefts(init), l);
      AppendFresh(Rights(init), r);
    }
  }

  /** When nothing is rejected, nothing was rejected before the last pair either, and the last pair's values were new. */
  lemma LastWasAccepted<L, R>(pairs: seq<(L, R)>)
    requires pairs != [] && Partition(pairs).rejected == []
    ensures var n := |pairs| - 1; var s := Partition(pairs[..n]);
      s.rejected == [] && pairs[n].0 !in s.accepted && pairs[n].1 !in s.accepted.Values
  {
  }

  /**
   * Without repeats, the map built from the pairs has exactly the left values
   * as keys and the right values as values.
   */
  lemma UniqueValuesAreIn<L, R>(pairs: seq<(L, R)>)
    requires Distinct(Lefts(pairs)) && Distinct(Rights(pairs))
    ensures Partition(pairs).accepted.Keys == set x | x in Lefts(pairs)
    ensures Partition(pairs).accepted.Values == set x | x in Rights(pairs)
  {
    PartitionOfUnique(pairs);
    ToMapKeys(pairs);
    ToMapOfUnique(pairs);
    MirroredIsBijection(ToMap(pairs), ToMap(Swapped(pairs)));
    ToMapKeys(Swapped(pairs));
    assert Lefts(Swapped(pairs)) == Rights(pairs);
  }

  /** Appending an element that does not occur keeps a sequence free of repeats. */
  lemma AppendFresh<T>(s: seq<T>, x: T)
    requires Distinct(s) && x !in s
    ensures Distinct(s + [x])
  {
    var t := s + [x];
    forall i, j | 0 <= i < j < |t| ensures t[i] != t[j] {
      if j < |s| { assert t[i] == s[i] && t[j] == s[j]; }
    }
  }

  /** One step of the pass: how the outcome on the first `i + 1` pairs follows from the outcome on the first `i`. */
  lemma PartitionSnoc<L, R>(pairs: seq<(L, R)>, i: nat)
    requires i < |pairs|
    ensures var s := Partition(pairs[..i]);
      Partition(pairs[..i + 1]) ==
        if pairs[i].0 in s.accepted || pairs[i].1 in s.accepted.Values then Split(s.accepted, s.rejected + [pairs[i]])
        else Split(s.accepted[pairs[i].0 := pairs[i].1], s.rejected)
  {
    assert pairs[..i + 1][..i] == pairs[..i];
  }

  /** The pass on [(A,1), (B,2), (C,3), (A,4)]: the repeated left value A is rejected. */
  lemma PartitionRepeatedLeftExample(p: seq<(char, int)>)
    requires p == [('A', 1), ('B', 2), ('C', 3), ('A', 4)]
    ensures Partition(p) == Split(map['A' := 1, 'B' := 2, 'C' := 3], [('A', 4)])
  {
    assert p[..0] == [] && p[..4] == p;
    PartitionSnoc(p, 0);
    var m1 := map['A' := 1];
    assert Partition(p[..1]) == Split(m1, []);
    PartitionSnoc(p, 1);
    assert 2 !in m1.Values by { assert forall k | k in m1 :: m1[k] == 1; }
    var m2 := m1['B' := 2];
    assert Partition(p[..2]) == Split(m2, []);
    PartitionSnoc(p, 2);
    assert 3 !in m2.Values by { assert forall k | k in m2 :: m2[k] in {1, 2}; }
    PartitionSnoc(p, 3);
  }

  /**
   * The pass on [(A,1), (A,2), (C,3), (D,3)]: the repeated left value A and
   * the repeated right value 3 are rejected, each at its second occurrence.
   */
  lemma PartitionRepeatedBothExample(q: seq<(char, int)>)
    requires q == [('A', 1), ('A', 2), ('C', 3), ('D', 3)]
    ensures Partition(q) == Split(map['A' := 1, 'C' := 3], [('A', 2), ('D', 3)])
  {
    assert q[..0] == [] && q[..4] == q;
    PartitionSnoc(q, 0);
    var m1 := map['A' := 1];
    assert Partition(q[..1]) == Split(m1, []);
    PartitionSnoc(q, 1);
    assert Partition(q[..2]) == Split(m1, [('A', 2)]);
    PartitionSnoc(q, 2);
    assert 3 !in m1.Values by { assert forall k | k in m1 :: m1[k] == 1; }
    var m2 := m1['C' := 3];
    assert Partition(q[..3]) == Split(m2, [('A', 2)]);
    PartitionSnoc(q, 3);
    assert 3 in m2.Values by { assert m2['C'] == 3; }
  }

  /**
   * `build(from:)`. When neither the left nor the right values repeat, the
   * result is `Success` with every pair in both maps. Otherwise it is
   * `Conflicts`, holding the dictionary of the accepted pairs and the
   * (non-empty) rejected pairs in input order, as `Partition` describes them.
   */
  method Build<L(==), R(==)>(pairs: seq<(L, R)>) returns (result: BuildResults<L, R>)
    ensures fresh(result.dict) && result.dict.Valid()
    ensures result.Success? <==> !HasDuplicates(Lefts(pairs)) && !HasDuplicates(Rights(pairs))
    ensures result.dict.ltr == Partition(pairs).accepted
    ensures result.Success? ==> result.dict.ltr == ToMap(pairs) && |result.dict.ltr| == |pairs|
    ensures result.Conflicts? ==> result.conflicts == Partition(pairs).rejected && result.conflicts != []
  {
    var keys := Lefts(pairs);
    var values := Rights(pairs);
    var hasConflicts := HasDuplicates(keys) || HasDuplicates(values);
    HasDuplicatesIff(keys);
    HasDuplicatesIff(values);
    if hasConflicts {
      var dict, conflicts := BuildKeepingFirst(pairs);
      if conflicts == [] {
        NoRejectionMeansUnique(pairs);
        assert false;
      }
      return Conflicts(dict, conflicts);
    } else {
      var dict := BuildFromUnique(pairs);
      PartitionOfUnique(pairs);
      ToMapOfUnique(pairs);
      return Success(dict);
    }
  }

  /**
   * The branch of `build(from:)` for input with repeats: each pair whose left
   * and right values are both new goes into the dictionary through the two
   * setters, every other pair is appended to the conflicts.
   */
  method BuildKeepingFirst<L(==), R(==)>(pairs: seq<(L, R)>) returns (dict: BijectiveDictionary<L, R>, conflicts: seq<(L, R)>)
    ensures fresh(dict) && dict.Valid()
    ensures dict.ltr == Partition(pairs).accepted && conflicts == Partition(pairs).rejected
  {
    var insertedLeftValues: set<L> := {};
    var insertedRightValues: set<R> := {};
    conflicts := [];
    dict := new BijectiveDictionary.WithMinimumCapacity(|pairs|);
    for i := 0 to |pairs|
      invariant fresh(dict) && dict.Valid()
      invariant Partition(pairs[..i]) == Split(dict.ltr, conflicts)
      invariant forall x :: x in insertedLeftValues <==> x in dict.ltr
      invariant forall y :: y in insertedRightValues <==> y in dict.rtl
    {
      var leftValue, rightValue := pairs[i].0, pairs[i].1;
      KeepingFirstStep(pairs, i, dict.ltr, dict.rtl);
      var alreadyInsertedLeftValue := leftValue in insertedLeftValues;
      var alreadyInsertedRightValue := rightValue in insertedRightValues;
      if alreadyInsertedLeftValue || alreadyInsertedRightValue {
        // The left value, the right value, or both were inserted already;
        // the guard leaves no fourth combination.
        conflicts := conflicts + [(leftValue, rightValue)];
      } else {
        // Neither value was inserted yet.
        InsertNewPair(dict, leftValue, rightValue);
        insertedLeftValues := insertedLeftValues + {leftValue};
        insertedRightValues := insertedRightValues + {rightValue};
      }
    }
    assert pairs[..|pairs|] == pairs;
  }

  /**
   * One step of the pass, stated on the two maps of the dictionary built so
   * far: a pair one of whose values is already a key of either map is
   * rejected, any other pair is new on both sides and is accepted.
   */
  lemma KeepingFirstStep<L, R>(pairs: seq<(L, R)>, i: nat, ltr: map<L, R>, rtl: map<R, L>)
    requires i < |pairs| && IsBijection(ltr, rtl) && ltr == Partition(pairs[..i]).accepted
    ensures var s := Partition(pairs[..i]);
      if pairs[i].0 in ltr || pairs[i].1 in rtl then Partition(pairs[..i + 1]) == Split(ltr, s.rejected + [pairs[i]])
      else Partition(pairs[..i + 1]) == Split(ltr[pairs[i].0 := pairs[i].1], s.rejected)
  {
    PartitionSnoc(pairs, i);
    MirroredIsBijection(ltr, rtl);
  }

  /**
   * Writes a pair whose values are both new through the left setter and then
   * the right setter: the first adds the pair to both maps, the second finds
   * it present and changes nothing.
   */
  method InsertNewPair<L(==), R(==)>(dict: BijectiveDictionary<L, R>, l: L, r: R)
    requires dict.Valid() && l !in dict.ltr && r !in dict.rtl
    modifies dict
    ensures dict.Valid()
    ensures dict.ltr == old(dict.ltr)[l := r] && dict.rtl == old(dict.rtl)[r := l]
  {
    AssignFresh(dict.ltr, dict.rtl, l, r);
    dict.SetByLeft(l, Some(r));
    AssignPresentPair(dict.ltr, dict.rtl, l, r);
    dict.SetByRight(r, Some(l));
  }

  /**
   * The branch of `build(from:)` for input without repeats: every pair is
   * written straight into both maps.
   */
  method BuildFromUnique<L(==), R(==)>(pairs: seq<(L, R)>) returns (dict: BijectiveDictionary<L, R>)
    requires Distinct(Lefts(pairs)) && Distinct(Rights(pairs))
    ensures fresh(dict) && dict.Valid()
    ensures dict.ltr == ToMap(pairs) && dict.rtl == ToMap(Swapped(pairs))
  {
    dict := new BijectiveDictionary.WithMinimumCapacity(|pairs|);
    for i := 0 to |pairs|
      invariant fresh(dict)
      invariant dict.ltr == ToMap(pairs[..i]) && dict.rtl == ToMap(Swapped(pairs[..i]))
    {
      var (leftValue, rightValue) := pairs[i];
      var _ := dict.UpdateForward(rightValue, leftValue);
      var _ := dict.UpdateReverse(leftValue, rightValue);
      ToMapSnoc(pairs[..i + 1]);
      assert pairs[..i + 1][..i] == pairs[..i];
    }
    assert pairs[..|pairs|] == pairs;
    ToMapOfUnique(pairs);
  }

  /**
   * The equality of build results as the source writes it: two successes
   * compare their dictionaries (by forward map), two conflict results compare
   * their dictionaries and the left and right values of their conflicts
   * position by position, a success never equals a conflict result, but a
   * conflict result equals every success.
   */
  function ResultsEqualAsWritten<L(==), R(==)>(lhs: BuildResults<L, R>, rhs: BuildResults<L, R>): bool
    reads lhs.dict, rhs.dict
  {
    match (lhs, rhs)
    case (Success(a), Success(b)) => a.ltr == b.ltr
    case (Success(_), Conflicts(_, _)) => false
    case (Conflicts(_, _), Success(_)) => true
    case (Conflicts(a, ca), Conflicts(b, cb)) =>
      a.ltr == b.ltr && Lefts(ca) == Lefts(cb) && Rights(ca) == Rights(cb)
  }

  /** As written, the equality is not symmetric: a conflict result equals a success, but not the other way round. */
  lemma AsWrittenIsNotSymmetric<L, R>(a: BijectiveDictionary<L, R>, b: BijectiveDictionary<L, R>, c: seq<(L, R)>)
    ensures ResultsEqualAsWritten(Conflicts(a, c), Success(b))
    ensures !ResultsEqualAsWritten(Success(b), Conflicts(a, c))
  {
  }

  /** The equality of build results with a conflict result never equal to a success. */
  function ResultsEqual<L(==), R(==)>(lhs: BuildResults<L, R>, rhs: BuildResults<L, R>): (eq: bool)
    reads lhs.dict, rhs.dict
    ensures eq <==> && lhs.Success? == rhs.Success?
                    && lhs.dict.ltr == rhs.dict.ltr
                    && (lhs.Conflicts? ==> lhs.conflicts == rhs.conflicts)
  {
    match (lhs, rhs)
    case (Success(a), Success(b)) => a.ltr == b.ltr
    case (Success(_), Conflicts(_, _)) => false
    case (Conflicts(_, _), Success(_)) => false
    case (Conflicts(a, ca), Conflicts(b, cb)) =>
      ProjectionsDetermine(ca, cb);
      a.ltr == b.ltr && Lefts(ca) == Lefts(cb) && Rights(ca) == Rights(cb)
  }

  /** Two sequences of pairs with equal left values and equal right values, position by position, are equal. */
  lemma ProjectionsDetermine<L, R>(a: seq<(L, R)>, b: seq<(L, R)>)
    ensures Lefts(a) == Lefts(b) && Rights(a) == Rights(b) <==> a == b
  {
    if Lefts(a) == Lefts(b) && Rights(a) == Rights(b) {
      assert |a| == |Lefts(a)| == |b|;
      forall i | 0 <= i < |a| ensures a[i] == b[i] {
        assert Lefts(a)[i] == Lefts(b)[i] && Rights(a)[i] == Rights(b)[i];
      }
    }
  }

  /** The corrected equality is an equivalence relation. */
  lemma ResultsEqualIsEquivalence<L, R>(x: BuildResults<L, R>, y: BuildResults<L, R>, z: BuildResults<L, R>)
    ensures ResultsEqual(x, x)
    ensures ResultsEqual(x, y) <==> ResultsEqual(y, x)
    ensures ResultsEqual(x, y) && ResultsEqual(y, z) ==> ResultsEqual(x, z)
  {
  }

  /** The dictionaries of the expected results, written as literals: {A:1, B:2, C:3} and {A:1, C:3}. */
  lemma ExpectedDictionaries()
    ensures ToMap([('A', 1), ('B', 2), ('C', 3)]) == map['A' := 1, 'B' := 2, 'C' := 3]
    ensures ToMap([('A', 1), ('C', 3)]) == map['A' := 1, 'C' := 3]
  {
    var p: seq<(char, int)> := [('A', 1), ('B', 2), ('C', 3)];
    assert p[..0] == [] && p[..1] == [('A', 1)] && p[..2] == [('A', 1), ('B', 2)];
    assert ToMap(p[..1]) == map['A' := 1];
    assert ToMap(p[..2]) == map['A' := 1, 'B' := 2];
    var q: seq<(char, int)> := [('A', 1), ('C', 3)];
    assert q[..1] == [('A', 1)];
  }

  /** The expected outcome of building from [(A,1), (A,2), (C,3), (D,3)]: {A:1, C:3} with (A,2) and (D,3) rejected. */
  method BuildWithConflictsExample() returns (actual: BuildResults<char, int>, expected: BuildResults<char, int>)
    ensures ResultsEqual(actual, expected)
  {
    var literal := [('A', 1), ('C', 3)];
    assert Lefts(literal) == ['A', 'C'] && Rights(literal) == [1, 3];
    var dict := new BijectiveDictionary.FromLiteral(literal);
    expected := Conflicts(dict, [('A', 2), ('D', 3)]);
    var pairs := [('A', 1), ('A', 2), ('C', 3), ('D', 3)];
    PartitionRepeatedBothExample(pairs);
    PartitionCounts(pairs);
    ExpectedDictionaries();
    actual := Build(pairs);
  }

  /** Building from [(A,1), (B,2), (C,3), (D,4)], which has no repeats, succeeds with all four pairs. */
  method BuildWithoutConflictsExample() returns (actual: BuildResults<char, int>, expected: BuildResults<char, int>)
    ensures actual.Success? && ResultsEqual(actual, expected)
  {
    var pairs := [('A', 1), ('B', 2), ('C', 3), ('D', 4)];
    assert Lefts(pairs) == ['A', 'B', 'C', 'D'] && Rights(pairs) == [1, 2, 3, 4];
    var dict := new BijectiveDictionary.FromLiteral(pairs);
    expected := Success(dict);
    PartitionOfUnique(pairs);
    actual := Build(pairs);
  }

  /** Building from [(A,1), (B,2), (C,3), (A,4)]: {A:1, B:2, C:3} with (A,4) rejected. */
  method BuildWithRepeatedLeftExample() returns (actual: BuildResults<char, int>, expected: BuildResults<char, int>)
    ensures ResultsEqual(actual, expected)
  {
    var literal := [('A', 1), ('B', 2), ('C', 3)];
    assert Lefts(literal) == ['A', 'B', 'C'] && Rights(literal) == [1, 2, 3];
    var dict := new BijectiveDictionary.FromLiteral(literal);
    expected := Conflicts(dict, [('A', 4)]);
    var pairs := [('A', 1), ('B', 2), ('C', 3), ('A', 4)];
    PartitionRepeatedLeftExample(pairs);
    PartitionCounts(pairs);
    ExpectedDictionaries();
    actual := Build(pairs);
  }
}
