/**
 * The conflict check: before a pair is inserted, classify how it collides
 * with the pairs already in the dictionary.
 */
module ConflictCheck {
  import opened Wrappers
  import opened Invariant
  import opened BijectiveDictionaries

  /** Why a pair cannot be inserted without overriding an existing pair. */
  datatype Conflict<L, R> =
    | Left    // the left value is already present
    | Right   // the right value is already present
    | Pair    // both values are present, in the same pair
    | Both(otherLeft: L, otherRight: R)  // both values are present, in two different pairs

  /**
   * `conflict(with:)`: looks the pair up by its left and by its right value.
   * Neither found: no conflict. One found: `Left` or `Right`. Both found and
   * the two lookups give the same pair: `Pair`; otherwise `Both`, whose
   * `otherLeft` is the partner of the right value and whose `otherRight` is
   * the partner of the left value.
   */
  function ConflictWith<L(==), R(==)>(d: BijectiveDictionary<L, R>, pair: (L, R)): (c: Option<Conflict<L, R>>)
    reads d
    ensures c == None <==> pair.0 !in d.ltr && pair.1 !in d.rtl
    ensures c == Some(Right) <==> pair.0 !in d.ltr && pair.1 in d.rtl
    ensures c == Some(Left) <==> pair.0 in d.ltr && pair.1 !in d.rtl
    ensures c == Some(Pair) <==>
      pair.0 in d.ltr && pair.1 in d.rtl && d.ltr[pair.0] == pair.1 && d.rtl[pair.1] == pair.0
    ensures c.Some? && c.value.Both? ==>
      && pair.0 in d.ltr && pair.1 in d.rtl
      && c.value.otherLeft == d.rtl[pair.1] && c.value.otherRight == d.ltr[pair.0]
    ensures d.Valid() && c.Some? && c.value.Both? ==>
      c.value.otherLeft != pair.0 && c.value.otherRight != pair.1
  {
    match (d.FindPairByLeft(pair.0), d.FindPairByRight(pair.1))
    case (None, None) => None
    case (None, Some(_)) => Some(Right)
    case (Some(_), None) => Some(Left)
    case (Some(byLeft), Some(byRight)) =>
      if byLeft.0 != byRight.0 || byLeft.1 != byRight.1 then
        Some(Both(byRight.0, byLeft.1))
      else
        Some(Pair)
  }

  /**
   * The classification predicts what setting left `pair.0` to right `pair.1`
   * would do: with no conflict the pair is simply added; with `Pair` nothing
   * changes; with `Left` or `Right` one existing pair is overridden; with
   * `Both` the two pairs holding `otherRight` and `otherLeft` are both
   * evicted and the dictionary shrinks by one.
   */
  lemma ConflictPredictsAssign<L, R>(d: BijectiveDictionary<L, R>, pair: (L, R))
    requires d.Valid()
    ensures var (l, r) := pair; var c := ConflictWith(d, pair);
      var ltr', rtl' := Assign(d.ltr, l, r), Assign(d.rtl, r, l);
      && (c == None ==> ltr' == d.ltr[l := r] && rtl' == d.rtl[r := l] && |ltr'| == |d.ltr| + 1)
      && (c == Some(Pair) ==> ltr' == d.ltr && rtl' == d.rtl)
      && (c == Some(Left) ==> d.ltr[l] !in rtl' && |ltr'| == |d.ltr|)
      && (c == Some(Right) ==> d.rtl[r] !in ltr' && |ltr'| == |d.ltr|)
      && (c.Some? && c.value.Both? ==>
            c.value.otherLeft !in ltr' && c.value.otherRight !in rtl' && |ltr'| == |d.ltr| - 1)
  {
    var (l, r) := pair;
    AssignCount(d.ltr, d.rtl, l, r);
    AssignEvicts(d.ltr, d.rtl, l, r);
    if l !in d.ltr && r !in d.rtl {
      AssignFresh(d.ltr, d.rtl, l, r);
    }
    if l in d.ltr && d.ltr[l] == r {
      AssignPresentPair(d.ltr, d.rtl, l, r);
    }
  }

  /** The classifications for {A:1, B:2, C:3}. */
  lemma ConflictExamples(d: BijectiveDictionary<char, int>)
    requires d.ltr == map['A' := 1, 'B' := 2, 'C' := 3]
    requires d.rtl == map[1 := 'A', 2 := 'B', 3 := 'C']
    ensures ConflictWith(d, ('D', 4)) == None
    ensures ConflictWith(d, ('A', 0)) == Some(Left)
    ensures ConflictWith(d, ('E', 1)) == Some(Right)
    ensures ConflictWith(d, ('A', 1)) == Some(Pair)
    ensures ConflictWith(d, ('A', 3)) == Some(Both('C', 1))
  {
  }
}
