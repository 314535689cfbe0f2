/**
 * The bijective dictionary: a forward map from left values to right values
 * and a reverse map from right values to left values, kept exact inverses of
 * each other by every mutation.
 *
 * The first half states, on plain maps, what the setters and removals do to
 * a bijection (`WithoutValue`, `Assign`) and proves that this keeps the
 * invariant; the class `BijectiveDictionary` below then implements the
 * source's double-eviction protocol on its two fields and is proved to
 * produce exactly that.
 */
module BijectiveDictionaries {
  import opened Wrappers
  import opened Invariant
  import opened Pairs

  /** `m` without every entry whose value is `v`. */
  ghost function WithoutValue<K, V>(m: map<K, V>, v: V): map<K, V> {
    map k | k in m && m[k] != v :: m[k]
  }

  /**
   * The map after `k` is set to `v` in a bijection: every other key that
   * held `v` is evicted, then `k` maps to `v`. Applied to the forward map
   * with (l, r) and to the reverse map with (r, l) it is the effect of
   * setting left `l` to right `r` (or right `r` to left `l`).
   */
  ghost function Assign<K, V>(m: map<K, V>, k: K, v: V): map<K, V> {
    WithoutValue(m, v)[k := v]
  }

  /**
   * In a bijection, the only entry of the reverse map whose value is `l` is
   * the one under the partner of `l`, if `l` has one.
   */
  lemma WithoutPartner<L, R>(ltr: map<L, R>, rtl: map<R, L>, l: L)
    requires IsBijection(ltr, rtl)
    ensures WithoutValue(rtl, l) == if l in ltr then rtl - {ltr[l]} else rtl
  {
    if l in ltr {
      assert WithoutValue(rtl, l) == rtl - {ltr[l]};
    } else {
      assert WithoutValue(rtl, l) == rtl;
    }
  }

  /**
   * Removing the pair of a left value: the forward map loses `l`, the
   * reverse map loses the one entry that pointed back at `l` (none when `l`
   * is absent), and the result is again a bijection.
   */
  lemma RemoveLeftPreservesBijection<L, R>(ltr: map<L, R>, rtl: map<R, L>, l: L)
    requires IsBijection(ltr, rtl)
    ensures l in ltr ==> WithoutValue(rtl, l) == rtl - {ltr[l]} && |ltr - {l}| == |ltr| - 1
    ensures l !in ltr ==> WithoutValue(rtl, l) == rtl && ltr - {l} == ltr
    ensures IsBijection(ltr - {l}, WithoutValue(rtl, l))
  {
    WithoutPartner(ltr, rtl, l);
    var ltr', rtl' := ltr - {l}, WithoutValue(rtl, l);
    forall x | x in ltr' ensures ltr'[x] in rtl' && rtl'[ltr'[x]] == x {
      assert rtl[ltr[x]] == x;
    }
    MirroredIsBijection(ltr', rtl');
  }

  /**
   * In a bijection, setting (l, r) drops the pair that held `r` from the
   * forward map and the pair that held `l` from the reverse map, then writes
   * the new pair into each.
   */
  lemma AssignClosedForm<L, R>(ltr: map<L, R>, rtl: map<R, L>, l: L, r: R)
    requires IsBijection(ltr, rtl)
    ensures Assign(ltr, l, r) == (if r in rtl then ltr - {rtl[r]} else ltr)[l := r]
    ensures Assign(rtl, r, l) == (if l in ltr then rtl - {ltr[l]} else rtl)[r := l]
  {
    AssignForwardClosedForm(ltr, rtl, l, r);
    AssignForwardClosedForm(rtl, ltr, r, l);
  }

  /** The forward half of `AssignClosedForm`; the reverse half is the same statement with the maps exchanged. */
  lemma AssignForwardClosedForm<L, R>(ltr: map<L, R>, rtl: map<R, L>, l: L, r: R)
    requires IsBijection(ltr, rtl)
    ensures Assign(ltr, l, r) == (if r in rtl then ltr - {rtl[r]} else ltr)[l := r]
  {
    WithoutPartner(rtl, ltr, r);
    var kept := WithoutValue(ltr, r);
    assert Assign(ltr, l, r) == kept[l := r];
  }

  /** Setting left `l` to right `r` (equivalently, right `r` to left `l`) keeps the bijection. */
  lemma AssignPreservesBijection<L, R>(ltr: map<L, R>, rtl: map<R, L>, l: L, r: R)
    requires IsBijection(ltr, rtl)
    ensures IsBijection(Assign(ltr, l, r), Assign(rtl, r, l))
  {
    AssignClosedForm(ltr, rtl, l, r);
    var ltr' := (if r in rtl then ltr - {rtl[r]} else ltr)[l := r];
    var rtl' := (if l in ltr then rtl - {ltr[l]} else rtl)[r := l];
    forall x | x in ltr' ensures ltr'[x] in rtl' && rtl'[ltr'[x]] == x {
      if x != l {
        assert x in ltr && ltr[x] != r && rtl[ltr[x]] == x;
      }
    }
    forall y | y in rtl' ensures rtl'[y] in ltr' && ltr'[rtl'[y]] == y {
      if y != r {
        assert y in rtl && rtl[y] != l && ltr[rtl[y]] == y;
      }
    }
    MirroredIsBijection(ltr', rtl');
  }

  /**
   * What setting left `l` to right `r` does to a bijection: afterwards `l`
   * and `r` are paired in both maps, the left value that held `r` is gone
   * from the forward map and the right value that `l` held is gone from the
   * reverse map.
   */
  lemma AssignEvicts<L, R>(ltr: map<L, R>, rtl: map<R, L>, l: L, r: R)
    requires IsBijection(ltr, rtl)
    ensures var ltr', rtl' := Assign(ltr, l, r), Assign(rtl, r, l);
      && l in ltr' && ltr'[l] == r && r in rtl' && rtl'[r] == l
      && (r in rtl && rtl[r] != l ==> rtl[r] !in ltr')
      && (l in ltr && ltr[l] != r ==> ltr[l] !in rtl')
  {
    AssignClosedForm(ltr, rtl, l, r);
  }

  /**
   * The frame of setting (l, r) in a bijection, on the forward map: every
   * pair sharing neither `l` nor `r` is unchanged, and the keys afterwards
   * are the old ones minus the left value that held `r`, plus `l`. (The same
   * lemma applied to the reverse map, with the roles of left and right
   * exchanged, gives the reverse map's frame.)
   */
  lemma AssignFrame<L, R>(ltr: map<L, R>, rtl: map<R, L>, l: L, r: R)
    requires IsBijection(ltr, rtl)
    ensures var ltr' := Assign(ltr, l, r);
      && (forall x | x in ltr && x != l && ltr[x] != r :: x in ltr' && ltr'[x] == ltr[x])
      && ltr'.Keys == (if r in rtl then ltr.Keys - {rtl[r]} else ltr.Keys) + {l}
  {
    WithoutPartner(rtl, ltr, r);
    var kept := WithoutValue(ltr, r);
    assert kept.Keys == (if r in rtl then ltr.Keys - {rtl[r]} else ltr.Keys);
    assert Assign(ltr, l, r) == kept[l := r];
  }

  /**
   * The double eviction of the setters computes `Assign`: write `l` under `r`
   * in the reverse map, drop the left value it displaced (if other than `l`)
   * from the forward map, write `r` under `l` there, and drop the right value
   * that displaced (if other than `r`) from the reverse map.
   */
  lemma DoubleEvictionIsAssign<L, R>(ltr0: map<L, R>, rtl0: map<R, L>, l: L, r: R, ltr: map<L, R>, rtl: map<R, L>)
    requires IsBijection(ltr0, rtl0)
    requires ltr == (if r in rtl0 && rtl0[r] != l then ltr0 - {rtl0[r]} else ltr0)[l := r]
    requires rtl == if l in ltr0 && ltr0[l] != r then rtl0[r := l] - {ltr0[l]} else rtl0[r := l]
    ensures ltr == Assign(ltr0, l, r) && rtl == Assign(rtl0, r, l)
  {
    AssignClosedForm(ltr0, rtl0, l, r);
    if r in rtl0 && rtl0[r] == l {
      assert (ltr0 - {l})[l := r] == ltr0[l := r];
    }
    if l in ltr0 && ltr0[l] == r {
      assert (rtl0 - {r})[r := l] == rtl0[r := l];
    }
  }

  /** Setting a pair whose left and right values are both new only adds it. */
  lemma AssignFresh<L, R>(ltr: map<L, R>, rtl: map<R, L>, l: L, r: R)
    requires IsBijection(ltr, rtl)
    requires l !in ltr && r !in rtl
    ensures Assign(ltr, l, r) == ltr[l := r] && Assign(rtl, r, l) == rtl[r := l]
  {
    AssignClosedForm(ltr, rtl, l, r);
  }

  /** Setting a pair that is already present changes neither map. */
  lemma AssignPresentPair<L, R>(ltr: map<L, R>, rtl: map<R, L>, l: L, r: R)
    requires IsBijection(ltr, rtl)
    requires l in ltr && ltr[l] == r
    ensures Assign(ltr, l, r) == ltr && Assign(rtl, r, l) == rtl
  {
    WithoutPartner(rtl, ltr, r);
    WithoutPartner(ltr, rtl, l);
  }

  /**
   * The number of pairs after setting (l, r): one more when both values were
   * new, one fewer when they were taken by two different pairs (which merge
   * into one), the same otherwise.
   */
  lemma AssignCount<L, R>(ltr: map<L, R>, rtl: map<R, L>, l: L, r: R)
    requires IsBijection(ltr, rtl)
    ensures |Assign(ltr, l, r)| ==
      if l !in ltr && r !in rtl then |ltr| + 1
      else if l in ltr && r in rtl && ltr[l] != r then |ltr| - 1
      else |ltr|
  {
    WithoutPartner(rtl, ltr, r);
    var kept := WithoutValue(ltr, r);
    assert kept.Keys == if r in rtl then ltr.Keys - {rtl[r]} else ltr.Keys;
    if r in rtl {
      assert |kept.Keys| == |ltr.Keys| - 1;
    }
    assert (l in kept) == (l in ltr && (r !in rtl || rtl[r] != l));
  }

  /** The eviction example: in {A:1, B:2, C:3}, setting left A to 2 evicts B and 1 and leaves {A:2, C:3}. */
  lemma EvictionExample()
    ensures Assign(map['A' := 1, 'B' := 2, 'C' := 3], 'A', 2) == map['A' := 2, 'C' := 3]
    ensures Assign(map[1 := 'A', 2 := 'B', 3 := 'C'], 2, 'A') == map[2 := 'A', 3 := 'C']
  {
    var ltr := map['A' := 1, 'B' := 2, 'C' := 3];
    assert WithoutValue(ltr, 2).Keys == {'A', 'C'};
    var rtl := map[1 := 'A', 2 := 'B', 3 := 'C'];
    assert WithoutValue(rtl, 'A').Keys == {2, 3};
  }

  /**
   * A bijective dictionary. `ltr` is the forward map (`_ltr`), `rtl` the
   * reverse map (`_rtl`); `Valid()` is the consistency check that every
   * mutating member runs on exit, here an invariant every mutator requires
   * and re-establishes.
   */
  class BijectiveDictionary<L(==), R(==)> {
    var ltr: map<L, R>
    var rtl: map<R, L>

    ghost predicate Valid()
      reads this
    {
      IsBijection(ltr, rtl)
    }

    /** `init()`: the empty dictionary. */
    constructor ()
      ensures Valid() && ltr == map[] && rtl == map[]
    {
      ltr, rtl := map[], map[];
    }

    /** `init(minimumCapacity:)`: the empty dictionary (the capacity is an allocation hint). */
    constructor WithMinimumCapacity(minimumCapacity: int)
      ensures Valid() && ltr == map[] && rtl == map[]
    {
      ltr, rtl := map[], map[];
    }

    /**
     * `init(uniqueLeftRightPairs:)`: the forward map built from the pairs and
     * the reverse map from the swapped pairs. Duplicate values on either side
     * are a runtime trap in the source, so distinct values are required here.
     */
    constructor FromUniquePairs(pairs: seq<(L, R)>)
      requires Distinct(Lefts(pairs)) && Distinct(Rights(pairs))
      ensures Valid()
      ensures ltr == ToMap(pairs) && rtl == ToMap(Swapped(pairs))
      ensures |ltr| == |pairs|
      ensures forall i | 0 <= i < |pairs| :: Get(ltr, pairs[i].0) == Some(pairs[i].1)
      ensures forall i | 0 <= i < |pairs| :: Get(rtl, pairs[i].1) == Some(pairs[i].0)
    {
      ltr := ToMap(pairs);
      rtl := ToMap(Swapped(pairs));
      new;
      ToMapOfUnique(pairs);
    }

    /**
     * `init(dictionaryLiteral:)`: inserts the elements one at a time into
     * both maps. A displaced value on either side is a fatal error in the
     * source; with the distinctness the source demands, that branch is
     * unreachable.
     */
    constructor FromLiteral(elements: seq<(L, R)>)
      requires Distinct(Lefts(elements)) && Distinct(Rights(elements))
      ensures Valid()
      ensures ltr == ToMap(elements) && rtl == ToMap(Swapped(elements))
      ensures |ltr| == |elements|
      ensures forall i | 0 <= i < |elements| :: Get(ltr, elements[i].0) == Some(elements[i].1)
      ensures forall i | 0 <= i < |elements| :: Get(rtl, elements[i].1) == Some(elements[i].0)
    {
      ltr, rtl := map[], map[];
      new;
      var i := 0;
      while i < |elements|
        invariant 0 <= i <= |elements|
        invariant ltr == ToMap(elements[..i]) && rtl == ToMap(Swapped(elements[..i]))
      {
        var (l, r) := elements[i];
        PrefixIsNew(elements, i);
        var replacedRight := UpdateForward(r, l);
        if replacedRight.Some? {
          // "Bijective dictionary literal contains duplicate left value"
          assert false;
        }
        var replacedLeft := UpdateReverse(l, r);
        if replacedLeft.Some? {
          // "Bijective dictionary literal contains duplicate right value"
          assert false;
        }
        ToMapSnoc(elements[..i + 1]);
        assert elements[..i + 1][..i] == elements[..i];
        i := i + 1;
      }
      assert elements[..i] == elements;
      ToMapOfUnique(elements);
    }

    /**
     * `init?(_:)`: the forward map is the given dictionary, the reverse map is
     * filled in entry by entry, and the construction fails (nil) as soon as a
     * right value turns out to be taken already. So it fails exactly when two
     * keys of the dictionary share a value; otherwise the reverse map is the
     * inverse of the dictionary.
     */
    static method FromDictionary(dictionary: map<L, R>) returns (result: Option<BijectiveDictionary<L, R>>)
      ensures result.None? <==> !Injective(dictionary)
      ensures result.Some? ==> fresh(result.value) && result.value.Valid() && result.value.ltr == dictionary
    {
      var d := new BijectiveDictionary();
      d.ltr := dictionary;
      var remaining := dictionary.Keys;
      while remaining != {}
        invariant remaining <= dictionary.Keys
        invariant d.ltr == dictionary
        invariant forall r | r in d.rtl :: d.rtl[r] in dictionary && d.rtl[r] !in remaining && dictionary[d.rtl[r]] == r
        invariant forall l | l in dictionary && l !in remaining :: dictionary[l] in d.rtl && d.rtl[dictionary[l]] == l
        decreases remaining
      {
        var l :| l in remaining;
        var replaced := d.UpdateReverse(l, dictionary[l]);
        if replaced.Some? {
          // Right values are not unique.
          assert replaced.value != l && dictionary[replaced.value] == dictionary[l];
          return None;
        }
        remaining := remaining - {l};
      }
      MirroredIsBijection(d.ltr, d.rtl);
      return Some(d);
    }

    /** `Dictionary(_:)`: the forward map, which under the invariant is injective and has the reverse map's keys as its values. */
    function ToDictionary(): (m: map<L, R>)
      reads this
      ensures m == ltr
      ensures Valid() ==> Injective(m) && m.Values == rtl.Keys
    {
      ltr
    }

    /** `self[left: l]`: the right value of `l`, which under the invariant maps back to `l`. */
    function GetByLeft(l: L): (r: Option<R>)
      reads this
      ensures r == Get(ltr, l)
      ensures Valid() && r.Some? ==> r.value in rtl && rtl[r.value] == l
    {
      Get(ltr, l)
    }

    /** `self[right: r]`: the left value of `r`, which under the invariant maps back to `r`. */
    function GetByRight(r: R): (l: Option<L>)
      reads this
      ensures l == Get(rtl, r)
      ensures Valid() && l.Some? ==> l.value in ltr && ltr[l.value] == r
    {
      Get(rtl, r)
    }

    /** `self[left: l, default: d]`: the right value of `l`, or `d` when `l` is absent. */
    function GetByLeftOr(l: L, default: R): (r: R)
      reads this
      ensures l in ltr ==> r == ltr[l]
      ensures l !in ltr ==> r == default
    {
      GetByLeft(l).GetOr(default)
    }

    /** `self[right: r, default: d]`: the left value of `r`, or `d` when `r` is absent. */
    function GetByRightOr(r: R, default: L): (l: L)
      reads this
      ensures r in rtl ==> l == rtl[r]
      ensures r !in rtl ==> l == default
    {
      GetByRight(r).GetOr(default)
    }

    /** `findPairByLeft`: the pair (l, forward[l]), or nil when `l` is absent. */
    function FindPairByLeft(l: L): (p: Option<(L, R)>)
      reads this
      ensures p.Some? <==> l in ltr
      ensures p.Some? ==> p.value == (l, ltr[l])
      ensures Valid() && p.Some? ==> p.value.1 in rtl && rtl[p.value.1] == l
    {
      match GetByLeft(l)
      case None => None
      case Some(r) => Some((l, r))
    }

    /** `findPairByRight`: the pair (reverse[r], r), or nil when `r` is absent. */
    function FindPairByRight(r: R): (p: Option<(L, R)>)
      reads this
      ensures p.Some? <==> r in rtl
      ensures p.Some? ==> p.value == (rtl[r], r)
      ensures Valid() && p.Some? ==> p.value.0 in ltr && ltr[p.value.0] == r
    {
      match GetByRight(r)
      case None => None
      case Some(l) => Some((l, r))
    }

    /** `_ltr.updateValue(value, forKey: key)`: writes the entry and returns the value it replaced. */
    method UpdateForward(value: R, key: L) returns (replaced: Option<R>)
      modifies this
      ensures replaced == Get(old(ltr), key)
      ensures ltr == old(ltr)[key := value] && rtl == old(rtl)
    {
      replaced := Get(ltr, key);
      ltr := ltr[key := value];
    }

    /** `_rtl.updateValue(value, forKey: key)`: writes the entry and returns the value it replaced. */
    method UpdateReverse(value: L, key: R) returns (replaced: Option<L>)
      modifies this
      ensures replaced == Get(old(rtl), key)
      ensures rtl == old(rtl)[key := value] && ltr == old(ltr)
    {
      replaced := Get(rtl, key);
      rtl := rtl[key := value];
    }

    /** `_ltr.removeValue(forKey: key)`: deletes the entry and returns its value. */
    method RemoveForward(key: L) returns (removed: Option<R>)
      modifies this
      ensures removed == Get(old(ltr), key)
      ensures ltr == old(ltr) - {key} && rtl == old(rtl)
    {
      removed := Get(ltr, key);
      ltr := ltr - {key};
    }

    /** `_rtl.removeValue(forKey: key)`: deletes the entry and returns its value. */
    method RemoveReverse(key: R) returns (removed: Option<L>)
      modifies this
      ensures removed == Get(old(rtl), key)
      ensures rtl == old(rtl) - {key} && ltr == old(ltr)
    {
      removed := Get(rtl, key);
      rtl := rtl - {key};
    }

    /**
     * The double eviction shared by both non-nil setters: write `l` under `r`
     * in the reverse map and drop the left value it displaced from the forward
     * map, then write `r` under `l` in the forward map and drop the right value
     * it displaced from the reverse map.
     */
    method SetPair(l: L, r: R)
      requires Valid()
      modifies this
      ensures Valid()
      ensures ltr == Assign(old(ltr), l, r) && rtl == Assign(old(rtl), r, l)
    {
      ghost var ltr0, rtl0 := ltr, rtl;
      var replacedLeft := UpdateReverse(l, r);
      if replacedLeft.Some? && replacedLeft.value != l {
        ltr := ltr - {replacedLeft.value};
      }
      var replacedRight := UpdateForward(r, l);
      if replacedRight.Some? && replacedRight.value != r {
        rtl := rtl - {replacedRight.value};
      }
      DoubleEvictionIsAssign(ltr0, rtl0, l, r, ltr, rtl);
      AssignPreservesBijection(ltr0, rtl0, l, r);
    }

    /**
     * `self[left: l] = r`. With a right value: the double eviction, after
     * which `l` and `r` are paired. With nil: `l` and its partner leave both
     * maps, and nothing happens when `l` is absent.
     */
    method SetByLeft(l: L, r: Option<R>)
      requires Valid()
      modifies this
      ensures Valid()
      ensures r.Some? ==> ltr == Assign(old(ltr), l, r.value) && rtl == Assign(old(rtl), r.value, l)
      ensures r.None? ==> ltr == old(ltr) - {l} && rtl == WithoutValue(old(rtl), l)
      ensures r.None? && l !in old(ltr) ==> ltr == old(ltr) && rtl == old(rtl)
    {
      if r.None? {
        RemoveLeftPreservesBijection(ltr, rtl, l);
        if l !in ltr {
          return;
        }
        var existing := ltr[l];
        rtl := rtl - {existing};
        ltr := ltr - {l};
        return;
      }
      SetPair(l, r.value);
    }

    /**
     * `self[right: r] = l`. With a left value it runs the same double
     * eviction as the left setter, so the outcome is the same. With nil: `r`
     * and its partner leave both maps, and nothing happens when `r` is absent.
     */
    method SetByRight(r: R, l: Option<L>)
      requires Valid()
      modifies this
      ensures Valid()
      ensures l.Some? ==> ltr == Assign(old(ltr), l.value, r) && rtl == Assign(old(rtl), r, l.value)
      ensures l.None? ==> rtl == old(rtl) - {r} && ltr == WithoutValue(old(ltr), r)
      ensures l.None? && r !in old(rtl) ==> ltr == old(ltr) && rtl == old(rtl)
    {
      if l.None? {
        RemoveLeftPreservesBijection(rtl, ltr, r);
        if r !in rtl {
          return;
        }
        var existing := rtl[r];
        ltr := ltr - {existing};
        rtl := rtl - {r};
        return;
      }
      SetPair(l.value, r);
    }

    /** The setter of `self[left: l, default: d]`: sets left `l` to `r`; the default is not used. */
    method SetByLeftWithDefault(l: L, r: R)
      requires Valid()
      modifies this
      ensures Valid()
      ensures ltr == Assign(old(ltr), l, r) && rtl == Assign(old(rtl), r, l)
    {
      SetByLeft(l, Some(r));
    }

    /** The setter of `self[right: r, default: d]`: sets right `r` to `l`; the default is not used. */
    method SetByRightWithDefault(r: R, l: L)
      requires Valid()
      modifies this
      ensures Valid()
      ensures ltr == Assign(old(ltr), l, r) && rtl == Assign(old(rtl), r, l)
    {
      SetByRight(r, Some(l));
    }

    /**
     * `remove(byLeft:)`: when `l` is present, returns its right value and
     * deletes the pair from both maps; when absent, returns nil and changes
     * nothing.
     */
    method RemoveByLeft(l: L) returns (r: Option<R>)
      requires Valid()
      modifies this
      ensures Valid()
      ensures r == Get(old(ltr), l)
      ensures r.Some? ==> ltr == old(ltr) - {l} && rtl == old(rtl) - {r.value}
      ensures r.None? ==> ltr == old(ltr) && rtl == old(rtl)
    {
      RemoveLeftPreservesBijection(ltr, rtl, l);
      var rightValue := RemoveForward(l);
      if rightValue.None? {
        return None;
      }
      var _ := RemoveReverse(rightValue.value);
      return rightValue;
    }

    /**
     * `remove(byRight:)`: when `r` is present, returns its left value and
     * deletes the pair from both maps; when absent, returns nil and changes
     * nothing.
     */
    method RemoveByRight(r: R) returns (l: Option<L>)
      requires Valid()
      modifies this
      ensures Valid()
      ensures l == Get(old(rtl), r)
      ensures l.Some? ==> rtl == old(rtl) - {r} && ltr == old(ltr) - {l.value}
      ensures l.None? ==> ltr == old(ltr) && rtl == old(rtl)
    {
      RemoveLeftPreservesBijection(rtl, ltr, r);
      var leftValue := RemoveReverse(r);
      if leftValue.None? {
        return None;
      }
      var _ := RemoveForward(leftValue.value);
      return leftValue;
    }

    /** `removeAll(keepingCapacity:)`: both maps become empty (the flag only concerns storage). */
    method RemoveAll(keepingCapacity: bool)
      modifies this
      ensures Valid() && ltr == map[] && rtl == map[]
    {
      ltr := map[];
      rtl := map[];
    }
  }

  /**
   * `Dictionary(_:)` after `init?(_:)`: converting a dictionary to a
   * bijective dictionary and back succeeds exactly when its values are
   * distinct, and then gives back the same dictionary.
   */
  method DictionaryRoundTrip<L(==), R(==)>(dictionary: map<L, R>) returns (back: Option<map<L, R>>)
    ensures back.Some? <==> Injective(dictionary)
    ensures back.Some? ==> back.value == dictionary
  {
    var bijective := BijectiveDictionary.FromDictionary(dictionary);
    if bijective.None? {
      return None;
    }
    return Some(bijective.value.ToDictionary());
  }

  /** `init?(_:)` on ["A":1, "B":2, "C":1] is nil: A and C share the right value 1. */
  method FromDictionaryRejectsExample() returns (result: Option<BijectiveDictionary<char, int>>)
    ensures result.None?
  {
    var dictionary := map['A' := 1, 'B' := 2, 'C' := 1];
    result := BijectiveDictionary.FromDictionary(dictionary);
    assert dictionary['A'] == dictionary['C'];
  }
}
