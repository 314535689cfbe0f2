/**
 * The bijection invariant that the dictionary's debug-build consistency check
 * asserts after every mutation: the forward map (left to right) and the
 * reverse map (right to left) have the same number of entries, and every
 * entry of each map is mirrored by the other.
 */
module Invariant {

  /** No two keys of `m` share a value. */
  ghost predicate Injective<K, V>(m: map<K, V>) {
    forall a, b | a in m && b in m && a != b :: m[a] != m[b]
  }

  /** Every forward entry (l, r) has reverse[r] == l and every reverse entry (r, l) has forward[l] == r. */
  ghost predicate Mirrored<L, R>(ltr: map<L, R>, rtl: map<R, L>) {
    && (forall l | l in ltr :: ltr[l] in rtl && rtl[ltr[l]] == l)
    && (forall r | r in rtl :: rtl[r] in ltr && ltr[rtl[r]] == r)
  }

  /** The whole consistency check: equal counts and both mirror conditions. */
  ghost predicate IsBijection<L, R>(ltr: map<L, R>, rtl: map<R, L>) {
    |ltr| == |rtl| && Mirrored(ltr, rtl)
  }

  /** A map without shared values has as many distinct values as keys. */
  lemma {:induction false} InjectiveCardinality<K, V>(m: map<K, V>)
    requires Injective(m)
    ensures |m.Values| == |m|
    decreases |m|
  {
    if m == map[] {
      assert m.Values == {};
    } else {
      var k :| k in m;
      var rest := m - {k};
      assert rest.Values == m.Values - {m[k]} by {
        forall v | v in m.Values ensures v in rest.Values || v == m[k] {
          var k' :| k' in m && m[k'] == v;
          if k' != k { assert rest[k'] == v; }
        }
      }
      InjectiveCardinality(rest);
    }
  }

  /**
   * The two mirror conditions on their own already make the forward map
   * injective, make its values exactly the reverse map's keys, and so force
   * the equal counts that the check asserts separately.
   */
  lemma MirroredIsBijection<L, R>(ltr: map<L, R>, rtl: map<R, L>)
    requires Mirrored(ltr, rtl)
    ensures Injective(ltr) && Injective(rtl)
    ensures ltr.Values == rtl.Keys && rtl.Values == ltr.Keys
    ensures IsBijection(ltr, rtl)
  {
    assert Injective(ltr);
    assert ltr.Values == rtl.Keys;
    InjectiveCardinality(ltr);
  }

  /** The forward map determines the reverse map: two reverse maps that both mirror it are equal. */
  lemma ReverseIsDetermined<L, R>(ltr: map<L, R>, rtl: map<R, L>, rtl': map<R, L>)
    requires Mirrored(ltr, rtl) && Mirrored(ltr, rtl')
    ensures rtl == rtl'
  {
    assert rtl.Keys == rtl'.Keys;
  }

  /** Adding a pair whose left and right values are both fresh keeps the bijection. */
  lemma ExtendBijection<L, R>(ltr: map<L, R>, rtl: map<R, L>, l: L, r: R)
    requires IsBijection(ltr, rtl) && l !in ltr && r !in rtl
    ensures IsBijection(ltr[l := r], rtl[r := l])
    ensures |ltr[l := r]| == |ltr| + 1
  {
    var ltr', rtl' := ltr[l := r], rtl[r := l];
    forall x | x in ltr' ensures ltr'[x] in rtl' && rtl'[ltr'[x]] == x {
      if x != l { assert ltr[x] in rtl && ltr[x] != r; }
    }
    forall y | y in rtl' ensures rtl'[y] in ltr' && ltr'[rtl'[y]] == y {
      if y != r { assert rtl[y] in ltr && rtl[y] != l; }
    }
    MirroredIsBijection(ltr', rtl');
  }
}
