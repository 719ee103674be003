/** Sums of integer weights over finite sets of keys, as the ledgers' SUM queries compute them. */
module FiniteSums {

  ghost function Total<K(!new)>(keys: set<K>, weight: K -> int): int
  {
    if keys == {} then 0
    else
      var k :| k in keys;
      weight(k) + Total(keys - {k}, weight)
  }

  lemma {:induction false} TotalRemove<K(!new)>(keys: set<K>, weight: K -> int, k: K)
    requires k in keys
    ensures Total(keys, weight) == weight(k) + Total(keys - {k}, weight)
  {
    var j :| j in keys && Total(keys, weight) == weight(j) + Total(keys - {j}, weight);
    if j != k {
      TotalRemove(keys - {j}, weight, k);
      TotalRemove(keys - {k}, weight, j);
      assert keys - {j} - {k} == keys - {k} - {j};
    }
  }

  lemma {:induction false} TotalSame<K(!new)>(keys: set<K>, v: K -> int, w: K -> int)
    requires forall k | k in keys :: v(k) == w(k)
    ensures Total(keys, v) == Total(keys, w)
  {
    if keys != {} {
      var k :| k in keys;
      TotalRemove(keys, v, k);
      TotalRemove(keys, w, k);
      TotalSame(keys - {k}, v, w);
    }
  }

  /** One key changes its weight. */
  lemma TotalUpdate<K(!new)>(keys: set<K>, v: K -> int, w: K -> int, k: K)
    requires k in keys
    requires forall j | j in keys && j != k :: v(j) == w(j)
    ensures Total(keys, w) == Total(keys, v) - v(k) + w(k)
  {
    TotalRemove(keys, v, k);
    TotalRemove(keys, w, k);
    TotalSame(keys - {k}, v, w);
  }

  /** One key is new. */
  lemma TotalInsert<K(!new)>(keys: set<K>, v: K -> int, w: K -> int, k: K)
    requires k !in keys
    requires forall j | j in keys :: v(j) == w(j)
    ensures Total(keys + {k}, w) == Total(keys, v) + w(k)
  {
    TotalRemove(keys + {k}, w, k);
    assert keys + {k} - {k} == keys;
    TotalSame(keys, v, w);
  }

  lemma {:induction false} TotalNonnegative<K(!new)>(keys: set<K>, weight: K -> int)
    requires forall k | k in keys :: weight(k) >= 0
    ensures Total(keys, weight) >= 0
  {
    if keys != {} {
      var k :| k in keys;
      TotalRemove(keys, weight, k);
      TotalNonnegative(keys - {k}, weight);
    }
  }

  lemma TotalAtLeast<K(!new)>(keys: set<K>, weight: K -> int, k: K)
    requires k in keys && forall j | j in keys :: weight(j) >= 0
    ensures weight(k) <= Total(keys, weight)
  {
    TotalRemove(keys, weight, k);
    TotalNonnegative(keys - {k}, weight);
  }

  lemma {:induction false} TotalZero<K(!new)>(keys: set<K>, weight: K -> int)
    requires forall k | k in keys :: weight(k) == 0
    ensures Total(keys, weight) == 0
  {
    if keys != {} {
      var k :| k in keys;
      TotalRemove(keys, weight, k);
      TotalZero(keys - {k}, weight);
    }
  }

  /** Keys without weight add nothing. */
  lemma {:induction false} TotalExtend<K(!new)>(keys: set<K>, more: set<K>, weight: K -> int)
    requires forall k | k in more && k !in keys :: weight(k) == 0
    ensures Total(keys + more, weight) == Total(keys, weight)
    decreases more
  {
    if more == {} {
      assert keys + more == keys;
    } else {
      var k :| k in more;
      TotalExtend(keys, more - {k}, weight);
      if k in keys {
        assert keys + more == keys + (more - {k});
      } else {
        TotalRemove(keys + more, weight, k);
        assert keys + more - {k} == keys + (more - {k});
      }
    }
  }

  lemma {:induction false} TotalPlus<K(!new)>(keys: set<K>, u: K -> int, v: K -> int, w: K -> int)
    requires forall k | k in keys :: w(k) == u(k) + v(k)
    ensures Total(keys, w) == Total(keys, u) + Total(keys, v)
  {
    if keys != {} {
      var k :| k in keys;
      TotalRemove(keys, u, k);
      TotalRemove(keys, v, k);
      TotalRemove(keys, w, k);
      TotalPlus(keys - {k}, u, v, w);
    }
  }

  /** The weight of the keys of one group. */
  function InGroup<K, G(==)>(weight: K -> int, group: K -> G, g: G): K -> int {
    k => if group(k) == g then weight(k) else 0
  }

  ghost function GroupTotals<K(!new), G(!new)>(keys: set<K>, weight: K -> int, group: K -> G): G -> int {
    g => Total(keys, InGroup(weight, group, g))
  }

  /** Grouping loses nothing: the sum over all groups of their totals is the whole total. */
  lemma {:induction false} TotalByGroup<K(!new), G(!new)>(keys: set<K>, weight: K -> int, group: K -> G, groups: set<G>)
    requires forall k | k in keys :: group(k) in groups
    ensures Total(groups, GroupTotals(keys, weight, group)) == Total(keys, weight)
  {
    var totals := GroupTotals(keys, weight, group);
    if keys == {} {
      TotalZero(groups, totals);
    } else {
      var k :| k in keys;
      var rest := keys - {k};
      var restTotals := GroupTotals(rest, weight, group);
      TotalByGroup(rest, weight, group, groups);
      TotalRemove(keys, weight, k);
      forall g | g in groups
        ensures totals(g) == restTotals(g) + if g == group(k) then weight(k) else 0
      {
        TotalRemove(keys, InGroup(weight, group, g), k);
      }
      TotalUpdate(groups, restTotals, totals, group(k));
    }
  }
}
