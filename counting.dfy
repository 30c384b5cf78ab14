/** Counting the entries of a store that satisfy a condition, and how the
    count moves when one entry is inserted, replaced or deleted. */
module Counting {

  /** The keys of `m` whose value satisfies `p`. */
  function KeysWhere<V>(m: map<nat, V>, p: V -> bool): (ks: set<nat>)
  {
    set k | k in m && p(m[k])
  }

  /** The number of entries of `m` whose value satisfies `p`. */
  function CountWhere<V>(m: map<nat, V>, p: V -> bool): (n: nat)
  {
    |KeysWhere(m, p)|
  }

  function Indicator(b: bool): (n: nat)
  {
    if b then 1 else 0
  }

  /** Inserting a new key adds one to the count exactly when its value counts. */
  lemma CountInsert<V>(m: map<nat, V>, k: nat, v: V, p: V -> bool)
    requires k !in m
    ensures CountWhere(m[k := v], p) == CountWhere(m, p) + Indicator(p(v))
  {
    var before, after := KeysWhere(m, p), KeysWhere(m[k := v], p);
    if p(v) {
      assert after == before + {k};
    } else {
      assert after == before;
    }
  }

  /** Deleting a key takes one off the count exactly when its value counted. */
  lemma CountRemove<V>(m: map<nat, V>, k: nat, p: V -> bool)
    requires k in m
    ensures CountWhere(m - {k}, p) + Indicator(p(m[k])) == CountWhere(m, p)
  {
    var before, after := KeysWhere(m, p), KeysWhere(m - {k}, p);
    if p(m[k]) {
      assert before == after + {k};
    } else {
      assert after == before;
    }
  }

  /** Replacing the value at a key moves the count by the difference of the
      old and the new value's indicators. */
  lemma CountReplace<V>(m: map<nat, V>, k: nat, v: V, p: V -> bool)
    requires k in m
    ensures CountWhere(m[k := v], p) + Indicator(p(m[k])) == CountWhere(m, p) + Indicator(p(v))
  {
    var rest := m - {k};
    assert m[k := v] == rest[k := v];
    CountRemove(m, k, p);
    CountInsert(rest, k, v, p);
  }

  /** Deleting keys none of whose values count leaves the count unchanged. */
  lemma CountRemoveNone<V>(m: map<nat, V>, ks: set<nat>, p: V -> bool)
    requires forall k :: k in ks && k in m ==> !p(m[k])
    ensures CountWhere(m - ks, p) == CountWhere(m, p)
  {
    assert KeysWhere(m - ks, p) == KeysWhere(m, p);
  }

  /** Taking a subset out of a finite set leaves the difference in size. */
  lemma CardRemoveSubset(a: set<nat>, b: set<nat>)
    requires b <= a
    ensures |a - b| + |b| == |a|
  {
    assert a == (a - b) + b && (a - b) !! b;
  }
}
