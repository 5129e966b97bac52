/** Walking an unordered container: every key once, in an order nobody promises. */
module HashTables {

  /** `order` walks the keys of a hash table: each once, in some order. */
  ghost predicate Walks<T>(order: seq<T>, keys: set<T>) {
    (forall i, j :: 0 <= i < j < |order| ==> order[i] != order[j]) && (set k | k in order) == keys
  }

  lemma WalkMeets<T>(order: seq<T>, keys: set<T>, k: T)
    requires Walks(order, keys)
    ensures k in order <==> k in keys
  {
    assert k in (set x | x in order) <==> k in order;
  }

  /** The next key of a walk: any that is left. */
  method Pick<T(==)>(todo: set<T>) returns (k: T)
    requires todo != {}
    ensures k in todo
  {
    k :| k in todo;
  }

  lemma SomeMember<T>(s: set<T>) returns (k: T)
    requires s != {}
    ensures k in s
  {
    k :| k in s;
  }

  lemma SameMap<K, V>(a: map<K, V>, b: map<K, V>)
    requires a.Keys == b.Keys && forall k :: k in a ==> a[k] == b[k]
    ensures a == b
  {
  }

  lemma SubsetSize<T>(a: set<T>, b: set<T>)
    requires a <= b
    ensures |a| <= |b| && (|a| == |b| ==> a == b)
  {
    assert b == a + (b - a);
  }

  lemma WalkOn<T>(order: seq<T>, keys: set<T>, todo: set<T>, k: T)
    requires Walks(order, keys - todo) && k in todo && todo <= keys
    ensures Walks(order + [k], keys - (todo - {k}))
    ensures (order + [k])[..|order|] == order
  {
    assert k !in order;
    assert (set x | x in order + [k]) == (set x | x in order) + {k};
    assert keys - (todo - {k}) == (keys - todo) + {k};
  }

  /** Every table can be walked. */
  lemma SomeWalk<T>(keys: set<T>) returns (order: seq<T>)
    ensures Walks(order, keys)
    decreases |keys|
  {
    if keys == {} {
      order := [];
    } else {
      var k := SomeMember(keys);
      var rest := SomeWalk(keys - {k});
      WalkOn(rest, keys, {k}, k);
      assert keys - ({k} - {k}) == keys;
      order := rest + [k];
    }
  }
}
