/** Merkle roots of transaction sets (`MerkleRootCompute.cpp`). */
module MerkleRoot {
  import opened Transactions

  /** SHA-512 of two concatenated blobs; nothing is assumed of it. */
  type NodeHash = (Hash, Hash) -> Hash

  /** The two operands hashed for the `j`-th parent; an odd last element is paired with itself. */
  function PairAt(s: seq<Hash>, j: nat): (Hash, Hash)
    requires 2 * j < |s|
  {
    (s[2 * j], if 2 * j + 1 < |s| then s[2 * j + 1] else s[2 * j])
  }

  function Pairs(s: seq<Hash>): (r: seq<(Hash, Hash)>)
    ensures |r| == (|s| + 1) / 2
  {
    seq((|s| + 1) / 2, j requires 0 <= j < (|s| + 1) / 2 => PairAt(s, j))
  }

  /** The parents of one level of the tree. */
  function Parents(h: NodeHash, s: seq<Hash>): (r: seq<Hash>)
    ensures |r| == (|s| + 1) / 2
  {
    seq((|s| + 1) / 2, j requires 0 <= j < (|s| + 1) / 2 => h(PairAt(s, j).0, PairAt(s, j).1))
  }

  /** The root, level by level. */
  function Root(h: NodeHash, empty: Hash, s: seq<Hash>): Hash
    decreases |s|
  {
    if |s| == 0 then empty
    else if |s| == 1 then s[0]
    else Root(h, empty, Parents(h, s))
  }

  /** The in-place loop: the vector is extended, overwritten from the front and cut in half. */
  method ComputeMerkleRoot(h: NodeHash, empty: Hash, leafs: seq<Hash>) returns (root: Hash)
    ensures root == Root(h, empty, leafs)
  {
    if |leafs| == 0 {
      return empty;
    }
    var v := leafs;
    while |v| > 1
      invariant |v| >= 1 && Root(h, empty, v) == Root(h, empty, leafs)
      decreases |v|
    {
      ghost var level := v;
      if |v| % 2 == 1 {
        v := v + [v[|v| - 1]];
      }
      ghost var whole := v;
      var i, j := 0, 0;
      while i < |v|
        invariant i == 2 * j && 0 <= i <= |v| == |whole| && j <= |Parents(h, level)|
        invariant forall k :: 0 <= k < j ==> v[k] == Parents(h, level)[k]
        invariant forall k :: i <= k < |v| ==> v[k] == whole[k]
      {
        assert PairAt(level, j) == (v[i], v[i + 1]);
        v := v[j := h(v[i], v[i + 1])];
        i, j := i + 2, j + 1;
      }
      v := v[..|v| / 2];
      assert v == Parents(h, level);
    }
    return v[0];
  }

  /** `ComputeTxSetMerkleRoot`: the root over the ids of the set, in iteration order. */
  function TxSetId(h: NodeHash, empty: Hash, s: seq<Tx>): Hash {
    Root(h, empty, Ids(s))
  }

  method ComputeTxSetMerkleRoot(h: NodeHash, empty: Hash, txSet: TransactionSet) returns (root: Hash)
    ensures root == TxSetId(h, empty, txSet)
  {
    var txHashes: seq<Hash> := [];
    for i := 0 to |txSet|
      invariant txHashes == Ids(txSet)[..i]
    {
      txHashes := txHashes + [txSet[i].id];
    }
    assert txHashes == Ids(txSet);
    root := ComputeMerkleRoot(h, empty, txHashes);
  }

  // ---- The shape of the tree ----

  function PowerOfTwo(k: nat): (n: nat)
    ensures n > 0
  {
    if k == 0 then 1 else 2 * PowerOfTwo(k - 1)
  }

  lemma HalvesOfParents(h: NodeHash, a: seq<Hash>, b: seq<Hash>)
    requires |a| == |b| && |a| % 2 == 0
    ensures Parents(h, a + b) == Parents(h, a) + Parents(h, b)
  {
    forall j | 0 <= j < |a| ensures PairAt(a + b, j) == if j < |a| / 2 then PairAt(a, j) else PairAt(b, j - |a| / 2) {
    }
  }

  lemma RootOfTwo(h: NodeHash, empty: Hash, x: Hash, y: Hash)
    ensures Root(h, empty, [x, y]) == h(x, y)
  {
    var s := [x, y];
    assert PairAt(s, 0) == (x, y);
    assert |Parents(h, s)| == 1 && Parents(h, s)[0] == h(x, y);
  }

  /** Over two halves of equal length, a power of two, the root is the hash of the left root followed by the
      right. */
  lemma {:induction false} RootOfHalves(h: NodeHash, empty: Hash, a: seq<Hash>, b: seq<Hash>, k: nat)
    requires |a| == |b| == PowerOfTwo(k)
    ensures Root(h, empty, a + b) == h(Root(h, empty, a), Root(h, empty, b))
    decreases k
  {
    if k == 0 {
      RootOfTwo(h, empty, a[0], b[0]);
      assert a == [a[0]] && b == [b[0]] && a + b == [a[0], b[0]];
    } else {
      HalvesOfParents(h, a, b);
      RootOfHalves(h, empty, Parents(h, a), Parents(h, b), k - 1);
    }
  }

  /** An odd level goes on as if its last element were there twice. */
  lemma OddLevel(h: NodeHash, empty: Hash, s: seq<Hash>)
    requires |s| > 1 && |s| % 2 == 1
    ensures Root(h, empty, s) == Root(h, empty, Parents(h, s[..|s| - 1]) + [h(s[|s| - 1], s[|s| - 1])])
  {
    var n, even := |s| - 1, s[..|s| - 1];
    forall j | 0 <= j < n / 2 ensures PairAt(s, j) == PairAt(even, j) {
    }
    assert PairAt(s, n / 2) == (s[n], s[n]);
    assert Parents(h, s) == Parents(h, even) + [h(s[n], s[n])];
  }

  // ---- When the root determines the leaves ----

  predicate Distinct<T(==)>(s: seq<T>) {
    forall i, j :: 0 <= i < j < |s| ==> s[i] != s[j]
  }

  /** Every pair of operands hashed on the way to the root. */
  function Hashed(h: NodeHash, s: seq<Hash>): set<(Hash, Hash)>
    decreases |s|
  {
    if |s| <= 1 then {}
    else (set p | p in Pairs(s)) + Hashed(h, Parents(h, s))
  }

  /** The hash failed on what was hashed for the roots of `a` and `b`: two inputs with one output, or an output
      that is the hash of the empty string. */
  ghost predicate Collision(h: NodeHash, empty: Hash, a: seq<Hash>, b: seq<Hash>) {
    var ps := Hashed(h, a) + Hashed(h, b);
    || (exists p, q :: p in ps && q in ps && p != q && h(p.0, p.1) == h(q.0, q.1))
    || (exists p :: p in ps && h(p.0, p.1) == empty)
  }

  /** A leaf equals one of those outputs or the hash of the empty string. For leaves that are not hashes
      themselves this takes no failure of the hash: whoever chooses a leaf can choose it so. */
  ghost predicate LeafClash(h: NodeHash, empty: Hash, a: seq<Hash>, b: seq<Hash>) {
    var ps := Hashed(h, a) + Hashed(h, b);
    || (exists p :: p in ps && (h(p.0, p.1) in a || h(p.0, p.1) in b))
    || empty in a || empty in b
  }

  ghost predicate InjectiveOn(h: NodeHash, ps: set<(Hash, Hash)>) {
    forall p, q :: p in ps && q in ps && h(p.0, p.1) == h(q.0, q.1) ==> p == q
  }

  /** Every pair hashed on the first `m` levels above `a` is in `ps`. */
  ghost predicate Within(h: NodeHash, a: seq<Hash>, m: nat, ps: set<(Hash, Hash)>) {
    forall i, p :: 0 <= i < m && p in Pairs(Level(h, a, i)) ==> p in ps
  }

  /** The list after `k` levels. */
  function Level(h: NodeHash, s: seq<Hash>, k: nat): seq<Hash> {
    if k == 0 then s else Parents(h, Level(h, s, k - 1))
  }

  lemma {:induction false} LevelShift(h: NodeHash, s: seq<Hash>, k: nat)
    ensures Level(h, Parents(h, s), k) == Level(h, s, k + 1)
  {
    if k > 0 {
      LevelShift(h, s, k - 1);
    }
  }

  /** The root is reached after some number of levels, all of them hashing counted pairs only. */
  lemma {:induction false} RootLevel(h: NodeHash, empty: Hash, s: seq<Hash>) returns (k: nat)
    requires |s| >= 1
    ensures Level(h, s, k) == [Root(h, empty, s)]
    ensures k == 0 <==> |s| == 1
    ensures forall i :: 0 <= i < k ==> |Level(h, s, i)| > 1
    ensures Within(h, s, k, Hashed(h, s))
    decreases |s|
  {
    if |s| == 1 {
      k := 0;
    } else {
      var k' := RootLevel(h, empty, Parents(h, s));
      k := k' + 1;
      LevelShift(h, s, k');
      forall i | 0 < i < k
        ensures |Level(h, s, i)| > 1 && forall p :: p in Pairs(Level(h, s, i)) ==> p in Hashed(h, s)
      {
        LevelShift(h, s, i - 1);
      }
    }
  }

  /** Hashing a level loses nothing: neither distinctness nor, between two levels, identity. */
  lemma ParentsDistinct(h: NodeHash, a: seq<Hash>, ps: set<(Hash, Hash)>)
    requires Distinct(a) && InjectiveOn(h, ps) && forall p :: p in Pairs(a) ==> p in ps
    ensures Distinct(Parents(h, a))
  {
    forall i, j | 0 <= i < j < |Parents(h, a)|
      ensures Parents(h, a)[i] != Parents(h, a)[j]
    {
      assert Pairs(a)[i].0 == a[2 * i] && Pairs(a)[j].0 == a[2 * j];
      assert Pairs(a)[i] in Pairs(a) && Pairs(a)[j] in Pairs(a);
    }
  }

  lemma ParentsInjective(h: NodeHash, a: seq<Hash>, b: seq<Hash>, ps: set<(Hash, Hash)>)
    requires Distinct(a) && Distinct(b) && InjectiveOn(h, ps)
    requires forall p :: p in Pairs(a) || p in Pairs(b) ==> p in ps
    requires Parents(h, a) == Parents(h, b)
    ensures a == b
  {
    var n := |Parents(h, a)|;
    forall j | 0 <= j < n ensures PairAt(a, j) == PairAt(b, j) {
      assert Pairs(a)[j] in Pairs(a) && Pairs(b)[j] in Pairs(b);
      assert Parents(h, a)[j] == Parents(h, b)[j];
    }
    SamePairs(a, b);
  }

  lemma SamePairs(a: seq<Hash>, b: seq<Hash>)
    requires Distinct(a) && Distinct(b) && (|a| + 1) / 2 == (|b| + 1) / 2
    requires forall j :: 0 <= j < (|a| + 1) / 2 ==> PairAt(a, j) == PairAt(b, j)
    ensures a == b
  {
    var n := (|a| + 1) / 2;
    if n > 0 {
      assert PairAt(a, n - 1) == PairAt(b, n - 1);
    }
    assert |a| == |b|;
    forall i | 0 <= i < |a| ensures a[i] == b[i] {
      assert PairAt(a, i / 2) == PairAt(b, i / 2);
      assert i == 2 * (i / 2) || i == 2 * (i / 2) + 1;
    }
  }

  /** Two towers meeting at heights `m <= n` already met `m` levels below. */
  lemma {:induction false} Descend(h: NodeHash, a: seq<Hash>, m: nat, b: seq<Hash>, n: nat, ps: set<(Hash, Hash)>)
    requires m <= n && Level(h, a, m) == Level(h, b, n)
    requires Distinct(a) && Distinct(b) && InjectiveOn(h, ps)
    requires Within(h, a, m, ps) && Within(h, b, n, ps)
    ensures a == Level(h, b, n - m)
  {
    if m > 0 {
      LevelDistinct(h, a, m - 1, ps);
      LevelDistinct(h, b, n - 1, ps);
      ParentsInjective(h, Level(h, a, m - 1), Level(h, b, n - 1), ps);
      Descend(h, a, m - 1, b, n - 1, ps);
    }
  }

  lemma {:induction false} LevelDistinct(h: NodeHash, a: seq<Hash>, m: nat, ps: set<(Hash, Hash)>)
    requires Distinct(a) && InjectiveOn(h, ps) && Within(h, a, m, ps)
    ensures Distinct(Level(h, a, m))
  {
    if m > 0 {
      LevelDistinct(h, a, m - 1, ps);
      ParentsDistinct(h, Level(h, a, m - 1), ps);
    }
  }

  /** A leaf list whose tree is lower cannot equal an inner level of the other tree. */
  lemma NotAnInnerLevel(h: NodeHash, a: seq<Hash>, b: seq<Hash>, d: nat)
    requires a == Level(h, b, d) && d > 0 && |a| >= 1
    ensures exists p :: p in Pairs(Level(h, b, d - 1)) && h(p.0, p.1) in a
  {
    var p := Pairs(Level(h, b, d - 1))[0];
    assert p in Pairs(Level(h, b, d - 1));
    assert h(p.0, p.1) == a[0];
  }

  /** The case of a tree at least as high as the other. */
  lemma EqualRootsOrdered(h: NodeHash, empty: Hash, a: seq<Hash>, m: nat, b: seq<Hash>, n: nat)
    requires Distinct(a) && Distinct(b) && |a| >= 1 && m <= n
    requires Level(h, a, m) == Level(h, b, n)
    requires Within(h, a, m, Hashed(h, a)) && Within(h, b, n, Hashed(h, b))
    ensures a == b || Collision(h, empty, a, b) || LeafClash(h, empty, a, b)
  {
    if !Collision(h, empty, a, b) && !LeafClash(h, empty, a, b) {
      Descend(h, a, m, b, n, Hashed(h, a) + Hashed(h, b));
      if m < n {
        NotAnInnerLevel(h, a, b, n - m);
      }
    }
  }

  /** Equal roots over duplicate-free lists: the lists are equal, or the hash failed, or a leaf is an inner hash. */
  lemma EqualRoots(h: NodeHash, empty: Hash, a: seq<Hash>, b: seq<Hash>)
    requires Distinct(a) && Distinct(b)
    requires Root(h, empty, a) == Root(h, empty, b)
    ensures a == b || Collision(h, empty, a, b) || LeafClash(h, empty, a, b)
  {
    if a == [] || b == [] {
      if a != [] { EmptyRoot(h, empty, a); }
      if b != [] { EmptyRoot(h, empty, b); }
    } else {
      var m := RootLevel(h, empty, a);
      var n := RootLevel(h, empty, b);
      if m <= n {
        EqualRootsOrdered(h, empty, a, m, b, n);
      } else {
        EqualRootsOrdered(h, empty, b, n, a, m);
        assert Hashed(h, a) + Hashed(h, b) == Hashed(h, b) + Hashed(h, a);
      }
    }
  }

  lemma EmptyRoot(h: NodeHash, empty: Hash, s: seq<Hash>)
    requires s != [] && Root(h, empty, s) == empty
    ensures empty in s || exists p :: p in Hashed(h, s) && h(p.0, p.1) == empty
  {
    var k := RootLevel(h, empty, s);
    if k > 0 {
      var p := Pairs(Level(h, s, k - 1))[0];
      assert p in Pairs(Level(h, s, k - 1));
      assert h(p.0, p.1) == Level(h, s, k)[0];
    } else {
      assert s[0] == Level(h, s, 0)[0];
    }
  }

  /** Why duplicate-free lists: repeating the last leaf of an odd list never changes the root. */
  lemma RepeatedLastLeaf(h: NodeHash, empty: Hash, s: seq<Hash>)
    requires |s| % 2 == 1 && |s| > 1
    ensures Root(h, empty, s + [s[|s| - 1]]) == Root(h, empty, s)
  {
    var t := s + [s[|s| - 1]];
    forall j | 0 <= j < |Parents(h, s)| ensures PairAt(t, j) == PairAt(s, j) {
      assert 2 * j + 1 < |t|;
    }
    assert Parents(h, t) == Parents(h, s);
  }

  /** Among sets with distinct ids, the set id determines the list of transaction ids, unless the hash failed
      or an id is an inner hash; and it determines the set exactly when no transaction id stands for two
      transactions. Only the first is a matter of the hash: an id is whatever its sender wrote. */
  lemma TxSetIdInjective(h: NodeHash, empty: Hash, a: TransactionSet, b: TransactionSet)
    requires DistinctIds(a) && DistinctIds(b) && TxSetId(h, empty, a) == TxSetId(h, empty, b)
    ensures Ids(a) == Ids(b) || Collision(h, empty, Ids(a), Ids(b)) || LeafClash(h, empty, Ids(a), Ids(b))
    ensures Ids(a) == Ids(b) ==> (a == b <==> OneTxPerId(a, b))
  {
    assert Distinct(Ids(a)) && Distinct(Ids(b));
    EqualRoots(h, empty, Ids(a), Ids(b));
    if Ids(a) == Ids(b) {
      SameIdsSameSet(a, b);
    }
  }

  lemma SameIdsSameSet(a: TransactionSet, b: TransactionSet)
    requires DistinctIds(a) && Ids(a) == Ids(b)
    ensures a == b <==> OneTxPerId(a, b)
  {
    assert |a| == |Ids(a)| == |b|;
    if OneTxPerId(a, b) {
      forall i | 0 <= i < |a| ensures a[i] == b[i] {
        assert Ids(a)[i] == Ids(b)[i];
        assert a[i] in a && b[i] in b;
      }
    }
  }
}
