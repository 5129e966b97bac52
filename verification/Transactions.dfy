/** Transactions and the ordered transaction set (`std::set` under `TransactionPtrOrder`). */
module Transactions {

  type Uint32 = n: int | 0 <= n < 0x1_0000_0000

  /** A 512-bit blob, read as a number: `memcmp` order is numeric order on big-endian bytes.
      Only equality, order and the null value are ever used. */
  type Hash = int

  const NULL_HASH: Hash := 0

  datatype Tx = Tx(id: Hash, sender: Hash, receiver: Hash, seqNo: Uint32, amount: Uint32)

  datatype Key = Key(sender: Hash, seqNo: Uint32)

  function KeyOf(t: Tx): Key {
    Key(t.sender, t.seqNo)
  }

  /** `TransactionPtrOrder`: by sender, then by sequence number. The id plays no part. */
  predicate Before(a: Tx, b: Tx) {
    if a.sender == b.sender then a.seqNo < b.seqNo else a.sender < b.sender
  }

  predicate Sorted(s: seq<Tx>) {
    forall i, j :: 0 <= i < j < |s| ==> Before(s[i], s[j])
  }

  /** The contents of a `TransactionSet`, in iteration order. */
  type TransactionSet = s: seq<Tx> | Sorted(s) witness []

  /** `set.find(t) != set.end()`: elements are identified by key, not by id. */
  predicate Holds(s: seq<Tx>, t: Tx) {
    exists i :: 0 <= i < |s| && KeyOf(s[i]) == KeyOf(t)
  }

  function Ids(s: seq<Tx>): (r: seq<Hash>)
    ensures |r| == |s| && forall i :: 0 <= i < |s| ==> r[i] == s[i].id
  {
    seq(|s|, i requires 0 <= i < |s| => s[i].id)
  }

  /** `set.insert(t)`: no effect when an element with the same key is present. */
  function Insert(s: TransactionSet, t: Tx): (r: TransactionSet)
    ensures Holds(s, t) ==> r == s
    ensures !Holds(s, t) ==> |r| == |s| + 1 && forall x :: x in r <==> x in s || x == t
  {
    if s == [] then [t]
    else if Before(t, s[0]) then [t] + s
    else if KeyOf(t) == KeyOf(s[0]) then s
    else
      assert s == [s[0]] + s[1..];
      assert Holds(s, t) <==> Holds(s[1..], t);
      var r := Insert(s[1..], t);
      assert forall x :: x in r ==> Before(s[0], x);
      [s[0]] + r
  }

  /** `set.erase(t)`: removes the element with the key of `t`, if there is one. */
  function Erase(s: TransactionSet, t: Tx): (r: TransactionSet)
    ensures forall x :: x in r <==> x in s && KeyOf(x) != KeyOf(t)
    ensures |r| == if Holds(s, t) then |s| - 1 else |s|
  {
    if s == [] then []
    else if KeyOf(s[0]) == KeyOf(t) then
      assert s == [s[0]] + s[1..];
      s[1..]
    else
      var r := Erase(s[1..], t);
      assert s == [s[0]] + s[1..];
      assert Holds(s[1..], t) <==> Holds(s, t);
      [s[0]] + r
  }

  /** `std::set_symmetric_difference`: one merging pass over two sets in key order. */
  function SymmetricDifference(a: TransactionSet, b: TransactionSet): (r: seq<Tx>)
    ensures forall t :: t in r <==> (t in a && !Holds(b, t)) || (t in b && !Holds(a, t))
  {
    if a == [] then b
    else if b == [] then a
    else
      assert a == [a[0]] + a[1..] && b == [b[0]] + b[1..];
      if Before(a[0], b[0]) then
        assert forall t :: Holds(a, t) <==> KeyOf(t) == KeyOf(a[0]) || Holds(a[1..], t);
        [a[0]] + SymmetricDifference(a[1..], b)
      else if Before(b[0], a[0]) then
        assert forall t :: Holds(b, t) <==> KeyOf(t) == KeyOf(b[0]) || Holds(b[1..], t);
        [b[0]] + SymmetricDifference(a, b[1..])
      else
        assert forall t :: Holds(a, t) <==> KeyOf(t) == KeyOf(a[0]) || Holds(a[1..], t);
        assert forall t :: Holds(b, t) <==> KeyOf(t) == KeyOf(b[0]) || Holds(b[1..], t);
        SymmetricDifference(a[1..], b[1..])
  }

  predicate Subset(a: seq<Tx>, b: seq<Tx>) {
    forall t :: t in a ==> t in b
  }

  /** No two of the transactions carry one id. */
  predicate DistinctIds(s: seq<Tx>) {
    forall i, j :: 0 <= i < j < |s| ==> s[i].id != s[j].id
  }

  /** No id stands for one transaction in `a` and another in `b`. */
  predicate OneTxPerId(a: seq<Tx>, b: seq<Tx>) {
    forall t, u :: t in a && u in b && t.id == u.id ==> t == u
  }

  /** A set drawn from transactions with distinct ids has distinct ids. */
  lemma DrawnFrom(a: TransactionSet, b: seq<Tx>)
    requires Subset(a, b) && DistinctIds(b)
    ensures DistinctIds(a)
  {
    forall i, j | 0 <= i < j < |a| ensures a[i].id != a[j].id {
      assert Before(a[i], a[j]) && a[i] in b && a[j] in b;
    }
  }

  /** A set is determined by its elements. */
  lemma {:induction false} SameElements(a: TransactionSet, b: TransactionSet)
    requires Subset(a, b) && Subset(b, a)
    ensures a == b
  {
    assert a == [] <==> b == [] by {
      if a != [] { assert a[0] in b; }
      if b != [] { assert b[0] in a; }
    }
    if a != [] {
      assert a[0] in b && b[0] in a;
      assert a[0] == b[0];
      assert a == [a[0]] + a[1..] && b == [b[0]] + b[1..];
      forall t | t in a[1..] ensures t in b[1..] {
        assert t in a && t in b && t != a[0];
      }
      forall t | t in b[1..] ensures t in a[1..] {
        assert t in b && t in a && t != b[0];
      }
      SameElements(a[1..], b[1..]);
    }
  }
}
