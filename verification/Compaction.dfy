/** Positions of set bits, and the byte table that compacts eight lanes at a time
    (`idxlut`: the set bits of the index, ascending, padded with zeros). */
module Compaction {

  /** The positions of the set bits, ascending. */
  function Ones(p: seq<bool>): (r: seq<int>)
    ensures |r| <= |p|
    ensures forall x :: x in r ==> 0 <= x < |p| && p[x]
  {
    if p == [] then []
    else
      var n := |p| - 1;
      Ones(p[..n]) + if p[n] then [n] else []
  }

  function Shift(s: seq<int>, d: int): (r: seq<int>)
    ensures |r| == |s| && forall i :: 0 <= i < |s| ==> r[i] == s[i] + d
  {
    seq(|s|, i requires 0 <= i < |s| => s[i] + d)
  }

  predicate Ascending(s: seq<int>) {
    forall i :: 0 < i < |s| ==> s[i - 1] < s[i]
  }

  /** The indicator of a list of positions below `n`. */
  function Marks(s: seq<int>, n: nat): (p: seq<bool>)
    ensures |p| == n && forall i :: 0 <= i < n ==> (p[i] <==> i in s)
  {
    seq(n, i requires 0 <= i < n => i in s)
  }

  lemma OnesSnoc(p: seq<bool>, b: bool)
    ensures Ones(p + [b]) == Ones(p) + if b then [|p|] else []
  {
    assert (p + [b])[..|p|] == p;
  }

  lemma {:induction false} OnesAscend(p: seq<bool>)
    ensures Ascending(Ones(p))
  {
    if p != [] {
      OnesAscend(p[..|p| - 1]);
      var r := Ones(p[..|p| - 1]);
      if r != [] {
        assert r[|r| - 1] in r;
      }
    }
  }

  lemma {:induction false} OnesComplete(p: seq<bool>, x: int)
    requires 0 <= x < |p| && p[x]
    ensures x in Ones(p)
  {
    if x < |p| - 1 {
      OnesComplete(p[..|p| - 1], x);
    }
  }

  /** Listing the set bits and marking them again is the identity. */
  lemma MarksOfOnes(p: seq<bool>)
    ensures Marks(Ones(p), |p|) == p
  {
    forall i | 0 <= i < |p| ensures Marks(Ones(p), |p|)[i] == p[i] {
      if p[i] { OnesComplete(p, i); }
    }
  }

  lemma {:induction false} AscendingApart(s: seq<int>, i: nat, j: nat)
    requires Ascending(s) && i < j < |s|
    ensures s[i] < s[j]
  {
    if i + 1 < j {
      AscendingApart(s, i, j - 1);
    }
  }

  /** The last element of an ascending list is its largest, and the rest lie below it. */
  lemma LastIsLargest(s: seq<int>)
    requires Ascending(s) && s != []
    ensures forall x :: x in s <==> x in s[..|s| - 1] || x == s[|s| - 1]
    ensures forall i :: 0 <= i < |s| - 1 ==> s[i] < s[|s| - 1]
  {
    var m := |s| - 1;
    assert s == s[..m] + [s[m]];
    forall i | 0 <= i < m ensures s[i] < s[m] {
      AscendingApart(s, i, m);
    }
  }

  /** An ascending list is determined by its members. */
  lemma {:induction false} AscendingUnique(a: seq<int>, b: seq<int>)
    requires Ascending(a) && Ascending(b) && forall x :: x in a <==> x in b
    ensures a == b
  {
    assert a == [] <==> b == [] by {
      if a != [] { assert a[0] in a && a[0] in b; }
      if b != [] { assert b[0] in b && b[0] in a; }
    }
    if a != [] {
      var m, n := |a| - 1, |b| - 1;
      LastIsLargest(a);
      LastIsLargest(b);
      assert a[m] in a && b[n] in b;
      assert a[m] == b[n];
      forall x: int ensures x in a[..m] <==> x in b[..n] {
        assert x in a <==> x in b;
        assert x in a[..m] <==> x in a && x != a[m];
        assert x in b[..n] <==> x in b && x != b[n];
      }
      AscendingUnique(a[..m], b[..n]);
      assert a == a[..m] + [a[m]] && b == b[..n] + [b[n]];
    }
  }

  /** `s` lists the set bits of `p`, ascending. */
  ghost predicate Lists(s: seq<int>, p: seq<bool>) {
    Ascending(s) && forall x :: x in s <==> 0 <= x < |p| && p[x]
  }

  /** There is one such list. */
  lemma OnesIsTheList(s: seq<int>, p: seq<bool>)
    ensures Lists(s, p) <==> s == Ones(p)
  {
    OnesAscend(p);
    forall x: int | 0 <= x < |p| && p[x] ensures x in Ones(p) {
      OnesComplete(p, x);
    }
    if Lists(s, p) {
      AscendingUnique(s, Ones(p));
    }
  }

  lemma InShift(s: seq<int>, d: int, x: int)
    ensures x in Shift(s, d) <==> x - d in s
  {
    if x - d in s {
      var i :| 0 <= i < |s| && s[i] == x - d;
      assert Shift(s, d)[i] == x;
    }
  }

  /** The set bits of two rows in a row. */
  lemma OnesConcat(a: seq<bool>, b: seq<bool>)
    ensures Ones(a + b) == Ones(a) + Shift(Ones(b), |a|)
  {
    var oa, ob := Ones(a), Ones(b);
    var s := oa + Shift(ob, |a|);
    OnesIsTheList(oa, a);
    OnesIsTheList(ob, b);
    forall x: int ensures x in s <==> 0 <= x < |a + b| && (a + b)[x] {
      InShift(ob, |a|, x);
      assert x in s <==> x in oa || x in Shift(ob, |a|);
    }
    forall i | 0 < i < |s| ensures s[i - 1] < s[i] {
      if i == |oa| {
        assert oa[i - 1] in oa && ob[0] in ob;
      }
    }
    OnesIsTheList(s, a + b);
  }

  /** Marking an ascending list and listing the marks is the identity. */
  lemma OnesOfMarks(s: seq<int>, n: nat)
    requires Ascending(s) && forall x :: x in s ==> 0 <= x < n
    ensures Ones(Marks(s, n)) == s
  {
    OnesAscend(Marks(s, n));
    forall x | x in s ensures x in Ones(Marks(s, n)) {
      OnesComplete(Marks(s, n), x);
    }
    AscendingUnique(Ones(Marks(s, n)), s);
  }

  /** The table row for eight lane flags: the set positions, padded with zeros to eight entries. */
  function Lut(flags: seq<bool>): (row: seq<int>)
    requires |flags| == 8
    ensures |row| == 8 && forall k :: 0 <= k < 8 ==> 0 <= row[k] < 8
    ensures row[..|Ones(flags)|] == Ones(flags)
  {
    assert forall k :: 0 <= k < |Ones(flags)| ==> Ones(flags)[k] in Ones(flags);
    Ones(flags) + seq(8 - |Ones(flags)|, _ => 0)
  }

  lemma ShiftTake(s: seq<int>, k: nat, d: int)
    requires k <= |s|
    ensures Shift(s, d)[..k] == Shift(s[..k], d)
  {
  }

  /** Storing the shifted table row after the positions found so far extends them by eight lanes. */
  lemma CompactStep(before: seq<bool>, flags: seq<bool>)
    requires |flags| == 8
    ensures Ones(before) + Shift(Lut(flags), |before|)[..|Ones(flags)|] == Ones(before + flags)
  {
    OnesConcat(before, flags);
    ShiftTake(Lut(flags), |Ones(flags)|, |before|);
  }

  /** An unaligned store of eight lanes. */
  method StoreEight(a: array<int>, n: int, lanes: seq<int>)
    requires |lanes| == 8 && 0 <= n <= a.Length - 8
    modifies a
    ensures a[..n] == old(a[..n]) && a[n..n + 8] == lanes
  {
    for k := 0 to 8
      invariant a[..n] == old(a[..n]) && a[n..n + k] == lanes[..k]
    {
      a[n + k] := lanes[k];
      assert a[n..n + k + 1] == a[n..n + k] + [lanes[k]];
    }
  }
}
