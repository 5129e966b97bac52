/** The byte format of blocks and proposals (Serialize.hpp, Transaction.cpp, Block.cpp, Proposal.cpp). */
module Wire {
  import opened Streams
  import opened Wrappers

  // ---- Fields ----

  /** 32-bit and 64-bit integers, little-endian, and 512-bit blobs, read as big-endian numbers so that
      `memcmp` order is the order of numbers. Signed integers are taken as their bit patterns. */
  datatype Kind = U32 | U64 | Blob

  function Width(k: Kind): nat {
    match k
    case U32 => 4
    case U64 => 8
    case Blob => 64
  }

  /** 256 to the power `w`. */
  function Limit(w: nat): nat {
    if w == 0 then 1 else 256 * Limit(w - 1)
  }

  function Little(n: nat, w: nat): (b: seq<Byte>)
    ensures |b| == w
  {
    if w == 0 then [] else [n % 256] + Little(n / 256, w - 1)
  }

  function Reverse<T>(s: seq<T>): (r: seq<T>)
    ensures |r| == |s| && forall i :: 0 <= i < |s| ==> r[i] == s[|s| - 1 - i]
  {
    seq(|s|, i requires 0 <= i < |s| => s[|s| - 1 - i])
  }

  function Put(k: Kind, n: nat): (b: seq<Byte>)
    ensures |b| == Width(k)
  {
    if k == Blob then Reverse(Little(n, Width(k))) else Little(n, Width(k))
  }

  function Get(k: Kind, b: seq<Byte>): nat
    requires |b| == Width(k)
  {
    Load(if k == Blob then Reverse(b) else b)
  }

  lemma {:induction false} LoadLittle(n: nat, w: nat)
    requires n < Limit(w)
    ensures Load(Little(n, w)) == n
  {
    if w > 0 {
      LoadLittle(n / 256, w - 1);
      assert Little(n, w)[1..] == Little(n / 256, w - 1);
    }
  }

  lemma Digit(b: Byte, n: nat)
    ensures (b + 256 * n) % 256 == b && (b + 256 * n) / 256 == n
  {
  }

  lemma {:induction false} LittleLoad(b: seq<Byte>)
    ensures Load(b) < Limit(|b|) && Little(Load(b), |b|) == b
  {
    if b != [] {
      LittleLoad(b[1..]);
      Digit(b[0], Load(b[1..]));
      assert Little(Load(b), |b|) == [b[0]] + b[1..];
    }
  }

  lemma ReverseTwice<T>(s: seq<T>)
    ensures Reverse(Reverse(s)) == s
  {
  }

  lemma GetPut(k: Kind, n: nat)
    requires n < Limit(Width(k))
    ensures Get(k, Put(k, n)) == n
  {
    LoadLittle(n, Width(k));
    ReverseTwice(Little(n, Width(k)));
  }

  lemma PutGet(k: Kind, b: seq<Byte>)
    requires |b| == Width(k)
    ensures Get(k, b) < Limit(Width(k)) && Put(k, Get(k, b)) == b
  {
    LittleLoad(b);
    LittleLoad(Reverse(b));
    ReverseTwice(b);
  }

  // ---- Records ----

  function Size(layout: seq<Kind>): nat {
    if layout == [] then 0 else Width(layout[0]) + Size(layout[1..])
  }

  predicate InRange(layout: seq<Kind>, values: seq<nat>) {
    |values| == |layout| && forall i :: 0 <= i < |layout| ==> values[i] < Limit(Width(layout[i]))
  }

  /** Fields one after the other: `serializeField` calls. */
  function PutAll(layout: seq<Kind>, values: seq<nat>): (b: seq<Byte>)
    requires |values| == |layout|
    ensures |b| == Size(layout)
  {
    if layout == [] then [] else Put(layout[0], values[0]) + PutAll(layout[1..], values[1..])
  }

  /** `deserializeField` calls. */
  function GetAll(layout: seq<Kind>, b: seq<Byte>): (values: seq<nat>)
    requires |b| >= Size(layout)
    ensures |values| == |layout|
  {
    if layout == [] then []
    else
      var w := Width(layout[0]);
      [Get(layout[0], b[..w])] + GetAll(layout[1..], b[w..])
  }

  lemma Cut<T>(a: seq<T>, b: seq<T>, c: seq<T>)
    ensures a + b + c == a + (b + c)
    ensures (a + b + c)[..|a|] == a && (a + b + c)[|a|..] == b + c
    ensures (a + b + c)[|a|..|a| + |b|] == b
  {
  }

  lemma Join<T>(s: seq<T>, i: nat, k: nat)
    requires i + k <= |s|
    ensures s[..i] + s[i..i + k] == s[..i + k] && s[i..][..k] == s[i..i + k] && s[i..][k..] == s[i + k..]
  {
  }

  lemma {:induction false} GetAllPutAll(layout: seq<Kind>, values: seq<nat>, rest: seq<Byte>)
    requires InRange(layout, values)
    ensures GetAll(layout, PutAll(layout, values) + rest) == values
  {
    if layout != [] {
      var first, more := Put(layout[0], values[0]), PutAll(layout[1..], values[1..]);
      var b := PutAll(layout, values) + rest;
      Cut(first, more, rest);
      assert b[..|first|] == first && b[|first|..] == more + rest;
      GetPut(layout[0], values[0]);
      GetAllPutAll(layout[1..], values[1..], rest);
      assert GetAll(layout, b) == [values[0]] + values[1..];
    }
  }

  lemma {:induction false} PutAllGetAll(layout: seq<Kind>, b: seq<Byte>)
    requires |b| >= Size(layout)
    ensures InRange(layout, GetAll(layout, b)) && PutAll(layout, GetAll(layout, b)) == b[..Size(layout)]
  {
    if layout != [] {
      var w := Width(layout[0]);
      PutGet(layout[0], b[..w]);
      PutAllGetAll(layout[1..], b[w..]);
      assert GetAll(layout, b)[1..] == GetAll(layout[1..], b[w..]);
      Join(b, w, Size(layout[1..]));
    }
  }

  // ---- Records with a signature ----

  /** Fixed fields, the last of which is the size of the signature that follows. */
  datatype Record = Record(fields: seq<nat>, signature: seq<Byte>)

  function SignatureSize(layout: seq<Kind>, r: Record): nat
    requires layout != [] && |r.fields| == |layout|
  {
    r.fields[|layout| - 1]
  }

  /** Every field fits its C++ type, and there are as many signature bytes as it says. */
  predicate Writable(layout: seq<Kind>, r: Record) {
    layout != [] && InRange(layout, r.fields) && |r.signature| >= SignatureSize(layout, r)
  }

  /** And no more. */
  predicate RecordOk(layout: seq<Kind>, r: Record) {
    Writable(layout, r) && |r.signature| == SignatureSize(layout, r)
  }

  function RecordSize(layout: seq<Kind>, r: Record): nat
    requires layout != [] && |r.fields| == |layout|
  {
    Size(layout) + SignatureSize(layout, r)
  }

  /** Its bytes; nothing stands for a record that cannot be written. */
  function Encode(layout: seq<Kind>, r: Record): (b: seq<Byte>)
    ensures Writable(layout, r) ==> |b| == RecordSize(layout, r)
  {
    if Writable(layout, r) then PutAll(layout, r.fields) + r.signature[..SignatureSize(layout, r)] else []
  }

  /** A record off the front of the bytes, if they are enough. */
  function Decode(layout: seq<Kind>, b: seq<Byte>): (o: Option<Record>)
    requires layout != []
    ensures o.Some? ==> |o.value.fields| == |layout| && RecordSize(layout, o.value) <= |b|
    ensures o.Some? ==> |o.value.signature| == SignatureSize(layout, o.value)
  {
    var n := Size(layout);
    if |b| < n then None
    else
      var fields := GetAll(layout, b);
      var size := fields[|layout| - 1];
      if |b| - n < size then None else Some(Record(fields, b[n..n + size]))
  }

  /** Reading back what was written, whatever follows it. */
  lemma DecodeEncode(layout: seq<Kind>, r: Record, rest: seq<Byte>)
    requires RecordOk(layout, r)
    ensures Decode(layout, Encode(layout, r) + rest) == Some(r)
  {
    var fields, b := PutAll(layout, r.fields), Encode(layout, r) + rest;
    assert r.signature[..|r.signature|] == r.signature;
    Cut(fields, r.signature, rest);
    GetAllPutAll(layout, r.fields, r.signature + rest);
    assert GetAll(layout, b) == r.fields && b[|fields|..|fields| + |r.signature|] == r.signature;
  }

  lemma EncodeFrom(layout: seq<Kind>, r: Record, b: seq<Byte>, n: nat, k: nat)
    requires Writable(layout, r) && k == SignatureSize(layout, r) && n + k <= |b|
    requires PutAll(layout, r.fields) == b[..n] && r.signature == b[n..n + k]
    ensures Encode(layout, r) == b[..n + k]
  {
    assert r.signature[..k] == r.signature;
    Join(b, n, k);
  }

  /** Writing back what was read gives the bytes read. */
  lemma EncodeDecode(layout: seq<Kind>, b: seq<Byte>)
    requires layout != [] && Decode(layout, b).Some?
    ensures RecordOk(layout, Decode(layout, b).value)
    ensures Encode(layout, Decode(layout, b).value) == b[..RecordSize(layout, Decode(layout, b).value)]
  {
    var r := Decode(layout, b).value;
    PutAllGetAll(layout, b);
    EncodeFrom(layout, r, b, Size(layout), SignatureSize(layout, r));
  }

  // ---- Transaction lists ----

  predicate AllOk(layout: seq<Kind>, txs: seq<Record>) {
    forall i :: 0 <= i < |txs| ==> RecordOk(layout, txs[i])
  }

  function EncodeTxs(layout: seq<Kind>, txs: seq<Record>): seq<Byte> {
    if txs == [] then [] else Encode(layout, txs[0]) + EncodeTxs(layout, txs[1..])
  }

  lemma EncodeOne(layout: seq<Kind>, t: Record)
    ensures EncodeTxs(layout, [t]) == Encode(layout, t)
  {
    assert [t][1..] == [];
    assert Encode(layout, t) + [] == Encode(layout, t);
  }

  lemma {:induction false} EncodeSnoc(layout: seq<Kind>, txs: seq<Record>, t: Record)
    ensures EncodeTxs(layout, txs + [t]) == EncodeTxs(layout, txs) + Encode(layout, t)
  {
    if txs == [] {
      assert txs + [t] == [t];
      EncodeOne(layout, t);
      assert [] + Encode(layout, t) == Encode(layout, t);
    } else {
      var s, rest := txs + [t], txs[1..];
      assert s[1..] == rest + [t] && s[0] == txs[0];
      EncodeSnoc(layout, rest, t);
      Cut(Encode(layout, txs[0]), EncodeTxs(layout, rest), Encode(layout, t));
    }
  }

  /** `count` transactions off the front. */
  function DecodeTxs(layout: seq<Kind>, count: nat, b: seq<Byte>): (o: Option<seq<Record>>)
    requires layout != []
    ensures o.Some? ==> |o.value| == count
  {
    if count == 0 then Some([])
    else
      match Decode(layout, b)
      case None => None
      case Some(t) =>
        match DecodeTxs(layout, count - 1, b[RecordSize(layout, t)..])
        case None => None
        case Some(more) => Some([t] + more)
  }

  lemma DecodeCons(layout: seq<Kind>, n: nat, b: seq<Byte>, t: Record, tail: seq<Byte>, more: seq<Record>)
    requires layout != [] && Decode(layout, b) == Some(t) && tail == b[RecordSize(layout, t)..]
    requires DecodeTxs(layout, n, tail) == Some(more)
    ensures DecodeTxs(layout, n + 1, b) == Some([t] + more)
  {
  }

  lemma {:induction false} DecodeEncodeTxs(layout: seq<Kind>, txs: seq<Record>, rest: seq<Byte>)
    requires layout != [] && AllOk(layout, txs)
    ensures DecodeTxs(layout, |txs|, EncodeTxs(layout, txs) + rest) == Some(txs)
  {
    if txs != [] {
      var first, more := Encode(layout, txs[0]), EncodeTxs(layout, txs[1..]);
      var b := EncodeTxs(layout, txs) + rest;
      Cut(first, more, rest);
      assert b == first + (more + rest) && b[|first|..] == more + rest;
      DecodeEncode(layout, txs[0], more + rest);
      DecodeEncodeTxs(layout, txs[1..], rest);
      DecodeCons(layout, |txs| - 1, b, txs[0], more + rest, txs[1..]);
      assert txs == [txs[0]] + txs[1..];
    }
  }

  lemma EncodeCons(layout: seq<Kind>, t: Record, more: seq<Record>, all: seq<Record>)
    requires RecordOk(layout, t) && AllOk(layout, more) && all == [t] + more
    ensures AllOk(layout, all) && EncodeTxs(layout, all) == Encode(layout, t) + EncodeTxs(layout, more)
  {
    assert all[1..] == more;
  }

  /** `t` is written at the front of `b`, and `tail` is what follows it. */
  ghost predicate Front(layout: seq<Kind>, b: seq<Byte>, t: Record, tail: seq<Byte>) {
    RecordOk(layout, t) && b == Encode(layout, t) + tail
  }

  /** `b` starts with the transactions `all`. */
  ghost predicate Starts(layout: seq<Kind>, b: seq<Byte>, all: seq<Record>) {
    AllOk(layout, all) && EncodeTxs(layout, all) <= b
  }

  lemma StartsWithNothing(layout: seq<Kind>, b: seq<Byte>, all: seq<Record>)
    ensures |all| == 0 ==> Starts(layout, b, all)
  {
    if all == [] {
      assert EncodeTxs(layout, all) == [];
    }
  }

  lemma PrefixOn<T>(front: seq<T>, a: seq<T>, b: seq<T>)
    requires a <= b
    ensures front + a <= front + b
  {
    assert front + b == front + a + b[|a|..];
  }

  lemma EncodeStep(layout: seq<Kind>, t: Record, b: seq<Byte>, tail: seq<Byte>, more: seq<Record>, all: seq<Record>)
    ensures Front(layout, b, t, tail) && Starts(layout, tail, more) && all == [t] + more ==> Starts(layout, b, all)
  {
    if Front(layout, b, t, tail) && Starts(layout, tail, more) && all == [t] + more {
      EncodeCons(layout, t, more, all);
      PrefixOn(Encode(layout, t), EncodeTxs(layout, more), tail);
    }
  }

  lemma DecodeFront(layout: seq<Kind>, b: seq<Byte>, t: Record) returns (tail: seq<Byte>)
    requires layout != [] && Decode(layout, b) == Some(t)
    ensures tail == b[RecordSize(layout, t)..] && Front(layout, b, t, tail)
  {
    var k := RecordSize(layout, t);
    tail := b[k..];
    EncodeDecode(layout, b);
    assert b == b[..k] + b[k..];
  }

  lemma DecodeUncons(layout: seq<Kind>, count: nat, b: seq<Byte>, all: seq<Record>)
      returns (t: Record, tail: seq<Byte>, more: seq<Record>)
    requires layout != [] && count > 0 && DecodeTxs(layout, count, b) == Some(all)
    ensures Front(layout, b, t, tail) && DecodeTxs(layout, count - 1, tail) == Some(more) && all == [t] + more
  {
    t := Decode(layout, b).value;
    tail := DecodeFront(layout, b, t);
    more := DecodeTxs(layout, count - 1, tail).value;
  }

  /** What was read was written as those transactions, and nothing else. */
  lemma {:induction false} EncodeDecodeTxs(layout: seq<Kind>, count: nat, b: seq<Byte>, all: seq<Record>)
    requires layout != [] && DecodeTxs(layout, count, b) == Some(all)
    ensures Starts(layout, b, all)
    decreases count
  {
    if count == 0 {
      StartsWithNothing(layout, b, all);
    } else {
      var t, tail, more := DecodeUncons(layout, count, b, all);
      EncodeDecodeTxs(layout, count - 1, tail, more);
      EncodeStep(layout, t, b, tail, more, all);
    }
  }

  /** Fewer transactions off the same bytes are a prefix. */
  lemma {:induction false} DecodePrefix(layout: seq<Kind>, m: nat, n: nat, b: seq<Byte>)
    requires layout != [] && m <= n && DecodeTxs(layout, n, b).Some?
    ensures DecodeTxs(layout, m, b) == Some(DecodeTxs(layout, n, b).value[..m])
  {
    if m > 0 {
      var t := Decode(layout, b).value;
      DecodePrefix(layout, m - 1, n - 1, b[RecordSize(layout, t)..]);
      var more := DecodeTxs(layout, n - 1, b[RecordSize(layout, t)..]).value;
      assert ([t] + more)[..m] == [t] + more[..m - 1];
    }
  }

  lemma {:induction false} LongerListsAreLonger(layout: seq<Kind>, txs: seq<Record>, m: nat)
    requires layout != [] && m < |txs| && AllOk(layout, txs)
    ensures |EncodeTxs(layout, txs[..m])| < |EncodeTxs(layout, txs)|
  {
    assert Size(layout) > 0;
    if m > 0 {
      assert txs[..m][1..] == txs[1..][..m - 1] && txs[..m][0] == txs[0];
      LongerListsAreLonger(layout, txs[1..], m - 1);
    } else {
      assert |Encode(layout, txs[0])| > 0;
    }
  }

  // ---- The ordered set ----

  /** The place of the sender and of the sequence number among a transaction's fields. */
  const SEQUENCE := 1
  const SENDER := 4

  function Field(t: Record, k: nat): nat {
    if k < |t.fields| then t.fields[k] else 0
  }

  /** `TransactionPtrOrder` */
  predicate Before(a: Record, b: Record) {
    if Field(a, SENDER) == Field(b, SENDER) then Field(a, SEQUENCE) < Field(b, SEQUENCE)
    else Field(a, SENDER) < Field(b, SENDER)
  }

  predicate Ascending(txs: seq<Record>) {
    forall i, j :: 0 <= i < j < |txs| ==> Before(txs[i], txs[j])
  }

  /** `set.insert`: at its place, or nowhere when the key is taken. */
  function Insert(txs: seq<Record>, t: Record): (r: seq<Record>)
    ensures |r| <= |txs| + 1 && forall x :: x in r ==> x in txs || x == t
  {
    if txs == [] then [t]
    else if Before(t, txs[0]) then [t] + txs
    else if Before(txs[0], t) then
      var r := Insert(txs[1..], t);
      [txs[0]] + r
    else txs
  }

  /** The transactions inserted one by one. */
  function Collect(list: seq<Record>): (r: seq<Record>)
    ensures |r| <= |list| && forall x :: x in r ==> x in list
  {
    if list == [] then [] else Insert(Collect(list[..|list| - 1]), list[|list| - 1])
  }

  lemma {:induction false} InsertOk(layout: seq<Kind>, txs: seq<Record>, t: Record)
    requires AllOk(layout, txs) && RecordOk(layout, t)
    ensures AllOk(layout, Insert(txs, t))
  {
    if txs != [] {
      InsertOk(layout, txs[1..], t);
    }
  }

  lemma {:induction false} CollectOk(layout: seq<Kind>, list: seq<Record>)
    requires AllOk(layout, list)
    ensures AllOk(layout, Collect(list))
  {
    if list != [] {
      CollectOk(layout, list[..|list| - 1]);
      InsertOk(layout, Collect(list[..|list| - 1]), list[|list| - 1]);
    }
  }

  lemma {:induction false} InsertLast(txs: seq<Record>, t: Record)
    requires Ascending(txs + [t])
    ensures Insert(txs, t) == txs + [t]
  {
    if txs != [] {
      var s := txs + [t];
      assert Before(s[0], s[|txs|]);
      assert s[1..] == txs[1..] + [t];
      InsertLast(txs[1..], t);
      assert txs + [t] == [txs[0]] + (txs[1..] + [t]);
    }
  }

  lemma {:induction false} InsertKeepsOrder(txs: seq<Record>, t: Record)
    requires Ascending(txs)
    ensures Ascending(Insert(txs, t))
  {
    if txs != [] && !Before(t, txs[0]) && Before(txs[0], t) {
      InsertKeepsOrder(txs[1..], t);
      var r := Insert(txs[1..], t);
      forall x | x in r ensures Before(txs[0], x) {
        if x != t {
          var i :| 0 <= i < |txs[1..]| && txs[1..][i] == x;
          assert Before(txs[0], txs[i + 1]);
        }
      }
    }
  }

  predicate SameKey(a: Record, b: Record) {
    Field(a, SENDER) == Field(b, SENDER) && Field(a, SEQUENCE) == Field(b, SEQUENCE)
  }

  predicate Taken(txs: seq<Record>, t: Record) {
    exists i :: 0 <= i < |txs| && SameKey(txs[i], t)
  }

  /** The transactions stay, and the new one joins them unless its key is taken. */
  lemma {:induction false} InsertAdds(txs: seq<Record>, t: Record)
    requires Ascending(txs)
    ensures forall x :: x in Insert(txs, t) <==> x in txs || (x == t && !Taken(txs, t))
  {
    if txs != [] {
      var more := txs[1..];
      assert txs == [txs[0]] + more;
      assert Taken(txs, t) <==> SameKey(txs[0], t) || Taken(more, t) by {
        if k :| 0 <= k < |more| && SameKey(more[k], t) { assert SameKey(txs[k + 1], t); }
        if k :| 0 < k < |txs| && SameKey(txs[k], t) { assert SameKey(more[k - 1], t); }
      }
      if Before(t, txs[0]) {
        assert forall k :: 0 < k < |txs| ==> Before(txs[0], txs[k]);
      } else if Before(txs[0], t) {
        InsertAdds(more, t);
      }
    }
  }

  /** `x` stands in the list, and nothing with its key stands before it. */
  predicate IsFirst(list: seq<Record>, x: Record) {
    exists k :: 0 <= k < |list| && list[k] == x && !Taken(list[..k], x)
  }

  /** Read one by one into the set, exactly the first transaction of every key is there. */
  lemma {:induction false} CollectKeepsFirst(list: seq<Record>)
    ensures Ascending(Collect(list)) && forall x :: x in Collect(list) <==> IsFirst(list, x)
  {
    CollectIsOrdered(list);
    if list != [] {
      var n := |list| - 1;
      var t, most := list[n], list[..n];
      CollectKeepsFirst(most);
      CollectIsOrdered(most);
      InsertAdds(Collect(most), t);
      CollectTakes(most, t);
      forall x ensures x in Collect(list) <==> IsFirst(list, x) {
        FirstSnoc(most, t, x);
        assert list == most + [t];
      }
    }
  }

  lemma FirstSnoc(list: seq<Record>, t: Record, x: Record)
    ensures IsFirst(list + [t], x) <==> IsFirst(list, x) || (x == t && !Taken(list, t))
  {
    var more := list + [t];
    assert forall k :: 0 <= k <= |list| ==> more[..k] == list[..k];
    assert list[..|list|] == list && more[|list|] == t;
  }

  /** The keys in the list are the keys in the set. */
  lemma CollectTakes(list: seq<Record>, t: Record)
    requires forall x :: x in Collect(list) <==> IsFirst(list, x)
    ensures Taken(Collect(list), t) <==> Taken(list, t)
  {
    var c := Collect(list);
    if Taken(c, t) {
      var i :| 0 <= i < |c| && SameKey(c[i], t);
      assert c[i] in list;
    }
    if Taken(list, t) {
      var k := FirstOf(list, t);
      assert IsFirst(list, list[k]) by {
        assert !Taken(list[..k], list[k]);
      }
      assert list[k] in c;
    }
  }

  /** The first of them with `t`'s key. */
  lemma FirstOf(list: seq<Record>, t: Record) returns (k: nat)
    requires Taken(list, t)
    ensures k < |list| && SameKey(list[k], t) && !Taken(list[..k], list[k])
  {
    k := 0;
    while !SameKey(list[k], t)
      invariant k < |list| && forall i :: 0 <= i < k ==> !SameKey(list[i], t)
      decreases |list| - k
    {
      k := k + 1;
    }
  }

  lemma CollectSnoc(list: seq<Record>, t: Record)
    ensures Collect(list + [t]) == Insert(Collect(list), t)
  {
    assert (list + [t])[..|list|] == list;
  }

  lemma {:induction false} CollectIsOrdered(list: seq<Record>)
    ensures Ascending(Collect(list))
  {
    if list != [] {
      CollectIsOrdered(list[..|list| - 1]);
      InsertKeepsOrder(Collect(list[..|list| - 1]), list[|list| - 1]);
    }
  }

  lemma {:induction false} CollectOrdered(list: seq<Record>)
    requires Ascending(list)
    ensures Collect(list) == list
  {
    if list != [] {
      var n := |list| - 1;
      CollectOrdered(list[..n]);
      assert list[..n] + [list[n]] == list;
      InsertLast(list[..n], list[n]);
    }
  }

  // ---- Block bodies ----

  datatype Body = Body(count: nat, txs: seq<Record>)

  /** The count is the size of the set, and the set is one. */
  predicate BodyOk(layout: seq<Kind>, body: Body) {
    && layout != [] && body.count == |body.txs| < Limit(Width(U32))
    && Ascending(body.txs) && AllOk(layout, body.txs)
  }

  function EncodeBody(layout: seq<Kind>, body: Body): seq<Byte> {
    Put(U32, body.count) + EncodeTxs(layout, body.txs)
  }

  /** The transactions as they stand in the bytes of a body. */
  function Listed(layout: seq<Kind>, b: seq<Byte>): Option<seq<Record>>
    requires layout != []
  {
    var w := Width(U32);
    if |b| < w then None else DecodeTxs(layout, Get(U32, b[..w]), b[w..])
  }

  /** Bytes used up: the count and the listed transactions. */
  function Used(layout: seq<Kind>, list: seq<Record>): nat {
    Width(U32) + |EncodeTxs(layout, list)|
  }

  function DecodeBody(layout: seq<Kind>, b: seq<Byte>): Option<Body>
    requires layout != []
  {
    match Listed(layout, b)
    case None => None
    case Some(list) => Some(Body(|list|, Collect(list)))
  }

  /** A well-formed body survives the trip. */
  lemma DecodeEncodeBody(layout: seq<Kind>, body: Body, rest: seq<Byte>)
    requires BodyOk(layout, body)
    ensures DecodeBody(layout, EncodeBody(layout, body) + rest) == Some(body)
    ensures Listed(layout, EncodeBody(layout, body) + rest) == Some(body.txs)
  {
    Cut(Put(U32, body.count), EncodeTxs(layout, body.txs), rest);
    GetPut(U32, body.count);
    DecodeEncodeTxs(layout, body.txs, rest);
    CollectOrdered(body.txs);
  }

  lemma SameBytesSameList(layout: seq<Kind>, list: seq<Record>, other: seq<Record>)
    requires layout != [] && |other| <= |list|
    requires AllOk(layout, list)
    requires AllOk(layout, other)
    requires EncodeTxs(layout, other) == EncodeTxs(layout, list)
    ensures other == list
  {
    var b := EncodeTxs(layout, list);
    assert b + [] == b;
    DecodeEncodeTxs(layout, list, []);
    DecodeEncodeTxs(layout, other, []);
    DecodePrefix(layout, |other|, |list|, b);
    assert list[..|list|] == list;
    if |other| < |list| {
      LongerListsAreLonger(layout, list, |other|);
    }
  }

  /** Bytes that decode are written back as they were exactly when their transactions came in ascending
      order of keys, none twice: the set sorts and drops duplicates. */
  lemma WrittenBackIff(layout: seq<Kind>, b: seq<Byte>)
    requires layout != [] && DecodeBody(layout, b).Some?
    ensures AllOk(layout, Listed(layout, b).value) && AllOk(layout, DecodeBody(layout, b).value.txs)
    ensures Used(layout, Listed(layout, b).value) <= |b|
    ensures EncodeBody(layout, DecodeBody(layout, b).value) == b[..Used(layout, Listed(layout, b).value)]
       <==> Ascending(Listed(layout, b).value)
  {
    var w := Width(U32);
    var list := Listed(layout, b).value;
    EncodeDecodeTxs(layout, Get(U32, b[..w]), b[w..], list);
    PutGet(U32, b[..w]);
    CollectOk(layout, list);
    var e, back := EncodeTxs(layout, list), EncodeTxs(layout, Collect(list));
    assert e == b[w..][..|e|];
    Join(b, w, |e|);
    if Ascending(list) {
      CollectOrdered(list);
    } else if Put(U32, |list|) + back == b[..w] + e {
      Cut(Put(U32, |list|), back, []);
      Cut(b[..w], e, []);
      assert back == e;
      SameBytesSameList(layout, list, Collect(list));
      CollectIsOrdered(list);
      assert false;
    }
  }

  // ---- Blocks and proposals ----

  const TX_LAYOUT: seq<Kind> := [U32, U32, U32, U64, Blob, Blob, Blob, U32]
  const HEADER_LAYOUT: seq<Kind> := [U32, U32, U32, Blob, Blob, Blob]
  const PROPOSAL_LAYOUT: seq<Kind> := [U32, U32, U64, Blob, Blob, Blob, U32]

  datatype Block = Block(header: seq<nat>, body: Body)

  function EncodeBlock(block: Block): seq<Byte>
    requires |block.header| == |HEADER_LAYOUT|
  {
    PutAll(HEADER_LAYOUT, block.header) + EncodeBody(TX_LAYOUT, block.body)
  }

  function DecodeBlock(b: seq<Byte>): Option<Block> {
    var n := Size(HEADER_LAYOUT);
    if |b| < n then None
    else
      match DecodeBody(TX_LAYOUT, b[n..])
      case None => None
      case Some(body) => Some(Block(GetAll(HEADER_LAYOUT, b), body))
  }

  /** How far reading a block moves the offset. */
  function BlockUsed(b: seq<Byte>): nat
    requires DecodeBlock(b).Some?
  {
    Size(HEADER_LAYOUT) + Used(TX_LAYOUT, Listed(TX_LAYOUT, b[Size(HEADER_LAYOUT)..]).value)
  }

  /** `BlockHeader` and `BlockBody` one after the other, with anything behind them. */
  lemma BlockRoundTrip(block: Block, rest: seq<Byte>)
    requires InRange(HEADER_LAYOUT, block.header) && BodyOk(TX_LAYOUT, block.body)
    ensures DecodeBlock(EncodeBlock(block) + rest) == Some(block)
    ensures BlockUsed(EncodeBlock(block) + rest) == |EncodeBlock(block)|
  {
    Cut(PutAll(HEADER_LAYOUT, block.header), EncodeBody(TX_LAYOUT, block.body), rest);
    GetAllPutAll(HEADER_LAYOUT, block.header, EncodeBody(TX_LAYOUT, block.body) + rest);
    DecodeEncodeBody(TX_LAYOUT, block.body, rest);
  }

  /** A `TxSetProposal`: its fields, its signature and the proposed set. */
  datatype Proposal = Proposal(record: Record, body: Body)

  function EncodeProposal(p: Proposal): seq<Byte> {
    Encode(PROPOSAL_LAYOUT, p.record) + EncodeBody(TX_LAYOUT, p.body)
  }

  function DecodeProposal(b: seq<Byte>): Option<Proposal> {
    match Decode(PROPOSAL_LAYOUT, b)
    case None => None
    case Some(record) =>
      match DecodeBody(TX_LAYOUT, b[RecordSize(PROPOSAL_LAYOUT, record)..])
      case None => None
      case Some(body) => Some(Proposal(record, body))
  }

  /** How far reading a proposal moves the offset. */
  function ProposalUsed(b: seq<Byte>): nat
    requires DecodeProposal(b).Some?
  {
    var n := RecordSize(PROPOSAL_LAYOUT, DecodeProposal(b).value.record);
    n + Used(TX_LAYOUT, Listed(TX_LAYOUT, b[n..]).value)
  }

  lemma ProposalRoundTrip(p: Proposal, rest: seq<Byte>)
    requires RecordOk(PROPOSAL_LAYOUT, p.record) && BodyOk(TX_LAYOUT, p.body)
    ensures DecodeProposal(EncodeProposal(p) + rest) == Some(p)
    ensures ProposalUsed(EncodeProposal(p) + rest) == |EncodeProposal(p)|
  {
    var record, body := Encode(PROPOSAL_LAYOUT, p.record), EncodeBody(TX_LAYOUT, p.body);
    Cut(record, body, rest);
    DecodeEncode(PROPOSAL_LAYOUT, p.record, body + rest);
    DecodeEncodeBody(TX_LAYOUT, p.body, rest);
  }
}
