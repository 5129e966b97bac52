/** The hint section of a signature (`packing.c`): positions row by row, zero padding, running counts. */
module HintCodec {
  import opened Compaction
  import opened Dilithium

  type Rows = seq<seq<bool>>

  predicate Shaped(h: Rows) {
    forall i :: 0 <= i < |h| ==> |h[i]| == N
  }

  /** All positions, row after row. */
  function Flat(h: Rows): seq<int> {
    if h == [] then [] else Flat(h[..|h| - 1]) + Ones(h[|h| - 1])
  }

  /** After each row, the number of positions so far. */
  function Counts(h: Rows): (r: seq<int>)
    ensures |r| == |h|
  {
    if h == [] then [] else Counts(h[..|h| - 1]) + [|Flat(h)|]
  }

  function Zeros(n: nat): (r: seq<int>)
    ensures |r| == n
  {
    seq(n, _ => 0)
  }

  /** HintBitPack of FIPS 204 (Algorithm 20). */
  function Encode(h: Rows, omega: nat): (sig: seq<int>)
    requires |Flat(h)| <= omega
    ensures |sig| == omega + |h|
  {
    Flat(h) + Zeros(omega - |Flat(h)|) + Counts(h)
  }

  /** Where row `i` starts among the positions. */
  function Start(sig: seq<int>, omega: nat, i: nat): int
    requires omega + i <= |sig|
  {
    if i == 0 then 0 else sig[omega + i - 1]
  }

  /** The checks of `unpack_sig` on row `i`. */
  predicate RowOk(sig: seq<int>, omega: nat, i: nat)
    requires omega + i + 1 <= |sig|
  {
    && 0 <= Start(sig, omega, i) <= Start(sig, omega, i + 1) <= omega
    && Ascending(sig[Start(sig, omega, i)..Start(sig, omega, i + 1)])
  }

  predicate TailOk(sig: seq<int>, omega: nat)
    requires omega <= |sig|
  {
    forall j :: 0 <= Start(sig, omega, |sig| - omega) <= j < omega ==> sig[j] == 0
  }

  /** All checks: what `unpack_sig` and `crypto_sign_verify` accept. */
  predicate Accepts(sig: seq<int>, omega: nat)
    requires omega <= |sig|
  {
    (forall i :: 0 <= i < |sig| - omega ==> RowOk(sig, omega, i)) && TailOk(sig, omega)
  }

  function DecodedRow(sig: seq<int>, omega: nat, i: nat): (r: seq<bool>)
    requires omega + i + 1 <= |sig| && RowOk(sig, omega, i)
    ensures |r| == N
  {
    Marks(sig[Start(sig, omega, i)..Start(sig, omega, i + 1)], N)
  }

  function Decode(sig: seq<int>, omega: nat): (h: Rows)
    requires omega <= |sig| && Accepts(sig, omega)
    ensures |h| == |sig| - omega && Shaped(h)
  {
    seq(|sig| - omega, i requires 0 <= i < |sig| - omega => DecodedRow(sig, omega, i))
  }

  predicate Bytes(sig: seq<int>) {
    forall j :: 0 <= j < |sig| ==> 0 <= sig[j] < 256
  }

  // ---- Round trips ----

  lemma {:induction false} FlatPrefix(h: Rows, i: nat)
    requires i <= |h|
    ensures |Flat(h[..i])| <= |Flat(h)| && Flat(h)[..|Flat(h[..i])|] == Flat(h[..i])
    ensures i > 0 ==> Counts(h)[i - 1] == |Flat(h[..i])|
  {
    if i == |h| {
      assert h[..i] == h;
    } else {
      FlatPrefix(h[..|h| - 1], i);
      assert h[..|h| - 1][..i] == h[..i];
    }
  }

  lemma FlatRow(h: Rows, i: nat)
    requires i < |h|
    ensures Flat(h[..i + 1]) == Flat(h[..i]) + Ones(h[i])
  {
    assert h[..i + 1][..i] == h[..i];
  }

  /** One more row. */
  lemma PackedRow(rows: Rows, i: nat)
    requires i < |rows|
    ensures Flat(rows[..i + 1]) == Flat(rows[..i]) + Ones(rows[i])
    ensures Counts(rows[..i + 1]) == Counts(rows[..i]) + [|Flat(rows[..i + 1])|]
    ensures |Flat(rows[..i + 1])| <= |Flat(rows)|
  {
    assert rows[..i + 1][..i] == rows[..i];
    FlatPrefix(rows, i + 1);
  }

  lemma StartOfEncoded(h: Rows, omega: nat, i: nat)
    requires |Flat(h)| <= omega && i <= |h|
    ensures Start(Encode(h, omega), omega, i) == |Flat(h[..i])|
  {
    FlatPrefix(h, i);
    if i > 0 {
      assert Encode(h, omega)[omega + i - 1] == Counts(h)[i - 1];
    }
  }

  lemma EncodedRow(h: Rows, omega: nat, i: nat)
    requires |Flat(h)| <= omega && i < |h| && Shaped(h)
    ensures RowOk(Encode(h, omega), omega, i)
    ensures DecodedRow(Encode(h, omega), omega, i) == h[i]
  {
    var sig := Encode(h, omega);
    StartOfEncoded(h, omega, i);
    StartOfEncoded(h, omega, i + 1);
    FlatPrefix(h, i);
    FlatPrefix(h, i + 1);
    FlatRow(h, i);
    var a, b := |Flat(h[..i])|, |Flat(h[..i + 1])|;
    assert sig[..b] == Flat(h)[..b] == Flat(h[..i + 1]);
    assert sig[a..b] == sig[..b][a..] == Ones(h[i]);
    OnesAscend(h[i]);
    MarksOfOnes(h[i]);
  }

  /** Unpacking what was packed gives the vector back. */
  lemma UnpackPacked(h: Rows, omega: nat)
    requires Shaped(h) && |Flat(h)| <= omega
    ensures Accepts(Encode(h, omega), omega) && Decode(Encode(h, omega), omega) == h
  {
    var sig := Encode(h, omega);
    forall i | 0 <= i < |h| ensures RowOk(sig, omega, i) && DecodedRow(sig, omega, i) == h[i] {
      EncodedRow(h, omega, i);
    }
    StartOfEncoded(h, omega, |h|);
    assert h[..|h|] == h;
  }

  lemma RowOfDecoded(sig: seq<int>, omega: nat, i: nat)
    requires omega + i + 1 <= |sig| && Bytes(sig) && RowOk(sig, omega, i)
    ensures var a, b := Start(sig, omega, i), Start(sig, omega, i + 1);
      Ones(DecodedRow(sig, omega, i)) == sig[a..b] && sig[..a] + sig[a..b] == sig[..b]
  {
    OnesOfMarks(sig[Start(sig, omega, i)..Start(sig, omega, i + 1)], N);
  }

  /** The first `i` rows of `h` hold exactly the first positions and counts. */
  predicate Holds(sig: seq<int>, omega: nat, h: Rows, i: nat)
    requires omega + i <= |sig| && i <= |h|
  {
    && 0 <= Start(sig, omega, i) <= omega
    && Flat(h[..i]) == sig[..Start(sig, omega, i)]
    && Counts(h[..i]) == sig[omega..omega + i]
  }

  lemma HoldsNext(sig: seq<int>, omega: nat, h: Rows, i: nat)
    requires omega + i + 1 <= |sig| && i < |h| && Bytes(sig) && Holds(sig, omega, h, i)
    requires RowOk(sig, omega, i) && h[i] == DecodedRow(sig, omega, i)
    ensures Holds(sig, omega, h, i + 1)
  {
    RowOfDecoded(sig, omega, i);
    PackedRow(h, i);
    assert sig[omega..omega + i] + [sig[omega + i]] == sig[omega..omega + i + 1];
  }

  lemma {:induction false} DecodedPrefix(sig: seq<int>, omega: nat, h: Rows, i: nat)
    requires omega + i <= |sig| && Accepts(sig, omega) && Bytes(sig) && h == Decode(sig, omega)
    ensures Holds(sig, omega, h, i)
  {
    if i > 0 {
      DecodedPrefix(sig, omega, h, i - 1);
      assert RowOk(sig, omega, i - 1);
      HoldsNext(sig, omega, h, i - 1);
    }
  }

  /** Packing what was unpacked gives the bytes back: the encoding is canonical. */
  lemma PackUnpacked(sig: seq<int>, omega: nat)
    requires omega <= |sig| && Accepts(sig, omega) && Bytes(sig)
    ensures |Flat(Decode(sig, omega))| <= omega && Encode(Decode(sig, omega), omega) == sig
  {
    var h, k := Decode(sig, omega), |sig| - omega;
    DecodedPrefix(sig, omega, h, k);
    assert h[..k] == h;
    var n := Start(sig, omega, k);
    assert Zeros(omega - n) == sig[n..omega];
    assert sig == sig[..n] + sig[n..omega] + sig[omega..omega + k];
  }

  /** Bytes are accepted exactly when they are the packing of some vector. */
  lemma AcceptsIff(sig: seq<int>, omega: nat)
    requires omega <= |sig| && Bytes(sig)
    ensures Accepts(sig, omega) <==>
            exists h: Rows :: Shaped(h) && |Flat(h)| <= omega && Encode(h, omega) == sig
  {
    if Accepts(sig, omega) {
      PackUnpacked(sig, omega);
    }
    if h: Rows :| Shaped(h) && |Flat(h)| <= omega && Encode(h, omega) == sig {
      UnpackPacked(h, omega);
    }
  }

  // ---- The bytes one by one ----

  function Weight(p: seq<bool>): nat {
    if p == [] then 0 else Weight(p[..|p| - 1]) + if p[|p| - 1] then 1 else 0
  }

  /** The flags set in the first `i` rows. */
  function TotalWeight(h: Rows, i: nat): nat
    requires i <= |h|
  {
    if i == 0 then 0 else TotalWeight(h, i - 1) + Weight(h[i - 1])
  }

  lemma {:induction false} OnesWeigh(p: seq<bool>)
    ensures |Ones(p)| == Weight(p)
  {
    if p != [] {
      OnesWeigh(p[..|p| - 1]);
    }
  }

  lemma {:induction false} FlatWeighs(h: Rows, i: nat)
    requires i <= |h|
    ensures |Flat(h[..i])| == TotalWeight(h, i)
  {
    if i > 0 {
      FlatWeighs(h, i - 1);
      FlatRow(h, i - 1);
      OnesWeigh(h[i - 1]);
    }
  }

  /** The bytes between two of the running counts are the positions of one row's flags, ascending. */
  ghost predicate RowBytes(sig: seq<int>, from: nat, to: nat, row: seq<bool>) {
    && from <= to <= |sig| && Ascending(sig[from..to])
    && forall x :: x in sig[from..to] <==> 0 <= x < |row| && row[x]
  }

  /** The format byte by byte: byte `omega + i` counts the flags of the rows up to `i`; between two counts stand the
      positions of the flags of one row, ascending; the bytes left are zero. */
  lemma EncodedBytes(h: Rows, omega: nat, i: nat)
    requires Shaped(h) && TotalWeight(h, |h|) <= omega && |Flat(h)| <= omega && i < |h|
    ensures var sig := Encode(h, omega);
      && |sig| == omega + |h| && sig[omega + i] == TotalWeight(h, i + 1)
      && RowBytes(sig, TotalWeight(h, i), TotalWeight(h, i + 1), h[i])
      && forall q :: TotalWeight(h, |h|) <= q < omega ==> sig[q] == 0
  {
    var sig := Encode(h, omega);
    FlatWeighs(h, i);
    FlatWeighs(h, i + 1);
    FlatWeighs(h, |h|);
    assert h[..|h|] == h;
    StartOfEncoded(h, omega, i + 1);
    EncodedRow(h, omega, i);
    StartOfEncoded(h, omega, i);
    var a, b := TotalWeight(h, i), TotalWeight(h, i + 1);
    forall x ensures x in sig[a..b] <==> 0 <= x < |h[i]| && h[i][x] {
      PositionsOfRow(h, omega, i, x, a, b);
    }
  }

  lemma PositionsOfRow(h: Rows, omega: nat, i: nat, x: int, a: nat, b: nat)
    requires |Flat(h)| <= omega && i < |h| && a == |Flat(h[..i])| && b == |Flat(h[..i + 1])| && a <= b <= omega
    ensures x in Encode(h, omega)[a..b] <==> 0 <= x < |h[i]| && h[i][x]
  {
    var sig := Encode(h, omega);
    FlatPrefix(h, i);
    FlatPrefix(h, i + 1);
    FlatRow(h, i);
    assert sig[..b] == Flat(h)[..b] == Flat(h[..i + 1]);
    assert sig[a..b] == sig[..b][a..] == Ones(h[i]);
    if 0 <= x < |h[i]| && h[i][x] {
      OnesComplete(h[i], x);
    }
  }

  // ---- The loops ----

  function Flags(p: seq<int>): (r: seq<bool>)
    ensures |r| == |p|
  {
    seq(|p|, j requires 0 <= j < |p| => p[j] != 0)
  }

  function FlagRows(h: seq<seq<int>>): (r: Rows)
    ensures |r| == |h|
  {
    seq(|h|, i requires 0 <= i < |h| => Flags(h[i]))
  }

  /** One row of `pack_sig`. */
  method PackRow(p: seq<int>, sig: array<int>, k: nat) returns (k': nat)
    requires |p| == N && k + |Ones(Flags(p))| <= sig.Length
    modifies sig
    ensures k' == k + |Ones(Flags(p))| && sig[k..k'] == Ones(Flags(p))
    ensures forall q :: 0 <= q < k || k' <= q < sig.Length ==> sig[q] == old(sig[q])
  {
    ghost var flags, was := Flags(p), sig[..];
    k' := k;
    for j := 0 to N
      invariant k <= k' <= sig.Length && sig[k..k'] == Ones(flags[..j])
      invariant sig[..k] == was[..k] && sig[k'..] == was[k'..]
    {
      OnesNext(flags, j);
      if p[j] != 0 {
        ghost var before := sig[..];
        sig[k'] := j;
        Stored(before, sig[..], k, k', j);
        k' := k' + 1;
      }
    }
    assert flags[..N] == flags;
    Outside(was, sig[..], k, k');
  }

  lemma Stored(before: seq<int>, after: seq<int>, k: nat, k': nat, x: int)
    requires k <= k' < |before| && after == before[k' := x]
    ensures after[k..k' + 1] == before[k..k'] + [x] && after[..k] == before[..k] && after[k' + 1..] == before[k'..][1..]
  {
  }

  lemma Outside(was: seq<int>, now: seq<int>, k: nat, k': nat)
    requires k <= k' <= |was| == |now| && now[..k] == was[..k] && now[k'..] == was[k'..]
    ensures forall q :: 0 <= q < k || k' <= q < |was| ==> now[q] == was[q]
  {
    forall q | 0 <= q < k || k' <= q < |was| ensures now[q] == was[q] {
      if q < k {
        assert now[q] == now[..k][q];
      } else {
        assert now[q] == now[k'..][q - k'];
      }
    }
  }

  lemma OnesNext(p: seq<bool>, j: nat)
    requires j < |p|
    ensures Ones(p[..j + 1]) == if p[j] then Ones(p[..j]) + [j] else Ones(p[..j])
    ensures |Ones(p[..j + 1])| <= |Ones(p)|
  {
    OnesSnoc(p[..j], p[j]);
    assert p[..j + 1] == p[..j] + [p[j]];
    OnesGrow(p, j + 1);
  }

  lemma {:induction false} OnesGrow(p: seq<bool>, j: nat)
    requires j <= |p|
    ensures |Ones(p[..j])| <= |Ones(p)|
  {
    if j < |p| {
      OnesGrow(p[..|p| - 1], j);
      assert p[..|p| - 1][..j] == p[..j];
    } else {
      assert p[..j] == p;
    }
  }

  /** The first `i` rows are packed, and the rest of the positions is zero. */
  ghost predicate Packed(sig: seq<int>, omega: nat, rows: Rows, i: nat, k: nat)
    requires i <= |rows| && |sig| == omega + |rows|
  {
    && k == |Flat(rows[..i])| <= omega
    && sig[..k] == Flat(rows[..i])
    && (forall q :: k <= q < omega ==> sig[q] == 0)
    && sig[omega..omega + i] == Counts(rows[..i])
  }

  lemma PackedNext(was: seq<int>, now: seq<int>, omega: nat, rows: Rows, i: nat, k: nat, k': nat)
    requires i < |rows| && |was| == |now| == omega + |rows|
    requires Packed(was, omega, rows, i, k) && k' == k + |Ones(rows[i])| <= omega
    requires now[..k] == was[..k] && now[k..k'] == Ones(rows[i])
    requires now[k'..omega + i] == was[k'..omega + i] && now[omega + i] == k'
    ensures Packed(now, omega, rows, i + 1, k')
  {
    PackedRow(rows, i);
    SlicesNext(was, now, k, k', omega, omega + i);
  }

  /** What stands before, in and after the positions `k` up to `k'`, written anew up to `end`. */
  lemma SlicesNext(was: seq<int>, now: seq<int>, k: nat, k': nat, omega: nat, end: nat)
    requires k <= k' <= omega <= end < |now| == |was| && now[k'..end] == was[k'..end]
    ensures now[..k'] == now[..k] + now[k..k']
    ensures now[omega..end] == was[omega..end]
    ensures now[omega..end + 1] == was[omega..end] + [now[end]]
    ensures forall q :: k' <= q < omega ==> now[q] == was[q]
  {
    forall q | k' <= q < end ensures now[q] == was[q] {
      assert now[q] == now[k'..end][q - k'] == was[k'..end][q - k'];
    }
  }

  method PackOne(p: seq<int>, sig: array<int>, omega: nat, i: nat, k: nat, ghost rows: Rows) returns (k': nat)
    requires i < |rows| && sig.Length == omega + |rows| && |p| == N && rows[i] == Flags(p) && |Flat(rows)| <= omega
    requires Packed(sig[..], omega, rows, i, k)
    modifies sig
    ensures Packed(sig[..], omega, rows, i + 1, k')
  {
    ghost var was := sig[..];
    PackedRow(rows, i);
    k' := PackRow(p, sig, k);
    sig[omega + i] := k';
    PackedNext(was, sig[..], omega, rows, i, k, k');
  }

  /** The hint part of `pack_sig`. */
  method PackHint(h: seq<seq<int>>, omega: nat, sig: array<int>)
    requires sig.Length == omega + |h| && Shaped(FlagRows(h)) && |Flat(FlagRows(h))| <= omega
    modifies sig
    ensures sig[..] == Encode(FlagRows(h), omega)
  {
    ghost var rows := FlagRows(h);
    for i := 0 to omega + |h|
      invariant forall q :: 0 <= q < i ==> sig[q] == 0
    {
      sig[i] := 0;
    }
    var k := 0;
    for i := 0 to |h|
      invariant Packed(sig[..], omega, rows, i, k)
    {
      assert rows[i] == Flags(h[i]) && |rows[i]| == N;
      k := PackOne(h[i], sig, omega, i, k, rows);
    }
    PackedAll(sig[..], omega, rows, k);
  }

  lemma PackedAll(sig: seq<int>, omega: nat, rows: Rows, k: nat)
    requires |sig| == omega + |rows| && Packed(sig, omega, rows, |rows|, k)
    ensures k == |Flat(rows)| && sig == Encode(rows, omega)
  {
    assert rows[..|rows|] == rows;
    assert sig[k..omega] == Zeros(omega - k);
    assert sig == sig[..k] + sig[k..omega] + sig[omega..omega + |rows|];
  }

  /** One row of `unpack_sig`: the checks, and the marks written in place. */
  method UnpackRow(sig: seq<int>, omega: nat, i: nat, k: int, row: array<int>) returns (malformed: bool)
    requires omega + i + 1 <= |sig| && Bytes(sig) && k == Start(sig, omega, i) && 0 <= k <= omega && row.Length == N
    modifies row
    ensures !malformed <==> RowOk(sig, omega, i)
    ensures !malformed ==> forall q :: 0 <= q < N ==> row[q] == if DecodedRow(sig, omega, i)[q] then 1 else 0
  {
    for q := 0 to N
      invariant forall r :: 0 <= r < q ==> row[r] == 0
    {
      row[q] := 0;
    }
    var end := sig[omega + i];
    if end < k || end > omega {
      return true;
    }
    var j := k;
    while j < end
      invariant k <= j <= end && Ascending(sig[k..j])
      invariant forall q :: 0 <= q < N ==> row[q] == if q in sig[k..j] then 1 else 0
    {
      if j > k && sig[j] <= sig[j - 1] {
        assert sig[k..end][j - k - 1] == sig[j - 1] && sig[k..end][j - k] == sig[j];
        return true;
      }
      assert sig[k..j + 1] == sig[k..j] + [sig[j]];
      row[sig[j]] := 1;
      j := j + 1;
    }
    return false;
  }

  function Bits(row: seq<bool>): (r: seq<int>)
    ensures |r| == |row|
  {
    seq(|row|, q requires 0 <= q < |row| => if row[q] then 1 else 0)
  }

  /** "Extra indices are zero": the check on the unused positions. */
  method CheckTail(sig: seq<int>, omega: nat, k: int) returns (malformed: bool)
    requires omega <= |sig| && k == Start(sig, omega, |sig| - omega) && 0 <= k <= omega
    ensures !malformed <==> TailOk(sig, omega)
  {
    for j := k to omega
      invariant forall q :: k <= q < j ==> sig[q] == 0
    {
      if sig[j] != 0 {
        return true;
      }
    }
    return false;
  }

  /** The hint part of `unpack_sig`: accepts exactly the packings, and returns the vector packed. */
  method UnpackHint(sig: seq<int>, omega: nat) returns (malformed: bool, h: seq<seq<int>>)
    requires omega <= |sig| && Bytes(sig)
    ensures !malformed <==> exists rows: Rows :: Shaped(rows) && |Flat(rows)| <= omega && Encode(rows, omega) == sig
    ensures !malformed ==> forall rows: Rows :: Shaped(rows) && |Flat(rows)| <= omega && Encode(rows, omega) == sig ==>
              |h| == |rows| && forall i :: 0 <= i < |h| ==> h[i] == Bits(rows[i])
  {
    AcceptsIff(sig, omega);
    h := [];
    var k, row := 0, new int[N];
    for i := 0 to |sig| - omega
      invariant |h| == i && k == Start(sig, omega, i) && 0 <= k <= omega
      invariant forall q :: 0 <= q < i ==> RowOk(sig, omega, q) && h[q] == Bits(DecodedRow(sig, omega, q))
    {
      malformed := UnpackRow(sig, omega, i, k, row);
      if malformed {
        return;
      }
      assert row[..] == Bits(DecodedRow(sig, omega, i));
      h := h + [row[..]];
      k := sig[omega + i];
    }
    malformed := CheckTail(sig, omega, k);
    if !malformed {
      forall rows: Rows | Shaped(rows) && |Flat(rows)| <= omega && Encode(rows, omega) == sig
        ensures |h| == |rows| && forall i :: 0 <= i < |h| ==> h[i] == Bits(rows[i])
      {
        UnpackPacked(rows, omega);
      }
    }
  }
}
