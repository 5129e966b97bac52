/** Hints from signer to verifier (`sign.c`): produced, packed, parsed and used. */
module SignHints {
  import opened Compaction
  import opened Dilithium
  import opened Rounding
  import opened RoundingVectors
  import opened HintCodec

  /** A vector of polynomials. */
  predicate Vector(p: seq<seq<int>>, k: nat) {
    |p| == k && forall i :: 0 <= i < k ==> |p[i]| == N
  }

  /** The flags `make_hint` raises on a vector. */
  function BadRows(l: Level, w0: seq<seq<int>>, w1: seq<seq<int>>): (r: Rows)
    requires Vector(w0, |w1|) && Vector(w1, |w1|)
    ensures |r| == |w1| && Shaped(r)
  {
    seq(|w1|, i requires 0 <= i < |w1| => BadRow(l, w0[i], w1[i]))
  }

  /** `memcpy(&hint[pos], hintbuf, n)` */
  method CopyHints(hint: array<int>, pos: nat, hintbuf: array<int>, n: nat)
    requires pos + n <= hint.Length && n <= hintbuf.Length && hint != hintbuf
    modifies hint
    ensures hint[pos..pos + n] == hintbuf[..n]
    ensures hint[..pos] == old(hint[..pos]) && hint[pos + n..] == old(hint[pos + n..])
  {
    for q := 0 to n
      invariant forall r :: 0 <= r < q ==> hint[pos + r] == hintbuf[r]
      invariant forall r :: 0 <= r < pos || pos + n <= r < hint.Length ==> hint[r] == old(hint[r])
    {
      hint[pos + q] := hintbuf[q];
    }
  }

  /** One polynomial of the signing loop. */
  method SignOne(l: Level, w0: seq<int>, w1: seq<int>, omega: nat, hint: array<int>, hintbuf: array<int>,
                 i: nat, pos: nat, ghost rows: Rows) returns (rejected: bool, pos': nat)
    requires |w0| == |w1| == N && hintbuf.Length == N && hint != hintbuf
    requires i < |rows| && rows[i] == BadRow(l, w0, w1) && hint.Length == omega + |rows|
    requires Packed(hint[..], omega, rows, i, pos)
    modifies hint, hintbuf
    ensures rejected <==> |Flat(rows[..i + 1])| > omega
    ensures !rejected ==> Packed(hint[..], omega, rows, i + 1, pos')
  {
    var n := MakeHintAvx(l, hintbuf, w0, w1);
    FlatRow(rows, i);
    pos' := pos + n;
    rejected := pos' > omega;
    if !rejected {
      ghost var was := hint[..];
      CopyHints(hint, pos, hintbuf, n);
      hint[omega + i] := pos';
      PackedNext(was, hint[..], omega, rows, i, pos, pos');
    }
  }

  /** The hint loop of `crypto_sign_signature`: it rejects when the hints overflow OMEGA, and otherwise
      writes the packing of the flags straight into the signature. */
  method SignHintLoop(l: Level, w0: seq<seq<int>>, w1: seq<seq<int>>, omega: nat, hint: array<int>)
      returns (rejected: bool)
    requires Vector(w0, |w1|) && Vector(w1, |w1|) && hint.Length == omega + |w1|
    modifies hint
    ensures rejected <==> |Flat(BadRows(l, w0, w1))| > omega
    ensures !rejected ==> hint[..] == Encode(BadRows(l, w0, w1), omega)
  {
    ghost var rows := BadRows(l, w0, w1);
    var hintbuf := new int[N];
    var pos := 0;
    for q := 0 to omega
      invariant forall r :: 0 <= r < q ==> hint[r] == 0
    {
      hint[q] := 0;
    }
    for i := 0 to |w1|
      invariant Packed(hint[..], omega, rows, i, pos)
    {
      FlatPrefix(rows, i + 1);
      rejected, pos := SignOne(l, w0[i], w1[i], omega, hint, hintbuf, i, pos, rows);
      if rejected {
        return;
      }
    }
    PackedAll(hint[..], omega, rows, pos);
    rejected := false;
  }

  /** `r` is the polynomial `w` with its hints used. */
  predicate Used(l: Level, w: seq<int>, hints: seq<bool>, r: seq<int>) {
    FieldPoly(w) && |hints| == |r| == N
    && forall j :: 0 <= j < N ==> r[j] == UseHintLane(l, w[j], if hints[j] then 1 else 0)
  }

  /** The hint half of `crypto_sign_verify`: parse row by row, use each row at once, check the tail. */
  method VerifyHintLoop(l: Level, hint: seq<int>, omega: nat, w: seq<seq<int>>) returns (ok: bool, w1: seq<seq<int>>)
    requires |hint| == omega + |w| && Bytes(hint) && forall i :: 0 <= i < |w| ==> FieldPoly(w[i])
    ensures ok <==> Accepts(hint, omega)
    ensures ok ==> |w1| == |w| && forall i :: 0 <= i < |w| ==> Used(l, w[i], Decode(hint, omega)[i], w1[i])
  {
    w1 := [];
    var pos, h, b := 0, new int[N], new int[N];
    for i := 0 to |w|
      invariant |w1| == i && pos == Start(hint, omega, i) && 0 <= pos <= omega
      invariant forall q :: 0 <= q < i ==> RowOk(hint, omega, q) && Used(l, w[q], DecodedRow(hint, omega, q), w1[q])
    {
      var malformed := UnpackRow(hint, omega, i, pos, h);
      if malformed {
        return false, w1;
      }
      pos := hint[omega + i];
      var a := new int[N](j requires 0 <= j < N => w[i][j]);
      assert a[..] == w[i];
      UseHintAvx(l, b, a, h);
      w1 := w1 + [b[..]];
    }
    var malformed := CheckTail(hint, omega, pos);
    ok := !malformed;
  }

  /** What the signer does not reject. */
  predicate Signable(l: Level, w1: seq<seq<int>>, u: seq<seq<int>>, v: seq<seq<int>>) {
    Vector(w1, |w1|) && Vector(u, |w1|) && Vector(v, |w1|)
    && forall i, j :: 0 <= i < |w1| && 0 <= j < N ==>
         0 <= w1[i][j] < High(l)
         && -(Gamma2(l) - Beta(l)) < u[i][j] < Gamma2(l) - Beta(l) && -Gamma2(l) < v[i][j] < Gamma2(l)
  }

  function Sum(u: seq<seq<int>>, v: seq<seq<int>>): (r: seq<seq<int>>)
    requires Vector(u, |u|) && Vector(v, |u|)
    ensures Vector(r, |u|) && forall i, j :: 0 <= i < |u| && 0 <= j < N ==> r[i][j] == u[i][j] + v[i][j]
  {
    seq(|u|, i requires 0 <= i < |u| => seq(N, j requires 0 <= j < N => u[i][j] + v[i][j]))
  }

  /** End to end: the hint bytes of an unrejected signature are accepted by the verifier, and with them
      it recovers every committed high part from what it sees. */
  lemma HintsRecoverCommitment(l: Level, w1: seq<seq<int>>, u: seq<seq<int>>, v: seq<seq<int>>, omega: nat)
    requires Signable(l, w1, u, v) && |Flat(BadRows(l, Sum(u, v), w1))| <= omega
    ensures var sig := Encode(BadRows(l, Sum(u, v), w1), omega);
      && Accepts(sig, omega)
      && forall i, j :: 0 <= i < |w1| && 0 <= j < N ==>
           var f := Seen(l, w1[i][j], u[i][j] + v[i][j]);
           InField(f) && UseHintLane(l, f, if Decode(sig, omega)[i][j] then 1 else 0) == w1[i][j]
  {
    var rows := BadRows(l, Sum(u, v), w1);
    UnpackPacked(rows, omega);
    forall i, j | 0 <= i < |w1| && 0 <= j < N
      ensures var f := Seen(l, w1[i][j], u[i][j] + v[i][j]);
        InField(f) && UseHintLane(l, f, if rows[i][j] then 1 else 0) == w1[i][j]
    {
      HintRecovers(l, w1[i][j], u[i][j], v[i][j]);
      assert rows[i][j] == BadLane(l, Sum(u, v)[i][j], w1[i][j]);
    }
  }
}
