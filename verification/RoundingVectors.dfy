/** The rounding loops over a polynomial, eight lanes at a time (`rounding.c`). */
module RoundingVectors {
  import opened Compaction
  import opened Dilithium
  import opened Rounding

  predicate FieldPoly(p: seq<int>) {
    |p| == N && forall j :: 0 <= j < N ==> InField(p[j])
  }

  /** `decompose_avx`; the input may be overwritten by the high parts. */
  method DecomposeAvx(l: Level, a1: array<int>, a0: array<int>, a: array<int>)
    requires a1.Length == N && a0.Length == N && FieldPoly(a[..]) && a0 != a1 && a0 != a
    modifies a1, a0
    ensures forall j :: 0 <= j < N ==> (a1[j], a0[j]) == Decompose(l, old(a[j]))
  {
    ghost var was := a[..];
    for i := 0 to N / 8
      invariant forall j :: 0 <= j < 8 * i ==> (a1[j], a0[j]) == Decompose(l, was[j])
      invariant forall j :: 8 * i <= j < N ==> a[j] == was[j]
    {
      for lane := 0 to 8
        invariant forall j :: 0 <= j < 8 * i + lane ==> (a1[j], a0[j]) == Decompose(l, was[j])
        invariant forall j :: 8 * i + lane <= j < N ==> a[j] == was[j]
      {
        var j := 8 * i + lane;
        var f := a[j];
        DecomposeIsExact(l, f);
        a1[j] := HighLane(l, f);
        a0[j] := LowLane(l, f);
      }
    }
  }

  /** The second loop of `use_hint_avx`. */
  method StepAll(l: Level, b: array<int>, a0: array<int>, hint: array<int>)
    requires b.Length == N && a0.Length == N && hint.Length == N && hint != b && a0 != b
    modifies b
    ensures forall j :: 0 <= j < N ==> b[j] == StepLane(l, old(b[j]), a0[j], hint[j])
  {
    for i := 0 to N / 8
      invariant forall j :: 0 <= j < 8 * i ==> b[j] == StepLane(l, old(b[j]), a0[j], hint[j])
      invariant forall j :: 8 * i <= j < N ==> b[j] == old(b[j])
    {
      for lane := 0 to 8
        invariant forall j :: 0 <= j < 8 * i + lane ==> b[j] == StepLane(l, old(b[j]), a0[j], hint[j])
        invariant forall j :: 8 * i + lane <= j < N ==> b[j] == old(b[j])
      {
        var j := 8 * i + lane;
        b[j] := StepLane(l, b[j], a0[j], hint[j]);
      }
    }
  }

  lemma StepsAreLanes(l: Level, f: int, hint: int)
    requires InField(f)
    ensures StepLane(l, Decompose(l, f).0, Decompose(l, f).1, hint) == UseHintLane(l, f, hint)
  {
    DecomposeIsExact(l, f);
  }

  /** `use_hint_avx`; the output may overwrite the input. */
  method UseHintAvx(l: Level, b: array<int>, a: array<int>, hint: array<int>)
    requires b.Length == N && hint.Length == N && FieldPoly(a[..]) && hint != b
    modifies b
    ensures forall j :: 0 <= j < N ==> b[j] == UseHintLane(l, old(a[j]), hint[j])
  {
    ghost var was := a[..];
    var a0 := new int[N];
    DecomposeAvx(l, b, a0, a);
    StepAll(l, b, a0, hint);
    forall j | 0 <= j < N ensures b[j] == UseHintLane(l, was[j], hint[j]) {
      StepsAreLanes(l, was[j], hint[j]);
    }
  }

  /** The flags of a polynomial. */
  function BadRow(l: Level, a0: seq<int>, a1: seq<int>): (r: seq<bool>)
    requires |a0| == |a1|
    ensures |r| == |a0|
  {
    seq(|a0|, j requires 0 <= j < |a0| => BadLane(l, a0[j], a1[j]))
  }

  lemma BadRowConcat(l: Level, a0: seq<int>, a1: seq<int>, b0: seq<int>, b1: seq<int>)
    requires |a0| == |a1| && |b0| == |b1|
    ensures BadRow(l, a0, a1) + BadRow(l, b0, b1) == BadRow(l, a0 + b0, a1 + b1)
  {
  }

  /** One vector step: a whole table row is stored; the next step overwrites its padding. */
  method CompactFlags(hint: array<int>, n: int, i: int, flags: seq<bool>, ghost before: seq<bool>) returns (n': int)
    requires |flags| == 8 && |before| == 8 * i && 8 * i + 8 <= hint.Length
    requires n == |Ones(before)| && hint[..n] == Ones(before)
    modifies hint
    ensures n' == |Ones(before + flags)| <= 8 * i + 8 && hint[..n'] == Ones(before + flags)
  {
    CompactStep(before, flags);
    StoreEight(hint, n, Shift(Lut(flags), 8 * i));
    n' := n + |Ones(flags)|;
    assert hint[..n'] == hint[..n] + hint[n..n + 8][..|Ones(flags)|];
  }

  /** `make_hint_avx`: the flagged positions, compacted by the table eight lanes at a time. */
  method MakeHintAvx(l: Level, hint: array<int>, a0: seq<int>, a1: seq<int>) returns (n: int)
    requires hint.Length == N && |a0| == N && |a1| == N
    modifies hint
    ensures 0 <= n <= N && hint[..n] == Ones(BadRow(l, a0, a1))
  {
    n := 0;
    ghost var before: seq<bool> := [];
    for i := 0 to N / 8
      invariant |before| == 8 * i && before == BadRow(l, a0[..8 * i], a1[..8 * i])
      invariant 0 <= n <= 8 * i && n == |Ones(before)| && hint[..n] == Ones(before)
    {
      var flags := BadRow(l, a0[8 * i..8 * i + 8], a1[8 * i..8 * i + 8]);
      n := CompactFlags(hint, n, i, flags, before);
      BadRowConcat(l, a0[..8 * i], a1[..8 * i], a0[8 * i..8 * i + 8], a1[8 * i..8 * i + 8]);
      assert a0[..8 * i] + a0[8 * i..8 * i + 8] == a0[..8 * (i + 1)];
      assert a1[..8 * i] + a1[8 * i..8 * i + 8] == a1[..8 * (i + 1)];
      before := before + flags;
    }
    assert a0[..8 * (N / 8)] == a0 && a1[..8 * (N / 8)] == a1;
  }
}
