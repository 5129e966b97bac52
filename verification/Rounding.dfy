/** Dilithium rounding and hints (`rounding.c`): the vector code lane by lane, against FIPS 204. */
module Rounding {
  import opened Dilithium

  /** The three parameter sets; levels 3 and 5 round alike. */
  datatype Level = Dilithium2 | Dilithium3 | Dilithium5

  function Gamma2(l: Level): int {
    if l.Dilithium2? then 95232 else 261888
  }

  function Beta(l: Level): int {
    match l case Dilithium2 => 78 case Dilithium3 => 196 case Dilithium5 => 120
  }

  /** The number of high values: (Q-1) / (2*GAMMA2). */
  function High(l: Level): int {
    if l.Dilithium2? then 44 else 16
  }

  /** `k` times 2*GAMMA2. */
  function Multiple(l: Level, k: int): int {
    if l.Dilithium2? then 190464 * k else 523776 * k
  }

  /** The remainder modulo 2*GAMMA2. */
  function Remainder(l: Level, f: int): int {
    if l.Dilithium2? then f % 190464 else f % 523776
  }

  predicate InField(f: int) {
    0 <= f < Q
  }

  // ---- Vector instructions on one 32-bit lane whose upper half is zero ----

  /** `_mm256_mulhi_epu16`: the upper half of the unsigned 16-bit product. */
  function MulHiEpu16(a: int, b: int): int
    requires 0 <= a < 0x1_0000 && 0 <= b < 0x1_0000
  {
    a * b / 65536
  }

  /** `_mm256_mulhrs_epi16`: the signed 16-bit product, rounded to its upper bits. */
  function MulHrsEpi16(a: int, b: int): int
    requires 0 <= a < 0x8000 && 0 <= b < 0x8000
  {
    (a * b / 16384 + 1) / 2
  }

  // ---- decompose ----

  /** `f` divided by 2*GAMMA2 and rounded: an addition, a shift, a multiply-high by a reciprocal and a
      rounding multiply. */
  function Rounded(l: Level, f: int): int
    requires InField(f)
  {
    var f1 := (f + 127) / 128;
    if l.Dilithium2? then MulHrsEpi16(MulHiEpu16(f1, 11275), 128) else MulHrsEpi16(MulHiEpu16(f1, 1025), 512)
  }

  /** The high part: the top value is folded to zero by a sign blend at level 2 and by a mask at
      levels 3 and 5. */
  function Folded(l: Level, g: int): int {
    if l.Dilithium2? then (if 43 - g < 0 then 0 else g) else g % 16
  }

  function HighLane(l: Level, f: int): int
    requires InField(f)
  {
    Folded(l, Rounded(l, f))
  }

  /** The low part that goes with a high part. */
  function LowOf(l: Level, f: int, high: int): int {
    var f0 := f - Multiple(l, high);
    if f0 > Q / 2 then f0 - Q else f0
  }

  function LowLane(l: Level, f: int): int
    requires InField(f)
  {
    LowOf(l, f, HighLane(l, f))
  }

  /** Decompose of FIPS 204 (Algorithm 36). */
  function Decompose(l: Level, f: int): (int, int) {
    var m := Remainder(l, f);
    var r0 := if m > Gamma2(l) then m - Multiple(l, 1) else m;
    if f - r0 == Q - 1 then (0, r0 - 1)
    else ((f - r0) / (if l.Dilithium2? then 190464 else 523776), r0)
  }

  /** Rounding twice, to 1/128 and then to an integer, is rounding once. */
  lemma RoundTwiceD2(x: int, y: int, t: int, g: int)
    requires 0 <= x <= 65473
    requires 65536 * y <= 11275 * x < 65536 * y + 65536
    requires 128 * t <= y < 128 * t + 128
    requires 2 * g <= t + 1 < 2 * g + 2
    ensures 0 <= g <= 44 && 1488 * g - 743 <= x <= 1488 * g + 744
  {
  }

  lemma RoundTwiceD3(x: int, y: int, t: int, g: int)
    requires 0 <= x <= 65473
    requires 65536 * y <= 1025 * x < 65536 * y + 65536
    requires 32 * t <= y < 32 * t + 32
    requires 2 * g <= t + 1 < 2 * g + 2
    ensures 0 <= g <= 16 && 4092 * g - 2045 <= x <= 4092 * g + 2046
  {
  }

  lemma QuotientD2(x: int)
    requires 0 <= x <= 65473
    ensures var g := MulHrsEpi16(MulHiEpu16(x, 11275), 128);
      0 <= g <= 44 && 1488 * g - 743 <= x <= 1488 * g + 744
  {
    var y := x * 11275 / 65536;
    assert 65536 * y <= 11275 * x < 65536 * y + 65536;
    var t := y * 128 / 16384;
    assert 128 * t <= y < 128 * t + 128;
    RoundTwiceD2(x, y, t, (t + 1) / 2);
  }

  lemma QuotientD3(x: int)
    requires 0 <= x <= 65473
    ensures var g := MulHrsEpi16(MulHiEpu16(x, 1025), 512);
      0 <= g <= 16 && 4092 * g - 2045 <= x <= 4092 * g + 2046
  {
    var y := x * 1025 / 65536;
    assert 65536 * y <= 1025 * x < 65536 * y + 65536;
    var t := y * 512 / 16384;
    assert 32 * t <= y < 32 * t + 32;
    RoundTwiceD3(x, y, t, (t + 1) / 2);
  }

  /** `g` is the multiple of 2*GAMMA2 nearest to `f`. */
  predicate IsNearest(l: Level, f: int, g: int) {
    0 <= g <= High(l) && Multiple(l, g) - Gamma2(l) < f <= Multiple(l, g) + Gamma2(l)
  }

  lemma RoundedIsNearest(l: Level, f: int)
    requires InField(f)
    ensures IsNearest(l, f, Rounded(l, f))
  {
    var x := (f + 127) / 128;
    assert 128 * x <= f + 127 < 128 * x + 128;
    if l.Dilithium2? {
      QuotientD2(x);
    } else {
      QuotientD3(x);
    }
  }

  /** The nearest multiple gives the decomposition of the standard. */
  lemma NearestDecomposes(l: Level, f: int, g: int)
    requires InField(f) && IsNearest(l, f, g)
    ensures Decompose(l, f) == if g == High(l) then (0, f - Q) else (g, f - Multiple(l, g))
  {
    var d := f - Multiple(l, g);
    if l.Dilithium2? {
      assert f == 190464 * g + d;
      assert d >= 0 ==> f % 190464 == d;
      assert d < 0 ==> f % 190464 == d + 190464;
    } else {
      assert f == 523776 * g + d;
      assert d >= 0 ==> f % 523776 == d;
      assert d < 0 ==> f % 523776 == d + 523776;
    }
  }

  /** ... and folding it gives the two lanes computed by the vector code. */
  lemma NearestFolds(l: Level, f: int, g: int)
    requires InField(f) && IsNearest(l, f, g)
    ensures (Folded(l, g), LowOf(l, f, Folded(l, g))) ==
            if g == High(l) then (0, f - Q) else (g, f - Multiple(l, g))
  {
  }

  /** The multiply-high code is exact: it computes Decompose on the whole field. */
  lemma DecomposeIsExact(l: Level, f: int)
    requires InField(f)
    ensures (HighLane(l, f), LowLane(l, f)) == Decompose(l, f)
  {
    RoundedIsNearest(l, f);
    NearestDecomposes(l, f, Rounded(l, f));
    NearestFolds(l, f, Rounded(l, f));
  }

  /** Every field element has a nearest multiple. */
  lemma DecomposeInRange(l: Level, f: int)
    requires InField(f)
    ensures 0 <= Decompose(l, f).0 < High(l) && -Gamma2(l) <= Decompose(l, f).1 <= Gamma2(l)
  {
    RoundedIsNearest(l, f);
    NearestDecomposes(l, f, Rounded(l, f));
  }

  // ---- Hints ----

  /** The flag `make_hint` raises for one lane: the low part leaves (-GAMMA2, GAMMA2], except that
      -GAMMA2 itself stays with the high value zero. */
  function BadLane(l: Level, a0: int, a1: int): bool {
    var g0 := (if a0 < 0 then -a0 else a0) > Gamma2(l);
    var g1 := if a0 == -Gamma2(l) then -1 else 0;
    var signed := if a1 < 0 then -g1 else if a1 == 0 then 0 else g1;
    g0 || signed < 0
  }

  /** One lane of `use_hint` after decomposing: step the high part by the hint, down if the sign bit of
      the low part is set and up otherwise. */
  function StepLane(l: Level, r1: int, r0: int, hint: int): int {
    var t := (if r0 < 0 then hint else 0) * 2;
    var g := r1 + (hint - t);
    if l.Dilithium2? then
      var g1 := if g < 0 then 43 else g;
      if g1 > 43 then 0 else g1
    else g % 16
  }

  function UseHintLane(l: Level, f: int, hint: int): int
    requires InField(f)
  {
    StepLane(l, HighLane(l, f), LowLane(l, f), hint)
  }

  /** UseHint of FIPS 204 (Algorithm 40) after decomposing. */
  function Step(l: Level, r1: int, r0: int, hint: int): int {
    if hint == 1 && r0 > 0 then (if r1 + 1 == High(l) then 0 else r1 + 1)
    else if hint == 1 then (if r1 == 0 then High(l) - 1 else r1 - 1)
    else r1
  }

  function UseHint(l: Level, f: int, hint: int): int {
    Step(l, Decompose(l, f).0, Decompose(l, f).1, hint)
  }

  lemma StepsDiffer(l: Level, r1: int, r0: int, hint: int)
    requires 0 <= r1 < High(l) && 0 <= hint <= 1
    ensures StepLane(l, r1, r0, hint) == Step(l, r1, r0, hint) <==> !(hint == 1 && r0 == 0)
  {
  }

  /** The vector code takes the other direction than the standard on a hint with low part zero, and
      agrees with it everywhere else. */
  lemma UseHintIsStandardIff(l: Level, f: int, hint: int)
    requires InField(f) && 0 <= hint <= 1
    ensures UseHintLane(l, f, hint) == UseHint(l, f, hint) <==> !(hint == 1 && Decompose(l, f).1 == 0)
  {
    DecomposeIsExact(l, f);
    DecomposeInRange(l, f);
    StepsDiffer(l, Decompose(l, f).0, Decompose(l, f).1, hint);
  }

  /** The verifier's view of a coefficient: the committed high part shifted by `z`, modulo Q. */
  function Seen(l: Level, w1: int, z: int): int {
    (Multiple(l, w1) + z) % Q
  }

  /** A shift below 2*GAMMA2 moves the decomposition by at most one step, cyclically. */
  predicate Shifts(l: Level, w1: int, z: int, r1: int, r0: int) {
    if z > Gamma2(l) then r1 == (if w1 + 1 == High(l) then 0 else w1 + 1) && r0 < 0
    else if z < -Gamma2(l) || (z == -Gamma2(l) && w1 > 0) then r1 == (if w1 == 0 then High(l) - 1 else w1 - 1) && r0 > 0
    else r1 == w1
  }

  lemma SeenNearest(l: Level, w1: int, z: int) returns (g: int)
    requires 0 <= w1 < High(l) && -Multiple(l, 1) < z < Multiple(l, 1)
    ensures InField(Seen(l, w1, z)) && IsNearest(l, Seen(l, w1, z), g)
    ensures var f := Seen(l, w1, z);
      if g == High(l) then Shifts(l, w1, z, 0, f - Q) else Shifts(l, w1, z, g, f - Multiple(l, g))
  {
    var a, f := Multiple(l, w1) + z, Seen(l, w1, z);
    assert f == if a < 0 then a + Q else a;
    g := if z > Gamma2(l) then w1 + 1
         else if z < -Gamma2(l) || (z == -Gamma2(l) && w1 > 0) then (if w1 == 0 then High(l) - 1 else w1 - 1)
         else if a < 0 then High(l) else w1;
  }

  lemma SeenDecomposes(l: Level, w1: int, z: int)
    requires 0 <= w1 < High(l) && -Multiple(l, 1) < z < Multiple(l, 1)
    ensures InField(Seen(l, w1, z))
    ensures Shifts(l, w1, z, Decompose(l, Seen(l, w1, z)).0, Decompose(l, Seen(l, w1, z)).1)
  {
    var g := SeenNearest(l, w1, z);
    NearestDecomposes(l, Seen(l, w1, z), g);
  }

  /** `make_hint` flags exactly the coefficients whose high part the shift changes. */
  lemma HintMeansChange(l: Level, w1: int, z: int)
    requires 0 <= w1 < High(l) && -Multiple(l, 1) < z < Multiple(l, 1)
    ensures BadLane(l, z, w1) <==> Decompose(l, Seen(l, w1, z)).0 != w1
  {
    SeenDecomposes(l, w1, z);
  }

  lemma StepRecovers(l: Level, w1: int, z: int, r1: int, r0: int)
    requires 0 <= w1 < High(l) && Shifts(l, w1, z, r1, r0)
    ensures StepLane(l, r1, r0, if BadLane(l, z, w1) then 1 else 0) == w1
    ensures Step(l, r1, r0, if BadLane(l, z, w1) then 1 else 0) == w1
  {
  }

  /** The signer's hint lets the verifier recover the committed high part, with the vector code and
      with the standard's UseHint: for every `u` (the low part after subtracting c*s2) and `v` (c*t0)
      that the signer does not reject. */
  lemma HintRecovers(l: Level, w1: int, u: int, v: int)
    requires 0 <= w1 < High(l)
    requires -(Gamma2(l) - Beta(l)) < u < Gamma2(l) - Beta(l) && -Gamma2(l) < v < Gamma2(l)
    ensures InField(Seen(l, w1, u + v))
    ensures var hint := if BadLane(l, u + v, w1) then 1 else 0;
      UseHintLane(l, Seen(l, w1, u + v), hint) == w1 == UseHint(l, Seen(l, w1, u + v), hint)
  {
    var f := Seen(l, w1, u + v);
    SeenDecomposes(l, w1, u + v);
    DecomposeIsExact(l, f);
    StepRecovers(l, w1, u + v, Decompose(l, f).0, Decompose(l, f).1);
  }
}
