/** The challenge polynomial (`poly_challenge` in poly.c): SampleInBall of FIPS 204 (Algorithm 29). */
module Challenge {
  import opened Dilithium
  import opened Streams

  const RATE: int := 136

  // ---- The sign word ----

  /** The value of a bit string, least significant bit first. */
  function Number(bits: seq<bool>): nat {
    if bits == [] then 0 else (if bits[0] then 1 else 0) + 2 * Number(bits[1..])
  }

  /** The low `n` bits, the lowest first. */
  function Bits(x: nat, n: nat): (r: seq<bool>)
    ensures |r| == n
  {
    if n == 0 then [] else [x % 2 == 1] + Bits(x / 2, n - 1)
  }

  /** BytesToBits of FIPS 204 (Algorithm 13). */
  function BytesToBits(bytes: seq<Byte>): (r: seq<bool>)
    ensures |r| == 8 * |bytes|
  {
    if bytes == [] then [] else Bits(bytes[0], 8) + BytesToBits(bytes[1..])
  }

  lemma NumberCons(x: bool, rest: seq<bool>)
    ensures Number([x] + rest) == (if x then 1 else 0) + 2 * Number(rest)
  {
    assert ([x] + rest)[1..] == rest;
  }

  function Doubled(m: nat, n: nat): nat {
    if n == 0 then m else 2 * Doubled(m, n - 1)
  }

  lemma {:induction false} NumberBits(x: nat, n: nat, rest: seq<bool>)
    requires x < Doubled(1, n)
    ensures Number(Bits(x, n) + rest) == x + Doubled(Number(rest), n)
  {
    if n == 0 {
      assert Bits(x, n) + rest == rest;
    } else {
      NumberBits(x / 2, n - 1, rest);
      NumberCons(x % 2 == 1, Bits(x / 2, n - 1) + rest);
      assert Bits(x, n) + rest == [x % 2 == 1] + (Bits(x / 2, n - 1) + rest);
    }
  }

  lemma DoubledEightTimes(m: nat)
    ensures Doubled(m, 8) == 256 * m
  {
    assert Doubled(m, 2) == 2 * Doubled(m, 1) == 4 * m;
    assert Doubled(m, 4) == 2 * Doubled(m, 3) == 4 * Doubled(m, 2);
    assert Doubled(m, 6) == 2 * Doubled(m, 5) == 4 * Doubled(m, 4);
    assert Doubled(m, 8) == 2 * Doubled(m, 7) == 4 * Doubled(m, 6);
  }

  /** The word loaded from the first bytes lists their bits from its low end. */
  lemma {:induction false} LoadIsNumber(bytes: seq<Byte>)
    ensures Load(bytes) == Number(BytesToBits(bytes))
  {
    if bytes != [] {
      LoadIsNumber(bytes[1..]);
      DoubledEightTimes(1);
      DoubledEightTimes(Number(BytesToBits(bytes[1..])));
      NumberBits(bytes[0], 8, BytesToBits(bytes[1..]));
    }
  }

  // ---- The swap loop ----

  function Zero(): (c: seq<int>)
    ensures |c| == N && forall k :: 0 <= k < N ==> c[k] == 0
  {
    seq(N, k => 0)
  }

  /** Move the coefficient at `b` to `i` and put the sign at `b`. */
  function Swap(c: seq<int>, i: nat, b: nat, negative: bool): (r: seq<int>)
    requires b <= i < |c|
    ensures |r| == |c|
  {
    c[i := c[b]][b := if negative then -1 else 1]
  }

  /** Draw number `t` is at most `N - tau + t`. */
  predicate Fits(tau: nat, draws: seq<nat>) {
    |draws| <= tau <= N && forall t :: 0 <= t < |draws| ==> draws[t] <= N - tau + t
  }

  /** The polynomial after the given draws. */
  function Ball(tau: nat, draws: seq<nat>, signs: seq<bool>): (c: seq<int>)
    requires Fits(tau, draws) && |draws| <= |signs|
    ensures |c| == N
  {
    if draws == [] then Zero()
    else
      var t := |draws| - 1;
      Swap(Ball(tau, draws[..t], signs), N - tau + t, draws[t], signs[t])
  }

  function NonZero(c: seq<int>): set<int> {
    set k | 0 <= k < |c| && c[k] != 0
  }

  /** Coefficients are -1, 0 or 1, and all of them from `i` on are zero. */
  predicate Ternary(c: seq<int>, i: int) {
    && |c| == N
    && (forall k :: 0 <= k < N ==> -1 <= c[k] <= 1)
    && (forall k :: 0 <= k < N && i <= k ==> c[k] == 0)
  }

  lemma SwapAddsOne(c: seq<int>, i: nat, b: nat, negative: bool)
    requires b <= i < N && Ternary(c, i)
    ensures Ternary(Swap(c, i, b, negative), i + 1)
    ensures |NonZero(Swap(c, i, b, negative))| == |NonZero(c)| + 1
  {
    var r := Swap(c, i, b, negative);
    if c[b] == 0 {
      assert NonZero(r) == NonZero(c) + {b};
    } else {
      assert NonZero(r) == NonZero(c) + {i};
    }
  }

  /** Every draw adds one nonzero coefficient: `tau` draws give a polynomial of weight `tau`. */
  lemma {:induction false} BallWeight(tau: nat, draws: seq<nat>, signs: seq<bool>)
    requires Fits(tau, draws) && |draws| <= |signs|
    ensures Ternary(Ball(tau, draws, signs), N - tau + |draws|)
    ensures |NonZero(Ball(tau, draws, signs))| == |draws|
  {
    if draws == [] {
      assert NonZero(Zero()) == {};
    } else {
      var t := |draws| - 1;
      BallWeight(tau, draws[..t], signs);
      SwapAddsOne(Ball(tau, draws[..t], signs), N - tau + t, draws[t], signs[t]);
    }
  }

  function Minus(c: seq<int>): set<int> {
    set k | 0 <= k < |c| && c[k] == -1
  }

  function Trues(signs: seq<bool>): nat {
    if signs == [] then 0 else Trues(signs[..|signs| - 1]) + if signs[|signs| - 1] then 1 else 0
  }

  lemma MinusAfter(c: seq<int>, k: nat, v: int)
    requires k < |c|
    ensures Minus(c[k := v]) == if v == -1 then Minus(c) + {k} else Minus(c) - {k}
  {
  }

  lemma Exchanged(m: set<int>, m1: set<int>, m2: set<int>, i: int, b: int, negative: bool)
    requires i !in m && (b in m ==> b != i) && m1 == (if b in m then m + {i} else m - {i})
    requires m2 == if negative then m1 + {b} else m1 - {b}
    ensures |m2| == |m| + if negative then 1 else 0
  {
    if b in m {
      assert |m - {b}| == |m| - 1 && i !in m - {b};
      assert m2 == if negative then m + {i} else m - {b} + {i};
    } else {
      assert m1 == m;
      assert m2 == if negative then m + {b} else m;
    }
  }

  lemma SwapSigns(c: seq<int>, i: nat, b: nat, negative: bool)
    requires b <= i < N && Ternary(c, i)
    ensures |Minus(Swap(c, i, b, negative))| == |Minus(c)| + if negative then 1 else 0
  {
    var d := c[i := c[b]];
    MinusAfter(c, i, c[b]);
    MinusAfter(d, b, if negative then -1 else 1);
    Exchanged(Minus(c), Minus(d), Minus(Swap(c, i, b, negative)), i, b, negative);
  }

  /** A set sign bit places -1, a clear one 1: there are as many coefficients -1 as set bits among those used,
      and the last draw holds its own. */
  lemma {:induction false} BallSigns(tau: nat, draws: seq<nat>, signs: seq<bool>)
    requires Fits(tau, draws) && |draws| <= |signs|
    ensures |Minus(Ball(tau, draws, signs))| == Trues(signs[..|draws|])
    ensures draws != [] ==>
              Ball(tau, draws, signs)[draws[|draws| - 1]] == if signs[|draws| - 1] then -1 else 1
  {
    if draws == [] {
      assert Minus(Zero()) == {};
    } else {
      var t := |draws| - 1;
      BallSigns(tau, draws[..t], signs);
      BallWeight(tau, draws[..t], signs);
      SwapSigns(Ball(tau, draws[..t], signs), N - tau + t, draws[t], signs[t]);
      assert signs[..t + 1][..t] == signs[..t];
    }
  }

  lemma Undo(c: seq<int>, i: nat) returns (d: seq<int>, b: nat, negative: bool)
    requires i < N && Ternary(c, i + 1) && NonZero(c) != {}
    ensures b <= i && Ternary(d, i) && Swap(d, i, b, negative) == c
    ensures |NonZero(d)| == |NonZero(c)| - 1
  {
    if c[i] != 0 {
      b := i;
    } else {
      b :| b in NonZero(c);
    }
    negative := c[b] == -1;
    d := c[b := 0];
    assert NonZero(d) == NonZero(c) - {b};
  }

  lemma {:induction false} BallPrefix(tau: nat, draws: seq<nat>, signs: seq<bool>, more: seq<bool>)
    requires Fits(tau, draws) && |draws| <= |signs|
    ensures Ball(tau, draws, signs + more) == Ball(tau, draws, signs)
  {
    if draws != [] {
      BallPrefix(tau, draws[..|draws| - 1], signs, more);
    }
  }

  /** Conversely, every polynomial of weight at most `tau` with coefficients -1, 0, 1, zero from
      `N - tau + weight` on, comes from some draws: no challenge is out of reach. */
  lemma {:induction false} EveryBallIsReached(tau: nat, c: seq<int>, n: nat) returns (draws: seq<nat>, signs: seq<bool>)
    requires n <= tau <= N && Ternary(c, N - tau + n) && |NonZero(c)| == n
    ensures |draws| == |signs| == n && Fits(tau, draws) && Ball(tau, draws, signs) == c
    decreases n
  {
    if n == 0 {
      draws, signs := [], [];
      forall k | 0 <= k < N ensures c[k] == 0 {
        assert k !in NonZero(c);
      }
      assert c == Zero();
    } else {
      var d, b, negative := Undo(c, N - tau + n - 1);
      var ds, ss := EveryBallIsReached(tau, d, n - 1);
      draws, signs := ds + [b], ss + [negative];
      BallPrefix(tau, ds, ss, [negative]);
      assert draws[..n - 1] == ds;
    }
  }

  // ---- Drawing from the stream ----

  /** Byte `p` is the first from `q` on that does not exceed `i`. */
  ghost predicate FirstFit(s: Stream, q: nat, i: nat, p: nat) {
    q <= p && s(p) <= i && forall x: nat :: q <= x < p ==> s(x) > i
  }

  lemma FirstFitUnique(s: Stream, q: nat, i: nat, p: nat, p': nat)
    requires FirstFit(s, q, i, p) && FirstFit(s, q, i, p')
    ensures p == p'
  {
    assert p < p' ==> s(p) > i;
    assert p' < p ==> s(p') > i;
  }

  /** The byte after the last one drawn; the first eight hold the signs. */
  function After(path: seq<nat>): nat {
    if path == [] then 8 else path[|path| - 1] + 1
  }

  /** The stream positions of successive draws: each takes the first fitting byte after the last. */
  ghost predicate Path(s: Stream, tau: nat, path: seq<nat>) {
    && |path| <= tau <= N
    && (path == [] ||
        var t := |path| - 1;
        Path(s, tau, path[..t]) && FirstFit(s, After(path[..t]), N - tau + t, path[t]))
  }

  lemma {:induction false} PathStep(s: Stream, tau: nat, path: seq<nat>, t: nat)
    requires Path(s, tau, path) && t < |path|
    ensures Path(s, tau, path[..t]) && FirstFit(s, After(path[..t]), N - tau + t, path[t])
  {
    if t < |path| - 1 {
      var shorter := path[..|path| - 1];
      PathStep(s, tau, shorter, t);
      assert shorter[..t] == path[..t];
    }
  }

  /** A stream has one path of each length, if any. */
  lemma {:induction false} PathUnique(s: Stream, tau: nat, a: seq<nat>, b: seq<nat>)
    requires Path(s, tau, a) && Path(s, tau, b) && |a| == |b|
    ensures a == b
  {
    if a != [] {
      var t := |a| - 1;
      PathUnique(s, tau, a[..t], b[..t]);
      FirstFitUnique(s, After(a[..t]), N - tau + t, a[t], b[t]);
      assert a == a[..t] + [a[t]] && b == b[..t] + [b[t]];
    }
  }

  function Draws(s: Stream, path: seq<nat>): (r: seq<nat>)
    ensures |r| == |path| && forall t :: 0 <= t < |path| ==> r[t] == s(path[t])
  {
    seq(|path|, t requires 0 <= t < |path| => s(path[t]))
  }

  lemma DrawsFit(s: Stream, tau: nat, path: seq<nat>)
    requires Path(s, tau, path)
    ensures Fits(tau, Draws(s, path))
  {
    forall t | 0 <= t < |path| ensures Draws(s, path)[t] <= N - tau + t {
      PathStep(s, tau, path, t);
    }
  }

  /** What SampleInBall makes of the stream along a path. */
  function Sampled(s: Stream, tau: nat, path: seq<nat>): seq<int>
    requires Fits(tau, Draws(s, path)) && tau <= 64
  {
    Ball(tau, Draws(s, path), BytesToBits(Bytes(s, 0, 8)))
  }

  /** The buffer holds block `blocks - 1` of the stream and `pos` is where byte `at` stands in it. */
  ghost predicate Reading(s: Stream, buf: seq<Byte>, pos: nat, blocks: nat, at: nat) {
    blocks > 0 && buf == Bytes(s, RATE * (blocks - 1), RATE) && pos <= RATE && at == RATE * (blocks - 1) + pos
  }

  /** The inner loop: bytes one at a time, refilling the buffer when it is used up, until one fits.
      `target` is where that happens. */
  method Draw(s: Stream, buf: seq<Byte>, pos: nat, blocks: nat, i: nat, ghost from: nat, ghost target: nat)
      returns (b: Byte, buf': seq<Byte>, pos': nat, blocks': nat)
    requires Reading(s, buf, pos, blocks, from) && FirstFit(s, from, i, target)
    ensures b == s(target) <= i && Reading(s, buf', pos', blocks', target + 1)
  {
    buf', pos', blocks' := buf, pos, blocks;
    b := 0;
    ghost var at := from;
    while true
      invariant Reading(s, buf', pos', blocks', at) && FirstFit(s, at, i, target)
      decreases target - at
    {
      if pos' >= RATE {
        buf' := Bytes(s, RATE * blocks', RATE);
        pos', blocks' := 0, blocks' + 1;
      }
      b := buf'[pos'];
      pos' := pos' + 1;
      at := at + 1;
      if b <= i {
        break;
      }
    }
  }

  /** One turn of the swap loop: the sign is the low bit of the word. */
  method Place(c: array<int>, i: nat, b: nat, signs: nat, ghost bits: seq<bool>) returns (signs': nat)
    requires b <= i < c.Length && bits != [] && signs == Number(bits)
    modifies c
    ensures c[..] == Swap(old(c[..]), i, b, bits[0])
    ensures signs' == Number(bits[1..])
  {
    c[i] := c[b];
    c[b] := 1 - 2 * (signs % 2);
    signs' := signs / 2;
  }

  lemma BallNext(tau: nat, draws: seq<nat>, signs: seq<bool>, t: nat)
    requires Fits(tau, draws) && t < |draws| <= |signs|
    ensures Ball(tau, draws[..t + 1], signs)
         == Swap(Ball(tau, draws[..t], signs), N - tau + t, draws[t], signs[t])
  {
    assert draws[..t + 1][..t] == draws[..t];
  }

  method Clear(c: array<int>)
    requires c.Length == N
    modifies c
    ensures c[..] == Zero()
  {
    for k := 0 to N
      invariant forall x :: 0 <= x < k ==> c[x] == 0
    {
      c[k] := 0;
    }
  }

  /** One turn of the outer loop: draw number `t`. */
  method DrawAndPlace(c: array<int>, s: Stream, tau: nat, i: nat, buf: seq<Byte>, pos: nat, blocks: nat, signs: nat,
                      ghost path: seq<nat>, ghost bits: seq<bool>, ghost t: nat)
      returns (buf': seq<Byte>, pos': nat, blocks': nat, signs': nat)
    requires c.Length == N && Path(s, tau, path) && Fits(tau, Draws(s, path))
    requires t < |path| <= |bits| && i == N - tau + t
    requires Reading(s, buf, pos, blocks, After(path[..t])) && signs == Number(bits[t..])
    requires c[..] == Ball(tau, Draws(s, path)[..t], bits)
    modifies c
    ensures Reading(s, buf', pos', blocks', After(path[..t + 1])) && signs' == Number(bits[t + 1..])
    ensures c[..] == Ball(tau, Draws(s, path)[..t + 1], bits)
  {
    var b;
    PathStep(s, tau, path, t);
    b, buf', pos', blocks' := Draw(s, buf, pos, blocks, i, After(path[..t]), path[t]);
    signs' := Place(c, i, b, signs, bits[t..]);
    BallNext(tau, Draws(s, path), bits, t);
  }

  /** The draws along a path, placed one by one. */
  method PlaceAll(c: array<int>, s: Stream, tau: nat, ghost path: seq<nat>, ghost bits: seq<bool>)
    requires c.Length == N && tau <= 64 && bits == BytesToBits(Bytes(s, 0, 8))
    requires Path(s, tau, path) && |path| == tau && Fits(tau, Draws(s, path))
    modifies c
    ensures c[..] == Ball(tau, Draws(s, path), bits)
  {
    var buf := Bytes(s, 0, RATE);
    var blocks: nat, pos: nat := 1, 8;
    var signs := Load(buf[..8]);
    assert buf[..8] == Bytes(s, 0, 8);
    LoadIsNumber(buf[..8]);
    Clear(c);
    ghost var t := 0;
    assert bits[t..] == bits;
    for i := N - tau to N
      invariant t == i - (N - tau) && 0 <= i
      invariant Reading(s, buf, pos, blocks, After(path[..t])) && signs == Number(bits[t..])
      invariant c[..] == Ball(tau, Draws(s, path)[..t], bits)
    {
      buf, pos, blocks, signs := DrawAndPlace(c, s, tau, i, buf, pos, blocks, signs, path, bits, t);
      t := t + 1;
    }
    assert Draws(s, path)[..tau] == Draws(s, path);
  }

  /** `poly_challenge` on any stream along which all draws succeed: on others the code does not
      return. The result is SampleInBall of the stream, of weight exactly `tau`. */
  method PolyChallenge(c: array<int>, s: Stream, tau: nat)
    requires c.Length == N && tau <= 64
    requires exists path :: Path(s, tau, path) && |path| == tau
    modifies c
    ensures forall path :: Path(s, tau, path) && |path| == tau ==>
                             Fits(tau, Draws(s, path)) && c[..] == Sampled(s, tau, path)
    ensures |NonZero(c[..])| == tau && Ternary(c[..], N)
  {
    ghost var path :| Path(s, tau, path) && |path| == tau;
    ghost var bits := BytesToBits(Bytes(s, 0, 8));
    DrawsFit(s, tau, path);
    PlaceAll(c, s, tau, path, bits);
    BallWeight(tau, Draws(s, path), bits);
    forall p | Path(s, tau, p) && |p| == tau
      ensures Fits(tau, Draws(s, p)) && c[..] == Sampled(s, tau, p)
    {
      PathUnique(s, tau, p, path);
    }
  }

  // ---- Every challenge can come out ----

  /** A byte with the given bits. */
  lemma {:induction false} BitsOfNumber(bits: seq<bool>)
    ensures Number(bits) < Doubled(1, |bits|) && Bits(Number(bits), |bits|) == bits
  {
    if bits != [] {
      BitsOfNumber(bits[1..]);
      assert bits == [bits[0]] + bits[1..];
      assert Number(bits) / 2 == Number(bits[1..]) && (Number(bits) % 2 == 1 <==> bits[0]);
    }
  }

  /** The bytes with the given bits. */
  lemma {:induction false} SomeBytes(bits: seq<bool>, n: nat) returns (bytes: seq<Byte>)
    requires |bits| == 8 * n
    ensures |bytes| == n && BytesToBits(bytes) == bits
    decreases n
  {
    if n == 0 {
      bytes := [];
    } else {
      var more := SomeBytes(bits[8..], n - 1);
      BitsOfNumber(bits[..8]);
      DoubledEightTimes(1);
      var b: Byte := Number(bits[..8]);
      bytes := [b] + more;
      assert bytes[1..] == more && bits == bits[..8] + bits[8..];
    }
  }

  /** Sign bytes, then the draws, then zeros. */
  function StreamOf(bytes: seq<Byte>, draws: seq<Byte>): Stream {
    (i: nat) => if i < |bytes| then bytes[i] else if i - |bytes| < |draws| then draws[i - |bytes|] else 0
  }

  /** One byte for each draw, from the eighth on. */
  function Straight(n: nat): (path: seq<nat>)
    ensures |path| == n && forall t :: 0 <= t < n ==> path[t] == 8 + t
  {
    seq(n, t requires 0 <= t < n => 8 + t)
  }

  lemma {:induction false} StraightPath(tau: nat, bytes: seq<Byte>, draws: seq<Byte>, n: nat)
    requires |bytes| == 8 && |draws| == tau <= N && n <= tau
    requires forall t :: 0 <= t < tau ==> draws[t] <= N - tau + t
    ensures Path(StreamOf(bytes, draws), tau, Straight(n))
  {
    if n > 0 {
      StraightPath(tau, bytes, draws, n - 1);
      assert Straight(n)[..n - 1] == Straight(n - 1);
      assert After(Straight(n - 1)) == 8 + (n - 1);
      assert StreamOf(bytes, draws)(8 + (n - 1)) == draws[n - 1];
    }
  }

  /** Whatever the draws that fit and the signs, a stream takes them: eight bytes of signs, then a byte a draw. */
  lemma EveryDrawIsDrawn(tau: nat, draws: seq<Byte>, signs: seq<bool>) returns (s: Stream)
    requires |draws| == tau <= N && |signs| == 64 && forall t :: 0 <= t < tau ==> draws[t] <= N - tau + t
    ensures Path(s, tau, Straight(tau)) && Draws(s, Straight(tau)) == draws && BytesToBits(Bytes(s, 0, 8)) == signs
  {
    var bytes := SomeBytes(signs, 8);
    s := StreamOf(bytes, draws);
    StraightPath(tau, bytes, draws, tau);
    assert Bytes(s, 0, 8) == bytes;
  }

  /** So every polynomial of weight `tau` with coefficients -1, 0 and 1 is the challenge of some stream. */
  lemma EveryChallengeComesOut(tau: nat, c: seq<int>) returns (s: Stream, path: seq<nat>)
    requires tau <= 64 && Ternary(c, N) && |NonZero(c)| == tau
    ensures Path(s, tau, path) && |path| == tau && Fits(tau, Draws(s, path)) && Sampled(s, tau, path) == c
  {
    var draws, signs := EveryBallIsReached(tau, c, tau);
    var more: seq<bool> := seq(64 - tau, _ => false);
    BallPrefix(tau, draws, signs, more);
    var bytes: seq<Byte> := seq(tau, t requires 0 <= t < tau => draws[t]);
    assert bytes == draws;
    s := EveryDrawIsDrawn(tau, bytes, signs + more);
    path := Straight(tau);
  }
}
