/** The sponge state of fips202.c as 25 words, with the operations of `uint64_t` it uses as parameters. */
module Lanes {
  import opened Sponge

  /** Words and bytes. On words: exclusive or, or, a byte shifted up to place `k`
      (`(uint64_t)b << 8 * k`), the byte at place `k` (`(uint8_t)(x >> 8 * k)`), and whether there are no
      bits from place `k` up. On bytes: zero, 128, setting the top bit, whether it is clear,
      and exclusive or. */
  datatype Words<!W, !B> = Words(
    zero: W,
    xor: (W, W) -> W,
    or: (W, W) -> W,
    shl: (B, nat) -> W,
    shr: (W, nat) -> B,
    low: (W, nat) -> bool,
    nil: B,
    top: B,
    withTop: B -> B,
    topClear: B -> bool,
    xorByte: (B, B) -> B)

  ghost predicate ZeroIsUnit<W(!new), B(!new)>(w: Words<W, B>) {
    && (forall u :: w.xor(u, w.zero) == u)
    && (forall u, k :: 0 <= k < 8 ==> w.xor(u, w.shl(w.nil, k)) == u)
  }

  /** Or-ing a byte in above the bits of `x` is xoring it in. */
  ghost predicate OrIsXor<W(!new), B(!new)>(w: Words<W, B>) {
    && w.low(w.zero, 0)
    && (forall x, b, k :: 0 <= k < 8 && w.low(x, k) ==> w.low(w.or(x, w.shl(b, k)), k + 1))
    && (forall u, x, b, k :: 0 <= k < 8 && w.low(x, k) ==>
          w.xor(u, w.or(x, w.shl(b, k))) == w.xor(w.xor(u, x), w.shl(b, k)))
  }

  /** Xoring the top bit in twice is or-ing it in once only if it was clear. */
  ghost predicate PaddingBit<W(!new), B(!new)>(w: Words<W, B>) {
    forall u, p {:trigger w.shl(p, 7), w.withTop(p), w.xor(u, w.shl(p, 7))} ::
      w.xor(w.xor(u, w.shl(p, 7)), w.shl(w.top, 7)) == w.xor(u, w.shl(w.withTop(p), 7)) <==> w.topClear(p)
  }

  ghost predicate TopOfZero<W, B>(w: Words<W, B>) {
    w.withTop(w.nil) == w.top
  }

  ghost predicate Laws<W(!new), B(!new)>(w: Words<W, B>) {
    ZeroIsUnit(w) && OrIsXor(w) && PaddingBit(w)
  }

  /** Reading undoes writing: a byte shifted up is found at its own place and nowhere else, and exclusive or
      works byte by byte. */
  ghost predicate ReadsBack<W(!new), B(!new)>(w: Words<W, B>) {
    ReadsShifted(w) && ReadsXor(w) && ReadsZero(w)
  }

  ghost predicate ReadsShifted<W(!new), B(!new)>(w: Words<W, B>) {
    forall b, j, k :: 0 <= j < 8 && 0 <= k < 8 ==> w.shr(w.shl(b, k), j) == if j == k then b else w.nil
  }

  ghost predicate ReadsXor<W(!new), B(!new)>(w: Words<W, B>) {
    forall x, y, j :: 0 <= j < 8 ==> w.shr(w.xor(x, y), j) == w.xorByte(w.shr(x, j), w.shr(y, j))
  }

  ghost predicate ReadsZero<W(!new), B(!new)>(w: Words<W, B>) {
    && (forall j :: 0 <= j < 8 ==> w.shr(w.zero, j) == w.nil)
    && (forall x :: w.xor(w.zero, x) == x)
    && (forall b :: w.xorByte(b, w.nil) == b && w.xorByte(w.nil, b) == b)
  }

  predicate Rate(r: nat) {
    0 < r <= 200 && r % 8 == 0
  }

  // ---- Bytes of the state ----

  /** Byte `p`, little-endian within words. */
  function ByteAt<W, B>(w: Words<W, B>, s: seq<W>, p: nat): B {
    if p / 8 < |s| then w.shr(s[p / 8], p % 8) else w.nil
  }

  function XorAt<W, B>(w: Words<W, B>, s: seq<W>, p: nat, b: B): (s': seq<W>)
    ensures |s'| == |s|
  {
    if p / 8 < |s| then s[p / 8 := w.xor(s[p / 8], w.shl(b, p % 8))] else s
  }

  function Keccak<W, B>(w: Words<W, B>, f: seq<W> -> seq<W>): Core<seq<W>, B> {
    Core(f, (s, p, b) => XorAt(w, s, p, b), (s, p) => ByteAt(w, s, p))
  }

  function Zeros<W, B>(w: Words<W, B>, n: nat): (z: seq<B>)
    ensures |z| == n && forall i :: 0 <= i < n ==> z[i] == w.nil
  {
    seq(n, _ => w.nil)
  }

  lemma XorZero<W(!new), B(!new)>(w: Words<W, B>, s: seq<W>, p: nat)
    requires ZeroIsUnit(w)
    ensures XorAt(w, s, p, w.nil) == s
  {
    if p / 8 < |s| {
      assert w.xor(s[p / 8], w.shl(w.nil, p % 8)) == s[p / 8];
    }
  }

  lemma {:induction false} XorZeros<W(!new), B(!new)>(w: Words<W, B>, f: seq<W> -> seq<W>, s: seq<W>, p: nat, n: nat)
    requires ZeroIsUnit(w)
    ensures XorFrom(Keccak(w, f), s, p, Zeros(w, n)) == s
  {
    if n > 0 {
      XorZeros(w, f, s, p, n - 1);
      assert Zeros(w, n)[..n - 1] == Zeros(w, n - 1);
      XorZero(w, s, p + n - 1);
    }
  }

  lemma {:induction false} XorKeepsLength<W, B>(w: Words<W, B>, f: seq<W> -> seq<W>, s: seq<W>, p: nat, m: seq<B>)
    ensures |XorFrom(Keccak(w, f), s, p, m)| == |s|
  {
    if m != [] {
      XorKeepsLength(w, f, s, p, m[..|m| - 1]);
    }
  }

  // ---- Whole words ----

  /** The first `k` bytes of `x`, little-endian: `load64` for `k == 8`. */
  function Word<W, B>(w: Words<W, B>, x: seq<B>, k: nat): W
    requires k <= |x|
  {
    if k == 0 then w.zero else w.or(Word(w, x, k - 1), w.shl(x[k - 1], k - 1))
  }

  lemma {:induction false} WordIsLow<W(!new), B(!new)>(w: Words<W, B>, x: seq<B>, k: nat)
    requires OrIsXor(w) && k <= |x| <= 8
    ensures w.low(Word(w, x, k), k)
  {
    if k > 0 {
      WordIsLow(w, x, k - 1);
      assert w.low(w.or(Word(w, x, k - 1), w.shl(x[k - 1], k - 1)), k - 1 + 1);
    }
  }

  /** Xoring a word into a lane is xoring its bytes into the state one by one. */
  lemma {:induction false} XorLane<W(!new), B(!new)>(w: Words<W, B>, f: seq<W> -> seq<W>, s: seq<W>, i: nat,
                                     x: seq<B>, k: nat)
    requires Laws(w) && i < |s| && |x| == 8 && k <= 8
    ensures XorFrom(Keccak(w, f), s, 8 * i, x[..k]) == s[i := w.xor(s[i], Word(w, x, k))]
  {
    if k == 0 {
      assert s[i := s[i]] == s;
    } else {
      XorLane(w, f, s, i, x, k - 1);
      assert x[..k][..k - 1] == x[..k - 1];
      WordIsLow(w, x, k - 1);
      assert (8 * i + (k - 1)) / 8 == i && (8 * i + (k - 1)) % 8 == k - 1;
    }
  }

  lemma NextWord<B>(block: seq<B>, i: nat, x: seq<B>)
    requires 8 * i + 8 <= |block| && x == block[8 * i..8 * i + 8]
    ensures block[..8 * (i + 1)] == block[..8 * i] + x && x[..8] == x && |block[..8 * i]| == 8 * i
  {
  }

  /** One more word of a block. */
  lemma XorWord<W(!new), B(!new)>(w: Words<W, B>, f: seq<W> -> seq<W>, s: seq<W>, block: seq<B>, i: nat,
                                  before: seq<W>, after: seq<W>)
    requires Laws(w) && 8 * i + 8 <= |block| && before == XorFrom(Keccak(w, f), s, 0, block[..8 * i])
    requires i < |before| && after == before[i := w.xor(before[i], Word(w, block[8 * i..8 * i + 8], 8))]
    ensures after == XorFrom(Keccak(w, f), s, 0, block[..8 * (i + 1)])
  {
    var x := block[8 * i..8 * i + 8];
    NextWord(block, i, x);
    AppendWord(w, f, s, block[..8 * i], i, x, before, after);
  }

  lemma AppendWord<W(!new), B(!new)>(w: Words<W, B>, f: seq<W> -> seq<W>, s: seq<W>, m: seq<B>, i: nat, x: seq<B>,
                                     before: seq<W>, after: seq<W>)
    requires Laws(w) && |m| == 8 * i && |x| == 8 && x[..8] == x && before == XorFrom(Keccak(w, f), s, 0, m)
    requires i < |before| && after == before[i := w.xor(before[i], Word(w, x, 8))]
    ensures after == XorFrom(Keccak(w, f), s, 0, m + x)
  {
    XorLane(w, f, before, i, x, 8);
    XorFromConcat(Keccak(w, f), s, 0, m, x);
  }

  // ---- Reading back ----

  /** Xoring a byte in changes that byte of the state, and no other. */
  lemma XorAtReads<W(!new), B(!new)>(w: Words<W, B>, s: seq<W>, p: nat, b: B, q: nat)
    requires ReadsBack(w) && p < 8 * |s| && q < 8 * |s|
    ensures ByteAt(w, XorAt(w, s, p, b), q) == if q == p then w.xorByte(ByteAt(w, s, p), b) else ByteAt(w, s, q)
  {
    assert q == p <==> q / 8 == p / 8 && q % 8 == p % 8;
    if q / 8 == p / 8 {
      assert w.shr(w.shl(b, p % 8), q % 8) == if q % 8 == p % 8 then b else w.nil;
    }
  }

  lemma ZeroReads<W(!new), B(!new)>(w: Words<W, B>, q: nat)
    requires ReadsBack(w) && q < 200
    ensures ByteAt(w, ZeroState(w), q) == w.nil
  {
  }

  /** A message xored into the zero state is read back byte by byte, and nothing else is there. */
  lemma {:induction false} AbsorbedReads<W(!new), B(!new)>(w: Words<W, B>, f: seq<W> -> seq<W>, m: seq<B>, q: nat)
    requires ReadsBack(w) && |m| <= 200 && q < 200
    ensures ByteAt(w, XorFrom(Keccak(w, f), ZeroState(w), 0, m), q) == if q < |m| then m[q] else w.nil
  {
    if m == [] {
      ZeroReads(w, q);
    } else {
      var n := |m| - 1;
      var s := XorFrom(Keccak(w, f), ZeroState(w), 0, m[..n]);
      AbsorbedReads(w, f, m[..n], q);
      XorKeepsLength(w, f, ZeroState(w), 0, m[..n]);
      if q == n {
        AbsorbedReads(w, f, m[..n], n);
      }
      XorAtReads(w, s, n, m[n], q);
    }
  }

  lemma OrReads<W(!new), B(!new)>(w: Words<W, B>, u: W, b: B, k: nat, v: W, j: nat)
    requires ReadsBack(w) && OrIsXor(w) && k < 8 && j < 8 && w.low(u, k) && v == w.shl(b, k)
    ensures w.shr(w.or(u, v), j) == w.xorByte(w.shr(u, j), w.shr(v, j))
  {
    assert w.xor(w.zero, w.or(u, v)) == w.xor(w.xor(w.zero, u), v);
  }

  /** A loaded word has the bytes it was loaded from. */
  lemma {:induction false} WordReads<W(!new), B(!new)>(w: Words<W, B>, x: seq<B>, k: nat, j: nat)
    requires ReadsBack(w) && OrIsXor(w) && k <= |x| <= 8 && j < 8
    ensures w.shr(Word(w, x, k), j) == if j < k then x[j] else w.nil
  {
    if k > 0 {
      WordReads(w, x, k - 1, j);
      WordIsLow(w, x, k - 1);
      OneMoreByte(w, Word(w, x, k - 1), x[k - 1], k - 1, Word(w, x, k), j);
    }
  }

  lemma OneMoreByte<W(!new), B(!new)>(w: Words<W, B>, u: W, b: B, k: nat, v: W, j: nat)
    requires ReadsBack(w) && OrIsXor(w) && k < 8 && j < 8 && w.low(u, k) && v == w.or(u, w.shl(b, k))
    requires j >= k ==> w.shr(u, j) == w.nil
    ensures w.shr(v, j) == if j == k then b else if j < k then w.shr(u, j) else w.nil
  {
    OrReads(w, u, b, k, w.shl(b, k), j);
    ShiftedReads(w, b, k, j);
    NilReads(w, w.shr(u, j));
  }

  lemma NilReads<W(!new), B(!new)>(w: Words<W, B>, b: B)
    requires ReadsBack(w)
    ensures w.xorByte(b, w.nil) == b && w.xorByte(w.nil, b) == b
  {
  }

  lemma ShiftedReads<W(!new), B(!new)>(w: Words<W, B>, b: B, k: nat, j: nat)
    requires ReadsBack(w) && k < 8 && j < 8
    ensures w.shr(w.shl(b, k), j) == if j == k then b else w.nil
    ensures w.xorByte(w.nil, b) == b
  {
  }

  // ---- Padding ----

  /** pad10*1 on the `room` bytes left in a block; `p` carries the domain bits and the first padding bit. */
  function Pad<W, B>(w: Words<W, B>, room: nat, p: B): (pad: seq<B>)
    requires room > 0
    ensures |pad| == room
  {
    if room == 1 then [w.withTop(p)] else [p] + Zeros(w, room - 2) + [w.top]
  }

  function ZeroState<W, B>(w: Words<W, B>): (s: seq<W>)
    ensures |s| == 25 && forall i :: 0 <= i < 25 ==> s[i] == w.zero
  {
    seq(25, _ => w.zero)
  }

  function Start<W, B>(w: Words<W, B>): Inc<seq<W>> {
    Inc(ZeroState(w), 0)
  }

  /** Byte `i` of SPONGE[f, pad, r](m). */
  function SpongeByte<W, B>(w: Words<W, B>, f: seq<W> -> seq<W>, r: nat, m: seq<B>, p: B, i: nat): B
    requires r > 0
  {
    Xof(Keccak(w, f), r, AbsorbBlocks(Keccak(w, f), r, ZeroState(w), m + Pad(w, r - Used(r, |m|), p)), i)
  }

  /** `out` is SPONGE[f, pad, r](m), cut to its length. */
  ghost predicate IsSponge<W, B>(w: Words<W, B>, f: seq<W> -> seq<W>, r: nat, m: seq<B>, p: B, out: seq<B>)
    requires r > 0
  {
    forall i :: 0 <= i < |out| ==> out[i] == SpongeByte(w, f, r, m, p, i)
  }

  /** What `keccak_absorb` makes of a message. */
  function OneShot<W, B>(w: Words<W, B>, f: seq<W> -> seq<W>, r: nat, m: seq<B>, p: B): seq<W>
    requires r > 0
  {
    Padded(Keccak(w, f), r, ZeroState(w), m, Pad(w, r - Used(r, |m|), p))
  }

  /** What `keccak_inc_finalize` makes of a state. */
  function Finalized<W, B>(w: Words<W, B>, r: nat, st: Inc<seq<W>>, p: B): Inc<seq<W>>
    requires r > 0
  {
    Inc(XorAt(w, XorAt(w, st.s, st.n, p), r - 1, w.top), 0)
  }

  lemma SameByteTwice<W(!new), B(!new)>(w: Words<W, B>, s: seq<W>, q: nat, p: B)
    requires PaddingBit(w) && q / 8 < |s| && q % 8 == 7
    ensures XorAt(w, XorAt(w, s, q, p), q, w.top) == XorAt(w, s, q, w.withTop(p)) <==> w.topClear(p)
  {
    var l := q / 8;
    var a, b := XorAt(w, XorAt(w, s, q, p), q, w.top), XorAt(w, s, q, w.withTop(p));
    assert a[l] == w.xor(w.xor(s[l], w.shl(p, 7)), w.shl(w.top, 7));
    assert b[l] == w.xor(s[l], w.shl(w.withTop(p), 7));
    assert a == s[l := a[l]] && b == s[l := b[l]];
  }

  lemma PadLong<W, B>(w: Words<W, B>, room: nat, p: B, zeros: seq<B>, pad: seq<B>)
    requires room > 1 && zeros == Zeros(w, room - 2) && pad == Pad(w, room, p)
    ensures pad == [p] + zeros + [w.top]
  {
  }

  lemma PadIsTwoBytes<W(!new), B(!new)>(w: Words<W, B>, f: seq<W> -> seq<W>, s: seq<W>, n: nat, r: nat, p: B)
    requires ZeroIsUnit(w) && n < r - 1
    ensures XorFrom(Keccak(w, f), s, n, Pad(w, r - n, p)) == XorAt(w, XorAt(w, s, n, p), r - 1, w.top)
  {
    var room, first := r - n, XorAt(w, s, n, p);
    var zeros, pad := Zeros(w, room - 2), Pad(w, room, p);
    PadLong(w, room, p, zeros, pad);
    XorZeros(w, f, first, n + 1, room - 2);
    XorFirstLast(w, f, s, n, p, zeros, first, pad, r - 1);
  }

  lemma XorFirstLast<W(!new), B(!new)>(w: Words<W, B>, f: seq<W> -> seq<W>, s: seq<W>, n: nat, p: B, zeros: seq<B>,
                                       first: seq<W>, pad: seq<B>, last: nat)
    requires first == XorAt(w, s, n, p) && XorFrom(Keccak(w, f), first, n + 1, zeros) == first
    requires pad == [p] + zeros + [w.top] && last == n + 1 + |zeros|
    ensures XorFrom(Keccak(w, f), s, n, pad) == XorAt(w, first, last, w.top)
  {
    XorEnds(Keccak(w, f), s, n, p, zeros, w.top, [p] + zeros);
  }

  ghost predicate KeepsLength<W(!new)>(f: seq<W> -> seq<W>) {
    forall s :: |s| == 25 ==> |f(s)| == 25
  }

  lemma {:induction false} FeedKeepsLength<W(!new), B(!new)>(w: Words<W, B>, f: seq<W> -> seq<W>, r: nat,
                                             st: Inc<seq<W>>, m: seq<B>)
    requires KeepsLength(f) && st.n < r && |st.s| == 25
    ensures |Feed(Keccak(w, f), r, st, m).s| == 25
  {
    if m != [] {
      FeedKeepsLength(w, f, r, st, m[..|m| - 1]);
    }
  }

  lemma TwoBytesAgree<W(!new), B(!new)>(w: Words<W, B>, f: seq<W> -> seq<W>, r: nat, st: Inc<seq<W>>, p: B,
                                        fin: Inc<seq<W>>, one: seq<W>)
    requires Laws(w) && Rate(r) && |st.s| == 25 && st.n < r
    requires fin == Finalized(w, r, st, p) && one == XorFrom(Keccak(w, f), st.s, st.n, Pad(w, r - st.n, p))
    ensures fin.s == one <==> w.topClear(p) || st.n != r - 1
  {
    if st.n == r - 1 {
      SameByteTwice(w, st.s, r - 1, p);
      XorOne(Keccak(w, f), st.s, st.n, w.withTop(p));
    } else {
      PadIsTwoBytes(w, f, st.s, st.n, r, p);
    }
  }

  lemma AbsorbedOneShot<W, B>(w: Words<W, B>, f: seq<W> -> seq<W>, r: nat, m: seq<B>, p: B, st: Inc<seq<W>>)
    requires r > 0 && st == Feed(Keccak(w, f), r, Start(w), m)
    ensures st.n == Used(r, |m|)
    ensures OneShot(w, f, r, m, p) == XorFrom(Keccak(w, f), st.s, st.n, Pad(w, r - st.n, p))
  {
    FeedCount(Keccak(w, f), r, Start(w), m);
  }

  /** `keccak_absorb` ors the last padding bit in where `keccak_inc_finalize` xors it: the two leave
      the same state unless one byte takes both paddings and already has its top bit set. */
  lemma FinalizeAgreesIff<W(!new), B(!new)>(w: Words<W, B>, f: seq<W> -> seq<W>, r: nat, m: seq<B>, p: B)
    requires Laws(w) && KeepsLength(f) && Rate(r)
    ensures Finalized(w, r, Feed(Keccak(w, f), r, Start(w), m), p).s == OneShot(w, f, r, m, p)
       <==> w.topClear(p) || Used(r, |m|) != r - 1
  {
    var st := Feed(Keccak(w, f), r, Start(w), m);
    AbsorbedOneShot(w, f, r, m, p, st);
    FeedKeepsLength(w, f, r, Start(w), m);
    TwoBytesAgree(w, f, r, st, p, Finalized(w, r, st, p), OneShot(w, f, r, m, p));
  }

  lemma OneShotByte<W, B>(w: Words<W, B>, f: seq<W> -> seq<W>, r: nat, m: seq<B>, p: B, i: nat)
    requires r > 0
    ensures OutByte(Keccak(w, f), r, Inc(OneShot(w, f, r, m, p), 0), i) == SpongeByte(w, f, r, m, p, i)
  {
    PaddedIsAbsorbed(Keccak(w, f), r, ZeroState(w), m, Pad(w, r - Used(r, |m|), p));
    OutIsXof(Keccak(w, f), r, f(OneShot(w, f, r, m, p)), i);
  }

  /** Squeezing from the padded state yields the reference output. */
  lemma OneShotSqueezes<W, B>(w: Words<W, B>, f: seq<W> -> seq<W>, r: nat, m: seq<B>, p: B, out: seq<B>)
    requires r > 0 && Output(Keccak(w, f), r, Inc(OneShot(w, f, r, m, p), 0), out)
    ensures IsSponge(w, f, r, m, p, out)
  {
    forall i | 0 <= i < |out| ensures out[i] == SpongeByte(w, f, r, m, p, i) {
      OneShotByte(w, f, r, m, p, i);
    }
  }

  /** However the message is cut into absorb calls and the output into squeeze calls, the incremental
      interface puts out the sponge of the whole message. */
  lemma SplitsDoNotMatter<W(!new), B(!new)>(w: Words<W, B>, f: seq<W> -> seq<W>, r: nat, p: B,
                                                               chunks: seq<seq<B>>, outs: seq<seq<B>>)
    requires Laws(w) && KeepsLength(f) && Rate(r)
    requires w.topClear(p) || Used(r, |Concat(chunks)|) != r - 1
    requires OutputAll(Keccak(w, f), r, Finalized(w, r, FeedAll(Keccak(w, f), r, Start(w), chunks), p), outs)
    ensures IsSponge(w, f, r, Concat(chunks), p, Concat(outs))
  {
    var m := Concat(chunks);
    FeedAllIsFeed(Keccak(w, f), r, Start(w), chunks);
    FinalizeAgreesIff(w, f, r, m, p);
    OutputAllIsOutput(Keccak(w, f), r, Inc(OneShot(w, f, r, m, p), 0), outs);
    OneShotSqueezes(w, f, r, m, p, Concat(outs));
  }

  // ---- One block, byte by byte ----

  /** The bytes of a state are `block`, and zero behind it. */
  ghost predicate Holds<W, B>(w: Words<W, B>, s: seq<W>, block: seq<B>) {
    |s| == 25 && forall q :: 0 <= q < 200 ==> ByteAt(w, s, q) == if q < |block| then block[q] else w.nil
  }

  lemma BlockHeld<W(!new), B(!new)>(w: Words<W, B>, f: seq<W> -> seq<W>, block: seq<B>)
    requires ReadsBack(w) && |block| <= 200
    ensures Holds(w, XorFrom(Keccak(w, f), ZeroState(w), 0, block), block)
  {
    XorKeepsLength(w, f, ZeroState(w), 0, block);
    forall q | 0 <= q < 200
      ensures ByteAt(w, XorFrom(Keccak(w, f), ZeroState(w), 0, block), q) == if q < |block| then block[q] else w.nil
    {
      AbsorbedReads(w, f, block, q);
    }
  }

  /** A message shorter than a block: the state holds message, padding and zeros; the first `r` bytes out are those of
      its permutation, the next `r` those of the permutation of that. */
  lemma OneBlockSponge<W(!new), B(!new)>(w: Words<W, B>, f: seq<W> -> seq<W>, r: nat, m: seq<B>, p: B, i: nat)
      returns (s: seq<W>)
    requires ReadsBack(w) && KeepsLength(f) && Rate(r) && |m| < r && i < r
    ensures Holds(w, s, m + Pad(w, r - |m|, p))
    ensures SpongeByte(w, f, r, m, p, i) == ByteAt(w, f(s), i)
    ensures SpongeByte(w, f, r, m, p, r + i) == ByteAt(w, f(f(s)), i)
  {
    var block := m + Pad(w, r - |m|, p);
    s := XorFrom(Keccak(w, f), ZeroState(w), 0, block);
    BlockHeld(w, f, block);
    OneBlockAbsorbed(w, f, r, block, s);
    assert Used(r, |m|) == |m|;
    XofBlocks(w, f, r, f(s), i);
  }

  lemma OneBlockAbsorbed<W(!new), B(!new)>(w: Words<W, B>, f: seq<W> -> seq<W>, r: nat, block: seq<B>, s: seq<W>)
    requires r > 0 && |block| == r && s == XorFrom(Keccak(w, f), ZeroState(w), 0, block)
    ensures AbsorbBlocks(Keccak(w, f), r, ZeroState(w), block) == f(s)
  {
    assert block[..r] == block && block[r..] == [];
  }

  lemma XofBlocks<W(!new), B(!new)>(w: Words<W, B>, f: seq<W> -> seq<W>, r: nat, s: seq<W>, i: nat)
    requires i < r
    ensures Xof(Keccak(w, f), r, s, i) == ByteAt(w, s, i) && Xof(Keccak(w, f), r, s, r + i) == ByteAt(w, f(s), i)
  {
  }
}
