/** The sponge construction (section 4 of FIPS 202) over any state whose bytes can be xored into and
    read: the reference, the byte-at-a-time view behind the incremental interface, and their agreement. */
module Sponge {

  /** A permutation of states, xor of a byte into byte `p` of a state, and reading byte `p`. */
  datatype Core<!S, !B> = Core(f: S -> S, xor: (S, nat, B) -> S, read: (S, nat) -> B)

  /** Xor `m` into the state from byte `p` on. */
  function XorFrom<S, B>(c: Core<S, B>, s: S, p: nat, m: seq<B>): S {
    if m == [] then s
    else
      var n := |m| - 1;
      c.xor(XorFrom(c, s, p, m[..n]), p + n, m[n])
  }

  lemma {:induction false} XorFromConcat<S, B>(c: Core<S, B>, s: S, p: nat, a: seq<B>, b: seq<B>)
    ensures XorFrom(c, s, p, a + b) == XorFrom(c, XorFrom(c, s, p, a), p + |a|, b)
  {
    if b == [] {
      assert a + b == a;
    } else {
      var n := |b| - 1;
      XorFromConcat(c, s, p, a, b[..n]);
      assert (a + b)[..|a| + n] == a + b[..n];
    }
  }

  lemma XorSnoc<S, B>(c: Core<S, B>, s: S, p: nat, m: seq<B>, b: B)
    ensures XorFrom(c, s, p, m + [b]) == c.xor(XorFrom(c, s, p, m), p + |m|, b)
  {
    assert (m + [b])[..|m|] == m;
  }

  lemma XorOne<S, B>(c: Core<S, B>, s: S, p: nat, b: B)
    ensures XorFrom(c, s, p, [b]) == c.xor(s, p, b)
  {
    assert [b][..0] == [];
  }

  lemma XorStart<S, B>(c: Core<S, B>, s: S, p: nat, first: B, middle: seq<B>)
    requires XorFrom(c, c.xor(s, p, first), p + 1, middle) == c.xor(s, p, first)
    ensures XorFrom(c, s, p, [first] + middle) == c.xor(s, p, first)
  {
    XorOne(c, s, p, first);
    XorFromConcat(c, s, p, [first], middle);
  }

  /** One more byte of `m`. */
  lemma XorStep<S, B>(c: Core<S, B>, s: S, p: nat, m: seq<B>, i: nat, before: S, after: S)
    requires i < |m| && before == XorFrom(c, s, p, m[..i]) && after == c.xor(before, p + i, m[i])
    ensures after == XorFrom(c, s, p, m[..i + 1])
  {
    assert m[..i + 1][..i] == m[..i];
  }

  /** Bytes in the middle that change nothing can be left out. */
  lemma XorEnds<S, B>(c: Core<S, B>, s: S, p: nat, first: B, middle: seq<B>, last: B, m: seq<B>)
    requires XorFrom(c, c.xor(s, p, first), p + 1, middle) == c.xor(s, p, first)
    requires m == [first] + middle
    ensures XorFrom(c, s, p, m + [last]) == c.xor(c.xor(s, p, first), p + |m|, last)
  {
    XorStart(c, s, p, first, middle);
    XorSnoc(c, s, p, m, last);
  }

  // ---- Absorbing byte by byte ----

  /** A state in use; `n` is `s_inc[25]`: bytes absorbed since the last permutation, or bytes of the
      current block still to be squeezed. */
  datatype Inc<S> = Inc(s: S, n: nat)

  function FeedByte<S, B>(c: Core<S, B>, r: nat, st: Inc<S>, b: B): (st': Inc<S>)
    requires r > 0 && st.n < r
    ensures st'.n < r
  {
    var s := c.xor(st.s, st.n, b);
    if st.n + 1 == r then Inc(c.f(s), 0) else Inc(s, st.n + 1)
  }

  function Feed<S, B>(c: Core<S, B>, r: nat, st: Inc<S>, m: seq<B>): (st': Inc<S>)
    requires r > 0 && st.n < r
    ensures st'.n < r
  {
    if m == [] then st else FeedByte(c, r, Feed(c, r, st, m[..|m| - 1]), m[|m| - 1])
  }

  lemma {:induction false} FeedConcat<S, B>(c: Core<S, B>, r: nat, st: Inc<S>, a: seq<B>, b: seq<B>)
    requires r > 0 && st.n < r
    ensures Feed(c, r, st, a + b) == Feed(c, r, Feed(c, r, st, a), b)
  {
    if b == [] {
      assert a + b == a;
    } else {
      var n := |b| - 1;
      FeedConcat(c, r, st, a, b[..n]);
      assert (a + b)[..|a| + n] == a + b[..n];
    }
  }

  /** `k` more bytes of `m`. */
  lemma FeedMore<S, B>(c: Core<S, B>, r: nat, st: Inc<S>, m: seq<B>, i: nat, j: nat, part: seq<B>)
    requires r > 0 && st.n < r && i <= j <= |m| && part == m[i..j]
    ensures Feed(c, r, Feed(c, r, st, m[..i]), part) == Feed(c, r, st, m[..j])
  {
    FeedConcat(c, r, st, m[..i], part);
    assert m[..j] == m[..i] + part;
  }

  lemma FeedRest<S, B>(c: Core<S, B>, r: nat, st: Inc<S>, m: seq<B>, i: nat, mid: Inc<S>, end: Inc<S>)
    requires r > 0 && st.n < r && i <= |m| && mid == Feed(c, r, st, m[..i]) && end == Feed(c, r, mid, m[i..])
    ensures end == Feed(c, r, st, m)
  {
    FeedConcat(c, r, st, m[..i], m[i..]);
    assert m == m[..i] + m[i..];
  }

  /** Bytes that do not fill the block are only xored in. */
  lemma {:induction false} FeedShort<S, B>(c: Core<S, B>, r: nat, st: Inc<S>, m: seq<B>)
    requires r > 0 && st.n + |m| < r
    ensures Feed(c, r, st, m) == Inc(XorFrom(c, st.s, st.n, m), st.n + |m|)
  {
    if m != [] {
      FeedShort(c, r, st, m[..|m| - 1]);
    }
  }

  /** Bytes that just fill it end in one permutation. */
  lemma FeedFill<S, B>(c: Core<S, B>, r: nat, st: Inc<S>, m: seq<B>)
    requires r > 0 && st.n < r && st.n + |m| == r
    ensures Feed(c, r, st, m) == Inc(c.f(XorFrom(c, st.s, st.n, m)), 0)
  {
    FeedShort(c, r, st, m[..|m| - 1]);
  }

  // ---- The reference: section 4 of FIPS 202 ----

  /** What is left over of `n` bytes after cutting off full blocks. */
  function Used(r: nat, n: nat): (u: nat)
    requires r > 0
    ensures u < r
  {
    if n < r then n else Used(r, n - r)
  }

  /** Xor a block in, permute, block after block. */
  function AbsorbBlocks<S, B>(c: Core<S, B>, r: nat, s: S, blocks: seq<B>): S
    requires r > 0
    decreases |blocks|
  {
    if |blocks| < r then s
    else AbsorbBlocks(c, r, c.f(XorFrom(c, s, 0, blocks[..r])), blocks[r..])
  }

  /** Byte `k` of the blocks read off `s`, `f(s)`, `f(f(s))`, ... */
  function Xof<S, B>(c: Core<S, B>, r: nat, s: S, k: nat): B
    requires r > 0
    decreases k
  {
    if k < r then c.read(s, k) else Xof(c, r, c.f(s), k - r)
  }

  // ---- Absorption agrees ----

  lemma {:induction false} FeedCount<S, B>(c: Core<S, B>, r: nat, st: Inc<S>, m: seq<B>)
    requires r > 0 && st.n < r
    ensures Feed(c, r, st, m).n == Used(r, st.n + |m|)
    decreases |m|
  {
    if st.n + |m| < r {
      FeedShort(c, r, st, m);
    } else {
      var k := r - st.n;
      FeedFill(c, r, st, m[..k]);
      FeedConcat(c, r, st, m[..k], m[k..]);
      assert m == m[..k] + m[k..];
      FeedCount(c, r, Feed(c, r, st, m[..k]), m[k..]);
    }
  }

  /** On whole blocks, byte by byte is block by block. */
  lemma {:induction false} FeedBlocks<S, B>(c: Core<S, B>, r: nat, s: S, blocks: seq<B>)
    requires r > 0 && Used(r, |blocks|) == 0
    ensures Feed(c, r, Inc(s, 0), blocks) == Inc(AbsorbBlocks(c, r, s, blocks), 0)
    decreases |blocks|
  {
    if |blocks| >= r {
      FeedFill(c, r, Inc(s, 0), blocks[..r]);
      FeedConcat(c, r, Inc(s, 0), blocks[..r], blocks[r..]);
      assert blocks == blocks[..r] + blocks[r..];
      FeedBlocks(c, r, c.f(XorFrom(c, s, 0, blocks[..r])), blocks[r..]);
    }
  }

  lemma {:induction false} PaddedLength(r: nat, n: nat)
    requires r > 0
    ensures Used(r, n + r - Used(r, n)) == 0
  {
    if n >= r {
      PaddedLength(r, n - r);
    }
  }

  /** The state of an absorbed message with its padding xored in, the last permutation pending. */
  function Padded<S, B>(c: Core<S, B>, r: nat, s: S, m: seq<B>, pad: seq<B>): S
    requires r > 0
  {
    var st := Feed(c, r, Inc(s, 0), m);
    XorFrom(c, st.s, st.n, pad)
  }

  /** One permutation away from the absorbed state of the reference. */
  lemma PaddedIsAbsorbed<S, B>(c: Core<S, B>, r: nat, s: S, m: seq<B>, pad: seq<B>)
    requires r > 0 && |pad| == r - Used(r, |m|)
    ensures c.f(Padded(c, r, s, m, pad)) == AbsorbBlocks(c, r, s, m + pad)
  {
    FeedCount(c, r, Inc(s, 0), m);
    FeedConcat(c, r, Inc(s, 0), m, pad);
    FeedFill(c, r, Feed(c, r, Inc(s, 0), m), pad);
    PaddedLength(r, |m|);
    FeedBlocks(c, r, s, m + pad);
  }

  // ---- Squeezing ----

  /** The state after `k` bytes more: use up the block, then permute. */
  function Advance<S, B>(c: Core<S, B>, r: nat, st: Inc<S>, k: nat): (st': Inc<S>)
    requires 0 < r && st.n <= r
    ensures st'.n <= r && (st.n < r || k > 0 ==> st'.n < r)
    decreases k, if st.n == 0 then 1 else 0
  {
    if k <= st.n then Inc(st.s, st.n - k) else Advance(c, r, Inc(c.f(st.s), r), k - st.n)
  }

  /** Byte `i` squeezed from here on. */
  function OutByte<S, B>(c: Core<S, B>, r: nat, st: Inc<S>, i: nat): B
    requires 0 < r && st.n <= r
    decreases i, if st.n == 0 then 1 else 0
  {
    if i < st.n then c.read(st.s, r - st.n + i) else OutByte(c, r, Inc(c.f(st.s), r), i - st.n)
  }

  /** `out` is squeezed from here on. */
  ghost predicate Output<S, B>(c: Core<S, B>, r: nat, st: Inc<S>, out: seq<B>)
    requires 0 < r && st.n <= r
  {
    forall i :: 0 <= i < |out| ==> out[i] == OutByte(c, r, st, i)
  }

  lemma {:induction false} AdvanceTwice<S, B>(c: Core<S, B>, r: nat, st: Inc<S>, a: nat, b: nat)
    requires 0 < r && st.n <= r
    ensures Advance(c, r, Advance(c, r, st, a), b) == Advance(c, r, st, a + b)
    decreases a, if st.n == 0 then 1 else 0
  {
    if a > st.n {
      AdvanceTwice(c, r, Inc(c.f(st.s), r), a - st.n, b);
    }
  }

  lemma {:induction false} OutAfter<S, B>(c: Core<S, B>, r: nat, st: Inc<S>, a: nat, i: nat)
    requires 0 < r && st.n <= r
    ensures OutByte(c, r, Advance(c, r, st, a), i) == OutByte(c, r, st, a + i)
    decreases a, if st.n == 0 then 1 else 0
  {
    if a > st.n {
      OutAfter(c, r, Inc(c.f(st.s), r), a - st.n, i);
    }
  }

  /** Bytes read off the permuted state are what an empty block puts out. */
  lemma OutputFresh<S, B>(c: Core<S, B>, r: nat, s: S, t: S, out: seq<B>)
    requires 0 < |out| <= r && t == c.f(s) && forall i :: 0 <= i < |out| ==> out[i] == c.read(t, i)
    ensures Advance(c, r, Inc(s, 0), |out|) == Inc(t, r - |out|) && Output(c, r, Inc(s, 0), out)
  {
    forall i | 0 <= i < |out| ensures out[i] == OutByte(c, r, Inc(s, 0), i) {
      assert OutByte(c, r, Inc(s, 0), i) == OutByte(c, r, Inc(t, r), i);
    }
  }

  lemma OutputPrefix<S, B>(c: Core<S, B>, r: nat, st: Inc<S>, out: seq<B>, h: seq<B>)
    requires 0 < r && st.n <= r && Output(c, r, st, out) && h <= out
    ensures Output(c, r, st, h)
  {
    forall i | 0 <= i < |h| ensures h[i] == OutByte(c, r, st, i) {
      assert h[i] == out[i];
    }
  }

  /** What is squeezed next continues what has been squeezed. */
  lemma OutputMore<S, B>(c: Core<S, B>, r: nat, st: Inc<S>, out: seq<B>, more: seq<B>)
    requires 0 < r && st.n <= r && Output(c, r, st, out) && Output(c, r, Advance(c, r, st, |out|), more)
    ensures Output(c, r, st, out + more)
  {
    forall i | 0 <= i < |out + more| ensures (out + more)[i] == OutByte(c, r, st, i) {
      if i >= |out| {
        OutAfter(c, r, st, |out|, i - |out|);
      }
    }
  }

  /** Byte `i` squeezed from a full block is byte `i` of the reference. */
  lemma {:induction false} OutIsXof<S, B>(c: Core<S, B>, r: nat, s: S, i: nat)
    requires 0 < r
    ensures OutByte(c, r, Inc(s, r), i) == Xof(c, r, s, i)
    decreases i
  {
    if i >= r {
      OutIsXof(c, r, c.f(s), i - r);
    }
  }

  // ---- Any split of input and output ----

  function Concat<B>(chunks: seq<seq<B>>): seq<B> {
    if chunks == [] then [] else Concat(chunks[..|chunks| - 1]) + chunks[|chunks| - 1]
  }

  /** Absorb calls, one for each chunk. */
  function FeedAll<S, B>(c: Core<S, B>, r: nat, st: Inc<S>, chunks: seq<seq<B>>): (st': Inc<S>)
    requires r > 0 && st.n < r
    ensures st'.n < r
  {
    if chunks == [] then st
    else Feed(c, r, FeedAll(c, r, st, chunks[..|chunks| - 1]), chunks[|chunks| - 1])
  }

  lemma {:induction false} FeedAllIsFeed<S, B>(c: Core<S, B>, r: nat, st: Inc<S>, chunks: seq<seq<B>>)
    requires r > 0 && st.n < r
    ensures FeedAll(c, r, st, chunks) == Feed(c, r, st, Concat(chunks))
  {
    if chunks != [] {
      var n := |chunks| - 1;
      FeedAllIsFeed(c, r, st, chunks[..n]);
      FeedConcat(c, r, st, Concat(chunks[..n]), chunks[n]);
    }
  }

  /** Squeeze calls, one for each piece put out. */
  function AdvanceAll<S, B>(c: Core<S, B>, r: nat, st: Inc<S>, outs: seq<seq<B>>): (st': Inc<S>)
    requires r > 0 && st.n <= r
    ensures st'.n <= r
  {
    if outs == [] then st
    else Advance(c, r, AdvanceAll(c, r, st, outs[..|outs| - 1]), |outs[|outs| - 1]|)
  }

  /** Each piece is squeezed from the state its predecessors leave. */
  ghost predicate OutputAll<S, B>(c: Core<S, B>, r: nat, st: Inc<S>, outs: seq<seq<B>>)
    requires r > 0 && st.n <= r
  {
    outs == [] ||
    var n := |outs| - 1;
    OutputAll(c, r, st, outs[..n]) && Output(c, r, AdvanceAll(c, r, st, outs[..n]), outs[n])
  }

  lemma {:induction false} OutputAllIsOutput<S, B>(c: Core<S, B>, r: nat, st: Inc<S>, outs: seq<seq<B>>)
    requires r > 0 && st.n <= r && OutputAll(c, r, st, outs)
    ensures AdvanceAll(c, r, st, outs) == Advance(c, r, st, |Concat(outs)|)
    ensures Output(c, r, st, Concat(outs))
  {
    if outs != [] {
      var n := |outs| - 1;
      OutputAllIsOutput(c, r, st, outs[..n]);
      AdvanceTwice(c, r, st, |Concat(outs[..n])|, |outs[n]|);
      OutputMore(c, r, st, Concat(outs[..n]), outs[n]);
    }
  }
}
