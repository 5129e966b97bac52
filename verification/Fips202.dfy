/** The sponge functions of fips202.c over words: each method is proved against the sponge of Sponge.dfy. */
module Fips202 {
  import opened Lanes
  import opened Sponge

  /** `out`, at most `outlen` bytes, has been written at `at` into what was `all`. */
  ghost predicate Wrote<T>(h: seq<T>, all: seq<T>, at: nat, out: seq<T>, outlen: nat) {
    && |h| == |all| && |out| <= outlen && at + outlen <= |all|
    && h[..at + |out|] == all[..at] + out
    && h[at + outlen..] == all[at + outlen..]
  }

  lemma WroteMore<T>(before: seq<T>, h: seq<T>, all: seq<T>, at: nat, out: seq<T>, more: seq<T>, outlen: nat)
    requires Wrote(before, all, at, out, outlen) && |out| + |more| <= outlen && |h| == |before|
    requires h[..at + |out| + |more|] == before[..at + |out|] + more
    requires h[at + |out| + |more|..] == before[at + |out| + |more|..]
    ensures Wrote(h, all, at, out + more, outlen)
  {
    var k := at + |out| + |more|;
    assert h[at + outlen..] == h[k..][at + outlen - k..];
    assert before[at + outlen..] == before[k..][at + outlen - k..];
  }

  function Times(n: nat, r: nat): nat {
    if n == 0 then 0 else r + Times(n - 1, r)
  }

  lemma {:induction false} TimesIsProduct(n: nat, r: nat)
    ensures Times(n, r) == n * r
  {
    if n > 0 {
      TimesIsProduct(n - 1, r);
      assert n * r == (n - 1) * r + r;
    }
  }

  /** The blocks that fit, and less than a block left. */
  lemma DivideBlocks(n: nat, r: nat)
    requires r > 0
    ensures Times(n / r, r) == n / r * r <= n < n / r * r + r
  {
    TimesIsProduct(n / r, r);
    assert n == n / r * r + n % r;
  }

  /** `s` is the lane array and `n` the extra word `s_inc[25]` of the incremental interface. */
  class SpongeState<W(!new), B(!new)> {
    const w: Words<W, B>
    const f: seq<W> -> seq<W>
    const s: array<W>
    var n: nat

    ghost predicate Valid() {
      s.Length == 25 && KeepsLength(f)
    }

    ghost function Core(): Core<seq<W>, B> {
      Keccak(w, f)
    }

    ghost function State(): Inc<seq<W>>
      reads this, s
    {
      Inc(s[..], n)
    }

    /** `keccak_inc_init` */
    constructor (w: Words<W, B>, f: seq<W> -> seq<W>)
      requires KeepsLength(f)
      ensures Valid() && fresh(s) && this.w == w && this.f == f && State() == Start(w)
    {
      this.w, this.f, this.n := w, f, 0;
      this.s := new W[25](_ => w.zero);
      new;
      assert s[..] == ZeroState(w);
    }

    /** `KeccakF1600_StatePermute`, in place. */
    method Permute()
      requires Valid()
      modifies s
      ensures s[..] == f(old(s[..]))
    {
      var next := f(s[..]);
      for i := 0 to 25
        invariant s[..i] == next[..i]
      {
        s[i] := next[i];
      }
      assert s[..] == s[..25] && next == next[..25];
    }

    // ---- The incremental interface ----

    /** The xor loops of `keccak_inc_absorb`: `m` into the state from byte `p` on. */
    method XorBytes(p: nat, m: seq<B>)
      requires Valid() && p + |m| <= 200
      modifies s
      ensures s[..] == XorFrom(Core(), old(s[..]), p, m)
    {
      ghost var start := s[..];
      for i := 0 to |m|
        invariant s[..] == XorFrom(Core(), start, p, m[..i])
      {
        ghost var before := s[..];
        s[(p + i) / 8] := w.xor(s[(p + i) / 8], w.shl(m[i], (p + i) % 8));
        assert s[..] == XorAt(w, before, p + i, m[i]);
        XorStep(Core(), start, p, m, i, before, s[..]);
      }
      assert m[..|m|] == m;
    }

    /** One turn of its block loop: bytes that just fill the block, and a permutation. */
    method AbsorbFill(r: nat, m: seq<B>)
      requires Valid() && Rate(r) && n < r && n + |m| == r
      modifies this`n, s
      ensures n == 0 && State() == Feed(Core(), r, old(State()), m)
    {
      FeedFill(Core(), r, State(), m);
      XorBytes(n, m);
      n := 0;
      Permute();
    }

    /** What follows it: bytes that do not fill the block. */
    method AbsorbRest(r: nat, m: seq<B>)
      requires Valid() && Rate(r) && n + |m| < r
      modifies this`n, s
      ensures n < r && State() == Feed(Core(), r, old(State()), m)
    {
      FeedShort(Core(), r, State(), m);
      XorBytes(n, m);
      n := n + |m|;
    }

    /** The state is `st` with the first `at` bytes of `m` fed in. */
    ghost predicate Fed(r: nat, st: Inc<seq<W>>, m: seq<B>, at: nat)
      reads this, s
    {
      0 < r && st.n < r && at <= |m| && State() == Feed(Core(), r, st, m[..at])
    }

    /** The next bytes of `m`, as many as just fill the block. */
    method AbsorbNext(r: nat, m: seq<B>, at: nat, ghost st: Inc<seq<W>>) returns (at': nat)
      requires Valid() && Rate(r) && n < r && Fed(r, st, m, at) && |m| - at + n >= r
      modifies this`n, s
      ensures n == 0 && at' > at && Fed(r, st, m, at')
    {
      at' := at + (r - n);
      var part := m[at..at'];
      FeedMore(Core(), r, st, m, at, at', part);
      AbsorbFill(r, part);
    }

    /** The loop of `keccak_inc_absorb`: as many bytes as fill whole blocks. */
    method AbsorbFull(r: nat, m: seq<B>, ghost st: Inc<seq<W>>) returns (at: nat)
      requires Valid() && Rate(r) && n < r && Fed(r, st, m, 0)
      modifies this`n, s
      ensures n + (|m| - at) < r && Fed(r, st, m, at)
    {
      at := 0;
      while |m| - at + n >= r
        invariant n < r && Fed(r, st, m, at)
        decreases |m| - at
      {
        at := AbsorbNext(r, m, at, st);
      }
    }

    /** `keccak_inc_absorb`: the state is as if the bytes had come one at a time. */
    method IncAbsorb(r: nat, m: seq<B>)
      requires Valid() && Rate(r) && n < r
      modifies this`n, s
      ensures n < r && State() == Feed(Core(), r, old(State()), m)
    {
      ghost var st := State();
      var at := AbsorbFull(r, m, st);
      ghost var mid := State();
      AbsorbRest(r, m[at..]);
      FeedRest(Core(), r, st, m, at, mid, State());
    }

    /** `keccak_inc_finalize` */
    method IncFinalize(r: nat, p: B)
      requires Valid() && Rate(r) && n < r
      modifies this`n, s
      ensures State() == Finalized(w, r, old(State()), p)
    {
      s[n / 8] := w.xor(s[n / 8], w.shl(p, n % 8));
      s[(r - 1) / 8] := w.xor(s[(r - 1) / 8], w.shl(w.top, (r - 1) % 8));
      n := 0;
    }

    /** The copy loops of `keccak_inc_squeeze`: bytes `from` up to `from + count` of the state. */
    method CopyOut(h: array<B>, at: nat, from: nat, count: nat) returns (ghost out: seq<B>)
      requires Valid() && (h as object) != s && at + count <= h.Length && from + count <= 200
      modifies h
      ensures |out| == count && forall i :: 0 <= i < count ==> out[i] == ByteAt(w, s[..], from + i)
      ensures h[..at + count] == old(h[..at]) + out && h[at + count..] == old(h[at + count..])
    {
      out := [];
      for i := 0 to count
        invariant s[..] == old(s[..])
        invariant |out| == i && forall k :: 0 <= k < i ==> out[k] == ByteAt(w, s[..], from + k)
        invariant h[..at + i] == old(h[..at]) + out
        invariant h[at + count..] == old(h[at + count..])
      {
        h[at + i] := w.shr(s[(from + i) / 8], (from + i) % 8);
        assert h[..at + i + 1] == h[..at + i] + [h[at + i]];
        out := out + [h[at + i]];
      }
    }

    /** `out` has been squeezed since `st`. */
    ghost predicate Squeezed(r: nat, st: Inc<seq<W>>, out: seq<B>)
      reads this, s
    {
      0 < r && st.n < r && State() == Advance(Core(), r, st, |out|) && Output(Core(), r, st, out)
    }

    /** The bytes still sitting around. */
    method SqueezeRest(h: array<B>, at: nat, k: nat, r: nat) returns (ghost out: seq<B>)
      requires Valid() && Rate(r) && (h as object) != s && n < r && at + k <= h.Length && k <= n
      modifies this`n, s, h
      ensures n == old(n) - k && |out| == k && Squeezed(r, old(State()), out)
      ensures h[..at + k] == old(h[..at]) + out && h[at + k..] == old(h[at + k..])
    {
      out := CopyOut(h, at, r - n, k);
      n := n - k;
    }

    /** One turn of the block loop: permute and hand out up to a block. */
    method SqueezeOne(h: array<B>, at: nat, k: nat, r: nat) returns (ghost out: seq<B>)
      requires Valid() && Rate(r) && (h as object) != s && n == 0 && 0 < k <= r && at + k <= h.Length
      modifies this`n, s, h
      ensures n == r - k && |out| == k && Squeezed(r, old(State()), out)
      ensures h[..at + k] == old(h[..at]) + out && h[at + k..] == old(h[at + k..])
    {
      ghost var before := s[..];
      Permute();
      out := CopyOut(h, at, 0, k);
      n := r - k;
      OutputFresh(Core(), r, before, s[..], out);
    }

    method SqueezeNext(h: array<B>, at: nat, done: nat, k: nat, outlen: nat, r: nat,
                       ghost st: Inc<seq<W>>, ghost all: seq<B>, ghost out: seq<B>)
        returns (ghost more: seq<B>)
      requires Valid() && Rate(r) && (h as object) != s && n == 0 && 0 < k <= r && done == |out| && done + k <= outlen
      requires Squeezed(r, st, out) && Wrote(h[..], all, at, out, outlen)
      modifies this`n, s, h
      ensures n == r - k && |more| == k
      ensures Squeezed(r, st, out + more) && Wrote(h[..], all, at, out + more, outlen)
    {
      ghost var before := h[..];
      more := SqueezeOne(h, at + done, k, r);
      WroteMore(before, h[..], all, at, out, more, outlen);
      OutputMore(Core(), r, st, out, more);
      AdvanceTwice(Core(), r, st, |out|, k);
    }

    /** `keccak_inc_squeeze`: what is left of the block, then block after block. */
    method IncSqueeze(h: array<B>, at: nat, outlen: nat, r: nat) returns (ghost out: seq<B>)
      requires Valid() && Rate(r) && (h as object) != s && n < r && at + outlen <= h.Length
      modifies this`n, s, h
      ensures n < r && |out| == outlen && Squeezed(r, old(State()), out)
      ensures h[..at + outlen] == old(h[..at]) + out && h[at + outlen..] == old(h[at + outlen..])
    {
      ghost var st, all := State(), h[..];
      var done := if outlen < n then outlen else n;
      out := SqueezeRest(h, at, done, r);
      assert [] + out == out;
      WroteMore(all, h[..], all, at, [], out, outlen);
      while done < outlen
        invariant done == |out| <= outlen && n < r && (done < outlen ==> n == 0)
        invariant Squeezed(r, st, out) && Wrote(h[..], all, at, out, outlen)
      {
        var k := if outlen - done < r then outlen - done else r;
        ghost var more := SqueezeNext(h, at, done, k, outlen, r, st, all, out);
        done, out := done + k, out + more;
      }
    }

    // ---- The one-shot functions ----

    /** `load64` */
    method Load64(x: seq<B>) returns (v: W)
      requires |x| == 8
      ensures v == Word(w, x, 8)
    {
      v := w.zero;
      for i := 0 to 8
        invariant v == Word(w, x, i)
      {
        v := w.or(v, w.shl(x[i], i));
      }
    }

    /** `s[i] ^= load64(m + 8 * i)` over a block. */
    method XorBlock(r: nat, block: seq<B>)
      requires Valid() && Laws(w) && Rate(r) && |block| == r
      modifies s
      ensures s[..] == XorFrom(Core(), old(s[..]), 0, block)
    {
      ghost var before := s[..];
      assert block[..0] == [];
      for i := 0 to r / 8
        invariant s[..] == XorFrom(Core(), before, 0, block[..8 * i])
      {
        ghost var mid := s[..];
        var v := Load64(block[8 * i..8 * i + 8]);
        s[i] := w.xor(s[i], v);
        XorWord(w, f, before, block, i, mid, s[..]);
      }
      assert block[..8 * (r / 8)] == block;
    }

    /** The last block of `keccak_absorb`: what is left of the message, `p`, zeros and the top bit. */
    method LastBlock(r: nat, rest: seq<B>, p: B) returns (t: array<B>)
      requires Valid() && TopOfZero(w) && Rate(r) && |rest| < r
      ensures fresh(t) && t.Length == 200 && t[..r] == rest + Pad(w, r - |rest|, p)
    {
      t := new B[200](_ => w.nil);
      for i := 0 to r
        invariant forall k :: 0 <= k < i ==> t[k] == w.nil
      {
        t[i] := w.nil;
      }
      for i := 0 to |rest|
        invariant t[..i] == rest[..i]
        invariant forall k :: i <= k < r ==> t[k] == w.nil
      {
        t[i] := rest[i];
      }
      t[|rest|] := p;
      t[r - 1] := w.withTop(t[r - 1]);
    }

    /** The lanes have taken in the first `at` bytes of `m`, all in whole blocks. */
    ghost predicate Taken(r: nat, m: seq<B>, at: nat)
      reads s
    {
      0 < r && at <= |m| && Inc(s[..], 0) == Feed(Core(), r, Start(w), m[..at])
    }

    method TakeBlock(r: nat, block: seq<B>)
      requires Valid() && Laws(w) && Rate(r) && |block| == r
      modifies s
      ensures Inc(s[..], 0) == Feed(Core(), r, Inc(old(s[..]), 0), block)
    {
      FeedFill(Core(), r, Inc(s[..], 0), block);
      XorBlock(r, block);
      Permute();
    }

    /** One turn of the block loop of `keccak_absorb`. */
    method AbsorbBlock(r: nat, m: seq<B>, at: nat) returns (at': nat)
      requires Valid() && Laws(w) && Rate(r) && at + r <= |m| && Taken(r, m, at)
      modifies s
      ensures at' == at + r && Taken(r, m, at')
    {
      at' := at + r;
      var block := m[at..at'];
      FeedMore(Core(), r, Start(w), m, at, at', block);
      TakeBlock(r, block);
    }

    /** Its end: the rest of the message and the padding. */
    method AbsorbRestPadded(r: nat, rest: seq<B>, p: B)
      requires Valid() && Laws(w) && TopOfZero(w) && Rate(r) && |rest| < r
      modifies s
      ensures s[..] == XorFrom(Core(), Feed(Core(), r, Inc(old(s[..]), 0), rest).s, |rest|, Pad(w, r - |rest|, p))
      ensures Feed(Core(), r, Inc(old(s[..]), 0), rest).n == |rest|
    {
      FeedShort(Core(), r, Inc(s[..], 0), rest);
      XorFromConcat(Core(), s[..], 0, rest, Pad(w, r - |rest|, p));
      var t := LastBlock(r, rest, p);
      XorBlock(r, t[..r]);
    }

    lemma TakenAll(r: nat, m: seq<B>, at: nat, p: B, before: seq<W>, st: Inc<seq<W>>)
      requires Rate(r) && at <= |m| < at + r
      requires Inc(before, 0) == Feed(Core(), r, Start(w), m[..at]) && st == Feed(Core(), r, Inc(before, 0), m[at..])
      ensures st.n == Used(r, |m|)
      ensures OneShot(w, f, r, m, p) == XorFrom(Core(), st.s, st.n, Pad(w, r - st.n, p))
    {
      FeedRest(Core(), r, Start(w), m, at, Inc(before, 0), st);
      AbsorbedOneShot(w, f, r, m, p, st);
    }

    method AbsorbLast(r: nat, m: seq<B>, at: nat, p: B)
      requires Valid() && Laws(w) && TopOfZero(w) && Rate(r) && Taken(r, m, at) && |m| - at < r
      modifies s
      ensures s[..] == OneShot(w, f, r, m, p)
    {
      TakenAll(r, m, at, p, s[..], Feed(Core(), r, Inc(s[..], 0), m[at..]));
      AbsorbRestPadded(r, m[at..], p);
    }

    method Clear()
      requires Valid()
      modifies s
      ensures s[..] == ZeroState(w)
    {
      for i := 0 to 25
        invariant forall k :: 0 <= k < i ==> s[k] == w.zero
      {
        s[i] := w.zero;
      }
    }

    /** `keccak_absorb` */
    method Absorb(r: nat, m: seq<B>, p: B)
      requires Valid() && Laws(w) && TopOfZero(w) && Rate(r)
      modifies s
      ensures s[..] == OneShot(w, f, r, m, p)
    {
      Clear();
      var at := 0;
      assert m[..at] == [];
      while |m| - at >= r
        invariant 0 <= at <= |m| && Taken(r, m, at)
        decreases |m| - at
      {
        at := AbsorbBlock(r, m, at);
      }
      AbsorbLast(r, m, at, p);
    }

    /** A block has been squeezed from the lanes `start` on, `out` in all. */
    ghost predicate BlocksSqueezed(r: nat, start: seq<W>, out: seq<B>)
      reads s
    {
      && 0 < r && Output(Core(), r, Inc(start, 0), out)
      && Inc(s[..], 0) == Advance(Core(), r, Inc(start, 0), |out|)
    }

    /** `store64` */
    method Store64(h: array<B>, at: nat, u: W) returns (ghost word: seq<B>)
      requires at + 8 <= h.Length
      modifies h
      ensures |word| == 8 && forall j :: 0 <= j < 8 ==> word[j] == w.shr(u, j)
      ensures h[..at + 8] == old(h[..at]) + word && h[at + 8..] == old(h[at + 8..])
    {
      word := [];
      for j := 0 to 8
        invariant |word| == j && forall i :: 0 <= i < j ==> word[i] == w.shr(u, i)
        invariant h[..at + j] == old(h[..at]) + word
        invariant h[at + 8..] == old(h[at + 8..])
      {
        h[at + j] := w.shr(u, j);
        assert h[..at + j + 1] == h[..at + j] + [h[at + j]];
        word := word + [h[at + j]];
      }
    }

    /** `out` is the first bytes of the lanes. */
    ghost predicate Copied(out: seq<B>)
      reads s
    {
      forall k :: 0 <= k < |out| ==> out[k] == ByteAt(w, s[..], k)
    }

    lemma CopiedMore(out: seq<B>, word: seq<B>, i: nat)
      requires Valid() && i < 25 && |out| == 8 * i && Copied(out)
      requires |word| == 8 && forall j :: 0 <= j < 8 ==> word[j] == w.shr(s[i], j)
      ensures Copied(out + word)
    {
      forall k | 0 <= k < 8 * i + 8 ensures (out + word)[k] == ByteAt(w, s[..], k) {
        if k >= 8 * i {
          assert k / 8 == i && k % 8 == k - 8 * i;
        }
      }
    }

    /** The store loop of `keccak_squeezeblocks`. */
    method StoreBlock(h: array<B>, at: nat, r: nat) returns (ghost out: seq<B>)
      requires Valid() && Rate(r) && (h as object) != s && at + r <= h.Length
      modifies h
      ensures |out| == r && Copied(out)
      ensures h[..at + r] == old(h[..at]) + out && h[at + r..] == old(h[at + r..])
    {
      out := [];
      ghost var all := h[..];
      assert h[..at] == all[..at] + out;
      for i := 0 to r / 8
        invariant s[..] == old(s[..]) && |out| == 8 * i && Copied(out)
        invariant h[..at + 8 * i] == all[..at] + out
        invariant h[at + 8 * i..] == all[at + 8 * i..]
      {
        ghost var word := Store64(h, at + 8 * i, s[i]);
        CopiedMore(out, word, i);
        assert all[..at] + out + word == all[..at] + (out + word);
        assert all[at + 8 * i..][8..] == all[at + 8 * (i + 1)..];
        out := out + word;
      }
    }

    /** One block of `keccak_squeezeblocks`. */
    method SqueezeBlock(h: array<B>, at: nat, r: nat, ghost start: seq<W>, ghost out: seq<B>)
        returns (ghost more: seq<B>)
      requires Valid() && Rate(r) && (h as object) != s && at + r <= h.Length && BlocksSqueezed(r, start, out)
      modifies s, h
      ensures |more| == r && BlocksSqueezed(r, start, out + more)
      ensures h[..at + r] == old(h[..at]) + more && h[at + r..] == old(h[at + r..])
    {
      ghost var before := s[..];
      Permute();
      more := StoreBlock(h, at, r);
      OutputFresh(Core(), r, before, s[..], more);
      OutputMore(Core(), r, Inc(start, 0), out, more);
      AdvanceTwice(Core(), r, Inc(start, 0), |out|, r);
    }

    /** `keccak_squeezeblocks` */
    method SqueezeBlocks(h: array<B>, nblocks: nat, r: nat) returns (ghost out: seq<B>)
      requires Valid() && Rate(r) && (h as object) != s && Times(nblocks, r) <= h.Length
      modifies s, h
      ensures |out| == Times(nblocks, r) && BlocksSqueezed(r, old(s[..]), out)
      ensures h[..|out|] == out && h[|out|..] == old(h[|out|..])
    {
      ghost var start, all := s[..], h[..];
      out := [];
      var left, at := nblocks, 0;
      while left > 0
        invariant at == |out| && at + Times(left, r) == Times(nblocks, r)
        invariant BlocksSqueezed(r, start, out) && h[..at] == out && h[at..] == all[at..]
      {
        assert h[at + r..] == h[at..][r..] && all[at + r..] == all[at..][r..];
        ghost var more := SqueezeBlock(h, at, r, start, out);
        out := out + more;
        at := at + r;
        left := left - 1;
      }
    }

    /** The copy loop of `shake128`: `t` into `h` from `at` to its end. */
    static method CopyTail(h: array<B>, at: nat, t: array<B>)
      requires h != t && at <= h.Length <= at + t.Length
      modifies h
      ensures h[..] == old(h[..at]) + t[..h.Length - at]
    {
      for i := at to h.Length
        invariant t[..] == old(t[..]) && h[..i] == old(h[..at]) + t[..i - at]
      {
        h[i] := t[i - at];
        assert h[..i + 1] == h[..i] + [h[i]];
      }
      assert h[..h.Length] == h[..];
    }

    /** The part of a block that is still missing, by way of a buffer. */
    method SqueezeTail(h: array<B>, at: nat, r: nat, ghost start: seq<W>, ghost out: seq<B>)
      requires Valid() && Rate(r) && (h as object) != s && at < h.Length < at + r
      requires at == |out| && h[..at] == out && BlocksSqueezed(r, start, out)
      modifies s, h
      ensures Output(Core(), r, Inc(start, 0), h[..])
    {
      var t := new B[r](_ => w.nil);
      ghost var more := SqueezeBlock(t, 0, r, start, out);
      assert t[..r] == more && t[..h.Length - at] == more[..h.Length - at];
      CopyTail(h, at, t);
      assert h[..] == (out + more)[..h.Length];
      OutputPrefix(Core(), r, Inc(start, 0), out + more, h[..]);
    }

    /** `shake128` and `shake256` with their rates and `p == 0x1F`: whole blocks straight into the output,
        the rest of the output from one more block. */
    method OneShotXof(h: array<B>, m: seq<B>, r: nat, p: B)
      requires Valid() && Laws(w) && TopOfZero(w) && Rate(r) && (h as object) != s
      modifies s, h
      ensures IsSponge(w, f, r, m, p, h[..])
    {
      var nblocks := h.Length / r;
      DivideBlocks(h.Length, r);
      Absorb(r, m, p);
      ghost var start := s[..];
      ghost var out := SqueezeBlocks(h, nblocks, r);
      if nblocks * r < h.Length {
        SqueezeTail(h, nblocks * r, r, start, out);
      } else {
        assert h[..] == out;
      }
      OneShotSqueezes(w, f, r, m, p, h[..]);
    }
  }
}
