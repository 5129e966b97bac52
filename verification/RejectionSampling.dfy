/** Uniform coefficients by rejection (`rejsample.c`, `poly.c`): the vector path, the scalar path and
    the refills together keep exactly the accepted candidates of the byte stream, in order. */
module RejectionSampling {
  import opened Compaction
  import opened Dilithium
  import opened Streams
  import Challenge

  /** Bytes of the first squeeze (five SHAKE128 blocks) and of each refill (one block). */
  const BUFLEN: int := 840
  const BLOCK: int := 168

  /** Three bytes, little-endian, cut to 23 bits. */
  function Triple(x: int, y: int, z: int): int {
    (x + 256 * y + 65536 * z) % 0x80_0000
  }

  /** The `k`-th three-byte candidate. */
  function Candidate(buf: seq<Byte>, k: nat): int
    requires 3 * k + 3 <= |buf|
  {
    Triple(buf[3 * k], buf[3 * k + 1], buf[3 * k + 2])
  }

  /** Candidates `j` up to `k`. */
  function Candidates(buf: seq<Byte>, j: nat, k: nat): (r: seq<int>)
    requires j <= k && 3 * k <= |buf|
    ensures |r| == k - j && forall i :: 0 <= i < k - j ==> r[i] == Candidate(buf, j + i)
  {
    seq(k - j, i requires 0 <= i < k - j => Candidate(buf, j + i))
  }

  /** The accepted ones, in order. */
  function Keep(c: seq<int>): (r: seq<int>)
    ensures |r| <= |c|
  {
    if c == [] then []
    else
      var n := |c| - 1;
      Keep(c[..n]) + if c[n] < Q then [c[n]] else []
  }

  lemma {:induction false} KeepConcat(a: seq<int>, b: seq<int>)
    ensures Keep(a + b) == Keep(a) + Keep(b)
  {
    if b == [] {
      assert a + b == a;
    } else {
      KeepConcat(a, b[..|b| - 1]);
      assert (a + b)[..|a + b| - 1] == a + b[..|b| - 1];
    }
  }

  lemma KeepSnoc(c: seq<int>, t: int)
    ensures Keep(c + [t]) == Keep(c) + if t < Q then [t] else []
  {
    assert (c + [t])[..|c|] == c;
  }

  /** The accepted ones among the candidates from `j` up to `k`: CoeffFromThreeBytes of FIPS 204
      (Algorithm 14) along RejNTTPoly (Algorithm 30). */
  function Accepted(buf: seq<Byte>, j: nat, k: nat): seq<int>
    requires j <= k && 3 * k <= |buf|
  {
    Keep(Candidates(buf, j, k))
  }

  lemma AcceptedSplit(buf: seq<Byte>, i: nat, j: nat, k: nat)
    requires i <= j <= k && 3 * k <= |buf|
    ensures Accepted(buf, i, k) == Accepted(buf, i, j) + Accepted(buf, j, k)
  {
    assert Candidates(buf, i, k) == Candidates(buf, i, j) + Candidates(buf, j, k);
    KeepConcat(Candidates(buf, i, j), Candidates(buf, j, k));
  }

  lemma AcceptedSnoc(buf: seq<Byte>, j: nat, k: nat)
    requires j <= k && 3 * (k + 1) <= |buf|
    ensures Accepted(buf, j, k + 1) == Accepted(buf, j, k) + if Candidate(buf, k) < Q then [Candidate(buf, k)] else []
  {
    assert Candidates(buf, j, k + 1) == Candidates(buf, j, k) + [Candidate(buf, k)];
    KeepSnoc(Candidates(buf, j, k), Candidate(buf, k));
  }

  // ---- One vector step ----

  /** The sign bits of the lanes minus Q. */
  function Good(d: seq<int>): (flags: seq<bool>)
    ensures |flags| == |d|
  {
    seq(|d|, i requires 0 <= i < |d| => d[i] - Q < 0)
  }

  /** `_mm256_permutevar8x32_epi32` */
  function Permute(d: seq<int>, row: seq<int>): (r: seq<int>)
    requires forall i :: 0 <= i < |row| ==> 0 <= row[i] < |d|
    ensures |r| == |row| && forall i :: 0 <= i < |row| ==> r[i] == d[row[i]]
  {
    seq(|row|, i requires 0 <= i < |row| => d[row[i]])
  }

  lemma PermuteSnoc(d: seq<int>, row: seq<int>, x: int)
    requires 0 <= x < |d| && forall i :: 0 <= i < |row| ==> 0 <= row[i] < |d|
    ensures Permute(d, row + [x]) == Permute(d, row) + [d[x]]
  {
  }

  /** Gathering the good lanes is accepting their candidates one by one. */
  lemma {:induction false} GoodLanes(d: seq<int>, n: nat)
    requires n <= |d|
    ensures forall i :: 0 <= i < |Ones(Good(d)[..n])| ==> 0 <= Ones(Good(d)[..n])[i] < |d|
    ensures Keep(d[..n]) == Permute(d, Ones(Good(d)[..n]))
  {
    if n > 0 {
      GoodLanes(d, n - 1);
      var flags := Good(d);
      assert d[..n] == d[..n - 1] + [d[n - 1]];
      assert flags[..n] == flags[..n - 1] + [flags[n - 1]];
      OnesSnoc(flags[..n - 1], flags[n - 1]);
      KeepSnoc(d[..n - 1], d[n - 1]);
      PermuteSnoc(d, Ones(flags[..n - 1]), n - 1);
    }
  }

  /** Storing the permuted lanes and advancing by the number of good ones appends the accepted. */
  method VectorStep(r: array<int>, ctr: int, buf: seq<Byte>, k: nat) returns (ctr': int)
    requires r.Length == N && 3 * (k + 8) <= |buf| && 0 <= ctr <= N - 8
    modifies r
    ensures ctr' == ctr + |Accepted(buf, k, k + 8)| <= N
    ensures r[..ctr'] == old(r[..ctr]) + Accepted(buf, k, k + 8)
  {
    var d := Candidates(buf, k, k + 8);
    var good := Good(d);
    StoreEight(r, ctr, Permute(d, Lut(good)));
    ctr' := ctr + |Ones(good)|;
    GoodLanes(d, 8);
    assert good[..8] == good && d[..8] == d;
    assert Permute(d, Lut(good))[..|Ones(good)|] == Permute(d, Ones(good));
    assert r[..ctr'] == r[..ctr] + r[ctr..ctr + 8][..|Ones(good)|];
  }

  /** At most `len` of them. */
  function AtMost(s: seq<int>, len: nat): seq<int> {
    if |s| < len then s else s[..len]
  }

  /** Stopping at `len` accepted candidates loses nothing of the first `len`. */
  lemma EnoughAccepted(buf: seq<Byte>, i: nat, j: nat, k: nat, len: nat)
    requires i <= j <= k && 3 * k <= |buf|
    requires |Accepted(buf, i, j)| == len || (j == k && |Accepted(buf, i, j)| < len)
    ensures AtMost(Accepted(buf, i, k), len) == Accepted(buf, i, j)
  {
    AcceptedSplit(buf, i, j, k);
  }

  /** `rej_uniform` and the scalar tail of `rej_uniform_avx`: up to `len` coefficients from candidate
      `k` on. */
  method RejUniform(a: array<int>, from: nat, len: nat, buf: seq<Byte>, buflen: nat, k: nat) returns (ctr: nat)
    requires from + len <= a.Length && buflen <= |buf| && 3 * k <= buflen
    modifies a
    ensures ctr == |AtMost(Accepted(buf, k, buflen / 3), len)|
    ensures a[..from + ctr] == old(a[..from]) + AtMost(Accepted(buf, k, buflen / 3), len)
  {
    ghost var j := k;
    ghost var before, done := a[..from], [];
    var pos := 3 * k;
    ctr := 0;
    while ctr < len && pos + 3 <= buflen
      invariant pos == 3 * j && k <= j <= buflen / 3
      invariant done == Accepted(buf, k, j) && ctr == |done| <= len
      invariant a[..from + ctr] == before + done
      decreases buflen - pos
    {
      var t := Triple(buf[pos], buf[pos + 1], buf[pos + 2]);
      AcceptedSnoc(buf, k, j);
      pos := pos + 3;
      j := j + 1;
      if t < Q {
        a[from + ctr] := t;
        assert a[..from + ctr + 1] == a[..from + ctr] + [t];
        ctr := ctr + 1;
        done := done + [t];
      }
    }
    EnoughAccepted(buf, k, j, buflen / 3, len);
  }

  /** `rej_uniform_avx`: 24 bytes at a time while a whole store fits, then candidate by candidate. */
  method RejUniformAvx(r: array<int>, buf: seq<Byte>) returns (ctr: nat)
    requires r.Length == N && |buf| == BUFLEN + 8
    modifies r
    ensures ctr == |AtMost(Accepted(buf, 0, BUFLEN / 3), N)| && r[..ctr] == AtMost(Accepted(buf, 0, BUFLEN / 3), N)
  {
    var c, k := 0, 0;
    ghost var done: seq<int> := [];
    while 3 * k <= BUFLEN - 24
      invariant 0 <= k <= BUFLEN / 3 && done == Accepted(buf, 0, k)
      invariant 0 <= c == |done| <= N - 8 && r[..c] == done
      decreases BUFLEN - 3 * k
    {
      AcceptedSplit(buf, 0, k, k + 8);
      c := VectorStep(r, c, buf, k);
      done := done + Accepted(buf, k, k + 8);
      k := k + 8;
      if c > N - 8 {
        break;
      }
    }
    AcceptedSplit(buf, 0, k, BUFLEN / 3);
    var more := RejUniform(r, c, N - c, buf, BUFLEN, k);
    ctr := c + more;
  }

  // ---- The whole sampler on a byte stream ----

  /** The accepted candidates among the first `k` of the stream. */
  function Sampled(s: Stream, k: nat): seq<int> {
    Accepted(Bytes(s, 0, 3 * k), 0, k)
  }

  lemma CandidateInStream(s: Stream, from: nat, n: nat, i: nat)
    requires 3 * i + 3 <= n
    ensures Candidate(Bytes(s, 3 * from, n), i) == Candidate(Bytes(s, 0, 3 * (from + i + 1)), from + i)
  {
    var a, b := Bytes(s, 3 * from, n), Bytes(s, 0, 3 * (from + i + 1));
    var q := 3 * (from + i);
    assert a[3 * i] == s(q) && a[3 * i + 1] == s(q + 1) && a[3 * i + 2] == s(q + 2);
    assert b[q] == s(q) && b[q + 1] == s(q + 1) && b[q + 2] == s(q + 2);
  }

  /** Equal bytes give equal candidates, wherever the blocks are cut. */
  lemma CandidatesInStream(s: Stream, f: nat, m: nat, n: nat, g: nat, l: nat, k: nat)
    requires g + l == f && 3 * (l + k) <= m && 3 * k <= n
    ensures Candidates(Bytes(s, 3 * g, m), l, l + k) == Candidates(Bytes(s, 3 * f, n), 0, k)
  {
    forall i | 0 <= i < k
      ensures Candidate(Bytes(s, 3 * g, m), l + i) == Candidate(Bytes(s, 3 * f, n), i)
    {
      CandidateInStream(s, g, m, l + i);
      CandidateInStream(s, f, n, i);
    }
  }

  /** The accepted of the next `m` candidates follow those of the first `k`, however many bytes the
      block holds beyond them. */
  lemma SampledBlock(s: Stream, k: nat, m: nat, n: nat)
    requires 3 * m <= n
    ensures Sampled(s, k + m) == Sampled(s, k) + Accepted(Bytes(s, 3 * k, n), 0, m)
  {
    var all := Bytes(s, 0, 3 * (k + m));
    AcceptedSplit(all, 0, k, k + m);
    CandidatesInStream(s, 0, 3 * (k + m), 3 * k, 0, 0, k);
    CandidatesInStream(s, k, 3 * (k + m), n, 0, k, m);
  }

  lemma SampledPrefix(s: Stream, j: nat, k: nat)
    requires j <= k
    ensures Sampled(s, j) <= Sampled(s, k)
  {
    SampledBlock(s, j, k - j, 3 * (k - j));
  }

  lemma SlackIsUnread(buf: seq<Byte>, slack: seq<Byte>, k: nat)
    requires 3 * k <= |buf|
    ensures Accepted(buf + slack, 0, k) == Accepted(buf, 0, k)
  {
    assert forall i :: 0 <= i < k ==> Candidate(buf + slack, i) == Candidate(buf, i);
    assert Candidates(buf + slack, 0, k) == Candidates(buf, 0, k);
  }

  /** All sufficiently long prefixes of the stream give the same first N coefficients. */
  lemma SampledSettles(s: Stream, j: nat, k: nat)
    requires |Sampled(s, j)| >= N && |Sampled(s, k)| >= N
    ensures Sampled(s, j)[..N] == Sampled(s, k)[..N]
  {
    if j <= k { SampledPrefix(s, j, k); } else { SampledPrefix(s, k, j); }
  }

  /** A refill continues the list where the last one stopped. */
  lemma RefillContinues(sofar: seq<int>, more: seq<int>)
    ensures AtMost(sofar + more, N) == AtMost(sofar, N) + AtMost(more, N - |AtMost(sofar, N)|)
  {
  }

  /** The array starts with the first accepted among `k` candidates of the stream, `ctr` of them. */
  ghost predicate Filled(a: array<int>, s: Stream, k: nat, ctr: int)
    reads a
  {
    a.Length == N && ctr == |AtMost(Sampled(s, k), N)| <= N && a[..ctr] == AtMost(Sampled(s, k), N)
  }

  /** One more block squeezed and sampled. */
  method Refill(a: array<int>, s: Stream, k: nat, ctr: nat) returns (ctr': nat)
    requires Filled(a, s, k, ctr)
    modifies a
    ensures Filled(a, s, k + BLOCK / 3, ctr')
  {
    var block := Bytes(s, 3 * k, BLOCK);
    SampledBlock(s, k, BLOCK / 3, BLOCK);
    RefillContinues(Sampled(s, k), Accepted(block, 0, BLOCK / 3));
    var more := RejUniform(a, ctr, N - ctr, block, BLOCK, 0);
    ctr' := ctr + more;
  }

  // ---- What the coefficients are, read off the bits of the stream ----

  /** The number of the first 23 bits of the `k`-th three bytes, in the order of BytesToBits of FIPS 204. */
  function Value(s: Stream, k: nat): nat {
    Challenge.Number(Challenge.BytesToBits([s(3 * k), s(3 * k + 1), s(3 * k + 2)])[..23])
  }

  lemma {:induction false} NumberSplit(bits: seq<bool>, n: nat)
    requires n <= |bits|
    ensures Challenge.Number(bits)
         == Challenge.Number(bits[..n]) + Challenge.Doubled(Challenge.Number(bits[n..]), n)
    ensures Challenge.Number(bits[..n]) < Challenge.Doubled(1, n)
    decreases n
  {
    if n == 0 {
      assert bits[..0] == [] && bits[0..] == bits;
    } else {
      NumberSplit(bits[1..], n - 1);
      assert bits[1..][..n - 1] == bits[..n][1..] && bits[1..][n - 1..] == bits[n..];
    }
  }

  lemma {:induction false} DoubledIsTimes(m: nat, n: nat)
    ensures Challenge.Doubled(m, n) == m * Challenge.Doubled(1, n)
  {
    if n > 0 {
      DoubledIsTimes(m, n - 1);
      var d := Challenge.Doubled(1, n - 1);
      assert 2 * (m * d) == m * (2 * d);
    }
  }

  lemma TwentyThree()
    ensures Challenge.Doubled(1, 23) == 0x80_0000
  {
    Challenge.DoubledEightTimes(1);
    Add(8, 8);
    Add(16, 7);
    Challenge.DoubledEightTimes(256);
    Seven(65536);
  }

  lemma {:induction false} Add(m: nat, n: nat)
    ensures Challenge.Doubled(Challenge.Doubled(1, m), n) == Challenge.Doubled(1, m + n)
  {
    if n > 0 {
      Add(m, n - 1);
    }
  }

  lemma Seven(m: nat)
    ensures Challenge.Doubled(m, 7) == 128 * m
  {
    assert Challenge.Doubled(m, 2) == 2 * Challenge.Doubled(m, 1) == 4 * m;
    assert Challenge.Doubled(m, 4) == 2 * Challenge.Doubled(m, 3) == 4 * Challenge.Doubled(m, 2);
    assert Challenge.Doubled(m, 6) == 2 * Challenge.Doubled(m, 5) == 4 * Challenge.Doubled(m, 4);
  }

  lemma Remainder(b: nat, h: nat, r: nat)
    requires b == r + h * 0x80_0000 && r < 0x80_0000
    ensures b % 0x80_0000 == r
  {
  }

  /** A candidate is the number of the first 23 bits of its bytes. */
  lemma CandidateIsBits(s: Stream, buf: seq<Byte>, k: nat)
    requires 3 * k + 3 <= |buf| && buf[3 * k] == s(3 * k) && buf[3 * k + 1] == s(3 * k + 1)
    requires buf[3 * k + 2] == s(3 * k + 2)
    ensures Candidate(buf, k) == Value(s, k)
  {
    var bytes := [s(3 * k), s(3 * k + 1), s(3 * k + 2)];
    var bits := Challenge.BytesToBits(bytes);
    Challenge.LoadIsNumber(bytes);
    LoadThree(bytes, s(3 * k), s(3 * k + 1), s(3 * k + 2));
    NumberSplit(bits, 23);
    TwentyThree();
    var rest := Challenge.Number(bits[23..]);
    DoubledIsTimes(rest, 23);
    Remainder(Load(bytes), rest, Challenge.Number(bits[..23]));
  }

  lemma LoadThree(bytes: seq<Byte>, x: int, y: int, z: int)
    requires |bytes| == 3 && bytes[0] == x && bytes[1] == y && bytes[2] == z
    ensures Load(bytes) == x + 256 * y + 65536 * z
  {
    assert Load(bytes[1..]) == y + 256 * Load(bytes[1..][1..]);
    assert Load(bytes[1..][1..]) == z + 256 * Load(bytes[1..][1..][1..]);
  }

  /** Conversely every number below 2^23 is the candidate of its own three bytes, whatever their last bit. */
  lemma OwnCandidate(t: nat, top: nat)
    requires t < 0x80_0000 && top < 2
    ensures Triple(t % 256, t / 256 % 256, t / 65536 + 128 * top) == t
  {
    assert t % 256 + 256 * (t / 256 % 256) + 65536 * (t / 65536) == t;
    Remainder(t + 0x80_0000 * top, top, t);
  }

  /** `a` is what the candidates at the positions `pos` of the stream amount to, and before position `k` no other
      is below Q. */
  ghost predicate FirstBelowQ(s: Stream, a: seq<int>, pos: seq<nat>, k: nat) {
    && |pos| == |a| && (forall i, j :: 0 <= i < j < |pos| ==> pos[i] < pos[j])
    && (forall i :: 0 <= i < |a| ==> pos[i] < k && a[i] == Value(s, pos[i]) < 8380417)
    && (forall c: nat :: c < k && Value(s, c) < 8380417 ==> c in pos)
  }

  lemma {:induction false} SampledBelowQ(s: Stream, k: nat) returns (pos: seq<nat>)
    ensures FirstBelowQ(s, Sampled(s, k), pos, k)
  {
    if k == 0 {
      pos := [];
    } else {
      pos := SampledBelowQ(s, k - 1);
      OneMoreCandidate(s, k - 1);
      var v := Value(s, k - 1);
      BelowQSnoc(s, Sampled(s, k - 1), pos, k - 1, v);
      if v < Q {
        pos := pos + [k - 1];
      }
    }
  }

  lemma OneMoreCandidate(s: Stream, k: nat)
    ensures Sampled(s, k + 1) == if Value(s, k) < Q then Sampled(s, k) + [Value(s, k)] else Sampled(s, k)
  {
    var buf := Bytes(s, 3 * k, 3);
    SampledBlock(s, k, 1, 3);
    CandidateInStream(s, k, 3, 0);
    CandidateIsBits(s, Bytes(s, 0, 3 * (k + 1)), k);
    AcceptedSnoc(buf, 0, 0);
    assert Accepted(buf, 0, 0) == [];
  }

  lemma BelowQSnoc(s: Stream, a: seq<int>, pos: seq<nat>, k: nat, v: nat)
    requires FirstBelowQ(s, a, pos, k) && v == Value(s, k)
    ensures if v < 8380417 then FirstBelowQ(s, a + [v], pos + [k], k + 1) else FirstBelowQ(s, a, pos, k + 1)
  {
    if v < 8380417 {
      forall c: nat | c < k + 1 && Value(s, c) < 8380417 ensures c in pos + [k] {
        if c < k {
          assert c in pos;
        } else {
          assert (pos + [k])[|pos|] == c;
        }
      }
    }
  }

  /** The coefficients are the values below Q among the first three-byte values of the stream, in order. */
  ghost predicate FromBits(s: Stream, a: seq<int>) {
    exists pos, k :: FirstBelowQ(s, a, pos, k)
  }

  lemma NothingSkipped(s: Stream, pos: seq<nat>, k: nat, n: nat, c: nat)
    requires forall i, j :: 0 <= i < j < |pos| ==> pos[i] < pos[j]
    requires 0 < n <= |pos| && c in pos && c <= pos[n - 1]
    ensures c in pos[..n]
  {
    var i :| 0 <= i < |pos| && pos[i] == c;
    assert i < n;
    assert pos[..n][i] == c;
  }

  /** The first `n` coefficients of a longer list. */
  lemma FirstOfThem(s: Stream, k: nat, n: nat)
    requires 0 < n <= |Sampled(s, k)|
    ensures FromBits(s, Sampled(s, k)[..n])
  {
    var a := Sampled(s, k);
    var pos := SampledBelowQ(s, k);
    var a', pos', k' := a[..n], pos[..n], pos[n - 1] + 1;
    forall i, j | 0 <= i < j < n ensures pos'[i] < pos'[j] {
      assert pos[i] < pos[j];
    }
    forall i | 0 <= i < n ensures pos'[i] < k' && a'[i] == Value(s, pos'[i]) < 8380417 {
      assert i < n - 1 ==> pos[i] < pos[n - 1];
      assert a[i] == Value(s, pos[i]) < 8380417;
    }
    forall c: nat | c < k' && Value(s, c) < 8380417 ensures c in pos' {
      assert c in pos;
      NothingSkipped(s, pos, k, n, c);
    }
    assert FirstBelowQ(s, a', pos', k');
  }

  /** `poly_uniform_preinit`, on any stream with enough acceptable candidates: on others the code does
      not return. The coefficients are the first N accepted candidates of the stream, whatever the
      `slack` bytes past the squeezed ones hold. */
  method PolyUniform(a: array<int>, s: Stream, slack: seq<Byte>)
    requires a.Length == N && |slack| == 8 && exists n :: |Sampled(s, n)| >= N
    modifies a
    ensures forall n :: |Sampled(s, n)| >= N ==> a[..] == Sampled(s, n)[..N]
    ensures FromBits(s, a[..])
  {
    ghost var bound: nat :| |Sampled(s, bound)| >= N;
    var buf := Bytes(s, 0, BUFLEN);
    var ctr := RejUniformAvx(a, buf + slack);
    var k := BUFLEN / 3;
    SlackIsUnread(buf, slack, k);
    SampledBlock(s, 0, k, BUFLEN);
    assert Sampled(s, 0) == [];
    while ctr < N
      invariant Filled(a, s, k, ctr)
      decreases bound - k
    {
      if bound <= k { SampledPrefix(s, bound, k); }
      ctr := Refill(a, s, k, ctr);
      k := k + BLOCK / 3;
    }
    forall n: nat | |Sampled(s, n)| >= N ensures a[..] == Sampled(s, n)[..N] {
      SampledSettles(s, n, k);
    }
    FirstOfThem(s, k, N);
  }
}
