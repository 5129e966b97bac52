/** `uint64_t` lanes: the word operations of fips202.c obey the laws the sponge proofs rest on. */
module Words64 {
  import opened Lanes
  import opened Sponge

  const SHAKE128_RATE: nat := 168
  const SHAKE256_RATE: nat := 136
  const SHAKE_PAD: bv8 := 0x1F

  /** `(uint64_t)b << (8 * k)` */
  function Shl(b: bv8, k: nat): bv64
    requires k < 8
    decreases k
  {
    if k == 0 then b as bv64 else Shl(b, k - 1) << 8
  }

  /** `(uint8_t)(x >> (8 * k))` */
  function Shr(x: bv64, k: nat): bv8
    requires k < 8
    decreases k
  {
    if k == 0 then (x & 0xFF) as bv8 else Shr(x >> 8, k - 1)
  }

  /** The bits from byte `k` up. */
  function High(k: nat): bv64
    requires k <= 8
  {
    if k == 0 then 0xFFFF_FFFF_FFFF_FFFF else High(k - 1) << 8
  }

  predicate IsLow(x: bv64, k: nat) {
    k <= 8 && x & High(k) == 0
  }

  function U64(): Words<bv64, bv8> {
    Words(
      0,
      (x: bv64, y: bv64) => x ^ y,
      (x: bv64, y: bv64) => x | y,
      (b: bv8, k: nat) => if k < 8 then Shl(b, k) else 0,
      (x: bv64, k: nat) => if k < 8 then Shr(x, k) else 0,
      IsLow,
      0,
      128,
      (b: bv8) => b | 128,
      (b: bv8) => b < 128,
      (b: bv8, c: bv8) => b ^ c)
  }

  lemma {:induction false} ShlZero(k: nat)
    requires k < 8
    ensures Shl(0, k) == 0
  {
    if k > 0 {
      ShlZero(k - 1);
    }
  }

  lemma ShiftOut(y: bv64, h: bv64)
    ensures y & h == 0 ==> (y << 8) & (h << 8) == 0
    ensures y & !h == 0 ==> (y << 8) & !(h << 8) == 0
  {
  }

  /** A byte shifted to place `k` has no bits below it. */
  lemma {:induction false} NoneBelow(b: bv8, k: nat)
    requires k < 8
    ensures Shl(b, k) & !High(k) == 0
  {
    if k > 0 {
      NoneBelow(b, k - 1);
      ShiftOut(Shl(b, k - 1), High(k - 1));
    }
  }

  /** Nor any above it. */
  lemma {:induction false} NoneAbove(b: bv8, k: nat)
    requires k < 8
    ensures Shl(b, k) & High(k + 1) == 0
  {
    if k > 0 {
      NoneAbove(b, k - 1);
      ShiftOut(Shl(b, k - 1), High(k));
    } else {
      assert High(1) == High(0) << 8;
    }
  }

  lemma {:induction false} HighShrinks(k: nat)
    requires k < 8
    ensures High(k + 1) & !High(k) == 0
  {
    if k > 0 {
      HighShrinks(k - 1);
      ShiftOut(High(k), High(k - 1));
    }
  }

  lemma OrKeeps(x: bv64, y: bv64, h: bv64, h': bv64)
    requires x & h == 0 && y & h' == 0 && h' & !h == 0
    ensures (x | y) & h' == 0
  {
  }

  lemma NoBitsAbove(b: bv8, k: nat, y: bv64, h': bv64)
    requires k < 8 && y == Shl(b, k) && h' == High(k + 1)
    ensures y & h' == 0
  {
    NoneAbove(b, k);
  }

  lemma HighIsSmaller(k: nat, h: bv64, h': bv64)
    requires k < 8 && h == High(k) && h' == High(k + 1)
    ensures h' & !h == 0
  {
    HighShrinks(k);
  }

  lemma OrBytes(x: bv64, y: bv64, b: bv8, k: nat, h: bv64, h': bv64)
    requires k < 8 && y == Shl(b, k) && h == High(k) && h' == High(k + 1) && x & h == 0
    ensures (x | y) & h' == 0
  {
    NoBitsAbove(b, k, y, h');
    HighIsSmaller(k, h, h');
    OrKeeps(x, y, h, h');
  }

  lemma XorOr(u: bv64, x: bv64, y: bv64, h: bv64)
    requires x & h == 0 && y & !h == 0
    ensures u ^ (x | y) == u ^ x ^ y
  {
  }

  lemma XorBytes(u: bv64, x: bv64, y: bv64, b: bv8, k: nat, h: bv64)
    requires k < 8 && y == Shl(b, k) && h == High(k) && x & h == 0
    ensures u ^ (x | y) == u ^ x ^ y
  {
    assert y & !h == 0 by { NoneBelow(b, k); }
    XorOr(u, x, y, h);
  }

  lemma TopBit(p: bv8, a: bv64, b: bv64, c: bv64)
    requires a == Shl(p, 7) && b == Shl(128, 7) && c == Shl(p | 128, 7)
    ensures if p < 128 then c == a ^ b else c == a && b != 0
  {
  }

  lemma Assoc(u: bv64, x: bv64, y: bv64)
    ensures u ^ x ^ y == u ^ (x ^ y)
  {
  }

  lemma Moves(u: bv64, b: bv64)
    requires b != 0
    ensures u ^ b != u
  {
  }

  lemma U64ZeroIsUnit()
    ensures ZeroIsUnit(U64())
  {
    var w := U64();
    forall u: bv64 ensures w.xor(u, w.zero) == u {
    }
    forall u: bv64, k: int | 0 <= k < 8 ensures w.xor(u, w.shl(w.nil, k)) == u {
      ShlZero(k);
    }
  }

  lemma U64Or(x: bv64, b: bv8, k: nat, y: bv64, z: bv64)
    requires k < 8 && IsLow(x, k) && y == Shl(b, k) && z == x | y
    ensures IsLow(z, k + 1)
  {
    OrBytes(x, y, b, k, High(k), High(k + 1));
  }

  lemma OrLaw(w: Words<bv64, bv8>, x: bv64, b: bv8, k: nat)
    requires w == U64() && k < 8 && w.low(x, k)
    ensures w.low(w.or(x, w.shl(b, k)), k + 1)
  {
    var y := w.shl(b, k);
    var z := w.or(x, y);
    U64Or(x, b, k, y, z);
  }

  lemma XorIs(u: bv64, x: bv64)
    ensures U64().xor(u, x) == u ^ x
  {
  }

  lemma XorTwiceIs(u: bv64, x: bv64, y: bv64)
    ensures U64().xor(U64().xor(u, x), y) == u ^ x ^ y
  {
  }

  lemma OrIs(x: bv64, y: bv64)
    ensures U64().or(x, y) == x | y
  {
  }

  lemma ShlIs(b: bv8, k: nat)
    requires k < 8
    ensures U64().shl(b, k) == Shl(b, k)
  {
  }

  lemma Glue(w: Words<bv64, bv8>, u: bv64, x: bv64, y: bv64, z: bv64)
    requires w.xor(u, z) == u ^ z && w.xor(w.xor(u, x), y) == u ^ x ^ y
    ensures w.xor(w.xor(u, x), y) == w.xor(u, z) <==> u ^ x ^ y == u ^ z
  {
  }

  lemma XorLaw(u: bv64, x: bv64, b: bv8, k: nat, y: bv64, z: bv64)
    requires k < 8 && IsLow(x, k) && y == Shl(b, k) && z == x | y
    ensures U64().xor(u, z) == U64().xor(U64().xor(u, x), y)
  {
    assert u ^ x ^ y == u ^ z by {
      XorBytes(u, x, y, b, k, High(k));
    }
    assert U64().xor(U64().xor(u, x), y) == U64().xor(u, z) <==> u ^ x ^ y == u ^ z by {
      XorIs(u, z);
      XorTwiceIs(u, x, y);
      Glue(U64(), u, x, y, z);
    }
  }

  lemma U64OrIsXor()
    ensures OrIsXor(U64())
  {
    var w := U64();
    assert w.low(w.zero, 0) by {
      assert High(0) == 0xFFFF_FFFF_FFFF_FFFF;
    }
    forall x: bv64, b: bv8, k: int | 0 <= k < 8 && w.low(x, k) ensures w.low(w.or(x, w.shl(b, k)), k + 1) {
      OrLaw(w, x, b, k);
    }
    forall u: bv64, x: bv64, b: bv8, k: int | 0 <= k < 8 && w.low(x, k)
      ensures w.xor(u, w.or(x, w.shl(b, k))) == w.xor(w.xor(u, x), w.shl(b, k))
    {
      ShlIs(b, k);
      OrIs(x, Shl(b, k));
      XorLaw(u, x, b, k, w.shl(b, k), w.or(x, w.shl(b, k)));
    }
  }

  lemma XorTopBit(u: bv64, a: bv64, b: bv64, c: bv64, clear: bool)
    requires if clear then c == a ^ b else c == a && b != 0
    ensures u ^ a ^ b == u ^ c <==> clear
  {
    if clear {
      Assoc(u, a, b);
    } else {
      Moves(u ^ a, b);
    }
  }

  lemma PaddingLaw(u: bv64, p: bv8, a: bv64, b: bv64, c: bv64)
    requires a == Shl(p, 7) && b == Shl(128, 7) && c == Shl(p | 128, 7)
    ensures U64().xor(U64().xor(u, a), b) == U64().xor(u, c) <==> p < 128
  {
    assert u ^ a ^ b == u ^ c <==> p < 128 by {
      TopBit(p, a, b, c);
      XorTopBit(u, a, b, c, p < 128);
    }
    assert U64().xor(U64().xor(u, a), b) == U64().xor(u, c) <==> u ^ a ^ b == u ^ c by {
      XorIs(u, c);
      XorTwiceIs(u, a, b);
      Glue(U64(), u, a, b, c);
    }
  }

  lemma U64PaddingBit()
    ensures PaddingBit(U64())
  {
    var w := U64();
    forall u: bv64, p: bv8
      ensures w.xor(w.xor(u, w.shl(p, 7)), w.shl(w.top, 7)) == w.xor(u, w.shl(w.withTop(p), 7)) <==> w.topClear(p)
    {
      PaddingLaw(u, p, w.shl(p, 7), w.shl(w.top, 7), w.shl(w.withTop(p), 7));
    }
  }

  // ---- Reading ----

  lemma ShiftXor(x: bv64, y: bv64, z: bv64, x': bv64, y': bv64, z': bv64)
    requires z == x ^ y && x' == x >> 8 && y' == y >> 8 && z' == z >> 8
    ensures z' == x' ^ y'
  {
  }

  lemma ShrNext(x: bv64, j: nat, a: bv8) returns (x': bv64)
    requires 0 < j < 8 && a == Shr(x, j)
    ensures x' == x >> 8 && a == Shr(x', j - 1)
  {
    x' := x >> 8;
  }

  lemma LowXor(x: bv64, y: bv64, z: bv64)
    requires z == x ^ y
    ensures (z & 0xFF) as bv8 == ((x & 0xFF) as bv8) ^ ((y & 0xFF) as bv8)
  {
  }

  lemma {:induction false} ShrXor(x: bv64, y: bv64, z: bv64, j: nat, a: bv8, b: bv8, c: bv8)
    requires j < 8 && z == x ^ y && a == Shr(x, j) && b == Shr(y, j) && c == Shr(z, j)
    ensures c == a ^ b
    decreases j
  {
    if j == 0 {
      LowXor(x, y, z);
    } else {
      var x' := ShrNext(x, j, a);
      var y' := ShrNext(y, j, b);
      var z' := ShrNext(z, j, c);
      ShiftXor(x, y, z, x', y', z');
      ShrXor(x', y', z', j - 1, a, b, c);
    }
  }

  lemma {:induction false} ShrZero(j: nat)
    requires j < 8
    ensures Shr(0, j) == 0
    decreases j
  {
    if j > 0 {
      ShrZero(j - 1);
    }
  }

  lemma ByteWord(b: bv8)
    ensures ((b as bv64) & 0xFF) as bv8 == b && (b as bv64) >> 8 == 0
  {
  }

  lemma ShiftBack(x: bv64, y: bv64)
    requires y == x << 8 && x & 0xFF00_0000_0000_0000 == 0
    ensures (y & 0xFF) as bv8 == 0 && y >> 8 == x
  {
  }

  lemma HighValues()
    ensures High(1) == 0xFFFF_FFFF_FFFF_FF00 && High(2) == 0xFFFF_FFFF_FFFF_0000
    ensures High(3) == 0xFFFF_FFFF_FF00_0000 && High(4) == 0xFFFF_FFFF_0000_0000
    ensures High(5) == 0xFFFF_FF00_0000_0000 && High(6) == 0xFFFF_0000_0000_0000
    ensures High(7) == 0xFF00_0000_0000_0000
  {
  }

  lemma HighTop(k: nat, h: bv64)
    requires 1 <= k <= 7 && h == High(k)
    ensures 0xFF00_0000_0000_0000 & !h == 0
  {
    HighValues();
  }

  /** A byte below the top place leaves the top place free. */
  lemma TopFree(b: bv8, k: nat)
    requires k < 7
    ensures Shl(b, k) & 0xFF00_0000_0000_0000 == 0
  {
    NoneAbove(b, k);
    HighTop(k + 1, High(k + 1));
    FreeBelow(Shl(b, k), High(k + 1));
  }

  lemma FreeBelow(y: bv64, h: bv64)
    requires y & h == 0 && 0xFF00_0000_0000_0000 & !h == 0
    ensures y & 0xFF00_0000_0000_0000 == 0
  {
  }

  /** Shifting up one more place and down again. */
  lemma ShlNext(b: bv8, k: nat, y: bv64) returns (x: bv64)
    requires 0 < k < 8 && y == Shl(b, k)
    ensures x == Shl(b, k - 1) && y >> 8 == x && (y & 0xFF) as bv8 == 0
  {
    x := Shl(b, k - 1);
    TopFree(b, k - 1);
    ShiftBack(x, y);
  }

  lemma ShrFirst(y: bv64, a: bv8)
    requires a == Shr(y, 0)
    ensures a == (y & 0xFF) as bv8
  {
  }

  lemma LoneByte(b: bv8, y: bv64, j: nat, a: bv8)
    requires j < 8 && y == Shl(b, 0) && a == Shr(y, j)
    ensures a == if j == 0 then b else 0
  {
    ByteWord(b);
    if j > 0 {
      var x := ShrNext(y, j, a);
      ShrZero(j - 1);
    }
  }

  lemma {:induction false} ShrShl(b: bv8, k: nat, j: nat, y: bv64, a: bv8)
    requires j < 8 && k < 8 && y == Shl(b, k) && a == Shr(y, j)
    ensures a == if j == k then b else 0
    decreases k
  {
    if k == 0 {
      LoneByte(b, y, j, a);
    } else {
      var x := ShlNext(b, k, y);
      if j == 0 {
        ShrFirst(y, a);
      } else {
        var x' := ShrNext(y, j, a);
        ShrShl(b, k - 1, j - 1, x, a);
      }
    }
  }

  lemma ShrIs(x: bv64, k: nat)
    requires k < 8
    ensures U64().shr(x, k) == Shr(x, k)
  {
  }

  lemma ReadShifted(b: bv8, k: nat, j: nat, y: bv64)
    requires j < 8 && k < 8 && y == Shl(b, k)
    ensures U64().shr(y, j) == if j == k then b else 0
  {
    ShrIs(y, j);
    ShrShl(b, k, j, y, Shr(y, j));
  }

  lemma ReadXor(x: bv64, y: bv64, z: bv64, j: nat)
    requires j < 8 && z == x ^ y
    ensures U64().shr(z, j) == Shr(x, j) ^ Shr(y, j)
  {
    ShrIs(z, j);
    ShrXor(x, y, z, j, Shr(x, j), Shr(y, j), Shr(z, j));
  }

  lemma U64ReadsShifted()
    ensures ReadsShifted(U64())
  {
    var w := U64();
    forall b: bv8, j: int, k: int | 0 <= j < 8 && 0 <= k < 8
      ensures w.shr(w.shl(b, k), j) == if j == k then b else w.nil
    {
      ShlIs(b, k);
      ReadShifted(b, k, j, Shl(b, k));
    }
  }

  lemma U64ReadsXor()
    ensures ReadsXor(U64())
  {
    var w := U64();
    forall x: bv64, y: bv64, j: int | 0 <= j < 8
      ensures w.shr(w.xor(x, y), j) == w.xorByte(w.shr(x, j), w.shr(y, j))
    {
      XorIs(x, y);
      ShrIs(x, j);
      ShrIs(y, j);
      ReadXor(x, y, w.xor(x, y), j);
    }
  }

  lemma U64ReadsZero()
    ensures ReadsZero(U64())
  {
    var w := U64();
    forall j: int | 0 <= j < 8 ensures w.shr(w.zero, j) == w.nil {
      ShrIs(0, j);
      ShrZero(j);
    }
  }

  /** The laws hold of 64-bit words. */
  lemma U64Laws()
    ensures Laws(U64()) && TopOfZero(U64()) && ReadsBack(U64())
  {
    U64ReadsShifted();
    U64ReadsXor();
    U64ReadsZero();
    U64ZeroIsUnit();
    U64OrIsXor();
    U64PaddingBit();
  }

  /** Place `k` of a word is its bits from `8 * k` on: lanes are little-endian, as in section B.1 of FIPS 202. */
  lemma PlacesOfShl(b: bv8)
    ensures Shl(b, 0) == b as bv64 && Shl(b, 1) == (b as bv64) << 8 && Shl(b, 2) == (b as bv64) << 16
    ensures Shl(b, 3) == (b as bv64) << 24 && Shl(b, 4) == (b as bv64) << 32 && Shl(b, 5) == (b as bv64) << 40
    ensures Shl(b, 6) == (b as bv64) << 48 && Shl(b, 7) == (b as bv64) << 56
  {
    ShiftsAdd(b as bv64);
  }

  lemma ShiftsAdd(y: bv64)
    ensures (y << 8) << 8 == y << 16 && (y << 16) << 8 == y << 24 && (y << 24) << 8 == y << 32
    ensures (y << 32) << 8 == y << 40 && (y << 40) << 8 == y << 48 && (y << 48) << 8 == y << 56
  {
  }

  // ---- Padding in bits ----

  /** The bits of a byte, lowest first. */
  function BitsOf(b: bv8): (bits: seq<bool>)
    ensures |bits| == 8
  {
    [b & 1 != 0, b & 2 != 0, b & 4 != 0, b & 8 != 0, b & 16 != 0, b & 32 != 0, b & 64 != 0, b & 128 != 0]
  }

  function AllBits(bytes: seq<bv8>): (bits: seq<bool>)
    ensures |bits| == 8 * |bytes|
  {
    if bytes == [] then [] else AllBits(bytes[..|bytes| - 1]) + BitsOf(bytes[|bytes| - 1])
  }

  function Falses(n: nat): (bits: seq<bool>)
    ensures |bits| == n && forall i :: 0 <= i < n ==> !bits[i]
  {
    seq(n, _ => false)
  }

  /** What SHAKE appends to a message that leaves `room` bytes of a block: the suffix 1111, then pad10*1 of
      sections 5.1 and 6.2 of FIPS 202. */
  function ShakeSuffix(room: nat): seq<bool>
    requires room > 0
  {
    [true, true, true, true] + ([true] + Falses(8 * room - 6) + [true])
  }

  lemma {:induction false} ZeroBits(n: nat)
    ensures AllBits(Zeros(U64(), n)) == Falses(8 * n)
  {
    if n > 0 {
      ZeroBits(n - 1);
      assert Zeros(U64(), n)[..n - 1] == Zeros(U64(), n - 1);
      assert BitsOf(0) == Falses(8);
      assert Falses(8 * (n - 1)) + Falses(8) == Falses(8 * n);
    }
  }

  lemma AllBitsSnoc(bytes: seq<bv8>, b: bv8)
    ensures AllBits(bytes + [b]) == AllBits(bytes) + BitsOf(b)
  {
    assert (bytes + [b])[..|bytes|] == bytes;
  }

  lemma {:induction false} AllBitsConcat(a: seq<bv8>, b: seq<bv8>)
    ensures AllBits(a + b) == AllBits(a) + AllBits(b)
  {
    if b == [] {
      assert a + b == a;
    } else {
      var n := |b| - 1;
      var most, last := b[..n], b[n];
      AllBitsConcat(a, most);
      AllBitsSnoc(a + most, last);
      Joined(a, b, most, last);
      Rejoin(AllBits(a), AllBits(most), BitsOf(last));
    }
  }

  lemma Joined(a: seq<bv8>, b: seq<bv8>, most: seq<bv8>, last: bv8)
    requires b != [] && most == b[..|b| - 1] && last == b[|b| - 1]
    ensures a + b == a + most + [last]
  {
  }

  lemma Rejoin<T>(a: seq<T>, b: seq<T>, c: seq<T>)
    ensures a + b + c == a + (b + c)
  {
  }

  lemma OneByteBits(b: bv8)
    ensures AllBits([b]) == BitsOf(b)
  {
    AllBitsSnoc([], b);
  }

  /** The padding bytes are those bits. */
  lemma PaddingBits(room: nat)
    requires room > 0
    ensures AllBits(Pad(U64(), room, SHAKE_PAD)) == ShakeSuffix(room)
  {
    if room == 1 {
      OneByteBits(0x9F);
      assert Pad(U64(), 1, SHAKE_PAD) == [0x9F];
      assert Falses(2) == [false, false];
    } else {
      var zeros := Zeros(U64(), room - 2);
      AllBitsConcat([SHAKE_PAD] + zeros, [128]);
      AllBitsConcat([SHAKE_PAD], zeros);
      OneByteBits(SHAKE_PAD);
      OneByteBits(128);
      ZeroBits(room - 2);
      SuffixParts(room);
    }
  }

  lemma SuffixParts(room: nat)
    requires room > 1
    ensures BitsOf(SHAKE_PAD) + Falses(8 * (room - 2)) + BitsOf(128) == ShakeSuffix(room)
  {
    assert BitsOf(SHAKE_PAD) == [true, true, true, true, true, false, false, false];
    assert BitsOf(128) == [false, false, false, false, false, false, false, true];
  }

  /** SHAKE128 and SHAKE256: their padding byte has its top bit clear, so every split of input and output
      agrees with the one-shot functions. */
  lemma ShakeSplits(f: seq<bv64> -> seq<bv64>, r: nat, chunks: seq<seq<bv8>>, outs: seq<seq<bv8>>)
    requires KeepsLength(f) && (r == SHAKE128_RATE || r == SHAKE256_RATE)
    requires OutputAll(Keccak(U64(), f), r,
                       Finalized(U64(), r, FeedAll(Keccak(U64(), f), r, Start(U64()), chunks), SHAKE_PAD), outs)
    ensures IsSponge(U64(), f, r, Concat(chunks), SHAKE_PAD, Concat(outs))
  {
    U64Laws();
    SplitsDoNotMatter(U64(), f, r, SHAKE_PAD, chunks, outs);
  }
}
