/** The fields of transactions, headers and proposals by name: their bytes, in order, and the order of sets. */
module WireFields {
  import opened Streams
  import opened Wire
  import T = Transactions

  // ---- Bytes ----

  /** Integers are written lowest byte first. */
  lemma BytesOfU32(n: nat)
    requires n < 0x1_0000_0000
    ensures Put(U32, n) == [n % 256, n / 256 % 256, n / 65536 % 256, n / 0x100_0000]
  {
    var b := Little(n / 256, 3);
    assert Little(n, 4) == [n % 256] + b;
    assert b == [n / 256 % 256] + Little(n / 65536, 2);
    assert Little(n / 65536, 2) == [n / 65536 % 256] + Little(n / 0x100_0000, 1);
    assert Little(n / 0x100_0000, 1) == [n / 0x100_0000 % 256] + Little(n / 0x1_0000_0000, 0);
  }

  /** `memcmp` on two blobs of one length: the first byte in which they differ decides. */
  predicate Memcmp(a: seq<Byte>, b: seq<Byte>)
    requires |a| == |b|
  {
    a != [] && (a[0] < b[0] || (a[0] == b[0] && Memcmp(a[1..], b[1..])))
  }

  lemma {:induction false} MemcmpSnoc(a: seq<Byte>, b: seq<Byte>, x: Byte, y: Byte)
    requires |a| == |b|
    ensures Memcmp(a + [x], b + [y]) <==> Memcmp(a, b) || (a == b && x < y)
  {
    if a != [] {
      MemcmpSnoc(a[1..], b[1..], x, y);
      assert (a + [x])[1..] == a[1..] + [x] && (b + [y])[1..] == b[1..] + [y];
      assert a == b <==> a[0] == b[0] && a[1..] == b[1..] by {
        assert a == [a[0]] + a[1..] && b == [b[0]] + b[1..];
      }
    }
  }

  lemma ReverseCons(x: Byte, s: seq<Byte>)
    ensures Reverse([x] + s) == Reverse(s) + [x]
  {
  }

  lemma {:induction false} MemcmpIsOrder(m: nat, n: nat, w: nat)
    requires m < Limit(w) && n < Limit(w)
    ensures Memcmp(Reverse(Little(m, w)), Reverse(Little(n, w))) <==> m < n
    ensures Reverse(Little(m, w)) == Reverse(Little(n, w)) <==> m == n
  {
    if w > 0 {
      var a, b := Little(m / 256, w - 1), Little(n / 256, w - 1);
      MemcmpIsOrder(m / 256, n / 256, w - 1);
      ReverseCons(m % 256, a);
      ReverseCons(n % 256, b);
      MemcmpSnoc(Reverse(a), Reverse(b), m % 256, n % 256);
      LastOf(Reverse(a), m % 256, Reverse(b), n % 256);
    }
  }

  lemma LastOf(a: seq<Byte>, x: Byte, b: seq<Byte>, y: Byte)
    requires |a| == |b|
    ensures a + [x] == b + [y] <==> a == b && x == y
  {
    assert (a + [x])[..|a|] == a && (b + [y])[..|b|] == b;
    assert (a + [x])[|a|] == x && (b + [y])[|b|] == y;
  }

  /** Addresses and ids are written so that `memcmp` orders the bytes as the numbers are. */
  lemma BlobOrder(m: nat, n: nat)
    requires m < Limit(64) && n < Limit(64)
    ensures Memcmp(Put(Blob, m), Put(Blob, n)) <==> m < n
  {
    MemcmpIsOrder(m, n, 64);
  }

  // ---- Transactions ----

  datatype TransactionData = TransactionData(versionNumber: nat, sequenceNumber: nat, cashAmount: nat, timestamp: nat,
                                             senderWalletAddress: nat, receiverWalletAddress: nat)

  datatype Transaction = Transaction(data: TransactionData, idHash: nat, signature: seq<Byte>)

  function RecordOf(t: Transaction): Record {
    var d := t.data;
    Record([d.versionNumber, d.sequenceNumber, d.cashAmount, d.timestamp, d.senderWalletAddress,
            d.receiverWalletAddress, t.idHash, |t.signature|], t.signature)
  }

  predicate TransactionOk(t: Transaction) {
    RecordOk(TX_LAYOUT, RecordOf(t))
  }

  lemma FieldsOf(layout: seq<Kind>, values: seq<nat>)
    requires |values| == |layout| && layout != []
    ensures PutAll(layout, values) == Put(layout[0], values[0]) + PutAll(layout[1..], values[1..])
  {
  }

  function U32s(a: nat, b: nat, c: nat): seq<Byte> {
    Put(U32, a) + Put(U32, b) + Put(U32, c)
  }

  function Blobs(a: nat, b: nat, c: nat): seq<Byte> {
    Put(Blob, a) + Put(Blob, b) + Put(Blob, c)
  }

  lemma Drops<A>(s: seq<A>, i: nat, j: nat)
    requires i + j <= |s|
    ensures s[i..][j..] == s[i + j..]
  {
  }

  lemma Flat<A>(a: seq<A>, b: seq<A>, c: seq<A>, d: seq<A>)
    ensures a + (b + (c + d)) == a + b + c + d && a + (b + c) + d == a + b + c + d
  {
  }

  lemma PutThree(layout: seq<Kind>, values: seq<nat>)
    requires |values| == |layout| >= 3
    ensures PutAll(layout, values) == Put(layout[0], values[0]) + Put(layout[1], values[1]) + Put(layout[2], values[2])
                                      + PutAll(layout[3..], values[3..])
  {
    var l1, v1, l2, v2 := layout[1..], values[1..], layout[2..], values[2..];
    Drops(layout, 1, 1);
    Drops(values, 1, 1);
    Drops(layout, 2, 1);
    Drops(values, 2, 1);
    FieldsOf(layout, values);
    FieldsOf(l1, v1);
    FieldsOf(l2, v2);
    Flat(Put(layout[0], values[0]), Put(l1[0], v1[0]), Put(l2[0], v2[0]), PutAll(layout[3..], values[3..]));
  }

  lemma PutOne(layout: seq<Kind>, values: seq<nat>)
    requires |values| == |layout| == 1
    ensures PutAll(layout, values) == Put(layout[0], values[0])
  {
    assert PutAll(layout[1..], values[1..]) == [];
  }

  lemma BlobsAndSize(layout: seq<Kind>, v: seq<nat>)
    requires layout == [Blob, Blob, Blob, U32] && |v| == 4
    ensures PutAll(layout, v) == Blobs(v[0], v[1], v[2]) + Put(U32, v[3])
  {
    PutThree(layout, v);
    PutOne(layout[3..], v[3..]);
  }

  lemma TailBytes(layout: seq<Kind>, v: seq<nat>)
    requires layout == [U64, Blob, Blob, Blob, U32] && |v| == 5
    ensures PutAll(layout, v) == Put(U64, v[0]) + (Blobs(v[1], v[2], v[3]) + Put(U32, v[4]))
  {
    FieldsOf(layout, v);
    BlobsAndSize(layout[1..], v[1..]);
  }

  lemma TxFieldBytes(layout: seq<Kind>, v: seq<nat>)
    requires layout == TX_LAYOUT && |v| == 8
    ensures PutAll(layout, v)
         == U32s(v[0], v[1], v[2]) + (Put(U64, v[3]) + (Blobs(v[4], v[5], v[6]) + Put(U32, v[7])))
  {
    PutThree(layout, v);
    TailBytes(layout[3..], v[3..]);
  }

  lemma Flatter<A>(a: seq<A>, b: seq<A>, c: seq<A>, d: seq<A>, e: seq<A>)
    ensures a + (b + (c + d)) + e == a + b + c + d + e
  {
  }

  lemma Whole<A>(s: seq<A>)
    ensures s[..|s|] == s
  {
  }

  /** A transaction's bytes: version, sequence number, amount, timestamp, sender, receiver, id, signature size and
      signature. */
  lemma TransactionBytes(t: Transaction)
    requires TransactionOk(t)
    ensures var d := t.data;
      Encode(TX_LAYOUT, RecordOf(t))
      == U32s(d.versionNumber, d.sequenceNumber, d.cashAmount) + Put(U64, d.timestamp)
         + Blobs(d.senderWalletAddress, d.receiverWalletAddress, t.idHash) + Put(U32, |t.signature|) + t.signature
    ensures |Encode(TX_LAYOUT, RecordOf(t))| == 216 + |t.signature|
  {
    var d := t.data;
    TxFieldBytes(TX_LAYOUT, RecordOf(t).fields);
    Whole(t.signature);
    Flatter(U32s(d.versionNumber, d.sequenceNumber, d.cashAmount), Put(U64, d.timestamp),
            Blobs(d.senderWalletAddress, d.receiverWalletAddress, t.idHash), Put(U32, |t.signature|), t.signature);
  }

  /** The transaction of the rounds and of the ledger. */
  function TxOf(t: Transaction): T.Tx
    requires TransactionOk(t)
  {
    var d := t.data;
    Words(t);
    T.Tx(t.idHash, d.senderWalletAddress, d.receiverWalletAddress, d.sequenceNumber, d.cashAmount)
  }

  lemma Words(t: Transaction)
    requires TransactionOk(t)
    ensures t.data.sequenceNumber < 0x1_0000_0000 && t.data.cashAmount < 0x1_0000_0000
  {
    var r := RecordOf(t);
    assert r.fields[1] < Limit(Width(TX_LAYOUT[1])) && r.fields[2] < Limit(Width(TX_LAYOUT[2]));
    Limits();
  }

  lemma Limits()
    ensures Limit(4) == 0x1_0000_0000
  {
    assert Limit(1) == 256 && Limit(2) == 65536 && Limit(3) == 0x100_0000;
  }

  /** Sets on the wire are ordered as the sets of the rounds are. */
  lemma SameOrder(a: Transaction, b: Transaction)
    requires TransactionOk(a) && TransactionOk(b)
    ensures Before(RecordOf(a), RecordOf(b)) <==> T.Before(TxOf(a), TxOf(b))
  {
  }

  // ---- Headers and proposals ----

  datatype BlockHeader = BlockHeader(version: nat, sequence: nat, size: nat, transactionsMerkleRootHash: nat,
                                     previousBlockHash: nat, accountBalanceMerkleRootHash: nat)

  function HeaderValues(h: BlockHeader): seq<nat> {
    [h.version, h.sequence, h.size, h.transactionsMerkleRootHash, h.previousBlockHash, h.accountBalanceMerkleRootHash]
  }

  lemma HeaderBytes(h: BlockHeader)
    ensures PutAll(HEADER_LAYOUT, HeaderValues(h))
         == U32s(h.version, h.sequence, h.size)
            + Blobs(h.transactionsMerkleRootHash, h.previousBlockHash, h.accountBalanceMerkleRootHash)
    ensures |PutAll(HEADER_LAYOUT, HeaderValues(h))| == 204
  {
    var layout, values := HEADER_LAYOUT, HeaderValues(h);
    PutThree(layout, values);
    PutThree(layout[3..], values[3..]);
    assert PutAll(layout[3..][3..], values[3..][3..]) == [];
    var a, b := U32s(h.version, h.sequence, h.size), PutAll(layout[3..], values[3..]);
    assert b == Blobs(h.transactionsMerkleRootHash, h.previousBlockHash, h.accountBalanceMerkleRootHash) + [];
  }

  datatype SignedProposal = SignedProposal(typeOfProposal: nat, seqNo: nat, time: nat, issuer: nat, txSetId: nat,
                                           previousBlockId: nat, signature: seq<Byte>)

  function ProposalRecord(p: SignedProposal): Record {
    Record([p.typeOfProposal, p.seqNo, p.time, p.issuer, p.txSetId, p.previousBlockId, |p.signature|], p.signature)
  }

  lemma ProposalFieldBytes(layout: seq<Kind>, v: seq<nat>)
    requires layout == PROPOSAL_LAYOUT && |v| == 7
    ensures PutAll(layout, v)
         == Put(U32, v[0]) + Put(U32, v[1]) + Put(U64, v[2]) + (Blobs(v[3], v[4], v[5]) + Put(U32, v[6]))
  {
    PutThree(layout, v);
    BlobsAndSize(layout[3..], v[3..]);
  }

  lemma ProposalBytes(p: SignedProposal)
    requires RecordOk(PROPOSAL_LAYOUT, ProposalRecord(p))
    ensures Encode(PROPOSAL_LAYOUT, ProposalRecord(p))
         == Put(U32, p.typeOfProposal) + Put(U32, p.seqNo) + Put(U64, p.time)
            + Blobs(p.issuer, p.txSetId, p.previousBlockId) + Put(U32, |p.signature|) + p.signature
    ensures |Encode(PROPOSAL_LAYOUT, ProposalRecord(p))| == 212 + |p.signature|
  {
    ProposalFieldBytes(PROPOSAL_LAYOUT, ProposalRecord(p).fields);
    Whole(p.signature);
    Flat(Put(U32, p.typeOfProposal) + Put(U32, p.seqNo) + Put(U64, p.time),
         Blobs(p.issuer, p.txSetId, p.previousBlockId), Put(U32, |p.signature|), p.signature);
  }
}
