/** Serialising into a buffer at an offset, and reading back from one. */
module WireBuffers {
  import opened Streams
  import opened Wire
  import opened Wrappers

  /** `written` stands in the buffer from `offset` on; nothing else of `before` has changed. */
  ghost predicate Wrote(buffer: seq<Byte>, before: seq<Byte>, offset: nat, written: seq<Byte>) {
    && |buffer| == |before| && offset + |written| <= |before|
    && buffer == before[..offset] + written + before[offset + |written|..]
  }

  lemma WroteMore(a: seq<Byte>, b: seq<Byte>, c: seq<Byte>, offset: nat, x: seq<Byte>, y: seq<Byte>)
    requires Wrote(b, a, offset, x) && Wrote(c, b, offset + |x|, y)
    ensures Wrote(c, a, offset, x + y)
  {
    var k := offset + |x|;
    assert b[..k] == a[..offset] + x;
    assert b[k + |y|..] == a[k + |y|..];
    assert a[..offset] + x + y == a[..offset] + (x + y);
  }

  lemma WroteNothing(a: seq<Byte>, offset: nat)
    requires offset <= |a|
    ensures Wrote(a, a, offset, [])
  {
    assert a[..offset] + [] + a[offset..] == a;
  }

  /** `memcpy` into the buffer. */
  method Copy(buffer: array<Byte>, offset: nat, bytes: seq<Byte>)
    requires offset + |bytes| <= buffer.Length
    modifies buffer
    ensures Wrote(buffer[..], old(buffer[..]), offset, bytes)
  {
    ghost var before := buffer[..];
    for i := 0 to |bytes|
      invariant buffer[..offset + i] == before[..offset] + bytes[..i]
      invariant buffer[offset + i..] == before[offset + i..]
    {
      ghost var tail := buffer[offset + i..];
      buffer[offset + i] := bytes[i];
      assert buffer[..offset + i + 1] == buffer[..offset + i] + [bytes[i]];
      assert buffer[offset + i + 1..] == tail[1..];
    }
    assert bytes[..|bytes|] == bytes;
    assert buffer[..] == buffer[..offset + |bytes|] + buffer[offset + |bytes|..];
  }

  /** `serializeField` for each field in turn. */
  method PutFields(buffer: array<Byte>, offset: nat, layout: seq<Kind>, values: seq<nat>) returns (offset': nat)
    requires |values| == |layout| && offset + Size(layout) <= buffer.Length
    modifies buffer
    ensures offset' == offset + Size(layout)
    ensures Wrote(buffer[..], old(buffer[..]), offset, PutAll(layout, values))
    decreases |layout|
  {
    if layout == [] {
      offset' := offset;
      WroteNothing(buffer[..], offset);
    } else {
      ghost var before := buffer[..];
      var first := Put(layout[0], values[0]);
      Copy(buffer, offset, first);
      ghost var mid := buffer[..];
      offset' := PutFields(buffer, offset + |first|, layout[1..], values[1..]);
      WroteMore(before, mid, buffer[..], offset, first, PutAll(layout[1..], values[1..]));
    }
  }

  /** Fields and signature. */
  method PutRecord(buffer: array<Byte>, offset: nat, layout: seq<Kind>, r: Record) returns (offset': nat)
    requires Writable(layout, r) && buffer.Length - offset >= RecordSize(layout, r)
    modifies buffer
    ensures offset' == offset + RecordSize(layout, r)
    ensures Wrote(buffer[..], old(buffer[..]), offset, Encode(layout, r))
  {
    var size := SignatureSize(layout, r);
    ghost var before := buffer[..];
    offset' := PutFields(buffer, offset, layout, r.fields);
    ghost var mid := buffer[..];
    Copy(buffer, offset', r.signature[..size]);
    WroteMore(before, mid, buffer[..], offset, PutAll(layout, r.fields), r.signature[..size]);
    offset' := offset' + size;
  }

  // ---- Transactions ----

  const ID := 6
  const RECEIVER := 5

  /** The checks of `Transaction::serialize`, `getSize` and `TransactionData::serialize`. */
  predicate TxComplete(t: Record)
    requires Writable(TX_LAYOUT, t)
  {
    t.fields[ID] != 0 && SignatureSize(TX_LAYOUT, t) != 0 && t.fields[SENDER] != 0 && t.fields[RECEIVER] != 0
  }

  /** Either the transaction is written and the offset moved by its size, or nothing happens. */
  method SerializeTx(buffer: array<Byte>, offset: nat, t: Record) returns (ok: bool, offset': nat)
    requires Writable(TX_LAYOUT, t) && offset <= buffer.Length
    modifies buffer
    ensures ok <==> TxComplete(t) && buffer.Length - offset >= RecordSize(TX_LAYOUT, t)
    ensures ok ==> offset' == offset + RecordSize(TX_LAYOUT, t)
    ensures ok ==> Wrote(buffer[..], old(buffer[..]), offset, Encode(TX_LAYOUT, t))
    ensures !ok ==> offset' == offset && buffer[..] == old(buffer[..])
    ensures |Encode(TX_LAYOUT, t)| == RecordSize(TX_LAYOUT, t)
  {
    ok, offset' := false, offset;
    var size := t.fields[|TX_LAYOUT| - 1];
    if t.fields[ID] == 0 || size == 0 || buffer.Length - offset < Size(TX_LAYOUT) + size
      || t.fields[SENDER] == 0 || t.fields[RECEIVER] == 0
    {
      return;
    }
    offset' := PutRecord(buffer, offset, TX_LAYOUT, t);
    ok := true;
  }

  /** `deserializeField` for each field, then the signature. */
  method ReadRecord(layout: seq<Kind>, buffer: seq<Byte>, offset: nat) returns (o: Option<Record>, offset': nat)
    requires layout != [] && offset <= |buffer|
    ensures o == Decode(layout, buffer[offset..])
    ensures o.Some? ==> offset' == offset + RecordSize(layout, o.value)
    ensures offset <= offset' <= |buffer|
  {
    o, offset' := None, offset;
    if |buffer| - offset < Size(layout) {
      return;
    }
    var fields := ReadFields(layout, buffer, offset);
    offset' := offset + Size(layout);
    var size := fields[|layout| - 1];
    if |buffer| - offset' < size {
      return;
    }
    assert buffer[offset..][Size(layout)..Size(layout) + size] == buffer[offset'..offset' + size];
    o := Some(Record(fields, buffer[offset'..offset' + size]));
    offset' := offset' + size;
  }

  method ReadFields(layout: seq<Kind>, buffer: seq<Byte>, offset: nat) returns (values: seq<nat>)
    requires offset + Size(layout) <= |buffer|
    ensures values == GetAll(layout, buffer[offset..])
    decreases |layout|
  {
    if layout == [] {
      values := [];
    } else {
      var w := Width(layout[0]);
      var more := ReadFields(layout[1..], buffer, offset + w);
      assert buffer[offset..][..w] == buffer[offset..offset + w] && buffer[offset..][w..] == buffer[offset + w..];
      values := [Get(layout[0], buffer[offset..offset + w])] + more;
    }
  }

  // ---- Bodies ----

  /** All transactions can be held, and `getSize` does not throw on any. */
  predicate AllSigned(txs: seq<Record>)
    requires AllWritable(txs)
  {
    forall i :: 0 <= i < |txs| ==> SignatureSize(TX_LAYOUT, txs[i]) != 0
  }

  predicate AllWritable(txs: seq<Record>) {
    forall i :: 0 <= i < |txs| ==> Writable(TX_LAYOUT, txs[i])
  }

  predicate AllComplete(txs: seq<Record>)
    requires AllWritable(txs)
  {
    forall i :: 0 <= i < |txs| ==> TxComplete(txs[i])
  }

  lemma EncodeNext(layout: seq<Kind>, txs: seq<Record>, i: nat)
    requires i < |txs|
    ensures EncodeTxs(layout, txs[i..]) == Encode(layout, txs[i]) + EncodeTxs(layout, txs[i + 1..])
  {
    assert txs[i..][1..] == txs[i + 1..];
  }

  /** `BlockBody::getSize` */
  method BodySize(txs: seq<Record>) returns (ok: bool, size: nat)
    requires AllWritable(txs)
    ensures ok <==> AllSigned(txs)
    ensures ok ==> size == Width(U32) + |EncodeTxs(TX_LAYOUT, txs)|
  {
    ok, size := true, Width(U32);
    assert txs[0..] == txs;
    for i := 0 to |txs|
      invariant size + |EncodeTxs(TX_LAYOUT, txs[i..])| == Width(U32) + |EncodeTxs(TX_LAYOUT, txs)|
      invariant forall k :: 0 <= k < i ==> SignatureSize(TX_LAYOUT, txs[k]) != 0
    {
      var k := SignatureSize(TX_LAYOUT, txs[i]);
      if k == 0 {
        return false, 0;
      }
      EncodeNext(TX_LAYOUT, txs, i);
      size := size + (Size(TX_LAYOUT) + k);
    }
    assert EncodeTxs(TX_LAYOUT, txs[|txs|..]) == [];
  }

  /** The body up to transaction `n`. */
  function Cropped(body: Body, n: nat): Body
    requires n <= |body.txs|
  {
    Body(body.count, body.txs[..n])
  }

  /** `written` is the body before transaction `i`, and `whole` with what is left. */
  ghost predicate Partway(body: Body, i: nat, written: seq<Byte>, whole: seq<Byte>) {
    && i <= |body.txs| && written == EncodeBody(TX_LAYOUT, Cropped(body, i))
    && written + EncodeTxs(TX_LAYOUT, body.txs[i..]) == whole
  }

  lemma PartwayStart(body: Body)
    ensures Partway(body, 0, Put(U32, body.count), EncodeBody(TX_LAYOUT, body))
  {
    assert body.txs[..0] == [] && body.txs[0..] == body.txs;
    assert Put(U32, body.count) + [] == Put(U32, body.count);
  }

  lemma PartwayNext(body: Body, i: nat, written: seq<Byte>, whole: seq<Byte>, e: seq<Byte>)
    requires Partway(body, i, written, whole) && i < |body.txs| && e == Encode(TX_LAYOUT, body.txs[i])
    ensures Partway(body, i + 1, written + e, whole) && |written| + |e| <= |whole|
  {
    var more := EncodeTxs(TX_LAYOUT, body.txs[i + 1..]);
    EncodeNext(TX_LAYOUT, body.txs, i);
    Cut(written, e, more);
    EncodeSnoc(TX_LAYOUT, body.txs[..i], body.txs[i]);
    Cut(Put(U32, body.count), EncodeTxs(TX_LAYOUT, body.txs[..i]), e);
    assert body.txs[..i + 1] == body.txs[..i] + [body.txs[i]];
  }

  lemma PartwayEnd(body: Body, written: seq<Byte>, whole: seq<Byte>)
    requires Partway(body, |body.txs|, written, whole)
    ensures written == whole
  {
    assert body.txs[|body.txs|..] == [] && written + [] == written;
  }

  /** `written` stands in the buffer, the body up to transaction `i`, and there is room for all of it. */
  ghost predicate Standing(buffer: seq<Byte>, before: seq<Byte>, offset: nat, at: nat, body: Body, i: nat,
                           written: seq<Byte>, whole: seq<Byte>) {
    && Partway(body, i, written, whole) && at == offset + |written| && offset + |whole| <= |before|
    && Wrote(buffer, before, offset, written)
  }

  predicate CompleteTo(txs: seq<Record>, n: nat)
    requires AllWritable(txs)
  {
    n <= |txs| && forall k :: 0 <= k < n ==> TxComplete(txs[k])
  }

  /** The first `n` transactions are complete, and the next one, if there is one, is not. */
  predicate Stops(txs: seq<Record>, n: nat)
    requires AllWritable(txs)
  {
    CompleteTo(txs, n) && (n < |txs| ==> !TxComplete(txs[n]))
  }

  /** Transaction `i` of a body. */
  method SerializeNext(buffer: array<Byte>, offset: nat, at: nat, body: Body, i: nat,
                       ghost before: seq<Byte>, ghost written: seq<Byte>, ghost whole: seq<Byte>)
      returns (ok: bool, at': nat, ghost written': seq<Byte>)
    requires AllWritable(body.txs) && i < |body.txs| && CompleteTo(body.txs, i)
    requires Standing(buffer[..], before, offset, at, body, i, written, whole)
    modifies buffer
    ensures if ok then CompleteTo(body.txs, i + 1) else Stops(body.txs, i)
    ensures Standing(buffer[..], before, offset, at', body, if ok then i + 1 else i, written', whole)
  {
    ghost var mid, e := buffer[..], Encode(TX_LAYOUT, body.txs[i]);
    PartwayNext(body, i, written, whole, e);
    ok, at' := SerializeTx(buffer, at, body.txs[i]);
    written' := written;
    if ok {
      WroteMore(before, mid, buffer[..], offset, written, e);
      written' := written + e;
    }
  }

  /** All of the body before its first incomplete transaction. */
  ghost predicate UpToStop(body: Body, written: seq<Byte>)
    requires AllWritable(body.txs)
  {
    exists n: nat :: Stops(body.txs, n) && written == EncodeBody(TX_LAYOUT, Cropped(body, n))
  }

  /** What writing a body into `room` bytes leaves there: nothing if it is not begun, else all of it before
      the first incomplete transaction. */
  ghost predicate BodyLeft(body: Body, room: int, written: seq<Byte>)
    requires AllWritable(body.txs)
  {
    if !AllSigned(body.txs) || room < |EncodeBody(TX_LAYOUT, body)| then written == []
    else UpToStop(body, written)
  }

  /** The body is written if all its transactions are complete and there is room for it. A body that lacks
      room is not begun; one with an incomplete transaction is broken off there. */
  method SerializeBody(buffer: array<Byte>, offset: nat, body: Body)
      returns (ok: bool, offset': nat, ghost written: seq<Byte>)
    requires AllWritable(body.txs) && offset <= buffer.Length
    modifies buffer
    ensures ok <==> AllComplete(body.txs) && buffer.Length - offset >= |EncodeBody(TX_LAYOUT, body)|
    ensures ok ==> written == EncodeBody(TX_LAYOUT, body)
    ensures BodyLeft(body, buffer.Length - offset, written)
    ensures offset' == offset + |written| && Wrote(buffer[..], old(buffer[..]), offset, written)
  {
    ghost var before, whole := buffer[..], EncodeBody(TX_LAYOUT, body);
    var signed, size := BodySize(body.txs);
    if !signed || buffer.Length - offset < size {
      WroteNothing(before, offset);
      return false, offset, [];
    }
    var count := Put(U32, body.count);
    Copy(buffer, offset, count);
    offset', written := offset + Width(U32), count;
    PartwayStart(body);
    ghost var n;
    ok, offset', written, n := SerializeAll(buffer, offset, offset', body, before, written, whole);
    Stopped(buffer[..], before, offset, offset', body, n, written, whole);
  }

  /** The loop of `BlockBody::serialize`. */
  method SerializeAll(buffer: array<Byte>, offset: nat, at: nat, body: Body,
                      ghost before: seq<Byte>, ghost count: seq<Byte>, ghost whole: seq<Byte>)
      returns (ok: bool, at': nat, ghost written: seq<Byte>, ghost n: nat)
    requires AllWritable(body.txs) && Standing(buffer[..], before, offset, at, body, 0, count, whole)
    modifies buffer
    ensures Stops(body.txs, n) && (ok <==> n == |body.txs|)
    ensures Standing(buffer[..], before, offset, at', body, n, written, whole)
  {
    at', written, ok, n := at, count, true, 0;
    for i := 0 to |body.txs|
      invariant n == i && ok && CompleteTo(body.txs, i)
      invariant Standing(buffer[..], before, offset, at', body, i, written, whole)
    {
      ok, at', written := SerializeNext(buffer, offset, at', body, i, before, written, whole);
      if !ok {
        return;
      }
      n := n + 1;
    }
  }

  lemma Stopped(buffer: seq<Byte>, before: seq<Byte>, offset: nat, at: nat, body: Body, n: nat, written: seq<Byte>,
                whole: seq<Byte>)
    requires AllWritable(body.txs) && Stops(body.txs, n)
    requires Standing(buffer, before, offset, at, body, n, written, whole)
    ensures UpToStop(body, written) && (n == |body.txs| <==> AllComplete(body.txs))
    ensures n == |body.txs| ==> written == whole
    ensures at == offset + |written| && Wrote(buffer, before, offset, written)
  {
    if n == |body.txs| {
      PartwayEnd(body, written, whole);
    }
  }

  /** A body after `first`, which stands in the buffer already. */
  method SerializeAfter(buffer: array<Byte>, offset: nat, at: nat, body: Body, ghost before: seq<Byte>,
                        ghost first: seq<Byte>)
      returns (ok: bool, at': nat, ghost written: seq<Byte>)
    requires AllWritable(body.txs) && offset <= |before| && at == offset + |first|
    requires Wrote(buffer[..], before, offset, first)
    modifies buffer
    ensures ok <==> AllComplete(body.txs) && buffer.Length - at >= |EncodeBody(TX_LAYOUT, body)|
    ensures ok ==> written == EncodeBody(TX_LAYOUT, body)
    ensures BodyLeft(body, buffer.Length - at, written)
    ensures at' == at + |written| && Wrote(buffer[..], before, offset, first + written)
  {
    ghost var mid := buffer[..];
    ok, at', written := SerializeBody(buffer, at, body);
    WroteMore(before, mid, buffer[..], offset, first, written);
  }

  /** Transactions before those still to be read. */
  ghost function Onto(list: seq<Record>, o: Option<seq<Record>>): Option<seq<Record>> {
    match o
    case None => None
    case Some(more) => Some(list + more)
  }

  lemma OntoNothing(o: Option<seq<Record>>)
    ensures Onto([], o) == o
  {
    if o.Some? {
      assert [] + o.value == o.value;
    }
  }

  lemma OntoMore(list: seq<Record>, t: Record, o: Option<seq<Record>>)
    ensures Onto(list, Onto([t], o)) == Onto(list + [t], o)
  {
    if o.Some? {
      assert list + ([t] + o.value) == list + [t] + o.value;
    }
  }

  /** Of the transactions `all` there are to read, `list` has been read, from `used` bytes, and collected in
      `txs`; `n` are to come from `rest`. */
  ghost predicate Reading(layout: seq<Kind>, all: Option<seq<Record>>, list: seq<Record>, txs: seq<Record>, used: nat,
                          n: nat, rest: seq<Byte>) {
    && layout != [] && all == Onto(list, DecodeTxs(layout, n, rest))
    && txs == Collect(list) && used == |EncodeTxs(layout, list)|
  }

  lemma OneMore(layout: seq<Kind>, n: nat, b: seq<Byte>, t: Record, tail: seq<Byte>)
    requires layout != [] && Decode(layout, b) == Some(t) && tail == b[RecordSize(layout, t)..]
    ensures DecodeTxs(layout, n + 1, b) == Onto([t], DecodeTxs(layout, n, tail))
    ensures |Encode(layout, t)| == RecordSize(layout, t)
  {
    EncodeDecode(layout, b);
  }

  lemma ReadingNext(layout: seq<Kind>, all: Option<seq<Record>>, list: seq<Record>, txs: seq<Record>, used: nat,
                                       n: nat, rest: seq<Byte>, t: Record, tail: seq<Byte>)
    requires Reading(layout, all, list, txs, used, n + 1, rest)
    requires Decode(layout, rest) == Some(t) && tail == rest[RecordSize(layout, t)..]
    ensures Reading(layout, all, list + [t], Insert(txs, t), used + RecordSize(layout, t), n, tail)
  {
    OneMore(layout, n, rest, t, tail);
    OntoMore(list, t, DecodeTxs(layout, n, tail));
    EncodeSnoc(layout, list, t);
    CollectSnoc(list, t);
  }

  lemma ReadingStart(layout: seq<Kind>, n: nat, whole: seq<Byte>)
    requires layout != []
    ensures Reading(layout, DecodeTxs(layout, n, whole), [], [], 0, n, whole)
  {
    OntoNothing(DecodeTxs(layout, n, whole));
  }

  lemma ReadingEnd(layout: seq<Kind>, all: Option<seq<Record>>, list: seq<Record>, txs: seq<Record>, used: nat,
                                      rest: seq<Byte>)
    requires Reading(layout, all, list, txs, used, 0, rest)
    ensures all == Some(list) && txs == Collect(list) && used == |EncodeTxs(layout, list)|
  {
    assert list + [] == list;
  }

  /** The same, with the buffer read from `start` up to `offset`. */
  ghost predicate ReadingAt(layout: seq<Kind>, all: Option<seq<Record>>, list: seq<Record>, txs: seq<Record>,
                            buffer: seq<Byte>, start: nat, offset: nat, count: nat, i: int) {
    && start <= offset <= |buffer| && i <= count
    && Reading(layout, all, list, txs, offset - start, count - i, buffer[offset..])
  }

  /** Transaction `i` of `count`, into the set. */
  method ReadNext(layout: seq<Kind>, buffer: seq<Byte>, offset: nat, txs: seq<Record>,
                  ghost all: Option<seq<Record>>, ghost list: seq<Record>, ghost start: nat, ghost count: nat,
                  ghost i: int)
      returns (t: Option<Record>, offset': nat, txs': seq<Record>, ghost list': seq<Record>)
    requires i < count && ReadingAt(layout, all, list, txs, buffer, start, offset, count, i)
    ensures offset' <= |buffer|
    ensures if t.None? then all.None? else ReadingAt(layout, all, list', txs', buffer, start, offset', count, i + 1)
  {
    ghost var rest := buffer[offset..];
    t, offset' := ReadRecord(layout, buffer, offset);
    txs', list' := txs, list;
    if t.Some? {
      assert rest[RecordSize(layout, t.value)..] == buffer[offset'..];
      ReadingNext(layout, all, list, txs, offset - start, count - i - 1, rest, t.value, buffer[offset'..]);
      txs', list' := Insert(txs, t.value), list + [t.value];
    }
  }

  lemma ReadingAtEnd(layout: seq<Kind>, all: Option<seq<Record>>, list: seq<Record>, txs: seq<Record>,
                                        buffer: seq<Byte>, start: nat, offset: nat, count: nat)
    requires ReadingAt(layout, all, list, txs, buffer, start, offset, count, count)
    ensures all == Some(list) && txs == Collect(list) && start + |EncodeTxs(layout, list)| == offset <= |buffer|
  {
    ReadingEnd(layout, all, list, txs, offset - start, buffer[offset..]);
  }

  /** `count` transactions are read one by one into the set. */
  method ReadAll(layout: seq<Kind>, buffer: seq<Byte>, start: nat, count: nat, ghost all: Option<seq<Record>>)
      returns (ok: bool, txs: seq<Record>, offset: nat, ghost list: seq<Record>)
    requires ReadingAt(layout, all, [], [], buffer, start, start, count, 0)
    ensures offset <= |buffer|
    ensures if ok then all == Some(list) && txs == Collect(list) && offset == start + |EncodeTxs(layout, list)|
            else all.None?
  {
    ok, txs, offset, list := true, [], start, [];
    for i := 0 to count
      invariant ok && ReadingAt(layout, all, list, txs, buffer, start, offset, count, i)
    {
      var t;
      t, offset, txs, list := ReadNext(layout, buffer, offset, txs, all, list, start, count, i);
      if t.None? {
        ok := false;
        return;
      }
    }
    ReadingAtEnd(layout, all, list, txs, buffer, start, offset, count);
  }

  method DeserializeBody(buffer: seq<Byte>, offset: nat) returns (o: Option<Body>, offset': nat)
    requires offset <= |buffer|
    ensures o == DecodeBody(TX_LAYOUT, buffer[offset..])
    ensures o.Some? ==> offset' == offset + Used(TX_LAYOUT, Listed(TX_LAYOUT, buffer[offset..]).value)
    ensures offset' <= |buffer|
  {
    o, offset' := None, offset;
    var w := Width(U32);
    if |buffer| - offset < w {
      return;
    }
    assert buffer[offset..][..w] == buffer[offset..offset + w] && buffer[offset..][w..] == buffer[offset + w..];
    var count := Get(U32, buffer[offset..offset + w]);
    ReadingStart(TX_LAYOUT, count, buffer[offset + w..]);
    var ok, txs;
    ghost var list;
    ok, txs, offset', list :=
      ReadAll(TX_LAYOUT, buffer, offset + w, count, DecodeTxs(TX_LAYOUT, count, buffer[offset + w..]));
    if ok {
      o := Some(Body(count, txs));
    }
  }

  // ---- Blocks ----

  predicate HeaderComplete(header: seq<nat>)
    requires |header| == |HEADER_LAYOUT|
  {
    header[3] != 0 && header[4] != 0 && header[5] != 0
  }

  /** A header, then a body. */
  method SerializeTwo(buffer: array<Byte>, offset: nat, layout: seq<Kind>, header: seq<nat>, body: Body)
      returns (ok: bool, offset': nat, ghost written: seq<Byte>)
    requires |header| == |layout| && AllWritable(body.txs) && offset + Size(layout) <= buffer.Length
    modifies buffer
    ensures ok <==> AllComplete(body.txs) && buffer.Length - offset - Size(layout) >= |EncodeBody(TX_LAYOUT, body)|
    ensures ok ==> written == EncodeBody(TX_LAYOUT, body)
    ensures BodyLeft(body, buffer.Length - offset - Size(layout), written)
    ensures offset' == offset + Size(layout) + |written|
    ensures Wrote(buffer[..], old(buffer[..]), offset, PutAll(layout, header) + written)
  {
    ghost var before, first := buffer[..], PutAll(layout, header);
    offset' := PutFields(buffer, offset, layout, header);
    ok, offset', written := SerializeAfter(buffer, offset, offset', body, before, first);
  }

  /** What writing a block into `room` bytes leaves there: nothing, or the header and what is left of the
      body. */
  ghost predicate BlockLeft(block: Block, room: int, written: seq<Byte>)
    requires InRange(HEADER_LAYOUT, block.header) && AllWritable(block.body.txs)
  {
    var n := Size(HEADER_LAYOUT);
    if room < n || !HeaderComplete(block.header) then written == []
    else exists rest :: BodyLeft(block.body, room - n, rest) && written == PutAll(HEADER_LAYOUT, block.header) + rest
  }

  method SerializeBlock(buffer: array<Byte>, offset: nat, block: Block)
      returns (ok: bool, offset': nat, ghost written: seq<Byte>)
    requires InRange(HEADER_LAYOUT, block.header) && AllWritable(block.body.txs) && offset <= buffer.Length
    modifies buffer
    ensures ok <==> HeaderComplete(block.header) && AllComplete(block.body.txs)
                    && buffer.Length - offset >= |EncodeBlock(block)|
    ensures ok ==> written == EncodeBlock(block)
    ensures BlockLeft(block, buffer.Length - offset, written)
    ensures offset' == offset + |written| && Wrote(buffer[..], old(buffer[..]), offset, written)
  {
    if buffer.Length - offset < Size(HEADER_LAYOUT) || !HeaderComplete(block.header) {
      WroteNothing(buffer[..], offset);
      return false, offset, [];
    }
    ghost var rest;
    ok, offset', rest := SerializeTwo(buffer, offset, HEADER_LAYOUT, block.header, block.body);
    written := PutAll(HEADER_LAYOUT, block.header) + rest;
    HeaderThenRest(block, buffer.Length - offset, rest, written);
  }

  lemma HeaderThenRest(block: Block, room: nat, rest: seq<Byte>, written: seq<Byte>)
    requires InRange(HEADER_LAYOUT, block.header) && AllWritable(block.body.txs)
    requires room >= Size(HEADER_LAYOUT) && HeaderComplete(block.header)
    requires BodyLeft(block.body, room - Size(HEADER_LAYOUT), rest)
    requires written == PutAll(HEADER_LAYOUT, block.header) + rest
    ensures BlockLeft(block, room, written) && |written| == Size(HEADER_LAYOUT) + |rest|
    ensures |EncodeBlock(block)| == Size(HEADER_LAYOUT) + |EncodeBody(TX_LAYOUT, block.body)|
  {
  }

  method DeserializeBlock(buffer: seq<Byte>, offset: nat) returns (o: Option<Block>, offset': nat)
    requires offset <= |buffer|
    ensures o == DecodeBlock(buffer[offset..])
    ensures o.Some? ==> offset' == offset + BlockUsed(buffer[offset..])
  {
    o, offset' := None, offset;
    var n := Size(HEADER_LAYOUT);
    if |buffer| - offset < n {
      return;
    }
    var header := ReadFields(HEADER_LAYOUT, buffer, offset);
    assert buffer[offset..][n..] == buffer[offset + n..];
    var body;
    body, offset' := DeserializeBody(buffer, offset + n);
    if body.Some? {
      o := Some(Block(header, body.value));
    }
  }

  lemma WrittenStands(buffer: seq<Byte>, before: seq<Byte>, offset: nat, written: seq<Byte>)
    requires Wrote(buffer, before, offset, written)
    ensures buffer[offset..] == written + before[offset + |written|..]
  {
  }

  lemma RoundTripOf(b: seq<Byte>, block: Block, rest: seq<Byte>)
    requires InRange(HEADER_LAYOUT, block.header) && BodyOk(TX_LAYOUT, block.body)
    requires b == EncodeBlock(block) + rest
    ensures DecodeBlock(b) == Some(block) && BlockUsed(b) == |EncodeBlock(block)|
  {
    BlockRoundTrip(block, rest);
  }

  /** A block written at any offset, over anything, is read back from there, whatever stands behind it. */
  lemma BlockThroughBuffer(buffer: seq<Byte>, before: seq<Byte>, offset: nat, block: Block)
    requires InRange(HEADER_LAYOUT, block.header) && BodyOk(TX_LAYOUT, block.body)
    requires Wrote(buffer, before, offset, EncodeBlock(block))
    ensures DecodeBlock(buffer[offset..]) == Some(block) && BlockUsed(buffer[offset..]) == |EncodeBlock(block)|
  {
    var b, e := buffer[offset..], EncodeBlock(block);
    WrittenStands(buffer, before, offset, e);
    RoundTripOf(b, block, before[offset + |e|..]);
  }

  // ---- Proposals ----

  /** What writing a proposal into `room` bytes leaves there: nothing, or the record and what is left of the
      body. */
  ghost predicate ProposalLeft(p: Proposal, room: int, written: seq<Byte>)
    requires Writable(PROPOSAL_LAYOUT, p.record) && AllWritable(p.body.txs)
  {
    if SignatureSize(PROPOSAL_LAYOUT, p.record) == 0 || !AllSigned(p.body.txs) || room < |EncodeProposal(p)|
    then written == []
    else exists rest :: BodyLeft(p.body, |EncodeBody(TX_LAYOUT, p.body)|, rest)
                        && written == Encode(PROPOSAL_LAYOUT, p.record) + rest
  }

  /** `TxSetProposal::serialize`: fields, signature, body. */
  method SerializeProposal(buffer: array<Byte>, offset: nat, p: Proposal)
      returns (ok: bool, offset': nat, ghost written: seq<Byte>)
    requires Writable(PROPOSAL_LAYOUT, p.record) && AllWritable(p.body.txs) && offset <= buffer.Length
    modifies buffer
    ensures ok <==> SignatureSize(PROPOSAL_LAYOUT, p.record) != 0 && AllComplete(p.body.txs)
                    && buffer.Length - offset >= |EncodeProposal(p)|
    ensures ok ==> written == EncodeProposal(p)
    ensures ProposalLeft(p, buffer.Length - offset, written)
    ensures offset' == offset + |written| && Wrote(buffer[..], old(buffer[..]), offset, written)
  {
    var k := SignatureSize(PROPOSAL_LAYOUT, p.record);
    var signed, size := BodySize(p.body.txs);
    if k == 0 || !signed || buffer.Length - offset < Size(PROPOSAL_LAYOUT) + k + size {
      WroteNothing(buffer[..], offset);
      return false, offset, [];
    }
    ghost var rest;
    ok, offset', rest := SerializeRecordAndBody(buffer, offset, PROPOSAL_LAYOUT, p.record, p.body);
    written := Encode(PROPOSAL_LAYOUT, p.record) + rest;
  }

  method SerializeRecordAndBody(buffer: array<Byte>, offset: nat, layout: seq<Kind>, r: Record, body: Body)
      returns (ok: bool, offset': nat, ghost written: seq<Byte>)
    requires Writable(layout, r) && AllWritable(body.txs)
    requires buffer.Length - offset >= RecordSize(layout, r) + |EncodeBody(TX_LAYOUT, body)|
    modifies buffer
    ensures ok <==> AllComplete(body.txs)
    ensures ok ==> written == EncodeBody(TX_LAYOUT, body)
    ensures BodyLeft(body, |EncodeBody(TX_LAYOUT, body)|, written)
    ensures offset' == offset + |Encode(layout, r)| + |written|
    ensures Wrote(buffer[..], old(buffer[..]), offset, Encode(layout, r) + written)
  {
    ghost var before, first := buffer[..], Encode(layout, r);
    offset' := PutRecord(buffer, offset, layout, r);
    ok, offset', written := SerializeAfter(buffer, offset, offset', body, before, first);
  }

  method DeserializeProposal(buffer: seq<Byte>, offset: nat) returns (o: Option<Proposal>, offset': nat)
    requires offset <= |buffer|
    ensures o == DecodeProposal(buffer[offset..])
    ensures o.Some? ==> offset' == offset + ProposalUsed(buffer[offset..])
  {
    o := None;
    var record, body;
    record, offset' := ReadRecord(PROPOSAL_LAYOUT, buffer, offset);
    if record.None? {
      return;
    }
    assert buffer[offset..][RecordSize(PROPOSAL_LAYOUT, record.value)..] == buffer[offset'..];
    body, offset' := DeserializeBody(buffer, offset');
    if body.Some? {
      o := Some(Proposal(record.value, body.value));
    }
  }

  lemma ProposalRoundTripOf(b: seq<Byte>, p: Proposal, rest: seq<Byte>)
    requires RecordOk(PROPOSAL_LAYOUT, p.record) && BodyOk(TX_LAYOUT, p.body) && b == EncodeProposal(p) + rest
    ensures DecodeProposal(b) == Some(p) && ProposalUsed(b) == |EncodeProposal(p)|
  {
    ProposalRoundTrip(p, rest);
  }

  /** And so is a proposal. */
  lemma ProposalThroughBuffer(buffer: seq<Byte>, before: seq<Byte>, offset: nat, p: Proposal)
    requires RecordOk(PROPOSAL_LAYOUT, p.record) && BodyOk(TX_LAYOUT, p.body)
    requires Wrote(buffer, before, offset, EncodeProposal(p))
    ensures DecodeProposal(buffer[offset..]) == Some(p) && ProposalUsed(buffer[offset..]) == |EncodeProposal(p)|
  {
    var b, e := buffer[offset..], EncodeProposal(p);
    WrittenStands(buffer, before, offset, e);
    ProposalRoundTripOf(b, p, before[offset + |e|..]);
  }
}
