/** What executing blocks means: one-by-one replay, conservation, at-most-once, and a stable filter. */
module LedgerRuns {
  import opened HashTables
  import opened Transactions
  import opened Ledger

  // ---- The batch refines a sequential replay ----

  /** One transfer on its own, in 32-bit arithmetic. */
  function Transfer(store: Store, tx: Tx): Store {
    if tx.sender !in store || tx.receiver !in store then store
    else
      var s1 := store[tx.sender := Account((store[tx.sender].balance - tx.amount) % M, tx.seqNo)];
      s1[tx.receiver := Account((s1[tx.receiver].balance + tx.amount) % M, s1[tx.receiver].txSequence)]
  }

  function Replay(store: Store, ts: seq<Tx>): Store {
    if ts == [] then store else Transfer(Replay(store, ts[..|ts| - 1]), ts[|ts| - 1])
  }

  /** Every party of the transactions has an account. */
  predicate Closed(store: Store, ts: seq<Tx>) {
    forall t :: t in ts ==> t.sender in store && t.receiver in store
  }

  /** A replay leaves each balance at its stored value plus the net flow, modulo 2^32. */
  predicate ReplayOk(store: Store, ts: seq<Tx>, st: Store, id: Hash)
    requires id in store && id in st
  {
    && Congruent(st[id].balance, store[id].balance + Net(ts, id))
    && st[id].txSequence == if exists t :: t in ts && t.sender == id then LastSeq(ts, id) else store[id].txSequence
  }

  lemma {:induction false} ReplayAt(store: Store, ts: seq<Tx>, id: Hash)
    requires Closed(store, ts) && id in store
    ensures Replay(store, ts).Keys == store.Keys
    ensures ReplayOk(store, ts, Replay(store, ts), id)
  {
    if ts != [] {
      var prefix, tx := ts[..|ts| - 1], ts[|ts| - 1];
      ReplayAt(store, prefix, id);
      assert ts == prefix + [tx];
      ReplayOneMore(store, prefix, tx, id, Replay(store, prefix));
    }
  }

  lemma ReplayOneMore(store: Store, ts: seq<Tx>, tx: Tx, id: Hash, st: Store)
    requires tx.sender in st && tx.receiver in st && id in st && id in store && ReplayOk(store, ts, st, id)
    ensures Transfer(st, tx).Keys == st.Keys && ReplayOk(store, ts + [tx], Transfer(st, tx), id)
  {
    var st' := Transfer(st, tx);
    Appended(ts, tx, id);
    TransferAt(st, tx, id);
    CongruentShift(st[id].balance, store[id].balance + Net(ts, id), Flow(tx, id));
    CongruentTrans(st'[id].balance, st[id].balance + Flow(tx, id), store[id].balance + Net(ts + [tx], id));
    assert (exists t :: t in ts + [tx] && t.sender == id)
      <==> (exists t :: t in ts && t.sender == id) || tx.sender == id;
  }

  lemma CongruentTrans(a: int, b: int, c: int)
    requires Congruent(a, b) && Congruent(b, c)
    ensures Congruent(a, c)
  {
    assert a - c == (a - b) + (b - c);
  }

  lemma TransferAt(st: Store, tx: Tx, id: Hash)
    requires tx.sender in st && tx.receiver in st && id in st
    ensures Transfer(st, tx).Keys == st.Keys
    ensures Congruent(Transfer(st, tx)[id].balance, st[id].balance + Flow(tx, id))
    ensures Transfer(st, tx)[id].txSequence == if tx.sender == id then tx.seqNo else st[id].txSequence
  {
    var debited := (st[tx.sender].balance - tx.amount) % M;
    Reduced(st[tx.sender].balance - tx.amount);
    Reduced(debited + tx.amount);
    Reduced(st[tx.receiver].balance + tx.amount);
    CongruentShift(debited, st[tx.sender].balance - tx.amount, tx.amount);
    CongruentTrans((debited + tx.amount) % M, debited + tx.amount, st[tx.sender].balance);
  }

  lemma Reduced(a: int)
    ensures Congruent(a % M, a)
  {
    assert a == M * (a / M) + a % M;
  }

  lemma SameWord(a: Uint32, b: Uint32, c: int)
    requires Congruent(a, c) && Congruent(b, c)
    ensures a == b
  {
    assert a - b == (a - c) - (b - c);
  }

  /** A block succeeds exactly when every receiver of an applied transaction has an account. */
  lemma SucceedsIff(store: Store, txs: seq<Tx>)
    requires BlockTxs(txs)
    ensures Execute(store, txs).ok <==>
            forall t :: t in ScanFrom(store, SCAN_START, txs).applied ==> t.receiver in store
    ensures Execute(store, txs).ok ==> Closed(store, Execute(store, txs).applied)
    ensures !Execute(store, txs).ok ==> Execute(store, txs).store == store && Execute(store, txs).applied == []
  {
    PassOk(store, txs);
    var s := ScanFrom(store, SCAN_START, txs);
    if forall t :: t in s.applied ==> t.receiver in store {
      forall id: Hash | id in s.diffs ensures id in store {
        assert DiffOk(s.diffs, s.applied, id);
      }
    }
    if s.diffs.Keys <= store.Keys {
      forall t | t in s.applied ensures t.receiver in store {
        assert DiffOk(s.diffs, s.applied, t.receiver);
        assert t.receiver in s.diffs.Keys;
      }
    }
  }

  /** Settling the differences of a block, in whatever order, is replaying its applied transactions. */
  lemma BatchRefinesReplay(store: Store, txs: seq<Tx>)
    requires BlockTxs(txs)
    ensures Execute(store, txs).store == Replay(store, Execute(store, txs).applied)
  {
    SucceedsIff(store, txs);
    PassOk(store, txs);
    var e := Execute(store, txs);
    if e.ok {
      forall id: Hash | id in store
        ensures id in Replay(store, e.applied) && e.store[id] == Replay(store, e.applied)[id]
      {
        SettledIsReplayed(store, txs, id);
      }
      if e.applied != [] {
        ReplayAt(store, e.applied, e.applied[0].sender);
      }
      SameMap(e.store, Replay(store, e.applied));
    }
  }

  lemma SettledAt(store: Store, txs: seq<Tx>, id: Hash)
    requires BlockTxs(txs) && Execute(store, txs).ok && id in store
    ensures ReplayOk(store, Execute(store, txs).applied, Execute(store, txs).store, id)
  {
    PassOk(store, txs);
    var s := ScanFrom(store, SCAN_START, txs);
    assert DiffOk(s.diffs, s.applied, id);
    LastSeqSent(store, s.applied, id);
    if id in s.diffs {
      var d := s.diffs[id];
      Reduced(store[id].balance + d.balanceDiff);
      CongruentShift(d.balanceDiff, Net(s.applied, id), store[id].balance);
      CongruentTrans((store[id].balance + d.balanceDiff) % M, store[id].balance + d.balanceDiff,
                     store[id].balance + Net(s.applied, id));
    } else {
      Untouched(s.applied, id);
    }
  }

  lemma SettledIsReplayed(store: Store, txs: seq<Tx>, id: Hash)
    requires BlockTxs(txs) && Execute(store, txs).ok && Closed(store, Execute(store, txs).applied) && id in store
    ensures var e := Execute(store, txs);
      id in Replay(store, e.applied) && id in e.store && e.store[id] == Replay(store, e.applied)[id]
  {
    var e := Execute(store, txs);
    ReplayAt(store, e.applied, id);
    SettledAt(store, txs, id);
    SameWord(e.store[id].balance, Replay(store, e.applied)[id].balance, store[id].balance + Net(e.applied, id));
  }

  /** Applied sequence numbers are positive, so a zero difference means nothing was sent. */
  lemma {:induction false} LastSeqSent(store: Store, ts: seq<Tx>, id: Hash)
    requires Authorised(store, ts)
    ensures LastSeq(ts, id) != 0 <==> exists t :: t in ts && t.sender == id
    ensures LastSeq(ts, id) != 0 ==> id in store && LastSeq(ts, id) > store[id].txSequence
  {
    if ts != [] {
      var prefix, tx := ts[..|ts| - 1], ts[|ts| - 1];
      assert ts == prefix + [tx] && tx in ts;
      assert Authorised(store, prefix) by {
        forall id | id in store ensures Sent(prefix, id) <= store[id].balance { Appended(prefix, tx, id); }
      }
      LastSeqSent(store, prefix, id);
    }
  }

  // ---- Conservation ----

  type Balances = map<Hash, int>

  function BalancesOf(store: Store): Balances {
    map id | id in store :: store[id].balance
  }

  /** The sum of all entries. */
  ghost function Total(b: Balances): int
    decreases |b|
  {
    if |b| == 0 then 0
    else
      var id := AnyKey(b.Keys);
      assert |b - {id}| < |b| by { Smaller(b, id); }
      b[id] + Total(b - {id})
  }

  ghost function AnyKey<T>(s: set<T>): (k: T)
    requires |s| > 0
    ensures k in s
  {
    var k :| k in s;
    k
  }

  lemma Smaller<V>(b: map<Hash, V>, id: Hash)
    requires id in b
    ensures |b - {id}| == |b| - 1
  {
    assert (b - {id}).Keys == b.Keys - {id};
    assert |b.Keys| == |b| && |(b - {id}).Keys| == |b - {id}|;
  }

  /** The total can be opened at any key. */
  lemma {:induction false} TotalAt(b: Balances, id: Hash)
    requires id in b
    ensures Total(b) == b[id] + Total(b - {id})
    decreases |b|
  {
    var k := AnyKey(b.Keys);
    Smaller(b, k);
    Smaller(b, id);
    if k != id {
      TotalAt(b - {k}, id);
      TotalAt(b - {id}, k);
      assert b - {k} - {id} == b - {id} - {k};
    }
  }

  lemma TotalUpdate(b: Balances, id: Hash, v: int)
    requires id in b
    ensures Total(b[id := v]) == Total(b) - b[id] + v
  {
    TotalAt(b, id);
    TotalAt(b[id := v], id);
    assert b[id := v] - {id} == b - {id};
  }

  lemma PartOfTotal(b: Balances, id: Hash)
    requires id in b && forall k :: k in b ==> b[k] >= 0
    ensures 0 <= b[id] <= Total(b)
  {
    TotalAt(b, id);
    TotalNonNegative(b - {id});
  }

  lemma {:induction false} TotalNonNegative(b: Balances)
    requires forall k :: k in b ==> b[k] >= 0
    ensures Total(b) >= 0
    decreases |b|
  {
    if |b| > 0 {
      var k := AnyKey(b.Keys);
      Smaller(b, k);
      TotalNonNegative(b - {k});
    }
  }

  lemma CongruentSum(a: int, b: int, c: int, d: int)
    requires Congruent(a, b) && Congruent(c, d)
    ensures Congruent(a + c, b + d)
  {
  }

  lemma {:induction false} TotalCongruent(a: Balances, b: Balances)
    requires a.Keys == b.Keys && forall id :: id in a ==> Congruent(a[id], b[id])
    ensures Congruent(Total(a), Total(b))
    decreases |a|
  {
    assert |a| == |a.Keys| && |b| == |b.Keys|;
    if |a| > 0 {
      var k: Hash := AnyKey(a.Keys);
      Smaller(a, k);
      TotalAt(a, k);
      TotalAt(b, k);
      TotalCongruent(a - {k}, b - {k});
      CongruentSum(a[k], b[k], Total(a - {k}), Total(b - {k}));
    }
  }

  /** A transfer in unbounded arithmetic, overdrafts included. */
  function Move(b: Balances, tx: Tx): Balances {
    if tx.sender !in b || tx.receiver !in b then b
    else
      var b1 := b[tx.sender := b[tx.sender] - tx.amount];
      b1[tx.receiver := b1[tx.receiver] + tx.amount]
  }

  function Moves(b: Balances, ts: seq<Tx>): Balances {
    if ts == [] then b else Move(Moves(b, ts[..|ts| - 1]), ts[|ts| - 1])
  }

  lemma {:induction false} MovesAt(b: Balances, ts: seq<Tx>, id: Hash)
    requires id in b && forall t :: t in ts ==> t.sender in b && t.receiver in b
    ensures Moves(b, ts).Keys == b.Keys && Moves(b, ts)[id] == b[id] + Net(ts, id)
  {
    if ts != [] {
      var prefix, tx := ts[..|ts| - 1], ts[|ts| - 1];
      assert ts == prefix + [tx];
      MovesAt(b, prefix, id);
      Appended(prefix, tx, id);
    }
  }

  lemma MoveConserves(b: Balances, tx: Tx)
    ensures Move(b, tx).Keys == b.Keys && Total(Move(b, tx)) == Total(b)
  {
    if tx.sender in b && tx.receiver in b {
      TotalUpdate(b, tx.sender, b[tx.sender] - tx.amount);
      var b1 := b[tx.sender := b[tx.sender] - tx.amount];
      TotalUpdate(b1, tx.receiver, b1[tx.receiver] + tx.amount);
    }
  }

  lemma {:induction false} MovesConserve(b: Balances, ts: seq<Tx>)
    ensures Moves(b, ts).Keys == b.Keys && Total(Moves(b, ts)) == Total(b)
  {
    if ts != [] {
      MovesConserve(b, ts[..|ts| - 1]);
      MoveConserves(Moves(b, ts[..|ts| - 1]), ts[|ts| - 1]);
    }
  }

  lemma {:induction false} ReplayKeys(store: Store, ts: seq<Tx>)
    ensures Replay(store, ts).Keys == store.Keys
  {
    if ts != [] {
      ReplayKeys(store, ts[..|ts| - 1]);
    }
  }

  lemma ReducedAt(store: Store, ts: seq<Tx>, id: Hash)
    requires Closed(store, ts) && id in store
    ensures id in Replay(store, ts) && id in Moves(BalancesOf(store), ts)
    ensures Congruent(Replay(store, ts)[id].balance, Moves(BalancesOf(store), ts)[id])
  {
    ReplayAt(store, ts, id);
    MovesAt(BalancesOf(store), ts, id);
  }

  /** The 32-bit balances are the exact ones, reduced. */
  lemma ReplayIsReduced(store: Store, ts: seq<Tx>)
    requires Closed(store, ts)
    ensures Replay(store, ts).Keys == store.Keys && Moves(BalancesOf(store), ts).Keys == store.Keys
    ensures forall id :: id in store ==> Congruent(Replay(store, ts)[id].balance, Moves(BalancesOf(store), ts)[id])
  {
    ReplayKeys(store, ts);
    MovesConserve(BalancesOf(store), ts);
    forall id: Hash | id in store
      ensures Congruent(Replay(store, ts)[id].balance, Moves(BalancesOf(store), ts)[id])
    {
      ReducedAt(store, ts, id);
    }
  }

  /** A block never changes the money supply modulo 2^32, whatever it contains. */
  lemma SupplyModulo(store: Store, txs: seq<Tx>)
    requires BlockTxs(txs)
    ensures Congruent(Total(BalancesOf(Execute(store, txs).store)), Total(BalancesOf(store)))
  {
    SucceedsIff(store, txs);
    BatchRefinesReplay(store, txs);
    var e := Execute(store, txs);
    if e.ok {
      ReplayIsReduced(store, e.applied);
      MovesConserve(BalancesOf(store), e.applied);
      TotalCongruent(BalancesOf(e.store), Moves(BalancesOf(store), e.applied));
    }
  }

  /** With a supply below 2^32 the exact balances of every stage of the replay fit their 32 bits. */
  lemma StageExact(store: Store, ts: seq<Tx>, k: nat)
    requires Closed(store, ts) && Authorised(store, ts) && k <= |ts| && Total(BalancesOf(store)) < M
    ensures BalancesOf(Replay(store, ts[..k])) == Moves(BalancesOf(store), ts[..k])
    ensures Moves(BalancesOf(store), ts[..k]).Keys == store.Keys
    ensures forall id :: id in store ==>
              Moves(BalancesOf(store), ts[..k])[id] >= store[id].balance - Sent(ts[..k], id) >= 0
  {
    var now := ts[..k];
    var b, exact := BalancesOf(store), Moves(BalancesOf(store), now);
    assert forall t :: t in now ==> t in ts;
    ReplayIsReduced(store, now);
    forall id: Hash | id in exact ensures exact[id] >= store[id].balance - Sent(now, id) >= 0 {
      MovesAt(b, now, id);
      SentMonotone(ts, k, id);
    }
    MovesConserve(b, now);
    forall id: Hash | id in exact ensures exact[id] == Replay(store, now)[id].balance {
      PartOfTotal(exact, id);
      FitsWord(Replay(store, now)[id].balance, exact[id]);
    }
    SameMap(BalancesOf(Replay(store, now)), exact);
  }

  lemma FitsWord(a: Uint32, b: int)
    requires Congruent(a, b) && 0 <= b < M
    ensures a == b
  {
  }

  /** With a supply below 2^32 a block conserves it exactly. */
  lemma SupplyExact(store: Store, txs: seq<Tx>)
    requires BlockTxs(txs) && Total(BalancesOf(store)) < M
    ensures Total(BalancesOf(Execute(store, txs).store)) == Total(BalancesOf(store))
  {
    SucceedsIff(store, txs);
    BatchRefinesReplay(store, txs);
    PassOk(store, txs);
    var e := Execute(store, txs);
    if e.ok {
      StageExact(store, e.applied, |e.applied|);
      assert e.applied[..|e.applied|] == e.applied;
      MovesConserve(BalancesOf(store), e.applied);
    }
  }

  /** The sender can pay: later spending is already accounted for. */
  lemma SenderCanPay(store: Store, ts: seq<Tx>, k: nat)
    requires Closed(store, ts) && Authorised(store, ts) && k < |ts| && Total(BalancesOf(store)) < M
    ensures var exact := Moves(BalancesOf(store), ts[..k]);
      ts[k].sender in exact && exact[ts[k].sender] >= ts[k].amount
  {
    var id := ts[k].sender;
    assert ts[k] in ts;
    StageExact(store, ts, k);
    assert ts[..k + 1] == ts[..k] + [ts[k]];
    Appended(ts[..k], ts[k], id);
    SentMonotone(ts, k + 1, id);
    forall t | t in ts[..k] ensures t.sender in store && t.receiver in store { assert t in ts; }
    MovesAt(BalancesOf(store), ts[..k], id);
  }

  /** The receiver's balance after the transfer is still part of the supply. */
  lemma ReceiverFits(store: Store, ts: seq<Tx>, k: nat)
    requires Closed(store, ts) && Authorised(store, ts) && k < |ts| && Total(BalancesOf(store)) < M
    requires ts[k].sender != ts[k].receiver
    ensures var exact := Moves(BalancesOf(store), ts[..k]);
      ts[k].receiver in exact && exact[ts[k].receiver] + ts[k].amount < M
  {
    assert ts[k] in ts;
    StageExact(store, ts, k);
    StageExact(store, ts, k + 1);
    assert ts[..k + 1][..k] == ts[..k];
    var next := Moves(BalancesOf(store), ts[..k + 1]);
    MovesConserve(BalancesOf(store), ts[..k + 1]);
    PartOfTotal(next, ts[k].receiver);
  }

  /** With a supply below 2^32, replaying a block in order never overdraws a sender nor overflows a
      receiver: every 32-bit step is the exact one. */
  lemma NeverOverdrawn(store: Store, txs: seq<Tx>, k: nat)
    requires BlockTxs(txs) && Total(BalancesOf(store)) < M && k < |Execute(store, txs).applied|
    ensures var ts := Execute(store, txs).applied;
      var st, tx := Replay(store, ts[..k]), ts[k];
      && tx.sender in st && tx.receiver in st
      && tx.amount <= st[tx.sender].balance
      && (tx.sender != tx.receiver ==> st[tx.receiver].balance + tx.amount < M)
  {
    SucceedsIff(store, txs);
    PassOk(store, txs);
    var ts := Execute(store, txs).applied;
    var tx, st := ts[k], Replay(store, ts[..k]);
    assert tx in ts;
    StageExact(store, ts, k);
    ReplayKeys(store, ts[..k]);
    SenderCanPay(store, ts, k);
    assert BalancesOf(st)[tx.sender] == st[tx.sender].balance && BalancesOf(st)[tx.receiver] == st[tx.receiver].balance;
    if tx.sender != tx.receiver {
      ReceiverFits(store, ts, k);
    }
  }

  // ---- At most once ----

  /** The store after a sequence of blocks, and everything applied on the way. */
  function ExecuteAll(store: Store, blocks: seq<seq<Tx>>): (Store, seq<Tx>) {
    if blocks == [] then (store, [])
    else
      var (st, log) := ExecuteAll(store, blocks[..|blocks| - 1]);
      var e := Execute(st, blocks[|blocks| - 1]);
      (e.store, log + e.applied)
  }

  /** The stored sequence number covers everything the account has sent. */
  predicate Covered(store: Store, log: seq<Tx>) {
    forall t :: t in log ==> t.sender in store && t.seqNo <= store[t.sender].txSequence
  }

  /** One block moves sequence numbers up only, strictly for senders, past everything it applies. */
  lemma SequencesRise(store: Store, txs: seq<Tx>)
    requires BlockTxs(txs)
    ensures Execute(store, txs).store.Keys == store.Keys
    ensures forall id :: id in store ==> store[id].txSequence <= Execute(store, txs).store[id].txSequence
    ensures forall t :: t in Execute(store, txs).applied ==>
              && t.sender in store
              && store[t.sender].txSequence < t.seqNo <= Execute(store, txs).store[t.sender].txSequence
    ensures Sorted(Execute(store, txs).applied)
  {
    PassOk(store, txs);
    SucceedsIff(store, txs);
    var e := Execute(store, txs);
    if e.ok {
      forall id: Hash | id in store ensures store[id].txSequence <= e.store[id].txSequence {
        SettledAt(store, txs, id);
        LastSeqSent(store, e.applied, id);
      }
      forall t | t in e.applied ensures store[t.sender].txSequence < t.seqNo <= e.store[t.sender].txSequence {
        SettledAt(store, txs, t.sender);
        LastSeqIsLargest(e.applied, t);
      }
    }
  }

  lemma {:induction false} LastSeqIsLargest(ts: seq<Tx>, t: Tx)
    requires Sorted(ts) && t in ts
    ensures t.seqNo <= LastSeq(ts, t.sender)
  {
    var prefix, tx := ts[..|ts| - 1], ts[|ts| - 1];
    var i :| 0 <= i < |ts| && ts[i] == t;
    if i < |ts| - 1 {
      assert Before(ts[i], tx) && t == prefix[i];
      LastSeqIsLargest(prefix, t);
    }
  }

  /** Over any sequence of blocks, no sender and sequence number is applied twice. */
  lemma {:induction false} AtMostOnce(store: Store, blocks: seq<seq<Tx>>)
    requires forall b :: b in blocks ==> BlockTxs(b)
    ensures var (st, log) := ExecuteAll(store, blocks);
      && st.Keys == store.Keys
      && (forall id :: id in store ==> store[id].txSequence <= st[id].txSequence)
      && Covered(st, log)
      && (forall i, j :: 0 <= i < j < |log| ==> KeyOf(log[i]) != KeyOf(log[j]))
  {
    if blocks != [] {
      var prefix, b := blocks[..|blocks| - 1], blocks[|blocks| - 1];
      AtMostOnce(store, prefix);
      var (st, log) := ExecuteAll(store, prefix);
      assert b in blocks;
      SequencesRise(st, b);
      var ts := Execute(st, b).applied;
      forall i, j | 0 <= i < j < |log + ts| ensures KeyOf((log + ts)[i]) != KeyOf((log + ts)[j]) {
        if i < |log| && j >= |log| {
          assert log[i] in log && ts[j - |log|] in ts;
        } else if i >= |log| {
          assert Before(ts[i - |log|], ts[j - |log|]);
        }
      }
    }
  }

  // ---- The filter is stable ----

  /** What the pass reports. */
  predicate SameVerdict(a: Scan, b: Scan) {
    a.diffs == b.diffs && a.kept == b.kept && a.applied == b.applied
  }

  /** `s1` has loaded the account of a sender that `s` has yet to load, and `s` will not need its own again. */
  predicate Ahead(store: Store, s: Scan, s1: Scan, rest: seq<Tx>) {
    && s1.cur in store && s1 == s.(cur := s1.cur, acc := store[s1.cur], up := store[s1.cur].balance)
    && s.cur != s1.cur && forall t :: t in rest ==> t.sender != s.cur
  }

  lemma {:induction false} AheadSame(store: Store, s: Scan, s1: Scan, rest: seq<Tx>)
    requires BlockTxs(rest) && Ahead(store, s, s1, rest)
    ensures SameVerdict(ScanFrom(store, s, rest), ScanFrom(store, s1, rest))
    decreases |rest|
  {
    if rest != [] {
      var tx := rest[0];
      assert tx in rest;
      Tail(rest);
      if tx.sender == s1.cur {
        assert Switch(store, s, tx) == s1 == Switch(store, s1, tx);
      } else if tx.sender !in store {
        AheadSame(store, s.(kept := s.kept + [tx]), s1.(kept := s1.kept + [tx]), rest[1..]);
      } else {
        assert Switch(store, s, tx) == Switch(store, s1, tx);
      }
    }
  }

  lemma Tail(rest: seq<Tx>)
    requires BlockTxs(rest) && rest != []
    ensures BlockTxs(rest[1..]) && forall t :: t in rest[1..] ==> t in rest && Before(rest[0], t)
  {
    forall t | t in rest[1..] ensures t in rest && Before(rest[0], t) {
      var i :| 0 <= i < |rest[1..]| && rest[1..][i] == t;
      assert rest[i + 1] == t;
    }
  }

  /** On a set, the pass is one step after the other. */
  function StepOne(store: Store, s: Scan, tx: Tx): Scan {
    if SenderUnknown(store, s, tx) then s.(kept := s.kept + [tx]) else Judge(Switch(store, s, tx), tx)
  }

  lemma ScanCons(store: Store, s: Scan, tx: Tx, rest: seq<Tx>)
    requires BlockTxs([tx] + rest)
    ensures ScanFrom(store, s, [tx] + rest) == ScanFrom(store, StepOne(store, s, tx), rest)
  {
    NoRun([tx] + rest);
    assert ([tx] + rest)[1..] == rest;
  }

  lemma BlockCons(tx: Tx, rest: seq<Tx>)
    requires BlockTxs(rest) && tx.sender != NULL_HASH && forall t :: t in rest ==> Before(tx, t)
    ensures BlockTxs([tx] + rest)
  {
  }

  lemma StepOneOk(store: Store, s: Scan, rest: seq<Tx>)
    requires BlockTxs(rest) && rest != [] && ScanOk(store, s, rest)
    ensures ScanOk(store, StepOne(store, s, rest[0]), rest[1..])
    ensures StepOne(store, s, rest[0]).kept in {s.kept, s.kept + [rest[0]]}
  {
    RestOk(store, s, rest);
    if !SenderUnknown(store, s, rest[0]) {
      SwitchOk(store, s, rest);
      JudgeOk(store, Switch(store, s, rest[0]), rest);
    }
  }

  /** A dropped transaction leaves no trace but the account it loaded. */
  lemma DroppedSame(store: Store, s: Scan, rest: seq<Tx>, more: seq<Tx>)
    requires BlockTxs(rest) && rest != [] && BlockTxs(more) && ScanOk(store, s, rest)
    requires forall t :: t in more ==> t in rest[1..]
    requires StepOne(store, s, rest[0]).kept == s.kept
    ensures SameVerdict(ScanFrom(store, s, more), ScanFrom(store, StepOne(store, s, rest[0]), more))
  {
    var tx := rest[0];
    Tail(rest);
    var s1 := StepOne(store, s, tx);
    assert s1 == Switch(store, s, tx);
    if s1 != s {
      assert tx in rest;
      assert Ahead(store, s, s1, more);
      AheadSame(store, s, s1, more);
    }
  }

  /** `more` is what the pass keeps of `rest`, and passing over `more` alone gives the same verdict. */
  predicate Refilters(store: Store, s: Scan, rest: seq<Tx>, more: seq<Tx>) {
    && ScanFrom(store, s, rest).kept == s.kept + more
    && BlockTxs(more) && (forall t :: t in more ==> t in rest)
    && SameVerdict(ScanFrom(store, s, more), ScanFrom(store, s, rest))
  }

  lemma RefilterKept(store: Store, s: Scan, tx: Tx, rest: seq<Tx>, more: seq<Tx>)
    requires BlockTxs([tx] + rest) && (forall t :: t in rest ==> Before(tx, t))
    requires Refilters(store, StepOne(store, s, tx), rest, more)
    requires StepOne(store, s, tx).kept == s.kept + [tx]
    ensures Refilters(store, s, [tx] + rest, [tx] + more)
  {
    ScanCons(store, s, tx, rest);
    assert ([tx] + rest)[0] == tx && tx in [tx] + rest;
    BlockCons(tx, more);
    ScanCons(store, s, tx, more);
    assert s.kept + [tx] + more == s.kept + ([tx] + more);
  }

  lemma RefilterDropped(store: Store, s: Scan, tx: Tx, rest: seq<Tx>, more: seq<Tx>)
    requires BlockTxs([tx] + rest) && ScanOk(store, s, [tx] + rest)
    requires Refilters(store, StepOne(store, s, tx), rest, more)
    requires StepOne(store, s, tx).kept == s.kept
    ensures Refilters(store, s, [tx] + rest, more)
  {
    ScanCons(store, s, tx, rest);
    assert ([tx] + rest)[0] == tx && ([tx] + rest)[1..] == rest;
    DroppedSame(store, s, [tx] + rest, more);
  }

  lemma {:induction false} Refilter(store: Store, s: Scan, rest: seq<Tx>) returns (more: seq<Tx>)
    requires BlockTxs(rest) && ScanOk(store, s, rest)
    ensures Refilters(store, s, rest, more)
    decreases |rest|
  {
    if rest == [] {
      more := [];
    } else {
      var tx := rest[0];
      Tail(rest);
      StepOneOk(store, s, rest);
      more := Refilter(store, StepOne(store, s, tx), rest[1..]);
      assert rest == [tx] + rest[1..];
      if StepOne(store, s, tx).kept == s.kept {
        RefilterDropped(store, s, tx, rest[1..], more);
      } else {
        RefilterKept(store, s, tx, rest[1..], more);
        more := [tx] + more;
      }
    }
  }

  /** Filtering what the filter kept, against the same store, changes nothing. */
  lemma FilterIsStable(store: Store, txs: seq<Tx>)
    requires BlockTxs(txs)
    ensures var s := ScanFrom(store, SCAN_START, txs);
      BlockTxs(s.kept) && SameVerdict(ScanFrom(store, SCAN_START, s.kept), s)
  {
    PassOk(store, txs);
    SentOfNothing(store);
    var more := Refilter(store, SCAN_START, txs);
    assert SCAN_START.kept + more == more;
  }
}
