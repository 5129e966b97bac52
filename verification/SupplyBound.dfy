/** The bound on the supply is needed: past it, one block changes the sum of all balances. */
module SupplyBound {
  import opened HashTables
  import opened Transactions
  import opened Ledger
  import opened LedgerRuns
  import opened ConsensusRound

  /** No account is the null one, and every account has a sequence number left. */
  predicate Room(store: Store) {
    NULL_HASH !in store && forall id :: id in store ==> store[id].txSequence < 0xFFFF_FFFF
  }

  /** `id` sends all it has to `r`. */
  function SendAll(store: Store, id: Hash, r: Hash): Tx
    requires id in store && store[id].txSequence < 0xFFFF_FFFF
  {
    Tx(id, id, r, store[id].txSequence + 1, store[id].balance)
  }

  function SendAlls(store: Store, ids: seq<Hash>, r: Hash): (ts: seq<Tx>)
    requires Room(store) && forall k :: 0 <= k < |ids| ==> ids[k] in store
    ensures |ts| == |ids| && forall k :: 0 <= k < |ids| ==> ts[k] == SendAll(store, ids[k], r)
  {
    seq(|ids|, k requires 0 <= k < |ids| => SendAll(store, ids[k], r))
  }

  /** The block in which everybody else does: one transaction for each, in set order. */
  predicate Gathers(store: Store, g: TransactionSet, r: Hash)
    requires Room(store)
  {
    && (forall t :: t in g ==> t.sender in store && t.sender != r && t == SendAll(store, t.sender, r))
    && (forall id :: id in store && id != r ==> SendAll(store, id, r) in g)
  }

  lemma SomeGathering(store: Store, r: Hash) returns (g: TransactionSet)
    requires Room(store) && r in store
    ensures Gathers(store, g, r)
  {
    var ids := SomeWalk(store.Keys - {r});
    forall k | 0 <= k < |ids| ensures ids[k] in store && ids[k] != r {
      WalkMeets(ids, store.Keys - {r}, ids[k]);
    }
    var pool := SendAlls(store, ids, r);
    g := InsertAll([], pool);
    InsertAllIsPool([], pool);
    forall id: Hash | id in store && id != r ensures SendAll(store, id, r) in g {
      WalkMeets(ids, store.Keys - {r}, id);
      var k :| 0 <= k < |ids| && ids[k] == id;
      assert pool[k] in pool;
      var i :| 0 <= i < |g| && KeyOf(g[i]) == KeyOf(pool[k]);
      assert g[i] in g;
    }
  }

  /** Every transaction left to scan empties its sender's account, which has not been loaded yet. */
  predicate AllEmpty(store: Store, cur: Hash, rest: seq<Tx>) {
    forall t :: t in rest ==> t.sender in store && t.sender != cur && t.amount == store[t.sender].balance
                              && store[t.sender].txSequence < t.seqNo
  }

  predicate OneEach(rest: seq<Tx>) {
    forall i, j :: 0 <= i < j < |rest| ==> rest[i].sender != rest[j].sender
  }

  predicate Emptying(store: Store, cur: Hash, rest: seq<Tx>) {
    BlockTxs(rest) && AllEmpty(store, cur, rest) && OneEach(rest)
  }

  lemma {:induction false} AllApplied(store: Store, s: Scan, rest: seq<Tx>)
    requires Emptying(store, s.cur, rest)
    ensures ScanFrom(store, s, rest).applied == s.applied + rest
    decreases |rest|
  {
    if rest != [] {
      var s', more := OneApplied(store, s, rest);
      AllApplied(store, s', more);
    }
  }

  /** The first of them is applied, and the scan goes on with the others. */
  lemma OneApplied(store: Store, s: Scan, rest: seq<Tx>) returns (s': Scan, more: seq<Tx>)
    requires Emptying(store, s.cur, rest) && rest != []
    ensures |more| < |rest| && Emptying(store, s'.cur, more) && s.applied + rest == s'.applied + more
    ensures ScanFrom(store, s, rest) == ScanFrom(store, s', more)
  {
    var tx := rest[0];
    s', more := StepOne(store, s, tx), rest[1..];
    FirstOf(rest, tx, more);
    ScanCons(store, s, tx, more);
    FirstApplied(store, s, rest, tx, more, s');
    Rebracket(s.applied, tx, more);
  }

  lemma FirstOf<T>(rest: seq<T>, t: T, more: seq<T>)
    requires rest != [] && t == rest[0] && more == rest[1..]
    ensures rest == [t] + more
  {
  }

  lemma Rebracket<T>(a: seq<T>, t: T, b: seq<T>)
    ensures a + ([t] + b) == a + [t] + b
  {
  }

  lemma FirstApplied(store: Store, s: Scan, rest: seq<Tx>, tx: Tx, more: seq<Tx>, s': Scan)
    requires Emptying(store, s.cur, rest) && rest != [] && tx == rest[0] && more == rest[1..]
    requires s' == StepOne(store, s, tx)
    ensures s'.applied == s.applied + [tx] && Emptying(store, s'.cur, more)
  {
    assert tx in rest;
    Tail(rest);
    forall t | t in more ensures t in rest && t.sender != tx.sender {
      var i :| 0 <= i < |more| && more[i] == t;
      assert rest[i + 1] == t;
    }
  }

  lemma {:induction false} SentOnce(ts: seq<Tx>, k: nat)
    requires k < |ts| && OneEach(ts)
    ensures Sent(ts, ts[k].sender) == ts[k].amount
  {
    var n := |ts| - 1;
    if k < n {
      SentOnce(ts[..n], k);
    } else {
      forall t | t in ts[..n] ensures t.sender != ts[k].sender {
        var i :| 0 <= i < n && ts[i] == t;
      }
      SentOf(ts[..n], ts[k].sender);
    }
  }

  lemma {:induction false} NoneReceived(ts: seq<Tx>, id: Hash)
    requires forall t :: t in ts ==> t.receiver != id
    ensures Received(ts, id) == 0
  {
    if ts != [] {
      NoneReceived(ts[..|ts| - 1], id);
    }
  }

  lemma GatheringIsOneEach(store: Store, g: TransactionSet, r: Hash)
    requires Room(store) && Gathers(store, g, r)
    ensures Emptying(store, NULL_HASH, g)
  {
    forall i, j | 0 <= i < j < |g| ensures g[i].sender != g[j].sender {
      assert g[i] in g && g[j] in g && Before(g[i], g[j]);
    }
  }

  lemma GatheringApplies(store: Store, g: TransactionSet, r: Hash)
    requires Room(store) && r in store && Gathers(store, g, r)
    ensures BlockTxs(g) && Execute(store, g).ok && Execute(store, g).applied == g
  {
    GatheringIsOneEach(store, g, r);
    AllApplied(store, SCAN_START, g);
    assert SCAN_START.applied + g == g;
    SucceedsIff(store, g);
  }

  lemma GatheringTakesAll(store: Store, g: TransactionSet, r: Hash, id: Hash)
    requires Room(store) && Gathers(store, g, r) && id in store && id != r
    ensures Net(g, id) + store[id].balance == 0
  {
    GatheringIsOneEach(store, g, r);
    var t := SendAll(store, id, r);
    var k :| 0 <= k < |g| && g[k] == t;
    SentOnce(g, k);
    NoneReceived(g, id);
  }

  /** Everybody but `r` is left with nothing. */
  lemma GatheringEmpties(store: Store, g: TransactionSet, r: Hash, id: Hash)
    requires Room(store) && r in store && Gathers(store, g, r) && id in store && id != r
    ensures id in Execute(store, g).store && Execute(store, g).store[id].balance == 0
  {
    GatheringApplies(store, g, r);
    SettledAt(store, g, id);
    GatheringTakesAll(store, g, r, id);
    SameWord(Execute(store, g).store[id].balance, 0, 0);
  }

  lemma {:induction false} TotalOfZeros(b: Balances)
    requires forall id :: id in b ==> b[id] == 0
    ensures Total(b) == 0
    decreases |b|
  {
    if |b| != 0 {
      var id := AnyKey(b.Keys);
      Smaller(b, id);
      TotalOfZeros(b - {id});
    }
  }

  /** What is left fits one word. */
  lemma GatheredFits(store: Store, g: TransactionSet, r: Hash)
    requires Room(store) && r in store && Gathers(store, g, r)
    ensures Total(BalancesOf(Execute(store, g).store)) < M
  {
    var after := BalancesOf(Execute(store, g).store);
    GatheringApplies(store, g, r);
    forall id: Hash | id in after - {r} ensures after[id] == 0 {
      GatheringEmpties(store, g, r, id);
    }
    TotalAt(after, r);
    TotalOfZeros(after - {r});
  }

  /** Every block keeps the sum of all balances exactly when the sum is below 2^32. */
  lemma SupplyKeptIff(store: Store)
    requires Room(store)
    ensures (forall txs :: BlockTxs(txs) ==> Total(BalancesOf(Execute(store, txs).store)) == Total(BalancesOf(store)))
       <==> Total(BalancesOf(store)) < M
  {
    if Total(BalancesOf(store)) < M {
      forall txs | BlockTxs(txs) ensures Total(BalancesOf(Execute(store, txs).store)) == Total(BalancesOf(store)) {
        SupplyExact(store, txs);
      }
    } else {
      var r := SomeMember(store.Keys);
      var g := SomeGathering(store, r);
      GatheringIsOneEach(store, g, r);
      GatheredFits(store, g, r);
      assert BlockTxs(g);
    }
  }
}
