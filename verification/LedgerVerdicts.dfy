/** Which transactions of a block are applied and which are kept, transaction by transaction. */
module LedgerVerdicts {
  import opened Transactions
  import opened Ledger
  import opened LedgerRuns

  /** What the transactions of `t`'s sender with smaller sequence numbers spend. */
  function SpentBefore(ts: seq<Tx>, t: Tx): nat {
    if ts == [] then 0
    else
      var u := ts[|ts| - 1];
      SpentBefore(ts[..|ts| - 1], t) + if u.sender == t.sender && u.seqNo < t.seqNo then u.amount else 0
  }

  /** The sender has an account, has not used the sequence number, and can pay after what it paid before. */
  predicate Payable(store: Store, ts: seq<Tx>, t: Tx) {
    && t.sender in store && store[t.sender].txSequence < t.seqNo
    && t.amount + SpentBefore(ts, t) <= store[t.sender].balance
  }

  /** The verdicts on `t`, with `applied` and `kept` the outcome. */
  predicate Judged(store: Store, applied: seq<Tx>, kept: seq<Tx>, t: Tx) {
    && (t in applied <==> Payable(store, applied, t))
    && (t in kept <==> t in applied || t.sender !in store)
  }

  lemma SpentSnoc(ts: seq<Tx>, u: Tx, t: Tx)
    ensures SpentBefore(ts + [u], t)
         == SpentBefore(ts, t) + if u.sender == t.sender && u.seqNo < t.seqNo then u.amount else 0
  {
    assert (ts + [u])[..|ts|] == ts;
  }

  /** Everything applied so far comes before the transaction at hand. */
  lemma {:induction false} SpentIsSent(ts: seq<Tx>, t: Tx)
    requires forall u :: u in ts ==> Before(u, t)
    ensures SpentBefore(ts, t) == Sent(ts, t.sender)
  {
    if ts != [] {
      SpentIsSent(ts[..|ts| - 1], t);
      assert ts[|ts| - 1] in ts;
    }
  }

  /** The pass so far: `done` is judged, `rest` is to come, and nothing else is in the outcome. */
  ghost predicate JudgedSoFar(store: Store, s: Scan, done: seq<Tx>, rest: seq<Tx>) {
    && ScanOk(store, s, rest) && BlockTxs(rest) && BeforeAll(done, rest)
    && Subset(s.applied, done) && Subset(s.kept, done) && Sorted(s.kept)
    && forall t :: t in done ==> Judged(store, s.applied, s.kept, t)
  }

  /** The outcome of one step, `tx` being kept or dropped, applied or not. */
  predicate Extends(s: Scan, s': Scan, tx: Tx, applies: bool, keeps: bool) {
    && s'.applied == (if applies then s.applied + [tx] else s.applied)
    && s'.kept == (if keeps then s.kept + [tx] else s.kept)
  }

  /** What one step decides. */
  lemma StepDecides(store: Store, s: Scan, rest: seq<Tx>, tx: Tx)
    requires ScanOk(store, s, rest) && BlockTxs(rest) && rest != [] && tx == rest[0]
    ensures var applies := Payable(store, s.applied, tx);
      Extends(s, StepOne(store, s, tx), tx, applies, applies || tx.sender !in store)
  {
    assert tx in rest;
    if !SenderUnknown(store, s, tx) {
      SwitchOk(store, s, rest);
      SpentIsSent(s.applied, tx);
    }
  }

  /** A later transaction changes no earlier verdict. */
  lemma JudgedStays(store: Store, s: Scan, s': Scan, tx: Tx, applies: bool, keeps: bool, t: Tx)
    requires Extends(s, s', tx, applies, keeps) && Judged(store, s.applied, s.kept, t) && Before(t, tx)
    ensures Judged(store, s'.applied, s'.kept, t)
  {
    SpentSnoc(s.applied, tx, t);
  }

  lemma JudgedNow(store: Store, s: Scan, s': Scan, tx: Tx, applies: bool, keeps: bool)
    requires Extends(s, s', tx, applies, keeps) && tx !in s.applied && tx !in s.kept
    requires applies == Payable(store, s.applied, tx) && keeps == (applies || tx.sender !in store)
    ensures Judged(store, s'.applied, s'.kept, tx)
  {
    SpentSnoc(s.applied, tx, tx);
  }

  lemma StepJudges(store: Store, s: Scan, done: seq<Tx>, rest: seq<Tx>, tx: Tx, more: seq<Tx>)
    requires JudgedSoFar(store, s, done, rest) && rest != [] && tx == rest[0] && more == rest[1..]
    ensures JudgedSoFar(store, StepOne(store, s, tx), done + [tx], more)
  {
    var s' := StepOne(store, s, tx);
    var applies := Payable(store, s.applied, tx);
    var keeps := applies || tx.sender !in store;
    assert tx in rest;
    StepDecides(store, s, rest, tx);
    StepOneOk(store, s, rest);
    RestOk(store, s, rest);
    Tail(rest);
    assert forall t :: t in done ==> Before(t, tx);
    forall t | t in done + [tx] ensures Judged(store, s'.applied, s'.kept, t) {
      if t in done {
        JudgedStays(store, s, s', tx, applies, keeps, t);
      } else {
        assert !Before(tx, tx);
        JudgedNow(store, s, s', tx, applies, keeps);
      }
    }
    if keeps {
      InOrder(s.kept, rest);
    }
  }

  lemma {:induction false} RestJudges(store: Store, s: Scan, done: seq<Tx>, rest: seq<Tx>)
    requires JudgedSoFar(store, s, done, rest)
    ensures JudgedSoFar(store, ScanFrom(store, s, rest), done + rest, [])
    decreases |rest|
  {
    if rest == [] {
      assert done + rest == done;
    } else {
      var tx, more := rest[0], rest[1..];
      assert rest == [tx] + more && done + rest == done + [tx] + more;
      StepJudges(store, s, done, rest, tx, more);
      ScanCons(store, s, tx, more);
      RestJudges(store, StepOne(store, s, tx), done + [tx], more);
    }
  }

  /** Every transaction of the block is judged, and the outcomes hold nothing else, in set order. */
  predicate Decided(store: Store, txs: seq<Tx>, applied: seq<Tx>, kept: seq<Tx>) {
    && (forall t :: t in txs ==> Judged(store, applied, kept, t))
    && Subset(applied, txs) && Sorted(applied) && Subset(kept, txs) && Sorted(kept)
  }

  /** A set cut before `t`: what lies behind spends nothing before it. */
  lemma {:induction false} CutBefore(ts: seq<Tx>, t: Tx) returns (n: nat)
    requires Sorted(ts)
    ensures n <= |ts| && Sorted(ts[..n]) && SpentBefore(ts[..n], t) == SpentBefore(ts, t)
    ensures forall u :: u in ts[..n] <==> u in ts && Before(u, t)
  {
    if ts == [] || Before(ts[|ts| - 1], t) {
      n := |ts|;
      assert ts[..n] == ts;
    } else {
      n := CutBefore(ts[..|ts| - 1], t);
      assert ts[..|ts| - 1][..n] == ts[..n];
      assert ts == ts[..|ts| - 1] + [ts[|ts| - 1]];
    }
  }

  /** The verdict on `t` is that of what comes before it. */
  lemma {:induction false} SameSoFar(store: Store, txs: seq<Tx>, ts: seq<Tx>, us: seq<Tx>, kept: seq<Tx>,
                                     more: seq<Tx>, k: nat)
    requires Sorted(txs) && Decided(store, txs, ts, kept) && Decided(store, txs, us, more) && k < |txs|
    ensures txs[k] in ts <==> txs[k] in us
  {
    var t := txs[k];
    var m := CutBefore(ts, t);
    var n := CutBefore(us, t);
    forall u | u in txs && Before(u, t) ensures u in ts <==> u in us {
      var j :| 0 <= j < |txs| && txs[j] == u;
      assert j < k;
      SameSoFar(store, txs, ts, us, kept, more, j);
    }
    SameElements(ts[..m], us[..n]);
  }

  /** Only one outcome is decided so. */
  lemma DecidedOnce(store: Store, txs: seq<Tx>, ts: seq<Tx>, us: seq<Tx>, kept: seq<Tx>, more: seq<Tx>)
    requires Sorted(txs) && Decided(store, txs, ts, kept) && Decided(store, txs, us, more)
    ensures ts == us && kept == more
  {
    forall t | t in txs ensures t in ts <==> t in us {
      var k :| 0 <= k < |txs| && txs[k] == t;
      SameSoFar(store, txs, ts, us, kept, more, k);
    }
    SameElements(ts, us);
    SameElements(kept, more);
  }

  /** The pass decides every transaction of the block. It is applied exactly when its sender has an account, the
      stored sequence number is smaller and the balance covers it together with what the sender's earlier
      applied transactions spend. It is kept exactly when it is applied or its sender has no account. Both
      outcomes hold nothing else, in set order. */
  lemma PassDecides(store: Store, txs: seq<Tx>)
    requires BlockTxs(txs)
    ensures var s := ScanFrom(store, SCAN_START, txs); Decided(store, txs, s.applied, s.kept)
  {
    SentOfNothing(store);
    assert [] + txs == txs;
    RestJudges(store, SCAN_START, [], txs);
  }

  /** The same of the executed block, `ts` being what the pass applies: the transactions kept do not depend on
      whether every receiver has an account, and those applied are these or none. */
  lemma BlockDecides(store: Store, txs: seq<Tx>)
    requires BlockTxs(txs)
    ensures var e := Execute(store, txs);
      exists ts :: Decided(store, txs, ts, e.kept) && e.applied == if e.ok then ts else []
  {
    PassDecides(store, txs);
    var s := ScanFrom(store, SCAN_START, txs);
    assert Decided(store, txs, s.applied, Execute(store, txs).kept);
  }
}
