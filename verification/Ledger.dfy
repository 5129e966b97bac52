/** Executing a block on the account store: the filtering pass over its transaction set, the batch
    of account differences, and the ledger over any sequence of blocks. */
module Ledger {
  import opened Transactions

  const M: int := 0x1_0000_0000

  /** `AccountBalance`; the public key never changes here. */
  datatype Account = Account(balance: Uint32, txSequence: Uint32)

  type Store = map<Hash, Account>

  /** `AccountDifference`. The balance difference is a signed long, unbounded here: `DiffsFitLong`. */
  datatype Diff = Diff(balanceDiff: int, txSequence: Uint32)

  /** The variables of the filtering pass, the transactions kept so far and those applied. */
  datatype Scan = Scan(cur: Hash, acc: Account, up: Uint32, diffs: map<Hash, Diff>, kept: seq<Tx>, applied: seq<Tx>)

  const SCAN_START := Scan(NULL_HASH, Account(0, 0), 0, map[], [], [])

  /** How many of the following transactions repeat the sender and sequence number of `tx`. */
  function RunLength(tx: Tx, cur: Hash, rest: seq<Tx>): (n: nat)
    ensures n <= |rest|
  {
    if rest != [] && cur == rest[0].sender && tx.seqNo == rest[0].seqNo then 1 + RunLength(tx, cur, rest[1..]) else 0
  }

  /** The account differences of one more applied transaction. A first debit is `0 - amount`
      computed in 32 bits and only then widened. */
  function Post(diffs: map<Hash, Diff>, tx: Tx): map<Hash, Diff> {
    var d1 := diffs[tx.sender :=
      if tx.sender in diffs then Diff(diffs[tx.sender].balanceDiff - tx.amount, tx.seqNo)
      else Diff((0 - tx.amount) % M, tx.seqNo)];
    d1[tx.receiver :=
      if tx.receiver in d1 then d1[tx.receiver].(balanceDiff := d1[tx.receiver].balanceDiff + tx.amount)
      else Diff(tx.amount, 0)]
  }

  /** The balance and sequence checks on one transaction of the current sender. */
  function Judge(s: Scan, tx: Tx): Scan {
    if s.up < tx.amount || s.acc.txSequence >= tx.seqNo then s
    else s.(up := s.up - tx.amount, diffs := Post(s.diffs, tx), kept := s.kept + [tx], applied := s.applied + [tx])
  }

  predicate SenderUnknown(store: Store, s: Scan, tx: Tx) {
    s.cur != tx.sender && tx.sender !in store
  }

  /** Load the account of a new sender. */
  function Switch(store: Store, s: Scan, tx: Tx): Scan
    requires !SenderUnknown(store, s, tx)
  {
    if s.cur != tx.sender then s.(cur := tx.sender, acc := store[tx.sender], up := store[tx.sender].balance) else s
  }

  /** `countAccountDifferencesByTxSet` from state `s` on. */
  function ScanFrom(store: Store, s: Scan, rest: seq<Tx>): Scan
    decreases |rest|
  {
    if rest == [] then s
    else
      var tx := rest[0];
      if SenderUnknown(store, s, tx) then ScanFrom(store, s.(kept := s.kept + [tx]), rest[1..])
      else
        var s1 := Switch(store, s, tx);
        var k := RunLength(tx, s1.cur, rest[1..]);
        if k > 0 then ScanFrom(store, s1, rest[1 + k..])
        else ScanFrom(store, Judge(s1, tx), rest[1..])
  }

  /** `setBalancesByAccDiffs` on one account: the sum is stored in 32 bits. */
  function Settle(a: Account, d: Diff): Account {
    Account((a.balance + d.balanceDiff) % M, if d.txSequence != 0 then d.txSequence else a.txSequence)
  }

  function SettleAll(store: Store, diffs: map<Hash, Diff>): Store {
    map id | id in store :: if id in diffs then Settle(store[id], diffs[id]) else store[id]
  }

  /** The effect of a block: `ok` unless an account to settle is missing, and then nothing is written. */
  datatype Execution = Execution(ok: bool, store: Store, kept: seq<Tx>, applied: seq<Tx>)

  function Execute(store: Store, txs: seq<Tx>): Execution {
    var s := ScanFrom(store, SCAN_START, txs);
    if s.diffs.Keys <= store.Keys then Execution(true, SettleAll(store, s.diffs), s.kept, s.applied)
    else Execution(false, store, s.kept, [])
  }

  /** A block's transactions: a `TransactionSet` whose senders are set, as admission demands. */
  predicate BlockTxs(txs: seq<Tx>) {
    Sorted(txs) && forall t :: t in txs ==> t.sender != NULL_HASH
  }

  // ---- Sums over applied transactions ----

  function Sent(ts: seq<Tx>, id: Hash): nat {
    if ts == [] then 0
    else Sent(ts[..|ts| - 1], id) + if ts[|ts| - 1].sender == id then ts[|ts| - 1].amount else 0
  }

  function Received(ts: seq<Tx>, id: Hash): nat {
    if ts == [] then 0
    else Received(ts[..|ts| - 1], id) + if ts[|ts| - 1].receiver == id then ts[|ts| - 1].amount else 0
  }

  function Net(ts: seq<Tx>, id: Hash): int {
    Received(ts, id) - Sent(ts, id)
  }

  /** The sequence number of the last transaction `id` sent, zero if it sent none. */
  function LastSeq(ts: seq<Tx>, id: Hash): Uint32 {
    if ts == [] then 0
    else if ts[|ts| - 1].sender == id then ts[|ts| - 1].seqNo
    else LastSeq(ts[..|ts| - 1], id)
  }

  predicate Touches(ts: seq<Tx>, id: Hash) {
    exists t :: t in ts && (t.sender == id || t.receiver == id)
  }

  lemma Appended(ts: seq<Tx>, t: Tx, id: Hash)
    ensures Sent(ts + [t], id) == Sent(ts, id) + if t.sender == id then t.amount else 0
    ensures Received(ts + [t], id) == Received(ts, id) + if t.receiver == id then t.amount else 0
    ensures LastSeq(ts + [t], id) == if t.sender == id then t.seqNo else LastSeq(ts, id)
    ensures Touches(ts + [t], id) <==> Touches(ts, id) || t.sender == id || t.receiver == id
  {
    assert (ts + [t])[..|ts|] == ts;
    assert forall u :: u in ts + [t] <==> u in ts || u == t;
  }

  lemma {:induction false} SentMonotone(ts: seq<Tx>, k: nat, id: Hash)
    requires k <= |ts|
    ensures Sent(ts[..k], id) <= Sent(ts, id)
  {
    if k < |ts| {
      SentMonotone(ts[..|ts| - 1], k, id);
      assert ts[..|ts| - 1][..k] == ts[..k];
    } else {
      assert ts[..k] == ts;
    }
  }

  // ---- What the pass establishes ----

  predicate Congruent(a: int, b: int) {
    (a - b) % M == 0
  }

  /** The difference recorded for `id` is right modulo 2^32, with the last sequence number it used. */
  predicate DiffOk(diffs: map<Hash, Diff>, ts: seq<Tx>, id: Hash) {
    && (id in diffs <==> Touches(ts, id))
    && (id in diffs ==> Congruent(diffs[id].balanceDiff, Net(ts, id)) && diffs[id].txSequence == LastSeq(ts, id))
  }

  ghost predicate DiffsOk(diffs: map<Hash, Diff>, ts: seq<Tx>) {
    (forall id :: DiffOk(diffs, ts, id)) && DiffBounded(diffs, |ts|)
  }

  lemma FirstDebit(amount: Uint32)
    ensures (0 - amount) % M == if amount == 0 then 0 else M - amount
  {
  }

  lemma CongruentShift(a: int, b: int, d: int)
    requires Congruent(a, b)
    ensures Congruent(a + d, b + d) && Congruent(a + d + M, b + d)
  {
    assert (a + d) - (b + d) == a - b;
    assert (a + d + M) - (b + d) == a - b + M;
  }

  function DiffOf(diffs: map<Hash, Diff>, id: Hash): int {
    if id in diffs then diffs[id].balanceDiff else 0
  }

  /** What the transfer moves on account `id`. */
  function Flow(tx: Tx, id: Hash): int {
    (if tx.receiver == id then tx.amount else 0) - (if tx.sender == id then tx.amount else 0)
  }

  /** The recorded difference moves by the flow, plus 2^32 for a first nonzero debit. */
  lemma PostMoves(diffs: map<Hash, Diff>, tx: Tx, id: Hash)
    ensures DiffOf(Post(diffs, tx), id) - DiffOf(diffs, id) - Flow(tx, id) in {0, M}
  {
    FirstDebit(tx.amount);
  }

  lemma PostOk(diffs: map<Hash, Diff>, ts: seq<Tx>, tx: Tx, id: Hash)
    requires DiffOk(diffs, ts, id)
    requires !Touches(ts, id) ==> Net(ts, id) == 0 && LastSeq(ts, id) == 0
    ensures DiffOk(Post(diffs, tx), ts + [tx], id)
  {
    Appended(ts, tx, id);
    PostMoves(diffs, tx, id);
    assert Congruent(DiffOf(diffs, id), Net(ts, id));
    CongruentShift(DiffOf(diffs, id), Net(ts, id), Flow(tx, id));
    assert Net(ts + [tx], id) == Net(ts, id) + Flow(tx, id);
  }

  lemma {:induction false} Untouched(ts: seq<Tx>, id: Hash)
    requires !Touches(ts, id)
    ensures Net(ts, id) == 0 && LastSeq(ts, id) == 0
  {
    if ts != [] {
      var t := ts[|ts| - 1];
      assert ts == ts[..|ts| - 1] + [t];
      Appended(ts[..|ts| - 1], t, id);
      Untouched(ts[..|ts| - 1], id);
    }
  }

  /** One signed long holds every recorded difference as long as a block has fewer than 2^30 transactions. */
  predicate DiffBounded(diffs: map<Hash, Diff>, n: nat) {
    forall id :: id in diffs ==> -M * n <= diffs[id].balanceDiff <= M * (n + 1)
  }

  lemma PostAllOk(diffs: map<Hash, Diff>, ts: seq<Tx>, tx: Tx)
    requires DiffsOk(diffs, ts)
    ensures DiffsOk(Post(diffs, tx), ts + [tx])
  {
    forall id ensures DiffOk(Post(diffs, tx), ts + [tx], id) {
      assert DiffOk(diffs, ts, id);
      if !Touches(ts, id) { Untouched(ts, id); }
      PostOk(diffs, ts, tx, id);
    }
  }

  /** Applied transactions are authorised by the store: known senders, fresh sequence numbers, and no
      sender spends more than its stored balance. */
  predicate Authorised(store: Store, ts: seq<Tx>) {
    && (forall t :: t in ts ==> t.sender in store && store[t.sender].txSequence < t.seqNo)
    && (forall id :: id in store ==> Sent(ts, id) <= store[id].balance)
  }

  predicate BeforeAll(ts: seq<Tx>, rest: seq<Tx>) {
    forall t, u :: t in ts && u in rest ==> Before(t, u)
  }

  /** The invariant of the pass, with `rest` still to come. */
  ghost predicate ScanOk(store: Store, s: Scan, rest: seq<Tx>) {
    && DiffsOk(s.diffs, s.applied)
    && Authorised(store, s.applied)
    && Sorted(s.applied) && BeforeAll(s.applied, rest)
    && (s.cur == NULL_HASH ==> s.applied == [])
    && (s.cur != NULL_HASH ==> s.cur in store && s.acc == store[s.cur]
                               && s.up == store[s.cur].balance - Sent(s.applied, s.cur)
                               && forall t :: t in rest ==> s.cur <= t.sender)
    && (forall t :: t in s.applied ==> t.sender <= s.cur)
  }

  lemma SentOf(ts: seq<Tx>, id: Hash)
    requires forall t :: t in ts ==> t.sender != id
    ensures Sent(ts, id) == 0
  {
    if ts != [] {
      SentOf(ts[..|ts| - 1], id);
    }
  }

  lemma SwitchOk(store: Store, s: Scan, rest: seq<Tx>)
    requires BlockTxs(rest) && rest != [] && ScanOk(store, s, rest) && !SenderUnknown(store, s, rest[0])
    ensures ScanOk(store, Switch(store, s, rest[0]), rest) && Switch(store, s, rest[0]).cur == rest[0].sender
  {
    var tx := rest[0];
    assert tx in rest;
    if s.cur != tx.sender {
      SentOf(s.applied, tx.sender);
      forall t | t in rest ensures tx.sender <= t.sender {
        var i :| 0 <= i < |rest| && rest[i] == t;
        assert i > 0 ==> Before(rest[0], rest[i]);
      }
    }
  }

  lemma InOrder(ts: seq<Tx>, rest: seq<Tx>)
    requires Sorted(ts) && Sorted(rest) && rest != [] && BeforeAll(ts, rest)
    ensures Sorted(ts + [rest[0]]) && BeforeAll(ts + [rest[0]], rest[1..])
  {
    var ts' := ts + [rest[0]];
    forall i, j | 0 <= i < j < |ts'| ensures Before(ts'[i], ts'[j]) {
      assert j < |ts| || (ts'[j] == rest[0] && ts'[i] in ts && rest[0] in rest);
    }
    forall t, u | t in ts' && u in rest[1..] ensures Before(t, u) {
      var i :| 0 <= i < |rest[1..]| && rest[1..][i] == u;
      assert rest[i + 1] == u;
    }
  }

  lemma AuthoriseOne(store: Store, ts: seq<Tx>, tx: Tx)
    requires Authorised(store, ts) && tx.sender in store && store[tx.sender].txSequence < tx.seqNo
    requires tx.amount <= store[tx.sender].balance - Sent(ts, tx.sender)
    ensures Authorised(store, ts + [tx])
  {
    forall id | id in store ensures Sent(ts + [tx], id) <= store[id].balance {
      Appended(ts, tx, id);
    }
  }

  lemma JudgeOk(store: Store, s: Scan, rest: seq<Tx>)
    requires BlockTxs(rest) && rest != [] && ScanOk(store, s, rest) && s.cur == rest[0].sender
    ensures ScanOk(store, Judge(s, rest[0]), rest[1..])
  {
    var tx := rest[0];
    assert tx in rest;
    RestOk(store, s, rest);
    if Judge(s, tx) != s {
      PostAllOk(s.diffs, s.applied, tx);
      AuthoriseOne(store, s.applied, tx);
      InOrder(s.applied, rest);
      Appended(s.applied, tx, s.cur);
    }
  }

  /** In a set, sequence numbers of one sender never repeat: the duplicate branch is never taken. */
  lemma NoRun(rest: seq<Tx>)
    requires Sorted(rest) && rest != []
    ensures RunLength(rest[0], rest[0].sender, rest[1..]) == 0
  {
    if |rest| > 1 {
      assert Before(rest[0], rest[1]);
    }
  }

  lemma RestOk(store: Store, s: Scan, rest: seq<Tx>)
    requires BlockTxs(rest) && rest != [] && ScanOk(store, s, rest)
    ensures BlockTxs(rest[1..]) && ScanOk(store, s, rest[1..])
  {
    assert forall t :: t in rest[1..] ==> t in rest;
    forall i, j | 0 <= i < j < |rest[1..]| ensures Before(rest[1..][i], rest[1..][j]) {
      assert Before(rest[i + 1], rest[j + 1]);
    }
  }

  lemma {:induction false} ScanFromOk(store: Store, s: Scan, rest: seq<Tx>)
    requires BlockTxs(rest) && ScanOk(store, s, rest)
    ensures ScanOk(store, ScanFrom(store, s, rest), [])
    decreases |rest|
  {
    if rest != [] {
      var tx := rest[0];
      RestOk(store, s, rest);
      if SenderUnknown(store, s, tx) {
        ScanFromOk(store, s.(kept := s.kept + [tx]), rest[1..]);
      } else {
        SwitchOk(store, s, rest);
        NoRun(rest);
        JudgeOk(store, Switch(store, s, tx), rest);
        ScanFromOk(store, Judge(Switch(store, s, tx), tx), rest[1..]);
      }
    }
  }

  /** The whole pass. */
  lemma PassOk(store: Store, txs: seq<Tx>)
    requires BlockTxs(txs)
    ensures ScanOk(store, ScanFrom(store, SCAN_START, txs), [])
  {
    SentOfNothing(store);
    ScanFromOk(store, SCAN_START, txs);
  }

  /** Below 2^30 transactions a block's differences fit the signed 64-bit field that holds them. */
  lemma DiffsFitLong(store: Store, txs: seq<Tx>, id: Hash)
    requires BlockTxs(txs)
    ensures var s := ScanFrom(store, SCAN_START, txs);
      |s.applied| < 0x4000_0000 && id in s.diffs ==>
        -0x8000_0000_0000_0000 <= s.diffs[id].balanceDiff < 0x8000_0000_0000_0000
  {
    PassOk(store, txs);
  }

  lemma SentOfNothing(store: Store)
    ensures Authorised(store, [])
  {
  }
}
