/** The account database and the execution of a block, in place (`AccountBalanceStorage`,
    `ConsensusWrapper::executeBlock`). */
module LedgerNode {
  import opened Transactions
  import opened MerkleRoot
  import opened Ledger
  import opened LedgerRuns
  import opened HashTables

  datatype Status = Done | Missing(id: Hash)

  class Block {
    var txSet: seq<Tx>
    var transactionCount: nat
    var transactionsMerkleRootHash: Hash
  }

  class AccountBalanceStorage {
    var db: Store

    method GetBalance(id: Hash, acc: Account) returns (found: bool, acc': Account)
      ensures found <==> id in db
      ensures acc' == if found then db[id] else acc
    {
      if id in db {
        return true, db[id];
      }
      return false, acc;
    }

    /** All differences are settled in one batch write, or none is. */
    method SetBalancesByAccDiffs(accDiffs: map<Hash, Diff>) returns (status: Status)
      modifies this
      ensures status == Done <==> accDiffs.Keys <= old(db).Keys
      ensures status.Missing? ==> status.id in accDiffs && status.id !in old(db) && db == old(db)
      ensures status == Done ==> db == SettleAll(old(db), accDiffs)
    {
      var batch: map<Hash, Account> := map[];
      var todo := accDiffs.Keys;
      while todo != {}
        invariant db == old(db) && todo <= accDiffs.Keys && batch.Keys == accDiffs.Keys - todo && batch.Keys <= db.Keys
        invariant forall id :: id in batch ==> batch[id] == Settle(db[id], accDiffs[id])
        decreases todo
      {
        var id := Pick(todo);
        var found, acc := GetBalance(id, Account(0, 0));
        if !found {
          return Missing(id);
        }
        var diff := accDiffs[id];
        acc := acc.(balance := (acc.balance + diff.balanceDiff) % M);
        if diff.txSequence != 0 {
          acc := acc.(txSequence := diff.txSequence);
        }
        batch := batch[id := acc];
        todo := todo - {id};
      }
      db := db + batch;
      Written(old(db), accDiffs, batch);
      return Done;
    }

    /** Erase the transactions after `it` that repeat its sender and sequence number, and it with them. */
    method SkipRun(txSet: seq<Tx>, it: nat, currAcc: Hash) returns (txSet': seq<Tx>, flagMoved: bool)
      requires it < |txSet|
      ensures var k := RunLength(txSet[it], currAcc, txSet[it + 1..]);
        (flagMoved <==> k > 0) && txSet' == if k > 0 then txSet[..it] + txSet[it + 1..][k..] else txSet
    {
      var tx, next := txSet[it], it + 1;
      ghost var rest := txSet[it + 1..];
      ghost var n := 0;
      txSet', flagMoved := txSet, false;
      while next < |txSet'| && currAcc == txSet'[next].sender && tx.seqNo == txSet'[next].seqNo
        invariant next <= |txSet'| && txSet'[..next] == txSet[..next]
        invariant n <= |rest| && txSet'[next..] == rest[n..]
        invariant RunLength(tx, currAcc, rest) == n + RunLength(tx, currAcc, rest[n..])
        invariant flagMoved <==> n > 0
        decreases |txSet'|
      {
        flagMoved := true;
        txSet' := txSet'[..next] + txSet'[next + 1..];
        assert rest[n..][1..] == rest[n + 1..];
        assert txSet'[next..] == rest[n + 1..];
        n := n + 1;
      }
      if flagMoved {
        assert txSet'[..it] == txSet'[..next][..it];
        txSet' := txSet'[..it] + txSet'[it + 1..];
      } else {
        assert txSet' == txSet'[..next] + txSet'[next..] == txSet[..next] + txSet[next..] == txSet;
      }
    }

    method PostDifferences(accDiffs: map<Hash, Diff>, tx: Tx) returns (accDiffs': map<Hash, Diff>)
      ensures accDiffs' == Post(accDiffs, tx)
    {
      accDiffs' := accDiffs;
      if tx.sender in accDiffs' {
        var d := accDiffs'[tx.sender];
        accDiffs' := accDiffs'[tx.sender := Diff(d.balanceDiff - tx.amount, tx.seqNo)];
      } else {
        accDiffs' := accDiffs'[tx.sender := Diff((0 - tx.amount) % M, tx.seqNo)];
      }
      if tx.receiver in accDiffs' {
        var d := accDiffs'[tx.receiver];
        accDiffs' := accDiffs'[tx.receiver := d.(balanceDiff := d.balanceDiff + tx.amount)];
      } else {
        accDiffs' := accDiffs'[tx.receiver := Diff(tx.amount, 0)];
      }
    }

    /** `countAccountDifferencesByTxSet`: erase what the current sender cannot send, note the rest. */
    method CountAccountDifferences(txSet: seq<Tx>) returns (txSet': seq<Tx>, accDiffs: map<Hash, Diff>)
      requires forall t :: t in txSet ==> t.sender != NULL_HASH
      ensures txSet' == ScanFrom(db, SCAN_START, txSet).kept
      ensures accDiffs == ScanFrom(db, SCAN_START, txSet).diffs
    {
      txSet' := txSet;
      var acc := Account(0, 0);
      var currAcc := NULL_HASH;
      var upBalance: Uint32 := 0;
      accDiffs := map[];
      ghost var s := SCAN_START;
      var it := 0;
      while it < |txSet'|
        invariant AtLoop(db, txSet, txSet', it, s)
        invariant s == Scan(currAcc, acc, upBalance, accDiffs, s.kept, s.applied)
        decreases |txSet'| - it
      {
        var tx := txSet'[it];
        if currAcc != tx.sender {
          var found, acc' := GetBalance(tx.sender, acc);
          if found {
            acc, currAcc, upBalance := acc', tx.sender, acc'.balance;
          } else {
            s := PassedOver(db, txSet, txSet', it, s);
            it := it + 1;
            continue;
          }
        }
        ghost var s1 := Switch(db, s, tx);
        var flagMoved;
        ghost var was := txSet';
        txSet', flagMoved := SkipRun(txSet', it, currAcc);
        if flagMoved {
          RunSkipped(db, txSet, was, it, s, txSet');
          s := s1;
          continue;
        }
        if upBalance < tx.amount || acc.txSequence >= tx.seqNo {
          txSet' := txSet'[..it] + txSet'[it + 1..];
          Refused(db, txSet, was, it, s, txSet');
          s := s1;
          continue;
        }
        Taken(db, txSet, was, it, s);
        upBalance := upBalance - tx.amount;
        accDiffs := PostDifferences(accDiffs, tx);
        s := Judge(s1, tx);
        it := it + 1;
      }
    }
  }

  /** Before the element at `it`: what is left of `txs` to scan completes the pass over `all`. */
  ghost predicate AtLoop(store: Store, all: seq<Tx>, txs: seq<Tx>, it: nat, s: Scan) {
    && it <= |txs| && s.kept == txs[..it]
    && ScanFrom(store, s, txs[it..]) == ScanFrom(store, SCAN_START, all)
  }

  /** At the element at `it`, whose sender has an account or is the current one. */
  ghost predicate AtKnown(store: Store, all: seq<Tx>, txs: seq<Tx>, it: nat, s: Scan) {
    AtLoop(store, all, txs, it, s) && it < |txs| && !SenderUnknown(store, s, txs[it])
  }

  lemma PassedOver(store: Store, all: seq<Tx>, txs: seq<Tx>, it: nat, s: Scan) returns (s': Scan)
    requires AtLoop(store, all, txs, it, s) && it < |txs| && SenderUnknown(store, s, txs[it])
    ensures s' == s.(kept := s.kept + [txs[it]]) && AtLoop(store, all, txs, it + 1, s')
  {
    s' := s.(kept := s.kept + [txs[it]]);
    assert txs[..it + 1] == txs[..it] + [txs[it]] && txs[it..][1..] == txs[it + 1..];
  }

  lemma RunSkipped(store: Store, all: seq<Tx>, txs: seq<Tx>, it: nat, s: Scan, txs': seq<Tx>)
    requires AtKnown(store, all, txs, it, s)
    requires var k := RunLength(txs[it], txs[it].sender, txs[it + 1..]);
      k > 0 && txs' == txs[..it] + txs[it + 1..][k..]
    ensures AtLoop(store, all, txs', it, Switch(store, s, txs[it]))
  {
    var k := RunLength(txs[it], txs[it].sender, txs[it + 1..]);
    assert txs'[..it] == txs[..it];
    assert txs'[it..] == txs[it..][1 + k..] && txs[it..][1..] == txs[it + 1..];
  }

  lemma Refused(store: Store, all: seq<Tx>, txs: seq<Tx>, it: nat, s: Scan, txs': seq<Tx>)
    requires AtKnown(store, all, txs, it, s) && RunLength(txs[it], txs[it].sender, txs[it + 1..]) == 0
    requires Judge(Switch(store, s, txs[it]), txs[it]) == Switch(store, s, txs[it])
    requires txs' == txs[..it] + txs[it + 1..]
    ensures AtLoop(store, all, txs', it, Switch(store, s, txs[it]))
  {
    assert txs'[..it] == txs[..it];
    assert txs'[it..] == txs[it..][1..] == txs[it + 1..];
  }

  lemma Taken(store: Store, all: seq<Tx>, txs: seq<Tx>, it: nat, s: Scan)
    requires AtKnown(store, all, txs, it, s) && RunLength(txs[it], txs[it].sender, txs[it + 1..]) == 0
    requires var s1 := Switch(store, s, txs[it]); !(s1.up < txs[it].amount || s1.acc.txSequence >= txs[it].seqNo)
    ensures AtLoop(store, all, txs, it + 1, Judge(Switch(store, s, txs[it]), txs[it]))
  {
    assert txs[..it + 1] == txs[..it] + [txs[it]] && txs[it..][1..] == txs[it + 1..];
  }

  lemma Written(store: Store, diffs: map<Hash, Diff>, batch: map<Hash, Account>)
    requires diffs.Keys <= store.Keys && batch.Keys == diffs.Keys
    requires forall id :: id in batch ==> batch[id] == Settle(store[id], diffs[id])
    ensures store + batch == SettleAll(store, diffs)
  {
    var a, b := store + batch, SettleAll(store, diffs);
    assert forall id: Hash :: id in a <==> id in b;
    assert forall id: Hash :: id in a ==> a[id] == b[id];
  }

  class ConsensusWrapper {
    const h: NodeHash
    const empty: Hash
    const blncDB: AccountBalanceStorage
    var txPool: map<Hash, Tx>

    constructor (h: NodeHash, empty: Hash, storage: AccountBalanceStorage)
      ensures this.h == h && this.empty == empty && blncDB == storage && txPool == map[]
    {
      this.h, this.empty, blncDB, txPool := h, empty, storage, map[];
    }

    method ExecuteBlock(block: Block) returns (status: Status)
      requires BlockTxs(block.txSet)
      modifies this, block, blncDB
      ensures var e := Execute(old(blncDB.db), old(block.txSet));
        && (status == Done <==> e.ok)
        && blncDB.db == e.store && block.txSet == e.kept
      ensures txPool.Keys == old(txPool).Keys - (set t | t in old(block.txSet) :: t.id)
      ensures forall id :: id in txPool ==> txPool[id] == old(txPool)[id]
      ensures status == Done && |block.txSet| != |old(block.txSet)| ==>
        block.transactionCount == |block.txSet|
        && block.transactionsMerkleRootHash == TxSetId(h, empty, block.txSet)
      ensures status != Done || |block.txSet| == |old(block.txSet)| ==>
        block.transactionCount == old(block.transactionCount)
        && block.transactionsMerkleRootHash == old(block.transactionsMerkleRootHash)
    {
      var txSetCount := |block.txSet|;
      for i := 0 to |block.txSet|
        invariant txPool.Keys == old(txPool).Keys - (set t | t in block.txSet[..i] :: t.id)
        invariant forall id :: id in txPool ==> txPool[id] == old(txPool)[id]
        modifies this`txPool
      {
        assert block.txSet[..i + 1] == block.txSet[..i] + [block.txSet[i]];
        txPool := txPool - {block.txSet[i].id};
      }
      assert block.txSet[..|block.txSet|] == block.txSet;
      var kept, accDiffs := blncDB.CountAccountDifferences(block.txSet);
      FilterIsStable(blncDB.db, block.txSet);
      block.txSet := kept;
      status := blncDB.SetBalancesByAccDiffs(accDiffs);
      if status != Done {
        return;
      }
      if |block.txSet| != txSetCount {
        block.transactionCount := |block.txSet|;
        block.transactionsMerkleRootHash := ComputeTxSetMerkleRoot(h, empty, block.txSet);
      }
    }
  }
}
