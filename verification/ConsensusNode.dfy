/** The consensus object of one node, updated in place; every method refines its step on `Round`. */
module ConsensusNode {
  import opened Transactions
  import opened MerkleRoot
  import opened Disputes
  import opened ConsensusRound
  import opened HashTables
  import opened Wrappers

  lemma SameDisputes(a: map<Hash, Dispute>, b: map<Hash, Dispute>)
    requires a.Keys == b.Keys && forall id :: id in a ==> a[id] == b[id]
    ensures a == b
  {
    assert forall id: Hash :: id in a ==> a[id] == b[id];
  }

  lemma NoneLeft<K, V>(m: map<K, V>, keys: set<K>)
    requires m.Keys <= keys
    ensures m - keys == map[]
  {
  }

  lemma AllLeft<K, V>(m: map<K, V>)
    ensures m - {} == m
  {
  }

  lemma OneLess<K, V>(m: map<K, V>, todo: set<K>, k: K)
    requires k in todo
    ensures m - (todo - {k}) == if k in m then (m - todo)[k := m[k]] else m - todo
  {
  }

  lemma ValuesAfter<K, V>(m: map<K, V>, k: K, v: V)
    ensures m[k := v].Values <= m.Values + {v}
  {
  }

  lemma OpenedOneMore(tx: Tx, ourVote: bool, votes: map<PeerId, bool>, p: PeerId, vote: bool)
    requires p !in votes
    ensures WithVote(Opened(tx, ourVote, votes), p, vote) == Opened(tx, ourVote, votes[p := vote])
  {
    VotersAfter(votes, p, vote);
  }

  class Consensus {
    const c: Config
    var phase: Phase
    var prevBlockId: Hash
    var txns: TransactionSet
    var compares: set<Hash>
    var proposal: TxSetProposal
    var disputes: map<Hash, DisputeTransaction>
    var peers: map<PeerId, CProposal>
    var acquired: map<Hash, CTxSet>

    /** Each table entry is its own record. */
    ghost predicate Separate()
      reads this
    {
      forall i, j :: i in disputes && j in disputes && disputes[i] == disputes[j] ==> i == j
    }

    ghost function DisputeValues(): map<Hash, Dispute>
      reads this`disputes, disputes.Values
    {
      map id | id in disputes :: disputes[id].Value()
    }

    ghost function Value(): Round
      reads this, disputes.Values
    {
      Round(phase, prevBlockId, txns, compares, proposal, DisputeValues(), peers, acquired)
    }

    constructor (config: Config, genesis: Hash)
      ensures c == config && Separate() && Value() == InitialRound(genesis)
    {
      c := config;
      phase, prevBlockId, txns, compares, proposal := Open, genesis, [], {}, NULL_PROPOSAL;
      disputes, peers, acquired := map[], map[], map[];
    }

    method BeginConsensus()
      modifies this
      ensures Separate() && disputes.Values == {}
      ensures Value() == ConsensusRound.BeginConsensus(old(Value()))
    {
      phase, txns, compares, proposal := Open, [], {}, NULL_PROPOSAL;
      disputes, peers, acquired := map[], map[], map[];
    }

    /** `DisputeTransaction(tx, isInMy, ...)` with the votes of every peer whose set is known. */
    method OpenDispute(tx: Tx) returns (d: DisputeTransaction)
      ensures fresh(d) && d.Value() == NewDispute(Value(), tx)
    {
      d := new DisputeTransaction(tx, Holds(txns, tx));
      ghost var known := KnownVotes(Value(), tx);
      var todo := peers.Keys;
      NoneLeft(known, todo);
      while todo != {}
        invariant todo <= peers.Keys && d.Value() == Opened(tx, Holds(txns, tx), known - todo)
        decreases todo
      {
        var p := Pick(todo);
        OneLess(known, todo, p);
        if peers[p].txSetId in acquired {
          var vote := Holds(acquired[peers[p].txSetId].txs, tx);
          OpenedOneMore(tx, Holds(txns, tx), known - todo, p, vote);
          d.SetVote(p, vote);
        }
        todo := todo - {p};
      }
      AllLeft(known);
    }

    /** `disputes.emplace(id, d)` */
    method Emplace(id: Hash, d: DisputeTransaction)
      requires Separate() && id !in disputes && d !in disputes.Values
      modifies this`disputes
      ensures Separate() && disputes == old(disputes)[id := d]
      ensures DisputeValues() == old(DisputeValues())[id := d.Value()]
    {
      ghost var was := DisputeValues();
      disputes := disputes[id := d];
      SameDisputes(DisputeValues(), was[id := d.Value()]);
    }

    method AddDispute(tx: Tx)
      requires Separate()
      modifies this`disputes
      ensures Separate() && fresh(disputes.Values - old(disputes.Values))
      ensures Value() == ConsensusRound.AddDispute(old(Value()), tx)
    {
      if tx.id !in disputes {
        var d := OpenDispute(tx);
        assert Value() == old(Value());
        Emplace(tx.id, d);
        ValuesAfter(old(disputes), tx.id, d);
      }
    }

    /** The loop of `createDisputes` over the differing transactions. */
    method AddDisputes(diff: seq<Tx>)
      requires Separate()
      modifies this`disputes
      ensures Separate() && fresh(disputes.Values - old(disputes.Values))
      ensures Value() == ConsensusRound.AddDisputes(old(Value()), diff)
    {
      for i := 0 to |diff|
        invariant Separate() && fresh(disputes.Values - old(disputes.Values))
        invariant Value() == ConsensusRound.AddDisputes(old(Value()), diff[..i])
      {
        assert diff[..i + 1][..i] == diff[..i];
        AddDispute(diff[i]);
      }
      assert diff[..|diff|] == diff;
    }

    method CreateDisputes(set': CTxSet)
      requires Separate()
      modifies this`disputes, this`compares
      ensures Separate() && fresh(disputes.Values - old(disputes.Values))
      ensures Value() == ConsensusRound.CreateDisputes(old(Value()), set')
    {
      if set'.setId in compares {
        return;
      }
      compares := compares + {set'.setId};
      if set'.setId == proposal.setId {
        return;
      }
      AddDisputes(SymmetricDifference(txns, set'.txs));
    }

    /** Record the vote of `node` on every dispute. */
    method VoteAll(node: PeerId, set': CTxSet)
      requires Separate()
      modifies disputes.Values
      ensures DisputeValues() == VoteOn(old(DisputeValues()), node, set')
    {
      ghost var ds := DisputeValues();
      var todo := disputes.Keys;
      while todo != {}
        invariant todo <= disputes.Keys
        invariant forall id :: id in disputes && id in todo ==> disputes[id].Value() == ds[id]
        invariant forall id :: id in disputes && id !in todo ==>
          disputes[id].Value() == WithVote(ds[id], node, Holds(set'.txs, ds[id].tx))
        decreases todo
      {
        var id := Pick(todo);
        var d := disputes[id];
        d.SetVote(node, Holds(set'.txs, d.tx));
        todo := todo - {id};
      }
      SameDisputes(DisputeValues(), VoteOn(ds, node, set'));
    }

    method UpdateDisputes(node: PeerId, set': CTxSet)
      requires Separate()
      modifies this`disputes, this`compares, disputes.Values
      ensures Separate() && fresh(disputes.Values - old(disputes.Values))
      ensures Value() == ConsensusRound.UpdateDisputes(old(Value()), node, set')
    {
      if set'.setId !in compares {
        CreateDisputes(set');
      }
      VoteAll(node, set');
    }

    method UpdateForPeer(set': CTxSet, p: PeerId)
      requires Separate() && p in peers
      modifies this`disputes, this`compares, disputes.Values
      ensures Separate() && fresh(disputes.Values - old(disputes.Values))
      ensures Value() == ConsensusRound.UpdateForPeer(old(Value()), set', p)
    {
      if peers[p].txSetId == set'.setId {
        UpdateDisputes(p, set');
      }
    }

    /** The walk over `currPeerProposals_` that calls `updateDisputes` for the proposers of `set'`. */
    method UpdateForPeers(set': CTxSet) returns (ghost order: seq<PeerId>)
      requires Separate()
      modifies this`disputes, this`compares, disputes.Values
      ensures Separate() && fresh(disputes.Values - old(disputes.Values))
      ensures Walks(order, peers.Keys)
      ensures Value() == ConsensusRound.UpdateForPeers(old(Value()), set', order)
    {
      ghost var was := Value();
      order := [];
      var todo := peers.Keys;
      while todo != {}
        invariant todo <= peers.Keys && Walks(order, peers.Keys - todo)
        invariant Separate() && fresh(disputes.Values - old(disputes.Values))
        invariant Value() == ConsensusRound.UpdateForPeers(was, set', order)
        decreases todo
      {
        var p := Pick(todo);
        UpdateForPeer(set', p);
        WalkOn(order, peers.Keys, todo, p);
        order, todo := order + [p], todo - {p};
      }
    }

    method GotTxSet(prop: TxSetProposal) returns (ghost order: seq<PeerId>)
      requires Separate()
      modifies this, disputes.Values
      ensures Separate() && fresh(disputes.Values - old(disputes.Values))
      ensures Counts(old(Value()), prop) ==> Walks(order, peers.Keys)
      ensures Value() == ConsensusRound.GotTxSet(old(Value()), prop, order)
    {
      order := [];
      if phase == Accepted { return; }
      if prop.previousBlockId != prevBlockId { return; }
      if prop.issuer in peers && prop.seqNo <= peers[prop.issuer].seqNo { return; }
      var isNew := Record(prop);
      if isNew && txns != [] && proposal.setId != NULL_HASH {
        order := UpdateForPeers(CTxSet(prop.txs, prop.setId, prop.time));
      }
    }

    /** The issuer's record is replaced; a known set only gets the new time. */
    method Record(prop: TxSetProposal) returns (isNew: bool)
      modifies this`peers, this`acquired
      ensures Value() == ConsensusRound.Record(old(Value()), prop)
      ensures isNew <==> prop.setId !in old(acquired)
    {
      peers := peers[prop.issuer := CProposal(prop.previousBlockId, prop.setId, prop.time, prop.seqNo)];
      isNew := prop.setId !in acquired;
      if isNew {
        acquired := acquired[prop.setId := CTxSet(prop.txs, prop.setId, prop.time)];
      } else {
        acquired := acquired[prop.setId := acquired[prop.setId].(time := prop.time)];
      }
    }

    /** The first half of `closeBlock`: take the pool in its iteration order, fix and share a position. */
    method FixPosition(pool: seq<Tx>, now: int) returns (shared: TxSetProposal)
      modifies this
      ensures Separate() && disputes.Values == {} && peers == old(peers) && shared == proposal
      ensures Value() == ConsensusRound.FixPosition(c, old(Value()), pool, now)
    {
      for i := 0 to |pool|
        invariant txns == InsertAll(old(txns), pool[..i])
        invariant prevBlockId == old(prevBlockId) && phase == old(phase) && proposal == old(proposal)
        invariant peers == old(peers) && acquired == old(acquired)
      {
        assert pool[..i + 1][..i] == pool[..i];
        txns := Insert(txns, pool[i]);
      }
      assert pool[..|pool|] == pool;
      var id := ComputeTxSetMerkleRoot(c.h, c.empty, txns);
      proposal := TxSetProposal(c.self, proposal.seqNo, now, id, prevBlockId, txns);
      shared := proposal;
      compares, disputes := {}, map[];
      if id !in acquired {
        acquired := acquired[id := CTxSet(txns, id, now)];
      }
    }

    method CloseBlock(pool: seq<Tx>, now: int) returns (shared: TxSetProposal, ghost order: seq<PeerId>)
      modifies this
      ensures Separate() && fresh(disputes.Values)
      ensures Walks(order, peers.Keys) && peers == old(peers) && shared == proposal
      ensures Value() == ConsensusRound.CloseBlock(c, old(Value()), pool, now, order)
    {
      shared := FixPosition(pool, now);
      ghost var r := Value();
      order := [];
      var todo := peers.Keys;
      while todo != {}
        invariant todo <= peers.Keys && Walks(order, peers.Keys - todo)
        invariant Separate() && fresh(disputes.Values) && proposal == shared && peers == r.peers
        invariant Value() == CompareWithPeers(r, order)
        decreases todo
      {
        var p := Pick(todo);
        if peers[p].txSetId in acquired {
          CreateDisputes(acquired[peers[p].txSetId]);
        }
        WalkOn(order, peers.Keys, todo, p);
        order := order + [p];
        todo := todo - {p};
      }
    }

    /** Withdraw the vote of `node` on every dispute. */
    method UnVoteAll(node: PeerId)
      requires Separate()
      modifies disputes.Values
      ensures DisputeValues() == Withdraw(old(DisputeValues()), node)
    {
      ghost var ds := DisputeValues();
      var todo := disputes.Keys;
      while todo != {}
        invariant todo <= disputes.Keys
        invariant forall id :: id in disputes && id in todo ==> disputes[id].Value() == ds[id]
        invariant forall id :: id in disputes && id !in todo ==> disputes[id].Value() == WithoutVote(ds[id], node)
        decreases todo
      {
        var id := Pick(todo);
        disputes[id].UnVote(node);
        todo := todo - {id};
      }
      SameDisputes(DisputeValues(), Withdraw(ds, node));
    }

    method DropIfStale(now: int, p: PeerId)
      requires Separate() && p in peers
      modifies this`peers, disputes.Values
      ensures Value() == ConsensusRound.DropIfStale(old(Value()), now, p)
    {
      if now - peers[p].time >= 20 {
        UnVoteAll(p);
        peers := peers - {p};
      }
    }

    method DropStalePeers(now: int) returns (ghost order: seq<PeerId>)
      requires Separate()
      modifies this`peers, disputes.Values
      ensures Walks(order, old(peers.Keys))
      ensures Value() == ConsensusRound.DropStalePeers(old(Value()), now, order)
    {
      order := [];
      var todo := peers.Keys;
      while todo != {}
        invariant todo <= peers.Keys && todo <= old(peers.Keys)
        invariant Walks(order, old(peers.Keys) - todo)
        invariant Value() == ConsensusRound.DropStalePeers(old(Value()), now, order)
        decreases todo
      {
        var p := Pick(todo);
        DropIfStale(now, p);
        WalkOn(order, old(peers.Keys), todo, p);
        order := order + [p];
        todo := todo - {p};
      }
    }

    method ReVoteOne(cur: TransactionSet, converge: real, id: Hash) returns (cur': TransactionSet)
      requires Separate() && id in disputes
      modifies disputes.Values
      ensures (Value(), cur') == ConsensusRound.ReVoteOne(old(Value()), cur, converge, id)
    {
      cur' := cur;
      ghost var ds := DisputeValues();
      var d := disputes[id];
      var changed := d.UpdateVote(converge);
      if changed {
        if d.ourVote { cur' := Insert(cur, d.tx); } else { cur' := Erase(cur, d.tx); }
      }
      SameDisputes(DisputeValues(), ds[id := d.Value()]);
    }

    method ReVote(converge: real) returns (cur: TransactionSet, ghost order: seq<Hash>)
      requires Separate()
      modifies disputes.Values
      ensures Walks(order, disputes.Keys)
      ensures (Value(), cur) == ConsensusRound.ReVote(old(Value()), converge, order)
    {
      cur, order := txns, [];
      var todo := disputes.Keys;
      while todo != {}
        invariant todo <= disputes.Keys && Walks(order, disputes.Keys - todo)
        invariant (Value(), cur) == ConsensusRound.ReVote(old(Value()), converge, order)
        decreases todo
      {
        var id := Pick(todo);
        cur := ReVoteOne(cur, converge, id);
        WalkOn(order, disputes.Keys, todo, id);
        order := order + [id];
        todo := todo - {id};
      }
    }

    method Reposition(cur: TransactionSet, now: int) returns (isNew: bool)
      modifies this`txns, this`proposal, this`acquired
      ensures Value() == ConsensusRound.Reposition(c, old(Value()), cur, now)
      ensures isNew <==> proposal.setId !in old(acquired)
    {
      txns := cur;
      var id := ComputeTxSetMerkleRoot(c.h, c.empty, txns);
      proposal := TxSetProposal(c.self, proposal.seqNo + 1, now, id, prevBlockId, txns);
      isNew := id !in acquired;
      if isNew {
        acquired := acquired[id := CTxSet(txns, id, now)];
      }
    }

    method MoveTo(cur: TransactionSet, now: int) returns (shared: Option<TxSetProposal>, ghost voters: seq<PeerId>)
      requires Separate()
      modifies this, disputes.Values
      ensures Separate() && fresh(disputes.Values - old(disputes.Values))
      ensures MovesToNewSet(c, old(Value()), cur) ==> Walks(voters, old(peers.Keys))
      ensures (Value(), shared) == ConsensusRound.MoveTo(c, old(Value()), cur, now, voters)
    {
      shared, voters := None, [];
      if cur != txns {
        var isNew := Reposition(cur, now);
        shared := Some(proposal);
        if isNew {
          voters := UpdateForPeers(CTxSet(cur, proposal.setId, now));
        }
      }
    }

    method DropStaleSets(now: int)
      modifies this`acquired
      ensures Value() == ConsensusRound.DropStaleSets(old(Value()), now)
    {
      ghost var kept := ConsensusRound.DropStaleSets(Value(), now).acquired;
      var todo := acquired.Keys;
      while todo != {}
        invariant todo <= acquired.Keys && kept.Keys <= acquired.Keys
        invariant forall id :: id in acquired ==> id in old(acquired) && acquired[id] == old(acquired)[id]
        invariant forall id :: id in acquired && id !in todo ==> id in kept
        decreases todo
      {
        var id := Pick(todo);
        if now - acquired[id].time >= 20 {
          acquired := acquired - {id};
        }
        todo := todo - {id};
      }
      assert forall id: Hash :: id in acquired <==> id in kept;
      assert acquired.Keys == kept.Keys;
      assert forall id: Hash :: id in acquired ==> acquired[id] == kept[id];
      assert acquired == kept;
    }

    method UpdateProposals(now: int, converge: real) returns (shared: Option<TxSetProposal>, ghost o: Orders)
      requires Separate()
      modifies this, disputes.Values
      ensures Separate() && fresh(disputes.Values - old(disputes.Values))
      ensures RevisionWalks(c, old(Value()), now, converge, o)
      ensures (Value(), shared) == ConsensusRound.UpdateProposals(c, old(Value()), now, converge, o)
    {
      ghost var stale := DropStalePeers(now);
      DropStaleSets(now);
      var cur, order := ReVote(converge);
      ghost var voters;
      shared, voters := MoveTo(cur, now);
      o := Orders(stale, order, voters);
    }

    method HaveConsensus() returns (b: bool)
      ensures b <==> ConsensusRound.HaveConsensus(c, Value())
    {
      var agree := 0;
      var todo := peers.Keys;
      ghost var seen: set<PeerId> := {};
      while todo != {}
        invariant todo <= peers.Keys && seen == set p | p in peers && p !in todo && peers[p].txSetId == proposal.setId
        invariant agree == |seen|
        decreases todo
      {
        var p := Pick(todo);
        if peers[p].txSetId == proposal.setId {
          agree := agree + 1;
          seen := seen + {p};
        }
        todo := todo - {p};
      }
      assert seen == Agreeing(Value());
      return ((agree + 1) / (|c.unl| + 1)) as real > 0.8;
    }

    /** `onAccept`: the block is built on the position, and the next round starts on top of it. */
    method OnAccept(newBlockId: Hash) returns (block: AcceptedBlock)
      modifies this
      ensures Separate() && disputes.Values == {}
      ensures Value() == ConsensusRound.BeginConsensus(old(Value()).(prevBlockId := newBlockId))
      ensures block == AcceptedBlock(old(prevBlockId), old(txns), old(proposal).setId)
    {
      block := AcceptedBlock(prevBlockId, txns, proposal.setId);
      prevBlockId := newBlockId;
      BeginConsensus();
    }

    method FollowPreferred(preferred: Hash)
      requires Separate()
      modifies this
      ensures Separate() && disputes.Values <= old(disputes.Values)
      ensures Value() == AtPreferred(old(Value()), preferred)
    {
      if preferred != prevBlockId {
        prevBlockId := preferred;
        BeginConsensus();
      }
    }

    /** The branch of the open phase. */
    method Opening(t: Tick) returns (shared: Option<TxSetProposal>, ghost o: Orders)
      requires Separate()
      modifies this
      ensures Separate() && fresh(disputes.Values - old(disputes.Values))
      ensures t.openElapsed ==> Walks(o.peers, old(peers.Keys))
      ensures Outcome(Value(), shared, None) == ConsensusRound.Opening(c, old(Value()), t, o)
    {
      shared, o := None, Orders([], [], []);
      if t.openElapsed {
        phase := Establish;
        var p, order := CloseBlock(t.pool, t.now);
        shared, o := Some(p), Orders(order, [], []);
      }
    }

    /** The branch of the establish phase. */
    method Establishing(t: Tick) returns (shared: Option<TxSetProposal>, block: Option<AcceptedBlock>, ghost o: Orders)
      requires Separate()
      modifies this, disputes.Values
      ensures Separate() && fresh(disputes.Values - old(disputes.Values))
      ensures RevisionWalks(c, old(Value()), t.now, t.converge, o)
      ensures Outcome(Value(), shared, block) == ConsensusRound.Establishing(c, old(Value()), t, o)
    {
      block := None;
      shared, o := UpdateProposals(t.now, t.converge);
      var accepted := HaveConsensus();
      if accepted {
        phase := Accepted;
        var b := OnAccept(t.newBlockId);
        block := Some(b);
      }
    }

    method TimerEntry(t: Tick) returns (shared: Option<TxSetProposal>, block: Option<AcceptedBlock>, ghost o: Orders)
      requires Separate()
      modifies this, disputes.Values
      ensures Separate() && fresh(disputes.Values - old(disputes.Values))
      ensures TickWalks(c, old(Value()), t, o)
      ensures Outcome(Value(), shared, block) == ConsensusRound.TimerEntry(c, old(Value()), t, o)
    {
      shared, block, o := None, None, Orders([], [], []);
      if phase == Accepted { return; }
      FollowPreferred(t.preferred);
      if phase == Open {
        shared, o := Opening(t);
      } else {
        shared, block, o := Establishing(t);
      }
    }
  }
}
