/** One node's consensus round as a value, and what each step does to it (`Consensus`, Consensus.cpp).
    Where the code walks a hash table the order is unspecified, so it is an argument here. */
module ConsensusRound {
  import opened Transactions
  import opened MerkleRoot
  import opened Disputes
  import opened HashTables
  import opened Wrappers

  datatype Phase = Open | Establish | Accepted

  /** A peer's recorded position. */
  datatype CProposal = CProposal(prevBlockId: Hash, txSetId: Hash, time: int, seqNo: nat)

  datatype CTxSet = CTxSet(txs: TransactionSet, setId: Hash, time: int)

  /** A signed broadcast position. */
  datatype TxSetProposal = TxSetProposal(issuer: PeerId, seqNo: nat, time: int, setId: Hash,
                                         previousBlockId: Hash, txs: TransactionSet)

  const NULL_PROPOSAL := TxSetProposal(NULL_HASH, 0, 0, NULL_HASH, NULL_HASH, [])

  /** What a node is configured with. */
  datatype Config = Config(h: NodeHash, empty: Hash, self: PeerId, unl: set<PeerId>)

  datatype Round = Round(
    phase: Phase,
    prevBlockId: Hash,
    txns: TransactionSet,             // result_.txns: the position
    compares: set<Hash>,              // result_.compares
    proposal: TxSetProposal,          // result_.txProposal
    disputes: map<Hash, Dispute>,     // result_.disputes, by transaction id
    peers: map<PeerId, CProposal>,    // currPeerProposals_
    acquired: map<Hash, CTxSet>)      // acquiredSets_

  /** The block a node settles on. */
  datatype AcceptedBlock = AcceptedBlock(previousBlockHash: Hash, txSet: TransactionSet, merkleRoot: Hash)

  datatype Outcome = Outcome(round: Round, shared: Option<TxSetProposal>, block: Option<AcceptedBlock>)

  /** What a timer tick reads from outside: the preferred block, the clocks, the pool, the hash of
      the block it may build; and the orders in which it walks its tables. */
  datatype Tick = Tick(preferred: Hash, now: int, openElapsed: bool, converge: real, pool: seq<Tx>,
                       newBlockId: Hash)
  datatype Orders = Orders(peers: seq<PeerId>, disputes: seq<Hash>, voters: seq<PeerId>)

  // ---- Steps ----

  /** A node as it is constructed. */
  function InitialRound(genesis: Hash): Round {
    Round(Open, genesis, [], {}, NULL_PROPOSAL, map[], map[], map[])
  }

  function BeginConsensus(r: Round): Round {
    r.(phase := Open, txns := [], compares := {}, proposal := NULL_PROPOSAL, disputes := map[],
       peers := map[], acquired := map[])
  }

  /** `ConsensusResult::isSet`. */
  predicate IsSet(r: Round) {
    r.txns != [] && r.proposal.setId != NULL_HASH
  }

  /** The votes a new dispute starts with: one for every peer whose proposed set is known. */
  function KnownVotes(r: Round, tx: Tx): map<PeerId, bool> {
    map p | p in r.peers && r.peers[p].txSetId in r.acquired :: Holds(r.acquired[r.peers[p].txSetId].txs, tx)
  }

  /** A dispute with its counters read off the votes. */
  function Opened(tx: Tx, ourVote: bool, votes: map<PeerId, bool>): Dispute {
    Dispute(tx, ourVote, |Voters(votes, true)|, |Voters(votes, false)|, votes)
  }

  function NewDispute(r: Round, tx: Tx): Dispute {
    Opened(tx, Holds(r.txns, tx), KnownVotes(r, tx))
  }

  function AddDispute(r: Round, tx: Tx): Round {
    if tx.id in r.disputes then r else r.(disputes := r.disputes[tx.id := NewDispute(r, tx)])
  }

  function AddDisputes(r: Round, diff: seq<Tx>): Round {
    if diff == [] then r else AddDispute(AddDisputes(r, diff[..|diff| - 1]), diff[|diff| - 1])
  }

  function CreateDisputes(r: Round, set': CTxSet): Round {
    if set'.setId in r.compares then r
    else
      var r1 := r.(compares := r.compares + {set'.setId});
      if set'.setId == r.proposal.setId then r1
      else AddDisputes(r1, SymmetricDifference(r.txns, set'.txs))
  }

  function VoteOn(ds: map<Hash, Dispute>, node: PeerId, set': CTxSet): map<Hash, Dispute> {
    map id | id in ds :: WithVote(ds[id], node, Holds(set'.txs, ds[id].tx))
  }

  function UpdateDisputes(r: Round, node: PeerId, set': CTxSet): Round {
    var r1 := if set'.setId in r.compares then r else CreateDisputes(r, set');
    r1.(disputes := VoteOn(r1.disputes, node, set'))
  }

  function UpdateForPeer(r: Round, set': CTxSet, p: PeerId): Round {
    if p in r.peers && r.peers[p].txSetId == set'.setId then UpdateDisputes(r, p, set') else r
  }

  /** Record the votes of every peer, in `order`, whose position is `set'`. */
  function UpdateForPeers(r: Round, set': CTxSet, order: seq<PeerId>): Round {
    if order == [] then r else UpdateForPeer(UpdateForPeers(r, set', order[..|order| - 1]), set', order[|order| - 1])
  }

  /** The early returns of `gotTxSet`. */
  predicate Ignores(r: Round, prop: TxSetProposal) {
    r.phase == Accepted || prop.previousBlockId != r.prevBlockId
    || (prop.issuer in r.peers && prop.seqNo <= r.peers[prop.issuer].seqNo)
  }

  /** The issuer's new position, and its set if it is not known yet. */
  function Record(r: Round, prop: TxSetProposal): Round {
    var known := if prop.setId in r.acquired then r.acquired[prop.setId].(time := prop.time)
                 else CTxSet(prop.txs, prop.setId, prop.time);
    r.(peers := r.peers[prop.issuer := CProposal(prop.previousBlockId, prop.setId, prop.time, prop.seqNo)],
       acquired := r.acquired[prop.setId := known])
  }

  function GotTxSet(r: Round, prop: TxSetProposal, order: seq<PeerId>): Round {
    if Ignores(r, prop) then r
    else if prop.setId !in r.acquired && IsSet(r) then
      UpdateForPeers(Record(r, prop), CTxSet(prop.txs, prop.setId, prop.time), order)
    else Record(r, prop)
  }

  function InsertAll(s: TransactionSet, pool: seq<Tx>): TransactionSet {
    if pool == [] then s else Insert(InsertAll(s, pool[..|pool| - 1]), pool[|pool| - 1])
  }

  /** `acquiredSets_.emplace`: keeps an entry that is already there. */
  function Emplace(acquired: map<Hash, CTxSet>, set': CTxSet): map<Hash, CTxSet> {
    if set'.setId in acquired then acquired else acquired[set'.setId := set']
  }

  function CompareWithPeers(r: Round, order: seq<PeerId>): Round {
    if order == [] then r
    else
      var r1, p := CompareWithPeers(r, order[..|order| - 1]), order[|order| - 1];
      if p in r1.peers && r1.peers[p].txSetId in r1.acquired
      then CreateDisputes(r1, r1.acquired[r1.peers[p].txSetId])
      else r1
  }

  /** The proposal of position `txns` at the given time. */
  function Propose(c: Config, r: Round, seqNo: nat, now: int, txns: TransactionSet): TxSetProposal {
    TxSetProposal(c.self, seqNo, now, TxSetId(c.h, c.empty, txns), r.prevBlockId, txns)
  }

  function FixPosition(c: Config, r: Round, pool: seq<Tx>, now: int): Round {
    var txns := InsertAll(r.txns, pool);
    var prop := Propose(c, r, r.proposal.seqNo, now, txns);
    r.(txns := txns, proposal := prop, compares := {}, disputes := map[],
       acquired := Emplace(r.acquired, CTxSet(txns, prop.setId, now)))
  }

  function CloseBlock(c: Config, r: Round, pool: seq<Tx>, now: int, order: seq<PeerId>): Round {
    CompareWithPeers(FixPosition(c, r, pool, now), order)
  }

  predicate Stale(now: int, time: int) {
    now - time >= 20
  }

  function Withdraw(ds: map<Hash, Dispute>, node: PeerId): map<Hash, Dispute> {
    map id | id in ds :: WithoutVote(ds[id], node)
  }

  function DropIfStale(r: Round, now: int, p: PeerId): Round {
    if p in r.peers && Stale(now, r.peers[p].time)
    then r.(disputes := Withdraw(r.disputes, p), peers := r.peers - {p})
    else r
  }

  /** Drop peers, in `order`, whose proposal is stale, together with their votes. */
  function DropStalePeers(r: Round, now: int, order: seq<PeerId>): Round {
    if order == [] then r else DropIfStale(DropStalePeers(r, now, order[..|order| - 1]), now, order[|order| - 1])
  }

  function DropStaleSets(r: Round, now: int): Round {
    r.(acquired := map id | id in r.acquired && !Stale(now, r.acquired[id].time) :: r.acquired[id])
  }

  /** Revise our vote on one dispute; `cur` is the position being built. */
  function ReVoteOne(r: Round, cur: TransactionSet, converge: real, id: Hash): (Round, TransactionSet) {
    if id !in r.disputes then (r, cur)
    else
      var d, vote := r.disputes[id], NewVote(r.disputes[id], converge);
      (r.(disputes := r.disputes[id := d.(ourVote := vote)]),
       if vote == d.ourVote then cur else if vote then Insert(cur, d.tx) else Erase(cur, d.tx))
  }

  function ReVote(r: Round, converge: real, order: seq<Hash>): (Round, TransactionSet) {
    if order == [] then (r, r.txns)
    else
      var (r1, cur) := ReVote(r, converge, order[..|order| - 1]);
      ReVoteOne(r1, cur, converge, order[|order| - 1])
  }

  /** Take `cur` as the position and number the proposal of it. */
  function Reposition(c: Config, r: Round, cur: TransactionSet, now: int): Round {
    var prop := Propose(c, r, r.proposal.seqNo + 1, now, cur);
    r.(txns := cur, proposal := prop, acquired := Emplace(r.acquired, CTxSet(cur, prop.setId, now)))
  }

  /** Share the revised position `cur`, if it is one, and count the peers already there. */
  function MoveTo(c: Config, r: Round, cur: TransactionSet, now: int, voters: seq<PeerId>): (Round,
                  Option<TxSetProposal>) {
    if cur == r.txns then (r, None)
    else
      var r1 := Reposition(c, r, cur, now);
      (if r1.proposal.setId in r.acquired then r1
       else UpdateForPeers(r1, CTxSet(cur, r1.proposal.setId, now), voters),
       Some(r1.proposal))
  }

  function UpdateProposals(c: Config, r: Round, now: int, converge: real, o: Orders): (Round, Option<TxSetProposal>) {
    var r0 := DropStaleSets(DropStalePeers(r, now, o.peers), now);
    var (r1, cur) := ReVote(r0, converge, o.disputes);
    MoveTo(c, r1, cur, now, o.voters)
  }

  function Agreeing(r: Round): set<PeerId> {
    set p | p in r.peers && r.peers[p].txSetId == r.proposal.setId
  }

  /** The quotient is an unsigned integer division, truncated before the comparison. */
  predicate HaveConsensus(c: Config, r: Round) {
    ((|Agreeing(r)| + 1) / (|c.unl| + 1)) as real > 0.8
  }

  /** A changed preferred block starts the round over. */
  function AtPreferred(r: Round, preferred: Hash): Round {
    if preferred != r.prevBlockId then BeginConsensus(r.(prevBlockId := preferred)) else r
  }

  /** A tick in the establish phase. */
  function Establishing(c: Config, r: Round, t: Tick, o: Orders): Outcome {
    var (r1, shared) := UpdateProposals(c, r, t.now, t.converge, o);
    if HaveConsensus(c, r1) then
      Outcome(BeginConsensus(r1.(prevBlockId := t.newBlockId)), shared,
              Some(AcceptedBlock(r1.prevBlockId, r1.txns, r1.proposal.setId)))
    else Outcome(r1, shared, None)
  }

  /** A tick in the open phase. */
  function Opening(c: Config, r: Round, t: Tick, o: Orders): Outcome {
    if t.openElapsed then
      var r1 := CloseBlock(c, r.(phase := Establish), t.pool, t.now, o.peers);
      Outcome(r1, Some(r1.proposal), None)
    else Outcome(r, None, None)
  }

  function TimerEntry(c: Config, r: Round, t: Tick, o: Orders): Outcome {
    if r.phase == Accepted then Outcome(r, None, None)
    else
      var r0 := AtPreferred(r, t.preferred);
      if r0.phase == Open then Opening(c, r0, t, o) else Establishing(c, r0, t, o)
  }

  // ---- The walks that are complete walks over a table ----

  /** The proposal brings a set that its proposers are compared with. */
  predicate Counts(r: Round, prop: TxSetProposal) {
    !Ignores(r, prop) && prop.setId !in r.acquired && IsSet(r)
  }

  predicate MovesToNewSet(c: Config, r: Round, cur: TransactionSet) {
    cur != r.txns && TxSetId(c.h, c.empty, cur) !in r.acquired
  }

  ghost predicate RevisionWalks(c: Config, r: Round, now: int, converge: real, o: Orders) {
    && Walks(o.peers, r.peers.Keys) && Walks(o.disputes, r.disputes.Keys)
    && var (r1, cur) := ReVote(DropStaleSets(DropStalePeers(r, now, o.peers), now), converge, o.disputes);
       MovesToNewSet(c, r1, cur) ==> Walks(o.voters, r1.peers.Keys)
  }

  /** Every walk of a tick meets all of the table it is over. */
  ghost predicate TickWalks(c: Config, r: Round, t: Tick, o: Orders) {
    r.phase == Accepted ||
    var r0 := AtPreferred(r, t.preferred);
    if r0.phase == Open then t.openElapsed ==> Walks(o.peers, r0.peers.Keys)
    else RevisionWalks(c, r0, t.now, t.converge, o)
  }

  // ---- What every step keeps ----

  /** A dispute speaks for its transaction: counters and entries match, only current peers vote, and
      our vote says exactly whether the transaction is in the position. */
  predicate DisputeOk(id: Hash, d: Dispute, txns: TransactionSet, peers: set<PeerId>) {
    && d.tx.id == id
    && Tallied(d)
    && d.votes.Keys <= peers
    && (d.ourVote <==> Holds(txns, d.tx))
    && (d.ourVote ==> d.tx in txns)
  }

  predicate DisputesOk(ds: map<Hash, Dispute>, txns: TransactionSet, peers: set<PeerId>) {
    forall id :: id in ds ==> DisputeOk(id, ds[id], txns, peers)
  }

  /** The state of a node between two method calls. */
  predicate Valid(c: Config, r: Round) {
    && r.phase != Accepted
    && (r.phase == Open ==> r.txns == [] && r.disputes == map[] && r.proposal == NULL_PROPOSAL)
    && (r.phase == Establish ==> r.proposal == Propose(c, r, r.proposal.seqNo, r.proposal.time, r.txns))
    && (forall p :: p in r.peers ==> r.peers[p].prevBlockId == r.prevBlockId)
    && (forall id :: id in r.acquired ==> r.acquired[id].setId == id)
    && DisputesOk(r.disputes, r.txns, r.peers.Keys)
  }

  /** Steps that only touch disputes and comparisons. */
  predicate SamePosition(r: Round, r': Round) {
    r' == r.(disputes := r'.disputes, compares := r'.compares)
  }

  /** Every dispute is still there with the same vote of ours. */
  predicate KeepsVotes(ds: map<Hash, Dispute>, ds': map<Hash, Dispute>) {
    forall id :: id in ds ==> id in ds' && ds'[id].tx == ds[id].tx && ds'[id].ourVote == ds[id].ourVote
  }

  /** What `CreateDisputes` and `UpdateDisputes` guarantee. */
  predicate DisputesOnly(r: Round, r': Round) {
    SamePosition(r, r') && DisputesOk(r'.disputes, r.txns, r.peers.Keys) && KeepsVotes(r.disputes, r'.disputes)
  }

  /** Every dispute that is new is on one of `diff`. */
  predicate OpenedFrom(ds: map<Hash, Dispute>, ds': map<Hash, Dispute>, diff: seq<Tx>) {
    forall id :: id in ds' && id !in ds ==> ds'[id].tx in diff
  }

  /** Disputes on transactions in which the position `a` differs from a set `b`. */
  lemma {:induction false} AddDisputesOk(r: Round, diff: seq<Tx>, a: TransactionSet, b: TransactionSet)
    requires DisputesOk(r.disputes, a, r.peers.Keys) && r.txns == a
    requires forall t :: t in diff ==> t in SymmetricDifference(a, b)
    ensures DisputesOnly(r, AddDisputes(r, diff))
    ensures OpenedFrom(r.disputes, AddDisputes(r, diff).disputes, diff)
    ensures forall t :: t in diff ==> t.id in AddDisputes(r, diff).disputes
  {
    if diff != [] {
      AddDisputesOk(r, diff[..|diff| - 1], a, b);
      var tx := diff[|diff| - 1];
      assert tx in diff && diff == diff[..|diff| - 1] + [tx];
      AddDisputeOk(AddDisputes(r, diff[..|diff| - 1]), tx);
    }
  }

  /** A disputed transaction whose key is in the position is itself in the position. */
  lemma AddDisputeOk(r: Round, tx: Tx)
    requires DisputesOk(r.disputes, r.txns, r.peers.Keys) && (Holds(r.txns, tx) ==> tx in r.txns)
    ensures DisputesOnly(r, AddDispute(r, tx)) && tx.id in AddDispute(r, tx).disputes
  {
    assert DisputeOk(tx.id, NewDispute(r, tx), r.txns, r.peers.Keys);
  }

  /** Comparing with a set seen for the first time disputes everything in which it differs,
      and nothing else is ever disputed. */
  lemma CreateDisputesOk(r: Round, set': CTxSet)
    requires DisputesOk(r.disputes, r.txns, r.peers.Keys)
    ensures DisputesOnly(r, CreateDisputes(r, set'))
    ensures OpenedFrom(r.disputes, CreateDisputes(r, set').disputes, SymmetricDifference(r.txns, set'.txs))
    ensures set'.setId !in r.compares && set'.setId != r.proposal.setId ==>
              forall t :: t in SymmetricDifference(r.txns, set'.txs) ==> t.id in CreateDisputes(r, set').disputes
  {
    AddDisputesOk(r.(compares := r.compares + {set'.setId}), SymmetricDifference(r.txns, set'.txs), r.txns, set'.txs);
  }

  /** `node` has voted on every dispute, by what is in its set. */
  predicate VotedOn(ds: map<Hash, Dispute>, node: PeerId, set': CTxSet) {
    forall id :: id in ds ==> node in ds[id].votes && ds[id].votes[node] == Holds(set'.txs, ds[id].tx)
  }

  lemma VoteOnOk(ds: map<Hash, Dispute>, txns: TransactionSet, peers: set<PeerId>, node: PeerId, set': CTxSet)
    requires DisputesOk(ds, txns, peers) && node in peers
    ensures DisputesOk(VoteOn(ds, node, set'), txns, peers) && KeepsVotes(ds, VoteOn(ds, node, set'))
    ensures VotedOn(VoteOn(ds, node, set'), node, set')
  {
    forall id | id in ds
      ensures SetVoted(id, ds[id], WithVote(ds[id], node, Holds(set'.txs, ds[id].tx)), txns, peers, node, set')
    {
      SetVoteKeepsTally(ds[id], node, Holds(set'.txs, ds[id].tx));
    }
  }

  /** One dispute before and after `node`'s vote. */
  predicate SetVoted(id: Hash, d: Dispute, d': Dispute, txns: TransactionSet, peers: set<PeerId>, node: PeerId,
                     set': CTxSet) {
    DisputeOk(id, d', txns, peers) && d'.tx == d.tx && d'.ourVote == d.ourVote
    && node in d'.votes && d'.votes[node] == Holds(set'.txs, d.tx)
  }

  /** Recording a peer's votes gives every dispute, old or new, the peer's own vote. */
  lemma UpdateDisputesOk(r: Round, node: PeerId, set': CTxSet)
    requires DisputesOk(r.disputes, r.txns, r.peers.Keys) && node in r.peers
    ensures DisputesOnly(r, UpdateDisputes(r, node, set'))
    ensures VotedOn(UpdateDisputes(r, node, set').disputes, node, set')
    ensures OpenedFrom(r.disputes, UpdateDisputes(r, node, set').disputes, SymmetricDifference(r.txns, set'.txs))
    ensures set'.setId !in r.compares && set'.setId != r.proposal.setId ==>
              forall t :: t in SymmetricDifference(r.txns, set'.txs) ==> t.id in UpdateDisputes(r, node, set').disputes
  {
    CreateDisputesOk(r, set');
    var r1 := if set'.setId in r.compares then r else CreateDisputes(r, set');
    VoteOnOk(r1.disputes, r.txns, r.peers.Keys, node, set');
  }

  lemma {:induction false} UpdateForPeersOk(r: Round, set': CTxSet, order: seq<PeerId>)
    requires DisputesOk(r.disputes, r.txns, r.peers.Keys)
    ensures DisputesOnly(r, UpdateForPeers(r, set', order))
  {
    if order != [] {
      UpdateForPeersOk(r, set', order[..|order| - 1]);
      var r1, p := UpdateForPeers(r, set', order[..|order| - 1]), order[|order| - 1];
      if p in r.peers {
        UpdateDisputesOk(r1, p, set');
      }
    }
  }

  lemma {:induction false} CompareWithPeersOk(r: Round, order: seq<PeerId>)
    requires DisputesOk(r.disputes, r.txns, r.peers.Keys)
    ensures DisputesOnly(r, CompareWithPeers(r, order))
  {
    if order != [] {
      CompareWithPeersOk(r, order[..|order| - 1]);
      var r1, p := CompareWithPeers(r, order[..|order| - 1]), order[|order| - 1];
      if p in r.peers && r.peers[p].txSetId in r.acquired {
        CreateDisputesOk(r1, r1.acquired[r1.peers[p].txSetId]);
      }
    }
  }

  lemma GrowingPeers(ds: map<Hash, Dispute>, txns: TransactionSet, peers: set<PeerId>, more: set<PeerId>)
    requires DisputesOk(ds, txns, peers) && peers <= more
    ensures DisputesOk(ds, txns, more)
  {
    forall id | id in ds ensures DisputeOk(id, ds[id], txns, more) {
      assert DisputeOk(id, ds[id], txns, peers);
    }
  }

  /** A received proposal never moves our own position, and leaves a valid round. */
  lemma GotTxSetKeeps(c: Config, r: Round, prop: TxSetProposal, order: seq<PeerId>)
    requires Valid(c, r)
    ensures var r' := GotTxSet(r, prop, order);
      Valid(c, r') && r'.txns == r.txns && r'.proposal == r.proposal && r'.phase == r.phase
      && r'.prevBlockId == r.prevBlockId && KeepsVotes(r.disputes, r'.disputes)
      && (r'.peers == r.peers || (prop.previousBlockId == r.prevBlockId && r'.peers == r.peers[prop.issuer :=
            CProposal(prop.previousBlockId, prop.setId, prop.time, prop.seqNo)]))
      && (prop.issuer in r.peers && r'.peers != r.peers ==> r.peers[prop.issuer].seqNo < prop.seqNo)
  {
    if !Ignores(r, prop) {
      UpdateForPeersOk(Record(r, prop), CTxSet(prop.txs, prop.setId, prop.time), order);
    }
  }

  /** Inserting the pool one by one: nothing else gets in, and every key of the pool does. */
  lemma {:induction false} InsertAllIsPool(s: TransactionSet, pool: seq<Tx>)
    ensures forall t :: t in InsertAll(s, pool) ==> t in s || t in pool
    ensures forall t :: t in s || t in pool ==> Holds(InsertAll(s, pool), t)
  {
    if pool == [] {
      forall t | t in s ensures Holds(s, t) {
        var i :| 0 <= i < |s| && s[i] == t;
      }
    } else {
      var before, tx := InsertAll(s, pool[..|pool| - 1]), pool[|pool| - 1];
      InsertAllIsPool(s, pool[..|pool| - 1]);
      assert pool == pool[..|pool| - 1] + [tx];
      forall t | t in s || t in pool ensures Holds(InsertAll(s, pool), t) {
        StaysHeld(before, tx, t);
      }
    }
  }

  lemma StaysHeld(s: TransactionSet, tx: Tx, t: Tx)
    ensures Holds(s, t) || t == tx ==> Holds(Insert(s, tx), t)
  {
    var r := Insert(s, tx);
    if Holds(s, t) {
      var i :| 0 <= i < |s| && KeyOf(s[i]) == KeyOf(t);
      assert s[i] in r;
      var j :| 0 <= j < |r| && r[j] == s[i];
    } else if t == tx {
      assert tx in r;
      var j :| 0 <= j < |r| && r[j] == tx;
    }
  }

  /** Closing takes the pool, one transaction for each key, as the position, with sequence number zero. */
  lemma CloseBlockOk(c: Config, r: Round, pool: seq<Tx>, now: int, order: seq<PeerId>)
    requires Valid(c, r) && r.phase == Open
    ensures var r' := CloseBlock(c, r.(phase := Establish), pool, now, order);
      Valid(c, r') && r'.phase == Establish && r'.prevBlockId == r.prevBlockId && r'.peers == r.peers
      && r'.proposal.seqNo == 0 && r'.txns == InsertAll([], pool) && Subset(r'.txns, pool)
      && (forall t :: t in pool ==> Holds(r'.txns, t))
      && r'.proposal.txs == r'.txns && r'.proposal.setId == TxSetId(c.h, c.empty, r'.txns)
  {
    CompareWithPeersOk(FixPosition(c, r.(phase := Establish), pool, now), order);
    InsertAllIsPool([], pool);
  }

  /** Whom a walk drops: those it meets whose proposal is stale. */
  predicate Dropped(r: Round, now: int, order: seq<PeerId>, p: PeerId) {
    p in r.peers && p in order && Stale(now, r.peers[p].time)
  }

  /** The same votes but for those of the peers that are gone. */
  predicate VotesWithdrawn(r: Round, r': Round) {
    r'.disputes.Keys == r.disputes.Keys
    && forall id :: id in r.disputes ==>
         r'.disputes[id].tx == r.disputes[id].tx && r'.disputes[id].ourVote == r.disputes[id].ourVote
         && r'.disputes[id].votes == r.disputes[id].votes - (r.peers.Keys - r'.peers.Keys)
  }

  lemma WithdrawOne(votes: map<PeerId, bool>, keys: set<PeerId>, kept: set<PeerId>, p: PeerId)
    requires p in kept && kept <= keys && votes.Keys <= keys
    ensures votes - (keys - kept) - {p} == votes - (keys - (kept - {p}))
    ensures p !in votes - (keys - kept) ==> votes - (keys - kept) == votes - (keys - (kept - {p}))
  {
    assert keys - (kept - {p}) == (keys - kept) + {p};
  }

  /** Exactly the stale peers met on the walk go, with exactly their votes. */
  lemma {:induction false} DropStalePeersOk(r: Round, now: int, order: seq<PeerId>)
    requires DisputesOk(r.disputes, r.txns, r.peers.Keys)
    ensures var r' := DropStalePeers(r, now, order);
      r' == r.(disputes := r'.disputes, peers := r'.peers)
      && DisputesOk(r'.disputes, r.txns, r'.peers.Keys) && KeepsVotes(r.disputes, r'.disputes)
      && (forall p :: p in r'.peers <==> p in r.peers && !Dropped(r, now, order, p))
      && (forall p :: p in r'.peers ==> r'.peers[p] == r.peers[p])
      && VotesWithdrawn(r, r')
  {
    if order == [] {
      assert r.peers.Keys - r.peers.Keys == {};
    } else {
      DropStalePeersOk(r, now, order[..|order| - 1]);
      var r1, p := DropStalePeers(r, now, order[..|order| - 1]), order[|order| - 1];
      assert order == order[..|order| - 1] + [p];
      if p in r1.peers && Stale(now, r1.peers[p].time) {
        assert forall q: PeerId :: q in r1.peers.Keys ==> q in r.peers.Keys;
        DropOneOk(r, r1, p);
      }
    }
  }

  lemma DropOneOk(r: Round, r1: Round, p: PeerId)
    requires DisputesOk(r.disputes, r.txns, r.peers.Keys) && DisputesOk(r1.disputes, r.txns, r1.peers.Keys)
    requires p in r1.peers && r1.peers.Keys <= r.peers.Keys && VotesWithdrawn(r, r1)
    ensures var r' := r1.(disputes := Withdraw(r1.disputes, p), peers := r1.peers - {p});
      DisputesOk(r'.disputes, r.txns, r'.peers.Keys) && VotesWithdrawn(r, r')
  {
    var r' := r1.(disputes := Withdraw(r1.disputes, p), peers := r1.peers - {p});
    forall id | id in r'.disputes
      ensures DisputeOk(id, r'.disputes[id], r.txns, r'.peers.Keys)
      ensures r'.disputes[id].tx == r.disputes[id].tx && r'.disputes[id].ourVote == r.disputes[id].ourVote
      ensures r'.disputes[id].votes == r.disputes[id].votes - (r.peers.Keys - r'.peers.Keys)
    {
      UnVoteKeepsTally(r1.disputes[id], p);
      assert DisputeOk(id, r.disputes[id], r.txns, r.peers.Keys);
      WithdrawOne(r.disputes[id].votes, r.peers.Keys, r1.peers.Keys, p);
      assert r'.peers.Keys == r1.peers.Keys - {p};
    }
  }

  /** The dispute on `t` itself turned from yes to no. */
  predicate Turned(ds: map<Hash, Dispute>, ds': map<Hash, Dispute>, t: Tx) {
    t.id in ds && ds[t.id].tx == t && ds[t.id].ourVote && t.id in ds' && !ds'[t.id].ourVote
  }

  /** The disputes met on the walk turn to no exactly when somebody votes no; nothing else changes. */
  predicate ReVoted(ds: map<Hash, Dispute>, ds': map<Hash, Dispute>, order: seq<Hash>) {
    ds'.Keys == ds.Keys
    && forall id :: id in ds ==>
         ds'[id] == ds[id].(ourVote := ds[id].ourVote && !(id in order && ds[id].nays > 0))
  }

  /** Revising votes only ever takes transactions out: exactly those whose dispute turned to no. */
  lemma {:induction false} ReVoteShrinks(r: Round, converge: real, order: seq<Hash>)
    requires DisputesOk(r.disputes, r.txns, r.peers.Keys)
    ensures var (r', cur) := ReVote(r, converge, order);
      r' == r.(disputes := r'.disputes) && DisputesOk(r'.disputes, cur, r.peers.Keys)
      && Subset(cur, r.txns) && |cur| <= |r.txns| && (|cur| == |r.txns| ==> cur == r.txns)
      && NoStaysNo(r.disputes, r'.disputes) && ReVoted(r.disputes, r'.disputes, order)
      && (forall t :: t in r.txns && t !in cur <==> Turned(r.disputes, r'.disputes, t))
  {
    if order != [] {
      var id := order[|order| - 1];
      ReVoteShrinks(r, converge, order[..|order| - 1]);
      var (r1, cur) := ReVote(r, converge, order[..|order| - 1]);
      ReVoteOneShrinks(r1, cur, converge, id);
      assert order == order[..|order| - 1] + [id];
    }
  }

  /** No dispute is lost, and a no of ours is never taken back. */
  predicate NoStaysNo(ds: map<Hash, Dispute>, ds': map<Hash, Dispute>) {
    forall id :: id in ds ==> id in ds' && ds'[id].tx == ds[id].tx && (ds'[id].ourVote ==> ds[id].ourVote)
  }

  lemma ReVoteOneShrinks(r: Round, cur: TransactionSet, converge: real, id: Hash)
    requires DisputesOk(r.disputes, cur, r.peers.Keys)
    ensures var (r', cur') := ReVoteOne(r, cur, converge, id);
      r' == r.(disputes := r'.disputes) && DisputesOk(r'.disputes, cur', r.peers.Keys)
      && Subset(cur', cur) && |cur'| <= |cur| && (|cur'| == |cur| ==> cur' == cur)
      && NoStaysNo(r.disputes, r'.disputes) && ReVoted(r.disputes, r'.disputes, [id])
      && (forall t :: t in cur && t !in cur' <==> Turned(r.disputes, r'.disputes, t))
  {
    if id in r.disputes {
      var d := r.disputes[id];
      VoteIsUnanimity(d, converge);
      var (r', cur') := ReVoteOne(r, cur, converge, id);
      if NewVote(d, converge) != d.ourVote {
        forall k | k in r'.disputes ensures DisputeOk(k, r'.disputes[k], cur', r.peers.Keys) {
          EraseKeepsOthers(cur, d.tx, r.disputes[k].tx);
        }
        forall t ensures t in cur && t !in cur' <==> t == d.tx {
          EraseKeepsOthers(cur, d.tx, t);
        }
      }
    }
  }

  /** Erasing one element leaves every other element of the set in place. */
  lemma EraseKeepsOthers(s: TransactionSet, t: Tx, u: Tx)
    ensures Holds(Erase(s, t), u) <==> Holds(s, u) && KeyOf(u) != KeyOf(t)
    ensures t in s && u in s && KeyOf(u) == KeyOf(t) ==> t == u
  {
    var r := Erase(s, t);
    if Holds(s, u) && KeyOf(u) != KeyOf(t) {
      var i :| 0 <= i < |s| && KeyOf(s[i]) == KeyOf(u);
      assert s[i] in r;
    }
    if Holds(r, u) {
      var i :| 0 <= i < |r| && KeyOf(r[i]) == KeyOf(u);
      assert r[i] in r;
    }
  }

  /** A revision either leaves the position alone or shares a strictly smaller one. */
  lemma UpdateProposalsShrinks(c: Config, r: Round, now: int, converge: real, o: Orders)
    requires Valid(c, r) && r.phase == Establish
    ensures var (r', shared) := UpdateProposals(c, r, now, converge, o);
      && Valid(c, r') && r'.phase == Establish && r'.prevBlockId == r.prevBlockId
      && Subset(r'.txns, r.txns)
      && (shared == None ==> r'.txns == r.txns && r'.proposal == r.proposal)
      && (shared.Some? ==> shared.value == r'.proposal && r'.proposal.seqNo == r.proposal.seqNo + 1
                           && |r'.txns| < |r.txns|)
      && (forall p :: p in r'.peers <==> p in r.peers && !Dropped(r, now, o.peers, p))
      && (forall p :: p in r'.peers ==> r'.peers[p] == r.peers[p])
      && NoStaysNo(r.disputes, r'.disputes)
      && (forall t :: t in r.txns && t !in r'.txns <==> Turned(r.disputes, r'.disputes, t))
  {
    DropStalePeersOk(r, now, o.peers);
    var r0 := DropStaleSets(DropStalePeers(r, now, o.peers), now);
    ReVoteShrinks(r0, converge, o.disputes);
    var (r1, cur) := ReVote(r0, converge, o.disputes);
    if cur != r1.txns {
      var r2 := Reposition(c, r1, cur, now);
      UpdateForPeersOk(r2, CTxSet(cur, r2.proposal.setId, now), o.voters);
    }
  }

  /** One of `peers` voted no. */
  predicate NoAmong(d: Dispute, peers: set<PeerId>) {
    exists p :: p in d.votes && p in peers && !d.votes[p]
  }

  /** A revision turns a dispute to no exactly when it meets it and a peer that is not dropped voted no. */
  lemma RevisionTurns(c: Config, r: Round, now: int, converge: real, o: Orders)
    requires Valid(c, r) && r.phase == Establish
    ensures var r' := UpdateProposals(c, r, now, converge, o).0;
      forall id :: id in r.disputes ==>
        && id in r'.disputes
        && (r'.disputes[id].ourVote <==>
              r.disputes[id].ourVote && !(id in o.disputes && NoAmong(r.disputes[id], r'.peers.Keys)))
  {
    DropStalePeersOk(r, now, o.peers);
    var r0 := DropStaleSets(DropStalePeers(r, now, o.peers), now);
    ReVoteShrinks(r0, converge, o.disputes);
    var (r1, cur) := ReVote(r0, converge, o.disputes);
    if cur != r1.txns {
      var r2 := Reposition(c, r1, cur, now);
      UpdateForPeersOk(r2, CTxSet(cur, r2.proposal.setId, now), o.voters);
    }
    forall id | id in r.disputes ensures r0.disputes[id].nays > 0 <==> NoAmong(r.disputes[id], r0.peers.Keys) {
      assert DisputeOk(id, r.disputes[id], r.txns, r.peers.Keys);
      assert DisputeOk(id, r0.disputes[id], r.txns, r0.peers.Keys);
      NaysLeft(r.disputes[id], r0.disputes[id], r.peers.Keys, r0.peers.Keys);
    }
  }

  lemma NaysLeft(d: Dispute, d': Dispute, peers: set<PeerId>, kept: set<PeerId>)
    requires Tallied(d') && d.votes.Keys <= peers && d'.votes == d.votes - (peers - kept)
    ensures d'.nays > 0 <==> NoAmong(d, kept)
  {
    var noes := Voters(d'.votes, false);
    if NoAmong(d, kept) {
      var p :| p in d.votes && p in kept && !d.votes[p];
      assert p in noes;
    }
    if noes != {} {
      var p := SomeMember(noes);
      assert p in d'.votes && p in d.votes && p in kept;
    }
  }

  /** As written, the acceptance test asks for as many agreeing peers as the UNL has members. */
  lemma ConsensusIffEnough(c: Config, r: Round)
    ensures HaveConsensus(c, r) <==> |Agreeing(r)| >= |c.unl|
  {
    var a, n := |Agreeing(r)|, |c.unl|;
    if a < n {
      assert (a + 1) / (n + 1) == 0;
    } else {
      assert (a + 1) / (n + 1) >= 1;
    }
  }

  /** When only UNL members are recorded it is unanimity: every one of them is recorded with our own set
      id. */
  lemma ConsensusIsUnanimity(c: Config, r: Round)
    requires r.peers.Keys <= c.unl
    ensures HaveConsensus(c, r) <==>
            forall u :: u in c.unl ==> u in r.peers && r.peers[u].txSetId == r.proposal.setId
  {
    ConsensusIffEnough(c, r);
    SubsetSize(Agreeing(r), c.unl);
    if forall u :: u in c.unl ==> u in r.peers && r.peers[u].txSetId == r.proposal.setId {
      assert Agreeing(r) == c.unl;
    }
  }

  /** Nothing else keeps outsiders from being counted: one of them can stand in for a silent member. */
  lemma OutsidersCount(c: Config, r: Round, member: PeerId, outsider: PeerId)
    requires c.unl == {member} && outsider != member && r.peers.Keys == {outsider}
    requires r.peers[outsider].txSetId == r.proposal.setId
    ensures HaveConsensus(c, r) && member !in r.peers
  {
    ConsensusIffEnough(c, r);
    assert Agreeing(r) == {outsider};
  }

  /** Acceptance in this state means what it should: every UNL member agrees. */
  predicate DecidesByAll(c: Config, r: Round) {
    HaveConsensus(c, r) <==> forall u :: u in c.unl ==> u in r.peers && r.peers[u].txSetId == r.proposal.setId
  }

  /** A round in its establish phase in which all of `keys` but `m` agree, on having nothing left. */
  function AllBut(c: Config, keys: set<PeerId>, m: PeerId): Round {
    var other := if c.empty == 1 then 2 else 1;
    Round(Establish, 1, [], {}, TxSetProposal(c.self, 1, 100, TxSetId(c.h, c.empty, []), 1, []), map[],
          map p | p in keys :: CProposal(1, if p == m then other else c.empty, 100, 0), map[])
  }

  lemma AllButAgree(c: Config, keys: set<PeerId>, m: PeerId)
    ensures Valid(c, AllBut(c, keys, m)) && AllBut(c, keys, m).phase == Establish
    ensures AllBut(c, keys, m).peers.Keys == keys && Agreeing(AllBut(c, keys, m)) == keys - {m}
  {
    assert Ids([]) == [];
  }

  /** Whom a node may have recorded for acceptance to mean unanimity of the UNL, in every valid round that
      asks for it: UNL members only, or too few peers to accept at all, or no UNL to agree with. */
  lemma UnanimityIff(c: Config, keys: set<PeerId>)
    ensures (forall r: Round :: Valid(c, r) && r.phase == Establish && r.peers.Keys == keys ==> DecidesByAll(c, r))
       <==> keys <= c.unl || |keys| < |c.unl| || c.unl == {}
  {
    if keys <= c.unl || |keys| < |c.unl| || c.unl == {} {
      forall r: Round | r.peers.Keys == keys ensures DecidesByAll(c, r) {
        DecidesWhenFew(c, r);
      }
    } else {
      var m := Silent(c.unl, keys);
      var r := AllBut(c, keys, m);
      AllButAgree(c, keys, m);
      ConsensusIffEnough(c, r);
      assert m !in Agreeing(r);
      assert !DecidesByAll(c, r);
    }
  }

  lemma DecidesWhenFew(c: Config, r: Round)
    requires r.peers.Keys <= c.unl || |r.peers.Keys| < |c.unl| || c.unl == {}
    ensures DecidesByAll(c, r)
  {
    ConsensusIffEnough(c, r);
    SubsetSize(Agreeing(r), r.peers.Keys);
    if r.peers.Keys <= c.unl {
      ConsensusIsUnanimity(c, r);
    } else if c.unl != {} && forall u :: u in c.unl ==> u in r.peers && r.peers[u].txSetId == r.proposal.setId {
      assert c.unl <= r.peers.Keys;
      SubsetSize(c.unl, r.peers.Keys);
      assert false;
    }
  }

  /** A member without whom there are enough others. */
  lemma Silent<T>(unl: set<T>, keys: set<T>) returns (m: T)
    requires unl != {} && |keys| >= |unl| && !(keys <= unl)
    ensures m in unl && |keys - {m}| >= |unl|
  {
    if m' :| m' in unl && m' !in keys {
      m := m';
      assert keys - {m} == keys;
    } else {
      m :| m in unl;
      SubsetSize(unl, keys);
      Grow(keys, m);
    }
  }

  /** A proposal on the round's block is recorded, whatever its number, when its issuer is not. */
  lemma UnknownIsRecorded(r: Round, prop: TxSetProposal, order: seq<PeerId>)
    requires r.phase != Accepted && prop.previousBlockId == r.prevBlockId && prop.issuer !in r.peers
    requires DisputesOk(r.disputes, r.txns, r.peers.Keys)
    ensures prop.issuer in GotTxSet(r, prop, order).peers
    ensures GotTxSet(r, prop, order).peers[prop.issuer].seqNo == prop.seqNo
  {
    UpdateForPeersOk(Record(r, prop), CTxSet(prop.txs, prop.setId, prop.time), order);
  }

  /** A peer's recorded number falls, between two steps of the code, exactly when its record was stale at the
      removal and the proposal that came next is older than it. */
  lemma NumberFallsIff(c: Config, r: Round, p: PeerId, now: int, walk: seq<PeerId>, prop: TxSetProposal,
                       order: seq<PeerId>)
    requires Valid(c, r) && p in r.peers && Walks(walk, r.peers.Keys)
    requires prop.issuer == p && prop.previousBlockId == r.prevBlockId
    ensures var r' := GotTxSet(DropStalePeers(r, now, walk), prop, order);
      p in r'.peers
      && (r'.peers[p].seqNo < r.peers[p].seqNo <==> Stale(now, r.peers[p].time) && prop.seqNo < r.peers[p].seqNo)
  {
    FallsIfDropped(c, r, p, now, walk, prop, order);
    WalkMeets(walk, r.peers.Keys, p);
  }

  /** On any walk, complete or not, it takes meeting the peer as well. */
  lemma FallsIfDropped(c: Config, r: Round, p: PeerId, now: int, walk: seq<PeerId>, prop: TxSetProposal,
                       order: seq<PeerId>)
    requires Valid(c, r) && p in r.peers && prop.issuer == p && prop.previousBlockId == r.prevBlockId
    ensures var r' := GotTxSet(DropStalePeers(r, now, walk), prop, order);
      p in r'.peers
      && (r'.peers[p].seqNo < r.peers[p].seqNo <==> Dropped(r, now, walk, p) && prop.seqNo < r.peers[p].seqNo)
  {
    var r1 := DropStalePeers(r, now, walk);
    DropStalePeersOk(r, now, walk);
    if p in r1.peers {
      GotTxSetKeeps(c, r1, prop, order);
    } else {
      UnknownIsRecorded(r1, prop, order);
    }
  }

  /** For instance, with the walk over one peer. */
  lemma NumberCanFall(c: Config, r: Round, p: PeerId, now: int, older: TxSetProposal, order: seq<PeerId>)
    requires Valid(c, r) && p in r.peers && Stale(now, r.peers[p].time)
    requires older.issuer == p && older.previousBlockId == r.prevBlockId && older.seqNo < r.peers[p].seqNo
    ensures var r' := GotTxSet(DropStalePeers(r, now, [p]), older, order);
      p in r'.peers && r'.peers[p].seqNo < r.peers[p].seqNo
  {
    FallsIfDropped(c, r, p, now, [p], older, order);
  }
}
