/** What a round disputes and who has voted how, stated on the positions and sets alone. */
module RoundDisputes {
  import opened Transactions
  import opened MerkleRoot
  import opened Disputes
  import opened HashTables
  import opened ConsensusRound
  import opened Wrappers

  /** `t` is in one of the two sets, and the other holds nothing under its key. */
  predicate Differ(a: TransactionSet, b: TransactionSet, t: Tx) {
    (t in a && !Holds(b, t)) || (t in b && !Holds(a, t))
  }

  ghost predicate DifferIn(a: TransactionSet, b: TransactionSet, id: Hash) {
    exists t: Tx :: t.id == id && Differ(a, b, t)
  }

  /** The set `p` proposed, when it is known. */
  predicate Known(r: Round, p: PeerId) {
    p in r.peers && r.peers[p].txSetId in r.acquired
  }

  function SetOf(r: Round, p: PeerId): TransactionSet
    requires Known(r, p)
  {
    r.acquired[r.peers[p].txSetId].txs
  }

  /** `p` proposed a known set under another id than ours that differs in a transaction with this id. */
  ghost predicate Contests(r: Round, p: PeerId, id: Hash) {
    Known(r, p) && r.peers[p].txSetId != r.proposal.setId && DifferIn(r.txns, SetOf(r, p), id)
  }

  function VoteOf(d: Dispute, p: PeerId): Option<bool> {
    if p in d.votes then Some(d.votes[p]) else None
  }

  /** How the set `p` proposed votes on a transaction, if the set is known. */
  function KnownVote(r: Round, p: PeerId, tx: Tx): Option<bool> {
    if Known(r, p) then Some(Holds(SetOf(r, p), tx)) else None
  }

  ghost predicate OneVoteEach(r: Round, d: Dispute) {
    forall p: PeerId :: VoteOf(d, p) == KnownVote(r, p, d.tx)
  }

  ghost predicate NewVotesKnown(r: Round, ds: map<Hash, Dispute>, ds': map<Hash, Dispute>) {
    forall id :: id in ds' && id !in ds ==> OneVoteEach(r, ds'[id])
  }

  predicate OldStay(ds: map<Hash, Dispute>, ds': map<Hash, Dispute>) {
    forall id :: id in ds ==> id in ds' && ds'[id] == ds[id]
  }

  /** New disputes start with one vote for each peer whose set is known; old ones are left alone. */
  lemma {:induction false} AddDisputesVotes(r: Round, diff: seq<Tx>)
    ensures var r' := AddDisputes(r, diff);
      r' == r.(disputes := r'.disputes) && OldStay(r.disputes, r'.disputes) && NewVotesKnown(r, r.disputes, r'.disputes)
  {
    if diff != [] {
      var r1, tx := AddDisputes(r, diff[..|diff| - 1]), diff[|diff| - 1];
      AddDisputesVotes(r, diff[..|diff| - 1]);
      assert OneVoteEach(r, NewDispute(r1, tx));
    }
  }

  /** The set is compared for the first time, is not our own, and differs in a transaction with this id. */
  ghost predicate NewIn(r: Round, set': CTxSet, id: Hash) {
    set'.setId !in r.compares && set'.setId != r.proposal.setId && DifferIn(r.txns, set'.txs, id)
  }

  /** Which disputes a comparison opens. */
  lemma CreateDisputesExactly(r: Round, set': CTxSet)
    requires DisputesOk(r.disputes, r.txns, r.peers.Keys)
    ensures var r' := CreateDisputes(r, set');
      && r' == r.(disputes := r'.disputes, compares := r.compares + {set'.setId})
      && DisputesOk(r'.disputes, r.txns, r.peers.Keys)
      && OldStay(r.disputes, r'.disputes) && NewVotesKnown(r, r.disputes, r'.disputes)
      && (forall id: Hash :: id in r'.disputes <==> (id in r.disputes || NewIn(r, set', id)))
  {
    var r', diff := CreateDisputes(r, set'), SymmetricDifference(r.txns, set'.txs);
    CreateDisputesOk(r, set');
    AddDisputesVotes(r.(compares := r.compares + {set'.setId}), diff);
    assert forall t: Tx :: t in diff <==> Differ(r.txns, set'.txs, t);
    if set'.setId in r.compares {
      assert r.compares + {set'.setId} == r.compares;
    }
    forall id: Hash | id in r'.disputes && id !in r.disputes ensures DifferIn(r.txns, set'.txs, id) {
      assert DisputeOk(id, r'.disputes[id], r.txns, r.peers.Keys);
      assert r'.disputes[id].tx in diff;
    }
  }

  // ---- Closing ----

  /** Someone met on the walk proposed this known set. */
  predicate Met(r: Round, order: seq<PeerId>, k: Hash) {
    k in r.acquired && exists p :: p in order && p in r.peers && r.peers[p].txSetId == k
  }

  ghost predicate ContestedOn(r: Round, order: seq<PeerId>, id: Hash) {
    exists p :: p in order && Contests(r, p, id)
  }

  /** The state of the comparisons after a walk that started with none. */
  ghost predicate ComparedOn(r: Round, r': Round, order: seq<PeerId>) {
    && SamePosition(r, r') && DisputesOk(r'.disputes, r.txns, r.peers.Keys)
    && (forall k: Hash :: k in r'.compares <==> Met(r, order, k))
    && (forall id: Hash :: id in r'.disputes <==> ContestedOn(r, order, id))
    && (forall id: Hash :: id in r'.disputes ==> OneVoteEach(r, r'.disputes[id]))
  }

  predicate AcquiredOk(r: Round) {
    forall id :: id in r.acquired ==> r.acquired[id].setId == id
  }

  lemma {:induction false} ComparesOn(r: Round, order: seq<PeerId>)
    requires AcquiredOk(r) && r.compares == {} && r.disputes == map[]
    ensures ComparedOn(r, CompareWithPeers(r, order), order)
  {
    if order != [] {
      var n, p := |order| - 1, order[|order| - 1];
      ComparesOn(r, order[..n]);
      assert order == order[..n] + [p];
      ComparesOne(r, CompareWithPeers(r, order[..n]), order[..n], p);
    }
  }

  /** One more peer. */
  lemma ComparesOne(r: Round, r1: Round, order: seq<PeerId>, p: PeerId)
    requires AcquiredOk(r) && ComparedOn(r, r1, order)
    ensures ComparedOn(r, if Known(r, p) then CreateDisputes(r1, r.acquired[r.peers[p].txSetId]) else r1, order + [p])
  {
    if Known(r, p) {
      var set', r2 := r.acquired[r.peers[p].txSetId], CreateDisputes(r1, r.acquired[r.peers[p].txSetId]);
      CreateDisputesExactly(r1, set');
      forall id: Hash | id in r2.disputes ensures OneVoteEach(r, r2.disputes[id]) {
        if id !in r1.disputes {
          SameKnownVotes(r, r1, r2.disputes[id]);
        }
      }
      forall id: Hash ensures id in r2.disputes <==> ContestedOn(r, order + [p], id) {
        ContestedOneMore(r, order, p, id);
        if set'.setId in r1.compares {
          AlreadyContested(r, order, p, id);
        }
      }
      forall k: Hash ensures k in r2.compares <==> Met(r, order + [p], k) {
        MetOneMore(r, order, p, k);
      }
    } else {
      forall id: Hash ensures ContestedOn(r, order + [p], id) <==> ContestedOn(r, order, id) {
        ContestedOneMore(r, order, p, id);
      }
      forall k: Hash ensures Met(r, order + [p], k) <==> Met(r, order, k) {
        MetOneMore(r, order, p, k);
      }
    }
  }

  lemma SameKnownVotes(r: Round, r1: Round, d: Dispute)
    requires SamePosition(r, r1) && OneVoteEach(r1, d)
    ensures OneVoteEach(r, d)
  {
    forall p: PeerId ensures VoteOf(d, p) == KnownVote(r, p, d.tx) {
      assert VoteOf(d, p) == KnownVote(r1, p, d.tx);
    }
  }

  lemma ContestedOneMore(r: Round, order: seq<PeerId>, p: PeerId, id: Hash)
    ensures ContestedOn(r, order + [p], id) <==> ContestedOn(r, order, id) || Contests(r, p, id)
  {
    if Contests(r, p, id) {
      assert p in order + [p];
    }
    if q :| q in order && Contests(r, q, id) {
      assert q in order + [p];
    }
  }

  lemma MetOneMore(r: Round, order: seq<PeerId>, p: PeerId, k: Hash)
    ensures Met(r, order + [p], k) <==> Met(r, order, k) || (Known(r, p) && r.peers[p].txSetId == k)
  {
    if Known(r, p) && r.peers[p].txSetId == k {
      assert p in order + [p];
    }
    if Met(r, order, k) {
      var q :| q in order && q in r.peers && r.peers[q].txSetId == k;
      assert q in order + [p];
    }
  }

  lemma AlreadyContested(r: Round, order: seq<PeerId>, p: PeerId, id: Hash)
    requires Known(r, p) && Met(r, order, r.peers[p].txSetId)
    ensures Contests(r, p, id) ==> ContestedOn(r, order, id)
  {
    var q :| q in order && q in r.peers && r.peers[q].txSetId == r.peers[p].txSetId;
    assert Contests(r, p, id) ==> Contests(r, q, id);
  }

  /** Closing disputes an id exactly when some recorded peer proposed a known set, under another set id, that
      differs from the new position in a transaction with that id; and each dispute starts with one vote for
      each peer whose set is known: whether that set holds the transaction. */
  lemma CloseDisputes(c: Config, r: Round, pool: seq<Tx>, now: int, order: seq<PeerId>)
    requires Valid(c, r) && r.phase == Open && Walks(order, r.peers.Keys)
    ensures var r' := CloseBlock(c, r.(phase := Establish), pool, now, order);
      && (forall id: Hash :: id in r'.disputes <==> exists p: PeerId :: Contests(r', p, id))
      && (forall id: Hash :: id in r'.disputes ==> OneVoteEach(r', r'.disputes[id]))
  {
    var r0 := FixPosition(c, r.(phase := Establish), pool, now);
    var r' := CompareWithPeers(r0, order);
    ComparesOn(r0, order);
    forall id: Hash ensures id in r'.disputes <==> exists p: PeerId :: Contests(r', p, id) {
      forall p: PeerId ensures Contests(r', p, id) <==> Contests(r0, p, id) && p in order {
        WalkMeets(order, r.peers.Keys, p);
      }
    }
    forall id: Hash | id in r'.disputes ensures OneVoteEach(r', r'.disputes[id]) {
      SameKnownVotes(r', r0, r'.disputes[id]);
    }
  }

  // ---- Receiving a set, and moving to one ----

  predicate Proposes(r: Round, p: PeerId, set': CTxSet) {
    p in r.peers && r.peers[p].txSetId == set'.setId
  }

  predicate ProposedOn(r: Round, order: seq<PeerId>, set': CTxSet) {
    exists p :: p in order && Proposes(r, p, set')
  }

  /** How a dispute was voted on before: an old one by its own votes, a new one by the known sets. */
  function VoteBefore(r: Round, id: Hash, p: PeerId, tx: Tx): Option<bool> {
    if id in r.disputes then VoteOf(r.disputes[id], p) else KnownVote(r, p, tx)
  }

  /** The votes on one dispute after a walk: the set's own proposers met on it vote by the set, all others as
      before. */
  ghost predicate VotesAfter(r: Round, order: seq<PeerId>, set': CTxSet, id: Hash, d: Dispute) {
    forall p: PeerId :: VoteOf(d, p) ==
      if p in order && Proposes(r, p, set') then Some(Holds(set'.txs, d.tx)) else VoteBefore(r, id, p, d.tx)
  }

  /** The state after a walk that records the proposers of `set'`. */
  ghost predicate RecordedOn(r: Round, r': Round, order: seq<PeerId>, set': CTxSet) {
    && DisputesOnly(r, r')
    && (forall k: Hash :: k in r'.compares <==> (k in r.compares || (k == set'.setId && ProposedOn(r, order, set'))))
    && (forall id: Hash :: id in r'.disputes <==>
          (id in r.disputes || (ProposedOn(r, order, set') && NewIn(r, set', id))))
    && (forall id: Hash :: id in r'.disputes ==> VotesAfter(r, order, set', id, r'.disputes[id]))
  }

  lemma {:induction false} RecordsOn(r: Round, set': CTxSet, order: seq<PeerId>)
    requires DisputesOk(r.disputes, r.txns, r.peers.Keys)
    ensures RecordedOn(r, UpdateForPeers(r, set', order), order, set')
  {
    if order != [] {
      var n, p := |order| - 1, order[|order| - 1];
      RecordsOn(r, set', order[..n]);
      assert order == order[..n] + [p];
      RecordsOne(r, UpdateForPeers(r, set', order[..n]), order[..n], set', p);
    }
  }

  lemma ProposedOneMore(r: Round, order: seq<PeerId>, set': CTxSet, p: PeerId)
    ensures ProposedOn(r, order + [p], set') <==> ProposedOn(r, order, set') || Proposes(r, p, set')
  {
    if q :| q in order && Proposes(r, q, set') {
      assert q in order + [p];
    }
    if Proposes(r, p, set') {
      assert p in order + [p];
    }
  }

  lemma RecordsOne(r: Round, r1: Round, order: seq<PeerId>, set': CTxSet, p: PeerId)
    requires RecordedOn(r, r1, order, set')
    ensures RecordedOn(r, UpdateForPeer(r1, set', p), order + [p], set')
  {
    ProposedOneMore(r, order, set', p);
    if Proposes(r, p, set') {
      var mid := CreateDisputes(r1, set');
      BeforeTheVote(r, r1, order, set', mid);
      UpdateDisputesOk(r1, p, set');
      var r2 := UpdateDisputes(r1, p, set');
      assert r2 == mid.(disputes := VoteOn(mid.disputes, p, set'));
      forall id: Hash | id in r2.disputes ensures VotesAfter(r, order + [p], set', id, r2.disputes[id]) {
        VotesOne(r, order, set', id, mid.disputes[id], p);
      }
    } else {
      forall id: Hash | id in r1.disputes ensures VotesAfter(r, order + [p], set', id, r1.disputes[id]) {
        assert VotesAfter(r, order, set', id, r1.disputes[id]);
      }
    }
  }

  /** A dispute about to be voted on: seen to on the walk so far, or newly opened. */
  ghost predicate ReadyFor(r: Round, order: seq<PeerId>, set': CTxSet, id: Hash, d: Dispute) {
    && Tallied(d)
    && (VotesAfter(r, order, set', id, d)
        || (id !in r.disputes && OneVoteEach(r, d) && !ProposedOn(r, order, set')))
  }

  lemma BeforeTheVote(r: Round, r1: Round, order: seq<PeerId>, set': CTxSet, mid: Round)
    requires RecordedOn(r, r1, order, set') && mid == CreateDisputes(r1, set')
    ensures mid == r1.(disputes := mid.disputes, compares := r1.compares + {set'.setId})
    ensures forall id: Hash :: id in mid.disputes <==> (id in r.disputes || NewIn(r, set', id))
    ensures forall id: Hash :: id in mid.disputes ==> ReadyFor(r, order, set', id, mid.disputes[id])
  {
    CreateDisputesExactly(r1, set');
    forall id: Hash | id in mid.disputes ensures ReadyFor(r, order, set', id, mid.disputes[id]) {
      assert DisputeOk(id, mid.disputes[id], r.txns, r.peers.Keys);
      if id in r1.disputes {
        assert VotesAfter(r, order, set', id, r1.disputes[id]);
      } else {
        SameKnownVotes(r, r1, mid.disputes[id]);
      }
    }
  }

  /** One proposer's vote on one dispute. */
  lemma VotesOne(r: Round, order: seq<PeerId>, set': CTxSet, id: Hash, d: Dispute, p: PeerId)
    requires Proposes(r, p, set') && ReadyFor(r, order, set', id, d)
    ensures VotesAfter(r, order + [p], set', id, WithVote(d, p, Holds(set'.txs, d.tx)))
  {
    var d' := WithVote(d, p, Holds(set'.txs, d.tx));
    SetVoteKeepsTally(d, p, Holds(set'.txs, d.tx));
    forall q: PeerId
      ensures VoteOf(d', q) == if q in order + [p] && Proposes(r, q, set') then Some(Holds(set'.txs, d'.tx))
                               else VoteBefore(r, id, q, d'.tx)
    {
      assert q != p ==> VoteOf(d', q) == VoteOf(d, q);
      assert q in order + [p] <==> q in order || q == p;
    }
  }

  /** The vote of `p` on a dispute once a new set has been received, `r'` being the round then. */
  function VoteDue(r: Round, r': Round, set': CTxSet, id: Hash, p: PeerId, tx: Tx): Option<bool> {
    if Proposes(r', p, set') then Some(Holds(set'.txs, tx))
    else if id in r.disputes then VoteOf(r.disputes[id], p)
    else KnownVote(r', p, tx)
  }

  ghost predicate VotesDue(r: Round, r': Round, set': CTxSet, id: Hash, d: Dispute) {
    forall p: PeerId :: VoteOf(d, p) == VoteDue(r, r', set', id, p, d.tx)
  }

  /** What a new set brings to a node that has a position. It is stored with its transactions and its time. If it
      was not compared before and is not our own, everything in which it differs is disputed. Its proposers vote
      by it on every dispute, old or new; the others' votes on old disputes stay, and on new ones are those of
      the sets they proposed. */
  lemma DeliveryDisputes(c: Config, r: Round, prop: TxSetProposal, order: seq<PeerId>)
    requires Valid(c, r) && Counts(r, prop) && Walks(order, Record(r, prop).peers.Keys)
    ensures var r', set' := GotTxSet(r, prop, order), CTxSet(prop.txs, prop.setId, prop.time);
      && r'.acquired == r.acquired[prop.setId := set']
      && (forall id: Hash :: id in r'.disputes <==> (id in r.disputes || NewIn(r, set', id)))
      && (forall id: Hash :: id in r'.disputes ==> VotesDue(r, r', set', id, r'.disputes[id]))
  {
    var rec, set' := Record(r, prop), CTxSet(prop.txs, prop.setId, prop.time);
    var r' := UpdateForPeers(rec, set', order);
    GrowingPeers(r.disputes, r.txns, r.peers.Keys, rec.peers.Keys);
    RecordsOn(rec, set', order);
    WalkMeets(order, rec.peers.Keys, prop.issuer);
    assert Proposes(rec, prop.issuer, set');
    forall id: Hash | id in r'.disputes ensures VotesDue(r, r', set', id, r'.disputes[id]) {
      DueAfterWalk(r, rec, r', order, set', id, r'.disputes[id]);
    }
  }

  lemma DueAfterWalk(r: Round, rec: Round, r': Round, order: seq<PeerId>, set': CTxSet, id: Hash, d: Dispute)
    requires SamePosition(rec, r') && rec.disputes == r.disputes && Walks(order, rec.peers.Keys)
    requires VotesAfter(rec, order, set', id, d)
    ensures VotesDue(r, r', set', id, d)
  {
    forall p: PeerId ensures VoteOf(d, p) == VoteDue(r, r', set', id, p, d.tx) {
      WalkMeets(order, rec.peers.Keys, p);
    }
  }

  /** A known set only gets the new time, and nobody's vote changes. */
  lemma DeliveryOfKnown(r: Round, prop: TxSetProposal, order: seq<PeerId>)
    requires !Ignores(r, prop) && prop.setId in r.acquired
    ensures var r', was := GotTxSet(r, prop, order), r.acquired[prop.setId];
      && r'.acquired == r.acquired[prop.setId := CTxSet(was.txs, was.setId, prop.time)]
      && r'.disputes == r.disputes
  {
  }

  // ---- A revision ----

  /** The sets a node knows after a revision: those it knew that are younger than 20 seconds, as they were, and
      its own new position. */
  ghost predicate SetsAfter(r: Round, r': Round, now: int) {
    forall id: Hash :: id in r'.acquired || id in r.acquired ==>
      if id in r.acquired && now - r.acquired[id].time < 20
      then id in r'.acquired && r'.acquired[id] == r.acquired[id]
      else id in r'.acquired <==> r'.txns != r.txns && id == r'.proposal.setId
  }

  /** The revision moves to a set that was not known. */
  predicate MovesOn(r: Round, r': Round, now: int) {
    var id := r'.proposal.setId;
    r'.txns != r.txns && !(id in r.acquired && now - r.acquired[id].time < 20)
  }

  /** The new position is among the known sets, with its transactions and the time. */
  predicate StoresOwn(r': Round, now: int) {
    var id := r'.proposal.setId;
    id in r'.acquired && r'.acquired[id] == CTxSet(r'.txns, id, now)
  }

  /** The vote of `p` after a revision: none if it is gone; by the new position if that was not known and is its
      own as well; else as before. */
  function VoteRevised(r: Round, r': Round, now: int, id: Hash, p: PeerId): Option<bool>
    requires id in r.disputes
  {
    if p !in r'.peers then None
    else if MovesOn(r, r', now) && r'.peers[p].txSetId == r'.proposal.setId then Some(Holds(r'.txns, r.disputes[id].tx))
    else VoteOf(r.disputes[id], p)
  }

  ghost predicate VotesRevised(r: Round, r': Round, now: int, id: Hash)
    requires id in r.disputes && id in r'.disputes
  {
    forall p: PeerId :: VoteOf(r'.disputes[id], p) == VoteRevised(r, r', now, id, p)
  }

  lemma RevisionMoves(c: Config, r: Round, now: int, converge: real, o: Orders)
    requires Valid(c, r) && r.phase == Establish && RevisionWalks(c, r, now, converge, o)
    ensures var r' := UpdateProposals(c, r, now, converge, o).0;
      && SetsAfter(r, r', now) && (r'.txns != r.txns ==> r'.proposal.time == now)
      && (MovesOn(r, r', now) ==> StoresOwn(r', now))
      && (forall id: Hash :: id in r'.disputes <==> id in r.disputes)
      && (forall id: Hash :: id in r.disputes ==> VotesRevised(r, r', now, id))
  {
    DropStalePeersOk(r, now, o.peers);
    var r0 := DropStaleSets(DropStalePeers(r, now, o.peers), now);
    ReVoteShrinks(r0, converge, o.disputes);
    var (r1, cur) := ReVote(r0, converge, o.disputes);
    var r' := UpdateProposals(c, r, now, converge, o).0;
    assert r0.peers.Keys <= r.peers.Keys by {
      assert forall p: PeerId :: p in r0.peers ==> p in r.peers;
    }
    forall id: Hash | id in r.disputes ensures SameVotesLeft(r, r1, id) {
      LeftAfterDrop(r, r0, r1, id);
    }
    if cur != r1.txns {
      MovedVotes(c, r, r1, cur, now, o.voters, r');
    } else {
      forall id: Hash | id in r.disputes ensures VotesRevised(r, r', now, id) {
        assert SameVotesLeft(r, r1, id);
      }
    }
  }

  /** The votes on a dispute are those from before of the peers still recorded. */
  ghost predicate SameVotesLeft(r: Round, r1: Round, id: Hash)
    requires id in r.disputes
  {
    && id in r1.disputes && r1.disputes[id].tx == r.disputes[id].tx
    && forall p: PeerId :: VoteOf(r1.disputes[id], p) == if p in r1.peers then VoteOf(r.disputes[id], p) else None
  }

  lemma LeftAfterDrop(r: Round, r0: Round, r1: Round, id: Hash)
    requires DisputesOk(r.disputes, r.txns, r.peers.Keys) && VotesWithdrawn(r, r0) && id in r.disputes
    requires r1.disputes.Keys == r0.disputes.Keys && r1.peers == r0.peers && r0.peers.Keys <= r.peers.Keys
    requires id in r1.disputes ==>
               r1.disputes[id].votes == r0.disputes[id].votes && r1.disputes[id].tx == r0.disputes[id].tx
    ensures SameVotesLeft(r, r1, id)
  {
    assert DisputeOk(id, r.disputes[id], r.txns, r.peers.Keys);
  }

  lemma MovedVotes(c: Config, r: Round, r1: Round, cur: TransactionSet, now: int, voters: seq<PeerId>, r': Round)
    requires DisputesOk(r1.disputes, cur, r1.peers.Keys) && r1.disputes.Keys == r.disputes.Keys && cur != r1.txns
    requires r1.txns == r.txns
    requires r1.acquired == map id | id in r.acquired && !Stale(now, r.acquired[id].time) :: r.acquired[id]
    requires forall id: Hash :: id in r.disputes ==> SameVotesLeft(r, r1, id)
    requires MovesToNewSet(c, r1, cur) ==> Walks(voters, r1.peers.Keys)
    requires r' == MoveTo(c, r1, cur, now, voters).0
    ensures SetsAfter(r, r', now) && r'.txns == cur && r'.proposal.time == now
    ensures MovesOn(r, r', now) ==> StoresOwn(r', now)
    ensures forall id: Hash :: id in r'.disputes <==> id in r.disputes
    ensures forall id: Hash :: id in r.disputes ==> VotesRevised(r, r', now, id)
  {
    var r2 := Reposition(c, r1, cur, now);
    var set' := CTxSet(cur, r2.proposal.setId, now);
    RecordsOn(r2, set', voters);
    forall id: Hash | id in r.disputes ensures VotesRevised(r, r', now, id) {
      assert SameVotesLeft(r, r1, id);
      if MovesToNewSet(c, r1, cur) {
        RevisedVotes(r, r2, r', voters, set', now, id);
      }
    }
  }

  lemma RevisedVotes(r: Round, r2: Round, r': Round, voters: seq<PeerId>, set': CTxSet, now: int, id: Hash)
    requires id in r.disputes && SameVotesLeft(r, r2, id) && RecordedOn(r2, r', voters, set')
    requires Walks(voters, r2.peers.Keys) && set' == CTxSet(r2.txns, r2.proposal.setId, now) && MovesOn(r, r', now)
    ensures VotesRevised(r, r', now, id)
  {
    var d := r'.disputes[id];
    assert VotesAfter(r2, voters, set', id, d);
    assert d.tx == r.disputes[id].tx;
    forall p: PeerId ensures VoteOf(d, p) == VoteRevised(r, r', now, id, p) {
      WalkMeets(voters, r2.peers.Keys, p);
    }
  }
}
