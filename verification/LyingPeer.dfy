/** What one lying UNL member can do: make an honest node give up its whole position, and accept it empty. */
module LyingPeer {
  import opened Transactions
  import opened MerkleRoot
  import opened Disputes
  import opened HashTables
  import opened ConsensusRound
  import opened Network
  import opened RoundRuns
  import opened RunsOfTwo
  import opened Wrappers

  // ---- Any established round ----

  /** A proposal of an empty set, which somebody signs under a set id the node has not met. Nobody compares
      the two. */
  predicate IsLie(r: Round, prop: TxSetProposal) {
    prop.txs == [] && Counts(r, prop) && prop.setId !in r.compares && prop.setId != r.proposal.setId
  }

  lemma {:induction false} AddDisputesCompares(r: Round, diff: seq<Tx>)
    ensures AddDisputes(r, diff).compares == r.compares
  {
    if diff != [] {
      AddDisputesCompares(r, diff[..|diff| - 1]);
    }
  }

  /** What a walk has done by way of comparing the position with `set'`, and of voting by its proposers. */
  predicate Compared(r: Round, r': Round, set': CTxSet) {
    && DisputesOnly(r, r') && OpenedFrom(r.disputes, r'.disputes, SymmetricDifference(r.txns, set'.txs))
    && (set'.setId in r'.compares ==>
          forall t :: t in SymmetricDifference(r.txns, set'.txs) ==> t.id in r'.disputes)
  }

  lemma {:induction false} VotesOfWalk(r: Round, set': CTxSet, order: seq<PeerId>, node: PeerId)
    requires DisputesOk(r.disputes, r.txns, r.peers.Keys)
    requires node in r.peers && r.peers[node].txSetId == set'.setId
    requires set'.setId !in r.compares && set'.setId != r.proposal.setId
    ensures var r' := UpdateForPeers(r, set', order);
      && Compared(r, r', set')
      && (node in order ==> set'.setId in r'.compares && VotedOn(r'.disputes, node, set'))
  {
    if order != [] {
      var n, p := |order| - 1, order[|order| - 1];
      VotesOfWalk(r, set', order[..n], node);
      assert order == order[..n] + [p];
      var r1 := UpdateForPeers(r, set', order[..n]);
      if p in r.peers && r.peers[p].txSetId == set'.setId {
        VotesOfOne(r, r1, set', p);
        if p != node && node in order[..n] {
          OthersVotesStay(r1.disputes, r.txns, r.peers.Keys, p, node, set');
        }
      }
    }
  }

  lemma VotesOfOne(r: Round, r1: Round, set': CTxSet, p: PeerId)
    requires Compared(r, r1, set') && p in r.peers && set'.setId != r.proposal.setId
    ensures var r2 := UpdateDisputes(r1, p, set');
      Compared(r, r2, set') && set'.setId in r2.compares && VotedOn(r2.disputes, p, set')
    ensures set'.setId in r1.compares ==> UpdateDisputes(r1, p, set').disputes == VoteOn(r1.disputes, p, set')
  {
    UpdateDisputesOk(r1, p, set');
    AddDisputesCompares(r1.(compares := r1.compares + {set'.setId}), SymmetricDifference(r1.txns, set'.txs));
  }

  lemma OthersVotesStay(ds: map<Hash, Dispute>, txns: TransactionSet, peers: set<PeerId>, p: PeerId, node: PeerId,
                        set': CTxSet)
    requires DisputesOk(ds, txns, peers) && p != node && VotedOn(ds, node, set')
    ensures VotedOn(VoteOn(ds, p, set'), node, set')
  {
    forall id | id in ds
      ensures var d := WithVote(ds[id], p, Holds(set'.txs, ds[id].tx));
        node in d.votes && d.votes[node] == Holds(set'.txs, d.tx)
    {
      SetVoteKeepsTally(ds[id], p, Holds(set'.txs, ds[id].tx));
    }
  }

  /** After the lie everything is disputed, and the liar says no to all of it. */
  lemma LieIsHeard(c: Config, r: Round, prop: TxSetProposal, order: seq<PeerId>)
    requires Valid(c, r) && IsLie(r, prop) && Walks(order, Record(r, prop).peers.Keys)
    ensures var r1 := GotTxSet(r, prop, order);
      && Valid(c, r1) && r1.phase == r.phase && r1.txns == r.txns
      && prop.issuer in r1.peers && r1.peers[prop.issuer].time == prop.time
      && KeepsVotes(r.disputes, r1.disputes) && OpenedFrom(r.disputes, r1.disputes, SymmetricDifference(r.txns, []))
      && (forall t :: t in r.txns ==> t.id in r1.disputes)
      && (forall id :: id in r1.disputes ==>
            prop.issuer in r1.disputes[id].votes && !r1.disputes[id].votes[prop.issuer])
  {
    var set', rec := CTxSet([], prop.setId, prop.time), Record(r, prop);
    GotTxSetKeeps(c, r, prop, order);
    assert GotTxSet(r, prop, order) == UpdateForPeers(rec, set', order);
    WalkMeets(order, rec.peers.Keys, prop.issuer);
    GrowingPeers(r.disputes, r.txns, r.peers.Keys, rec.peers.Keys);
    VotesOfWalk(rec, set', order, prop.issuer);
  }

  /** One lie and the next revision, in any established round: the node keeps exactly those of its
      transactions under whose id another transaction was disputed before; as a rule none. */
  lemma OneLieOneTick(c: Config, r: Round, prop: TxSetProposal, order: seq<PeerId>, now: int, converge: real,
                      o: Orders)
    requires Valid(c, r) && r.phase == Establish && DistinctIds(r.txns)
    requires IsLie(r, prop) && Walks(order, Record(r, prop).peers.Keys)
    requires !Stale(now, prop.time) && RevisionWalks(c, GotTxSet(r, prop, order), now, converge, o)
    ensures var r' := UpdateProposals(c, GotTxSet(r, prop, order), now, converge, o).0;
      forall t :: t in r'.txns <==> t in r.txns && t.id in r.disputes && r.disputes[t.id].tx != t
  {
    var r1 := GotTxSet(r, prop, order);
    LieIsHeard(c, r, prop, order);
    UpdateProposalsShrinks(c, r1, now, converge, o);
    RevisionTurns(c, r1, now, converge, o);
    var r2 := UpdateProposals(c, r1, now, converge, o).0;
    assert prop.issuer in r2.peers;
    forall t | t in r.txns ensures t in r2.txns <==> t.id in r.disputes && r.disputes[t.id].tx != t {
      WalkMeets(o.disputes, r1.disputes.Keys, t.id);
      assert NoAmong(r1.disputes[t.id], r2.peers.Keys);
      OnItself(r, r1, t);
    }
  }

  /** A dispute under the id of a transaction of the position is on that transaction, or it was on another one
      all along. */
  lemma OnItself(r: Round, r1: Round, t: Tx)
    requires DistinctIds(r.txns) && DisputesOk(r1.disputes, r.txns, r1.peers.Keys)
    requires t in r.txns && t.id in r1.disputes
    requires KeepsVotes(r.disputes, r1.disputes) && OpenedFrom(r.disputes, r1.disputes, SymmetricDifference(r.txns, []))
    ensures r1.disputes[t.id].tx != t <==> t.id in r.disputes && r.disputes[t.id].tx != t
    ensures r1.disputes[t.id].tx == t ==> r1.disputes[t.id].ourVote
  {
    var d := r1.disputes[t.id];
    assert DisputeOk(t.id, d, r.txns, r1.peers.Keys);
    if t.id !in r.disputes {
      OneOfId(r.txns, d.tx, t);
    }
    OneHolds(r.txns, t);
  }

  // ---- A node that has just closed, step by step ----

  /** A proposal of an empty set under any set id: nobody compares the two. */
  function Lie(liar: PeerId, q: Stand, seqNo: nat, id: Hash): TxSetProposal {
    TxSetProposal(liar, seqNo, q.now, id, q.prev, [])
  }

  /** After the lie every transaction of the position is disputed and has a no. */
  predicate Doubted(r: Round, q: Stand, liar: PeerId, lie: Hash) {
    && r == ClosedRound(q).(disputes := r.disputes, compares := r.compares,
                            peers := map[liar := CProposal(q.prev, lie, q.now, 0)],
                            acquired := map[q.id := CTxSet(q.txs, q.id, q.now), lie := CTxSet([], lie, q.now)])
    && DisputesOk(r.disputes, q.txs, {liar})
    && forall t :: t in q.txs ==> t.id in r.disputes && r.disputes[t.id].tx == t && r.disputes[t.id].nays > 0
  }

  lemma LieDisputesAll(c: Config, q: Stand, liar: PeerId, lie: Hash)
    requires StandOk(c.h, c.empty, q) && c.self == q.n && lie != q.id
    ensures Doubted(GotTxSet(ClosedRound(q), Lie(liar, q, 0, lie), [liar]), q, liar, lie)
  {
    var set', r := CTxSet([], lie, q.now), Record(ClosedRound(q), Lie(liar, q, 0, lie));
    assert UpdateForPeers(r, set', []) == r && [liar][..0] == [];
    var r' := UpdateForPeers(r, set', [liar]);
    assert r' == UpdateDisputes(r, liar, set');
    UpdateDisputesOk(r, liar, set');
    assert r.peers.Keys == {liar};
    assert SymmetricDifference(q.txs, []) == q.txs;
    forall t | t in q.txs ensures r'.disputes[t.id].tx == t && r'.disputes[t.id].nays > 0 {
      OnItWithNo(q.txs, t, r'.disputes[t.id], liar);
    }
  }

  lemma OnItWithNo(s: TransactionSet, t: Tx, d: Dispute, liar: PeerId)
    requires DistinctIds(s) && t in s && d.tx in s && DisputeOk(t.id, d, s, {liar})
    requires liar in d.votes && !d.votes[liar]
    ensures d.tx == t && d.nays > 0
  {
    OneOfId(s, d.tx, t);
    assert liar in Voters(d.votes, false);
  }

  lemma OneOfId(s: seq<Tx>, t: Tx, u: Tx)
    requires DistinctIds(s) && t in s && u in s && t.id == u.id
    ensures t == u
  {
    var i, j :| 0 <= i < |s| && 0 <= j < |s| && s[i] == t && s[j] == u;
  }

  /** The sets it knows when it has nothing left: those from before, and the empty one. */
  function AcquiredEmpty(empty: Hash, q: Stand, lie: Hash): map<Hash, CTxSet> {
    Emplace(map[q.id := CTxSet(q.txs, q.id, q.now), lie := CTxSet([], lie, q.now)], CTxSet([], empty, q.now + 1))
  }

  /** So the next revision gives all of them up. */
  lemma DoubtedGivesUp(c: Config, r: Round, q: Stand, liar: PeerId, lie: Hash, order: seq<Hash>)
      returns (r': Round)
    requires StandOk(c.h, c.empty, q) && Doubted(r, q, liar, lie) && lie != q.id && lie != c.empty
    requires Walks(order, r.disputes.Keys)
    ensures UpdateProposals(c, r, q.now + 1, 0.0, Orders([liar], order, [liar])) == (r', Some(r'.proposal))
    ensures r' == r.(txns := [], proposal := Propose(c, r, 1, q.now + 1, []), disputes := r'.disputes,
                     acquired := AcquiredEmpty(c.empty, q, lie))
    ensures r'.proposal.setId == c.empty && DisputesOk(r'.disputes, [], {liar})
    ensures RevisionWalks(c, r, q.now + 1, 0.0, Orders([liar], order, [liar]))
  {
    NoneStale(r, q.now + 1, [liar]);
    ReVoteShrinks(r, 0.0, order);
    var (r1, cur) := ReVote(r, 0.0, order);
    forall t | t in q.txs ensures t !in cur {
      WalkMeets(order, r.disputes.Keys, t.id);
      assert DisputeOk(t.id, r.disputes[t.id], q.txs, {liar});
      OneHolds(q.txs, t);
      assert Turned(r.disputes, r1.disputes, t);
    }
    SomeElement(cur);
    assert Ids([]) == [];
    r' := Reposition(c, r1, [], q.now + 1);
    NobodyThere(r', CTxSet([], c.empty, q.now + 1), liar);
  }

  lemma NobodyThere(r: Round, set': CTxSet, p: PeerId)
    requires p in r.peers ==> r.peers[p].txSetId != set'.setId
    ensures UpdateForPeers(r, set', [p]) == r
  {
    assert [p][..0] == [] && UpdateForPeers(r, set', []) == r;
  }

  lemma SomeElement<T>(s: seq<T>)
    ensures s == [] || exists t :: t in s
  {
    if s != [] {
      assert s[0] in s;
    }
  }

  lemma OneHolds(s: seq<Tx>, t: Tx)
    requires t in s
    ensures Holds(s, t)
  {
    var i :| 0 <= i < |s| && s[i] == t;
  }

  /** A walk over fresh records drops nothing. */
  lemma {:induction false} NoneStale(r: Round, now: int, order: seq<PeerId>)
    requires forall p :: p in r.peers ==> !Stale(now, r.peers[p].time)
    requires forall id :: id in r.acquired ==> !Stale(now, r.acquired[id].time)
    ensures DropStalePeers(r, now, order) == r && DropStaleSets(r, now) == r
  {
    var acquired := DropStaleSets(r, now).acquired;
    assert forall id: Hash :: id in acquired <==> id in r.acquired;
    assert acquired.Keys == r.acquired.Keys;
    SameMap(acquired, r.acquired);
    if order != [] {
      NoneStale(r, now, order[..|order| - 1]);
    }
  }

  /** The node's round once it has nothing left, the liar has come over, and `peer` has been heard. */
  function EmptyRound(r: Round, q: Stand, liar: PeerId, peer: PeerId): Round {
    r.(peers := map[liar := CProposal(q.prev, q.id, q.now, 1), peer := CProposal(q.prev, q.id, q.now, 0)])
  }

  lemma HearsBoth(r: Round, q: Stand, liar: PeerId, lie: Hash, p: Stand)
    requires r.phase == Establish && r.prevBlockId == q.prev && lie != q.id
    requires r.peers == map[liar := CProposal(q.prev, lie, q.now, 0)] && p.n != liar
    requires r.acquired == map[q.id := CTxSet(q.txs, q.id, q.now), lie := CTxSet([], lie, q.now)]
    requires p.prev == q.prev && p.now == q.now && p.id == q.id
    ensures GotTxSet(r, ProposalOf(p), []) == r.(peers := r.peers[p.n := CProposal(q.prev, q.id, q.now, 0)])
    ensures !Counts(r, ProposalOf(p))
    ensures GotTxSet(r.(peers := r.peers[p.n := CProposal(q.prev, q.id, q.now, 0)]), Lie(liar, q, 1, q.id), [])
         == EmptyRound(r, q, liar, p.n)
    ensures !Counts(r.(peers := r.peers[p.n := CProposal(q.prev, q.id, q.now, 0)]), Lie(liar, q, 1, q.id))
  {
    var entry := r.acquired[q.id];
    assert entry.(time := q.now) == entry;
    assert r.acquired[q.id := entry] == r.acquired;
    assert r.peers[p.n := CProposal(q.prev, q.id, q.now, 0)][liar := CProposal(q.prev, q.id, q.now, 1)]
        == EmptyRound(r, q, liar, p.n).peers;
  }

  /** From nothing there is nothing to give up. */
  lemma NothingLeft(c: Config, r: Round, now: int, o: Orders) returns (r': Round)
    requires r.txns == [] && DisputesOk(r.disputes, [], r.peers.Keys)
    requires forall p :: p in r.peers ==> !Stale(now, r.peers[p].time)
    requires forall id :: id in r.acquired ==> !Stale(now, r.acquired[id].time)
    requires Walks(o.peers, r.peers.Keys) && Walks(o.disputes, r.disputes.Keys)
    ensures UpdateProposals(c, r, now, 0.0, o) == (r', None) && r' == r.(disputes := r'.disputes)
    ensures RevisionWalks(c, r, now, 0.0, o)
  {
    NoneStale(r, now, o.peers);
    ReVoteShrinks(r, 0.0, o.disputes);
    var (r1, cur) := ReVote(r, 0.0, o.disputes);
    assert cur == [];
    r' := r1;
  }

  /** It accepts having nothing. */
  lemma AcceptsNothing(c: Config, r: Round, q: Stand, liar: PeerId, lie: Hash, peer: PeerId, order: seq<Hash>)
    requires r.phase == Establish && r.prevBlockId == q.prev && r.txns == [] && r.proposal.setId == q.id
    requires r.peers == EmptyRound(r, q, liar, peer).peers && liar != peer && c.unl == {liar, peer}
    requires r.acquired == map[q.id := CTxSet(q.txs, q.id, q.now), lie := CTxSet([], lie, q.now)]
    requires DisputesOk(r.disputes, [], r.peers.Keys) && Walks(order, r.disputes.Keys)
    ensures TimerEntry(c, r, TickAt(q, q.now + 2, false), Orders([liar, peer], order, []))
         == Outcome(InitialRound(q.next), None, Some(AcceptedBlock(q.prev, [], q.id)))
    ensures TickWalks(c, r, TickAt(q, q.now + 2, false), Orders([liar, peer], order, []))
  {
    WalkOfTwo(liar, peer, r.peers.Keys);
    var r1 := NothingLeft(c, r, q.now + 2, Orders([liar, peer], order, []));
    TwoAgree(c, r1, liar, peer);
  }

  lemma WalkOfTwo(a: PeerId, b: PeerId, keys: set<PeerId>)
    requires a != b && keys == {a, b}
    ensures Walks([a, b], keys)
  {
  }

  lemma TwoAgree(c: Config, r: Round, a: PeerId, b: PeerId)
    requires a != b && r.peers.Keys == {a, b} && |c.unl| <= 2
    requires r.peers[a].txSetId == r.peers[b].txSetId == r.proposal.setId
    ensures HaveConsensus(c, r)
  {
    assert Agreeing(r) == {a, b};
    ConsensusIffEnough(c, r);
  }

  lemma TickGivesUp(c: Config, r: Round, q: Stand, liar: PeerId, lie: Hash, order: seq<Hash>)
      returns (r': Round)
    requires StandOk(c.h, c.empty, q) && Doubted(r, q, liar, lie) && lie != q.id && lie != c.empty
    requires Walks(order, r.disputes.Keys) && |c.unl| > 0
    ensures TimerEntry(c, r, TickAt(q, q.now + 1, false), Orders([liar], order, [liar]))
         == Outcome(r', Some(r'.proposal), None)
    ensures TickWalks(c, r, TickAt(q, q.now + 1, false), Orders([liar], order, [liar]))
    ensures GaveUp(c.empty, r', q, liar, lie)
  {
    r' := DoubtedGivesUp(c, r, q, liar, lie, order);
    assert Agreeing(r') == {};
    ConsensusIffEnough(c, r');
  }

  /** Nothing is left of the position. */
  predicate GaveUp(empty: Hash, r: Round, q: Stand, liar: PeerId, lie: Hash) {
    && r.phase == Establish && r.prevBlockId == q.prev && r.txns == [] && r.proposal.setId == empty
    && r.peers == map[liar := CProposal(q.prev, lie, q.now, 0)]
    && r.acquired == AcquiredEmpty(empty, q, lie)
    && DisputesOk(r.disputes, [], r.peers.Keys)
  }

  // ---- The run ----

  /** `b` lists `a` and a liar, `a` lists only `b`. */
  function LiarNet(h: NodeHash, empty: Hash, a: PeerId, b: PeerId, liar: PeerId, genesis: Hash): Net {
    Net(h, empty, genesis, map[a := {b}, b := {a, liar}])
  }

  /** A node that stands on `q` lists a peer who is not honest, and the lie is a set id new to it. */
  ghost predicate LiarAt(net: Net, q: Stand, liar: PeerId, lie: Hash) {
    && StandOk(net.h, net.empty, q) && q.n in net.honest && liar in net.honest[q.n] && liar !in net.honest
    && liar != NULL_HASH && lie != NULL_HASH && lie != q.id && lie != net.empty
  }

  /** `a` and `b` stand on one set, whose id is that of the empty set. */
  ghost predicate LiarScene(net: Net, p: Stand, q: Stand, liar: PeerId, lie: Hash) {
    && LiarAt(net, q, liar, lie) && StandOk(net.h, net.empty, p) && p.n != q.n && p.id == net.empty
    && q == p.(n := q.n, next := q.next) && net.honest == map[p.n := {q.n}, q.n := {p.n, liar}]
  }

  ghost predicate PoolsAre(es: seq<Event>, pool: seq<Tx>) {
    forall e :: e in es && e.Timer? ==> e.tick.pool == pool
  }

  /** A run with these pools and these ticks. */
  ghost predicate Went(net: Net, w: World, es: seq<Event>, w': World, pool: seq<Tx>, times: seq<(PeerId, int)>) {
    Leads(net, w, es, w') && PoolsAre(es, pool) && TickTimes(es) == times
  }

  lemma WentThen(net: Net, w: World, es: seq<Event>, w': World, more: seq<Event>, w'': World, pool: seq<Tx>,
                 times: seq<(PeerId, int)>, later: seq<(PeerId, int)>)
    requires Went(net, w, es, w', pool, times) && Went(net, w', more, w'', pool, later)
    ensures Went(net, w, es + more, w'', pool, times + later)
  {
    Then(net, w, es, w', more, w'');
    TickTimesThen(es, more);
  }

  lemma WentOne(net: Net, w: World, e: Event, w': World, pool: seq<Tx>)
    requires Leads(net, w, [e], w') && (e.Timer? ==> e.tick.pool == pool)
    ensures Went(net, w, [e], w', pool, if e.Timer? then [(e.node, e.tick.now)] else [])
  {
    TickTimesOne(e);
  }

  lemma DeliverStep(net: Net, w: World, n: PeerId, prop: TxSetProposal, order: seq<PeerId>, r': Round, w': World)
    requires Proper(net, w, Deliver(n, prop, prop.txs, order)) && GotTxSet(w.nodes[n], prop, order) == r'
    requires w' == w.(nodes := w.nodes[n := r'])
    ensures Leads(net, w, [Deliver(n, prop, prop.txs, order)], w')
    ensures PoolsAre([Deliver(n, prop, prop.txs, order)], [])
  {
    assert prop.(txs := prop.txs) == prop;
    One(net, w, Deliver(n, prop, prop.txs, order), w');
  }

  /** A tick that neither moves nor closes. */
  lemma TickStep(net: Net, w: World, n: PeerId, t: Tick, o: Orders, out: Outcome, w': World)
    requires n in net.honest && n in w.nodes && DistinctIds(t.pool) && t.pool != [] && !t.openElapsed
    requires TickWalks(ConfigOf(net, n), w.nodes[n], t, o) && TimerEntry(ConfigOf(net, n), w.nodes[n], t, o) == out
    requires w' == Ticked(w, n, out, w.closes)
    ensures Leads(net, w, [Timer(n, t, o)], w')
  {
    One(net, w, Timer(n, t, o), w');
  }

  /** The lie, and the tick that follows from it: whatever the node closed with, it has nothing left. */
  lemma GivesUp(net: Net, w: World, q: Stand, liar: PeerId, lie: Hash)
      returns (es: seq<Event>, w': World, r: Round)
    requires LiarAt(net, q, liar, lie) && q.n in w.nodes && w.nodes[q.n] == ClosedRound(q)
    ensures Went(net, w, es, w', q.txs, [(q.n, q.now + 1)])
    ensures w' == w.(nodes := w.nodes[q.n := r], sent := w.sent + {r.proposal})
    ensures GaveUp(net.empty, r, q, liar, lie)
  {
    var r1 := GotTxSet(ClosedRound(q), Lie(liar, q, 0, lie), [liar]);
    var w1 := w.(nodes := w.nodes[q.n := r1]);
    var e := Deliver(q.n, Lie(liar, q, 0, lie), [], [liar]);
    LieStep(net, w, q, liar, lie);
    var t;
    t, r := GivesUpStep(net, w1, q, liar, lie);
    w' := w.(nodes := w.nodes[q.n := r], sent := w.sent + {r.proposal});
    assert w1.nodes[q.n := r] == w'.nodes;
    WentOne(net, w, e, w1, q.txs);
    WentOne(net, w1, t, w', q.txs);
    WentThen(net, w, [e], w1, [t], w', q.txs, [], [(q.n, q.now + 1)]);
    es := [e] + [t];
  }

  lemma LieStep(net: Net, w: World, q: Stand, liar: PeerId, lie: Hash)
    requires LiarAt(net, q, liar, lie) && q.n in w.nodes && w.nodes[q.n] == ClosedRound(q)
    ensures var r1 := GotTxSet(ClosedRound(q), Lie(liar, q, 0, lie), [liar]);
      && Doubted(r1, q, liar, lie)
      && Leads(net, w, [Deliver(q.n, Lie(liar, q, 0, lie), [], [liar])], w.(nodes := w.nodes[q.n := r1]))
  {
    var first := Lie(liar, q, 0, lie);
    var r1 := GotTxSet(ClosedRound(q), first, [liar]);
    LieDisputesAll(ConfigOf(net, q.n), q, liar, lie);
    assert Record(ClosedRound(q), first).peers.Keys == {liar};
    WalkOfOne(liar);
    DeliverStep(net, w, q.n, first, [liar], r1, w.(nodes := w.nodes[q.n := r1]));
  }

  lemma GivesUpStep(net: Net, w: World, q: Stand, liar: PeerId, lie: Hash) returns (e: Event, r: Round)
    requires LiarAt(net, q, liar, lie) && q.n in w.nodes && Doubted(w.nodes[q.n], q, liar, lie)
    ensures Leads(net, w, [e], w.(nodes := w.nodes[q.n := r], sent := w.sent + {r.proposal}))
    ensures GaveUp(net.empty, r, q, liar, lie)
    ensures e.Timer? && e.node == q.n && e.tick.pool == q.txs && e.tick.now == q.now + 1
  {
    var order := SomeWalk(w.nodes[q.n].disputes.Keys);
    r := TickGivesUp(ConfigOf(net, q.n), w.nodes[q.n], q, liar, lie, order);
    var t, o := TickAt(q, q.now + 1, false), Orders([liar], order, [liar]);
    TickStep(net, w, q.n, t, o, Outcome(r, Some(r.proposal), None),
             w.(nodes := w.nodes[q.n := r], sent := w.sent + {r.proposal}));
    e := Timer(q.n, t, o);
  }

  lemma WalkOfOne(a: PeerId)
    ensures Walks([a], {a})
  {
  }

  /** Two more proposals, and it accepts the empty set. */
  lemma AcceptsEmpty(net: Net, w: World, p: Stand, q: Stand, liar: PeerId, lie: Hash)
      returns (es: seq<Event>, w': World)
    requires LiarScene(net, p, q, liar, lie) && q.n in w.nodes && GaveUp(net.empty, w.nodes[q.n], q, liar, lie)
    requires ProposalOf(p) in w.sent
    ensures Went(net, w, es, w', p.txs, [(q.n, q.now + 2)])
    ensures w' == w.(nodes := w.nodes[q.n := InitialRound(q.next)],
                     accepted := w.accepted + {(q.n, AcceptedBlock(q.prev, [], q.id))})
  {
    var w2 := w.(nodes := w.nodes[q.n := EmptyRound(w.nodes[q.n], q, liar, p.n)]);
    HearsBothStep(net, w, p, q, liar, lie);
    var e := AcceptsEmptyStep(net, w2, w.nodes[q.n], p, q, liar, lie);
    w' := w.(nodes := w.nodes[q.n := InitialRound(q.next)],
             accepted := w.accepted + {(q.n, AcceptedBlock(q.prev, [], q.id))});
    assert w2.nodes[q.n := InitialRound(q.next)] == w'.nodes;
    NoTicks(p, q, liar);
    WentOne(net, w2, e, w', p.txs);
    WentThen(net, w, BothHeard(p, q, liar), w2, [e], w', p.txs, [], [(q.n, q.now + 2)]);
    es := BothHeard(p, q, liar) + [e];
  }

  function BothHeard(p: Stand, q: Stand, liar: PeerId): seq<Event> {
    [Deliver(q.n, ProposalOf(p), p.txs, [])] + [Deliver(q.n, Lie(liar, q, 1, q.id), [], [])]
  }

  lemma NoTicks(p: Stand, q: Stand, liar: PeerId)
    ensures TickTimes(BothHeard(p, q, liar)) == [] && PoolsAre(BothHeard(p, q, liar), p.txs)
  {
    var e, f := Deliver(q.n, ProposalOf(p), p.txs, []), Deliver(q.n, Lie(liar, q, 1, q.id), [], []);
    TickTimesOne(e);
    TickTimesOne(f);
    TickTimesThen([e], [f]);
  }

  lemma HearsBothStep(net: Net, w: World, p: Stand, q: Stand, liar: PeerId, lie: Hash)
    requires LiarScene(net, p, q, liar, lie) && q.n in w.nodes && GaveUp(net.empty, w.nodes[q.n], q, liar, lie)
    requires ProposalOf(p) in w.sent
    ensures Leads(net, w, BothHeard(p, q, liar), w.(nodes := w.nodes[q.n := EmptyRound(w.nodes[q.n], q, liar, p.n)]))
  {
    var r, second := w.nodes[q.n], Lie(liar, q, 1, q.id);
    var r1, r2 := GotTxSet(r, ProposalOf(p), []), EmptyRound(r, q, liar, p.n);
    var w1, w2 := w.(nodes := w.nodes[q.n := r1]), w.(nodes := w.nodes[q.n := r2]);
    HearsBoth(r, q, liar, lie, p);
    DeliverStep(net, w, q.n, ProposalOf(p), [], r1, w1);
    assert w1.nodes[q.n := r2] == w2.nodes;
    DeliverStep(net, w1, q.n, second, [], r2, w2);
    Then(net, w, [Deliver(q.n, ProposalOf(p), p.txs, [])], w1, [Deliver(q.n, second, [], [])], w2);
  }

  lemma AcceptsEmptyStep(net: Net, w: World, r: Round, p: Stand, q: Stand, liar: PeerId, lie: Hash)
      returns (e: Event)
    requires LiarScene(net, p, q, liar, lie) && GaveUp(net.empty, r, q, liar, lie)
    requires q.n in w.nodes && w.nodes[q.n] == EmptyRound(r, q, liar, p.n)
    ensures e.Timer? && e.node == q.n && e.tick.pool == p.txs && e.tick.now == q.now + 2
    ensures Leads(net, w, [e], w.(nodes := w.nodes[q.n := InitialRound(q.next)],
                                  accepted := w.accepted + {(q.n, AcceptedBlock(q.prev, [], q.id))}))
  {
    var r2 := w.nodes[q.n];
    KeepsBooks(r, r2, liar, p.n);
    var order := SomeWalk(r2.disputes.Keys);
    AcceptsNothing(ConfigOf(net, q.n), r2, q, liar, lie, p.n, order);
    var t, o := TickAt(q, q.now + 2, false), Orders([liar, p.n], order, []);
    TickStep(net, w, q.n, t, o, Outcome(InitialRound(q.next), None, Some(AcceptedBlock(q.prev, [], q.id))),
             w.(nodes := w.nodes[q.n := InitialRound(q.next)],
                accepted := w.accepted + {(q.n, AcceptedBlock(q.prev, [], q.id))}));
    e := Timer(q.n, t, o);
  }

  lemma KeepsBooks(r: Round, r': Round, a: PeerId, b: PeerId)
    requires DisputesOk(r.disputes, r.txns, r.peers.Keys) && r.peers.Keys == {a} && r'.peers.Keys == {a, b}
    requires r'.disputes == r.disputes && r'.txns == r.txns
    ensures DisputesOk(r'.disputes, r'.txns, r'.peers.Keys)
  {
    forall id | id in r.disputes ensures DisputeOk(id, r.disputes[id], r.txns, {a, b}) {
      assert DisputeOk(id, r.disputes[id], r.txns, {a});
    }
  }

  /** The other node hears the position both closed with, and accepts it. */
  lemma AcceptsFull(net: Net, w: World, p: Stand, q: Stand, liar: PeerId, lie: Hash)
    requires LiarScene(net, p, q, liar, lie) && p.n in w.nodes && w.nodes[p.n] == ClosedRound(p)
    requires ProposalOf(q) in w.sent
    ensures Leads(net, w, [HearEvent(p, q)] + [AcceptEvent(p, q.n)],
                  w.(nodes := w.nodes[p.n := InitialRound(p.next)], accepted := w.accepted + {(p.n, BlockOf(p))}))
  {
    var w1 := w.(nodes := w.nodes[p.n := HeardRound(p, q.n)]);
    var w2 := w.(nodes := w.nodes[p.n := InitialRound(p.next)], accepted := w.accepted + {(p.n, BlockOf(p))});
    HearStep(net, w, p, q);
    AcceptStep(net, w1, p, q.n);
    assert w1.nodes[p.n := InitialRound(p.next)] == w2.nodes;
    Then(net, w, [HearEvent(p, q)], w1, [AcceptEvent(p, q.n)], w2);
  }

  lemma FullTimes(p: Stand, q: Stand)
    ensures TickTimes([HearEvent(p, q)] + [AcceptEvent(p, q.n)]) == [(p.n, p.now + 1)]
  {
    TickTimesOne(HearEvent(p, q));
    TickTimesOne(AcceptEvent(p, q.n));
    TimesOfTwo(HearEvent(p, q), AcceptEvent(p, q.n));
  }

  /** From the close of both to the acceptance of nothing by one. */
  lemma LiedTo(net: Net, w: World, p: Stand, q: Stand, liar: PeerId, lie: Hash)
      returns (es: seq<Event>, w': World)
    requires LiarScene(net, p, q, liar, lie) && Both(w, p, InitialRound(p.prev), q, InitialRound(q.prev))
    ensures Went(net, w, es, w', p.txs, TimesBefore(p, q))
    ensures p.n in w'.nodes && w'.nodes[p.n] == ClosedRound(p) && ProposalOf(q) in w'.sent
    ensures w'.closes == w.closes + multiset{(p.n, p.prev), (q.n, q.prev)}
    ensures w'.accepted == w.accepted + {(q.n, AcceptedBlock(q.prev, [], q.id))}
  {
    var w1 := With(Announced(w, p, q), p, ClosedRound(p), q, ClosedRound(q));
    CloseWent(net, w, p, q, w1);
    var es1, w2, r := GivesUp(net, w1, q, liar, lie);
    var es2;
    es2, w' := AcceptsEmpty(net, w2, p, q, liar, lie);
    var closed, gaveUp, accepted := [(p.n, p.now), (q.n, q.now)], [(q.n, q.now + 1)], [(q.n, q.now + 2)];
    WentThen(net, w, CloseEvents(p, q), w1, es1, w2, p.txs, closed, gaveUp);
    WentThen(net, w, CloseEvents(p, q) + es1, w2, es2, w', p.txs, closed + gaveUp, accepted);
    es := CloseEvents(p, q) + es1 + es2;
    assert closed + gaveUp + accepted == TimesBefore(p, q);
  }

  lemma CloseWent(net: Net, w: World, p: Stand, q: Stand, w1: World)
    requires p.n in net.honest && q.n in net.honest && p.n != q.n && p.txs == q.txs
    requires StandOk(net.h, net.empty, p) && StandOk(net.h, net.empty, q)
    requires Both(w, p, InitialRound(p.prev), q, InitialRound(q.prev))
    requires w1 == With(Announced(w, p, q), p, ClosedRound(p), q, ClosedRound(q))
    ensures Went(net, w, CloseEvents(p, q), w1, p.txs, [(p.n, p.now), (q.n, q.now)])
  {
    BothClose(net, w, p, q);
    CloseTimes(p, q);
  }

  function TimesBefore(p: Stand, q: Stand): seq<(PeerId, int)> {
    [(p.n, p.now), (q.n, q.now), (q.n, q.now + 1), (q.n, q.now + 2)]
  }

  lemma LiarTimesAdvance(p: Stand, q: Stand)
    requires p.n != q.n
    ensures Advancing(TimesBefore(p, q) + [(p.n, p.now + 1)])
  {
  }

  /** Both closed on one set whose id is that of the empty set; one node is lied to. They accept different
      blocks, after closing once each. */
  lemma EmptiedTwoBlocks(net: Net, p: Stand, q: Stand, liar: PeerId, lie: Hash)
      returns (es: seq<Event>)
    requires LiarScene(net, p, q, liar, lie) && p.prev == net.genesis
    ensures CodeRun(net, es) && PoolsAre(es, p.txs)
    ensures BothAccepted(net, Run(net, es), p.n, q.n, BlockOf(p), AcceptedBlock(p.prev, [], p.id))
    ensures BlockOf(p) != AcceptedBlock(p.prev, [], p.id)
  {
    var es1, w1 := LiedTo(net, Initial(net), p, q, liar, lie);
    AcceptsFull(net, w1, p, q, liar, lie);
    FullTimes(p, q);
    var es2 := [HearEvent(p, q)] + [AcceptEvent(p, q.n)];
    var w2 := w1.(nodes := w1.nodes[p.n := InitialRound(p.next)], accepted := w1.accepted + {(p.n, BlockOf(p))});
    WentThen(net, Initial(net), es1, w1, es2, w2, p.txs, TimesBefore(p, q), [(p.n, p.now + 1)]);
    es := es1 + es2;
    LiarTimesAdvance(p, q);
    FromInitial(net, es);
  }
}
