/** Many nodes and an unreliable network: any run of ticks, deliveries and restarts, and agreement. */
module Network {
  import opened Transactions
  import opened MerkleRoot
  import opened HashTables
  import opened Disputes
  import opened ConsensusRound
  import opened Wrappers

  /** The honest nodes with their UNLs; everyone else may sign and send anything. */
  datatype Net = Net(h: NodeHash, empty: Hash, genesis: Hash, honest: map<PeerId, set<PeerId>>)

  function ConfigOf(net: Net, n: PeerId): Config
    requires n in net.honest
  {
    Config(net.h, net.empty, n, net.honest[n])
  }

  /** The rounds of the honest nodes, everything they ever broadcast, how often each closed a round
      on each previous block, and the blocks they accepted. */
  datatype World = World(nodes: map<PeerId, Round>, sent: set<TxSetProposal>,
                         closes: multiset<(PeerId, Hash)>, accepted: set<(PeerId, AcceptedBlock)>)

  /** `Deliver` hands over a proposal with the transactions `txs` that survived the receiver's own
      checks; delivery may come at any time, in any order, any number of times, or never. */
  datatype Event =
    | Deliver(node: PeerId, prop: TxSetProposal, txs: TransactionSet, order: seq<PeerId>)
    | Timer(node: PeerId, tick: Tick, orders: Orders)
    | Restart(node: PeerId)

  function Initial(net: Net): World {
    World(map n | n in net.honest :: InitialRound(net.genesis), {}, multiset{}, {})
  }

  /** `TxSetProposal::check` */
  predicate Checked(p: TxSetProposal) {
    p.issuer != NULL_HASH && p.time != 0 && p.setId != NULL_HASH && p.previousBlockId != NULL_HASH
  }

  /** Connections carry proposals of UNL members only, what they carry is checked, honest signatures are not
      forged, and a transaction pool is a table by id. */
  predicate Legal(net: Net, w: World, e: Event) {
    && e.node in net.honest && e.node in w.nodes
    && (e.Deliver? ==> e.prop.issuer in net.honest[e.node] && Checked(e.prop)
                       && (e.prop.issuer in net.honest ==> e.prop in w.sent))
    && (e.Timer? ==> DistinctIds(e.tick.pool))
  }

  predicate ClosesRound(r: Round, t: Tick) {
    r.phase != Accepted && t.openElapsed && (r.phase == Open || t.preferred != r.prevBlockId)
  }

  /** What a tick of `n` that has the given outcome leaves. */
  function Ticked(w: World, n: PeerId, out: Outcome, closes: multiset<(PeerId, Hash)>): World {
    World(w.nodes[n := out.round],
          if out.shared.Some? then w.sent + {out.shared.value} else w.sent,
          closes,
          if out.block.Some? then w.accepted + {(n, out.block.value)} else w.accepted)
  }

  function Apply(net: Net, w: World, e: Event): World {
    if !Legal(net, w, e) then w
    else
      var r := w.nodes[e.node];
      match e
      case Deliver(n, prop, txs, order) => w.(nodes := w.nodes[n := GotTxSet(r, prop.(txs := txs), order)])
      case Restart(n) => w.(nodes := w.nodes[n := BeginConsensus(r)])
      case Timer(n, t, o) =>
        var out := TimerEntry(ConfigOf(net, n), r, t, o);
        Ticked(w, n, out, if ClosesRound(r, t) then w.closes + multiset{(n, t.preferred)} else w.closes)
  }

  function Run(net: Net, es: seq<Event>): World {
    if es == [] then Initial(net) else Apply(net, Run(net, es[..|es| - 1]), es[|es| - 1])
  }

  // ---- The invariant of every run ----

  /** Node `q` broadcast a position with set id `id` on top of block `prev`. */
  ghost predicate Broadcast(w: World, q: PeerId, prev: Hash, id: Hash) {
    exists p :: p in w.sent && p.issuer == q && p.previousBlockId == prev && p.setId == id
  }

  ghost predicate NodeOk(net: Net, w: World, n: PeerId)
    requires n in net.honest && n in w.nodes
  {
    var r := w.nodes[n];
    && Valid(ConfigOf(net, n), r)
    && r.peers.Keys <= net.honest[n] && DistinctIds(r.txns)
    && (forall q :: q in r.peers ==> r.peers[q].txSetId != NULL_HASH)
    && forall q :: q in r.peers && q in net.honest ==> Broadcast(w, q, r.prevBlockId, r.peers[q].txSetId)
  }

  /** Everything `n` broadcast on top of `prev`. */
  function Positions(w: World, n: PeerId, prev: Hash): set<TxSetProposal> {
    set p | p in w.sent && p.issuer == n && p.previousBlockId == prev
  }

  /** A later position is a smaller set, by at least one transaction per revision. */
  predicate Revises(p: TxSetProposal, q: TxSetProposal) {
    && (p.seqNo == q.seqNo ==> p == q)
    && (p.seqNo <= q.seqNo ==> Subset(q.txs, p.txs) && |q.txs| + (q.seqNo - p.seqNo) <= |p.txs|)
  }

  ghost predicate Latest(ps: set<TxSetProposal>, p: TxSetProposal) {
    p in ps && forall q :: q in ps ==> q.seqNo <= p.seqNo
  }

  /** What is known of the positions of `n` on `prev`, by the number of rounds it closed there. */
  ghost predicate History(w: World, n: PeerId, prev: Hash)
    requires n in w.nodes
  {
    var ps, r := Positions(w, n, prev), w.nodes[n];
    && (w.closes[(n, prev)] == 0 ==> ps == {})
    && (w.closes[(n, prev)] == 1 ==>
          && (forall p, q :: p in ps && q in ps ==> Revises(p, q))
          && (r.phase == Establish && r.prevBlockId == prev ==>
                Latest(ps, r.proposal) && forall b :: (n, b) in w.accepted ==> b.previousBlockHash != prev)
          && (forall b :: (n, b) in w.accepted && b.previousBlockHash == prev ==>
                exists p :: Latest(ps, p) && p.txs == b.txSet))
    && (r.phase == Establish && r.prevBlockId == prev ==> w.closes[(n, prev)] > 0)
    && (forall b :: (n, b) in w.accepted && b.previousBlockHash == prev ==> w.closes[(n, prev)] > 0)
  }

  /** An accepted block carries the id of its set, no null id if there was a peer to agree with, and every
      honest UNL peer once proposed that id. */
  ghost predicate Endorsed(net: Net, w: World, n: PeerId, b: AcceptedBlock)
    requires n in net.honest
  {
    && b.merkleRoot == TxSetId(net.h, net.empty, b.txSet)
    && (net.honest[n] != {} ==> b.merkleRoot != NULL_HASH)
    && forall u :: u in net.honest[n] && u in net.honest ==> Broadcast(w, u, b.previousBlockHash, b.merkleRoot)
  }

  ghost predicate Inv(net: Net, w: World) {
    && w.nodes.Keys == net.honest.Keys
    && (forall p :: p in w.sent ==> DistinctIds(p.txs) && p.setId == TxSetId(net.h, net.empty, p.txs))
    && (forall n :: n in net.honest ==> NodeOk(net, w, n))
    && (forall n, prev :: n in net.honest ==> History(w, n, prev))
    && (forall n, b :: (n, b) in w.accepted ==> n in net.honest && Endorsed(net, w, n, b))
  }

  /** Changing one node without broadcasting or accepting, when its position stays or is given up. */
  lemma NodeChange(net: Net, w: World, n: PeerId, r': Round)
    requires Inv(net, w) && n in net.honest
    requires r'.phase == Establish ==> r'.phase == w.nodes[n].phase && r'.prevBlockId == w.nodes[n].prevBlockId
                                       && r'.proposal == w.nodes[n].proposal
    requires NodeOk(net, w.(nodes := w.nodes[n := r']), n)
    ensures Inv(net, w.(nodes := w.nodes[n := r']))
  {
    var w' := w.(nodes := w.nodes[n := r']);
    forall m | m in net.honest ensures NodeOk(net, w', m) {
      assert NodeOk(net, w, m);
      assert forall q, prev, id :: Broadcast(w, q, prev, id) ==> Broadcast(w', q, prev, id);
    }
    forall m, prev | m in net.honest ensures History(w', m, prev) {
      assert History(w, m, prev);
      assert Positions(w', m, prev) == Positions(w, m, prev);
    }
    forall m, b | (m, b) in w'.accepted ensures m in net.honest && Endorsed(net, w', m, b) {
      assert Endorsed(net, w, m, b);
      assert forall q, prev, id :: Broadcast(w, q, prev, id) ==> Broadcast(w', q, prev, id);
    }
  }

  lemma DeliverKeeps(net: Net, w: World, n: PeerId, prop: TxSetProposal, txs: TransactionSet, order: seq<PeerId>)
    requires Inv(net, w) && Legal(net, w, Deliver(n, prop, txs, order))
    ensures Inv(net, Apply(net, w, Deliver(n, prop, txs, order)))
  {
    var r := w.nodes[n];
    var r' := GotTxSet(r, prop.(txs := txs), order);
    assert NodeOk(net, w, n);
    GotTxSetKeeps(ConfigOf(net, n), r, prop.(txs := txs), order);
    var w' := w.(nodes := w.nodes[n := r']);
    forall q | q in r'.peers && q in net.honest
      ensures Broadcast(w', q, r'.prevBlockId, r'.peers[q].txSetId)
    {
      if r'.peers != r.peers && q == prop.issuer {
        assert prop in w'.sent;
      } else {
        assert Broadcast(w, q, r.prevBlockId, r.peers[q].txSetId);
      }
    }
    NodeChange(net, w, n, r');
  }

  lemma RestartKeeps(net: Net, w: World, n: PeerId, prev: Hash)
    requires Inv(net, w) && n in net.honest
    ensures Inv(net, w.(nodes := w.nodes[n := BeginConsensus(w.nodes[n].(prevBlockId := prev))]))
  {
    NodeChange(net, w, n, BeginConsensus(w.nodes[n].(prevBlockId := prev)));
  }

  /** Broadcasting one more proposal and moving one node. */
  function Moved(w: World, n: PeerId, r': Round, closed: bool): World {
    World(w.nodes[n := r'], w.sent + {r'.proposal},
          if closed then w.closes + multiset{(n, r'.prevBlockId)} else w.closes, w.accepted)
  }

  lemma MovedKeeps(net: Net, w: World, n: PeerId, r': Round, closed: bool)
    requires Inv(net, w) && n in net.honest
    requires r'.phase == Establish && Valid(ConfigOf(net, n), r') && DistinctIds(r'.txns)
    requires r'.prevBlockId == w.nodes[n].prevBlockId
    requires r'.peers.Keys <= w.nodes[n].peers.Keys && forall p :: p in r'.peers ==> r'.peers[p] == w.nodes[n].peers[p]
    requires !closed ==> w.nodes[n].phase == Establish && Subset(r'.txns, w.nodes[n].txns)
                         && |r'.txns| < |w.nodes[n].txns| && r'.proposal.seqNo == w.nodes[n].proposal.seqNo + 1
    ensures Inv(net, Moved(w, n, r', closed))
  {
    var w' := Moved(w, n, r', closed);
    assert forall q, prev, id :: Broadcast(w, q, prev, id) ==> Broadcast(w', q, prev, id);
    forall m | m in net.honest ensures NodeOk(net, w', m) {
      assert NodeOk(net, w, m);
    }
    forall m, b | (m, b) in w'.accepted ensures m in net.honest && Endorsed(net, w', m, b) {
      assert Endorsed(net, w, m, b);
    }
    forall m, prev | m in net.honest ensures History(w', m, prev) {
      assert History(w, m, prev);
      if m == n && prev == r'.prevBlockId {
        MovedHistory(net, w, n, r', closed);
      } else {
        assert Positions(w', m, prev) == Positions(w, m, prev);
      }
    }
  }

  lemma MovedHistory(net: Net, w: World, n: PeerId, r': Round, closed: bool)
    requires Inv(net, w) && n in net.honest
    requires r'.phase == Establish && Valid(ConfigOf(net, n), r')
    requires r'.prevBlockId == w.nodes[n].prevBlockId
    requires !closed ==> w.nodes[n].phase == Establish && Subset(r'.txns, w.nodes[n].txns)
                         && |r'.txns| < |w.nodes[n].txns| && r'.proposal.seqNo == w.nodes[n].proposal.seqNo + 1
    ensures History(Moved(w, n, r', closed), n, r'.prevBlockId)
  {
    var w', prev, r := Moved(w, n, r', closed), r'.prevBlockId, w.nodes[n];
    var ps, ps' := Positions(w, n, prev), Positions(w', n, prev);
    assert NodeOk(net, w, n) && History(w, n, prev);
    assert ps' == ps + {r'.proposal};
    if w'.closes[(n, prev)] == 1 && !closed {
      forall p, q | p in ps' && q in ps' ensures Revises(p, q) {
        if p in ps && q in ps {
        } else if p in ps {
          assert Revises(p, r.proposal);
        } else if q in ps {
          assert Revises(q, r.proposal);
        }
      }
    }
  }

  /** What consensus says of the peers, in the world it was reached in. */
  lemma EndorsedBlock(net: Net, w: World, n: PeerId, b: AcceptedBlock)
    requires n in net.honest && n in w.nodes && NodeOk(net, w, n) && w.nodes[n].phase == Establish
    requires HaveConsensus(ConfigOf(net, n), w.nodes[n])
    requires b == AcceptedBlock(w.nodes[n].prevBlockId, w.nodes[n].txns, w.nodes[n].proposal.setId)
    ensures Endorsed(net, w, n, b)
  {
    ConsensusIsUnanimity(ConfigOf(net, n), w.nodes[n]);
    if net.honest[n] != {} {
      var u := SomeMember(net.honest[n]);
    }
  }

  lemma AcceptKeeps(net: Net, w: World, n: PeerId, newBlockId: Hash)
    requires Inv(net, w) && n in net.honest && w.nodes[n].phase == Establish
    requires HaveConsensus(ConfigOf(net, n), w.nodes[n])
    ensures var r := w.nodes[n];
      Inv(net, w.(nodes := w.nodes[n := BeginConsensus(r.(prevBlockId := newBlockId))],
                  accepted := w.accepted + {(n, AcceptedBlock(r.prevBlockId, r.txns, r.proposal.setId))}))
  {
    var r := w.nodes[n];
    var b := AcceptedBlock(r.prevBlockId, r.txns, r.proposal.setId);
    assert NodeOk(net, w, n) && History(w, n, r.prevBlockId);
    var w1 := w.(accepted := w.accepted + {(n, b)});
    var r' := BeginConsensus(r.(prevBlockId := newBlockId));
    var w' := w1.(nodes := w.nodes[n := r']);
    assert forall q, prev, id :: Broadcast(w, q, prev, id) ==> Broadcast(w', q, prev, id);
    EndorsedBlock(net, w, n, b);
    forall m, b' | (m, b') in w'.accepted ensures m in net.honest && Endorsed(net, w', m, b') {
      if (m, b') != (n, b) { assert Endorsed(net, w, m, b'); }
    }
    forall m | m in net.honest ensures NodeOk(net, w', m) {
      assert NodeOk(net, w, m);
    }
    forall m, prev | m in net.honest ensures History(w', m, prev) {
      assert History(w, m, prev);
      assert Positions(w', m, prev) == Positions(w, m, prev);
      if m == n && prev == r.prevBlockId && w.closes[(m, prev)] == 1 {
        assert Latest(Positions(w', m, prev), r.proposal);
      }
    }
  }

  lemma EstablishingKeeps(net: Net, w: World, n: PeerId, t: Tick, o: Orders)
    requires Inv(net, w) && n in net.honest && w.nodes[n].phase == Establish
    ensures Inv(net, Ticked(w, n, Establishing(ConfigOf(net, n), w.nodes[n], t, o), w.closes))
  {
    var r, c := w.nodes[n], ConfigOf(net, n);
    var (r1, shared) := UpdateProposals(c, r, t.now, t.converge, o);
    var w1 := if shared.Some? then Moved(w, n, r1, false) else w.(nodes := w.nodes[n := r1]);
    RevisionKeeps(net, w, n, t, o, r1, shared, w1);
    var w' := Ticked(w, n, Establishing(c, r, t, o), w.closes);
    if HaveConsensus(c, r1) {
      AcceptKeeps(net, w1, n, t.newBlockId);
      var r2 := BeginConsensus(r1.(prevBlockId := t.newBlockId));
      assert w1.nodes[n := r2] == w.nodes[n := r2];
      assert w' == w1.(nodes := w1.nodes[n := r2],
                       accepted := w1.accepted + {(n, AcceptedBlock(r1.prevBlockId, r1.txns, r1.proposal.setId))});
    } else {
      assert w' == w1;
    }
  }

  lemma RevisionKeeps(net: Net, w: World, n: PeerId, t: Tick, o: Orders, r1: Round, shared: Option<TxSetProposal>,
                      w1: World)
    requires Inv(net, w) && n in net.honest && w.nodes[n].phase == Establish
    requires (r1, shared) == UpdateProposals(ConfigOf(net, n), w.nodes[n], t.now, t.converge, o)
    requires w1 == if shared.Some? then Moved(w, n, r1, false) else w.(nodes := w.nodes[n := r1])
    ensures Inv(net, w1) && w1.nodes[n] == r1 && r1.phase == Establish
    ensures shared.Some? ==> shared.value == r1.proposal
  {
    var r := w.nodes[n];
    assert NodeOk(net, w, n);
    UpdateProposalsShrinks(ConfigOf(net, n), r, t.now, t.converge, o);
    DrawnFrom(r1.txns, r.txns);
    assert forall q: PeerId :: q in r1.peers.Keys ==> q in r.peers.Keys;
    if shared.Some? {
      MovedKeeps(net, w, n, r1, false);
    } else {
      assert forall q, prev, id :: Broadcast(w, q, prev, id) ==> Broadcast(w1, q, prev, id);
      NodeChange(net, w, n, r1);
    }
  }

  lemma OpeningKeeps(net: Net, w: World, n: PeerId, t: Tick, o: Orders)
    requires Inv(net, w) && n in net.honest && w.nodes[n].phase == Open && DistinctIds(t.pool)
    ensures var closes := if t.openElapsed then w.closes + multiset{(n, w.nodes[n].prevBlockId)} else w.closes;
      Inv(net, Ticked(w, n, Opening(ConfigOf(net, n), w.nodes[n], t, o), closes))
  {
    var r, c := w.nodes[n], ConfigOf(net, n);
    assert NodeOk(net, w, n);
    if t.openElapsed {
      var r1 := CloseBlock(c, r.(phase := Establish), t.pool, t.now, o.peers);
      CloseBlockOk(c, r, t.pool, t.now, o.peers);
      DrawnFrom(r1.txns, t.pool);
      MovedKeeps(net, w, n, r1, true);
    } else {
      assert w.nodes[n := r] == w.nodes;
    }
  }

  lemma TimerKeeps(net: Net, w: World, n: PeerId, t: Tick, o: Orders)
    requires Inv(net, w) && Legal(net, w, Timer(n, t, o))
    ensures Inv(net, Apply(net, w, Timer(n, t, o)))
  {
    var r := w.nodes[n];
    assert NodeOk(net, w, n);
    var w0 := w.(nodes := w.nodes[n := AtPreferred(r, t.preferred)]);
    if t.preferred != r.prevBlockId {
      RestartKeeps(net, w, n, t.preferred);
    } else {
      assert w0.nodes == w.nodes;
    }
    if w0.nodes[n].phase == Open {
      OpeningKeeps(net, w0, n, t, o);
    } else {
      EstablishingKeeps(net, w0, n, t, o);
    }
    AppliedTick(net, w, w0, n, t, o);
  }

  lemma AppliedTick(net: Net, w: World, w0: World, n: PeerId, t: Tick, o: Orders)
    requires Legal(net, w, Timer(n, t, o)) && w.nodes[n].phase != Accepted
    requires w0 == w.(nodes := w.nodes[n := AtPreferred(w.nodes[n], t.preferred)])
    ensures var r, c := w0.nodes[n], ConfigOf(net, n);
      Apply(net, w, Timer(n, t, o)) ==
      Ticked(w0, n, if r.phase == Open then Opening(c, r, t, o) else Establishing(c, r, t, o),
             if r.phase == Open && t.openElapsed then w.closes + multiset{(n, r.prevBlockId)} else w.closes)
  {
    var r' := TimerEntry(ConfigOf(net, n), w.nodes[n], t, o).round;
    assert w0.nodes[n := r'] == w.nodes[n := r'];
  }

  /** One event keeps the invariant. */
  lemma ApplyKeeps(net: Net, w: World, e: Event)
    requires Inv(net, w)
    ensures Inv(net, Apply(net, w, e))
  {
    if Legal(net, w, e) {
      match e
      case Deliver(n, prop, txs, order) => DeliverKeeps(net, w, n, prop, txs, order);
      case Restart(n) =>
        RestartKeeps(net, w, n, w.nodes[n].prevBlockId);
        assert w.nodes[n].(prevBlockId := w.nodes[n].prevBlockId) == w.nodes[n];
      case Timer(n, t, o) => TimerKeeps(net, w, n, t, o);
    }
  }

  lemma {:induction false} RunInv(net: Net, es: seq<Event>)
    ensures Inv(net, Run(net, es))
  {
    if es == [] {
      var w := Initial(net);
      forall n, prev | n in net.honest ensures History(w, n, prev) {
        assert Positions(w, n, prev) == {};
      }
    } else {
      RunInv(net, es[..|es| - 1]);
      ApplyKeeps(net, Run(net, es[..|es| - 1]), es[|es| - 1]);
    }
  }

  // ---- Agreement ----

  /** Positions broadcast by `a` or `b` over different lists of ids came out under one set id, and SHA-512
      itself failed, on hashes these nodes computed. */
  ghost predicate HashFailure(net: Net, w: World, a: PeerId, b: PeerId, prev: Hash) {
    exists p, q :: Confused(w, a, b, prev, p, q) && Collision(net.h, net.empty, Ids(p.txs), Ids(q.txs))
  }

  /** Or a transaction in one of them has an id that is an inner hash or the hash of the empty string. No hash
      need have failed then. */
  ghost predicate IdIsHash(net: Net, w: World, a: PeerId, b: PeerId, prev: Hash) {
    exists p, q :: Confused(w, a, b, prev, p, q) && LeafClash(net.h, net.empty, Ids(p.txs), Ids(q.txs))
  }

  /** Two positions of `a` or `b` with one set id over different lists of transaction ids. */
  ghost predicate Confused(w: World, a: PeerId, b: PeerId, prev: Hash, p: TxSetProposal, q: TxSetProposal) {
    && p in Positions(w, a, prev) + Positions(w, b, prev) && q in Positions(w, a, prev) + Positions(w, b, prev)
    && p.setId == q.setId && Ids(p.txs) != Ids(q.txs)
  }

  /** The two ways in which set ids may fail to tell lists of ids apart. */
  ghost predicate RootsFail(net: Net, w: World, a: PeerId, b: PeerId, prev: Hash) {
    HashFailure(net, w, a, b, prev) || IdIsHash(net, w, a, b, prev)
  }

  /** Equal set ids mean equal lists of transaction ids. */
  lemma SameIdSameIds(net: Net, w: World, a: PeerId, b: PeerId, prev: Hash, p: TxSetProposal, q: TxSetProposal)
    requires Inv(net, w) && p in Positions(w, a, prev) && q in Positions(w, b, prev) && p.setId == q.setId
    ensures Ids(p.txs) == Ids(q.txs) || HashFailure(net, w, a, b, prev) || IdIsHash(net, w, a, b, prev)
  {
    if Ids(p.txs) != Ids(q.txs) {
      TxSetIdInjective(net.h, net.empty, p.txs, q.txs);
      assert Confused(w, a, b, prev, p, q);
    }
  }

  /** `a` and `b` accepted `x` and `y` on top of one block, on which each closed one round. */
  ghost predicate BothAccepted(net: Net, w: World, a: PeerId, b: PeerId, x: AcceptedBlock, y: AcceptedBlock) {
    && a in net.honest && b in net.honest && b in net.honest[a] && a in net.honest[b]
    && (a, x) in w.accepted && (b, y) in w.accepted
    && x.previousBlockHash == y.previousBlockHash
    && w.closes[(a, x.previousBlockHash)] <= 1 && w.closes[(b, x.previousBlockHash)] <= 1
  }

  /** `b` moved down from `q` to `y`; if nothing was lost, it did not move. */
  predicate DownTo(q: TransactionSet, y: TransactionSet) {
    Subset(y, q) && |y| <= |q| && (|y| == |q| ==> y == q)
  }

  /** What `a` accepted, `b` once proposed under the same set id; and `b` only ever moved down from there. */
  lemma AcceptedWasProposed(net: Net, w: World, a: PeerId, b: PeerId, x: AcceptedBlock, y: AcceptedBlock)
      returns (p: TxSetProposal, q: TxSetProposal)
    requires Inv(net, w) && BothAccepted(net, w, a, b, x, y)
    ensures p in Positions(w, a, x.previousBlockHash) && p.txs == x.txSet
    ensures q in Positions(w, b, x.previousBlockHash) && DownTo(q.txs, y.txSet)
    ensures p.setId == q.setId == x.merkleRoot != NULL_HASH
  {
    var prev := x.previousBlockHash;
    assert Endorsed(net, w, a, x) && History(w, a, prev) && History(w, b, prev);
    p :| Latest(Positions(w, a, prev), p) && p.txs == x.txSet;
    assert Broadcast(w, b, prev, x.merkleRoot);
    q :| q in w.sent && q.issuer == b && q.previousBlockId == prev && q.setId == x.merkleRoot;
    var last :| Latest(Positions(w, b, prev), last) && last.txs == y.txSet;
    assert q in Positions(w, b, prev);
    assert Revises(q, last);
  }

  /** So it had the same ids, unless set ids do not tell them apart. */
  lemma AcceptedIsContained(net: Net, w: World, a: PeerId, b: PeerId, x: AcceptedBlock, y: AcceptedBlock)
    requires Inv(net, w) && BothAccepted(net, w, a, b, x, y)
    ensures || RootsFail(net, w, a, b, x.previousBlockHash)
            || exists q :: q in Positions(w, b, x.previousBlockHash) && q.setId == x.merkleRoot
                           && Ids(q.txs) == Ids(x.txSet) && DownTo(q.txs, y.txSet)
  {
    var p, q := AcceptedWasProposed(net, w, a, b, x, y);
    SameIdSameIds(net, w, a, b, x.previousBlockHash, p, q);
  }

  lemma FailureIsSymmetric(net: Net, w: World, a: PeerId, b: PeerId, prev: Hash)
    ensures RootsFail(net, w, a, b, prev) ==> RootsFail(net, w, b, a, prev)
  {
    assert forall p, q :: Confused(w, a, b, prev, p, q) ==> Confused(w, b, a, prev, p, q);
  }

  /** Two honest nodes on each other's UNL that each closed one round on a block and both accepted a
      successor accepted, in any run, the same set id over the same ids in the same order, unless the hash
      failed or an id is one of the hashes over ids. */
  lemma Agreement(net: Net, es: seq<Event>, a: PeerId, b: PeerId, x: AcceptedBlock, y: AcceptedBlock)
    requires BothAccepted(net, Run(net, es), a, b, x, y)
    ensures || HashFailure(net, Run(net, es), a, b, x.previousBlockHash)
            || IdIsHash(net, Run(net, es), a, b, x.previousBlockHash)
            || (x.merkleRoot == y.merkleRoot && Ids(x.txSet) == Ids(y.txSet))
  {
    var w := Run(net, es);
    RunInv(net, es);
    AcceptedIsContained(net, w, a, b, x, y);
    AcceptedIsContained(net, w, b, a, y, x);
    FailureIsSymmetric(net, w, b, a, x.previousBlockHash);
    assert Endorsed(net, w, a, x) && Endorsed(net, w, b, y);
    if !RootsFail(net, w, a, b, x.previousBlockHash) {
      assert |Ids(x.txSet)| == |x.txSet| && |Ids(y.txSet)| == |y.txSet|;
    }
  }

  /** They accepted the same block exactly when no id stands for two transactions in their sets. Nothing in
      the node sees to that, nor to an id being no inner hash: a receiver takes an id as it was sent. */
  lemma AgreementIff(net: Net, es: seq<Event>, a: PeerId, b: PeerId, x: AcceptedBlock, y: AcceptedBlock)
    requires BothAccepted(net, Run(net, es), a, b, x, y)
    ensures || HashFailure(net, Run(net, es), a, b, x.previousBlockHash)
            || IdIsHash(net, Run(net, es), a, b, x.previousBlockHash)
            || (x == y <==> OneTxPerId(x.txSet, y.txSet))
  {
    Agreement(net, es, a, b, x, y);
    RunInv(net, es);
    if !RootsFail(net, Run(net, es), a, b, x.previousBlockHash) {
      AcceptedDistinct(net, Run(net, es), a, x);
      SameIdsSameSet(x.txSet, y.txSet);
    }
  }

  lemma AcceptedDistinct(net: Net, w: World, a: PeerId, x: AcceptedBlock)
    requires Inv(net, w) && a in net.honest && (a, x) in w.accepted && w.closes[(a, x.previousBlockHash)] <= 1
    ensures DistinctIds(x.txSet)
  {
    var prev := x.previousBlockHash;
    assert History(w, a, prev);
    var p :| Latest(Positions(w, a, prev), p) && p.txs == x.txSet;
  }

  /** Within one round every revision strictly shrinks the position, so their number is bounded by
      the size of the set the round closed with. */
  lemma RevisionsAreBounded(net: Net, es: seq<Event>, n: PeerId, prev: Hash, p: TxSetProposal, q: TxSetProposal)
    requires n in net.honest && Run(net, es).closes[(n, prev)] <= 1
    requires p in Positions(Run(net, es), n, prev) && q in Positions(Run(net, es), n, prev)
    ensures p.seqNo < q.seqNo ==> Subset(q.txs, p.txs) && |q.txs| < |p.txs|
    ensures p.seqNo == q.seqNo ==> p == q
    ensures p.seqNo == 0 ==> q.seqNo <= |p.txs|
  {
    RunInv(net, es);
    assert History(Run(net, es), n, prev);
    assert Revises(p, q);
  }

  /** In every reachable state the books of every honest node balance. */
  lemma BooksBalance(net: Net, es: seq<Event>, n: PeerId)
    requires n in net.honest
    ensures n in Run(net, es).nodes
    ensures var r := Run(net, es).nodes[n];
      && (forall p :: p in r.peers ==> p in net.honest[n] && r.peers[p].prevBlockId == r.prevBlockId)
      && (forall id :: id in r.disputes ==>
            var d := r.disputes[id];
            d.yays == |Voters(d.votes, true)| && d.nays == |Voters(d.votes, false)|
            && d.votes.Keys <= r.peers.Keys && d.yays + d.nays <= |r.peers|
            && (d.ourVote <==> d.tx in r.txns))
  {
    RunInv(net, es);
    var r := Run(net, es).nodes[n];
    assert NodeOk(net, Run(net, es), n);
    forall id | id in r.disputes
      ensures r.disputes[id].yays + r.disputes[id].nays <= |r.peers|
              && (r.disputes[id].ourVote <==> r.disputes[id].tx in r.txns)
    {
      TallyBound(r.disputes[id], r.peers.Keys);
    }
  }
}
