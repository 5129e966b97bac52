/** One round of one node, open or established, from any moment of it to any later one. */
module RoundRuns {
  import opened Transactions
  import opened HashTables
  import opened Disputes
  import opened ConsensusRound
  import opened Network

  /** The event leaves node `n` in its round: no restart, no new previous block, no acceptance. */
  predicate InRound(net: Net, w: World, e: Event, n: PeerId)
    requires n in net.honest && n in w.nodes
  {
    var r, c := w.nodes[n], ConfigOf(net, n);
    || e.node != n || e.Deliver?
    || (e.Timer? && e.tick.preferred == r.prevBlockId
        && (r.phase == Establish ==>
              !HaveConsensus(c, UpdateProposals(c, r, e.tick.now, e.tick.converge, e.orders).0)))
  }

  /** What a round keeps: the position only shrinks, and a dispute we voted no on stays that way. */
  ghost predicate Later(r: Round, r': Round) {
    && r'.phase == Establish && r'.prevBlockId == r.prevBlockId
    && Subset(r'.txns, r.txns) && r.proposal.seqNo <= r'.proposal.seqNo
    && NoStaysNo(r.disputes, r'.disputes)
  }

  /** Peer `p` kept its recorded proposal or got a later one. */
  ghost predicate Advanced(r: Round, r': Round, p: PeerId) {
    p in r.peers && p in r'.peers && (r'.peers[p] == r.peers[p] || r.peers[p].seqNo < r'.peers[p].seqNo)
  }

  /** One event that leaves the node in its round, open or established. */
  lemma StepInRound(net: Net, w: World, e: Event, n: PeerId)
    requires Inv(net, w) && n in net.honest && InRound(net, w, e, n)
    ensures n in Apply(net, w, e).nodes && Apply(net, w, e).nodes[n].prevBlockId == w.nodes[n].prevBlockId
    ensures w.nodes[n].phase == Establish ==> Later(w.nodes[n], Apply(net, w, e).nodes[n])
    ensures forall p: PeerId :: p in w.nodes[n].peers && p in Apply(net, w, e).nodes[n].peers ==>
                                  Advanced(w.nodes[n], Apply(net, w, e).nodes[n], p)
  {
    assert NodeOk(net, w, n);
    var r, c := w.nodes[n], ConfigOf(net, n);
    if Legal(net, w, e) && e.node == n {
      match e
      case Deliver(_, prop, txs, order) =>
        GotTxSetKeeps(c, r, prop.(txs := txs), order);
      case Timer(_, t, o) =>
        if r.phase == Open {
          CloseBlockOk(c, r, t.pool, t.now, o.peers);
        } else {
          UpdateProposalsShrinks(c, r, t.now, t.converge, o);
        }
    }
  }

  function RunFrom(net: Net, w: World, es: seq<Event>): World {
    if es == [] then w else Apply(net, RunFrom(net, w, es[..|es| - 1]), es[|es| - 1])
  }

  /** All events leave `n` in its round. */
  ghost predicate StaysInRound(net: Net, w: World, es: seq<Event>, n: PeerId)
    requires n in net.honest
  {
    es == [] ||
    var w' := RunFrom(net, w, es[..|es| - 1]);
    StaysInRound(net, w, es[..|es| - 1], n) && n in w'.nodes && InRound(net, w', es[|es| - 1], n)
  }

  /** `n` has `p` recorded before and after each of them. */
  ghost predicate StaysRecorded(net: Net, w: World, es: seq<Event>, n: PeerId, p: PeerId) {
    && n in RunFrom(net, w, es).nodes && p in RunFrom(net, w, es).nodes[n].peers
    && (es != [] ==> StaysRecorded(net, w, es[..|es| - 1], n, p))
  }

  lemma {:induction false} InvFrom(net: Net, w: World, es: seq<Event>)
    requires Inv(net, w)
    ensures Inv(net, RunFrom(net, w, es))
  {
    if es != [] {
      InvFrom(net, w, es[..|es| - 1]);
      ApplyKeeps(net, RunFrom(net, w, es[..|es| - 1]), es[|es| - 1]);
    }
  }

  /** From any moment of a round to any later one, over any run: nothing joins the position, our vote on a
      dispute turns at most once, from yes to no. */
  lemma {:induction false} RoundOnlyShrinks(net: Net, w: World, es: seq<Event>, n: PeerId)
    requires Inv(net, w) && n in net.honest && w.nodes[n].phase == Establish && StaysInRound(net, w, es, n)
    ensures n in RunFrom(net, w, es).nodes && Later(w.nodes[n], RunFrom(net, w, es).nodes[n])
  {
    if es != [] {
      RoundOnlyShrinks(net, w, es[..|es| - 1], n);
      InvFrom(net, w, es[..|es| - 1]);
      StepInRound(net, RunFrom(net, w, es[..|es| - 1]), es[|es| - 1], n);
    }
  }

  /** And from its very start, before the node has closed, the number of a peer's recorded proposal never falls
      while the peer stays recorded. */
  lemma {:induction false} NumbersRise(net: Net, w: World, es: seq<Event>, n: PeerId, p: PeerId)
    requires Inv(net, w) && n in net.honest && StaysInRound(net, w, es, n) && StaysRecorded(net, w, es, n, p)
    ensures n in w.nodes && n in RunFrom(net, w, es).nodes && Advanced(w.nodes[n], RunFrom(net, w, es).nodes[n], p)
  {
    if es != [] {
      NumbersRise(net, w, es[..|es| - 1], n, p);
      InvFrom(net, w, es[..|es| - 1]);
      StepInRound(net, RunFrom(net, w, es[..|es| - 1]), es[|es| - 1], n);
    }
  }

  /** Across a tick that may remove the peer, and the next proposal from it, the number falls exactly when
      the record was stale at the tick and the proposal is older than it. */
  lemma TickThenDeliver(net: Net, w: World, n: PeerId, t: Tick, o: Orders, prop: TxSetProposal, txs: TransactionSet,
                        order: seq<PeerId>)
    requires Inv(net, w) && n in net.honest && InRound(net, w, Timer(n, t, o), n) && w.nodes[n].phase == Establish
    requires Legal(net, w, Timer(n, t, o)) && Legal(net, Apply(net, w, Timer(n, t, o)), Deliver(n, prop, txs, order))
    requires TickWalks(ConfigOf(net, n), w.nodes[n], t, o)
    requires prop.issuer in w.nodes[n].peers && prop.previousBlockId == w.nodes[n].prevBlockId
    ensures var r := w.nodes[n];
      var w' := Apply(net, Apply(net, w, Timer(n, t, o)), Deliver(n, prop, txs, order));
      n in w'.nodes && prop.issuer in w'.nodes[n].peers
      && (w'.nodes[n].peers[prop.issuer].seqNo < r.peers[prop.issuer].seqNo
          <==> Stale(t.now, r.peers[prop.issuer].time) && prop.seqNo < r.peers[prop.issuer].seqNo)
  {
    var r, c, p := w.nodes[n], ConfigOf(net, n), prop.issuer;
    assert NodeOk(net, w, n);
    UpdateProposalsShrinks(c, r, t.now, t.converge, o);
    var r1 := UpdateProposals(c, r, t.now, t.converge, o).0;
    assert Apply(net, w, Timer(n, t, o)).nodes[n] == r1;
    WalkMeets(o.peers, r.peers.Keys, p);
    GotTxSetKeeps(c, r1, prop.(txs := txs), order);
    if p !in r1.peers {
      UnknownIsRecorded(r1, prop.(txs := txs), order);
    }
  }
}
