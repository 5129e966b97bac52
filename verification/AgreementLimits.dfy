/** How far agreement goes: exactly when honest nodes accept the same block, and the runs on which they do
    not. */
module AgreementLimits {
  import opened Transactions
  import opened MerkleRoot
  import opened Disputes
  import opened HashTables
  import opened ConsensusRound
  import opened Network
  import opened RoundRuns
  import opened RunsOfTwo
  import opened LyingPeer
  import opened Wrappers

  // ---- Transactions come from pools ----

  /** Every pool the nodes take holds only transactions that admission lets through. */
  ghost predicate Admitted(es: seq<Event>, admits: Tx -> bool) {
    forall e, t :: e in es && e.Timer? && t in e.tick.pool ==> admits(t)
  }

  ghost predicate AllAdmitted(s: seq<Tx>, admits: Tx -> bool) {
    forall t :: t in s ==> admits(t)
  }

  ghost predicate OnlyAdmitted(w: World, admits: Tx -> bool) {
    && (forall n :: n in w.nodes ==> AllAdmitted(w.nodes[n].txns, admits))
    && (forall p :: p in w.sent ==> AllAdmitted(p.txs, admits))
    && (forall n, b :: (n, b) in w.accepted ==> AllAdmitted(b.txSet, admits))
  }

  /** Positions and accepted sets are drawn from the pools; what others send is only compared with. */
  lemma {:induction false} FromPools(net: Net, es: seq<Event>, admits: Tx -> bool)
    requires Admitted(es, admits)
    ensures OnlyAdmitted(Run(net, es), admits)
  {
    if es != [] {
      FromPools(net, es[..|es| - 1], admits);
      RunInv(net, es[..|es| - 1]);
      assert es[|es| - 1] in es;
      StepFromPools(net, Run(net, es[..|es| - 1]), es[|es| - 1], admits);
    }
  }

  lemma StepFromPools(net: Net, w: World, e: Event, admits: Tx -> bool)
    requires Inv(net, w) && OnlyAdmitted(w, admits) && (e.Timer? ==> AllAdmitted(e.tick.pool, admits))
    ensures OnlyAdmitted(Apply(net, w, e), admits)
  {
    if Legal(net, w, e) {
      var r, c := w.nodes[e.node], ConfigOf(net, e.node);
      assert NodeOk(net, w, e.node);
      match e
      case Deliver(_, prop, txs, order) => GotTxSetKeeps(c, r, prop.(txs := txs), order);
      case Restart(_) =>
      case Timer(n, t, o) =>
        TickFromPools(c, r, t, o, admits);
        TickedFromPools(w, n, TimerEntry(c, r, t, o), Apply(net, w, e).closes, admits);
    }
  }

  ghost predicate OutcomeAdmitted(out: Outcome, admits: Tx -> bool) {
    && AllAdmitted(out.round.txns, admits)
    && (out.shared.Some? ==> AllAdmitted(out.shared.value.txs, admits))
    && (out.block.Some? ==> AllAdmitted(out.block.value.txSet, admits))
  }

  lemma TickedFromPools(w: World, n: PeerId, out: Outcome, closes: multiset<(PeerId, Hash)>, admits: Tx -> bool)
    requires OnlyAdmitted(w, admits) && OutcomeAdmitted(out, admits)
    ensures OnlyAdmitted(Ticked(w, n, out, closes), admits)
  {
  }

  lemma TickFromPools(c: Config, r: Round, t: Tick, o: Orders, admits: Tx -> bool)
    requires Valid(c, r) && AllAdmitted(r.txns, admits) && AllAdmitted(t.pool, admits)
    ensures OutcomeAdmitted(TimerEntry(c, r, t, o), admits)
  {
    var r0 := AtPreferred(r, t.preferred);
    if r0.phase == Open {
      CloseBlockOk(c, r0, t.pool, t.now, o.peers);
    } else {
      UpdateProposalsShrinks(c, r0, t.now, t.converge, o);
    }
  }

  // ---- The exact condition ----

  /** Among sets of admitted transactions with distinct ids, a set id that can be sent stands for one set. */
  ghost predicate SetIdsDetermine(h: NodeHash, empty: Hash, admits: Tx -> bool) {
    forall s: TransactionSet, t: TransactionSet ::
      CanStand(s, admits) && CanStand(t, admits) && TxSetId(h, empty, s) == TxSetId(h, empty, t) != NULL_HASH ==> s == t
  }

  ghost predicate CanStand(s: TransactionSet, admits: Tx -> bool) {
    AllAdmitted(s, admits) && DistinctIds(s)
  }

  /** `a` and `b` accepted different blocks. */
  ghost predicate Disagree(net: Net, es: seq<Event>, a: PeerId, b: PeerId, x: AcceptedBlock, y: AcceptedBlock) {
    BothAccepted(net, Run(net, es), a, b, x, y) && x != y
  }

  /** No two honest nodes, in no network and no run. */
  ghost predicate NeverDisagree(h: NodeHash, empty: Hash, admits: Tx -> bool) {
    forall net: Net, es, a, b, x, y ::
      net.h == h && net.empty == empty && Admitted(es, admits) ==> !Disagree(net, es, a, b, x, y)
  }

  /** In no run of the code, with complete walks, nonempty pools, time to close and clocks that advance. */
  ghost predicate NeverDisagreeInCode(h: NodeHash, empty: Hash, admits: Tx -> bool) {
    forall net: Net, es, a, b, x, y ::
      net.h == h && net.empty == empty && Admitted(es, admits) && CodeRun(net, es)
      ==> !Disagree(net, es, a, b, x, y)
  }

  /** What `b` accepted is within what `a` did. */
  lemma ContainedIfDetermined(net: Net, w: World, a: PeerId, b: PeerId, x: AcceptedBlock, y: AcceptedBlock,
                              admits: Tx -> bool)
    requires Inv(net, w) && OnlyAdmitted(w, admits) && BothAccepted(net, w, a, b, x, y)
    requires SetIdsDetermine(net.h, net.empty, admits)
    ensures Subset(y.txSet, x.txSet)
  {
    var p, q := AcceptedWasProposed(net, w, a, b, x, y);
    assert CanStand(p.txs, admits) && CanStand(q.txs, admits);
  }

  lemma DeterminedSuffices(net: Net, es: seq<Event>, a: PeerId, b: PeerId, x: AcceptedBlock, y: AcceptedBlock,
                           admits: Tx -> bool)
    requires SetIdsDetermine(net.h, net.empty, admits) && Admitted(es, admits)
    ensures !Disagree(net, es, a, b, x, y)
  {
    var w := Run(net, es);
    if BothAccepted(net, w, a, b, x, y) {
      RunInv(net, es);
      FromPools(net, es, admits);
      ContainedIfDetermined(net, w, a, b, x, y, admits);
      ContainedIfDetermined(net, w, b, a, y, x, admits);
      SameElements(x.txSet, y.txSet);
      assert Endorsed(net, w, a, x) && Endorsed(net, w, b, y);
    }
  }

  lemma DeterminedNeeded(h: NodeHash, empty: Hash, admits: Tx -> bool, s: TransactionSet, t: TransactionSet)
    requires CanStand(s, admits) && CanStand(t, admits) && s != t && s != []
    requires TxSetId(h, empty, s) == TxSetId(h, empty, t) != NULL_HASH
    ensures !NeverDisagreeInCode(h, empty, admits)
  {
    var id := TxSetId(h, empty, s);
    var p, q := Stand(1, 3, 100, s, id, 5), Stand(2, 3, 100, t, id, 6);
    if t == [] {
      EmptyNeeded(h, empty, admits, p, q.(txs := s));
    } else {
      var net := Net(h, empty, 3, map[1 := {2}, 2 := {1}]);
      OneSetIdTwoBlocks(net, p, q);
      PoolsOfExchange(p, q, admits);
      assert Disagree(net, ExchangeEvents(p, q), 1, 2, BlockOf(p), BlockOf(q));
    }
  }

  /** No node closes with the empty set, but a node can be brought to accept it. */
  lemma EmptyNeeded(h: NodeHash, empty: Hash, admits: Tx -> bool, p: Stand, q: Stand)
    requires StandOk(h, empty, p) && AllAdmitted(p.txs, admits) && p.n == 1 && p.prev == 3
    requires q.n == 2 && q == p.(n := 2, next := q.next) && p.id == empty
    ensures !NeverDisagreeInCode(h, empty, admits)
  {
    var net, lie := LiarNet(h, empty, 1, 2, 4, 3), if p.id == 1 then 2 else 1;
    var es := EmptiedTwoBlocks(net, p, q, 4, lie);
    assert Admitted(es, admits);
    assert Disagree(net, es, 1, 2, BlockOf(p), AcceptedBlock(3, [], p.id));
  }

  lemma PoolsOfExchange(p: Stand, q: Stand, admits: Tx -> bool)
    requires AllAdmitted(p.txs, admits) && AllAdmitted(q.txs, admits)
    ensures Admitted(ExchangeEvents(p, q), admits)
  {
  }

  /** Over all networks, runs and pairs of nodes: honest nodes never accept different blocks exactly when
      admission lets through no two sets of transactions with one set id; and no other run than one of the
      code is needed to show it. */
  lemma AgreementExactly(h: NodeHash, empty: Hash, admits: Tx -> bool)
    ensures NeverDisagree(h, empty, admits) <==> SetIdsDetermine(h, empty, admits)
    ensures NeverDisagreeInCode(h, empty, admits) <==> SetIdsDetermine(h, empty, admits)
  {
    if SetIdsDetermine(h, empty, admits) {
      forall net: Net, es, a, b, x, y | net.h == h && net.empty == empty && Admitted(es, admits)
        ensures !Disagree(net, es, a, b, x, y)
      {
        DeterminedSuffices(net, es, a, b, x, y, admits);
      }
    } else {
      var s: TransactionSet, t: TransactionSet :|
        && CanStand(s, admits) && CanStand(t, admits)
        && TxSetId(h, empty, s) == TxSetId(h, empty, t) != NULL_HASH && s != t;
      if s != [] {
        DeterminedNeeded(h, empty, admits, s, t);
      } else {
        DeterminedNeeded(h, empty, admits, t, s);
      }
    }
  }

  // ---- What admission could see to ----

  /** Admission lets at most one transaction through under each id. */
  ghost predicate OnePerId(admits: Tx -> bool) {
    forall t, u :: admits(t) && admits(u) && t.id == u.id ==> t == u
  }

  /** No id of an admitted set is the hash of the empty string or met as an inner hash of admitted sets. */
  ghost predicate NoIdIsHash(h: NodeHash, empty: Hash, admits: Tx -> bool) {
    forall s: TransactionSet, t: TransactionSet ::
      CanStand(s, admits) && CanStand(t, admits) ==> !LeafClash(h, empty, Ids(s), Ids(t))
  }

  /** The hash does not fail on the trees of admitted sets. */
  ghost predicate NoCollision(h: NodeHash, empty: Hash, admits: Tx -> bool) {
    forall s: TransactionSet, t: TransactionSet ::
      CanStand(s, admits) && CanStand(t, admits) ==> !Collision(h, empty, Ids(s), Ids(t))
  }

  /** These three conditions are enough. */
  lemma ThreeSuffice(h: NodeHash, empty: Hash, admits: Tx -> bool)
    requires OnePerId(admits) && NoIdIsHash(h, empty, admits) && NoCollision(h, empty, admits)
    ensures SetIdsDetermine(h, empty, admits)
  {
    forall s: TransactionSet, t: TransactionSet |
      CanStand(s, admits) && CanStand(t, admits) && TxSetId(h, empty, s) == TxSetId(h, empty, t)
      ensures s == t
    {
      TxSetIdInjective(h, empty, s, t);
      assert OneTxPerId(s, t);
    }
  }

  // ---- Runs on which agreement fails ----

  /** Two sets under one set id: two honest nodes accept different blocks, after closing once each. */
  lemma OneSetIdTwoBlocks(net: Net, p: Stand, q: Stand)
    requires Pair(net, p, q) && p.prev == net.genesis && p.txs != q.txs
    ensures CodeRun(net, ExchangeEvents(p, q))
    ensures Run(net, ExchangeEvents(p, q)) == Exchanged(Initial(net), p, q)
    ensures Disagree(net, ExchangeEvents(p, q), p.n, q.n, BlockOf(p), BlockOf(q))
  {
    Exchange(net, Initial(net), p, q);
    ExchangeTimes(p, q);
    TimesAdvance(p, q);
    FromInitial(net, ExchangeEvents(p, q));
  }

  /** Where no two proposals share a set id over different ids, neither the hash nor an id is to blame. */
  lemma NothingToBlame(net: Net, w: World, a: PeerId, b: PeerId, prev: Hash)
    requires forall p, q :: p in w.sent && q in w.sent && p.setId == q.setId ==> Ids(p.txs) == Ids(q.txs)
    ensures !RootsFail(net, w, a, b, prev)
  {
  }

  /** One id for two transactions is enough, whatever the hash; and no hash fails. */
  lemma OneIdTwoBlocks(net: Net, p: Stand, q: Stand, t: Tx, u: Tx)
    requires Pair(net, p, q) && p.prev == net.genesis && p.txs == [t] && q.txs == [u] && t != u
    ensures t.id == u.id == p.id
    ensures CodeRun(net, ExchangeEvents(p, q))
    ensures Disagree(net, ExchangeEvents(p, q), p.n, q.n, BlockOf(p), BlockOf(q))
    ensures !RootsFail(net, Run(net, ExchangeEvents(p, q)), p.n, q.n, p.prev)
  {
    assert p.txs[0] != q.txs[0];
    SingleId(net.h, net.empty, t);
    SingleId(net.h, net.empty, u);
    OneSetIdTwoBlocks(net, p, q);
    NothingToBlame(net, Exchanged(Initial(net), p, q), p.n, q.n, p.prev);
  }

  /** The id of a set of one is the transaction's. */
  lemma SingleId(h: NodeHash, empty: Hash, t: Tx)
    ensures Ids([t]) == [t.id] && TxSetId(h, empty, [t]) == t.id
  {
  }

  /** So is an id that is the hash of two others: all ids differ, no hash fails, and the blocks differ even in
      their ids. */
  lemma ChosenIdTwoBlocks(net: Net, p: Stand, q: Stand, t: Tx, u: Tx, v: Tx)
    requires Pair(net, p, q) && p.prev == net.genesis && p.txs == [t, u] && q.txs == [v]
    requires v.id == net.h(t.id, u.id) != net.empty && v.id != t.id && v.id != u.id
    ensures OnePerId(x => x == t || x == u || x == v) && Admitted(ExchangeEvents(p, q), x => x == t || x == u || x == v)
    ensures CodeRun(net, ExchangeEvents(p, q))
    ensures Disagree(net, ExchangeEvents(p, q), p.n, q.n, BlockOf(p), BlockOf(q))
    ensures Ids(BlockOf(p).txSet) != Ids(BlockOf(q).txSet)
    ensures !HashFailure(net, Run(net, ExchangeEvents(p, q)), p.n, q.n, p.prev)
  {
    assert |Ids(p.txs)| != |Ids(q.txs)|;
    OneSetIdTwoBlocks(net, p, q);
    PoolsOfExchange(p, q, x => x == t || x == u || x == v);
    ThreeIds(net, p, t, u, v);
    OnlyCollision(net, Exchanged(Initial(net), p, q), p, q);
  }

  lemma ThreeIds(net: Net, p: Stand, t: Tx, u: Tx, v: Tx)
    requires DistinctIds(p.txs) && p.txs == [t, u] && v.id != t.id && v.id != u.id
    ensures OnePerId(x => x == t || x == u || x == v)
  {
    assert p.txs[0].id != p.txs[1].id;
  }

  /** If the two positions are all that was sent, the hash has failed only on them. */
  lemma OnlyCollision(net: Net, w: World, p: Stand, q: Stand)
    requires w.sent == {ProposalOf(p), ProposalOf(q)} && |p.txs| == 2 && |q.txs| == 1
    requires net.h(p.txs[0].id, p.txs[1].id) != net.empty
    ensures !HashFailure(net, w, p.n, q.n, p.prev)
  {
    assert p.txs == [p.txs[0], p.txs[1]] && q.txs == [q.txs[0]];
    ChosenIdNoCollision(net.h, net.empty, p.txs[0], p.txs[1], q.txs[0]);
  }

  /** There is but one pair to hash. */
  lemma ChosenIdNoCollision(h: NodeHash, empty: Hash, t: Tx, u: Tx, v: Tx)
    requires h(t.id, u.id) != empty
    ensures !Collision(h, empty, Ids([t, u]), Ids([v])) && !Collision(h, empty, Ids([v]), Ids([t, u]))
  {
    var a := Ids([t, u]);
    assert Pairs(a) == [(t.id, u.id)];
    assert Hashed(h, a) == {(t.id, u.id)};
  }

  /** After two closes each on `prev` the nodes accepted blocks that differ in their ids, under set ids that
      tell all positions apart. */
  ghost predicate TwoClosesApart(net: Net, w: World, a: PeerId, b: PeerId, prev: Hash) {
    && w.closes[(a, prev)] == 2 && w.closes[(b, prev)] == 2 && !RootsFail(net, w, a, b, prev)
    && exists x, y :: (a, x) in w.accepted && (b, y) in w.accepted && x.previousBlockHash == y.previousBlockHash == prev
                      && x.merkleRoot != y.merkleRoot && Ids(x.txSet) != Ids(y.txSet)
  }

  function TurnEvents(p: Stand, q: Stand): seq<Event> {
    [TurnEvent(p)] + [TurnEvent(q)]
  }

  function TwoRounds(p: Stand, q: Stand, p': Stand, q': Stand): seq<Event> {
    ExchangeEvents(p, q) + TurnEvents(p', q') + ExchangeEvents(p', q')
  }

  /** The world after an exchange and another one on the same block. */
  function ExchangedTwice(net: Net, p: Stand, q: Stand, p': Stand, q': Stand): World {
    Exchanged(With(Exchanged(Initial(net), p, q), p', InitialRound(p'.prev), q', InitialRound(q'.prev)), p', q')
  }

  /** The second round comes later, on the same block and by the same nodes. */
  predicate SecondRound(p: Stand, q: Stand, p': Stand, q': Stand) {
    && p.n == p'.n && q.n == q'.n && p.prev == p'.prev && p.prev != p.next && q.prev != q.next
    && p.txs == q.txs && p'.txs == q'.txs && p.id != p'.id && p.now + 12 <= p'.now
  }

  /** With two closes on one block, ids and all can differ: the second round starts from the pool again. */
  lemma TwoClosesTwoBlocks(net: Net, p: Stand, q: Stand, p': Stand, q': Stand)
    requires Pair(net, p, q) && Pair(net, p', q') && SecondRound(p, q, p', q') && p.prev == net.genesis
    ensures CodeRun(net, TwoRounds(p, q, p', q'))
    ensures TwoClosesApart(net, Run(net, TwoRounds(p, q, p', q')), p.n, q.n, p.prev)
  {
    var w1 := Exchanged(Initial(net), p, q);
    var w2 := With(w1, p', InitialRound(p'.prev), q', InitialRound(q'.prev));
    Exchange(net, Initial(net), p, q);
    BothTurn(net, w1, p', q');
    Exchange(net, w2, p', q');
    Then(net, Initial(net), ExchangeEvents(p, q), w1, TurnEvents(p', q'), w2);
    Then(net, Initial(net), ExchangeEvents(p, q) + TurnEvents(p', q'), w2, ExchangeEvents(p', q'),
         ExchangedTwice(net, p, q, p', q'));
    FromInitial(net, TwoRounds(p, q, p', q'));
    TwoRoundsTimes(p, q, p', q');
    Apart(net, p, q, p', q');
  }

  function TurnTimes(p: Stand, q: Stand): seq<(PeerId, int)> {
    [(p.n, p.now - 10), (q.n, q.now - 10)]
  }

  lemma TicksOfTurns(p: Stand, q: Stand)
    ensures TickTimes(TurnEvents(p, q)) == TurnTimes(p, q)
  {
    TickTimesOne(TurnEvent(p));
    TickTimesOne(TurnEvent(q));
    TimesOfTwo(TurnEvent(p), TurnEvent(q));
  }

  lemma TwoRoundsTimes(p: Stand, q: Stand, p': Stand, q': Stand)
    requires SecondRound(p, q, p', q') && p.n != q.n && p.now == q.now && p'.now == q'.now
    ensures Advancing(TickTimes(TwoRounds(p, q, p', q')))
  {
    ExchangeTimes(p, q);
    ExchangeTimes(p', q');
    TicksOfTurns(p', q');
    TickTimesThen(ExchangeEvents(p, q), TurnEvents(p', q'));
    TickTimesThen(ExchangeEvents(p, q) + TurnEvents(p', q'), ExchangeEvents(p', q'));
    TimesAdvance(p, q);
    TimesAdvance(p', q');
    AdvancingThen(TimesOf(p, q), TurnTimes(p', q'), p.now + 1);
    AdvancingThen(TimesOf(p, q) + TurnTimes(p', q'), TimesOf(p', q'), p'.now - 1);
  }

  lemma Apart(net: Net, p: Stand, q: Stand, p': Stand, q': Stand)
    requires Pair(net, p, q) && Pair(net, p', q') && SecondRound(p, q, p', q')
    ensures TwoClosesApart(net, ExchangedTwice(net, p, q, p', q'), p.n, q.n, p.prev)
  {
    var w := ExchangedTwice(net, p, q, p', q');
    NothingToBlame(net, w, p.n, q.n, p.prev);
    DifferentIds(net, p, q');
    assert (p.n, BlockOf(p)) in w.accepted && (q.n, BlockOf(q')) in w.accepted;
  }

  lemma DifferentIds(net: Net, p: Stand, q: Stand)
    requires StandOk(net.h, net.empty, p) && StandOk(net.h, net.empty, q) && p.id != q.id
    ensures Ids(p.txs) != Ids(q.txs)
  {
  }

  // ---- Outsiders ----

  /** What a node that closes with `s` and then hears only `outsider`, who names the same set id, accepts. */
  function DecidedBy(c: Config, s: Stand, outsider: PeerId): Option<AcceptedBlock> {
    var r := TimerEntry(c, InitialRound(s.prev), TickAt(s, s.now, true), NO_WALKS).round;
    var r' := GotTxSet(r, ProposalOf(s.(n := outsider)), []);
    TimerEntry(c, r', TickAt(s, s.now + 1, false), Orders([outsider], [], [])).block
  }

  /** What the assumption on connections is for: one checked proposal to each node, signed by somebody on
      nobody's UNL, and two honest nodes accept whatever each of them closed with. */
  lemma OutsidersSplit(c: Config, c': Config, p: Stand, q: Stand, outsider: PeerId)
    requires StandOk(c.h, c.empty, p) && StandOk(c'.h, c'.empty, q) && p.prev == q.prev && p.txs != q.txs
    requires c.self == p.n && c'.self == q.n && c.unl == {q.n} && c'.unl == {p.n} && outsider !in {p.n, q.n, NULL_HASH}
    ensures Checked(ProposalOf(p.(n := outsider))) && Checked(ProposalOf(q.(n := outsider)))
    ensures DecidedBy(c, p, outsider) == Some(BlockOf(p))
    ensures DecidedBy(c', q, outsider) == Some(BlockOf(q))
    ensures BlockOf(p) != BlockOf(q)
  {
    OutsiderDecides(c, p, outsider);
    OutsiderDecides(c', q, outsider);
  }

  lemma OutsiderDecides(c: Config, s: Stand, outsider: PeerId)
    requires StandOk(c.h, c.empty, s) && c.self == s.n && |c.unl| <= 1
    ensures DecidedBy(c, s, outsider) == Some(BlockOf(s))
  {
    Closes(c, s);
    Hears(s, s.(n := outsider));
    Accepts(c, s, outsider);
  }

  // ---- The guard a node could have ----

  type Int64 = n: int | -0x8000_0000_0000_0000 <= n < 0x8000_0000_0000_0000

  /** The fields of a transaction that are not part of `Tx`. */
  datatype Rest = Rest(version: Uint32, timestamp: Int64)

  /** What a transaction's id is meant to be the hash of. */
  datatype Content = Content(sender: Hash, receiver: Hash, seqNo: Uint32, amount: Uint32, rest: Rest)

  function ContentOf(t: Tx, rest: Rest): Content {
    Content(t.sender, t.receiver, t.seqNo, t.amount, rest)
  }

  ghost predicate IsHashed(idHash: Content -> Hash, t: Tx) {
    exists rest :: t.id == idHash(ContentOf(t, rest))
  }

  /** The two transactions are a collision of the hash: different contents, and one id that is the hash of both. */
  ghost predicate Collide(idHash: Content -> Hash, t: Tx, u: Tx) {
    exists r, q ::
      && ContentOf(t, r) != ContentOf(u, q)
      && t.id == idHash(ContentOf(t, r)) == idHash(ContentOf(u, q)) == u.id
  }

  /** The content of `t` hashes to the hash of the empty string, or to what one of the pairs `ps` does: all are
      SHA-512, of different inputs. */
  ghost predicate Meets(h: NodeHash, empty: Hash, idHash: Content -> Hash, t: Tx, ps: set<(Hash, Hash)>) {
    exists rest ::
      && t.id == idHash(ContentOf(t, rest))
      && (t.id == empty || exists pair :: pair in ps && t.id == h(pair.0, pair.1))
  }

  /** A transaction of the two sets does, with a pair hashed for their ids. */
  ghost predicate MeetsIn(h: NodeHash, empty: Hash, idHash: Content -> Hash, s: seq<Tx>, t: seq<Tx>) {
    exists u :: (u in s || u in t) && Meets(h, empty, idHash, u, Hashed(h, Ids(s)) + Hashed(h, Ids(t)))
  }

  /** Two positions these nodes sent under one set id exhibit such a transaction. */
  ghost predicate PositionsMeet(net: Net, w: World, idHash: Content -> Hash, a: PeerId, b: PeerId, prev: Hash) {
    exists p, q :: Confused(w, a, b, prev, p, q) && MeetsIn(net.h, net.empty, idHash, p.txs, q.txs)
  }

  /** If every node had recomputed ids at admission, a disagreement would exhibit a collision of the hash, among
      what these nodes hashed or took for hashed. */
  lemma GuardedAgreement(net: Net, es: seq<Event>, idHash: Content -> Hash, a: PeerId, b: PeerId,
                         x: AcceptedBlock, y: AcceptedBlock)
    requires BothAccepted(net, Run(net, es), a, b, x, y)
    requires Admitted(es, t => IsHashed(idHash, t))
    ensures || x == y
            || HashFailure(net, Run(net, es), a, b, x.previousBlockHash)
            || PositionsMeet(net, Run(net, es), idHash, a, b, x.previousBlockHash)
            || exists t, u :: t in x.txSet && u in y.txSet && Collide(idHash, t, u)
  {
    var w, prev := Run(net, es), x.previousBlockHash;
    AgreementIff(net, es, a, b, x, y);
    FromPools(net, es, t => IsHashed(idHash, t));
    if IdIsHash(net, w, a, b, prev) {
      var p, q :| Confused(w, a, b, prev, p, q) && LeafClash(net.h, net.empty, Ids(p.txs), Ids(q.txs));
      ClashMeets(net.h, net.empty, idHash, p.txs, q.txs);
    } else if x != y && !HashFailure(net, w, a, b, prev) {
      var t, u :| t in x.txSet && u in y.txSet && t.id == u.id && t != u;
      assert IsHashed(idHash, t) && IsHashed(idHash, u);
      SameIdCollides(idHash, t, u);
    }
  }

  lemma ClashMeets(h: NodeHash, empty: Hash, idHash: Content -> Hash, s: TransactionSet, t: TransactionSet)
    requires AllAdmitted(s, u => IsHashed(idHash, u)) && AllAdmitted(t, u => IsHashed(idHash, u))
    requires LeafClash(h, empty, Ids(s), Ids(t))
    ensures MeetsIn(h, empty, idHash, s, t)
  {
    var ps := Hashed(h, Ids(s)) + Hashed(h, Ids(t));
    var id :| (id in Ids(s) || id in Ids(t)) && (id == empty || exists pair :: pair in ps && id == h(pair.0, pair.1));
    var u := if id in Ids(s) then Owner(s, id) else Owner(t, id);
    assert IsHashed(idHash, u);
    var rest :| u.id == idHash(ContentOf(u, rest));
    assert Meets(h, empty, idHash, u, ps);
  }

  /** The transaction that carries the id. */
  ghost function Owner(s: seq<Tx>, id: Hash): (t: Tx)
    requires id in Ids(s)
    ensures t in s && t.id == id
  {
    var i :| 0 <= i < |Ids(s)| && Ids(s)[i] == id;
    s[i]
  }

  lemma SameIdCollides(idHash: Content -> Hash, t: Tx, u: Tx)
    requires t.id == u.id && t != u && IsHashed(idHash, t) && IsHashed(idHash, u)
    ensures Collide(idHash, t, u)
  {
    var r :| t.id == idHash(ContentOf(t, r));
    var q :| u.id == idHash(ContentOf(u, q));
    assert ContentOf(t, r) != ContentOf(u, q);
  }
}
