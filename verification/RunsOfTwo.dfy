/** Runs of the code, and one of them: two honest nodes close on sets with one id, exchange proposals and
    accept. */
module RunsOfTwo {
  import opened Transactions
  import opened MerkleRoot
  import opened Disputes
  import opened HashTables
  import opened ConsensusRound
  import opened Network
  import opened RoundRuns
  import opened Wrappers

  // ---- Runs of the code ----

  /** Every walk meets its whole table. The consensus thread sleeps while the pool is empty, and the tick that
      moves to a new block is too early to close on it. */
  ghost predicate Proper(net: Net, w: World, e: Event) {
    && Legal(net, w, e)
    && var r := w.nodes[e.node];
       match e
       case Deliver(_, prop, txs, order) =>
         Counts(r, prop.(txs := txs)) ==> Walks(order, Record(r, prop.(txs := txs)).peers.Keys)
       case Timer(n, t, o) =>
         TickWalks(ConfigOf(net, n), r, t, o) && t.pool != [] && (t.preferred != r.prevBlockId ==> !t.openElapsed)
       case Restart(_) => true
  }

  ghost predicate ProperRun(net: Net, w: World, es: seq<Event>) {
    es == [] ||
    (ProperRun(net, w, es[..|es| - 1]) && Proper(net, RunFrom(net, w, es[..|es| - 1]), es[|es| - 1]))
  }

  /** The events are a run of the code from `w` to `w'`. */
  ghost predicate Leads(net: Net, w: World, es: seq<Event>, w': World) {
    ProperRun(net, w, es) && RunFrom(net, w, es) == w'
  }

  /** The ticks of a run in order: whose they were, and when. */
  function TickTimes(es: seq<Event>): seq<(PeerId, int)> {
    if es == [] then []
    else
      var n, e := |es| - 1, es[|es| - 1];
      TickTimes(es[..n]) + if e.Timer? then [(e.node, e.tick.now)] else []
  }

  /** The clock of a node advances from tick to tick. */
  predicate Advancing(times: seq<(PeerId, int)>) {
    forall i, j :: 0 <= i < j < |times| && times[i].0 == times[j].0 ==> times[i].1 < times[j].1
  }

  /** A later stretch goes on advancing. */
  lemma AdvancingThen(a: seq<(PeerId, int)>, b: seq<(PeerId, int)>, now: int)
    requires Advancing(a) && Advancing(b)
    requires (forall i :: 0 <= i < |a| ==> a[i].1 <= now) && (forall j :: 0 <= j < |b| ==> now < b[j].1)
    ensures Advancing(a + b)
  {
    var c := a + b;
    forall i, j | 0 <= i < j < |c| && c[i].0 == c[j].0 ensures c[i].1 < c[j].1 {
      if i >= |a| {
        assert c[i] == b[i - |a|] && c[j] == b[j - |a|];
      }
    }
  }

  /** A whole run of the code. */
  ghost predicate CodeRun(net: Net, es: seq<Event>) {
    ProperRun(net, Initial(net), es) && Advancing(TickTimes(es))
  }

  lemma TickTimesOne(e: Event)
    ensures TickTimes([e]) == if e.Timer? then [(e.node, e.tick.now)] else []
  {
    assert [e][..0] == [];
  }

  lemma {:induction false} TickTimesThen(es: seq<Event>, more: seq<Event>)
    ensures TickTimes(es + more) == TickTimes(es) + TickTimes(more)
    decreases |more|
  {
    if more == [] {
      assert es + more == es;
    } else {
      var n, all := |more| - 1, es + more;
      TickTimesThen(es, more[..n]);
      assert all[..|all| - 1] == es + more[..n] && all[|all| - 1] == more[n];
    }
  }

  lemma {:induction false} FromInitial(net: Net, es: seq<Event>)
    ensures Run(net, es) == RunFrom(net, Initial(net), es)
  {
    if es != [] {
      FromInitial(net, es[..|es| - 1]);
    }
  }

  lemma OneMore(net: Net, w: World, es: seq<Event>, e: Event)
    ensures RunFrom(net, w, es + [e]) == Apply(net, RunFrom(net, w, es), e)
    ensures ProperRun(net, w, es + [e]) <==> ProperRun(net, w, es) && Proper(net, RunFrom(net, w, es), e)
  {
    assert (es + [e])[..|es|] == es;
  }

  lemma One(net: Net, w: World, e: Event, w': World)
    requires Proper(net, w, e) && Apply(net, w, e) == w'
    ensures Leads(net, w, [e], w')
  {
    OneMore(net, w, [], e);
    assert [] + [e] == [e];
  }

  lemma ThenOne(net: Net, w: World, es: seq<Event>, w1: World, e: Event, w2: World)
    requires Leads(net, w, es, w1) && Proper(net, w1, e) && Apply(net, w1, e) == w2
    ensures Leads(net, w, es + [e], w2)
  {
    OneMore(net, w, es, e);
  }

  lemma LastOf(net: Net, w: World, es: seq<Event>, w2: World) returns (before: seq<Event>, w1: World, e: Event)
    requires Leads(net, w, es, w2) && es != []
    ensures es == before + [e] && Leads(net, w, before, w1) && Proper(net, w1, e) && Apply(net, w1, e) == w2
  {
    before, e := es[..|es| - 1], es[|es| - 1];
    w1 := RunFrom(net, w, before);
  }

  lemma {:induction false} Then(net: Net, w: World, es: seq<Event>, w': World, more: seq<Event>, w'': World)
    requires Leads(net, w, es, w') && Leads(net, w', more, w'')
    ensures Leads(net, w, es + more, w'')
    decreases |more|
  {
    if more == [] {
      assert es + more == es;
    } else {
      var before, w1, e := LastOf(net, w', more, w'');
      Then(net, w, es, w', before, w1);
      ThenOne(net, w, es + before, w1, e, w'');
      assert es + more == es + before + [e];
    }
  }

  // ---- One node's part ----

  const NO_WALKS := Orders([], [], [])

  /** What node `n` closes with on `prev`, at time `now`, and the id of the block it may build. */
  datatype Stand = Stand(n: PeerId, prev: Hash, now: int, txs: TransactionSet, id: Hash, next: Hash)

  function TickAt(s: Stand, now: int, elapsed: bool): Tick {
    Tick(s.prev, now, elapsed, 0.0, s.txs, s.next)
  }

  function ProposalOf(s: Stand): TxSetProposal {
    TxSetProposal(s.n, 0, s.now, s.id, s.prev, s.txs)
  }

  function BlockOf(s: Stand): AcceptedBlock {
    AcceptedBlock(s.prev, s.txs, s.id)
  }

  function ClosedRound(s: Stand): Round {
    Round(Establish, s.prev, s.txs, {}, ProposalOf(s), map[], map[], map[s.id := CTxSet(s.txs, s.id, s.now)])
  }

  /** With a proposal of `m` recorded that names the same set id. */
  function HeardRound(s: Stand, m: PeerId): Round {
    ClosedRound(s).(peers := map[m := CProposal(s.prev, s.id, s.now, 0)])
  }

  /** The id is that of the set, and a node can close with it. */
  predicate StandOk(h: NodeHash, empty: Hash, s: Stand) {
    && s.id == TxSetId(h, empty, s.txs) && DistinctIds(s.txs) && s.txs != []
    && s.n != NULL_HASH && s.prev != NULL_HASH && s.now != 0 && s.id != NULL_HASH
  }

  /** Inserting a set's own elements in order gives the set. */
  lemma InsertSorted(s: TransactionSet)
    ensures InsertAll([], s) == s
  {
    InsertAllIsPool([], s);
    var r := InsertAll([], s);
    forall t | t in s ensures t in r {
      var i :| 0 <= i < |r| && KeyOf(r[i]) == KeyOf(t);
      assert r[i] in s;
      SameKeySame(s, r[i], t);
    }
    SameElements(r, s);
  }

  lemma SameKeySame(s: TransactionSet, t: Tx, u: Tx)
    requires t in s && u in s && KeyOf(t) == KeyOf(u)
    ensures t == u
  {
    var i, j :| 0 <= i < |s| && 0 <= j < |s| && s[i] == t && s[j] == u;
    assert !Before(t, u) && !Before(u, t);
  }

  /** A tick can bring the round to the start on the stand's block. */
  predicate Turning(r: Round, s: Stand) {
    r.phase != Accepted && (r.prevBlockId != s.prev || r == InitialRound(s.prev))
  }

  lemma Turns(c: Config, r: Round, s: Stand, now: int)
    requires Turning(r, s)
    ensures TimerEntry(c, r, TickAt(s, now, false), NO_WALKS) == Outcome(InitialRound(s.prev), None, None)
    ensures TickWalks(c, r, TickAt(s, now, false), NO_WALKS)
  {
  }

  lemma Closes(c: Config, s: Stand)
    requires StandOk(c.h, c.empty, s) && c.self == s.n
    ensures TimerEntry(c, InitialRound(s.prev), TickAt(s, s.now, true), NO_WALKS)
         == Outcome(ClosedRound(s), Some(ProposalOf(s)), None)
    ensures TickWalks(c, InitialRound(s.prev), TickAt(s, s.now, true), NO_WALKS)
  {
    InsertSorted(s.txs);
    assert FixPosition(c, InitialRound(s.prev).(phase := Establish), s.txs, s.now) == ClosedRound(s);
  }

  /** The other's set is known already when it has the same id, whatever is in it. */
  lemma Hears(s: Stand, q: Stand)
    requires s.id == q.id && s.prev == q.prev && s.now == q.now
    ensures GotTxSet(ClosedRound(s), ProposalOf(q), []) == HeardRound(s, q.n)
    ensures !Counts(ClosedRound(s), ProposalOf(q))
  {
  }

  /** One recorded peer with the same set id is enough where the UNL has one member. */
  lemma Accepts(c: Config, s: Stand, m: PeerId)
    requires |c.unl| <= 1
    ensures TimerEntry(c, HeardRound(s, m), TickAt(s, s.now + 1, false), Orders([m], [], []))
         == Outcome(InitialRound(s.next), None, Some(BlockOf(s)))
    ensures TickWalks(c, HeardRound(s, m), TickAt(s, s.now + 1, false), Orders([m], [], []))
  {
    var r := HeardRound(s, m);
    assert DropStalePeers(r, s.now + 1, [m]) == DropIfStale(DropStalePeers(r, s.now + 1, []), s.now + 1, m) == r;
    assert DropStaleSets(r, s.now + 1) == r;
    assert UpdateProposals(c, r, s.now + 1, 0.0, Orders([m], [], [])) == (r, None);
    assert Agreeing(r) == {m};
    ConsensusIffEnough(c, r);
  }

  // ---- The nodes together ----

  /** Two honest nodes with only each other on their UNLs, closing on sets with one id. */
  ghost predicate Pair(net: Net, p: Stand, q: Stand) {
    && p.n != q.n && net.honest == map[p.n := {q.n}, q.n := {p.n}]
    && StandOk(net.h, net.empty, p) && StandOk(net.h, net.empty, q)
    && p.prev == q.prev && p.now == q.now && p.id == q.id
  }

  /** Early enough to close at the stand's time. */
  function TurnEvent(s: Stand): Event {
    Timer(s.n, TickAt(s, s.now - 10, false), NO_WALKS)
  }

  function CloseEvent(s: Stand): Event {
    Timer(s.n, TickAt(s, s.now, true), NO_WALKS)
  }

  function HearEvent(s: Stand, q: Stand): Event {
    Deliver(s.n, ProposalOf(q), q.txs, [])
  }

  function AcceptEvent(s: Stand, m: PeerId): Event {
    Timer(s.n, TickAt(s, s.now + 1, false), Orders([m], [], []))
  }

  /** The nodes' rounds replaced. */
  function With(w: World, p: Stand, r: Round, q: Stand, r': Round): World {
    w.(nodes := w.nodes[p.n := r][q.n := r'])
  }

  /** The world with both positions broadcast. */
  function Announced(w: World, p: Stand, q: Stand): World {
    w.(sent := w.sent + {ProposalOf(p), ProposalOf(q)}, closes := w.closes + multiset{(p.n, p.prev), (q.n, q.prev)})
  }

  /** The world after both closed, heard each other and accepted. */
  function Exchanged(w: World, p: Stand, q: Stand): World {
    With(Announced(w, p, q), p, InitialRound(p.next), q, InitialRound(q.next))
      .(accepted := w.accepted + {(p.n, BlockOf(p)), (q.n, BlockOf(q))})
  }

  ghost predicate Both(w: World, p: Stand, r: Round, q: Stand, r': Round) {
    p.n in w.nodes && q.n in w.nodes && w.nodes[p.n] == r && w.nodes[q.n] == r'
  }

  lemma TurnStep(net: Net, w: World, s: Stand)
    requires s.n in net.honest && s.n in w.nodes && StandOk(net.h, net.empty, s)
    requires Turning(w.nodes[s.n], s)
    ensures Leads(net, w, [TurnEvent(s)], w.(nodes := w.nodes[s.n := InitialRound(s.prev)]))
  {
    Turns(ConfigOf(net, s.n), w.nodes[s.n], s, s.now - 10);
    One(net, w, TurnEvent(s), w.(nodes := w.nodes[s.n := InitialRound(s.prev)]));
  }

  /** The world after one node has closed. */
  function OneClosed(w: World, s: Stand): World {
    World(w.nodes[s.n := ClosedRound(s)], w.sent + {ProposalOf(s)}, w.closes + multiset{(s.n, s.prev)}, w.accepted)
  }

  lemma CloseStep(net: Net, w: World, s: Stand)
    requires s.n in net.honest && s.n in w.nodes && StandOk(net.h, net.empty, s) && w.nodes[s.n] == InitialRound(s.prev)
    ensures Leads(net, w, [CloseEvent(s)], OneClosed(w, s))
  {
    Closes(ConfigOf(net, s.n), s);
    One(net, w, CloseEvent(s), OneClosed(w, s));
  }

  lemma HearStep(net: Net, w: World, s: Stand, q: Stand)
    requires s.n in net.honest && s.n in w.nodes && q.n in net.honest[s.n] && ProposalOf(q) in w.sent
    requires StandOk(net.h, net.empty, q) && w.nodes[s.n] == ClosedRound(s)
    requires s.id == q.id && s.prev == q.prev && s.now == q.now
    ensures Leads(net, w, [HearEvent(s, q)], w.(nodes := w.nodes[s.n := HeardRound(s, q.n)]))
  {
    Hears(s, q);
    assert ProposalOf(q).(txs := q.txs) == ProposalOf(q);
    One(net, w, HearEvent(s, q), w.(nodes := w.nodes[s.n := HeardRound(s, q.n)]));
  }

  lemma AcceptStep(net: Net, w: World, s: Stand, m: PeerId)
    requires s.n in net.honest && s.n in w.nodes && net.honest[s.n] == {m} && w.nodes[s.n] == HeardRound(s, m)
    requires StandOk(net.h, net.empty, s)
    ensures Leads(net, w, [AcceptEvent(s, m)],
                  w.(nodes := w.nodes[s.n := InitialRound(s.next)], accepted := w.accepted + {(s.n, BlockOf(s))}))
  {
    Accepts(ConfigOf(net, s.n), s, m);
    One(net, w, AcceptEvent(s, m),
        w.(nodes := w.nodes[s.n := InitialRound(s.next)], accepted := w.accepted + {(s.n, BlockOf(s))}));
  }

  lemma BothTurn(net: Net, w: World, p: Stand, q: Stand)
    requires Pair(net, p, q) && p.n in w.nodes && q.n in w.nodes && Turning(w.nodes[p.n], p) && Turning(w.nodes[q.n], q)
    ensures Leads(net, w, [TurnEvent(p)] + [TurnEvent(q)],
                  With(w, p, InitialRound(p.prev), q, InitialRound(q.prev)))
  {
    var w1 := w.(nodes := w.nodes[p.n := InitialRound(p.prev)]);
    TurnStep(net, w, p);
    TurnStep(net, w1, q);
    Then(net, w, [TurnEvent(p)], w1, [TurnEvent(q)], With(w, p, InitialRound(p.prev), q, InitialRound(q.prev)));
  }

  lemma BothClose(net: Net, w: World, p: Stand, q: Stand)
    requires p.n in net.honest && q.n in net.honest && p.n != q.n
    requires StandOk(net.h, net.empty, p) && StandOk(net.h, net.empty, q)
    requires Both(w, p, InitialRound(p.prev), q, InitialRound(q.prev))
    ensures Leads(net, w, CloseEvents(p, q), With(Announced(w, p, q), p, ClosedRound(p), q, ClosedRound(q)))
  {
    var w1 := OneClosed(w, p);
    var w2 := With(Announced(w, p, q), p, ClosedRound(p), q, ClosedRound(q));
    CloseStep(net, w, p);
    CloseStep(net, w1, q);
    assert w1.sent + {ProposalOf(q)} == w2.sent;
    assert w1.closes + multiset{(q.n, q.prev)} == w2.closes;
    Then(net, w, [CloseEvent(p)], w1, [CloseEvent(q)], w2);
  }

  lemma BothHear(net: Net, w: World, p: Stand, q: Stand)
    requires Pair(net, p, q) && Both(w, p, ClosedRound(p), q, ClosedRound(q))
    requires ProposalOf(p) in w.sent && ProposalOf(q) in w.sent
    ensures Leads(net, w, [HearEvent(p, q)] + [HearEvent(q, p)], With(w, p, HeardRound(p, q.n), q, HeardRound(q, p.n)))
  {
    var w1 := w.(nodes := w.nodes[p.n := HeardRound(p, q.n)]);
    HearStep(net, w, p, q);
    HearStep(net, w1, q, p);
    Then(net, w, [HearEvent(p, q)], w1, [HearEvent(q, p)], With(w, p, HeardRound(p, q.n), q, HeardRound(q, p.n)));
  }

  /** The world once both have accepted. */
  function Accepting(w: World, p: Stand, q: Stand): World {
    With(w, p, InitialRound(p.next), q, InitialRound(q.next))
      .(accepted := w.accepted + {(p.n, BlockOf(p)), (q.n, BlockOf(q))})
  }

  lemma BothAccept(net: Net, w: World, p: Stand, q: Stand)
    requires Pair(net, p, q) && Both(w, p, HeardRound(p, q.n), q, HeardRound(q, p.n))
    ensures Leads(net, w, [AcceptEvent(p, q.n)] + [AcceptEvent(q, p.n)], Accepting(w, p, q))
  {
    var w1 := w.(nodes := w.nodes[p.n := InitialRound(p.next)], accepted := w.accepted + {(p.n, BlockOf(p))});
    var w2 := Accepting(w, p, q);
    AcceptStep(net, w, p, q.n);
    AcceptStep(net, w1, q, p.n);
    assert w1.accepted + {(q.n, BlockOf(q))} == w2.accepted;
    Then(net, w, [AcceptEvent(p, q.n)], w1, [AcceptEvent(q, p.n)], w2);
  }

  function CloseEvents(p: Stand, q: Stand): seq<Event> {
    [CloseEvent(p)] + [CloseEvent(q)]
  }

  function HearEvents(p: Stand, q: Stand): seq<Event> {
    [HearEvent(p, q)] + [HearEvent(q, p)]
  }

  function AcceptEvents(p: Stand, q: Stand): seq<Event> {
    [AcceptEvent(p, q.n)] + [AcceptEvent(q, p.n)]
  }

  function ExchangeEvents(p: Stand, q: Stand): seq<Event> {
    CloseEvents(p, q) + HearEvents(p, q) + AcceptEvents(p, q)
  }

  /** Later replacements win. */
  lemma LastWrite(w: World, p: Stand, q: Stand, w2: World, w4: World)
    requires p.n != q.n && w2 == With(Announced(w, p, q), p, ClosedRound(p), q, ClosedRound(q))
    requires w4 == With(w2, p, HeardRound(p, q.n), q, HeardRound(q, p.n))
    ensures Accepting(w4, p, q) == Exchanged(w, p, q)
  {
    assert Accepting(w4, p, q).nodes == Exchanged(w, p, q).nodes;
  }

  /** Six events: both close on their sets, hear each other and accept, each its own set. */
  lemma Exchange(net: Net, w: World, p: Stand, q: Stand)
    requires Pair(net, p, q) && Both(w, p, InitialRound(p.prev), q, InitialRound(q.prev))
    ensures Leads(net, w, ExchangeEvents(p, q), Exchanged(w, p, q))
  {
    var w2 := With(Announced(w, p, q), p, ClosedRound(p), q, ClosedRound(q));
    var w4 := With(w2, p, HeardRound(p, q.n), q, HeardRound(q, p.n));
    BothClose(net, w, p, q);
    BothHear(net, w2, p, q);
    BothAccept(net, w4, p, q);
    LastWrite(w, p, q, w2, w4);
    Then(net, w, CloseEvents(p, q), w2, HearEvents(p, q), w4);
    Then(net, w, CloseEvents(p, q) + HearEvents(p, q), w4, AcceptEvents(p, q), Exchanged(w, p, q));
  }

  function TimesOf(p: Stand, q: Stand): seq<(PeerId, int)> {
    [(p.n, p.now), (q.n, q.now), (p.n, p.now + 1), (q.n, q.now + 1)]
  }

  lemma TimesOfTwo(e: Event, f: Event)
    ensures TickTimes([e] + [f]) == TickTimes([e]) + TickTimes([f])
  {
    TickTimesThen([e], [f]);
  }

  lemma CloseTimes(p: Stand, q: Stand)
    ensures TickTimes(CloseEvents(p, q)) == [(p.n, p.now), (q.n, q.now)]
  {
    TimesOfTwo(CloseEvent(p), CloseEvent(q));
    TickTimesOne(CloseEvent(p));
    TickTimesOne(CloseEvent(q));
  }

  lemma ExchangeTimes(p: Stand, q: Stand)
    ensures TickTimes(ExchangeEvents(p, q)) == TimesOf(p, q)
  {
    CloseTimes(p, q);
    TimesOfTwo(HearEvent(p, q), HearEvent(q, p));
    TimesOfTwo(AcceptEvent(p, q.n), AcceptEvent(q, p.n));
    TickTimesOne(HearEvent(p, q));
    TickTimesOne(HearEvent(q, p));
    TickTimesOne(AcceptEvent(p, q.n));
    TickTimesOne(AcceptEvent(q, p.n));
    TickTimesThen(CloseEvents(p, q), HearEvents(p, q));
    TickTimesThen(CloseEvents(p, q) + HearEvents(p, q), AcceptEvents(p, q));
  }

  lemma TimesAdvance(p: Stand, q: Stand)
    requires p.n != q.n
    ensures Advancing(TimesOf(p, q))
  {
  }
}
