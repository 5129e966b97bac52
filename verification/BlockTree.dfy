/** The tree of block headers (Chain.cpp): its shape over any run, and the walk to the preferred block.
    Pointers to nodes are the keys of the map the nodes live in. */
module BlockTree {
  import opened HashTables
  import opened Wrappers

  type Id = int

  /** The header fields the tree looks at; `rest` stands for the others. */
  datatype Header = Header(sequence: nat, previous: Id, account: Id, rest: int)

  datatype Node = Node(id: Id, header: Header, parent: Option<Id>, validChild: Option<Id>, childs: seq<Id>)

  /** `valid` is a copy of a node, as in the source, not a reference to it. */
  datatype Tree = Tree(ch: map<Id, Node>, valid: Node)

  type HashFunction = Header -> Id

  function Genesis(hash: HashFunction, header: Header): Tree {
    var node := Node(hash(header), header, None, None, []);
    Tree(map[node.id := node], node)
  }

  /** A header becomes a child of the node it names as previous; known ids and unknown parents change
      nothing. */
  function Insert(hash: HashFunction, t: Tree, header: Header): Tree {
    var id := hash(header);
    if id in t.ch || header.previous !in t.ch then t
    else
      var parent := t.ch[header.previous];
      t.(ch := t.ch[id := Node(id, header, Some(header.previous), None, [])]
                   [header.previous := parent.(childs := parent.childs + [id])])
  }

  /** Whether `id` becomes the valid block; `quorum` is the support test. */
  predicate Advances(t: Tree, id: Id, quorum: bool) {
    id in t.ch && quorum && t.ch[id].header.sequence > t.valid.header.sequence
  }

  function UpdateValid(t: Tree, id: Id, quorum: bool): Tree {
    if Advances(t, id, quorum) then t.(valid := t.ch[id]) else t
  }

  /** The valid block has a node with a parent: the source dereferences both. */
  predicate Assignable(t: Tree) {
    t.valid.id in t.ch && t.ch[t.valid.id].parent.Some? && t.ch[t.valid.id].parent.value in t.ch
  }

  /** The account hash goes into the header, which the node shares; the valid block is entered again under
      its new id, unless that is taken, and becomes its parent's valid child. */
  function Assign(hash: HashFunction, t: Tree, account: Id): Tree
    requires Assignable(t)
  {
    var header := t.valid.header.(account := account);
    var valid := t.valid.(header := header, id := hash(header));
    var ch := t.ch[t.valid.id := t.ch[t.valid.id].(header := header)];
    if valid.id in ch then Tree(ch, valid)
    else
      var parent := ch[t.valid.id].parent.value;
      Tree(ch[valid.id := valid][parent := ch[parent].(validChild := Some(valid.id))], valid)
  }

  datatype Event = Inserted(header: Header) | Updated(id: Id, quorum: bool) | Assigned(account: Id)

  predicate CanHappen(t: Tree, e: Event) {
    e.Assigned? ==> Assignable(t)
  }

  function Apply(hash: HashFunction, t: Tree, e: Event): Tree
    requires CanHappen(t, e)
  {
    match e
    case Inserted(header) => Insert(hash, t, header)
    case Updated(id, quorum) => UpdateValid(t, id, quorum)
    case Assigned(account) => Assign(hash, t, account)
  }

  predicate CanRun(hash: HashFunction, t: Tree, run: seq<Event>)
    decreases |run|
  {
    run == [] || (CanHappen(t, run[0]) && CanRun(hash, Apply(hash, t, run[0]), run[1..]))
  }

  function Run(hash: HashFunction, t: Tree, run: seq<Event>): Tree
    requires CanRun(hash, t, run)
    decreases |run|
  {
    if run == [] then t else Run(hash, Apply(hash, t, run[0]), run[1..])
  }

  // ---- The shape ----

  /** All children are nodes one level further down. */
  ghost predicate Below(childs: seq<Id>, depth: map<Id, nat>, level: nat) {
    forall i :: 0 <= i < |childs| ==> childs[i] in depth && depth[childs[i]] == level + 1
  }

  /** Every node has a level. `d` is the level of the valid block. */
  ghost predicate Ranked(t: Tree, depth: map<Id, nat>, d: nat) {
    && depth.Keys == t.ch.Keys
    && (forall id: Id :: id in t.ch ==> Below(t.ch[id].childs, depth, depth[id]))
    && Below(t.valid.childs, depth, d)
  }

  /** So no child link ever leads back. */
  ghost predicate Acyclic(t: Tree) {
    exists depth: map<Id, nat>, d: nat :: Ranked(t, depth, d)
  }

  lemma InsertRanked(hash: HashFunction, t: Tree, header: Header, depth: map<Id, nat>, d: nat)
    requires Ranked(t, depth, d)
    ensures Acyclic(Insert(hash, t, header))
  {
    var id := hash(header);
    if id in t.ch || header.previous !in t.ch {
    } else {
      var depth' := depth[id := depth[header.previous] + 1];
      var t' := Insert(hash, t, header);
      forall x: Id | x in t'.ch ensures Below(t'.ch[x].childs, depth', depth'[x]) {
        if x != id { assert Below(t.ch[x].childs, depth, depth[x]); }
      }
      assert Ranked(t', depth', d);
    }
  }

  lemma AssignRanked(hash: HashFunction, t: Tree, account: Id, depth: map<Id, nat>, d: nat)
    requires Ranked(t, depth, d) && Assignable(t)
    ensures Acyclic(Assign(hash, t, account))
  {
    var t' := Assign(hash, t, account);
    var depth' := if t'.valid.id in t.ch then depth else depth[t'.valid.id := d];
    forall x: Id | x in t'.ch ensures Below(t'.ch[x].childs, depth', depth'[x]) {
      if x in t.ch { assert Below(t.ch[x].childs, depth, depth[x]); }
    }
    assert Ranked(t', depth', d);
  }

  lemma ApplyKeepsTree(hash: HashFunction, t: Tree, e: Event)
    requires Acyclic(t) && CanHappen(t, e)
    ensures Acyclic(Apply(hash, t, e))
  {
    var depth: map<Id, nat>, d: nat :| Ranked(t, depth, d);
    match e
    case Inserted(header) =>
      InsertRanked(hash, t, header, depth, d);
    case Updated(id, quorum) =>
      if Advances(t, id, quorum) {
        assert Ranked(UpdateValid(t, id, quorum), depth, depth[id]);
      }
    case Assigned(account) =>
      AssignRanked(hash, t, account, depth, d);
  }

  /** The tree stays a tree over every run, copies under new ids included. */
  lemma RunKeepsTree(hash: HashFunction, genesis: Header, run: seq<Event>)
    requires CanRun(hash, Genesis(hash, genesis), run)
    ensures Acyclic(Run(hash, Genesis(hash, genesis), run))
  {
    var t := Genesis(hash, genesis);
    assert Ranked(t, map[t.valid.id := 0], 0);
    RunKeepsTreeFrom(hash, t, run);
  }

  lemma {:induction false} RunKeepsTreeFrom(hash: HashFunction, t: Tree, run: seq<Event>)
    requires Acyclic(t) && CanRun(hash, t, run)
    ensures Acyclic(Run(hash, t, run))
    decreases |run|
  {
    if run != [] {
      ApplyKeepsTree(hash, t, run[0]);
      RunKeepsTreeFrom(hash, Apply(hash, t, run[0]), run[1..]);
    }
  }

  // ---- Progress ----

  /** How often the valid block was replaced. */
  function Updates(hash: HashFunction, t: Tree, run: seq<Event>): nat
    requires CanRun(hash, t, run)
    decreases |run|
  {
    if run == [] then 0
    else
      var e := run[0];
      (if e.Updated? && Advances(t, e.id, e.quorum) then 1 else 0) + Updates(hash, Apply(hash, t, e), run[1..])
  }

  /** Each replacement raises the valid block's sequence number, nothing else moves it: after `n` of them
      it is at least `n` higher. */
  lemma {:induction false} SequenceRises(hash: HashFunction, t: Tree, run: seq<Event>)
    requires CanRun(hash, t, run)
    ensures Run(hash, t, run).valid.header.sequence >= t.valid.header.sequence + Updates(hash, t, run)
    ensures Updates(hash, t, run) == 0 ==> Run(hash, t, run).valid.header.sequence == t.valid.header.sequence
    decreases |run|
  {
    if run != [] {
      SequenceRises(hash, Apply(hash, t, run[0]), run[1..]);
    }
  }

  /** After the account hash has been assigned, the valid block carries it and otherwise the header it had, under
      the hash of the new header; so does its old node; and if the new id is new, a copy stands under it as the
      valid child of the parent. */
  lemma AssignSets(hash: HashFunction, t: Tree, account: Id)
    requires Assignable(t)
    ensures var t', was := Assign(hash, t, account), t.valid.header;
      && t'.valid.header == Header(was.sequence, was.previous, account, was.rest)
      && t'.valid.id == hash(t'.valid.header) && t'.valid.childs == t.valid.childs
      && t.valid.id in t'.ch && t'.ch[t.valid.id].header.account == account
      && (t'.valid.id !in t.ch ==> t'.valid.id in t'.ch && t'.ch[t'.valid.id].header == t'.valid.header)
      && (t'.valid.id !in t.ch ==> t'.ch[t.ch[t.valid.id].parent.value].validChild == Some(t'.valid.id))
  {
  }

  /** A new block stands under its hash, as the youngest child of the block it names as previous, and nothing else
      has changed. */
  lemma InsertSets(hash: HashFunction, t: Tree, header: Header)
    requires hash(header) !in t.ch && header.previous in t.ch
    ensures var t', id, up := Insert(hash, t, header), hash(header), t.ch[header.previous];
      && t'.valid == t.valid && t'.ch.Keys == t.ch.Keys + {id}
      && t'.ch[id] == Node(id, header, Some(header.previous), None, [])
      && t'.ch[header.previous] == Node(up.id, up.header, up.parent, up.validChild, up.childs + [id])
      && forall x: Id :: x in t.ch && x != header.previous ==> t'.ch[x] == t.ch[x]
  {
  }

  /** Only nodes as low as the genesis block lack a parent, and parents are nodes. */
  predicate HasParent(t: Tree, n: Node, lowest: nat) {
    match n.parent
    case None => n.header.sequence == lowest
    case Some(p) => p in t.ch
  }

  ghost predicate Rooted(t: Tree, lowest: nat) {
    && (forall id: Id :: id in t.ch ==> t.ch[id].id == id && HasParent(t, t.ch[id], lowest))
    && HasParent(t, t.valid, lowest) && t.valid.header.sequence >= lowest
  }

  lemma ApplyKeepsRooted(hash: HashFunction, t: Tree, e: Event, lowest: nat)
    requires Rooted(t, lowest) && CanHappen(t, e)
    ensures Rooted(Apply(hash, t, e), lowest)
  {
    var t' := Apply(hash, t, e);
    forall id: Id | id in t'.ch ensures t'.ch[id].id == id && HasParent(t', t'.ch[id], lowest) {
      if id in t.ch { assert HasParent(t, t.ch[id], lowest); }
    }
  }

  lemma {:induction false} RunKeepsRooted(hash: HashFunction, t: Tree, run: seq<Event>, lowest: nat)
    requires Rooted(t, lowest) && CanRun(hash, t, run)
    ensures Rooted(Run(hash, t, run), lowest)
    decreases |run|
  {
    if run != [] {
      ApplyKeepsRooted(hash, t, run[0], lowest);
      RunKeepsRooted(hash, Apply(hash, t, run[0]), run[1..], lowest);
    }
  }

  /** In every reachable tree, right after the valid block was replaced its node and that node's parent are
      there: entering the account hash dereferences nothing that is missing. */
  lemma ReplacedIsAssignable(hash: HashFunction, genesis: Header, run: seq<Event>, id: Id, quorum: bool)
    requires CanRun(hash, Genesis(hash, genesis), run)
    requires Advances(Run(hash, Genesis(hash, genesis), run), id, quorum)
    ensures Assignable(UpdateValid(Run(hash, Genesis(hash, genesis), run), id, quorum))
  {
    var t := Genesis(hash, genesis);
    assert Rooted(t, genesis.sequence);
    RunKeepsRooted(hash, t, run, genesis.sequence);
    var t' := Run(hash, t, run);
    assert HasParent(t', t'.ch[id], genesis.sequence);
  }

  /** The valid block is a copy: until it is replaced, its own list of children stays that of the day it was
      copied. The nodes on that list are no copies, and blocks go on being inserted below them. */
  lemma {:induction false} ChildsFrozen(hash: HashFunction, t: Tree, run: seq<Event>)
    requires CanRun(hash, t, run) && Updates(hash, t, run) == 0
    ensures Run(hash, t, run).valid.childs == t.valid.childs
    decreases |run|
  {
    if run != [] {
      ChildsFrozen(hash, Apply(hash, t, run[0]), run[1..]);
    }
  }

  /** Each node is a child of the one before it, the first a child of the valid block. */
  ghost predicate Links(t: Tree, path: seq<Id>) {
    path == [] ||
    var n := |path| - 1;
    Links(t, path[..n]) && path[n] in t.ch && path[n] in End(t, path[..n]).childs
  }

  /** The node at the end of a path from the valid block. */
  function End(t: Tree, path: seq<Id>): Node {
    if path == [] || path[|path| - 1] !in t.ch then t.valid else t.ch[path[|path| - 1]]
  }

  /** The block can be reached from the valid block, by one link at least. */
  ghost predicate Linked(t: Tree, id: Id) {
    exists path :: path != [] && Links(t, path) && path[|path| - 1] == id
  }

  /** What an insertion makes reachable from the valid block: the new block, exactly when its parent was
      reached by at least one link; so not when its parent is the valid block itself. */
  lemma InsertLinks(hash: HashFunction, t: Tree, header: Header, x: Id)
    requires Acyclic(t) && hash(header) !in t.ch && header.previous in t.ch
    ensures Linked(Insert(hash, t, header), x)
       <==> Linked(t, if x == hash(header) then header.previous else x)
  {
    var t', id := Insert(hash, t, header), hash(header);
    var depth: map<Id, nat>, d: nat :| Ranked(t, depth, d);
    if Linked(t', x) {
      var path :| path != [] && Links(t', path) && path[|path| - 1] == x;
      LinksBefore(hash, t, header, path, depth, d);
    }
    if Linked(t, if x == id then header.previous else x) {
      LinkedAfter(hash, t, header, x);
    }
  }

  lemma LinkedAfter(hash: HashFunction, t: Tree, header: Header, x: Id)
    requires hash(header) !in t.ch && header.previous in t.ch
    requires Linked(t, if x == hash(header) then header.previous else x)
    ensures Linked(Insert(hash, t, header), x)
  {
    var last := if x == hash(header) then header.previous else x;
    var path :| path != [] && Links(t, path) && path[|path| - 1] == last;
    LinksAfter(hash, t, header, path);
    if x == hash(header) {
      assert (path + [x])[..|path|] == path;
      assert Links(Insert(hash, t, header), path + [x]);
    }
  }

  lemma {:induction false} LinksAfter(hash: HashFunction, t: Tree, header: Header, path: seq<Id>)
    requires hash(header) !in t.ch && header.previous in t.ch && Links(t, path)
    ensures Links(Insert(hash, t, header), path)
  {
    if path != [] {
      LinksAfter(hash, t, header, path[..|path| - 1]);
    }
  }

  /** A path after the insertion was one before, or leads to the new block from one that was. */
  lemma {:induction false} LinksBefore(hash: HashFunction, t: Tree, header: Header, path: seq<Id>, depth: map<Id,
                                       nat>, d: nat)
    requires hash(header) !in t.ch && header.previous in t.ch && Ranked(t, depth, d)
    requires path != [] && Links(Insert(hash, t, header), path)
    ensures if path[|path| - 1] == hash(header) then Linked(t, header.previous) else Links(t, path)
  {
    var t', before, x := Insert(hash, t, header), path[..|path| - 1], path[|path| - 1];
    if before == [] {
      ChildIsNode(t.valid.childs, depth, d, x);
      assert path == [x] && x in t.ch;
      assert Links(t, before);
    } else {
      LinksBefore(hash, t, header, before, depth, d);
      var y := before[|before| - 1];
      assert t'.ch[hash(header)].childs == [] && y != hash(header);
      if x in t.ch[y].childs {
        ChildIsNode(t.ch[y].childs, depth, depth[y], x);
      }
    }
  }

  lemma ChildIsNode(childs: seq<Id>, depth: map<Id, nat>, level: nat, x: Id)
    requires Below(childs, depth, level) && x in childs
    ensures x in depth
  {
    var i :| 0 <= i < |childs| && childs[i] == x;
  }

  // ---- The preferred block ----

  /** Each node is a child of the one before it, the first a child of the valid block, and none of its
      siblings has more support. */
  ghost predicate Descends(t: Tree, path: seq<Id>, support: Id -> nat) {
    path == [] ||
    var n := |path| - 1;
    && Descends(t, path[..n], support)
    && path[n] in t.ch && path[n] in End(t, path[..n]).childs
    && forall c: Id :: c in End(t, path[..n]).childs ==> support(c) <= support(path[n])
  }

  ghost predicate Reached(t: Tree, n: Node, support: Id -> nat) {
    exists path :: Descends(t, path, support) && End(t, path) == n
  }

  lemma ReachedMore(t: Tree, n: Node, support: Id -> nat, id: Id)
    requires Reached(t, n, support) && id in n.childs && id in t.ch
    requires forall c: Id :: c in n.childs ==> support(c) <= support(id)
    ensures Reached(t, t.ch[id], support)
  {
    var path :| Descends(t, path, support) && End(t, path) == n;
    assert (path + [id])[..|path|] == path;
    assert Descends(t, path + [id], support) && End(t, path + [id]) == t.ch[id];
  }

  /** The nodes further down than `level`. */
  ghost function Deeper(depth: map<Id, nat>, level: nat): set<Id> {
    set id: Id | id in depth && depth[id] > level
  }

  lemma DeeperShrinks(depth: map<Id, nat>, id: Id)
    requires id in depth && depth[id] > 0
    ensures |Deeper(depth, depth[id])| < |Deeper(depth, depth[id] - 1)|
  {
    var all, fewer := Deeper(depth, depth[id] - 1), Deeper(depth, depth[id]);
    assert id in all && id !in fewer;
    assert forall x: Id :: x in fewer ==> x in all;
    SubsetSize(fewer, all);
  }

  // ---- The walk down ----

  /** The test for going on to child number `at`: the first of greatest support, ahead of what is uncommitted,
      and of that together with any child before it. */
  ghost predicate GoesTo(childs: seq<Id>, support: Id -> nat, uncommitted: Id -> nat, at: nat) {
    && at < |childs|
    && (forall k :: 0 <= k < at ==> support(childs[k]) < support(childs[at]))
    && (forall k :: 0 <= k < |childs| ==> support(childs[k]) <= support(childs[at]))
    && uncommitted(childs[at]) < support(childs[at])
    && (forall k :: 0 <= k < at ==> support(childs[k]) + uncommitted(childs[at]) < support(childs[at]))
  }

  /** The walk from `n` along `path`: every step passes the test, and it ends where no child does. */
  ghost predicate Walked(t: Tree, n: Node, path: seq<Id>, support: Id -> nat, uncommitted: Id -> nat)
    decreases |path|
  {
    if path == [] then forall at: nat :: !GoesTo(n.childs, support, uncommitted, at)
    else
      && path[0] in t.ch && Walked(t, t.ch[path[0]], path[1..], support, uncommitted)
      && exists at: nat :: GoesTo(n.childs, support, uncommitted, at) && n.childs[at] == path[0]
  }

  function Last(t: Tree, n: Node, path: seq<Id>): Node {
    if path == [] || path[|path| - 1] !in t.ch then n else t.ch[path[|path| - 1]]
  }

  /** `end` is the node the walk from `n` ends at. */
  ghost predicate Preferred(t: Tree, n: Node, support: Id -> nat, uncommitted: Id -> nat, end: Node) {
    exists path :: Walked(t, n, path, support, uncommitted) && Last(t, n, path) == end
  }

  lemma OneBest(childs: seq<Id>, support: Id -> nat, uncommitted: Id -> nat, i: nat, j: nat)
    requires GoesTo(childs, support, uncommitted, i) && GoesTo(childs, support, uncommitted, j)
    ensures i == j
  {
  }

  lemma {:induction false} WalkedOnce(t: Tree, n: Node, a: seq<Id>, b: seq<Id>, support: Id -> nat,
                                      uncommitted: Id -> nat)
    requires Walked(t, n, a, support, uncommitted) && Walked(t, n, b, support, uncommitted)
    ensures a == b
    decreases |a|
  {
    if a != [] {
      assert b != [];
      var i: nat :| GoesTo(n.childs, support, uncommitted, i) && n.childs[i] == a[0];
      var j: nat :| GoesTo(n.childs, support, uncommitted, j) && n.childs[j] == b[0];
      OneBest(n.childs, support, uncommitted, i, j);
      WalkedOnce(t, t.ch[a[0]], a[1..], b[1..], support, uncommitted);
      assert a == [a[0]] + a[1..] && b == [b[0]] + b[1..];
    }
  }

  /** There is but one preferred node. */
  lemma PreferredUnique(t: Tree, n: Node, support: Id -> nat, uncommitted: Id -> nat, a: Node, b: Node)
    requires Preferred(t, n, support, uncommitted, a) && Preferred(t, n, support, uncommitted, b)
    ensures a == b
  {
    var p :| Walked(t, n, p, support, uncommitted) && Last(t, n, p) == a;
    var q :| Walked(t, n, q, support, uncommitted) && Last(t, n, q) == b;
    WalkedOnce(t, n, p, q, support, uncommitted);
  }

  /** Going down one child and on from there. */
  lemma PreferredMore(t: Tree, n: Node, at: nat, support: Id -> nat, uncommitted: Id -> nat, end: Node)
    requires GoesTo(n.childs, support, uncommitted, at) && n.childs[at] in t.ch
    requires Preferred(t, t.ch[n.childs[at]], support, uncommitted, end)
    ensures Preferred(t, n, support, uncommitted, end)
  {
    var id := n.childs[at];
    var path :| Walked(t, t.ch[id], path, support, uncommitted) && Last(t, t.ch[id], path) == end;
    assert ([id] + path)[1..] == path;
    assert Walked(t, n, [id] + path, support, uncommitted) && Last(t, n, [id] + path) == end by {
      LastOn(t, n, id, path, support, uncommitted);
    }
  }

  lemma {:induction false} LastIsNode(t: Tree, n: Node, path: seq<Id>, support: Id -> nat, uncommitted: Id -> nat)
    requires Walked(t, n, path, support, uncommitted) && path != []
    ensures path[|path| - 1] in t.ch
    decreases |path|
  {
    if |path| > 1 {
      LastIsNode(t, t.ch[path[0]], path[1..], support, uncommitted);
    }
  }

  lemma LastOn(t: Tree, n: Node, id: Id, path: seq<Id>, support: Id -> nat, uncommitted: Id -> nat)
    requires id in t.ch && Walked(t, t.ch[id], path, support, uncommitted)
    ensures Last(t, n, [id] + path) == Last(t, t.ch[id], path)
  {
    if path != [] {
      LastIsNode(t, t.ch[id], path, support, uncommitted);
      assert ([id] + path)[|path|] == path[|path| - 1];
    }
  }

  /** The walk stops here. */
  lemma PreferredHere(t: Tree, n: Node, support: Id -> nat, uncommitted: Id -> nat)
    requires forall at: nat :: !GoesTo(n.childs, support, uncommitted, at)
    ensures Preferred(t, n, support, uncommitted, n)
  {
    assert Walked(t, n, [], support, uncommitted) && Last(t, n, []) == n;
  }

  /** What the loop over the children finds decides the test. */
  lemma BestDecides(childs: seq<Id>, support: Id -> nat, uncommitted: Id -> nat, at: nat, second: nat)
    requires at < |childs| && Greatest(childs[..at], support, second)
    requires forall k :: 0 <= k < at ==> support(childs[k]) < support(childs[at])
    requires forall k :: 0 <= k < |childs| ==> support(childs[k]) <= support(childs[at])
    ensures GoesTo(childs, support, uncommitted, at) <==>
            var u := uncommitted(childs[at]);
            u < support(childs[at]) && second + u < support(childs[at])
    ensures forall j: nat :: GoesTo(childs, support, uncommitted, j) ==> j == at
  {
    forall k | 0 <= k < at ensures support(childs[k]) <= second {
      assert childs[..at][k] == childs[k];
    }
    if at > 0 {
      var k :| 0 <= k < |childs[..at]| && support(childs[..at][k]) == second;
      assert childs[..at][k] == childs[k];
    }
  }

  /** `m` is the greatest support, zero when there is nobody to support. */
  predicate Greatest(ids: seq<Id>, support: Id -> nat, m: nat) {
    (forall k :: 0 <= k < |ids| ==> support(ids[k]) <= m)
    && (if ids == [] then m == 0 else exists k :: 0 <= k < |ids| && support(ids[k]) == m)
  }

  /** `Chain` */
  class Chain {
    const hash: HashFunction
    var ch: map<Id, Node>
    var validBlock: Node

    ghost function State(): Tree
      reads this
    {
      Tree(ch, validBlock)
    }

    constructor (hash: HashFunction, genesis: Header)
      ensures this.hash == hash && State() == Genesis(hash, genesis) && Acyclic(State())
    {
      this.hash := hash;
      var node := Node(hash(genesis), genesis, None, None, []);
      ch := map[node.id := node];
      validBlock := node;
      new;
      assert Ranked(State(), map[node.id := 0], 0);
    }

    method InsertBlock(block: Header)
      requires Acyclic(State())
      modifies this
      ensures State() == Insert(hash, old(State()), block) && Acyclic(State())
    {
      ApplyKeepsTree(hash, State(), Inserted(block));
      var id := hash(block);
      if id !in ch && block.previous in ch {
        var parent := block.previous;
        ch := ch[id := Node(id, block, Some(parent), None, [])];
        ch := ch[parent := ch[parent].(childs := ch[parent].childs + [id])];
      }
    }

    /** `quorum` is the answer of the support test on the block's node. */
    method UpdateValidBlock(id: Id, quorum: bool) returns (updated: bool)
      requires Acyclic(State())
      modifies this
      ensures State() == UpdateValid(old(State()), id, quorum) && Acyclic(State())
      ensures ch == old(ch)
      ensures updated <==> id in ch && quorum && ch[id].header.sequence > old(validBlock.header.sequence)
      ensures validBlock == if updated then ch[id] else old(validBlock)
    {
      ApplyKeepsTree(hash, State(), Updated(id, quorum));
      updated := id in ch && quorum && ch[id].header.sequence > validBlock.header.sequence;
      if updated {
        validBlock := ch[id];
      }
    }

    method AssignAccountHash(account: Id)
      requires Acyclic(State()) && Assignable(State())
      modifies this
      ensures State() == Assign(hash, old(State()), account) && Acyclic(State())
    {
      ApplyKeepsTree(hash, State(), Assigned(account));
      var it := validBlock.id;
      var header := validBlock.header.(account := account);
      ch := ch[it := ch[it].(header := header)];
      validBlock := validBlock.(header := header, id := hash(header));
      if validBlock.id !in ch {
        var parent := ch[it].parent.value;
        ch := ch[validBlock.id := validBlock];
        ch := ch[parent := ch[parent].(validChild := Some(validBlock.id))];
      }
    }

    /** The child with the greatest support, the first of them. The support called second best is the
        greatest among the children before it, so zero when it comes first. */
    static method BestChild(childs: seq<Id>, support: Id -> nat)
      returns (best: Id, bestSupport: nat, secondBest: nat, ghost at: nat)
      requires childs != []
      ensures at < |childs| && childs[at] == best && bestSupport == support(best)
      ensures forall k :: 0 <= k < at ==> support(childs[k]) < bestSupport
      ensures forall c: Id :: c in childs ==> support(c) <= bestSupport
      ensures forall k :: 0 <= k < |childs| ==> support(childs[k]) <= bestSupport
      ensures Greatest(childs[..at], support, secondBest)
    {
      best, bestSupport, secondBest := childs[0], support(childs[0]), 0;
      at := 0;
      for k := 0 to |childs|
        invariant at < |childs| && childs[at] == best && bestSupport == support(best)
        invariant at < k || (at == k == 0)
        invariant forall j :: 0 <= j < at ==> support(childs[j]) < bestSupport
        invariant forall j :: 0 <= j < k ==> support(childs[j]) <= bestSupport
        invariant Greatest(childs[..at], support, secondBest)
      {
        var support' := support(childs[k]);
        if bestSupport < support' {
          secondBest := bestSupport;
          bestSupport := support';
          best := childs[k];
          at := k;
        }
      }
    }

    /** `getPreferredBlock` from a node on: down to the best child as long as no uncommitted validator
        could change that. */
    method PreferredFrom(n: Node, support: Id -> nat, uncommitted: Id -> nat,
                         ghost depth: map<Id, nat>, ghost d: nat, ghost level: nat) returns (preferred: Node)
      requires Ranked(State(), depth, d) && Below(n.childs, depth, level) && Reached(State(), n, support)
      ensures Reached(State(), preferred, support) && Preferred(State(), n, support, uncommitted, preferred)
      decreases |Deeper(depth, level)|
    {
      if n.childs == [] {
        PreferredHere(State(), n, support, uncommitted);
        return n;
      }
      var best, bestSupport, secondBest, at := BestChild(n.childs, support);
      BestDecides(n.childs, support, uncommitted, at, secondBest);
      var bestUncommitted := uncommitted(best);
      if bestUncommitted >= bestSupport {
        PreferredHere(State(), n, support, uncommitted);
        return n;
      } else if secondBest + bestUncommitted < bestSupport {
        assert best in depth && depth[best] == level + 1;
        ReachedMore(State(), n, support, best);
        DeeperShrinks(depth, best);
        preferred := PreferredFrom(ch[best], support, uncommitted, depth, d, level + 1);
        PreferredMore(State(), n, at, support, uncommitted, preferred);
      } else {
        PreferredHere(State(), n, support, uncommitted);
        return n;
      }
    }

    /** It ends, whatever the support counts are, at the one node to which every step from the valid block passes
        the test and from which no step does. */
    method PreferredBlock(support: Id -> nat, uncommitted: Id -> nat) returns (preferred: Node)
      requires Acyclic(State())
      ensures Reached(State(), preferred, support)
      ensures Preferred(State(), validBlock, support, uncommitted, preferred)
      ensures validBlock.childs == [] ==> preferred == validBlock
    {
      ghost var depth: map<Id, nat>, d: nat :| Ranked(State(), depth, d);
      assert Descends(State(), [], support) && End(State(), []) == validBlock;
      preferred := PreferredFrom(validBlock, support, uncommitted, depth, d, d);
      if validBlock.childs == [] {
        LeafStays(State(), preferred, support);
      }
    }
  }

  lemma {:induction false} NoDescent(t: Tree, path: seq<Id>, support: Id -> nat)
    requires Descends(t, path, support) && t.valid.childs == []
    ensures path == []
  {
    if path != [] {
      NoDescent(t, path[..|path| - 1], support);
    }
  }

  lemma LeafStays(t: Tree, n: Node, support: Id -> nat)
    requires Reached(t, n, support) && t.valid.childs == []
    ensures n == t.valid
  {
    var path :| Descends(t, path, support) && End(t, path) == n;
    NoDescent(t, path, support);
  }
}
