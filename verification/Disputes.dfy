/** One disputed transaction and the votes on it (`DisputeTransaction`, `ConsensusParams.cpp`). */
module Disputes {
  import opened HashTables
  import opened Transactions

  type PeerId = Hash

  /** The value of a dispute. */
  datatype Dispute = Dispute(tx: Tx, ourVote: bool, yays: nat, nays: nat, votes: map<PeerId, bool>)

  /** An unsigned 32-bit decrement: below zero it wraps. */
  function Dec(n: nat): nat {
    if n == 0 then 0xFFFF_FFFF else n - 1
  }

  function WithVote(d: Dispute, node: PeerId, vote: bool): Dispute {
    var d' := d.(votes := d.votes[node := vote]);
    if node !in d.votes then
      if vote then d'.(yays := d.yays + 1) else d'.(nays := d.nays + 1)
    else if vote && !d.votes[node] then d'.(nays := Dec(d.nays), yays := d.yays + 1)
    else if !vote && d.votes[node] then d'.(nays := d.nays + 1, yays := Dec(d.yays))
    else d
  }

  function WithoutVote(d: Dispute, node: PeerId): Dispute {
    if node !in d.votes then d
    else
      var d' := d.(votes := d.votes - {node});
      if d.votes[node] then d'.(yays := Dec(d.yays)) else d'.(nays := Dec(d.nays))
  }

  /** The share of yes votes demanded at each stage of the round. */
  function Threshold(converge: real): real {
    if converge < 0.5 then 0.5
    else if converge < 0.85 then 0.65
    else if converge < 2.0 then 0.7
    else 0.95
  }

  /** The new vote. The quotient is an unsigned integer division, truncated before the comparison. */
  function NewVote(d: Dispute, converge: real): bool {
    ((d.yays + (if d.ourVote then 1 else 0)) / (d.yays + d.nays + 1)) as real > Threshold(converge)
  }

  /** As written, the test is unanimity at every stage: we keep a yes only if nobody said no,
      and a no never becomes a yes. */
  lemma VoteIsUnanimity(d: Dispute, converge: real)
    ensures NewVote(d, converge) <==> d.ourVote && d.nays == 0
  {
    var a, b := d.yays + (if d.ourVote then 1 else 0), d.yays + d.nays + 1;
    if a < b {
      assert a / b == 0;
    } else {
      assert a == b && a / b == 1;
    }
  }

  // ---- Tallies ----

  function Voters(votes: map<PeerId, bool>, v: bool): set<PeerId> {
    set p | p in votes && votes[p] == v
  }

  /** The two counters are the numbers of yes and no entries. */
  predicate Tallied(d: Dispute) {
    d.yays == |Voters(d.votes, true)| && d.nays == |Voters(d.votes, false)|
  }

  lemma Grow<T>(s: set<T>, x: T)
    ensures |s + {x}| == |s| + if x in s then 0 else 1
    ensures |s - {x}| == |s| - if x in s then 1 else 0
  {
    if x in s {
      assert s + {x} == s;
    } else {
      assert s - {x} == s;
    }
  }

  lemma VoterSets(votes: map<PeerId, bool>, node: PeerId, vote: bool)
    ensures Voters(votes[node := vote], vote) == Voters(votes, vote) + {node}
    ensures Voters(votes[node := vote], !vote) == Voters(votes, !vote) - {node}
  {
  }

  /** One more entry moves `node` among the voters for `vote`. */
  lemma VotersAfter(votes: map<PeerId, bool>, node: PeerId, vote: bool)
    ensures var votes' := votes[node := vote];
      && |Voters(votes', vote)| == |Voters(votes, vote)| + (if node in votes && votes[node] == vote then 0 else 1)
      && |Voters(votes', !vote)| == |Voters(votes, !vote)| - (if node in votes && votes[node] != vote then 1 else 0)
  {
    VoterSets(votes, node, vote);
    Grow(Voters(votes, vote), node);
    Grow(Voters(votes, !vote), node);
  }

  lemma SetVoteKeepsTally(d: Dispute, node: PeerId, vote: bool)
    requires Tallied(d)
    ensures var d' := WithVote(d, node, vote);
      Tallied(d') && d'.votes == d.votes[node := vote] && d'.tx == d.tx && d'.ourVote == d.ourVote
  {
    VotersAfter(d.votes, node, vote);
    assert node in d.votes && d.votes[node] == vote ==> d.votes[node := vote] == d.votes;
  }

  lemma UnVoteKeepsTally(d: Dispute, node: PeerId)
    requires Tallied(d)
    ensures var d' := WithoutVote(d, node);
      Tallied(d') && d'.votes.Keys == d.votes.Keys - {node} && d'.tx == d.tx && d'.ourVote == d.ourVote
  {
    if node in d.votes {
      VotersBefore(d.votes, node);
    }
  }

  lemma VotersBefore(votes: map<PeerId, bool>, node: PeerId)
    requires node in votes
    ensures var votes', v := votes - {node}, votes[node];
      |Voters(votes', v)| == |Voters(votes, v)| - 1 && |Voters(votes', !v)| == |Voters(votes, !v)|
  {
    var votes', v := votes - {node}, votes[node];
    assert node in Voters(votes, v);
    assert Voters(votes', v) == Voters(votes, v) - {node};
    assert Voters(votes', !v) == Voters(votes, !v);
  }

  lemma TallyBound(d: Dispute, peers: set<PeerId>)
    requires Tallied(d) && d.votes.Keys <= peers
    ensures d.yays + d.nays == |d.votes.Keys| <= |peers|
  {
    assert d.votes.Keys == Voters(d.votes, true) + Voters(d.votes, false);
    SubsetSize(d.votes.Keys, peers);
  }

  /** The mutable record that the round keeps for each disputed transaction. */
  class DisputeTransaction {
    const tx: Tx
    var ourVote: bool
    var yays: nat
    var nays: nat
    var votes: map<PeerId, bool>

    ghost function Value(): Dispute
      reads this
    {
      Dispute(tx, ourVote, yays, nays, votes)
    }

    constructor (transaction: Tx, vote: bool)
      ensures Value() == Dispute(transaction, vote, 0, 0, map[])
    {
      tx, ourVote, yays, nays, votes := transaction, vote, 0, 0, map[];
    }

    method SetVote(node: PeerId, vote: bool)
      modifies this
      ensures Value() == WithVote(old(Value()), node, vote)
    {
      if node !in votes {
        votes := votes[node := vote];
        if vote { yays := yays + 1; } else { nays := nays + 1; }
      } else if vote && !votes[node] {
        nays := Dec(nays);
        yays := yays + 1;
        votes := votes[node := true];
      } else if !vote && votes[node] {
        nays := nays + 1;
        yays := Dec(yays);
        votes := votes[node := false];
      }
    }

    method UnVote(node: PeerId)
      modifies this
      ensures Value() == WithoutVote(old(Value()), node)
    {
      if node in votes {
        if votes[node] { yays := Dec(yays); } else { nays := Dec(nays); }
        votes := votes - {node};
      }
    }

    method UpdateVote(converge: real) returns (changed: bool)
      modifies this
      ensures Value() == old(Value()).(ourVote := NewVote(old(Value()), converge))
      ensures changed <==> ourVote != old(ourVote)
    {
      var threshold := 0.0;
      if converge < 0.5 {
        threshold := 0.5;
      } else if converge < 0.85 {
        threshold := 0.65;
      } else if converge < 2.0 {
        threshold := 0.7;
      } else {
        threshold := 0.95;
      }
      var newVote := ((yays + (if ourVote then 1 else 0)) / (yays + nays + 1)) as real > threshold;
      if newVote != ourVote {
        ourVote := newVote;
        return true;
      }
      return false;
    }
  }
}
