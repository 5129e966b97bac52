# A model of the PQB blockchain node and of the signature code it runs on

The project models the parts of PQB whose correctness is not visible in any one function, and proves what they
promise. There are four groups.

**Consensus.** `ConsensusRound` gives one node's round as a value and each step of `Consensus` as a function on it;
`ConsensusNode` is the class itself, with the mutable maps of proposals, acquired sets and dispute objects, every
method proved equal to its step; `RoundDisputes` says what a round disputes and who has voted how. `Network` puts
honest nodes and arbitrary others on an unreliable network: proposals that were sent may arrive late, out of order,
repeatedly or never, with transactions dropped by the receiver, and any number of nodes may lie. Over every run it
proves agreement on the ids of the accepted transactions, the bound on revisions and the dispute books; `RoundRuns`
follows one round from any moment to any later one. `MerkleRoot` links set ids to lists of transaction ids: nothing is
assumed of the hash, and where two lists come out under one set id, either two inputs on which it failed are exhibited
(`Collision`, `HashFailure`) or a transaction whose id is one of the inner hashes (`LeafClash`, `IdIsHash`). The second
is no failure of the hash, since ids are taken as they were sent; nor is one id for two transactions. `AgreementLimits`
proves, with neither escape, exactly what agreement on blocks takes, and shows the runs on which it fails; `RunsOfTwo`
and `LyingPeer` build these runs event by event. `BlockTree` is the tree of block headers; `Wire`, `WireFields` and
`WireBuffers` are the byte formats.

**Ledger.** `Ledger` is the filter over the ordered transaction set with its biased 32-bit differences, `LedgerNode`
the loops and the storage class that run it, `LedgerVerdicts` which transactions are applied and which are kept, and
`LedgerRuns` what holds over blocks: settling in any order is replaying one by one, conservation, no overdraft, no
double spending, stability of the filter. `SupplyBound` shows that the bound on the supply is the exact one.

**Dilithium.** `Rounding` and `RoundingVectors` are the vector rounding code lane by lane against section 7.4 of
FIPS 204, for both parameter choices (levels 3 and 5 round alike); `HintCodec` is the hint encoding for any number of
rows and any OMEGA; `SignHints` takes hints from the signing loop to the verifier. `RejectionSampling` and `Challenge`
are the two samplers on an arbitrary byte stream; `Compaction` is the index table ("positions of the set bits,
ascending, padded with zeros").

**Sponge.** `Sponge` is section 4 of FIPS 202 over any state and any permutation, `Lanes` packs bytes into words given
by a few laws, with laws for writing and for reading them back, `Words64` proves those laws of `uint64_t`, and
`Fips202` is the code of fips202.c.

Where a class or a loop in the source changes state, the model does too, and its contract says that the new state is
a function of the old one; what is promised is then proved about that function.

What the code does differently from its comments, modelled as written:

- Both vote thresholds divide unsigned integers (src/Consensus/ConsensusParams.cpp:58,
  src/Consensus/Consensus.cpp:479), so every percentage means unanimity: `Disputes.VoteIsUnanimity`,
  `ConsensusRound.ConsensusIffEnough`. Positions therefore only shrink, and the branch that adds a disputed
  transaction is never taken in a valid state.
- Honest nodes can accept different blocks without any failure of the hash. A transaction's id is taken as it was sent:
  `setHash` is called only where a wallet makes a transaction (src/Wallet/Wallet.cpp:105), and admission verifies the
  signature over the id alone (src/Network/MessageManagement.cpp:501-524, src/Ledger/Transaction.cpp:47-53). So one
  signed id can stand for two transactions (`AgreementLimits.OneIdTwoBlocks`), and an account holder can sign an id that
  is the hash of two others (`AgreementLimits.ChosenIdTwoBlocks`) or of the empty string, under which a node can be
  brought to accept nothing (`LyingPeer.EmptiedTwoBlocks`). `AgreementLimits.AgreementExactly` is the exact condition on
  admission, `AgreementLimits.ThreeSuffice` three conditions that give it, and `AgreementLimits.GuardedAgreement` what
  recomputing ids would do.
- The transactions of a proposal are never compared with the set id it names, so one lying UNL member can make an
  honest node give up its whole position: `LyingPeer.OneLieOneTick` says exactly what is left in any established round,
  and `LyingPeer.GivesUp` is the run for whatever a node has closed with.
- A peer's recorded sequence number can fall within a round: a stale removal lets an older proposal back in, exactly
  when the record was stale and the proposal is older (`ConsensusRound.NumberFallsIff`, `RoundRuns.TickThenDeliver`).
  While the peer stays recorded it never falls (`RoundRuns.NumbersRise`).
- Nothing in `haveConsensus` checks that the agreeing peers are UNL members. `ConsensusRound.UnanimityIff` says for
  which recorded peers acceptance still means that every member agrees. Others can come to be recorded: the filter
  for proposals looks at the connection only (src/Network/Connection.cpp:103-118), and nothing compares the issuer of a
  proposal with the peer that sent it (src/Network/MessageManagement.cpp:669-697). `Network` assumes that it is one of
  the receiver's UNL; `AgreementLimits.OutsidersSplit` is what happens otherwise.
- The vector `use_hint` steps up where FIPS 204 steps down when a hinted low part is zero
  (`Rounding.UseHintIsStandardIff`). No hint a signer makes is of that kind (`Rounding.HintRecovers`).
- `keccak_absorb` ors the last padding bit where `keccak_inc_finalize` xors it (`Lanes.FinalizeAgreesIff`). The
  domain bytes in use never meet the difference (`Words64.ShakeSplits`).
- `Chain::validBlock` is a copy of a node, so its own list of children stays as copied until it is replaced
  (`BlockTree.ChildsFrozen`). The nodes on that list are live: a block inserted later is reachable exactly when its
  parent was reachable by at least one link (`BlockTree.InsertLinks`).
- Bytes whose transactions do not come in strictly ascending key order are read without complaint but not written
  back as they were (`Wire.WrittenBackIff`).

## Model

| member | source | states |
|---|---|---|
| `Network.Agreement` | src/Consensus/Consensus.cpp:306-514 | two honest nodes on each other's UNL that each closed one round on a block and both accepted a successor accepted the same set id over the same transaction ids in the same order, over every run of deliveries, ticks and restarts and whatever the others send, unless the hash failed on the id lists of two of their own positions or an id in one of them is an inner hash or the hash of the empty string; each is named |
| `Network.AgreementIff` | src/Consensus/Consensus.cpp:306-514 | up to these two they accepted the same block exactly when no id stands for two transactions in their sets |
| `AgreementLimits.AgreementExactly` | src/Network/MessageManagement.cpp:501-524 | honest nodes that closed once each never accept different blocks, over all networks, runs and pairs of nodes, exactly when no two sets of admitted transactions have one set id; for any hash and with no exception; and the same over the runs of the code alone, with complete walks, nonempty pools, time to close and clocks that advance |
| `AgreementLimits.ThreeSuffice` | src/Network/MessageManagement.cpp:501-524 | that condition holds if admission lets one transaction through per id, no id of an admitted set is the hash of the empty string or met as an inner hash of admitted sets, and the hash does not collide on their trees |
| `AgreementLimits.OneSetIdTwoBlocks` | src/Consensus/Consensus.cpp:306-514 | whenever two nonempty sets have one set id, six events of the code lead two honest nodes to accept one each |
| `RunsOfTwo.Exchange` | src/Consensus/Consensus.cpp:306-514 | those events: from any world in which both can close, both close, hear each other and accept, and the world after is given |
| `LyingPeer.EmptiedTwoBlocks` | src/Consensus/Consensus.cpp:339-514 | when the set both closed with has the id of the empty set, a lying UNL member of one of them leads it to accept nothing and the other to accept the set |
| `LyingPeer.OneLieOneTick` | src/Consensus/Consensus.cpp:367-469 | in any valid established round, one empty set proposed under a set id new to the node, and the next revision: exactly those transactions stay in the position under whose id another transaction was disputed before |
| `ConsensusRound.RevisionTurns` | src/Consensus/Consensus.cpp:414-470 | a revision turns a dispute to no exactly when it meets it and a peer that is not dropped voted no |
| `LyingPeer.GivesUp` | src/Consensus/Consensus.cpp:367-469 | whatever set a node has closed with, one proposal of a lying UNL member and its next tick are a run of the code after which its position, newly shared, is empty |
| `AgreementLimits.OneIdTwoBlocks` | src/Ledger/Transaction.cpp:47-53 | whatever the hash, two transactions under one id: a run of the code leads two honest nodes to different blocks, each having closed once, and neither the hash nor an inner hash is to blame |
| `AgreementLimits.ChosenIdTwoBlocks` | src/Ledger/Transaction.cpp:47-53 | one transaction whose id is the hash of two others: all ids differ, the hash does not fail, and the same run leads to blocks that differ even in their ids |
| `AgreementLimits.TwoClosesTwoBlocks` | src/Consensus/Consensus.cpp:306-365 | why one close is asked for: on a run of the code with two closes each on one block, the second round some time later, both nodes accepted blocks that differ in their ids, under set ids that tell all positions apart |
| `AgreementLimits.GuardedAgreement` | src/Ledger/Transaction.cpp:31-37 | if ids had been recomputed at admission, accepting different blocks would exhibit a collision: of the node hash on the ids of two of their positions; or of a transaction of such a position, whose content hashes to what a pair hashed for these ids does or to the empty string's hash; or of two transactions of the two accepted sets, whose contents differ and hash to their common id |
| `AgreementLimits.FromPools` | src/Consensus/Consensus.cpp:339-448 | over every run, positions, broadcast proposals and accepted sets hold only transactions from the pools the nodes closed with; what others send is only compared with |
| `AgreementLimits.OutsidersSplit` | src/Consensus/Consensus.cpp:472-484 | one checked proposal to each of two honest nodes, signed by somebody on nobody's UNL, and each accepts what it closed with, whatever the other did |
| `Network.RunInv` | src/Consensus/Consensus.cpp:287-514 | the invariant behind it holds in every reachable world: valid rounds, positions with distinct ids, honest proposals recorded only if broadcast, histories that shrink, accepted ids endorsed by every honest UNL member |
| `Network.AcceptedIsContained` | src/Consensus/Consensus.cpp:472-514 | what a node accepted, each honest UNL peer once proposed under the same set id and, unless the hash failed or an id is an inner hash, over the same ids; whatever that peer accepts on the same block is a subset of its position then, the same one if none is missing |
| `Network.RevisionsAreBounded` | src/Consensus/Consensus.cpp:439-469 | among all positions a node broadcast in a round, a later number means a strictly smaller subset, numbers are unique, and none exceeds the size of the set at close |
| `Network.BooksBalance` | src/Consensus/ConsensusParams.cpp:16-45 | in every reachable state each dispute's counters are the numbers of its yes and no votes, voters are recorded peers, the counters together do not exceed the recorded peers, our vote says whether the transaction is in the position, and every recorded proposal names the round's previous block |
| `Network.SameIdSameIds` | src/Consensus/MerkleRootCompute.cpp:54-66 | two broadcast positions with one set id are over one list of transaction ids, or two of their positions are exhibited on which the hash failed or of which one has an inner hash as an id |
| `RoundRuns.RoundOnlyShrinks` | src/Consensus/Consensus.cpp:414-470 | from any moment of a round to any later one: no transaction joins the position, no dispute is lost, and our vote on a dispute turns at most once, from yes to no |
| `RoundRuns.NumbersRise` | src/Consensus/Consensus.cpp:367-388 | over any run inside the round, from its start on, the sequence number recorded for a peer never falls while the peer stays recorded |
| `RoundRuns.TickThenDeliver` | src/Consensus/Consensus.cpp:367-436 | across a tick and the next proposal of a recorded peer, its number falls exactly when the record was stale at the tick and the proposal is older than it |
| `RoundRuns.StepInRound` | src/Consensus/Consensus.cpp:306-337 | one event, of whichever node, inside the round: the numbers of peers that stay recorded never fall, and once the node has closed its position does not grow and its no votes stay |
| `ConsensusRound.NumberFallsIff` | src/Consensus/Consensus.cpp:367-428 | the same of the removal and the delivery step alone, for every complete walk over the peers and every valid round |
| `ConsensusRound.FallsIfDropped` | src/Consensus/Consensus.cpp:367-428 | on any walk, the number falls exactly when the walk drops the peer and the proposal is older |
| `ConsensusRound.NumberCanFall` | src/Consensus/Consensus.cpp:367-436 | an instance: after a removal walk over the one peer, an older proposal replaces the newer one |
| `ConsensusRound.UnknownIsRecorded` | src/Consensus/Consensus.cpp:367-388 | a proposal on the round's block from a peer not recorded is recorded, whatever its number |
| `ConsensusRound.ConsensusIffEnough` | src/Consensus/Consensus.cpp:472-484 | the acceptance test holds exactly when at least as many recorded peers agree as the UNL has members |
| `ConsensusRound.ConsensusIsUnanimity` | src/Consensus/Consensus.cpp:472-484 | with only UNL members recorded it holds exactly when every one of them is recorded with our set id |
| `ConsensusRound.UnanimityIff` | src/Consensus/Consensus.cpp:472-484 | in every valid round that asks for consensus, acceptance means that every UNL member agrees, whatever the recorded peers proposed, exactly when all of them are members, or they are fewer than the members, or the UNL is empty; the round that shows otherwise is a valid one in its establish phase |
| `ConsensusRound.OutsidersCount` | src/Consensus/Consensus.cpp:472-484 | an instance: with one member and one recorded outsider, the outsider's agreement is enough |
| `ConsensusRound.GotTxSetKeeps` | src/Consensus/Consensus.cpp:367-412 | a received proposal leaves a valid round, never touches our own position, votes or phase, and changes the record of at most its issuer, upwards |
| `ConsensusRound.CloseBlockOk` | src/Consensus/Consensus.cpp:339-365 | closing an open round leaves a valid one whose position is the pool inserted one by one: only pool transactions, one for each of their keys, proposed under their own id and number zero; peers stay as recorded |
| `RoundDisputes.CloseDisputes` | src/Consensus/Consensus.cpp:339-365 | after closing, an id is disputed exactly when some recorded peer proposed a known set, under another set id than ours, that differs from the position in a transaction with that id; every dispute holds exactly one vote for each recorded peer whose set is known: whether that set holds the transaction |
| `RoundDisputes.CreateDisputesExactly` | src/Consensus/Consensus.cpp:530-568 | comparing with a set disputes exactly the ids in which a new set that is not our own differs, leaves old disputes as they are, and starts each new one with the votes of the known sets |
| `RoundDisputes.DeliveryDisputes` | src/Consensus/Consensus.cpp:367-412 | a set new to a node with a position is stored with its transactions and its time; if it was not compared before and is not our own, all in which it differs is disputed; its proposers vote by it on every dispute, votes of others on old disputes stay, and on new ones are those of their known sets |
| `RoundDisputes.DeliveryOfKnown` | src/Consensus/Consensus.cpp:389-399 | a set known already keeps its transactions and gets the proposal's time, and nobody's vote changes |
| `RoundDisputes.RevisionMoves` | src/Consensus/Consensus.cpp:414-470 | after a revision the known sets are those younger than 20 seconds, as they were, and a new position of ours, with its transactions and the time; peers dropped have no votes left, proposers of a new position vote by it, and all others' votes stay |
| `ConsensusRound.UpdateProposalsShrinks` | src/Consensus/Consensus.cpp:414-470 | a revision leaves a valid round and either keeps the position or shares a strict subset of it under the next number; what left it is exactly what its dispute turned to no on, and the peers that go are exactly the stale ones the walk met |
| `ConsensusRound.ReVoteShrinks` | src/Consensus/Consensus.cpp:439-448 | revising the votes in any order takes out exactly the transactions whose dispute turned to no, a dispute turns exactly when it is met and somebody votes no, and nothing else of any dispute changes |
| `ConsensusRound.DropStalePeersOk` | src/Consensus/Consensus.cpp:415-428 | exactly the stale peers met on the walk go, every dispute loses exactly their votes, all other votes and records stay |
| `ConsensusRound.CreateDisputesOk` | src/Consensus/Consensus.cpp:530-568 | comparing with a set keeps every dispute and our vote and leaves the books right; if the set is new and not our own every transaction in which it differs has a dispute afterwards, and no other transaction ever gets one |
| `ConsensusRound.UpdateDisputesOk` | src/Consensus/Consensus.cpp:570-579 | recording a peer's set keeps the books and our votes, opens the missing disputes and no others, and on every dispute the peer's vote is now whether its set holds the transaction |
| `ConsensusRound.EraseKeepsOthers` | src/Consensus/Consensus.cpp:442-446 | taking one transaction out of a set takes out no other key |
| `ConsensusNode.Consensus.constructor` | src/Consensus/Consensus.cpp:287-294 | the node starts in the initial round |
| `ConsensusNode.Consensus.BeginConsensus` | src/Consensus/Consensus.cpp:296-304 | the object's state becomes the round's restart step |
| `ConsensusNode.Consensus.TimerEntry` | src/Consensus/Consensus.cpp:306-337 | state, shared proposal and accepted block are those of the tick step, for orders that walk every table the tick goes through completely |
| `ConsensusNode.Consensus.CloseBlock` | src/Consensus/Consensus.cpp:339-365 | state and shared proposal are those of the closing step, for an order that walks every peer once; `RoundDisputes.CloseDisputes` says which disputes it opens |
| `ConsensusNode.Consensus.GotTxSet` | src/Consensus/Consensus.cpp:367-412 | state is that of the delivery step, the walk covering all peers whenever a new set is compared |
| `ConsensusNode.Consensus.UpdateProposals` | src/Consensus/Consensus.cpp:414-470 | state and shared proposal are those of the revision step, the walks covering all peers, all disputes and, when the new set is not known yet, all remaining peers |
| `ConsensusNode.Consensus.DropStalePeers` | src/Consensus/Consensus.cpp:415-428 | state is that of the removal step |
| `ConsensusNode.Consensus.DropStaleSets` | src/Consensus/Consensus.cpp:429-437 | state is that of the set removal step |
| `ConsensusNode.Consensus.ReVote` | src/Consensus/Consensus.cpp:439-448 | state and new position are those of the voting step |
| `ConsensusNode.Consensus.MoveTo` | src/Consensus/Consensus.cpp:449-469 | state and shared proposal are those of the repositioning step, all peers walked when the set is new |
| `ConsensusNode.Consensus.Record` | src/Consensus/Consensus.cpp:378-399 | the issuer's record is replaced; a known set only gets the new time |
| `ConsensusNode.Consensus.HaveConsensus` | src/Consensus/Consensus.cpp:472-484 | the counting loop decides the acceptance test |
| `ConsensusNode.Consensus.OnAccept` | src/Consensus/Consensus.cpp:486-514 | the block carries the position, its id and the previous block, and the next round starts on the new one |
| `ConsensusNode.Consensus.CreateDisputes` | src/Consensus/Consensus.cpp:530-568 | state is that of the comparison step; new dispute objects are fresh, no two ids share one |
| `ConsensusNode.Consensus.OpenDispute` | src/Consensus/Consensus.cpp:552-564 | a new dispute carries one vote for every peer whose set is known |
| `ConsensusNode.Consensus.UpdateDisputes` | src/Consensus/Consensus.cpp:570-579 | state is that of the vote recording step |
| `Disputes.DisputeTransaction.SetVote` | src/Consensus/ConsensusParams.cpp:16-33 | the object changes by the vote step, decrements wrapping |
| `Disputes.DisputeTransaction.UnVote` | src/Consensus/ConsensusParams.cpp:35-45 | the object changes by the withdrawal step |
| `Disputes.DisputeTransaction.UpdateVote` | src/Consensus/ConsensusParams.cpp:47-64 | the new vote, and whether it changed |
| `Disputes.VoteIsUnanimity` | src/Consensus/ConsensusParams.cpp:47-64 | at every stage of a round the new vote is yes exactly when it was yes and nobody voted no |
| `Disputes.SetVoteKeepsTally` | src/Consensus/ConsensusParams.cpp:16-33 | counters that matched the entries still match, the entry is set, no decrement wraps |
| `Disputes.UnVoteKeepsTally` | src/Consensus/ConsensusParams.cpp:35-45 | the same for a withdrawal, and the entry is gone |
| `Disputes.TallyBound` | src/Consensus/ConsensusParams.cpp:16-45 | matching counters add up to the number of voters, at most that of the peers |
| `Transactions.Insert` | src/Ledger/Transaction.hpp:142-153 | inserting keeps the set ordered and has no effect exactly when the key is present |
| `Transactions.Erase` | src/Ledger/Transaction.hpp:142-153 | erasing removes exactly the element with the key |
| `Transactions.SymmetricDifference` | src/Consensus/Consensus.cpp:530-568 | the merging pass yields the elements of either set whose key the other lacks |
| `Transactions.SameElements` | src/Ledger/Transaction.hpp:142-153 | an ordered set is determined by its elements |
| `MerkleRoot.ComputeMerkleRoot` | src/Consensus/MerkleRootCompute.cpp:19-36 | the in-place halving loop ends with the root of the recursive level-by-level definition |
| `MerkleRoot.RootOfHalves` | src/Consensus/MerkleRootCompute.cpp:19-36 | over two halves of equal length, a power of two, the root is the hash of the left root and then the right one |
| `MerkleRoot.OddLevel` | src/Consensus/MerkleRootCompute.cpp:19-36 | an odd level goes on with its last element hashed with itself |
| `MerkleRoot.ComputeTxSetMerkleRoot` | src/Consensus/MerkleRootCompute.cpp:54-66 | the id of a transaction set |
| `MerkleRoot.EqualRoots` | src/Consensus/MerkleRootCompute.cpp:19-36 | equal roots of duplicate-free lists mean equal lists, or a failure of the hash is exhibited (two inputs hashed to one output, or one to the empty string's hash), or a leaf that is such an output or the empty string's hash |
| `MerkleRoot.Descend` | src/Consensus/MerkleRootCompute.cpp:19-36 | two towers that meet at heights m and n already met m levels below |
| `MerkleRoot.RepeatedLastLeaf` | src/Consensus/MerkleRootCompute.cpp:19-36 | repeating the last leaf of an odd list does not change the root, so duplicate-freeness is needed |
| `MerkleRoot.EmptyRoot` | src/Consensus/MerkleRootCompute.cpp:19-36 | only a leaf or a hash equal to the empty constant gives a nonempty list the empty root |
| `MerkleRoot.TxSetIdInjective` | src/Consensus/MerkleRootCompute.cpp:54-66 | among sets with distinct ids, equal set ids mean equal lists of transaction ids, or a failure of the hash, or an id that is an inner hash, each exhibited; and with equal lists the sets are equal exactly when no id stands for two transactions |
| `Ledger.PassOk` | src/Consensus/Consensus.cpp:160-255 | after the whole pass the differences are congruent to the net flows of the applied transactions modulo 2^32, carry the last sequence numbers, and what was applied is ordered and authorised by the store |
| `LedgerVerdicts.PassDecides` | src/Consensus/Consensus.cpp:160-255 | every transaction of a block is decided: it is applied exactly when its sender has an account, the stored sequence number is smaller, and the stored balance covers it together with what the sender's earlier applied transactions spend; it is kept exactly when it is applied or its sender has no account; both outcomes hold nothing else, in set order |
| `LedgerVerdicts.DecidedOnce` | src/Consensus/Consensus.cpp:160-255 | only one pair of outcomes is decided so |
| `LedgerVerdicts.BlockDecides` | src/Consensus/Consensus.cpp:261-283 | an executed block keeps these transactions whether or not all receivers have accounts, and applies these or none |
| `Ledger.NoRun` | src/Consensus/Consensus.cpp:194-214 | the duplicate-sequence branch is never taken on an ordered set |
| `Ledger.DiffsFitLong` | src/Storage/AccountStorage.hpp:70-74 | below 2^30 applied transactions the differences fit 64 bits |
| `Ledger.PostMoves` | src/Consensus/Consensus.cpp:236-249 | posting a transaction moves an account's difference by its flow, plus 2^32 at most for a first debit |
| `LedgerNode.AccountBalanceStorage.GetBalance` | src/Storage/AccountStorage.cpp:37-50 | found exactly when stored, with the stored account |
| `LedgerNode.AccountBalanceStorage.SetBalancesByAccDiffs` | src/Storage/AccountStorage.cpp:67-94 | all differences are settled when every account exists; otherwise a missing one is named and nothing is written |
| `LedgerNode.AccountBalanceStorage.CountAccountDifferences` | src/Consensus/Consensus.cpp:160-255 | the iterator loop that erases from the set yields the filtered set and the differences of the recursive pass, which `LedgerVerdicts.PassDecides` determines transaction by transaction |
| `LedgerNode.AccountBalanceStorage.SkipRun` | src/Consensus/Consensus.cpp:194-214 | the peeking loop erases exactly the run of repeated sequence numbers and the element before it |
| `LedgerNode.AccountBalanceStorage.PostDifferences` | src/Consensus/Consensus.cpp:236-249 | the two map updates post one transaction, sender first |
| `LedgerNode.ConsensusWrapper.ExecuteBlock` | src/Consensus/Consensus.cpp:261-283 | the store and the block's set are those of the block step, the pool loses exactly the block's ids, count and root are renewed exactly when the set shrank and nothing was missing |
| `LedgerRuns.BatchRefinesReplay` | src/Storage/AccountStorage.cpp:67-94 | settling the differences of a block, in whatever order, leaves the store of replaying its applied transactions one by one in set order |
| `LedgerRuns.SucceedsIff` | src/Storage/AccountStorage.cpp:67-94 | a block is written exactly when every receiver of an applied transaction has an account; otherwise the store stays as it was |
| `LedgerRuns.SupplyModulo` | src/Consensus/Consensus.cpp:236-249 | a block keeps the sum of all balances modulo 2^32, whatever it contains |
| `LedgerRuns.SupplyExact` | src/Consensus/Consensus.cpp:236-249 | when the supply is below 2^32 it keeps the sum exactly |
| `SupplyBound.SupplyKeptIff` | src/Consensus/Consensus.cpp:236-249 | for a store whose sequence numbers have room, every block keeps the sum exactly when the supply is below 2^32: past it, the block in which all send everything to one account loses money |
| `LedgerRuns.NeverOverdrawn` | src/Consensus/Consensus.cpp:215-222 | with a supply below 2^32 no step of the replay overdraws its sender or overflows its receiver |
| `LedgerRuns.StageExact` | src/Storage/AccountStorage.cpp:67-94 | and then the 32-bit balances of every stage are the exact ones |
| `LedgerRuns.SequencesRise` | src/Consensus/Consensus.cpp:223-230 | a block never lowers a stored sequence number and raises it past every transaction it applies |
| `LedgerRuns.AtMostOnce` | src/Consensus/Consensus.cpp:261-283 | over any sequence of blocks no sender and sequence number is applied twice, and stored numbers never fall |
| `LedgerRuns.FilterIsStable` | src/Consensus/Consensus.cpp:160-255 | filtering what the filter kept against the same store removes nothing and yields the same differences |
| `Rounding.DecomposeIsExact` | extern/PQClean/dilithium2/rounding.c:57-85 | the multiply-high and rounding-multiply code computes Decompose of FIPS 204 on every field element, wrap at the top included, with both reciprocals |
| `Rounding.RoundedIsNearest` | extern/PQClean/dilithium3/rounding.c:57-83 | the approximated quotient is the nearest multiple of 2*GAMMA2, ties downwards |
| `Rounding.DecomposeInRange` | extern/PQClean/dilithium2/rounding.c:57-85 | high parts are below the number of high values, low parts within GAMMA2 |
| `Rounding.UseHintIsStandardIff` | extern/PQClean/dilithium2/rounding.c:136-157 | the vector code and UseHint of FIPS 204 agree exactly unless a hint is set on a low part of zero |
| `Rounding.HintMeansChange` | extern/PQClean/dilithium2/rounding.c:99-124 | a hint is raised exactly when the shift changes the high part the verifier computes |
| `Rounding.HintRecovers` | extern/PQClean/dilithium2/rounding.c:57-157 | for every high part and every u and v the signer does not reject, using the hint recovers the high part, by the vector code and by the standard's UseHint |
| `RoundingVectors.DecomposeAvx` | extern/PQClean/dilithium2/rounding.c:57-85 | both output arrays hold the decompositions, also when the input is overwritten |
| `RoundingVectors.UseHintAvx` | extern/PQClean/dilithium2/rounding.c:136-157 | every coefficient is stepped by its hint, also in place |
| `RoundingVectors.MakeHintAvx` | extern/PQClean/dilithium2/rounding.c:99-124 | the hint array starts with the positions of all raised flags, ascending, and their number is returned |
| `RoundingVectors.CompactFlags` | extern/PQClean/dilithium2/rounding.c:116-120 | one vector step of the compaction: a whole table row is stored, the counter advances by the set bits |
| `Compaction.Lut` | extern/PQClean/dilithium2/rejsample.c:7-264 | a table row starts with the set positions of its index |
| `Compaction.OnesIsTheList` | extern/PQClean/dilithium2/rejsample.c:7-264 | the positions of the set bits are the one ascending list of them |
| `Compaction.CompactStep` | extern/PQClean/dilithium2/rejsample.c:7-264 | storing the shifted row after the positions so far continues the list by eight lanes |
| `HintCodec.UnpackPacked` | extern/PQClean/dilithium2/packing.c:184-259 | every vector with at most OMEGA ones is accepted when packed and unpacks to itself |
| `HintCodec.PackUnpacked` | extern/PQClean/dilithium2/packing.c:184-259 | accepted bytes are exactly the packing of what they unpack to |
| `HintCodec.AcceptsIff` | extern/PQClean/dilithium2/packing.c:230-259 | bytes are accepted exactly when they are the packing of some vector |
| `HintCodec.EncodedBytes` | extern/PQClean/dilithium2/packing.c:184-198 | the format byte by byte: byte OMEGA + i counts the flags of the rows up to i, between two counts stand the positions of one row's flags, ascending, and the bytes left are zero |
| `HintCodec.PackHint` | extern/PQClean/dilithium2/packing.c:184-198 | the nested loops write HintBitPack of FIPS 204 |
| `HintCodec.UnpackHint` | extern/PQClean/dilithium2/packing.c:230-259 | the loop with its early returns accepts exactly the packings and returns the vector packed |
| `HintCodec.UnpackRow` | extern/PQClean/dilithium2/packing.c:233-249 | a row is rejected exactly when its count falls or exceeds OMEGA or its positions do not ascend |
| `HintCodec.CheckTail` | extern/PQClean/dilithium2/packing.c:252-257 | the tail is rejected exactly when an unused position is not zero |
| `SignHints.SignHintLoop` | extern/PQClean/dilithium2/sign.c:197-229 | signing rejects exactly when the flags exceed OMEGA, and otherwise the signature holds their packing |
| `SignHints.VerifyHintLoop` | extern/PQClean/dilithium2/sign.c:331-356 | verification accepts exactly the canonical hint bytes and uses the hints they decode to |
| `SignHints.HintsRecoverCommitment` | extern/PQClean/dilithium2/sign.c:197-356 | end to end: the hint bytes of an unrejected signature are accepted, and with them the verifier recovers every committed high part |
| `RejectionSampling.PolyUniform` | extern/PQClean/dilithium2/poly.c:372-385 | the coefficients are, in order, the first 256 numbers below 8380417 among those of the first 23 bits of every three bytes of the stream, whatever stands in the bytes past the squeezed ones |
| `RejectionSampling.RejUniformAvx` | extern/PQClean/dilithium2/rejsample.c:266-311 | vector steps, early break and scalar tail keep the first accepted candidates of the buffer |
| `RejectionSampling.RejUniform` | extern/PQClean/dilithium2/poly.c:337-359 | the scalar loop appends the accepted candidates, at most as many as asked for; `RejectionSampling.CandidateIsBits` says what a candidate is |
| `RejectionSampling.CandidateIsBits` | extern/PQClean/dilithium2/poly.c:347-350 | a candidate is the number of the first 23 bits of its three bytes, in the order of BytesToBits of FIPS 204 |
| `RejectionSampling.OwnCandidate` | extern/PQClean/dilithium2/poly.c:347-350 | every number below 2^23 is the candidate of its own three bytes, lowest first, whatever their last bit |
| `RejectionSampling.VectorStep` | extern/PQClean/dilithium2/rejsample.c:279-291 | one permuted store and the population count append exactly the accepted of eight candidates |
| `RejectionSampling.GoodLanes` | extern/PQClean/dilithium2/rejsample.c:285-288 | gathering the good lanes by the table is accepting their candidates one by one |
| `RejectionSampling.SampledBlock` | extern/PQClean/dilithium2/poly.c:372-385 | cutting the stream into blocks loses and reorders nothing |
| `RejectionSampling.SampledSettles` | extern/PQClean/dilithium2/poly.c:372-385 | all long enough prefixes of the stream give the same coefficients |
| `Challenge.PolyChallenge` | extern/PQClean/dilithium2/poly.c:644-674 | the result is SampleInBall of FIPS 204 on the stream, across all buffer refills, with exactly TAU nonzero coefficients, each 1 or -1 |
| `Challenge.BallWeight` | extern/PQClean/dilithium2/poly.c:658-672 | every draw adds exactly one nonzero coefficient and leaves the rest of the polynomial untouched |
| `Challenge.EveryBallIsReached` | extern/PQClean/dilithium2/poly.c:658-672 | conversely every polynomial of that weight comes from some draws and signs |
| `Challenge.BallSigns` | extern/PQClean/dilithium2/poly.c:669-671 | a clear sign bit places 1 and a set one -1: there are as many coefficients -1 as set bits among those used, and the last draw holds its own sign |
| `Challenge.EveryDrawIsDrawn` | extern/PQClean/dilithium2/poly.c:644-674 | any draws that fit and any 64 sign bits are those of some stream |
| `Challenge.EveryChallengeComesOut` | extern/PQClean/dilithium2/poly.c:644-674 | so every polynomial of weight TAU with coefficients -1, 0 and 1 is the challenge of some stream |
| `Challenge.PathUnique` | extern/PQClean/dilithium2/poly.c:660-667 | the bytes used for the draws are determined by the stream |
| `Challenge.LoadIsNumber` | extern/PQClean/dilithium2/poly.c:654-655 | the sign word lists the bits of its eight bytes in the order of BytesToBits of FIPS 204 |
| `Challenge.Draw` | extern/PQClean/dilithium2/poly.c:660-667 | the inner loop returns the first byte that fits, refilling the buffer on the way |
| `Challenge.Place` | extern/PQClean/dilithium2/poly.c:669-671 | the two assignments are the swap, the sign is the low bit of the word |
| `Words64.ShakeSplits` | extern/PQClean/common/fips202.c:533-580 | SHAKE128 and SHAKE256: for every split of the input into absorb calls and of the output into squeeze calls, all bytes put out are the sponge of the whole input, bytes being read and written at their own places of 64-bit lanes (`Words64.U64Laws`) |
| `Lanes.SplitsDoNotMatter` | extern/PQClean/common/fips202.c:440-523 | the same for any rate, permutation and domain byte, under the exact condition below |
| `Lanes.FinalizeAgreesIff` | extern/PQClean/common/fips202.c:477-483 | incremental and one-shot absorption leave the same state exactly when the domain byte's top bit is clear or the message does not leave one byte of the block |
| `Lanes.OneShotSqueezes` | extern/PQClean/common/fips202.c:349-405 | squeezing what one-shot absorption leaves yields SPONGE[f, pad10*1, r] of section 4 of FIPS 202 |
| `Lanes.XorLane` | extern/PQClean/common/fips202.c:361-363 | xoring a loaded word into a lane is xoring its eight bytes into the state |
| `Sponge.FeedBlocks` | extern/PQClean/common/fips202.c:440-462 | absorbing byte by byte, permuting whenever the block is full, is absorbing block by block |
| `Sponge.FeedConcat` | extern/PQClean/common/fips202.c:440-462 | absorbing in two calls is absorbing the concatenation |
| `Sponge.PaddedIsAbsorbed` | extern/PQClean/common/fips202.c:349-380 | padding and one permutation complete the reference absorption |
| `Sponge.OutputMore` | extern/PQClean/common/fips202.c:498-523 | what a squeeze call puts out continues what the calls before it put out |
| `Sponge.OutIsXof` | extern/PQClean/common/fips202.c:498-523 | byte i squeezed is byte i of the blocks read off f(s), f(f(s)) and so on |
| `Words64.U64Laws` | extern/PQClean/common/fips202.c:27-49 | the shifts, ors and xors on 64-bit words obey the laws used: a byte shifted up to a place is read at that place and nowhere else, xor works byte by byte, or-ing above the bits of a word is xoring, and the last padding bit xored in is the same as or-ed in exactly when it was clear |
| `Words64.PlacesOfShl` | extern/PQClean/common/fips202.c:27-49 | place k of a word is its bits from 8k on |
| `Words64.PaddingBits` | extern/PQClean/common/fips202.c:369-377 | the padding bytes of SHAKE are the bits 1111 followed by pad10*1 |
| `Lanes.XorAtReads` | extern/PQClean/common/fips202.c:440-462 | xoring a byte into the state changes that byte and no other |
| `Lanes.AbsorbedReads` | extern/PQClean/common/fips202.c:440-462 | a message xored into the zero state is read back byte by byte, and zeros behind it |
| `Lanes.WordReads` | extern/PQClean/common/fips202.c:27-49 | a loaded word has the bytes it was loaded from |
| `Lanes.OneBlockSponge` | extern/PQClean/common/fips202.c:349-405 | for a message shorter than a block, the bytes put out are those of the permutation of the state that holds message, padding and zeros, and after r bytes those of the next permutation |
| `Fips202.SpongeState.constructor` | extern/PQClean/common/fips202.c:417-424 | the state starts at zero |
| `Fips202.SpongeState.IncAbsorb` | extern/PQClean/common/fips202.c:440-462 | the new state is that of feeding the bytes one at a time, and fewer than r bytes stay pending |
| `Fips202.SpongeState.IncFinalize` | extern/PQClean/common/fips202.c:477-483 | both padding bytes are xored in |
| `Fips202.SpongeState.IncSqueeze` | extern/PQClean/common/fips202.c:498-523 | the buffer gets the next bytes of the stream and nothing else, and the state advances by as many |
| `Fips202.SpongeState.Absorb` | extern/PQClean/common/fips202.c:349-380 | the lanes become those of the padded message |
| `Fips202.SpongeState.LastBlock` | extern/PQClean/common/fips202.c:369-377 | the buffer t holds the rest of the message and its padding |
| `Fips202.SpongeState.SqueezeBlocks` | extern/PQClean/common/fips202.c:395-405 | whole blocks of the stream are written, and a later call continues it |
| `Fips202.SpongeState.OneShotXof` | extern/PQClean/common/fips202.c:695-745 | for every output length the output is the sponge of the input |
| `BlockTree.RunKeepsTree` | src/Consensus/Chain.cpp:18-89 | over every run of inserts, updates and hash assignments, copies under new ids included, child links stay acyclic |
| `BlockTree.SequenceRises` | src/Consensus/Chain.cpp:63-73 | after n replacements of the valid block its sequence number is at least n higher, and nothing else moves it |
| `BlockTree.ReplacedIsAssignable` | src/Consensus/Chain.cpp:75-89 | right after a replacement in any reachable tree, the node and the parent that the hash assignment dereferences are there |
| `BlockTree.ChildsFrozen` | src/Consensus/Chain.cpp:63-73 | the valid block's own list of children is that of the moment it was copied |
| `BlockTree.InsertLinks` | src/Consensus/Chain.cpp:18-61 | an inserted block is reachable by links from the valid block exactly when its parent was by at least one link, and for every other block nothing changes |
| `BlockTree.Chain.constructor` | src/Consensus/Chain.hpp:65-68 | the tree starts with the genesis block |
| `BlockTree.Chain.InsertBlock` | src/Consensus/Chain.cpp:18-61 | the tree changes by the insertion step and stays acyclic |
| `BlockTree.Chain.UpdateValidBlock` | src/Consensus/Chain.cpp:63-73 | it succeeds exactly on a known block with quorum and a greater sequence number; then that block's node becomes the valid block, otherwise it stays, and no node changes |
| `BlockTree.AssignSets` | src/Consensus/Chain.cpp:75-89 | the account hash stands in the valid block's header and in its node's, the block's id is the hash of that header, and when that id is free the block is entered under it and becomes its parent's valid child |
| `BlockTree.InsertSets` | src/Consensus/Chain.cpp:18-61 | a new block is entered under its hash as the last child of the block it names as previous, and no other node changes |
| `BlockTree.Chain.AssignAccountHash` | src/Consensus/Chain.cpp:75-89 | the tree changes by the assignment step and stays acyclic |
| `BlockTree.Chain.PreferredBlock` | src/Consensus/Chain.cpp:119-149 | it terminates for any support counts; every step down goes to the first child of greatest support, whose uncommitted count is below its support also together with the second-best support, and it ends where no child passes this test |
| `BlockTree.PreferredUnique` | src/Consensus/Chain.cpp:119-149 | only one node is the end of such a walk |
| `BlockTree.Chain.BestChild` | src/Consensus/Chain.cpp:129-139 | the loop finds the first child of greatest support; its second-best support is the greatest among the children before that one, zero if there are none |
| `Wire.BlockRoundTrip` | src/Ledger/Block.cpp:104-112 | a well-formed block followed by anything reads back as itself, using up exactly its bytes |
| `Wire.ProposalRoundTrip` | src/Consensus/Proposal.cpp:154-185 | the same for a transaction set proposal |
| `Wire.WrittenBackIff` | src/Ledger/Block.cpp:80-98 | a body that was read is written back byte for byte exactly when its transactions came in strictly ascending key order |
| `Wire.DecodeEncode` | src/Ledger/Transaction.cpp:62-85 | a record with its signature reads back as itself |
| `Wire.EncodeDecode` | src/Ledger/Transaction.cpp:62-85 | whatever record is read was written in exactly those bytes |
| `Wire.GetAllPutAll` | src/Common/Serialize.hpp:28-47 | fields read back as written |
| `Wire.PutAllGetAll` | src/Common/Serialize.hpp:28-47 | and fields read were written in exactly those bytes |
| `Wire.CollectOrdered` | src/Ledger/Block.cpp:89-98 | inserting an ascending list one by one gives that list |
| `Wire.CollectKeepsFirst` | src/Ledger/Block.cpp:89-98 | inserting any list one by one gives, in order, exactly the first transaction of every key |
| `WireFields.TransactionBytes` | src/Ledger/Transaction.cpp:62-108 | a transaction is written as version, sequence number, amount, timestamp, sender, receiver, id, signature size and signature: 216 bytes and the signature |
| `WireFields.HeaderBytes` | src/Ledger/Block.cpp:37-53 | a header is written as version, sequence, size and its three hashes: 204 bytes |
| `WireFields.ProposalBytes` | src/Consensus/Proposal.cpp:139-165 | a proposal's record is written as type, number, time, issuer, set id, previous block, signature size and signature: 212 bytes and the signature |
| `WireFields.BytesOfU32` | src/Common/Serialize.hpp:28-47 | integers are written lowest byte first |
| `WireFields.BlobOrder` | src/Ledger/Transaction.hpp:142-153 | the order of two addresses is that of their bytes under memcmp |
| `WireFields.SameOrder` | src/Ledger/Transaction.hpp:142-153 | transactions read off the wire are ordered as those of the rounds and the ledger are |
| `WireBuffers.BlockThroughBuffer` | src/Ledger/Block.cpp:104-112 | a block written at any offset over anything is read back from there, advancing the offset by its size |
| `WireBuffers.ProposalThroughBuffer` | src/Consensus/Proposal.cpp:154-185 | the same for a proposal |
| `WireBuffers.SerializeTx` | src/Ledger/Transaction.cpp:55-108 | it succeeds exactly when id, addresses and signature are there and the buffer has room, writes the transaction and nothing else, and otherwise writes nothing |
| `WireBuffers.SerializeBody` | src/Ledger/Block.cpp:72-87 | it succeeds exactly when all transactions are complete and the buffer has room; in every case what it leaves in the buffer is said: nothing when it is not begun, else the body up to the first incomplete transaction, with the offset moved by as much and no other byte changed |
| `WireBuffers.SerializeBlock` | src/Ledger/Block.cpp:37-107 | the same with the header's three hashes set; a block whose body fails leaves its header and that much of the body |
| `WireBuffers.SerializeProposal` | src/Consensus/Proposal.cpp:139-167 | the same for a signed proposal |
| `WireBuffers.DeserializeBody` | src/Ledger/Block.cpp:89-98 | reading the transactions one by one into the set decodes the body, with the offset moved by the bytes used |
| `WireBuffers.DeserializeBlock` | src/Ledger/Block.cpp:56-112 | reading a block decodes it, with the offset moved by the bytes used |
| `WireBuffers.DeserializeProposal` | src/Consensus/Proposal.cpp:169-185 | reading a proposal decodes it, with the offset moved by the bytes used |

## Left out

- Sockets, polling, threads, mutexes, connection management and message dispatch: the network is a set of sent
  proposals, and a connection is taken to carry its own UNL member's proposals. Signatures of honest nodes are not
  forged. What a received set adds to a pool is part of the arbitrary pool.
- Time, `converge_`, the preferred block, the iteration order of the pool and the id of a new block are arbitrary
  inputs of a tick. The order in which a hash table is walked is an argument, and the class picks any.
- SHA-512 is any function; the block hash and the node hash are parameters. Signing, verifying and key generation
  are not modelled, and transaction ids are taken as given.
- Network.Agreement: stated for nodes that closed at most one round on the block; after two closes it fails
  (`AgreementLimits.TwoClosesTwoBlocks`). A `Tx` has no version and no timestamp.
- ConsensusNode.Consensus.OnAccept: without the block proposal, the chain insertion and the execution of the block,
  which `BlockTree` and `LedgerNode` model on their own.
- LedgerNode.ConsensusWrapper.ExecuteBlock: without the wallet notifications, the account merkle root, the chain
  and block storage calls and the block's size. Senders must not be null, which admission checks
  (src/Ledger/Transaction.cpp:18-29). LevelDB is a map whose batch write does not fail.
- LedgerNode.AccountBalanceStorage.CountAccountDifferences: asks that no sender is null, which admission checks
  (src/Ledger/Transaction.cpp:18-29). Given one, the code posts under the empty key, which is no account's.
- RejectionSampling.PolyUniform: on a stream with fewer than 256 acceptable candidates the code does not return,
  so enough of them are required. `Challenge.PolyChallenge` likewise requires that all its draws find a byte.
- Fips202.SpongeState.IncAbsorb: sizes are unbounded, so the overflow of `mlen + s_inc[25]` near 2^64 is not
  modelled. Keccak-f[1600] is any function on 25 words.
- BlockTree.Chain.InsertBlock: leaves out tip support and `validations`, whose bookkeeping does not keep the counts
  its comments describe and which dereferences an end iterator (src/Consensus/Chain.cpp:50-52). Support, uncommitted
  and quorum answers are inputs.
- BlockTree.Chain.AssignAccountHash: the shared header is updated in the valid block and in its node, not in nodes
  it was copied to before; their ids and links do not depend on it.
- WireBuffers.SerializeProposal: `BlockProposal` is the same pieces again and is not modelled.
- Wire.Insert: the records on the wire carry version, timestamp and signature, which the transactions of the rounds and
  the ledger do not, so the ordered set appears for both; `WireFields.SameOrder` relates the two.
- Compaction.Lut: the 256 rows of the table are replaced by their meaning.
- SignHints.SignHintLoop: without the norm rejections of the same loop and the retry.
- AVX intrinsics are their eight lane operations; `rej_eta`, mask expansion, the NTT,
  Montgomery arithmetic, AES, random bytes, Falcon and Kyber are not modelled, nor are the four-way samplers.
- Wallets, account addresses, inventory messages, configuration, logging and printing.
