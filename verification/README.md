# Verified models of ledger agreement and ed25519 arithmetic

Dafny models of two parts of the SupplyFinanceChain server, with proofs of what
they are for. `dafny verify dfyconfig.toml` checks the whole project. Nothing
here runs the original program.

## What is modelled

**The ledger trie** (`Collections`, `Histories`, `Spans`, `TrieShape`,
`TrieSteps`, `TrieCanonical`, `TriePreferred`, `TrieInvariants`, `LedgerTrie`).
The compressed trie of ledger ancestry behind the choice of the preferred ledger.
Nodes are heap objects with parent and child links, as in the original; proofs
speak of snapshots of them. A ledger is its chain of ids from genesis, and an
id names one history (`Known`), which is the assumption the original states.
The main results: the preferred ledger is the one a plain vote over the
multiset of validations walks to; an accepted step at or above the largest
issued sequence number is stable, and one below exactly under a condition on
the later validations; the nodes depend only on the validations; and all
queries and the self-check agree with the multiset after any run.

**Consensus rounds** (`ConsensusTypes`, `Disputes`, `Thresholds`,
`DisputeBook`, `Consensus`). The round state machine as a class with the
original's fields. The application behind it answers arbitrarily, within what
the original relies on: a set or ledger that is acquired has the id asked for,
ids of sets are injective, and closing gives a position that names its set and
has the first sequence number. What it has answered is kept in a ghost log, so
that contracts say what is done with each answer. The main results: invariants over whole runs
(`Run`, `RoundSafety`, `DisputesComplete`), agreement by overlap of proposer
sets, the close-time vote, and the settling of our own votes.

**Streaming SHA-512** (`Sha512`). Buffering, the 128-bit bit counter and the
padding around an arbitrary block function.

**ed25519 numbers** (`Digits`, `Scalars`, `Groups`, `Recoding`, `ScalarMult`,
`BatchScalars`, `IndexHeaps`, `WeightedSums`, `CommonDivisors`, `BosCoster`,
`ModM`, `ScalarCodec`, `Field25519`). Barrett reduction modulo the group order,
51-bit limb arithmetic modulo 2^255 - 19 with its exponentiation chains and byte
formats, the signed recodings with the scalar multiplication drivers, and the
Bos-Coster loop of batch verification.
Points are elements of any abelian group. Words are integers: masks and right
shifts are remainders and quotients, left shifts and subtractions wrap at 2^64
explicitly, an `or` of values without common bits is a sum, and a selection by
an all-ones or all-zeros mask is a conditional. Where a word or a 128-bit sum
must not overflow, that is proved.

In the batch loop, the short scalars are the 128-bit ones that join the heap
late.

## Where the code and its comments differ

- The comment above `curve25519_square_times` says the result is in^(2 * count);
  the code computes in^(2^count), which is what its callers rely on.
- The comment above `getPreferred` promises stability without a bound. It holds
  for accepted steps at or above the largest issued sequence number, and below
  it exactly for those whose lead without the uncommitted validations still
  exceeds their number (`AcceptedStepStableExactly`); others are accepted too
  (`UnstableBelowIssued`).
- `ge25519_multi_scalarmult_vartime_final` handles the leading bit of a scalar
  although the result already holds the point (`Final`, `FinalIsExact`).
- `ge25519_multi_scalarmult_vartime` leaves out the short scalars if the others
  never become short with two of them set (`MultiScalarMult`).
- The comment above `LedgerTrie` lets a node without tip support have no
  children; the code removes such nodes, and `checkInvariants` refuses them.
- Two participants can agree on two close times at once (`OneWinnerUnlessTwo`).

## Model

| member | source | states |
|---|---|---|
| `LedgerTries.LedgerTrie.GetPreferred` | SupplyFinanceChain/src/SupplyFinanceChain/consensus/LedgerTrie.h:678-772 | For every valid trie and every largest issued sequence number, the answer is none exactly when there are no validations, and otherwise the tip the plain one-sequence-at-a-time walk over the multiset of validations ends at; span jumps and child order do not matter, and the trie stays valid |
| `Histories.AcceptedStepIsStable` | SupplyFinanceChain/src/SupplyFinanceChain/consensus/LedgerTrie.h:658-668 | A step accepted at a sequence number at or above the largest issued one is stable: it stays the first choice by (branch support, id) however all validations below that number are moved, to unknown siblings too |
| `Histories.AcceptedStepStableExactly` | SupplyFinanceChain/src/SupplyFinanceChain/consensus/LedgerTrie.h:658-668 | Exactly when an accepted step is stable: it lies at or above the largest issued number, or, without the uncommitted validations, its support exceeds their number and so does its lead over every other child, where an equal lead needs the larger id |
| `Histories.StableExactly` | SupplyFinanceChain/src/SupplyFinanceChain/consensus/LedgerTrie.h:658-668 | For all validations, any cut-off and any child, accepted or not: no way of moving the earlier validations overtakes it if and only if it leads every other id among the later ones by more than their number, or by exactly as many with the larger id |
| `Histories.StableByCounting` | SupplyFinanceChain/src/SupplyFinanceChain/consensus/LedgerTrie.h:658-668 | That condition needs checking for the children the later validations name only, once the support of the child itself exceeds the number that can move |
| `Histories.UnstableBelowIssued` | SupplyFinanceChain/src/SupplyFinanceChain/consensus/LedgerTrie.h:658-668 | A family of accepted steps below the largest issued number that are not stable: earlier validations outnumber later ones and all move to one sibling, which overtakes the child |
| `Histories.StabilityNeedsIssuedBound` | SupplyFinanceChain/src/SupplyFinanceChain/consensus/LedgerTrie.h:658-668 | A concrete instance of that failure: three validations, two of which move |
| `Histories.AcceptedLead` | SupplyFinanceChain/src/SupplyFinanceChain/consensus/LedgerTrie.h:730-770 | An accepted child leads every sibling, known or not, by more than the uncommitted validations, or by exactly as many with the larger id |
| `Histories.MarginWithRunnerUp` | SupplyFinanceChain/src/SupplyFinanceChain/consensus/LedgerTrie.h:737-762 | The margin over a runner-up is the lead in branch support, plus one when the id is larger |
| `Histories.OnlyChildAccepted` | SupplyFinanceChain/src/SupplyFinanceChain/consensus/LedgerTrie.h:732-736 | When all validations extend one child, it is accepted as soon as they outnumber the uncommitted ones |
| `Histories.WalkAccepts` | SupplyFinanceChain/src/SupplyFinanceChain/consensus/LedgerTrie.h:764-767 | Where a step is accepted the walk continues from that child |
| `Histories.WalkStops` | SupplyFinanceChain/src/SupplyFinanceChain/consensus/LedgerTrie.h:764-769 | Where the best child is not accepted the walk ends |
| `Histories.WalkExtends` | SupplyFinanceChain/src/SupplyFinanceChain/consensus/LedgerTrie.h:670-671 | The walk only ever extends the ledger it starts from |
| `TriePreferred.WalkAlong` | SupplyFinanceChain/src/SupplyFinanceChain/consensus/LedgerTrie.h:697-721 | Along a span, every sequence number at which the branch outnumbers the uncommitted is a step of the plain walk |
| `TriePreferred.WalkStopsInside` | SupplyFinanceChain/src/SupplyFinanceChain/consensus/LedgerTrie.h:722-725 | Stopping inside a span is where the plain walk stops |
| `TriePreferred.LeaderMargin` | SupplyFinanceChain/src/SupplyFinanceChain/consensus/LedgerTrie.h:737-762 | The margin computed from the two foremost child nodes is the margin of the plain vote |
| `TriePreferred.WalkToChild` | SupplyFinanceChain/src/SupplyFinanceChain/consensus/LedgerTrie.h:764-767 | Moving on to the leading child node is exactly an accepted step of the plain walk |
| `TriePreferred.WalkStopsAtLeaf` | SupplyFinanceChain/src/SupplyFinanceChain/consensus/LedgerTrie.h:766-769 | A node without children is where the plain walk stops |
| `TriePreferred.ReorderKeeps` | SupplyFinanceChain/src/SupplyFinanceChain/consensus/LedgerTrie.h:739-751 | Sorting children leaves what the trie represents untouched |
| `LedgerTries.LedgerTrie.Insert` | SupplyFinanceChain/src/SupplyFinanceChain/consensus/LedgerTrie.h:447-526 | Adds exactly the given count to the multiset of validations; the trie is valid afterwards if and only if the count is positive or the ledger already calls for a node and an entry |
| `LedgerTries.LedgerTrie.Remove` | SupplyFinanceChain/src/SupplyFinanceChain/consensus/LedgerTrie.h:535-583 | Takes away the smaller of the count and what there is, reports whether there was any, and keeps the trie valid |
| `LedgerTries.LedgerTrie.Place` | SupplyFinanceChain/src/SupplyFinanceChain/consensus/LedgerTrie.h:450-516 | After splitting a span and hanging a leaf as needed, a node stands for the ledger and the trie represents the same validations |
| `LedgerTries.LedgerTrie.SplitSpan` | SupplyFinanceChain/src/SupplyFinanceChain/consensus/LedgerTrie.h:476-500 | Splits a node in place, children and parent links included, into the node for the prefix and one for the rest |
| `LedgerTries.LedgerTrie.HangLeaf` | SupplyFinanceChain/src/SupplyFinanceChain/consensus/LedgerTrie.h:501-516 | Hangs a new empty leaf under a node |
| `LedgerTries.LedgerTrie.AdjustBranch` | SupplyFinanceChain/src/SupplyFinanceChain/consensus/LedgerTrie.h:519-523 | Walking up the parent links changes the branch support of exactly the nodes on the way to the root |
| `LedgerTries.LedgerTrie.Compress` | SupplyFinanceChain/src/SupplyFinanceChain/consensus/LedgerTrie.h:560-581 | Dropping empty leaves and merging single children upward makes the trie fully compressed again without changing what it represents |
| `LedgerTries.LedgerTrie.JoinChild` | SupplyFinanceChain/src/SupplyFinanceChain/consensus/LedgerTrie.h:568-577 | Merging a node with its only child keeps paths, supports and siblings |
| `TrieSteps.ErasedOne` | SupplyFinanceChain/src/SupplyFinanceChain/consensus/LedgerTrie.h:222-234 | Removing a child by swapping it with the last one takes away one occurrence of it and nothing else |
| `TrieSteps.ErasedMembers` | SupplyFinanceChain/src/SupplyFinanceChain/consensus/LedgerTrie.h:222-234 | Among distinct children exactly the removed one is gone |
| `LedgerTries.LedgerTrie.Find` | SupplyFinanceChain/src/SupplyFinanceChain/consensus/LedgerTrie.h:366-396 | Finds the node and position at which a ledger parts from the trie, whatever the shape of the tree |
| `LedgerTries.LedgerTrie.FindByLedgerId` | SupplyFinanceChain/src/SupplyFinanceChain/consensus/LedgerTrie.h:404-418 | Finds the node with the ledger as its tip, or none exists below the start |
| `LedgerTries.LedgerTrie.TipSupport` | SupplyFinanceChain/src/SupplyFinanceChain/consensus/LedgerTrie.h:590-596 | Equals the multiplicity of the ledger among the validations |
| `LedgerTries.LedgerTrie.BranchSupport` | SupplyFinanceChain/src/SupplyFinanceChain/consensus/LedgerTrie.h:604-617 | Equals the number of validations of the ledger and its descendants, also where the ledger lies inside a span |
| `LedgerTries.LedgerTrie.CheckInvariants` | SupplyFinanceChain/src/SupplyFinanceChain/consensus/LedgerTrie.h:805-843 | True if and only if every node but the root has support or branches, branch support is tip plus children, parent links agree and the per-sequence counts are those of the nodes |
| `LedgerTries.LedgerTrie.SelfCheck` | SupplyFinanceChain/src/SupplyFinanceChain/consensus/LedgerTrie.h:805-843 | Every trie that insertion and removal can produce passes that check |
| `TrieInvariants.RepresentsMeetsInvariants` | SupplyFinanceChain/src/SupplyFinanceChain/consensus/LedgerTrie.h:803-843 | A trie over a multiset of validations satisfies all the invariants, including the sum over children and the per-sequence totals |
| `TrieInvariants.BranchIsSum` | SupplyFinanceChain/src/SupplyFinanceChain/consensus/LedgerTrie.h:825-840 | Branch support defined by counting validations equals tip support plus the branch supports of the children |
| `TrieInvariants.CountsMeetTotals` | SupplyFinanceChain/src/SupplyFinanceChain/consensus/LedgerTrie.h:826-842 | The per-sequence counts kept beside the trie are the totals of tip support over its nodes |
| `TrieCanonical.Canonical` | SupplyFinanceChain/src/SupplyFinanceChain/consensus/LedgerTrie.h:447-583 | Two tries over the same validations have the same nodes, spans and supports, whatever insertions and removals built them |
| `TrieCanonical.NodePathsForth` | SupplyFinanceChain/src/SupplyFinanceChain/consensus/LedgerTrie.h:272-283 | Every node stands for genesis, a validated ledger or a point where validations branch |
| `TrieCanonical.NodePathsBack` | SupplyFinanceChain/src/SupplyFinanceChain/consensus/LedgerTrie.h:272-283 | Every such ledger has a node |
| `TrieCanonical.NodeStart` | SupplyFinanceChain/src/SupplyFinanceChain/consensus/LedgerTrie.h:272-283 | Where a node starts is determined by the validations alone |
| `TrieCanonical.PositiveBranch` | SupplyFinanceChain/src/SupplyFinanceChain/consensus/LedgerTrie.h:281-293 | No node but the root is without support |
| `TrieSteps.SplitKeeps` | SupplyFinanceChain/src/SupplyFinanceChain/consensus/LedgerTrie.h:476-500 | A split keeps the tree well formed and every count right |
| `TrieSteps.AttachKeeps` | SupplyFinanceChain/src/SupplyFinanceChain/consensus/LedgerTrie.h:501-516 | So does hanging a leaf |
| `TrieSteps.BumpKeeps` | SupplyFinanceChain/src/SupplyFinanceChain/consensus/LedgerTrie.h:518-523 | Adding support along the path to the root represents the multiset with the new validations |
| `TrieSteps.UnbumpKeeps` | SupplyFinanceChain/src/SupplyFinanceChain/consensus/LedgerTrie.h:544-558 | Taking support away along the path represents the multiset without them |
| `TrieSteps.EraseKeeps` | SupplyFinanceChain/src/SupplyFinanceChain/consensus/LedgerTrie.h:563-567 | Dropping an empty leaf keeps the tree and its counts |
| `TrieSteps.SpliceKeeps` | SupplyFinanceChain/src/SupplyFinanceChain/consensus/LedgerTrie.h:568-577 | Merging an empty node with its only child keeps the tree and its counts |
| `TrieShape.ChildToward` | SupplyFinanceChain/src/SupplyFinanceChain/consensus/LedgerTrie.h:366-396 | Any node below another is below one of its children |
| `TrieShape.OneWay` | SupplyFinanceChain/src/SupplyFinanceChain/consensus/LedgerTrie.h:366-396 | At most one child leads towards a given ledger |
| `TrieShape.UniquePath` | SupplyFinanceChain/src/SupplyFinanceChain/consensus/LedgerTrie.h:330-340 | No two nodes stand for the same ledger |
| `LedgerTries.Run` | SupplyFinanceChain/src/SupplyFinanceChain/consensus/LedgerTrie.h:447-583 | Any run of insertions and removals from an empty trie ends in a valid trie over the multiset that remains |
| `LedgerTries.InsertThenRemove` | SupplyFinanceChain/src/SupplyFinanceChain/consensus/LedgerTrie.h:447-583 | Removing what was just inserted restores the same set of nodes with the same spans and supports |
| `Spans.Span.Diff` | SupplyFinanceChain/src/SupplyFinanceChain/consensus/LedgerTrie.h:139-144 | The first sequence number of the span at which it differs from a ledger, clamped to the span |
| `Spans.Merge` | SupplyFinanceChain/src/SupplyFinanceChain/consensus/LedgerTrie.h:184-192 | Spans that follow each other merge into one that covers exactly what either covers, with the path of the one that reaches further |
| `ConsensusRounds.Run` | SupplyFinanceChain/src/SupplyFinanceChain/consensus/Consensus.h:611-877 | From construction on, for any sequence of round starts, proposals, sets and timer ticks and any answers of the application, all invariants hold after every event |
| `ConsensusRounds.RoundSafety` | SupplyFinanceChain/src/SupplyFinanceChain/consensus/Consensus.h:611-690 | In every such state: open means no result and establish means one; a prior-ledger mismatch implies wrong-ledger mode; peers are on our prior ledger, not bowed out and not dead; our position names our acquired set; within a round proposing is never re-entered, sent sequence numbers rise and a bow-out is last |
| `ConsensusRounds.DisputesComplete` | SupplyFinanceChain/src/SupplyFinanceChain/consensus/Consensus.h:1618-1689 | In every such state every dispute holds only current peers' votes, our vote is membership in our set and both totals are right; and against any peer whose set we have, every differing transaction is disputed and every dispute holds that peer's vote |
| `ConsensusRounds.BowOutIsLast` | SupplyFinanceChain/src/SupplyFinanceChain/consensus/ConsensusProposal.h:166-190 | With rising sequence numbers a bow-out can only be the last proposal, so there is at most one |
| `ConsensusRounds.Consensus.StartRound` | SupplyFinanceChain/src/SupplyFinanceChain/consensus/Consensus.h:611-654 | Starts a round from any valid state in the mode asked for, or in wrong-ledger mode exactly if the prior ledger is neither given nor to be had; takes over the close time and forgets the positions of nodes no longer trusted; ends on the ledger asked for or named later |
| `ConsensusRounds.Consensus.StartRoundInternal` | SupplyFinanceChain/src/SupplyFinanceChain/consensus/Consensus.h:657-690 | Ends on the ledger given or named later; if the timer is not run, at most half of the previous proposers are ahead, the round is open in the mode given with the next close-time resolution, and every recent proposal for the ledger is heard |
| `ConsensusRounds.Consensus.PeerProposal` | SupplyFinanceChain/src/SupplyFinanceChain/consensus/Consensus.h:694-710 | Keeps the last ten proposals of the peer; relays exactly the relevant ones; records or drops the peer accordingly, counts a first close time, and asks for an unknown set and takes it; positions only give way to later ones |
| `ConsensusRounds.Consensus.PeerProposalInternal` | SupplyFinanceChain/src/SupplyFinanceChain/consensus/Consensus.h:714-808 | A relevant bow-out removes the peer and marks it dead, any other relevant proposal becomes its position, and irrelevant ones change nothing; disputes stay complete |
| `ConsensusRounds.Consensus.TimerEntry` | SupplyFinanceChain/src/SupplyFinanceChain/consensus/Consensus.h:812-831 | Does nothing once the ledger is accepted; otherwise asks for the prior ledger, ends on the one named last and keeps every invariant; if the one named is ours and we have it, mode and ledger stay, an open ledger closes by the closing rule, and an establish phase takes its whole turn, down to acceptance |
| `ConsensusRounds.Consensus.GotTxSet` | SupplyFinanceChain/src/SupplyFinanceChain/consensus/Consensus.h:835-877 | Acquires a new set once, re-votes all peers that propose it, and never meets our own position there |
| `ConsensusRounds.Consensus.HandleWrongLedger` | SupplyFinanceChain/src/SupplyFinanceChain/consensus/Consensus.h:1002-1043 | Leaves consensus and does not propose again; ends on the ledger given or named later; asks for it if we do not have it, and with it enters switched-ledger mode, without it wrong-ledger mode; after a switch every recent proposal for the new ledger is heard |
| `ConsensusRounds.Consensus.SwitchTo` | SupplyFinanceChain/src/SupplyFinanceChain/consensus/Consensus.h:1010-1027 | Clears what was said about the old ledger and hears every recent proposal for the new one; our stance stays |
| `ConsensusRounds.Consensus.CheckLedger` | SupplyFinanceChain/src/SupplyFinanceChain/consensus/Consensus.h:1047-1066 | Asks for the prior ledger and ends on the one named last; changes nothing when that is ours and we have it, and otherwise leaves us not proposing |
| `ConsensusRounds.Consensus.PlaybackProposals` | SupplyFinanceChain/src/SupplyFinanceChain/consensus/Consensus.h:1070-1083 | No recent proposal for the current prior ledger is lost: afterwards its peer has left or holds that position or a later one |
| `ConsensusRounds.Consensus.PhaseOpen` | SupplyFinanceChain/src/SupplyFinanceChain/consensus/Consensus.h:1087-1136 | With the next answers of the application and the clock: closes at unusual times; closes when twice those that have closed or validated exceed the previous proposers; otherwise, idle, exactly at the end of the idle interval, and not idle, exactly once open for two seconds and for half the previous round; if it does not close, nothing but the open time changes |
| `ConsensusRounds.Consensus.SinceClose` | SupplyFinanceChain/src/SupplyFinanceChain/consensus/Consensus.h:1098-1115 | Milliseconds since the close time on record if that was agreed on, is no mere second after its parent and we have the right ledger, and since the time we saw otherwise |
| `ConsensusRounds.Consensus.IdleInterval` | SupplyFinanceChain/src/SupplyFinanceChain/consensus/Consensus.h:1117-1119 | The longer of fifteen seconds and twice the close-time resolution |
| `Thresholds.ClosesByTheRule` | SupplyFinanceChain/src/SupplyFinanceChain/consensus/Consensus.cpp:25-83 | The decision meets that rule for all counts and times |
| `Thresholds.ClosingIsMonotone` | SupplyFinanceChain/src/SupplyFinanceChain/consensus/Consensus.cpp:52-82 | More proposers that have closed or validated, or more time, never turn closing into waiting |
| `ConsensusRounds.Consensus.CloseLedger` | SupplyFinanceChain/src/SupplyFinanceChain/consensus/Consensus.h:1304-1332 | Enters establish with the set and position the application gives, at the time the clock gives, with our set acquired, our first proposal sent if we propose, and complete disputes |
| `ConsensusRounds.Consensus.PhaseEstablish` | SupplyFinanceChain/src/SupplyFinanceChain/consensus/Consensus.h:1258-1300 | The time spent and its percentage of the expected time follow the clock; before the minimum time nothing moves; then our stance follows the peers, and the ledger is accepted if and only if the application does not pause, the decision on those that agree with us and on how many have finished is other than no, and the close time is agreed |
| `ConsensusRounds.Consensus.UpdateOurPositions` | SupplyFinanceChain/src/SupplyFinanceChain/consensus/Consensus.h:1356-1536 | Drops exactly the stale peers; each disputed transaction is in our set exactly by the rule of the vote on the remaining peers' votes, and the others stay; the close time and its agreement are the ones settled by the live votes and ours; our position is kept if set and close time stand and it is fresh, and is otherwise replaced and, when proposing, sent |
| `ConsensusRounds.Consensus.DropStale` | SupplyFinanceChain/src/SupplyFinanceChain/consensus/Consensus.h:1366-1389 | Drops exactly the peers with stale proposals, takes their votes out of every dispute and tallies the close times of the rest |
| `ConsensusRounds.Consensus.Reconsider` | SupplyFinanceChain/src/SupplyFinanceChain/consensus/Consensus.h:1394-1424 | Updates every dispute; a new set is made exactly when a vote changed, differs from ours exactly there, and so differs |
| `ConsensusRounds.Consensus.ChooseCloseTime` | SupplyFinanceChain/src/SupplyFinanceChain/consensus/Consensus.h:1426-1494 | The close time is the latest of those with the most votes if that many suffice, and agreed exactly when one time has the votes for agreement |
| `ConsensusRounds.Consensus.Adopt` | SupplyFinanceChain/src/SupplyFinanceChain/consensus/Consensus.h:1504-1535 | Our new position names the new set, is sent once if we propose, and disputes stay complete |
| `ConsensusRounds.Consensus.LeaveConsensus` | SupplyFinanceChain/src/SupplyFinanceChain/consensus/Consensus.h:1601-1614 | Sends one bow-out if we were proposing a position and stops proposing |
| `ConsensusRounds.Consensus.CreateDisputes` | SupplyFinanceChain/src/SupplyFinanceChain/consensus/Consensus.h:1618-1670 | Disputes exactly what differs between our set and the other, once, with the votes of peers whose sets are known; earlier disputes stay as they are |
| `ConsensusRounds.Consensus.UpdateDisputes` | SupplyFinanceChain/src/SupplyFinanceChain/consensus/Consensus.h:1674-1689 | After it, the peer's vote on every dispute is membership in its new set |
| `ConsensusRounds.Consensus.HaveConsensus` | SupplyFinanceChain/src/SupplyFinanceChain/consensus/Consensus.h:1540-1597 | Yes exactly when the round is ripe and four fifths of the participants hold our position; moved on exactly when it is ripe, they do not, and four fifths as many as the peers have finished |
| `Thresholds.DecidesExactly` | SupplyFinanceChain/src/SupplyFinanceChain/consensus/Consensus.cpp:85-160 | That decision for all counts and times: ripe means more than 1950 ms and, with fewer than three quarters of the previous proposers present, that much more than the previous round |
| `Thresholds.DecidesOnView` | SupplyFinanceChain/src/SupplyFinanceChain/consensus/Consensus.cpp:85-160 | The same in terms of the sets of participants and of those that agree |
| `Thresholds.TruncDivIs` | SupplyFinanceChain/src/SupplyFinanceChain/consensus/Consensus.h:1269-1270 | Division that truncates toward zero, without dividing |
| `ConsensusRounds.Consensus.YesDeclares` | SupplyFinanceChain/src/SupplyFinanceChain/consensus/Consensus.h:1540-1597 | A yes of that decision is a yes in the sense of the agreement theorem |
| `DisputeBook.Complete` | SupplyFinanceChain/src/SupplyFinanceChain/consensus/Consensus.h:1618-1689 | What completeness means for one peer and one transaction |
| `DisputeBook.CreateKeeps` | SupplyFinanceChain/src/SupplyFinanceChain/consensus/Consensus.h:1618-1670 | Creating the missing disputes settles one set and keeps all else |
| `DisputeBook.RevoteKeeps` | SupplyFinanceChain/src/SupplyFinanceChain/consensus/Consensus.h:1674-1689 | Recording one peer's votes settles that peer |
| `DisputeBook.RemovePeerKeeps` | SupplyFinanceChain/src/SupplyFinanceChain/consensus/Consensus.h:755-770 | Removing a peer with its votes keeps completeness |
| `DisputeBook.NewPositionKeeps` | SupplyFinanceChain/src/SupplyFinanceChain/consensus/Consensus.h:772-805 | A new position leaves only that peer unsettled, and nobody if its set is not known |
| `DisputeBook.AcquireKeeps` | SupplyFinanceChain/src/SupplyFinanceChain/consensus/Consensus.h:845-869 | A new set leaves unsettled exactly the peers that propose it |
| `DisputeBook.MoveKeeps` | SupplyFinanceChain/src/SupplyFinanceChain/consensus/Consensus.h:1394-1424 | Moving votes and set together keeps completeness |
| `DisputeBook.VerdictsFollow` | SupplyFinanceChain/src/SupplyFinanceChain/consensus/Consensus.h:1366-1424 | Once stale peers are gone, updating every dispute puts a transaction in our set exactly by the rule of the vote on the live peers' votes |
| `Disputes.SetVoteCounted` | SupplyFinanceChain/src/SupplyFinanceChain/consensus/DisputedTx.h:139-175 | Recording a vote, new or changed, keeps the totals equal to the votes |
| `Disputes.UnVoteCounted` | SupplyFinanceChain/src/SupplyFinanceChain/consensus/DisputedTx.h:178-193 | So does taking one back |
| `Disputes.UnVoteUndoesSetVote` | SupplyFinanceChain/src/SupplyFinanceChain/consensus/DisputedTx.h:139-193 | Taking back a new vote restores the dispute |
| `Disputes.VotesByTheRule` | SupplyFinanceChain/src/SupplyFinanceChain/consensus/DisputedTx.h:197-232 | An unopposed vote stands; otherwise it becomes yes, observing, exactly when yes voters outnumber no voters, and proposing, exactly when a hundred times the yes votes, ours included, is at least one more than the needed percentage (50, 65, 70 or 95, from 0, 50, 85 and 200 percent of the expected time on) times all votes and ours |
| `Disputes.DisputedTx.SetVote` | SupplyFinanceChain/src/SupplyFinanceChain/consensus/DisputedTx.h:139-175 | Records exactly that vote in place, with right totals |
| `Disputes.DisputedTx.UnVote` | SupplyFinanceChain/src/SupplyFinanceChain/consensus/DisputedTx.h:178-193 | Removes exactly that vote in place, with right totals |
| `Disputes.DisputedTx.UpdateVote` | SupplyFinanceChain/src/SupplyFinanceChain/consensus/DisputedTx.h:195-248 | Updates the vote in place by that rule and reports exactly whether it changed |
| `Disputes.AvalancheSettles` | SupplyFinanceChain/src/SupplyFinanceChain/consensus/DisputedTx.h:195-248 | With fixed peer votes and rising time, while proposing, our vote flips at most twice and never returns to yes after giving it up |
| `Thresholds.AgreementByOverlap` | SupplyFinanceChain/src/SupplyFinanceChain/consensus/Consensus.cpp:85-160 | Two nodes that declare consensus on different positions, seeing the same from common members, share at most a fifth of their members counted together |
| `Thresholds.OverlapForcesAgreement` | SupplyFinanceChain/src/SupplyFinanceChain/consensus/Consensus.cpp:85-160 | So a larger overlap forces the same position |
| `Thresholds.YesIsFourFifths` | SupplyFinanceChain/src/SupplyFinanceChain/consensus/Consensus.cpp:85-160 | A yes means at least four fifths of all members, ourselves included when proposing, hold our position |
| `Thresholds.ParticipantsNeeded` | SupplyFinanceChain/src/SupplyFinanceChain/consensus/Consensus.h:1346-1352 | At least one, and above one the largest number whose hundredfold stays within participants times percent plus half the percent |
| `Thresholds.PickCloseTime` | SupplyFinanceChain/src/SupplyFinanceChain/consensus/Consensus.h:1466-1483 | The loop over ascending times picks the latest one with the top count, if that reaches the threshold |
| `Thresholds.TallyOne` | SupplyFinanceChain/src/SupplyFinanceChain/consensus/Consensus.h:1382-1387 | Counting one more peer keeps the tally equal to the peers' votes and their sum equal to the number of peers |
| `Thresholds.OneWinnerUnlessTwo` | SupplyFinanceChain/src/SupplyFinanceChain/consensus/Consensus.h:1455-1483 | At most one close time can be agreed on, if and only if there are not exactly two participants |
| `ConsensusTypes.Proposal.ChangePosition` | SupplyFinanceChain/src/SupplyFinanceChain/consensus/ConsensusProposal.h:166-177 | Takes the new position, close time and time seen; the sequence number rises by one unless the proposer has left, and sender and prior ledger stay |
| `ConsensusTypes.Proposal.BowOut` | SupplyFinanceChain/src/SupplyFinanceChain/consensus/ConsensusProposal.h:185-190 | Keeps the position and has the largest sequence number there is |
| `ConsensusTypes.RoundsToNearest` | SupplyFinanceChain/src/SupplyFinanceChain/consensus/LedgerTiming.h:126-138 | The result is a multiple of the resolution within half of it, the later one when midway |
| `ConsensusTypes.OneNearest` | SupplyFinanceChain/src/SupplyFinanceChain/consensus/LedgerTiming.h:126-138 | It is the only such multiple |
| `ConsensusTypes.NextResolutionIsNeighbour` | SupplyFinanceChain/src/SupplyFinanceChain/consensus/LedgerTiming.h:79-117 | After a disagreement the next coarser bin, after agreement the next finer one every eighth ledger, and otherwise the same; the ends stay |
| `ConsensusTypes.NeededWeight` | SupplyFinanceChain/src/SupplyFinanceChain/consensus/DisputedTx.h:216-225 | 50, 65, 70 and 95 percent, from 0, 50, 85 and 200 percent of the expected time on; a negative time counts as large |
| `Sha512Streaming.HashChunks` | SupplyFinanceChain/src/ed25519-donna/ed25519-hash.h:108-186 | However the message is cut into updates, the hash spells, eight bytes a word and most significant byte first, the last of the chaining values that start from the initial one and take in, block by block, the message padded as section 5.1.2 of FIPS 180-4 says |
| `Sha512Streaming.PadIsPadded` | SupplyFinanceChain/src/ed25519-donna/ed25519-hash.h:153-168 | The padding is the message, a one bit, zeros, and a 16-byte number that is its length in bits modulo 2^128, in the fewest whole blocks that hold them |
| `Sha512Streaming.OnePadding` | SupplyFinanceChain/src/ed25519-donna/ed25519-hash.h:153-168 | A message has only one padding of that kind |
| `Sha512Streaming.BigEndianSpells` | SupplyFinanceChain/src/ed25519-donna/ed25519-hash.h:46-68 | The eight bytes stored for a word, read most significant first, are the word, and loading them gives it back |
| `Sha512Streaming.DigestSpells` | SupplyFinanceChain/src/ed25519-donna/ed25519-hash.h:170-177 | Bytes 8k to 8k + 7 of the digest spell word k of the chaining value |
| `Sha512Streaming.FoldIsChain` | SupplyFinanceChain/src/ed25519-donna/ed25519-hash.h:90-106 | Compressing whole blocks goes through a chain of values, each from the one before and the next 128 bytes |
| `Sha512Streaming.InitialChain` | SupplyFinanceChain/src/ed25519-donna/ed25519-hash.h:108-121 | The initial words are the first 64 bits behind the point of the square roots of the first eight primes, as in section 5.3.5 of FIPS 180-4 |
| `Sha512Streaming.Context.Update` | SupplyFinanceChain/src/ed25519-donna/ed25519-hash.h:123-151 | Buffer, chaining value and counter represent the message so far with the new part appended |
| `Sha512Streaming.Context.Final` | SupplyFinanceChain/src/ed25519-donna/ed25519-hash.h:153-178 | The chaining value is the fold over the padded message, in one more block or two |
| `Sha512Streaming.Context.Blocks` | SupplyFinanceChain/src/ed25519-donna/ed25519-hash.h:90-106 | Folds whole blocks and counts their bits |
| `Sha512Streaming.CountBlock` | SupplyFinanceChain/src/ed25519-donna/ed25519-hash.h:102-103 | The two-word bit counter stays right modulo 2^128 across the wrap of its low word |
| `Sha512Streaming.FinalLength` | SupplyFinanceChain/src/ed25519-donna/ed25519-hash.h:155-160 | Adding the leftover bytes cannot overflow the low word, and both words are those of the bit length |
| `Sha512Streaming.ZeroCountIsLeast` | SupplyFinanceChain/src/ed25519-donna/ed25519-hash.h:157-164 | The padding has the fewest zeros that end it on a block |
| `ModM.Barrett` | SupplyFinanceChain/src/ed25519-donna/modm-donna-64bit.h:65-107 | For every x below 2^512 given by its two overlapping parts, the result is x modulo the group order, also when input and output are the same array |
| `ModM.Remainder` | SupplyFinanceChain/src/ed25519-donna/modm-donna-64bit.h:71-107 | What the truncated quotient leaves is at least zero and below 1.3 times the order, so the second conditional subtraction never changes it |
| `ModM.DroppedColumns` | SupplyFinanceChain/src/ed25519-donna/modm-donna-64bit.h:71-85 | The columns the code does not compute are worth less than 2^226 |
| `ModM.Quotient` | SupplyFinanceChain/src/ed25519-donna/modm-donna-64bit.h:74-85 | The limbs put together from the columns are the floor of the truncated product by 2^264 |
| `ModM.LowProduct` | SupplyFinanceChain/src/ed25519-donna/modm-donna-64bit.h:87-96 | Quotient times order modulo 2^264, with no column overflowing |
| `ModM.SubtractLow` | SupplyFinanceChain/src/ed25519-donna/modm-donna-64bit.h:98-103 | Difference modulo 2^264 with wrapping 64-bit borrows |
| `ModM.Reduce` | SupplyFinanceChain/src/ed25519-donna/modm-donna-64bit.h:42-63 | Subtracts the order exactly when the value is at least the order |
| `ModM.Constants` | SupplyFinanceChain/src/ed25519-donna/modm-donna-64bit.h:7-35 | The constants are the order L of section 5.1 of RFC 8032 and the floor of 2^512 by it |
| `ModM.Mul` | SupplyFinanceChain/src/ed25519-donna/modm-donna-64bit.h:123-150 | The product modulo the order, for all limb values a scalar can have |
| `ModM.Add` | SupplyFinanceChain/src/ed25519-donna/modm-donna-64bit.h:110-121 | The sum of reduced scalars modulo the order |
| `ScalarCodec.Expand` | SupplyFinanceChain/src/ed25519-donna/modm-donna-64bit.h:152-187 | The little-endian value of up to 64 bytes modulo the order, with the short form left unreduced because it is below the order |
| `ScalarCodec.ExpandRaw` | SupplyFinanceChain/src/ed25519-donna/modm-donna-64bit.h:189-203 | The value of 32 bytes, unreduced |
| `ScalarCodec.Contract` | SupplyFinanceChain/src/ed25519-donna/modm-donna-64bit.h:205-211 | 32 bytes with the value of the scalar |
| `ScalarCodec.ReadBack` | SupplyFinanceChain/src/ed25519-donna/modm-donna-64bit.h:152-211 | Reading back written bytes gives the same limbs; the reducing form does so if and only if the scalar is reduced |
| `ScalarCodec.WriteBack` | SupplyFinanceChain/src/ed25519-donna/modm-donna-64bit.h:189-211 | Every 32 bytes are written back as they were read |
| `Recoding.ContractWindow4` | SupplyFinanceChain/src/ed25519-donna/modm-donna-64bit.h:213-238 | The radix-16 digits have the value of the scalar, all but the last lie in [-8, 7], and the last is at most 8 for scalars below 2^255 |
| `Recoding.ContractSlidingWindow` | SupplyFinanceChain/src/ed25519-donna/modm-donna-64bit.h:240-280 | For every scalar the digits are zero or odd and at most 2^(w-1) - 1 in size, and their value is the scalar; from 2^255 on it may instead be 2^256 less, and for 2^256 - 1 and windows up to 7 it is |
| `Recoding.GrowWindow` | SupplyFinanceChain/src/ed25519-donna/modm-donna-64bit.h:262-278 | One window takes in positions one by one, leaves nothing set behind it and keeps the value, unless that is 2^255 or more and the carry is lost at the top; over a row of ones it is lost |
| `Recoding.RoomAbove` | SupplyFinanceChain/src/ed25519-donna/modm-donna-64bit.h:266-274 | Whenever a window subtracts from a value below 2^255, there is a zero for the carry to stop at |
| `Recoding.Window4Step` | SupplyFinanceChain/src/ed25519-donna/modm-donna-64bit.h:230-236 | One step keeps the value together with its carry and leaves a digit in [-8, 7] |
| `Recoding.SubtractBit` | SupplyFinanceChain/src/ed25519-donna/modm-donna-64bit.h:266-267 | A window subtracts only while its own digit is positive |
| `Recoding.Carry` | SupplyFinanceChain/src/ed25519-donna/modm-donna-64bit.h:268-274 | The carry loop adds one at its position; over a row of ones it loses 2^256 |
| `Recoding.Fills` | SupplyFinanceChain/src/ed25519-donna/modm-donna-64bit.h:262-275 | A window opened on a row of ones takes in bits until it is full and then subtracts |
| `Recoding.Unpack` | SupplyFinanceChain/src/ed25519-donna/modm-donna-64bit.h:219-226 | The plain expansion has the value of the scalar |
| `ScalarMult.DoubleScalarMult` | SupplyFinanceChain/src/ed25519-donna/ed25519-donna-impl-base.h:251-292 | In any abelian group the result is s1 times p1 plus s2 times the base point, with every table index in range |
| `ScalarMult.Accumulate` | SupplyFinanceChain/src/ed25519-donna/ed25519-donna-impl-base.h:268-291 | Skipping leading zeros and then doubling and adding evaluates both digit strings |
| `ScalarMult.Step` | SupplyFinanceChain/src/ed25519-donna/ed25519-donna-impl-base.h:277-291 | One round doubles and adds what both digits stand for |
| `ScalarMult.OddTable` | SupplyFinanceChain/src/ed25519-donna/ed25519-donna-impl-base.h:263-266 | The table holds the odd multiples |
| `ScalarMult.TableIndex` | SupplyFinanceChain/src/ed25519-donna/ed25519-donna-impl-base.h:280-288 | Every digit of a window of size w indexes a table of size 2^(w-2) |
| `ScalarMult.ScalarMultBase` | SupplyFinanceChain/src/ed25519-donna/ed25519-donna-impl-base.h:333-363 | In any abelian group the odd pass, four doublings and the even pass give s times the base point |
| `ScalarMult.Choose` | SupplyFinanceChain/src/ed25519-donna/ed25519-donna-impl-base.h:303-328 | Scanning a whole row selects the signed multiple, zero included |
| `ScalarMult.OddsAndEvens` | SupplyFinanceChain/src/ed25519-donna/ed25519-donna-impl-base.h:342-362 | Sixteen times the odd digits in radix 256 plus the even ones is the radix-16 value |
| `BatchHeaps.BatchHeap.MultiScalarMult` | SupplyFinanceChain/src/ed25519-donna/ed25519-donna-batchverify.h:150-185 | For every input: the short scalars join if and only if two of the others are set and no number of 2^128 or more divides all of those; what is left is one scalar, the greatest common divisor of those taken in, and that times its point is the sum of scalar times point over exactly those, in any abelian group |
| `BatchHeaps.BatchHeap.Turn` | SupplyFinanceChain/src/ed25519-donna/ed25519-donna-batchverify.h:164-185 | One turn keeps the heap ordered, everything above the limb count zero and the total unchanged, subtracts the second largest scalar from the largest, strictly lowers the sum of scalars, never lowers the limb count below zero and has at least two when short scalars join |
| `BatchHeaps.MoreProgress` | SupplyFinanceChain/src/ed25519-donna/ed25519-donna-batchverify.h:164-185 | A turn keeps all common divisors, and before the short scalars join it leaves two set scalars or a single one of 2^128 or more |
| `BatchHeaps.ProgressEnds` | SupplyFinanceChain/src/ed25519-donna/ed25519-donna-batchverify.h:164-185 | So the scalars given decide whether the short ones join and which common divisor is left |
| `CommonDivisors.StepKeepsDivisors` | SupplyFinanceChain/src/ed25519-donna/ed25519-donna-batchverify.h:182 | Subtracting one scalar from another keeps the numbers that divide all |
| `CommonDivisors.LastIsGcd` | SupplyFinanceChain/src/ed25519-donna/ed25519-donna-batchverify.h:167-169 | A last set scalar with the same common divisors is the greatest common divisor |
| `CommonDivisors.OneIsCoprime` | SupplyFinanceChain/src/ed25519-donna/ed25519-donna-batchverify.h:112-116 | It is one if and only if nothing larger divides all scalars given |
| `BatchHeaps.BatchHeap.Reduce` | SupplyFinanceChain/src/ed25519-donna/ed25519-donna-batchverify.h:182-183 | Replacing the largest scalar and the second point keeps the total and disorders only the root |
| `BatchHeaps.BatchHeap.UpdatedRoot` | SupplyFinanceChain/src/ed25519-donna/ed25519-donna-batchverify.h:50-77 | Sinking the root to a leaf and letting it rise restores the heap order |
| `BatchHeaps.BatchHeap.InsertNext` | SupplyFinanceChain/src/ed25519-donna/ed25519-donna-batchverify.h:30-48 | The next index joins the heap, which stays an ordered permutation |
| `BatchHeaps.BatchHeap.Extend` | SupplyFinanceChain/src/ed25519-donna/ed25519-donna-batchverify.h:79-93 | The heap grows to any count |
| `BatchHeaps.First` | SupplyFinanceChain/src/ed25519-donna/ed25519-donna-batchverify.h:161-162 | The number of scalars the heap starts with is odd and as little above half of all as that allows |
| `BatchHeaps.BatchHeap.GetTop2` | SupplyFinanceChain/src/ed25519-donna/ed25519-donna-batchverify.h:95-103 | The two returned indices have the largest and second largest scalars |
| `BatchHeaps.DropLimb` | SupplyFinanceChain/src/ed25519-donna/ed25519-donna-batchverify.h:171-173 | A clear top limb of the largest scalar is clear in all scalars and is never the lowest limb |
| `BatchHeaps.EnoughLimbs` | SupplyFinanceChain/src/ed25519-donna/ed25519-donna-batchverify.h:175-180 | There are limbs for 128 bits when the short scalars join |
| `BatchHeaps.StaysSteady` | SupplyFinanceChain/src/ed25519-donna/ed25519-donna-batchverify.h:171-184 | The largest scalar at most halves in a turn, so the limb count stays sufficient |
| `WeightedSums.StepKeepsTotal` | SupplyFinanceChain/src/ed25519-donna/ed25519-donna-batchverify.h:182-183 | a P + b Q equals (a - b) P + b (P + Q) inside any sum over an abelian group |
| `IndexHeaps.TopOfHeap` | SupplyFinanceChain/src/ed25519-donna/ed25519-donna-batchverify.h:95-103 | In an ordered heap the root and the larger of its children are the two largest of all |
| `IndexHeaps.SinkStep` | SupplyFinanceChain/src/ed25519-donna/ed25519-donna-batchverify.h:62-68 | Sinking along the larger child keeps the heap ordered elsewhere |
| `IndexHeaps.RiseStep` | SupplyFinanceChain/src/ed25519-donna/ed25519-donna-batchverify.h:72-76 | Rising keeps the heap ordered elsewhere |
| `BatchScalars.Less` | SupplyFinanceChain/src/ed25519-donna/modm-donna-64bit.h:302-315 | On scalars with nothing above the limb count, the borrow chain compares values |
| `BatchScalars.AtMost` | SupplyFinanceChain/src/ed25519-donna/modm-donna-64bit.h:317-330 | Likewise for at most |
| `BatchScalars.Subtract` | SupplyFinanceChain/src/ed25519-donna/modm-donna-64bit.h:286-299 | The limb-wise difference is the difference of values and stays within the limb count |
| `BatchScalars.AtMost128Bits` | SupplyFinanceChain/src/ed25519-donna/modm-donna-64bit.h:352-361 | The mask test is exactly below 2^128 |
| `BatchScalars.IsZero` | SupplyFinanceChain/src/ed25519-donna/modm-donna-64bit.h:332-340 | True exactly for the value zero |
| `BatchHeaps.IsOne` | SupplyFinanceChain/src/ed25519-donna/modm-donna-64bit.h:342-350 | True exactly for the value one |
| `BatchHeaps.Final` | SupplyFinanceChain/src/ed25519-donna/ed25519-donna-batchverify.h:105-148 | The multiple of the point for scalars zero and one; for others the result is 2^n plus the value of the four lower limbs, n the bits of that, times the point; there is none, because the search leaves the scalar, exactly if all four are clear |
| `BatchHeaps.FinalIsExact` | SupplyFinanceChain/src/ed25519-donna/ed25519-donna-batchverify.h:124-147 | The extra power of two gives the multiple asked for if and only if 2^n times the point is the neutral element |
| `BatchHeaps.FinalExceeds` | SupplyFinanceChain/src/ed25519-donna/ed25519-donna-batchverify.h:124-147 | A concrete input: in the integers, the method makes six of twice one |
| `BatchHeaps.LowOfShort` | SupplyFinanceChain/src/ed25519-donna/ed25519-donna-batchverify.h:126-128 | Below 2^128 the four lower limbs are the whole scalar, so the fifth limb, which is not read, does not matter |
| `BatchHeaps.BatchHeap.MultiScalarMultVartime` | SupplyFinanceChain/src/ed25519-donna/ed25519-donna-batchverify.h:150-188 | For every input: when the short scalars join, the result is the whole sum if and only if the common divisor left is at most one (as it is for coprime scalars) or 2^n times the last point is neutral, and otherwise has 2^n times the last point on top; when they do not join, it is the sum over the others if their common divisor is at most one, and else the last point times 2^n plus the four lower limbs of that divisor |
| `Field25519.Mul` | SupplyFinanceChain/src/ed25519-donna/curve25519-donna-64bit.h:105-171 | For limbs below 2^54 no word overflows, the result is congruent to the product modulo 2^255 - 19 and its limbs are below 2^52; output and inputs may be the same array |
| `Field25519.Square` | SupplyFinanceChain/src/ed25519-donna/curve25519-donna-64bit.h:236-284 | Likewise for the square |
| `Field25519.SquareTimes` | SupplyFinanceChain/src/ed25519-donna/curve25519-donna-64bit.h:178-234 | Likewise for the power 2^count, where a count of zero runs 2^64 times |
| `Field25519.SquareRound` | SupplyFinanceChain/src/ed25519-donna/curve25519-donna-64bit.h:195-226 | One turn squares, with carries taken from the columns before they are passed on |
| `Field25519.CarryColumns` | SupplyFinanceChain/src/ed25519-donna/curve25519-donna-64bit.h:158-164 | The carry chain keeps the residue and fits its words |
| `Field25519.ColumnsValue` | SupplyFinanceChain/src/ed25519-donna/curve25519-donna-64bit.h:126-155 | Five columns with 2^255 counted as 19 are congruent to the product of all limbs |
| `Field25519.PowTo250` | SupplyFinanceChain/src/ed25519-donna/curve25519-donna-helpers.h:8-31 | In place, from the power 2^5 - 1 to the power 2^250 - 1 |
| `Field25519.Recip` | SupplyFinanceChain/src/ed25519-donna/curve25519-donna-helpers.h:33-49 | The power p - 2, p = 2^255 - 19, as in section 5.1.1 of RFC 8032 |
| `Field25519.PowTwo252Minus3` | SupplyFinanceChain/src/ed25519-donna/curve25519-donna-helpers.h:51-67 | The power (p - 5) / 8, as in section 5.1.3 of RFC 8032 |
| `Field25519.Contract` | SupplyFinanceChain/src/ed25519-donna/curve25519-donna-64bit.h:321-373 | 32 bytes whose value is the residue in [0, p), for any limbs up to 2^64 - 2^13 |
| `Field25519.Freeze` | SupplyFinanceChain/src/ed25519-donna/curve25519-donna-64bit.h:335-363 | The passes leave properly carried limbs of that residue |
| `Field25519.CarryFull` | SupplyFinanceChain/src/ed25519-donna/curve25519-donna-64bit.h:341-342 | A full pass folds what is above 2^255 back as 19 times as much |
| `Field25519.Expand` | SupplyFinanceChain/src/ed25519-donna/curve25519-donna-64bit.h:286-319 | Limbs below 2^51 with the value of the bytes modulo 2^255 |
| `Field25519.ReadBack` | SupplyFinanceChain/src/ed25519-donna/curve25519-donna-64bit.h:286-373 | Expanding contracted bytes gives the canonical limbs of the residue, the same limbs if and only if they were canonical |
| `Field25519.WriteBack` | SupplyFinanceChain/src/ed25519-donna/curve25519-donna-64bit.h:286-373 | Contracting expanded bytes gives the same bytes if and only if their value is below p |
| `Field25519.Compare` | SupplyFinanceChain/src/ed25519-donna/curve25519-donna-64bit.h:321-373 | Two elements are written as the same bytes if and only if they are congruent |
| `Field25519.AddReduce` | SupplyFinanceChain/src/ed25519-donna/curve25519-donna-64bit.h:45-54 | Congruent to the sum, with small limbs |
| `Field25519.SubReduce` | SupplyFinanceChain/src/ed25519-donna/curve25519-donna-64bit.h:82-91 | Congruent to the difference, no limb below zero on the way |
| `Field25519.Neg` | SupplyFinanceChain/src/ed25519-donna/curve25519-donna-64bit.h:93-103 | Congruent to the negation |

## Left out

- Insert: supports are natural numbers, so the 32-bit wrap-around of support counts is not modelled.
- GetPreferred: sequence numbers are natural numbers; the use of a larger signed type for differences is not modelled.
- Run: the number of times the application changes its mind about the prior ledger within one event is finite, because only the application bounds that recursion; the bound is arbitrary.
- PhaseEstablish: the decision to pause is an arbitrary answer; its floating-point rule is not modelled.
- CheckConsensusReached: counts are natural numbers and times are integers; narrowing between integer types is not modelled.
- MultiScalarMult: an even number of scalars is not modelled; the caller always passes an odd number.
- ContractSlidingWindow: from 2^255 on, which of the two values comes out depends on how the lower bits fall into windows; beyond 2^256 - 1 this is not characterised, and callers pass reduced scalars.
- ScalarMultBase: the stored tables are parameters with the multiples they must hold; that the stored constants are those multiples is not shown.
- Choose: table entries are group elements; packing, expansion and the constant-time byte selection are not modelled.
- Recip: that the power is the inverse needs the modulus to be prime, which is not shown.
- Final: what reading outside the scalar gives, if its four lower limbs are clear and the fifth is not, is not modelled; there is no result then.
- HashChunks: the block function is arbitrary; its rounds are not modelled.
- The Edwards curve formulas, point compression and the signature scheme itself: polynomial identities and thin layers over what is modelled.
- The 32-bit, SSE2 and assembly variants: the same algorithms at other widths.
- The plain additions and subtractions of field elements without carries, conditional moves and swaps: easy members.
- Simulation, JSON output, logging, message sharing and the clock plumbing of consensus rounds.
- Consensus parameters and close-time resolution as subjects of their own: they appear as constants and helper functions.
- Messages that share positions and sets with other nodes are reduced to the record of proposals sent.
