/**
  Everything a round knows about disputed transactions, taken as one value:
  our transaction set, the disputes, the sets already compared with ours, the
  peers' positions and the transaction sets acquired so far.
 */
module DisputeBook {
  import opened ConsensusTypes
  import opened Disputes

  datatype Book = Book(
    txns: TxSet, disputes: map<TxId, Dispute>, compares: set<SetId>,
    peers: map<NodeId, Proposal>, acquired: map<SetId, TxSet>)

  /** Set ids are as good as the sets they name. */
  ghost predicate Injective(idOf: TxSet -> SetId) {
    forall a: TxSet, b: TxSet :: idOf(a) == idOf(b) ==> a == b
  }

  ghost predicate AcquiredOk(idOf: TxSet -> SetId, acquired: map<SetId, TxSet>) {
    forall i :: i in acquired ==> idOf(acquired[i]) == i
  }

  function Difference(a: TxSet, b: TxSet): TxSet {
    (a - b) + (b - a)
  }

  // ----- The invariant -----

  ghost predicate DisputeOk(b: Book, t: TxId)
    requires t in b.disputes
  {
    var d := b.disputes[t];
    && d.tx == t && d.Counted()
    && d.ourVote == (t in b.txns)
    && d.votes.Keys <= b.peers.Keys
  }

  /** The dispute on `t` records what peer `p` proposes, if its set is known. */
  ghost predicate VoteOk(b: Book, t: TxId, p: NodeId)
    requires t in b.disputes && p in b.peers
  {
    var pos := b.peers[p].position;
    pos in b.acquired ==> p in b.disputes[t].votes && b.disputes[t].votes[p] == (t in b.acquired[pos])
  }

  ghost predicate CompareOk(b: Book, i: SetId) {
    i in b.acquired && Difference(b.txns, b.acquired[i]) <= b.disputes.Keys
  }

  /**
    Disputes are complete and up to date, except that the votes of peers in
    `stale` may be old and the sets of peers in `unread` may not have been
    compared with ours yet.
   */
  ghost predicate BookOk(b: Book, stale: set<NodeId>, unread: set<NodeId>) {
    && (forall t {:trigger DisputeOk(b, t)} :: t in b.disputes ==> DisputeOk(b, t))
    && (forall t, p {:trigger VoteOk(b, t, p)} :: t in b.disputes && p in b.peers && p !in stale ==> VoteOk(b, t, p))
    && (forall i {:trigger CompareOk(b, i)} :: i in b.compares ==> CompareOk(b, i))
    && (forall p :: p in b.peers && p !in unread && b.peers[p].position in b.acquired ==> b.peers[p].position in b.compares)
  }

  /** Dispute completeness, spelled out for one peer. */
  lemma Complete(b: Book, p: NodeId, t: TxId)
    requires BookOk(b, {}, {}) && p in b.peers && b.peers[p].position in b.acquired
    ensures (t in b.txns) != (t in b.acquired[b.peers[p].position]) ==> t in b.disputes
    ensures t in b.disputes ==>
              && p in b.disputes[t].votes
              && b.disputes[t].votes[p] == (t in b.acquired[b.peers[p].position])
              && b.disputes[t].votes.Keys <= b.peers.Keys
              && b.disputes[t].yays + b.disputes[t].nays == |b.disputes[t].votes|
  {
    assert CompareOk(b, b.peers[p].position);
    if t in b.disputes {
      assert VoteOk(b, t, p) && DisputeOk(b, t);
      var votes := b.disputes[t].votes;
      assert Voters(votes, true) + Voters(votes, false) == votes.Keys;
      assert Voters(votes, true) !! Voters(votes, false);
    }
  }

  // ----- Creating disputes -----

  /** Peer votes on `t`, for every peer whose set is known. */
  ghost predicate VotesFromPeers(votes: map<NodeId, bool>, b: Book, t: TxId) {
    && (forall p :: p in votes <==> p in b.peers && b.peers[p].position in b.acquired)
    && (forall p :: p in votes ==> votes[p] == (t in b.acquired[b.peers[p].position]))
  }

  /** The disputes `ds` are those of `b` and a new one for each transaction in `added`. */
  ghost predicate Extended(b: Book, added: TxSet, ds: map<TxId, Dispute>) {
    && ds.Keys == b.disputes.Keys + added
    && (forall t :: t in b.disputes ==> ds[t] == b.disputes[t])
    && (forall t :: t in added && t !in b.disputes ==>
          && ds[t].tx == t && ds[t].Counted() && ds[t].ourVote == (t in b.txns)
          && VotesFromPeers(ds[t].votes, b, t))
  }

  ghost function PeersAt(b: Book, i: SetId): set<NodeId> {
    set p | p in b.peers && b.peers[p].position == i
  }

  lemma CreateKeeps(b: Book, i: SetId, ds: map<TxId, Dispute>, stale: set<NodeId>, unread: set<NodeId>)
    requires BookOk(b, stale, unread) && i in b.acquired
    requires Extended(b, Difference(b.txns, b.acquired[i]), ds)
    ensures BookOk(b.(disputes := ds, compares := b.compares + {i}), stale, unread - PeersAt(b, i))
  {
    var b' := b.(disputes := ds, compares := b.compares + {i});
    forall t | t in ds ensures DisputeOk(b', t) {
      if t in b.disputes {
        assert DisputeOk(b, t);
      }
    }
    forall t, p | t in ds && p in b.peers && p !in stale ensures VoteOk(b', t, p) {
      if t in b.disputes {
        assert VoteOk(b, t, p);
      }
    }
    forall j | j in b'.compares ensures CompareOk(b', j) {
      if j in b.compares {
        assert CompareOk(b, j);
      }
    }
  }

  // ----- A peer's votes -----

  ghost predicate Revoted(b: Book, node: NodeId, o: TxSet, ds: map<TxId, Dispute>) {
    && ds.Keys == b.disputes.Keys
    && forall t :: t in ds ==> ds[t] == b.disputes[t].SetVote(node, t in o)
  }

  lemma RevoteKeeps(b: Book, node: NodeId, ds: map<TxId, Dispute>, stale: set<NodeId>, unread: set<NodeId>)
    requires BookOk(b, stale, unread)
    requires node in b.peers && b.peers[node].position in b.acquired
    requires Revoted(b, node, b.acquired[b.peers[node].position], ds)
    ensures BookOk(b.(disputes := ds), stale - {node}, unread)
  {
    var b' := b.(disputes := ds);
    forall t | t in ds ensures DisputeOk(b', t) {
      assert DisputeOk(b, t);
      SetVoteCounted(b.disputes[t], node, t in b.acquired[b.peers[node].position]);
    }
    forall t, p | t in ds && p in b.peers && p !in stale - {node} ensures VoteOk(b', t, p) {
      assert DisputeOk(b, t);
      SetVoteCounted(b.disputes[t], node, t in b.acquired[b.peers[node].position]);
      if p != node {
        assert VoteOk(b, t, p);
      }
    }
    forall j | j in b'.compares ensures CompareOk(b', j) {
      assert CompareOk(b, j);
    }
  }

  ghost predicate Unvoted(b: Book, node: NodeId, ds: map<TxId, Dispute>) {
    && ds.Keys == b.disputes.Keys
    && forall t :: t in ds ==> ds[t] == b.disputes[t].UnVote(node)
  }

  lemma RemovePeerKeeps(b: Book, node: NodeId, ds: map<TxId, Dispute>)
    requires BookOk(b, {}, {}) && Unvoted(b, node, ds)
    ensures BookOk(b.(disputes := ds, peers := b.peers - {node}), {}, {})
  {
    var b' := b.(disputes := ds, peers := b.peers - {node});
    forall t | t in ds ensures DisputeOk(b', t) {
      assert DisputeOk(b, t);
      UnVoteCounted(b.disputes[t], node);
    }
    forall t, p | t in ds && p in b'.peers ensures VoteOk(b', t, p) {
      assert DisputeOk(b, t) && VoteOk(b, t, p);
      UnVoteCounted(b.disputes[t], node);
    }
    forall j | j in b'.compares ensures CompareOk(b', j) {
      assert CompareOk(b, j);
    }
  }

  // ----- New positions and new sets -----

  lemma NewPositionKeeps(b: Book, node: NodeId, prop: Proposal)
    requires BookOk(b, {}, {})
    ensures
      var b' := b.(peers := b.peers[node := prop]);
      && BookOk(b', {node}, {node})
      && (prop.position !in b.acquired ==> BookOk(b', {}, {}))
  {
    var b' := b.(peers := b.peers[node := prop]);
    forall t | t in b'.disputes ensures DisputeOk(b', t) {
      assert DisputeOk(b, t);
    }
    forall t, p | t in b'.disputes && p in b'.peers && (p != node || prop.position !in b.acquired)
      ensures VoteOk(b', t, p)
    {
      if p != node {
        assert VoteOk(b, t, p);
      }
    }
    forall j | j in b'.compares ensures CompareOk(b', j) {
      assert CompareOk(b, j);
    }
  }

  lemma AcquireKeeps(b: Book, i: SetId, o: TxSet)
    requires BookOk(b, {}, {}) && i !in b.acquired
    ensures BookOk(b.(acquired := b.acquired[i := o]), PeersAt(b, i), PeersAt(b, i))
  {
    var b' := b.(acquired := b.acquired[i := o]);
    forall t | t in b'.disputes ensures DisputeOk(b', t) {
      assert DisputeOk(b, t);
    }
    forall t, p | t in b'.disputes && p in b'.peers && p !in PeersAt(b, i) ensures VoteOk(b', t, p) {
      assert VoteOk(b, t, p);
    }
    forall j | j in b'.compares ensures CompareOk(b', j) {
      assert CompareOk(b, j);
    }
  }

  // ----- Our own change of mind -----

  /** Our votes have moved on, and our set with them. */
  ghost predicate Moved(b: Book, ds: map<TxId, Dispute>, txns: TxSet) {
    && ds.Keys == b.disputes.Keys
    && (forall t :: t in ds ==> ds[t] == b.disputes[t].(ourVote := t in txns))
    && (forall t :: t !in ds ==> (t in txns <==> t in b.txns))
  }

  lemma MovedStep(b: Book, ds: map<TxId, Dispute>, txns: TxSet, t: TxId, vote: bool)
    requires Moved(b, ds, txns) && t in ds
    ensures Moved(b, ds[t := ds[t].(ourVote := vote)], if vote then txns + {t} else txns - {t})
  {
  }

  /** Disputes change only where our set does. */
  lemma RealMove(b: Book, ds: map<TxId, Dispute>, txns: TxSet)
    requires BookOk(b, {}, {}) && Moved(b, ds, txns) && ds != b.disputes
    ensures txns != b.txns
  {
    if txns == b.txns {
      forall t | t in ds ensures ds[t] == b.disputes[t] {
        assert DisputeOk(b, t);
      }
      assert false;
    }
  }

  /** Nothing has moved yet, and all totals are right. */
  lemma CountedAll(b: Book)
    requires BookOk(b, {}, {})
    ensures forall t :: t in b.disputes ==> b.disputes[t].Counted()
    ensures Moved(b, b.disputes, b.txns)
  {
    forall t | t in b.disputes ensures b.disputes[t].Counted() && b.disputes[t] == b.disputes[t].(ourVote := t in b.txns) {
      assert DisputeOk(b, t);
    }
  }

  lemma MoveKeeps(b: Book, ds: map<TxId, Dispute>, txns: TxSet)
    requires BookOk(b, {}, {}) && Moved(b, ds, txns)
    ensures BookOk(b.(disputes := ds, txns := txns), {}, {})
  {
    var b' := b.(disputes := ds, txns := txns);
    forall t | t in ds ensures DisputeOk(b', t) {
      assert DisputeOk(b, t);
    }
    forall t, p | t in ds && p in b.peers ensures VoteOk(b', t, p) {
      assert VoteOk(b, t, p);
    }
    forall j | j in b'.compares ensures CompareOk(b', j) {
      assert CompareOk(b, j);
      forall t | t in Difference(txns, b.acquired[j]) ensures t in ds {
        if t !in ds {
          assert false;
        }
      }
    }
  }

  // ----- What our vote on a dispute becomes -----

  function Restrict(votes: map<NodeId, bool>, live: set<NodeId>): map<NodeId, bool> {
    map p | p in votes && p in live :: votes[p]
  }

  /** The set `txns` follows the live votes on all disputes of `b`, and leaves the rest of our set alone. */
  ghost predicate Verdicts(b: Book, txns: TxSet, live: set<NodeId>, percentTime: int, proposing: bool) {
    && (forall t :: t in b.disputes ==>
          VoteRule(Restrict(b.disputes[t].votes, live), b.disputes[t].ourVote, percentTime, proposing, t in txns))
    && (forall t :: t !in b.disputes ==> (t in txns <==> t in b.txns))
  }

  /** The disputes of `b` without the votes of the peers in `gone`. */
  ghost predicate VotesWithout(b: Book, gone: set<NodeId>, ds: map<TxId, Dispute>) {
    && ds.Keys == b.disputes.Keys
    && forall t :: t in ds ==>
         && ds[t].votes == b.disputes[t].votes - gone
         && ds[t].ourVote == b.disputes[t].ourVote && ds[t].tx == b.disputes[t].tx
  }

  lemma WithoutNobody(b: Book)
    ensures VotesWithout(b, {}, b.disputes)
  {
    forall t | t in b.disputes ensures b.disputes[t].votes == b.disputes[t].votes - {} {
    }
  }

  lemma WithoutOneMore(b: Book, now: Book, gone: set<NodeId>, p: NodeId, ds: map<TxId, Dispute>)
    requires VotesWithout(b, gone, now.disputes) && Unvoted(now, p, ds)
    ensures VotesWithout(b, gone + {p}, ds)
  {
    forall t | t in ds ensures ds[t].votes == b.disputes[t].votes - (gone + {p}) {
      assert now.disputes[t].votes - {p} == b.disputes[t].votes - (gone + {p});
      assert p !in now.disputes[t].votes ==> now.disputes[t].votes - {p} == now.disputes[t].votes;
    }
  }

  ghost predicate OnlyPeersVote(b: Book) {
    forall t :: t in b.disputes ==> b.disputes[t].votes.Keys <= b.peers.Keys
  }

  lemma VotersArePeers(b: Book)
    requires BookOk(b, {}, {})
    ensures OnlyPeersVote(b)
  {
    forall t | t in b.disputes ensures b.disputes[t].votes.Keys <= b.peers.Keys {
      assert DisputeOk(b, t);
    }
  }

  /** Once stale peers are gone, updating every dispute gives the verdicts of the live ones. */
  lemma VerdictsFollow(b: Book, now: Book, live: set<NodeId>, ds: map<TxId, Dispute>, txns: TxSet, percentTime: int,
                       proposing: bool)
    requires OnlyPeersVote(b) && live <= b.peers.Keys && VotesWithout(b, b.peers.Keys - live, now.disputes)
    requires ds.Keys == now.disputes.Keys && Moved(now, ds, txns)
    requires forall t :: t in ds ==>
               now.disputes[t].Counted() && ds[t] == now.disputes[t].UpdateVote(percentTime, proposing)
    requires now.txns == b.txns
    ensures Verdicts(b, txns, live, percentTime, proposing)
  {
    hide VoteRule;
    forall t | t in b.disputes
      ensures VoteRule(Restrict(b.disputes[t].votes, live), b.disputes[t].ourVote, percentTime, proposing, t in txns)
    {
      var d := now.disputes[t];
      assert d.votes == Restrict(b.disputes[t].votes, live);
      assert ds[t].ourVote == (t in txns);
      VotesByTheRule(d, percentTime, proposing);
    }
  }
}
