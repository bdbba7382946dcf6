/**
  The round of consensus as a state machine: `StartRound`, `PeerProposal`,
  `GotTxSet` and `TimerEntry` are its steps.  What the application around it
  answers is arbitrary; see `Adaptor`.
 */
module ConsensusRounds {
  import opened Collections
  import opened ConsensusTypes
  import opened Disputes
  import opened Thresholds
  import opened DisputeBook

  /** The answers of the application, kind by kind and in order. */
  datatype Log = Log(
    named: seq<LedgerId>, ledgers: seq<Option<LedgerInfo>>, txSets: seq<Option<TxSet>>,
    closings: seq<(TxSet, Proposal)>, bools: seq<bool>, counts: seq<nat>, clocks: seq<Millis>)

  /**
    The application.  Every answer is arbitrary within what the interface
    promises.  `patience` bounds how often it still changes its mind about the
    prior ledger within one step, which is all that bounds the recursion
    between `StartRoundInternal` and `TimerEntry`.
   */
  class Adaptor {
    const idOf: TxSet -> SetId
    var patience: nat
    /** Everything it has answered. */
    ghost var log: Log

    constructor (idOf: TxSet -> SetId)
      ensures this.idOf == idOf
    {
      this.idOf := idOf;
      patience := *;
      log := Log([], [], [], [], [], [], []);
    }

    method GetPrevLedger(current: LedgerId) returns (id: LedgerId)
      modifies this`patience, this`log
      ensures patience <= old(patience)
      ensures id != current ==> patience < old(patience)
      ensures log == old(log).(named := old(log).named + [id])
    {
      id := *;
      if patience == 0 {
        id := current;
      } else if id != current {
        patience := patience - 1;
      }
      log := log.(named := log.named + [id]);
    }

    method AcquireLedger(id: LedgerId) returns (ledger: Option<LedgerInfo>)
      modifies this`log
      ensures ledger.Some? ==> ledger.value.id == id && ledger.value.resolution > 0
      ensures log == old(log).(ledgers := old(log).ledgers + [ledger])
    {
      ledger := *;
      if ledger.Some? && !(ledger.value.id == id && ledger.value.resolution > 0) {
        ledger := None;
      }
      log := log.(ledgers := log.ledgers + [ledger]);
    }

    method AcquireTxSet(id: SetId) returns (txSet: Option<TxSet>)
      modifies this`log
      ensures txSet.Some? ==> idOf(txSet.value) == id
      ensures log == old(log).(txSets := old(log).txSets + [txSet])
    {
      txSet := *;
      if txSet.Some? && idOf(txSet.value) != id {
        txSet := None;
      }
      log := log.(txSets := log.txSets + [txSet]);
    }

    /** Our initial transaction set and a position that names it. */
    method OnClose(ledger: LedgerInfo, now: Time, mode: Mode) returns (txns: TxSet, position: Proposal)
      modifies this`log
      ensures position.position == idOf(txns) && position.seqNo == SEQ_JOIN
      ensures log == old(log).(closings := old(log).closings + [(txns, position)])
    {
      txns := *;
      position := *;
      position := position.(position := idOf(txns), seqNo := SEQ_JOIN);
      log := log.(closings := log.closings + [(txns, position)]);
    }

    method AnyBool() returns (b: bool)
      modifies this`log
      ensures log == old(log).(bools := old(log).bools + [b])
    {
      b := *;
      log := log.(bools := log.bools + [b]);
    }

    method AnyCount() returns (n: nat)
      modifies this`log
      ensures log == old(log).(counts := old(log).counts + [n])
    {
      n := *;
      log := log.(counts := log.counts + [n]);
    }

    method ClockNow() returns (t: Millis)
      modifies this`log
      ensures log == old(log).(clocks := old(log).clocks + [t])
    {
      t := *;
      log := log.(clocks := log.clocks + [t]);
    }
  }

  datatype Result = Result(
    txns: TxSet, position: Proposal, disputes: map<TxId, Dispute>, compares: set<SetId>,
    roundStart: Millis, roundTime: Millis, state: ConsensusState, proposers: nat)

  // ----- What holds between steps -----

  /** Current peers are on our prior ledger, have not bowed out, and are not among the dead. */
  ghost predicate PeersOk(peers: map<NodeId, Proposal>, prevLedger: LedgerId, dead: set<NodeId>) {
    forall p :: p in peers ==>
      peers[p].node == p && peers[p].prevLedger == prevLedger && !peers[p].IsBowOut() && p !in dead
  }

  /** Our position names our set, and our set is among those acquired. */
  ghost predicate StanceOk(r: Result, idOf: TxSet -> SetId, acquired: map<SetId, TxSet>) {
    && r.position.position == idOf(r.txns)
    && idOf(r.txns) in acquired
  }

  ghost predicate PhaseOk(phase: Phase, result: Option<Result>, firstRound: bool) {
    && (phase == Open ==> result.None?)
    && (phase == Establish ==> result.Some?)
    && (phase == Accepted && !firstRound ==> result.Some? && result.value.state != No)
    && (firstRound ==> phase == Accepted)
  }

  /** Sequence numbers rise, so that a bow-out can only be the last proposal. */
  ghost predicate SentOk(sent: seq<Proposal>) {
    forall i, j :: 0 <= i < j < |sent| ==> sent[i].seqNo < sent[j].seqNo
  }

  /** Proposing, once given up, is not taken up again. */
  ghost predicate ModesOk(modes: seq<Mode>) {
    forall i, j :: 0 <= i < j < |modes| && modes[j] == Proposing ==> modes[i] == Proposing
  }

  /** How the proposals sent this round relate to our current position. */
  ghost predicate HistoryOk(mode: Mode, modes: seq<Mode>, sent: seq<Proposal>, result: Option<Result>) {
    && ModesOk(modes) && SentOk(sent)
    && (modes != [] ==> modes[|modes| - 1] == mode)
    && (mode == Proposing && result.None? ==> sent == [])
    && (mode == Proposing && result.Some? ==>
          var pos := result.value.position;
          && sent != []
          && !sent[|sent| - 1].IsBowOut()
          && (sent[|sent| - 1].seqNo == pos.seqNo || pos.IsBowOut()))
  }

  /** The same stance, apart from disputes and comparisons. */
  ghost predicate SameStance(a: Option<Result>, b: Option<Result>) {
    && (a.Some? <==> b.Some?)
    && (a.Some? ==> b.value == a.value.(disputes := b.value.disputes, compares := b.value.compares))
  }

  ghost function BookOf(r: Result, peers: map<NodeId, Proposal>, acquired: map<SetId, TxSet>): Book {
    Book(r.txns, r.disputes, r.compares, peers, acquired)
  }

  /** Every bow-out is the last proposal sent, and there is at most one. */
  lemma BowOutIsLast(sent: seq<Proposal>, i: nat)
    requires SentOk(sent) && i < |sent| && sent[i].IsBowOut()
    ensures i == |sent| - 1
  {
    if i < |sent| - 1 {
      SentInOrder(sent, i, |sent| - 1);
      assert false;
    }
  }

  lemma SentInOrder(sent: seq<Proposal>, i: nat, j: nat)
    requires SentOk(sent) && i < j < |sent|
    ensures sent[i].seqNo < sent[j].seqNo
  {
  }

  /** The peers among `seen` that hold the given position. */
  ghost function WithPosition(peers: map<NodeId, Proposal>, seen: set<NodeId>, position: SetId): set<NodeId> {
    set p | p in seen && p in peers && peers[p].position == position
  }

  lemma NoneYet(peers: map<NodeId, Proposal>, position: SetId)
    ensures WithPosition(peers, {}, position) == {}
  {
  }

  lemma OneMoreSeen(peers: map<NodeId, Proposal>, seen: set<NodeId>, p: NodeId, position: SetId)
    requires p in peers && p !in seen
    ensures WithPosition(peers, seen + {p}, position) ==
            WithPosition(peers, seen, position) + if peers[p].position == position then {p} else {}
    ensures p !in WithPosition(peers, seen, position)
  {
  }

  method CountAt(peers: map<NodeId, Proposal>, ours: SetId) returns (agree: nat, disagree: nat)
    ensures agree == |WithPosition(peers, peers.Keys, ours)| && agree + disagree == |peers|
  {
    hide WithPosition;
    agree, disagree := 0, 0;
    var rest := peers.Keys;
    ghost var seen: set<NodeId> := {};
    NoneYet(peers, ours);
    while rest != {}
      invariant rest == peers.Keys - seen && seen <= peers.Keys
      invariant agree == |WithPosition(peers, seen, ours)| && agree + disagree == |seen|
      decreases rest
    {
      var p :| p in rest;
      OneMoreSeen(peers, seen, p, ours);
      if peers[p].position == ours {
        agree := agree + 1;
      } else {
        disagree := disagree + 1;
      }
      rest := rest - {p};
      seen := seen + {p};
    }
    assert seen == peers.Keys;
  }

  /** A proposal is not lost: its peer has left, or holds that position or a later one. */
  ghost predicate Heard(prop: Proposal, peers: map<NodeId, Proposal>, dead: set<NodeId>) {
    prop.node in dead || (prop.node in peers && prop.seqNo <= peers[prop.node].seqNo)
  }

  ghost predicate HeardAll(props: seq<Proposal>, prevLedger: LedgerId, peers: map<NodeId, Proposal>, dead: set<NodeId>) {
    forall k :: 0 <= k < |props| && props[k].prevLedger == prevLedger ==> Heard(props[k], peers, dead)
  }

  /** Peers move on to later positions or leave for good. */
  ghost predicate MoreHeard(peers: map<NodeId, Proposal>, dead: set<NodeId>, peers': map<NodeId, Proposal>, dead': set<NodeId>) {
    && dead <= dead'
    && forall p :: p in peers ==> p in dead' || (p in peers' && peers[p].seqNo <= peers'[p].seqNo)
  }

  lemma StillHeard(props: seq<Proposal>, prevLedger: LedgerId, peers: map<NodeId, Proposal>, dead: set<NodeId>,
                   peers': map<NodeId, Proposal>, dead': set<NodeId>)
    requires HeardAll(props, prevLedger, peers, dead) && MoreHeard(peers, dead, peers', dead')
    ensures HeardAll(props, prevLedger, peers', dead')
  {
  }

  lemma NothingYet(idOf: TxSet -> SetId, id: LedgerId)
    ensures AcquiredOk(idOf, map[]) && PeersOk(map[], id, {}) && PhaseOk(Open, None, false)
  {
  }

  lemma FreshHistory(modes: seq<Mode>, m: Mode, sent: seq<Proposal>)
    requires ModesOk(modes + [m]) && SentOk(sent) && (m == Proposing ==> sent == [])
    ensures HistoryOk(m, modes + [m], sent, None)
  {
  }

  lemma SameStanceIsOk(r: Result, b: Option<Result>, idOf: TxSet -> SetId, acquired: map<SetId, TxSet>, firstRound: bool)
    requires StanceOk(r, idOf, acquired) && SameStance(Some(r), b) && PhaseOk(Establish, Some(r), firstRound)
    ensures b.Some? && StanceOk(b.value, idOf, acquired) && b.value.position == r.position && b.value.txns == r.txns
    ensures b.value.roundStart == r.roundStart && b.value.roundTime == r.roundTime && b.value.state == r.state
    ensures PhaseOk(Establish, b, firstRound)
  {
  }

  lemma NoneWhileOpen(a: Option<Result>, firstRound: bool)
    requires PhaseOk(Open, a, firstRound)
    ensures a == None && !firstRound
  {
  }

  lemma JustClosed(a: Option<Result>, firstRound: bool)
    requires a.Some? && !firstRound
    ensures PhaseOk(Establish, a, firstRound)
  {
  }

  /** Our own set joins those acquired. */
  lemma OwnSetJoins(idOf: TxSet -> SetId, acquired: map<SetId, TxSet>, r: Result)
    requires AcquiredOk(idOf, acquired) && r.position.position == idOf(r.txns)
    ensures
      var id := idOf(r.txns);
      var after := if id in acquired then acquired else acquired[id := r.txns];
      AcquiredOk(idOf, after) && StanceOk(r, idOf, after)
  {
  }

  lemma FirstSent(mode: Mode, modes: seq<Mode>, sent: seq<Proposal>, r: Result)
    requires HistoryOk(mode, modes, sent, None) && r.position.seqNo == SEQ_JOIN
    ensures HistoryOk(mode, modes, sent + if mode == Proposing then [r.position] else [], Some(r))
  {
    assert sent + [] == sent;
  }

  lemma AnotherMode(mode: Mode, modes: seq<Mode>, sent: seq<Proposal>, result: Option<Result>, m: Mode)
    requires HistoryOk(mode, modes, sent, result) && m != Proposing
    ensures ModesOk(modes + [m]) && SentOk(sent) && HistoryOk(m, modes + [m], sent, result)
  {
  }

  /** Once some mode entered is not proposing, neither is the current one. */
  lemma NotTakenUpAgain(mode: Mode, modes: seq<Mode>, sent: seq<Proposal>, result: Option<Result>, before: seq<Mode>)
    requires HistoryOk(mode, modes, sent, result) && before <= modes
    requires before != [] && before[|before| - 1] != Proposing
    ensures mode != Proposing
  {
    assert modes[|before| - 1] != Proposing;
  }

  /** The proposals sent are in order after a new position, once that is sent if it is to be. */
  lemma NewPositionSent(mode: Mode, modes: seq<Mode>, sent: seq<Proposal>, a: Option<Result>, id: SetId, closeTime: Time,
                        now: Time)
    requires a.Some? && HistoryOk(mode, modes, sent, a)
    ensures
      var position := a.value.position.ChangePosition(id, closeTime, now);
      HistoryOk(mode, modes, sent + if mode == Proposing && !position.IsBowOut() then [position] else [],
                Some(a.value.(position := position)))
  {
    var position := a.value.position.ChangePosition(id, closeTime, now);
    assert sent + [] == sent;
  }

  lemma SamePositionSent(mode: Mode, modes: seq<Mode>, sent: seq<Proposal>, a: Option<Result>, b: Option<Result>)
    requires a.Some? && b.Some?
    requires
      var position := b.value.position;
      HistoryOk(mode, modes, sent + if mode == Proposing && !position.IsBowOut() then [position] else [],
                Some(a.value.(position := position)))
    ensures
      var position := b.value.position;
      HistoryOk(mode, modes, sent + if mode == Proposing && !position.IsBowOut() then [position] else [], b)
  {
  }

  lemma SameStanceKeeps(mode: Mode, modes: seq<Mode>, sent: seq<Proposal>, a: Option<Result>, b: Option<Result>)
    requires HistoryOk(mode, modes, sent, a) && SameStance(a, b)
    ensures HistoryOk(mode, modes, sent, b)
  {
  }

  /** The ledger named last, if any was named after the first n, and `id` otherwise. */
  ghost function NamedLast(named: seq<LedgerId>, n: nat, id: LedgerId): LedgerId {
    if |named| > n then named[|named| - 1] else id
  }

  /** A peer's position only ever gives way to one with a larger sequence number. */
  ghost predicate PeersMoveOn(was: map<NodeId, Proposal>, peers: map<NodeId, Proposal>) {
    forall p :: p in was && p in peers && peers[p] != was[p] ==> was[p].seqNo < peers[p].seqNo
  }

  /** The ledger has been asked for; with it we entered switched-ledger mode, without it we are in wrong-ledger mode. */
  ghost predicate Restarted(l0: Log, l: Log, modes0: seq<Mode>, modes: seq<Mode>, mode: Mode) {
    && |l.ledgers| > |l0.ledgers|
    && (l.ledgers[|l0.ledgers|].Some? ==> exists k :: |modes0| <= k < |modes| && modes[k] == SwitchedLedger)
    && (l.ledgers[|l0.ledgers|].None? ==> mode == WrongLedger)
  }

  /** At most the last ten proposals of each peer are kept. */
  ghost predicate RecentOk(recent: map<NodeId, seq<Proposal>>) {
    forall n :: n in recent ==> |recent[n]| <= 10 && forall k :: 0 <= k < |recent[n]| ==> recent[n][k].node == n
  }

  ghost predicate LastTen(was: seq<Proposal>, prop: Proposal, kept: seq<Proposal>) {
    && |kept| == (if |was| < 10 then |was| + 1 else 10)
    && kept[|kept| - 1] == prop
    && forall k :: 0 <= k < |kept| - 1 ==> kept[k] == was[|was| + 1 - |kept| + k]
  }

  lemma KeepLast(recent: map<NodeId, seq<Proposal>>, prop: Proposal, kept: seq<Proposal>)
    requires RecentOk(recent)
    ensures
      var was := if prop.node in recent then recent[prop.node] else [];
      && |was| <= 10
      && (LastTen(was, prop, kept) ==> RecentOk(recent[prop.node := kept]))
  {
    var was := if prop.node in recent then recent[prop.node] else [];
    if LastTen(was, prop, kept) {
      forall k | 0 <= k < |kept| ensures kept[k].node == prop.node {
        if k < |kept| - 1 {
          assert kept[k] == was[|was| + 1 - |kept| + k];
        }
      }
    }
  }

  /** What we stand for and what is disputed about it. */
  datatype Stance = Stance(book: Book, position: Proposal, sent: seq<Proposal>)

  datatype Setting = Setting(now: Time, proposing: bool, percent: int, resolution: nat)

  /** The vote on the close time, and what it came to. */
  datatype Outcome = Outcome(votes: Tally, chosen: Time)

  /** Our first stance is the application's, and dates from when the clock says. */
  ghost predicate ByTheAnswers(l0: Log, l: Log, result: Option<Result>) {
    && result.Some?
    && l == l0.(closings := l0.closings + [(result.value.txns, result.value.position)],
                clocks := l0.clocks + [result.value.roundStart])
    && result.value.roundTime == 0 && result.value.state == No
  }

  /** The application has been asked for nothing but sets. */
  ghost predicate OnlySets(l0: Log, l: Log) {
    l == l0.(txSets := l.txSets)
  }

  /** The set with the given id has been asked for, and taken if it was to be had. */
  ghost predicate Fetched(l0: Log, l: Log, acquired0: map<SetId, TxSet>, acquired: map<SetId, TxSet>, id: SetId) {
    if id in acquired0 then l == l0 && acquired == acquired0
    else
      && |l.txSets| == |l0.txSets| + 1 && l == l0.(txSets := l0.txSets + [l.txSets[|l0.txSets|]])
      && var txSet := l.txSets[|l0.txSets|];
         acquired == if txSet.Some? then acquired0[id := txSet.value] else acquired0
  }

  /** A turn of the open phase: the next answers are whether there are transactions, how many have validated, and the time. */
  ghost predicate Opened(l0: Log, l: Log, closes: bool, prevProposers: nat, peers: nat, prevRoundTime: Millis,
                         since: Millis, openStart: Millis, openTime: Millis, idle: Millis)
  {
    && |l.bools| > |l0.bools| && |l.counts| > |l0.counts| && |l.clocks| > |l0.clocks|
    && openTime == l.clocks[|l0.clocks|] - openStart
    && ClosingRule(closes, l.bools[|l0.bools|], prevProposers, peers + l.counts[|l0.counts|], prevRoundTime, since,
                   openTime, idle)
  }

  ghost function CloseTimesOf(peers: map<NodeId, Proposal>, resolution: nat): map<NodeId, Time>
    requires resolution > 0
  {
    map p | p in peers :: RoundCloseTime(peers[p].closeTime, resolution)
  }

  ghost function Holding(peers: map<NodeId, Proposal>, position: SetId): set<NodeId> {
    set p | p in peers && peers[p].position == position
  }

  /** The close time settled on, from the votes of the peers and ours. */
  ghost predicate SettledOn(peers: map<NodeId, Proposal>, s: Setting, votes: Tally, ours: Time, chosen: Time, agreed: bool)
    requires s.resolution > 0
  {
    var rounded := RoundCloseTime(ours, s.resolution);
    && (peers == map[] ==> agreed && chosen == rounded)
    && (peers != map[] ==>
          CloseTimeChosen(if s.proposing then AddVote(votes, rounded) else votes,
                          |peers| + (if s.proposing then 1 else 0), s.percent, chosen, agreed))
  }

  /**
    Our stance after a turn: only fresh peers are left, our set follows their
    votes, the close time is settled, and a new position is taken and sent if
    anything changed or the old one is stale.
   */
  ghost predicate Repositioned(b: Stance, a: Stance, s: Setting, idOf: TxSet -> SetId, votes: Tally, chosen: Time,
                               agreed: bool)
  {
    && s.resolution > 0
    && LivePeers(b.book.peers, s.now - PROPOSE_FRESHNESS, a.book.peers)
    && Verdicts(b.book, a.book.txns, a.book.peers.Keys, s.percent, s.proposing)
    && IsTally(votes, a.book.peers.Keys, CloseTimesOf(a.book.peers, s.resolution))
    && SettledOn(a.book.peers, s, votes, b.position.closeTime, chosen, agreed)
    && if a.book.txns == b.book.txns && chosen == RoundCloseTime(b.position.closeTime, s.resolution)
          && !b.position.IsStale(s.now - PROPOSE_INTERVAL)
       then a.position == b.position && a.sent == b.sent
       else
         && a.position == b.position.ChangePosition(idOf(a.book.txns), chosen, s.now)
         && a.sent == b.sent + if s.proposing && !a.position.IsBowOut() then [a.position] else []
  }

  /**
    A turn of the establish phase: nothing moves before the minimum time; then
    our stance follows our peers, and the ledger is accepted exactly when there
    is no pause, there is consensus on it, and the close time is agreed.
   */
  ghost predicate Established(b: Stance, r0: Result, prevProposers: nat, prevRoundTime: Millis, a: Stance, r: Result,
                              s: Setting, idOf: TxSet -> SetId, agreed: bool, accepted: bool, l0: Log, l: Log, o: Outcome)
  {
    && |l.clocks| > |l0.clocks| && r.roundTime == l.clocks[|l0.clocks|] - r0.roundStart
    && r.proposers == |b.book.peers| && r.roundStart == r0.roundStart
    && IsQuotient(s.percent, 100 * r.roundTime, if prevRoundTime > 5000 then prevRoundTime else 5000)
    && (r.roundTime < 1950 ==> !accepted && a == b && r == r0.(roundTime := r.roundTime, proposers := r.proposers))
    && (r.roundTime >= 1950 ==>
          && Repositioned(b, a, s, idOf, o.votes, o.chosen, agreed)
          && Concluded(l0, l, r0.state, r, prevProposers, prevRoundTime, a.book.peers, a.position.position, s.proposing,
                       agreed, accepted))
  }

  /** Unless the next answer is to pause: how many have finished comes next, and decides with those that agree with us. */
  ghost predicate Concluded(l0: Log, l: Log, state0: ConsensusState, r: Result, prevProposers: nat, prevRoundTime: Millis,
                            peers: map<NodeId, Proposal>, position: SetId, proposing: bool, agreed: bool, accepted: bool)
  {
    && |l.bools| > |l0.bools|
    && (l.bools[|l0.bools|] ==> !accepted && r.state == state0)
    && (!l.bools[|l0.bools|] ==>
          && |l.counts| > |l0.counts|
          && Decided(r.state, prevProposers, |peers|, |Holding(peers, position)|, l.counts[|l0.counts|], prevRoundTime,
                     r.roundTime, proposing)
          && (accepted <==> r.state != No && agreed))
  }

  /** Answers of other kinds in between do not matter. */
  lemma ConcludedLater(l0: Log, l1: Log, l: Log, state0: ConsensusState, r: Result, prevProposers: nat, prevRoundTime: Millis,
                       peers: map<NodeId, Proposal>, position: SetId, proposing: bool, agreed: bool, accepted: bool)
    requires l1.bools == l0.bools && l1.counts == l0.counts
    ensures Concluded(l1, l, state0, r, prevProposers, prevRoundTime, peers, position, proposing, agreed, accepted) ==
            Concluded(l0, l, state0, r, prevProposers, prevRoundTime, peers, position, proposing, agreed, accepted)
  {
  }

  class Consensus {
    const adaptor: Adaptor
    var phase: Phase
    var mode: Mode
    var firstRound: bool
    var haveCloseTimeConsensus: bool
    var convergePercent: int
    var openStart: Millis
    var openTime: Millis
    var closeResolution: nat
    var prevRoundTime: Millis
    var now: Time
    var prevCloseTime: Time
    var prevLedgerId: LedgerId
    var previousLedger: LedgerInfo
    var acquired: map<SetId, TxSet>
    var result: Option<Result>
    var closeTimePeers: map<Time, nat>
    var closeTimeSelf: Time
    var currPeerPositions: map<NodeId, Proposal>
    var recentPeerPositions: map<NodeId, seq<Proposal>>
    var prevProposers: nat
    var deadNodes: set<NodeId>

    /** Proposals sent, and modes entered, since `StartRound` was last called. */
    ghost var sent: seq<Proposal>
    ghost var modes: seq<Mode>

    ghost function TheBook(): Book
      requires result.Some?
      reads this
    {
      BookOf(result.value, currPeerPositions, acquired)
    }

    ghost function TheStance(): Stance
      requires result.Some?
      reads this
    {
      Stance(TheBook(), result.value.position, sent)
    }

    ghost function TheSetting(): Setting
      reads this
    {
      Setting(now, mode == Proposing, convergePercent, closeResolution)
    }

    /** No recent proposal for our prior ledger is lost. */
    ghost predicate HeardRecent()
      reads this
    {
      forall n :: n in recentPeerPositions ==>
        HeardAll(recentPeerPositions[n], prevLedgerId, currPeerPositions, deadNodes)
    }

    /** What holds throughout a step, whatever has been said and disputed. */
    ghost predicate Grounded()
      reads this
    {
      && Injective(adaptor.idOf) && AcquiredOk(adaptor.idOf, acquired)
      && PeersOk(currPeerPositions, prevLedgerId, deadNodes)
      && PhaseOk(phase, result, firstRound)
      && (result.Some? ==> StanceOk(result.value, adaptor.idOf, acquired))
      && closeResolution > 0
    }

    /** What holds throughout a step once its own part of the state is consistent. */
    ghost predicate Steady()
      reads this
    {
      && Grounded()
      && HistoryOk(mode, modes, sent, result)
      && (result.Some? ==> BookOk(TheBook(), {}, {}))
    }

    /** Without the right prior ledger we know that we are wrong. */
    ghost predicate LedgerOk()
      reads this
    {
      !firstRound && previousLedger.id != prevLedgerId ==> mode == WrongLedger
    }

    ghost predicate Valid()
      reads this
    {
      Steady() && LedgerOk() && RecentOk(recentPeerPositions)
    }

    constructor (adaptor: Adaptor)
      requires Injective(adaptor.idOf)
      ensures Valid() && this.adaptor == adaptor && firstRound && phase == Accepted
    {
      this.adaptor := adaptor;
      phase, mode := Accepted, Observing;
      firstRound, haveCloseTimeConsensus := true, false;
      convergePercent := 0;
      closeResolution := RESOLUTIONS[2];
      prevProposers := 0;
      result := None;
      acquired, currPeerPositions, recentPeerPositions, closeTimePeers := map[], map[], map[], map[];
      deadNodes := {};
      sent, modes := [], [];
    }

    // ----- Disputes -----

    /** A new dispute with the votes of all peers whose sets we have. */
    method OpenDispute(tx: TxId) returns (d: Dispute)
      requires result.Some?
      ensures d.tx == tx && d.ourVote == (tx in result.value.txns) && d.Counted()
      ensures VotesFromPeers(d.votes, TheBook(), tx)
    {
      d := NewDispute(tx, tx in result.value.txns);
      var rest := currPeerPositions.Keys;
      while rest != {}
        invariant rest <= currPeerPositions.Keys
        invariant d.tx == tx && d.ourVote == (tx in result.value.txns) && d.Counted()
        invariant forall p :: p in d.votes <==> p in currPeerPositions && p !in rest && currPeerPositions[p].position in acquired
        invariant forall p :: p in d.votes ==> d.votes[p] == (tx in acquired[currPeerPositions[p].position])
        decreases rest
      {
        var p :| p in rest;
        var pos := currPeerPositions[p].position;
        if pos in acquired {
          SetVoteCounted(d, p, tx in acquired[pos]);
          d := d.SetVote(p, tx in acquired[pos]);
        }
        rest := rest - {p};
      }
    }

    /** Dispute whatever differs between our set and `o`, unless that was done before. */
    method CreateDisputes(o: TxSet, ghost stale: set<NodeId>, ghost unread: set<NodeId>)
      requires result.Some? && Injective(adaptor.idOf)
      requires adaptor.idOf(o) in acquired && acquired[adaptor.idOf(o)] == o
      requires BookOk(TheBook(), stale, unread)
      modifies this`result
      ensures SameStance(old(result), result) && adaptor.idOf(o) in result.value.compares
      ensures forall t :: t in result.value.disputes <==>
                || t in old(result).value.disputes
                || (adaptor.idOf(o) !in old(result).value.compares && (t in result.value.txns) != (t in o))
      ensures forall t :: t in old(result).value.disputes ==>
                result.value.disputes[t] == old(result).value.disputes[t]
      ensures BookOk(TheBook(), stale, unread - PeersAt(TheBook(), adaptor.idOf(o)))
    {
      hide DisputeOk, VoteOk, CompareOk;
      var id := adaptor.idOf(o);
      var r := result.value;
      ghost var b := TheBook();
      if id in r.compares {
        return;
      }
      var ds := r.disputes;
      if adaptor.idOf(r.txns) != id {
        ds := DisputeAll(Difference(r.txns, o));
      } else {
        assert r.txns == o;
        assert Difference(r.txns, o) == {};
      }
      CreateKeeps(b, id, ds, stale, unread);
      result := Some(r.(compares := r.compares + {id}, disputes := ds));
    }

    method DisputeAll(differences: TxSet) returns (ds: map<TxId, Dispute>)
      requires result.Some?
      ensures Extended(TheBook(), differences, ds)
    {
      ghost var b := TheBook();
      ds := result.value.disputes;
      var rest := differences;
      while rest != {}
        invariant rest <= differences && Extended(b, differences - rest, ds)
        decreases rest
      {
        var tx :| tx in rest;
        ghost var done := differences - rest;
        if tx !in ds {
          var d := OpenDispute(tx);
          ds := ds[tx := d];
        }
        rest := rest - {tx};
        assert differences - rest == done + {tx};
      }
      assert differences - rest == differences;
    }

    /** Peer `node` now proposes `o`. */
    method UpdateDisputes(node: NodeId, o: TxSet, ghost stale: set<NodeId>, ghost unread: set<NodeId>)
      requires result.Some? && Injective(adaptor.idOf)
      requires adaptor.idOf(o) in acquired && acquired[adaptor.idOf(o)] == o
      requires node in currPeerPositions && currPeerPositions[node].position == adaptor.idOf(o)
      requires BookOk(TheBook(), stale, unread)
      modifies this`result
      ensures SameStance(old(result), result)
      ensures BookOk(TheBook(), stale - {node}, unread - PeersAt(TheBook(), adaptor.idOf(o)))
    {
      hide DisputeOk, VoteOk, CompareOk, Revoted;
      if adaptor.idOf(o) !in result.value.compares {
        CreateDisputes(o, stale, unread);
      }
      ghost var b := TheBook();
      var ds := Revote(node, o);
      RevoteKeeps(b, node, ds, stale, unread - PeersAt(b, adaptor.idOf(o)));
      result := Some(result.value.(disputes := ds));
    }

    method Revote(node: NodeId, o: TxSet) returns (ds: map<TxId, Dispute>)
      requires result.Some?
      ensures Revoted(TheBook(), node, o, ds)
    {
      var was := result.value.disputes;
      ds := was;
      var rest := ds.Keys;
      while rest != {}
        invariant rest <= was.Keys && ds.Keys == was.Keys
        invariant forall t :: t in ds ==> ds[t] == if t in rest then was[t] else was[t].SetVote(node, t in o)
        decreases rest
      {
        var t :| t in rest;
        ds := ds[t := ds[t].SetVote(node, t in o)];
        rest := rest - {t};
      }
    }

    method Unvote(node: NodeId) returns (ds: map<TxId, Dispute>)
      requires result.Some?
      ensures Unvoted(TheBook(), node, ds)
    {
      var was := result.value.disputes;
      ds := was;
      var rest := ds.Keys;
      while rest != {}
        invariant rest <= was.Keys && ds.Keys == was.Keys
        invariant forall t :: t in ds ==> ds[t] == if t in rest then was[t] else was[t].UnVote(node)
        decreases rest
      {
        var t :| t in rest;
        ds := ds[t := ds[t].UnVote(node)];
        rest := rest - {t};
      }
    }

    /** Bring the disputes up to date with every peer that proposes `txSet`. */
    method UpdatePeersAt(txSet: TxSet)
      requires result.Some? && Injective(adaptor.idOf)
      requires adaptor.idOf(txSet) in acquired && acquired[adaptor.idOf(txSet)] == txSet
      requires
        var at := PeersAt(TheBook(), adaptor.idOf(txSet));
        BookOk(TheBook(), at, at)
      modifies this`result
      ensures SameStance(old(result), result) && BookOk(TheBook(), {}, {})
    {
      hide DisputeOk, VoteOk, CompareOk;
      var id := adaptor.idOf(txSet);
      var rest := currPeerPositions.Keys;
      ghost var at := PeersAt(TheBook(), id);
      ghost var unread := at;
      while rest != {}
        invariant rest <= currPeerPositions.Keys && SameStance(old(result), result)
        invariant unread == at || unread == {}
        invariant BookOk(TheBook(), at * rest, unread)
        invariant unread == {} || at <= rest
        decreases rest
      {
        var p :| p in rest;
        if currPeerPositions[p].position == id {
          UpdateDisputes(p, txSet, at * rest, unread);
          unread := unread - PeersAt(TheBook(), id);
          assert at * rest - {p} == at * (rest - {p});
        } else {
          assert at * rest == at * (rest - {p});
        }
        rest := rest - {p};
      }
      assert at * rest == {};
    }

    // ----- Transaction sets from the network -----

    method GotTxSet(time: Time, txSet: TxSet)
      requires Steady()
      modifies this`now, this`acquired, this`result
      ensures Steady() && SameStance(old(result), result)
      ensures now == if phase == Accepted then old(now) else time
      ensures phase == Accepted ==> acquired == old(acquired)
      ensures phase != Accepted ==>
                acquired == if adaptor.idOf(txSet) in old(acquired) then old(acquired)
                            else old(acquired)[adaptor.idOf(txSet) := txSet]
    {
      hide DisputeOk, VoteOk, CompareOk, HistoryOk;
      if phase == Accepted {
        return;
      }
      now := time;
      var id := adaptor.idOf(txSet);
      if id in acquired {
        return;
      }
      if result.Some? {
        AcquireKeeps(TheBook(), id, txSet);
      }
      acquired := acquired[id := txSet];
      if result.Some? {
        assert id != result.value.position.position;
        UpdatePeersAt(txSet);
        SameStanceKeeps(mode, modes, sent, old(result), result);
      }
    }

    // ----- Peer proposals -----

    /** A proposal counts if it is for our prior ledger, newer than the last one, and its sender has not left. */
    predicate Relevant(prop: Proposal)
      reads this
    {
      && phase != Accepted
      && prop.prevLedger == prevLedgerId
      && prop.node !in deadNodes
      && (prop.node in currPeerPositions ==> prop.seqNo > currPeerPositions[prop.node].seqNo)
    }

    /** Forget a peer's position and its votes. */
    method DropPeer(peer: NodeId)
      requires Steady()
      modifies this`result, this`currPeerPositions
      ensures Steady() && SameStance(old(result), result)
      ensures currPeerPositions == old(currPeerPositions) - {peer}
      ensures result.Some? ==> Unvoted(old(TheBook()), peer, result.value.disputes)
    {
      hide DisputeOk, VoteOk, CompareOk, HistoryOk, Unvoted;
      if result.Some? {
        var ds := Unvote(peer);
        RemovePeerKeeps(TheBook(), peer, ds);
        result := Some(result.value.(disputes := ds));
        SameStanceKeeps(mode, modes, sent, old(result), result);
      }
      currPeerPositions := currPeerPositions - {peer};
    }

    /** Replace or add a peer's position; the disputes do not know about it yet. */
    method NotePosition(prop: Proposal)
      requires Steady() && Relevant(prop) && !prop.IsBowOut()
      modifies this`currPeerPositions, this`closeTimePeers
      ensures Grounded() && HistoryOk(mode, modes, sent, result)
      ensures currPeerPositions == old(currPeerPositions)[prop.node := prop]
      ensures closeTimePeers ==
              if prop.IsInitial() then AddVote(old(closeTimePeers), prop.closeTime) else old(closeTimePeers)
      ensures result.Some? ==> BookOk(TheBook(), {prop.node}, {prop.node})
      ensures result.Some? && prop.position !in acquired ==> BookOk(TheBook(), {}, {})
    {
      hide DisputeOk, VoteOk, CompareOk, HistoryOk, BookOk, AcquiredOk, StanceOk, PhaseOk, Injective;
      if result.Some? {
        NewPositionKeeps(TheBook(), prop.node, prop);
      }
      currPeerPositions := currPeerPositions[prop.node := prop];
      if prop.IsInitial() {
        closeTimePeers := AddVote(closeTimePeers, prop.closeTime);
      }
    }

    /** A peer's votes follow its position, whose set we have. */
    method VoteByPosition(peer: NodeId)
      requires Grounded() && HistoryOk(mode, modes, sent, result) && result.Some?
      requires peer in currPeerPositions && currPeerPositions[peer].position in acquired
      requires BookOk(TheBook(), {peer}, {peer})
      modifies this`result
      ensures Steady() && SameStance(old(result), result)
    {
      hide BookOk, HistoryOk, PeersOk;
      var id := currPeerPositions[peer].position;
      UpdateDisputes(peer, acquired[id], {peer}, {peer});
      assert {peer} - {peer} == {};
      assert peer in PeersAt(TheBook(), id);
      assert {peer} - PeersAt(TheBook(), id) == {};
      SameStanceKeeps(mode, modes, sent, old(result), result);
    }

    /** Replace or add a peer's position, and get hold of its transaction set if possible. */
    method TakePosition(prop: Proposal)
      requires Steady() && Relevant(prop) && !prop.IsBowOut()
      modifies this`now, this`acquired, this`result, this`currPeerPositions, this`closeTimePeers, adaptor`log
      ensures Steady() && SameStance(old(result), result) && now == old(now)
      ensures Fetched(old(adaptor.log), adaptor.log, old(acquired), acquired, prop.position)
      ensures currPeerPositions == old(currPeerPositions)[prop.node := prop]
      ensures closeTimePeers ==
              if prop.IsInitial() then AddVote(old(closeTimePeers), prop.closeTime) else old(closeTimePeers)
    {
      hide BookOk, HistoryOk, AcquiredOk, StanceOk, PhaseOk, PeersOk, Injective, AddVote;
      NotePosition(prop);
      if prop.position !in acquired {
        var txSet := adaptor.AcquireTxSet(prop.position);
        if txSet.Some? {
          GotTxSet(now, txSet.value);
        }
      } else if result.Some? {
        VoteByPosition(prop.node);
      }
    }

    method PeerProposalInternal(time: Time, prop: Proposal) returns (relay: bool)
      requires Steady()
      modifies this`now, this`acquired, this`result, this`currPeerPositions, this`deadNodes, this`closeTimePeers, adaptor`log
      ensures Steady() && SameStance(old(result), result)
      ensures now == if phase == Accepted then old(now) else time
      ensures closeTimePeers ==
              if relay && !prop.IsBowOut() && prop.IsInitial() then AddVote(old(closeTimePeers), prop.closeTime)
              else old(closeTimePeers)
      ensures relay == old(Relevant(prop))
      ensures PeersMoveOn(old(currPeerPositions), currPeerPositions) && old(deadNodes) <= deadNodes
      ensures relay && !prop.IsBowOut() ==> Fetched(old(adaptor.log), adaptor.log, old(acquired), acquired, prop.position)
      ensures !(relay && !prop.IsBowOut()) ==> adaptor.log == old(adaptor.log) && acquired == old(acquired)
      ensures !relay ==> currPeerPositions == old(currPeerPositions) && deadNodes == old(deadNodes)
      ensures relay && prop.IsBowOut() ==>
                currPeerPositions == old(currPeerPositions) - {prop.node} && deadNodes == old(deadNodes) + {prop.node}
      ensures relay && !prop.IsBowOut() ==>
                currPeerPositions == old(currPeerPositions)[prop.node := prop] && deadNodes == old(deadNodes)
    {
      hide BookOk, HistoryOk, PhaseOk, AcquiredOk, StanceOk, Injective, AddVote;
      if phase == Accepted {
        return false;
      }
      now := time;
      var peer := prop.node;
      if prop.prevLedger != prevLedgerId {
        return false;
      }
      if peer in deadNodes {
        return false;
      }
      if peer in currPeerPositions && prop.seqNo <= currPeerPositions[peer].seqNo {
        return false;
      }
      if prop.IsBowOut() {
        DropPeer(peer);
        deadNodes := deadNodes + {peer};
        return true;
      }
      TakePosition(prop);
      return true;
    }

    /** Replay the recent proposals, so that those for the current prior ledger are not lost. */
    method PlaybackProposals()
      requires Steady()
      modifies this`now, this`acquired, this`result, this`currPeerPositions, this`deadNodes, this`closeTimePeers, adaptor`log
      ensures Steady() && SameStance(old(result), result) && now == old(now) && OnlySets(old(adaptor.log), adaptor.log)
      ensures phase != Accepted ==> HeardRecent()
    {
      hide BookOk, HistoryOk, PhaseOk, AcquiredOk, StanceOk, Injective, PeersOk, HeardAll;
      var nodes := recentPeerPositions.Keys;
      while nodes != {}
        invariant nodes <= recentPeerPositions.Keys
        invariant Steady() && SameStance(old(result), result) && now == old(now) && OnlySets(old(adaptor.log), adaptor.log)
        invariant phase != Accepted ==> forall n :: n in recentPeerPositions && n !in nodes ==>
                    HeardAll(recentPeerPositions[n], prevLedgerId, currPeerPositions, deadNodes)
        decreases nodes
      {
        var n :| n in nodes;
        ghost var peers, dead := currPeerPositions, deadNodes;
        Replay(recentPeerPositions[n]);
        forall k | k in recentPeerPositions && k !in nodes && phase != Accepted
          ensures HeardAll(recentPeerPositions[k], prevLedgerId, currPeerPositions, deadNodes)
        {
          StillHeard(recentPeerPositions[k], prevLedgerId, peers, dead, currPeerPositions, deadNodes);
        }
        nodes := nodes - {n};
      }
    }

    method Replay(props: seq<Proposal>)
      requires Steady()
      modifies this`now, this`acquired, this`result, this`currPeerPositions, this`deadNodes, this`closeTimePeers, adaptor`log
      ensures Steady() && SameStance(old(result), result) && now == old(now) && OnlySets(old(adaptor.log), adaptor.log)
      ensures MoreHeard(old(currPeerPositions), old(deadNodes), currPeerPositions, deadNodes)
      ensures phase != Accepted ==> HeardAll(props, prevLedgerId, currPeerPositions, deadNodes)
    {
      hide BookOk, HistoryOk, PhaseOk, AcquiredOk, StanceOk, Injective, PeersOk;
      for i := 0 to |props|
        invariant Steady() && SameStance(old(result), result) && now == old(now) && OnlySets(old(adaptor.log), adaptor.log)
        invariant MoreHeard(old(currPeerPositions), old(deadNodes), currPeerPositions, deadNodes)
        invariant phase != Accepted ==> forall k :: 0 <= k < i && props[k].prevLedger == prevLedgerId ==>
                    Heard(props[k], currPeerPositions, deadNodes)
      {
        if props[i].prevLedger == prevLedgerId {
          var relay := PeerProposalInternal(now, props[i]);
        }
      }
    }

    /** A peer has proposed a position: keep it among the ten most recent ones, and take it into account. */
    method PeerProposal(time: Time, prop: Proposal) returns (relay: bool)
      requires Valid()
      modifies this`now, this`acquired, this`result, this`currPeerPositions, this`deadNodes, this`closeTimePeers,
               this`recentPeerPositions, adaptor`log
      ensures Valid() && SameStance(old(result), result)
      ensures prop.node in recentPeerPositions
      ensures recentPeerPositions == old(recentPeerPositions)[prop.node := recentPeerPositions[prop.node]]
      ensures LastTen(if prop.node in old(recentPeerPositions) then old(recentPeerPositions)[prop.node] else [], prop,
                      recentPeerPositions[prop.node])
      ensures now == if phase == Accepted then old(now) else time
      ensures closeTimePeers ==
              if relay && !prop.IsBowOut() && prop.IsInitial() then AddVote(old(closeTimePeers), prop.closeTime)
              else old(closeTimePeers)
      ensures relay == old(Relevant(prop))
      ensures PeersMoveOn(old(currPeerPositions), currPeerPositions) && old(deadNodes) <= deadNodes
      ensures relay && !prop.IsBowOut() ==> Fetched(old(adaptor.log), adaptor.log, old(acquired), acquired, prop.position)
      ensures !(relay && !prop.IsBowOut()) ==> adaptor.log == old(adaptor.log) && acquired == old(acquired)
      ensures !relay ==> currPeerPositions == old(currPeerPositions) && deadNodes == old(deadNodes)
      ensures relay && prop.IsBowOut() ==>
                currPeerPositions == old(currPeerPositions) - {prop.node} && deadNodes == old(deadNodes) + {prop.node}
      ensures relay && !prop.IsBowOut() ==>
                currPeerPositions == old(currPeerPositions)[prop.node := prop] && deadNodes == old(deadNodes)
    {
      hide Grounded, Steady, AddVote, RecentOk, LastTen;
      StoreRecent(prop);
      relay := PeerProposalInternal(time, prop);
    }

    method StoreRecent(prop: Proposal)
      requires Valid()
      modifies this`recentPeerPositions
      ensures Valid() && prop.node in recentPeerPositions
      ensures recentPeerPositions == old(recentPeerPositions)[prop.node := recentPeerPositions[prop.node]]
      ensures LastTen(if prop.node in old(recentPeerPositions) then old(recentPeerPositions)[prop.node] else [], prop,
                      recentPeerPositions[prop.node])
    {
      hide BookOk, HistoryOk, PeersOk, AcquiredOk, StanceOk, Injective, PhaseOk, RecentOk, LastTen;
      var props := if prop.node in recentPeerPositions then recentPeerPositions[prop.node] else [];
      var kept := Push(props, prop);
      KeepLast(recentPeerPositions, prop, kept);
      recentPeerPositions := recentPeerPositions[prop.node := kept];
    }

    static method Push(props: seq<Proposal>, prop: Proposal) returns (kept: seq<Proposal>)
      ensures |props| <= 10 ==> LastTen(props, prop, kept)
    {
      kept := props;
      if |kept| >= 10 {
        kept := kept[1..];
      }
      kept := kept + [prop];
    }

    // ----- Closing the ledger -----

    method SetMode(m: Mode)
      modifies this`mode, this`modes
      ensures mode == m && modes == old(modes) + [m]
    {
      mode := m;
      modes := modes + [m];
    }

    method Propose(position: Proposal)
      modifies this`sent
      ensures sent == old(sent) + [position]
    {
      sent := sent + [position];
    }

    /** Take our initial stance, and dispute what differs from the peers' sets we have. */
    method CloseLedger()
      requires Steady() && phase == Open
      modifies this`phase, this`closeTimeSelf, this`result, this`acquired, this`sent, adaptor`log
      ensures Steady() && phase == Establish && closeTimeSelf == now
      ensures ByTheAnswers(old(adaptor.log), adaptor.log, result)
      ensures sent == old(sent) + if mode == Proposing then [result.value.position] else []
    {
      hide BookOk, AcquiredOk, Injective, PeersOk, HistoryOk, StanceOk, PhaseOk, SameStance;
      TakeStance();
      ghost var r := result.value;
      CompareAll();
      SameStanceKeeps(mode, modes, sent, Some(r), result);
      SameStanceIsOk(r, result, adaptor.idOf, acquired, firstRound);
    }

    method TakeStance()
      requires Steady() && phase == Open
      modifies this`phase, this`closeTimeSelf, this`result, this`acquired, this`sent, adaptor`log
      ensures Grounded() && HistoryOk(mode, modes, sent, result) && phase == Establish && result.Some?
      ensures closeTimeSelf == now && ByTheAnswers(old(adaptor.log), adaptor.log, result)
      ensures result.value.disputes == map[] && result.value.compares == {}
      ensures sent == old(sent) + if mode == Proposing then [result.value.position] else []
    {
      hide BookOk, AcquiredOk, Injective, PeersOk, HistoryOk, StanceOk, PhaseOk;
      var txns, position := adaptor.OnClose(previousLedger, now, mode);
      var clock := adaptor.ClockNow();
      Stand(txns, position, clock);
      if mode == Proposing {
        Propose(position);
      } else {
        assert sent + [] == sent;
      }
    }

    method Stand(txns: TxSet, position: Proposal, clock: Millis)
      requires Steady() && phase == Open && position.position == adaptor.idOf(txns) && position.seqNo == SEQ_JOIN
      modifies this`phase, this`closeTimeSelf, this`result, this`acquired
      ensures Grounded() && phase == Establish && closeTimeSelf == now
      ensures result == Some(Result(txns, position, map[], {}, clock, 0, No, 0))
      ensures HistoryOk(mode, modes, sent + if mode == Proposing then [position] else [], result)
    {
      hide BookOk, AcquiredOk, Injective, PeersOk, HistoryOk, StanceOk, PhaseOk;
      NoneWhileOpen(result, firstRound);
      phase := Establish;
      closeTimeSelf := now;
      result := Some(Result(txns, position, map[], {}, clock, 0, No, 0));
      OwnSetJoins(adaptor.idOf, acquired, result.value);
      FirstSent(mode, modes, sent, result.value);
      JustClosed(result, firstRound);
      var id := adaptor.idOf(txns);
      if id !in acquired {
        acquired := acquired[id := txns];
      }
    }

    /** Create disputes with any peer positions we have transactions for. */
    method CompareAll()
      requires result.Some? && Injective(adaptor.idOf) && AcquiredOk(adaptor.idOf, acquired)
      requires result.value.disputes == map[] && result.value.compares == {}
      modifies this`result
      ensures SameStance(old(result), result) && BookOk(TheBook(), {}, {})
    {
      hide DisputeOk, VoteOk, CompareOk;
      var rest := currPeerPositions.Keys;
      ghost var unread := rest;
      while rest != {}
        invariant rest <= currPeerPositions.Keys && unread <= currPeerPositions.Keys
        invariant SameStance(old(result), result) && BookOk(TheBook(), {}, unread)
        invariant forall p :: p in unread ==> p in rest || currPeerPositions[p].position !in acquired
        decreases rest
      {
        var p :| p in rest;
        var pos := currPeerPositions[p].position;
        if pos in acquired {
          CreateDisputes(acquired[pos], {}, unread);
          assert p in PeersAt(TheBook(), pos);
          unread := unread - PeersAt(TheBook(), pos);
        }
        rest := rest - {p};
      }
    }

    /** Close the open ledger when it is time to. */
    method PhaseOpen()
      requires Steady() && phase == Open
      modifies this`phase, this`closeTimeSelf, this`result, this`acquired, this`sent, this`openTime, adaptor`log
      ensures Steady() && old(sent) <= sent && adaptor.log.named == old(adaptor.log).named
      ensures adaptor.log.ledgers == old(adaptor.log).ledgers
      ensures Opened(old(adaptor.log), adaptor.log, phase == Establish, prevProposers, |currPeerPositions|, prevRoundTime,
                     SinceClose(), openStart, openTime, IdleInterval())
      ensures phase == Establish ==> closeTimeSelf == now
      ensures phase != Establish ==>
                && phase == Open && result == old(result) && acquired == old(acquired) && sent == old(sent)
                && closeTimeSelf == old(closeTimeSelf)
    {
      hide BookOk, HistoryOk, AcquiredOk, StanceOk, Injective, PeersOk, ShouldCloseLedger, ClosingRule;
      var any := adaptor.AnyBool();
      var validated := adaptor.AnyCount();
      var clock := adaptor.ClockNow();
      openTime := clock - openStart;
      ClosesByTheRule(any, prevProposers, |currPeerPositions|, validated, prevRoundTime, SinceClose(), openTime,
                      IdleInterval());
      if ShouldCloseLedger(any, prevProposers, |currPeerPositions|, validated,
                           prevRoundTime, SinceClose(), openTime, IdleInterval()) {
        CloseLedger();
      }
    }

    /** The time since the prior ledger closed, as its own record says if that was agreed on. */
    function SinceClose(): (s: Millis)
      reads this
      ensures mode == WrongLedger || !previousLedger.closeAgree ==> s == 1000 * (now - prevCloseTime)
      ensures previousLedger.closeTime == previousLedger.parentCloseTime + 1 ==> s == 1000 * (now - prevCloseTime)
      ensures s != 1000 * (now - prevCloseTime) ==> s == 1000 * (now - previousLedger.closeTime)
      ensures mode != WrongLedger && previousLedger.closeAgree
              && previousLedger.closeTime > previousLedger.parentCloseTime + 1 ==>
                s == 1000 * (now - previousLedger.closeTime)
    {
      var previousCloseCorrect :=
        mode != WrongLedger && previousLedger.closeAgree && previousLedger.closeTime != previousLedger.parentCloseTime + 1;
      var lastCloseTime := if previousCloseCorrect then previousLedger.closeTime else prevCloseTime;
      (now - lastCloseTime) * 1000
    }

    /** The longer of fifteen seconds and twice the resolution. */
    function IdleInterval(): (i: Millis)
      reads this
      ensures i >= 15000 && i >= 2000 * previousLedger.resolution
      ensures i == 15000 || i == 2000 * previousLedger.resolution
    {
      if 2000 * previousLedger.resolution > LEDGER_IDLE_INTERVAL then 2000 * previousLedger.resolution
      else LEDGER_IDLE_INTERVAL
    }

    /** Revoke our outstanding proposal, if any, and stop proposing until the round ends. */
    method LeaveConsensus()
      requires Steady()
      modifies this`mode, this`modes, this`result, this`sent
      ensures Steady() && mode != Proposing
      ensures old(mode) != Proposing ==> mode == old(mode) && modes == old(modes)
      ensures old(mode) == Proposing ==> mode == Observing && modes == old(modes) + [Observing]
      ensures result.Some? <==> old(result).Some?
      ensures result.Some? ==> result.value == old(result).value.(position := result.value.position)
      ensures sent == old(sent) +
                if old(mode) == Proposing && result.Some? && !old(result).value.position.IsBowOut()
                then [old(result).value.position.BowOut(now)] else []
    {
      hide BookOk, AcquiredOk, Injective, PeersOk;
      if mode == Proposing {
        if result.Some? && !result.value.position.IsBowOut() {
          var position := result.value.position.BowOut(now);
          result := Some(result.value.(position := position));
          Propose(position);
        }
        SetMode(Observing);
      }
    }

    // ----- Adjusting our position -----

    function AsCloseTime(raw: Time): Time
      requires closeResolution > 0
      reads this
    {
      RoundCloseTime(raw, closeResolution)
    }

    ghost function CloseTimes(): map<NodeId, Time>
      requires closeResolution > 0
      reads this
    {
      CloseTimesOf(currPeerPositions, closeResolution)
    }

    /** Drop peers whose proposals are stale, and count the close times of the others. */
    method DropStale(cutoff: Time) returns (votes: Tally)
      requires Steady() && result.Some?
      modifies this`result, this`currPeerPositions
      ensures Steady() && SameStance(old(result), result)
      ensures LivePeers(old(currPeerPositions), cutoff, currPeerPositions)
      ensures currPeerPositions.Keys <= old(currPeerPositions).Keys
      ensures IsTally(votes, currPeerPositions.Keys, CloseTimes())
      ensures VotesWithout(old(TheBook()), old(currPeerPositions).Keys - currPeerPositions.Keys, result.value.disputes)
    {
      hide BookOk, HistoryOk, PhaseOk, AcquiredOk, StanceOk, Injective, PeersOk, RoundCloseTime, Sifting, Unvoted;
      ghost var b, f := TheBook(), CloseTimes();
      votes := map[];
      var rest := currPeerPositions.Keys;
      SiftNone(b, f, cutoff);
      while rest != {}
        invariant Steady() && SameStance(old(result), result)
        invariant rest <= currPeerPositions.Keys
        invariant Sifting(b, f, cutoff, rest, currPeerPositions, result.value.disputes, votes)
        decreases rest
      {
        var p :| p in rest;
        var prop := currPeerPositions[p];
        ghost var was := TheBook();
        SiftFacts(b, f, cutoff, rest, currPeerPositions, result.value.disputes, votes, p);
        if prop.IsStale(cutoff) {
          DropPeer(p);
          SiftDrop(b, f, cutoff, rest, was, p, result.value.disputes, votes);
        } else {
          SiftKeep(b, f, cutoff, rest, currPeerPositions, result.value.disputes, votes, p);
          votes := AddVote(votes, AsCloseTime(prop.closeTime));
        }
        rest := rest - {p};
      }
      SiftDone(b, f, cutoff, currPeerPositions, result.value.disputes, votes, CloseTimes(), closeResolution);
    }

    /** Reconsider every dispute; `newSet` is our set with the changes, if there are any. */
    method Reconsider() returns (ds: map<TxId, Dispute>, newSet: Option<TxSet>)
      requires Steady() && result.Some?
      ensures ds.Keys == result.value.disputes.Keys
      ensures forall t :: t in ds ==>
                var d := result.value.disputes[t];
                d.Counted() && ds[t] == d.UpdateVote(convergePercent, mode == Proposing)
      ensures newSet.None? <==> ds == result.value.disputes
      ensures newSet.Some? ==> newSet.value != result.value.txns
      ensures Moved(TheBook(), ds, if newSet.Some? then newSet.value else result.value.txns)
    {
      hide BookOk, HistoryOk, PhaseOk, AcquiredOk, StanceOk, Injective, PeersOk, Moved;
      ghost var b := TheBook();
      var was := result.value.disputes;
      ds, newSet := was, None;
      var rest := was.Keys;
      CountedAll(b);
      while rest != {}
        invariant rest <= was.Keys && ds.Keys == was.Keys
        invariant forall t :: t in ds ==>
                    ds[t] == if t in rest then was[t] else was[t].UpdateVote(convergePercent, mode == Proposing)
        invariant newSet.None? <==> ds == was
        invariant Moved(b, ds, if newSet.Some? then newSet.value else b.txns)
        decreases rest
      {
        var t :| t in rest;
        var d := ds[t].UpdateVote(convergePercent, mode == Proposing);
        if d.ourVote != ds[t].ourVote {
          var base := if newSet.Some? then newSet.value else result.value.txns;
          MovedStep(b, ds, base, t, d.ourVote);
          newSet := Some(if d.ourVote then base + {t} else base - {t});
          ds := ds[t := d];
          assert ds[t] != was[t];
        }
        rest := rest - {t};
      }
      if newSet.Some? {
        RealMove(b, ds, newSet.value);
      }
    }

    /** The close time to propose, and whether it has consensus. */
    method ChooseCloseTime(peerVotes: Tally) returns (closeTime: Time, agreed: bool)
      requires Steady() && result.Some? && IsTally(peerVotes, currPeerPositions.Keys, CloseTimes())
      ensures SettledOn(currPeerPositions, TheSetting(), peerVotes, result.value.position.closeTime, closeTime, agreed)
    {
      hide BookOk, HistoryOk, PhaseOk, AcquiredOk, StanceOk, Injective, PeersOk, LatestTop, ParticipantsNeeded,
           RoundCloseTime, VotersFor, Total;
      if currPeerPositions == map[] {
        return AsCloseTime(result.value.position.closeTime), true;
      }
      var votes := peerVotes;
      var participants := |currPeerPositions|;
      if mode == Proposing {
        AddVoteTotal(votes, AsCloseTime(result.value.position.closeTime));
        votes := AddVote(votes, AsCloseTime(result.value.position.closeTime));
        participants := participants + 1;
      }
      closeTime, agreed := PickCloseTime(votes, ParticipantsNeeded(participants, NeededWeight(convergePercent)),
                                         ParticipantsNeeded(participants, AV_CT_CONSENSUS_PCT));
    }

    /** Adopt a new set and close time as our position, and share it. */
    method Adopt(ds: map<TxId, Dispute>, newSet: TxSet, closeTime: Time)
      requires Steady() && phase == Establish && Moved(TheBook(), ds, newSet)
      modifies this`result, this`acquired, this`sent
      ensures Steady() && result.Some? && result.value.txns == newSet
      ensures result.value.position == old(result).value.position.ChangePosition(adaptor.idOf(newSet), closeTime, now)
      ensures sent == old(sent) + if mode == Proposing && !result.value.position.IsBowOut() then [result.value.position] else []
      ensures result.value == old(result).value.(txns := newSet, position := result.value.position,
                                                 disputes := result.value.disputes, compares := result.value.compares)
    {
      hide BookOk, HistoryOk, AcquiredOk, StanceOk, PeersOk, Injective, Moved;
      NewPositionSent(mode, modes, sent, result, adaptor.idOf(newSet), closeTime, now);
      Restate(ds, newSet, closeTime);
      SamePositionSent(mode, modes, sent, old(result), result);
      if !result.value.position.IsBowOut() && mode == Proposing {
        Propose(result.value.position);
      } else {
        assert sent + [] == sent;
      }
    }

    /** Take the new position, and compare it with the peers that already hold its set. */
    method Restate(ds: map<TxId, Dispute>, newSet: TxSet, closeTime: Time)
      requires Grounded() && phase == Establish && BookOk(TheBook(), {}, {}) && Moved(TheBook(), ds, newSet)
      modifies this`result, this`acquired
      ensures Grounded() && result.Some? && BookOk(TheBook(), {}, {}) && result.value.txns == newSet
      ensures result.value.position == old(result).value.position.ChangePosition(adaptor.idOf(newSet), closeTime, now)
      ensures result.value == old(result).value.(txns := newSet, position := result.value.position,
                                                 disputes := result.value.disputes, compares := result.value.compares)
    {
      hide DisputeOk, VoteOk, CompareOk, Moved, PeersOk;
      MoveKeeps(TheBook(), ds, newSet);
      var newId := adaptor.idOf(newSet);
      var position := result.value.position.ChangePosition(newId, closeTime, now);
      result := Some(result.value.(txns := newSet, disputes := ds, position := position));
      if newId !in acquired {
        AcquireKeeps(TheBook(), newId, newSet);
        acquired := acquired[newId := newSet];
        UpdatePeersAt(newSet);
      }
    }

    /**
      Adjust our position to agree with other validators where enough of them
      agree: drop stale peers, let every dispute follow the live votes, and
      take the close time most of them propose.
     */
    method UpdateOurPositions() returns (ghost votes: Tally, ghost chosen: Time)
      requires Steady() && phase == Establish
      modifies this`result, this`currPeerPositions, this`acquired, this`sent, this`haveCloseTimeConsensus
      ensures Steady() && result.Some? && old(sent) <= sent
      ensures Repositioned(old(TheStance()), TheStance(), TheSetting(), adaptor.idOf, votes, chosen, haveCloseTimeConsensus)
      ensures result.value == old(result).value.(txns := result.value.txns, position := result.value.position,
                                                 disputes := result.value.disputes, compares := result.value.compares)
    {
      hide BookOk, HistoryOk, AcquiredOk, StanceOk, Injective, PeersOk, IsTally, CloseTimesOf, SettledOn, RoundCloseTime,
           Verdicts, Moved, LivePeers;
      var peerVotes, ds, newSet := Weigh();
      votes := peerVotes;
      var closeTime;
      closeTime, haveCloseTimeConsensus := ChooseCloseTime(peerVotes);
      chosen := closeTime;
      if newSet.None? &&
         (closeTime != AsCloseTime(result.value.position.closeTime) || result.value.position.IsStale(now - PROPOSE_INTERVAL)) {
        newSet := Some(result.value.txns);
      }
      if newSet.Some? {
        Adopt(ds, newSet.value, closeTime);
      }
    }

    /** Drop stale peers, then let every dispute follow the votes that are left. */
    method Weigh() returns (votes: Tally, ds: map<TxId, Dispute>, newSet: Option<TxSet>)
      requires Steady() && result.Some?
      modifies this`result, this`currPeerPositions
      ensures Steady() && SameStance(old(result), result)
      ensures LivePeers(old(currPeerPositions), now - PROPOSE_FRESHNESS, currPeerPositions)
      ensures IsTally(votes, currPeerPositions.Keys, CloseTimes())
      ensures newSet.Some? ==> newSet.value != result.value.txns
      ensures
        var next := if newSet.Some? then newSet.value else result.value.txns;
        && Moved(TheBook(), ds, next)
        && Verdicts(old(TheBook()), next, currPeerPositions.Keys, convergePercent, mode == Proposing)
    {
      hide BookOk, HistoryOk, AcquiredOk, StanceOk, Injective, PeersOk, PhaseOk, IsTally, RoundCloseTime, Verdicts,
           VotesWithout, Moved, OnlyPeersVote, LivePeers;
      ghost var b := TheBook();
      VotersArePeers(b);
      votes := DropStale(now - PROPOSE_FRESHNESS);
      ds, newSet := Reconsider();
      VerdictsFollow(b, TheBook(), currPeerPositions.Keys, ds, if newSet.Some? then newSet.value else b.txns,
                     convergePercent, mode == Proposing);
    }

    // ----- Reaching consensus -----

    ghost function Agreeing(): set<NodeId>
      requires result.Some?
      reads this
    {
      Holding(currPeerPositions, result.value.position.position)
    }

    /** Whether we have consensus, counting the peers that share our position. */
    method HaveConsensus() returns (have: bool, ghost finished: nat)
      requires Steady() && phase == Establish
      modifies this`result, adaptor`log
      ensures adaptor.log == old(adaptor.log).(counts := old(adaptor.log).counts + [finished])
      ensures Steady() && result.Some? && have == (result.value.state != No)
      ensures result.value == old(result).value.(state := result.value.state)
      ensures Decided(result.value.state, prevProposers, |currPeerPositions|, |Agreeing()|, finished, prevRoundTime,
                      result.value.roundTime, mode == Proposing)
    {
      hide BookOk, AcquiredOk, Injective, PeersOk, CheckConsensus, Decided;
      var agree, disagree := CountAgreeing();
      var currentFinished := adaptor.AnyCount();
      finished := currentFinished;
      DecidesExactly(prevProposers, agree + disagree, agree, currentFinished, prevRoundTime, result.value.roundTime,
                     mode == Proposing);
      var state := CheckConsensus(prevProposers, agree + disagree, agree, currentFinished, prevRoundTime,
                                  result.value.roundTime, mode == Proposing);
      result := Some(result.value.(state := state));
      have := state != No;
    }

    method CountAgreeing() returns (agree: nat, disagree: nat)
      requires result.Some?
      ensures agree == |Agreeing()| && agree + disagree == |currPeerPositions|
    {
      AllSeen();
      agree, disagree := CountAt(currPeerPositions, result.value.position.position);
    }

    lemma AllSeen()
      requires result.Some?
      ensures WithPosition(currPeerPositions, currPeerPositions.Keys, result.value.position.position) == Agreeing()
    {
    }

    /** What this node sees, for comparison with another node. */
    ghost function Seen(self: NodeId): View
      requires result.Some?
      reads this
    {
      View(self, result.value.position.position, mode == Proposing,
           map p | p in currPeerPositions :: currPeerPositions[p].position)
    }

    /** Consensus declared by `HaveConsensus` is consensus in the sense of the agreement theorem. */
    lemma YesDeclares(self: NodeId, finished: nat)
      requires result.Some? && self !in currPeerPositions
      requires Decided(Yes, prevProposers, |currPeerPositions|, |Agreeing()|, finished, prevRoundTime,
                       result.value.roundTime, mode == Proposing)
      ensures Seen(self).DeclaresYes(prevProposers, finished, prevRoundTime, result.value.roundTime)
    {
      assert Seen(self).peers.Keys == currPeerPositions.Keys;
      assert Seen(self).Backers() == Agreeing();
      DecidesExactly(prevProposers, |currPeerPositions|, |Agreeing()|, finished, prevRoundTime, result.value.roundTime,
                     mode == Proposing);
    }

    /** The time spent in this phase and the peers taking part in it. */
    method Clock()
      requires Steady() && phase == Establish
      modifies this`result, adaptor`log
      ensures Steady() && result.Some?
      ensures adaptor.log == old(adaptor.log).(clocks := old(adaptor.log).clocks
                                                         + [result.value.roundTime + result.value.roundStart])
      ensures result.value == old(result).value.(roundTime := result.value.roundTime, proposers := |currPeerPositions|)
    {
      hide BookOk, AcquiredOk, Injective, PeersOk;
      var clock := adaptor.ClockNow();
      result := Some(result.value.(roundTime := clock - result.value.roundStart, proposers := |currPeerPositions|));
    }

    /** Work towards consensus with our peers, and accept once it is reached. */
    method PhaseEstablish() returns (ghost outcome: Outcome)
      requires Steady() && phase == Establish
      modifies this`result, this`currPeerPositions, this`acquired, this`sent, this`haveCloseTimeConsensus,
               this`convergePercent, this`phase, this`prevProposers, this`prevRoundTime, adaptor`log
      ensures Steady() && phase != Open && result.Some? && old(sent) <= sent
      ensures adaptor.log.named == old(adaptor.log).named && adaptor.log.ledgers == old(adaptor.log).ledgers
      ensures Established(old(TheStance()), old(result).value, old(prevProposers), old(prevRoundTime), TheStance(),
                          result.value, TheSetting(), adaptor.idOf, haveCloseTimeConsensus, phase == Accepted,
                          old(adaptor.log), adaptor.log, outcome)
      ensures phase == Accepted ==> prevProposers == |currPeerPositions| && prevRoundTime == result.value.roundTime
      ensures phase != Accepted ==> prevProposers == old(prevProposers) && prevRoundTime == old(prevRoundTime)
    {
      hide BookOk, AcquiredOk, Injective, PeersOk, HistoryOk, StanceOk, Repositioned, Concluded, IsQuotient;
      outcome := Outcome(map[], 0);
      Clock();
      var roundTime := result.value.roundTime;
      var expected := if prevRoundTime > AV_MIN_CONSENSUS_TIME then prevRoundTime else AV_MIN_CONSENSUS_TIME;
      TruncDivIs(roundTime * 100, expected);
      convergePercent := TruncDiv(roundTime * 100, expected);
      if roundTime < LEDGER_MIN_CONSENSUS {
        return;
      }
      ghost var votes, chosen := UpdateOurPositions();
      outcome := Outcome(votes, chosen);
      ghost var l1 := adaptor.log;
      Conclude();
      ConcludedLater(old(adaptor.log), l1, adaptor.log, old(result).value.state, result.value, old(prevProposers),
                     old(prevRoundTime), currPeerPositions, result.value.position.position, mode == Proposing,
                     haveCloseTimeConsensus, phase == Accepted);
    }

    /** Unless there is reason to pause: accept if there is consensus, on the close time too. */
    method Conclude()
      requires Steady() && phase == Establish
      modifies this`result, this`phase, this`prevProposers, this`prevRoundTime, adaptor`log
      ensures Steady() && phase != Open && result.Some?
      ensures result.value == old(result).value.(state := result.value.state)
      ensures adaptor.log == old(adaptor.log).(bools := adaptor.log.bools, counts := adaptor.log.counts)
      ensures Concluded(old(adaptor.log), adaptor.log, old(result).value.state, result.value, old(prevProposers),
                        old(prevRoundTime), currPeerPositions, result.value.position.position, mode == Proposing,
                        haveCloseTimeConsensus, phase == Accepted)
      ensures phase == Accepted ==> prevProposers == |currPeerPositions| && prevRoundTime == result.value.roundTime
      ensures phase != Accepted ==> prevProposers == old(prevProposers) && prevRoundTime == old(prevRoundTime)
    {
      hide BookOk, AcquiredOk, Injective, PeersOk, HistoryOk, StanceOk, Decided;
      var pause := adaptor.AnyBool();
      if pause {
        return;
      }
      ghost var finished;
      var have;
      have, finished := HaveConsensus();
      if !have {
        return;
      }
      if !haveCloseTimeConsensus {
        return;
      }
      Accept();
    }

    method Accept()
      requires Steady() && phase == Establish && result.Some? && result.value.state != No
      modifies this`phase, this`prevProposers, this`prevRoundTime
      ensures Steady() && phase == Accepted
      ensures prevProposers == |currPeerPositions| && prevRoundTime == result.value.roundTime
    {
      hide BookOk, AcquiredOk, Injective, PeersOk, HistoryOk, StanceOk;
      prevProposers := |currPeerPositions|;
      prevRoundTime := result.value.roundTime;
      phase := Accepted;
    }

    // ----- Rounds -----

    /** Forget everything about the round so far. */
    method ResetRound(time: Time, id: LedgerId, ledger: LedgerInfo, m: Mode)
      requires Injective(adaptor.idOf) && ledger.resolution > 0 && !firstRound
      requires ModesOk(modes + [m]) && SentOk(sent) && (m == Proposing ==> sent == [])
      modifies this`phase, this`mode, this`modes, this`now, this`prevLedgerId, this`previousLedger, this`result,
               this`convergePercent, this`haveCloseTimeConsensus, this`openStart, this`openTime, this`currPeerPositions,
               this`acquired, this`closeTimePeers, this`closeTimeSelf, this`deadNodes, this`closeResolution, adaptor`log
      ensures adaptor.log == old(adaptor.log).(clocks := old(adaptor.log).clocks + [openStart])
      ensures Steady() && phase == Open && mode == m && now == time && prevLedgerId == id && previousLedger == ledger
      ensures modes == old(modes) + [m] && result == None && openTime == 0 && convergePercent == 0 && closeTimeSelf == 0
      ensures closeResolution == NextResolution(ledger.resolution, ledger.closeAgree, ledger.seqNo + 1)
      ensures currPeerPositions == map[] && acquired == map[] && deadNodes == {} && closeTimePeers == map[]
    {
      hide BookOk, Injective, HistoryOk, ModesOk, SentOk, StanceOk, NextResolution, AcquiredOk, PeersOk, PhaseOk;
      FreshHistory(modes, m, sent);
      NothingYet(adaptor.idOf, id);
      SetMode(m);
      FollowOn(time, id, ledger);
      Clear();
    }

    /** A fresh start, with what was said about the prior ledger replayed. */
    method OpenRound(time: Time, id: LedgerId, ledger: LedgerInfo, m: Mode)
      requires Injective(adaptor.idOf) && ledger.resolution > 0 && !firstRound && RecentOk(recentPeerPositions)
      requires ModesOk(modes + [m]) && SentOk(sent) && (m == Proposing ==> sent == [])
      requires ledger.id != id ==> m == WrongLedger
      modifies this`phase, this`mode, this`modes, this`now, this`prevLedgerId, this`previousLedger, this`result,
               this`convergePercent, this`haveCloseTimeConsensus, this`openStart, this`openTime, this`currPeerPositions,
               this`acquired, this`closeTimePeers, this`closeTimeSelf, this`deadNodes, this`closeResolution, adaptor`log
      ensures adaptor.log == old(adaptor.log).(clocks := old(adaptor.log).clocks + [openStart], txSets := adaptor.log.txSets)
      ensures Valid() && phase == Open && mode == m && now == time && prevLedgerId == id && previousLedger == ledger
      ensures modes == old(modes) + [m] && HeardRecent()
      ensures closeResolution == NextResolution(ledger.resolution, ledger.closeAgree, ledger.seqNo + 1)
    {
      hide Grounded, Steady, Injective, ModesOk, SentOk, RecentOk, NextResolution, HeardRecent;
      ResetRound(time, id, ledger, m);
      PlaybackProposals();
    }

    method FollowOn(time: Time, id: LedgerId, ledger: LedgerInfo)
      requires ledger.resolution > 0
      modifies this`now, this`prevLedgerId, this`previousLedger, this`closeResolution
      ensures now == time && prevLedgerId == id && previousLedger == ledger
      ensures closeResolution == NextResolution(ledger.resolution, ledger.closeAgree, ledger.seqNo + 1) > 0
    {
      hide NextResolution;
      now := time;
      prevLedgerId := id;
      previousLedger := ledger;
      closeResolution := NextResolution(ledger.resolution, ledger.closeAgree, ledger.seqNo + 1);
    }

    method Clear()
      modifies this`phase, this`result, this`convergePercent, this`haveCloseTimeConsensus, this`openStart, this`openTime,
               this`currPeerPositions, this`acquired, this`closeTimePeers, this`closeTimeSelf, this`deadNodes, adaptor`log
      ensures phase == Open && result == None && openTime == 0 && convergePercent == 0 && !haveCloseTimeConsensus
      ensures currPeerPositions == map[] && acquired == map[] && deadNodes == {} && closeTimePeers == map[]
      ensures closeTimeSelf == 0
      ensures adaptor.log == old(adaptor.log).(clocks := old(adaptor.log).clocks + [openStart])
    {
      OpenAgain();
      ForgetPeers();
    }

    method OpenAgain()
      modifies this`phase, this`result, this`convergePercent, this`haveCloseTimeConsensus, this`openStart, this`openTime,
               adaptor`log
      ensures phase == Open && result == None && openTime == 0 && convergePercent == 0 && !haveCloseTimeConsensus
      ensures adaptor.log == old(adaptor.log).(clocks := old(adaptor.log).clocks + [openStart])
    {
      openStart := adaptor.ClockNow();
      openTime := 0;
      phase := Open;
      result := None;
      convergePercent := 0;
      haveCloseTimeConsensus := false;
    }

    method ForgetPeers()
      modifies this`currPeerPositions, this`acquired, this`closeTimePeers, this`closeTimeSelf, this`deadNodes
      ensures currPeerPositions == map[] && acquired == map[] && deadNodes == {} && closeTimePeers == map[]
      ensures closeTimeSelf == 0
    {
      currPeerPositions := map[];
      acquired := map[];
      closeTimePeers := map[];
      closeTimeSelf := 0;
      deadNodes := {};
    }

    /** Start working on the ledger after `ledger`; the timer is not waited for if most proposers are ahead of us. */
    method StartRoundInternal(time: Time, id: LedgerId, ledger: LedgerInfo, m: Mode)
      requires Injective(adaptor.idOf) && ledger.resolution > 0 && !firstRound && RecentOk(recentPeerPositions)
      requires ModesOk(modes + [m]) && SentOk(sent) && (m == Proposing ==> sent == [])
      requires ledger.id != id ==> m == WrongLedger
      modifies this, adaptor`patience, adaptor`log
      ensures Valid() && !firstRound && adaptor.patience <= old(adaptor.patience) && now == time
      ensures old(adaptor.log).named <= adaptor.log.named && old(adaptor.log).ledgers <= adaptor.log.ledgers
      ensures prevLedgerId == NamedLast(adaptor.log.named, |old(adaptor.log).named|, id)
      ensures adaptor.log.named == old(adaptor.log).named ==>
                && phase == Open && mode == m && previousLedger == ledger && HeardRecent()
                && closeResolution == NextResolution(ledger.resolution, ledger.closeAgree, ledger.seqNo + 1)
                && 2 * |currPeerPositions| <= prevProposers == old(prevProposers) && prevRoundTime == old(prevRoundTime)
      ensures adaptor.log.named == old(adaptor.log).named + [id] && ledger.id == id ==> mode == m && previousLedger == ledger
      ensures old(modes) + [m] <= modes && old(sent) <= sent
      ensures prevCloseTime == old(prevCloseTime) && recentPeerPositions == old(recentPeerPositions)
      decreases adaptor.patience, if ledger.id != id then 1 else 0, 3
    {
      hide Grounded, Steady, Injective, ModesOk, SentOk, ClosingRule, SinceClose, IdleInterval, HeardAll, RecentOk,
           NextResolution, Established;
      OpenRound(time, id, ledger, m);
      if |currPeerPositions| > prevProposers / 2 {
        ghost var outcome := TimerEntry(now);
      }
    }

    method Tick(time: Time)
      requires Valid()
      modifies this`now
      ensures Valid() && now == time
    {
      hide BookOk, HistoryOk, AcquiredOk, StanceOk, Injective, PeersOk, PhaseOk;
      now := time;
    }

    lemma InEstablish()
      requires Steady() && phase == Establish
      ensures result.Some?
    {
      hide BookOk, HistoryOk, AcquiredOk, StanceOk, Injective, PeersOk;
    }

    lemma UnderWay()
      requires Steady() && phase != Accepted
      ensures !firstRound
    {
      hide BookOk, HistoryOk, AcquiredOk, StanceOk, Injective, PeersOk;
    }

    /**
      Drive consensus forward.  If the application, when asked, names the prior
      ledger we are on, the phase we are in takes a turn; otherwise we are on
      the ledger it has named last.
     */
    method TimerEntry(time: Time) returns (ghost outcome: Outcome)
      requires Valid()
      modifies this, adaptor`patience, adaptor`log
      ensures Valid() && firstRound == old(firstRound) && adaptor.patience <= old(adaptor.patience)
      ensures old(modes) <= modes && old(sent) <= sent && old(adaptor.log).ledgers <= adaptor.log.ledgers
      ensures prevCloseTime == old(prevCloseTime) && recentPeerPositions == old(recentPeerPositions)
      ensures old(phase) == Accepted ==> unchanged(this) && adaptor.log == old(adaptor.log)
      ensures old(phase) != Accepted ==>
                && old(adaptor.log).named < adaptor.log.named && prevLedgerId == adaptor.log.named[|adaptor.log.named| - 1]
                && now == time
      ensures adaptor.log.named == old(adaptor.log).named + [old(prevLedgerId)] && old(previousLedger.id == prevLedgerId) ==>
                && previousLedger == old(previousLedger) && mode == old(mode)
                && (old(phase) == Open ==>
                      && phase != Accepted
                      && Opened(old(adaptor.log), adaptor.log, phase == Establish, prevProposers, |currPeerPositions|,
                                prevRoundTime, SinceClose(), openStart, openTime, IdleInterval()))
                && (old(phase) == Establish ==>
                      && phase != Open && result.Some?
                      && Established(old(TheStance()), old(result).value, old(prevProposers), old(prevRoundTime),
                                     TheStance(), result.value, TheSetting(), adaptor.idOf, haveCloseTimeConsensus,
                                     phase == Accepted, old(adaptor.log), adaptor.log, outcome))
      decreases adaptor.patience, if previousLedger.id != prevLedgerId then 1 else 0, 2
    {
      hide Grounded, Steady, Opened, SinceClose, IdleInterval, Established, RecentOk;
      outcome := Outcome(map[], 0);
      if phase == Accepted {
        return;
      }
      UnderWay();
      Tick(time);
      CheckLedger();
      outcome := TakeTurn(old(adaptor.log));
    }

    /** What the phase we are in calls for; the log may start earlier, with a ledger named since. */
    method TakeTurn(ghost l0: Log) returns (ghost outcome: Outcome)
      requires Valid()
      modifies this`phase, this`closeTimeSelf, this`result, this`acquired, this`sent, this`openTime, this`currPeerPositions,
               this`haveCloseTimeConsensus, this`convergePercent, this`prevProposers, this`prevRoundTime, adaptor`log
      ensures Valid() && old(sent) <= sent
      ensures adaptor.log.named == old(adaptor.log).named && adaptor.log.ledgers == old(adaptor.log).ledgers
      ensures old(adaptor.log) == l0.(named := old(adaptor.log).named) && old(phase) == Open ==>
                && phase != Accepted
                && Opened(l0, adaptor.log, phase == Establish, prevProposers, |currPeerPositions|, prevRoundTime,
                          SinceClose(), openStart, openTime, IdleInterval())
      ensures old(adaptor.log) == l0.(named := old(adaptor.log).named) && old(phase) == Establish ==>
                && phase != Open && result.Some?
                && Established(old(TheStance()), old(result).value, old(prevProposers), old(prevRoundTime),
                               TheStance(), result.value, TheSetting(), adaptor.idOf, haveCloseTimeConsensus,
                               phase == Accepted, l0, adaptor.log, outcome)
    {
      hide Grounded, Steady, SinceClose, IdleInterval, RecentOk, ClosingRule, Repositioned, Concluded, IsQuotient;
      outcome := Outcome(map[], 0);
      ghost var l1 := adaptor.log;
      if phase == Open {
        PhaseOpen();
      } else if phase == Establish {
        InEstablish();
        ghost var r0, proposers0, roundTime0 := result.value, prevProposers, prevRoundTime;
        outcome := PhaseEstablish();
        if l1 == l0.(named := l1.named) {
          ConcludedLater(l0, l1, adaptor.log, r0.state, result.value, proposers0, roundTime0, currPeerPositions,
                         result.value.position.position, mode == Proposing, haveCloseTimeConsensus, phase == Accepted);
        }
      }
    }

    /** Make sure we are on the network's prior ledger. */
    method CheckLedger()
      requires Valid() && !firstRound && phase != Accepted
      modifies this, adaptor`patience, adaptor`log
      ensures Valid() && !firstRound && adaptor.patience <= old(adaptor.patience) && now == old(now)
      ensures old(modes) <= modes && old(sent) <= sent && old(adaptor.log).ledgers <= adaptor.log.ledgers
      ensures prevCloseTime == old(prevCloseTime) && recentPeerPositions == old(recentPeerPositions)
      ensures old(adaptor.log).named < adaptor.log.named && prevLedgerId == adaptor.log.named[|adaptor.log.named| - 1]
      ensures
        if adaptor.log.named[|old(adaptor.log).named|] == old(prevLedgerId) == old(previousLedger).id
        then unchanged(this) && adaptor.log == old(adaptor.log).(named := old(adaptor.log).named + [old(prevLedgerId)])
        else mode != Proposing
      decreases adaptor.patience, if previousLedger.id != prevLedgerId then 1 else 0, 1
    {
      hide Grounded, Steady, RecentOk;
      var id := adaptor.GetPrevLedger(prevLedgerId);
      if id != prevLedgerId {
        HandleWrongLedger(id);
      } else if previousLedger.id != prevLedgerId {
        HandleWrongLedger(id);
      }
    }

    /** Switch to another prior ledger. */
    method HandleWrongLedger(lgrId: LedgerId)
      requires Valid() && !firstRound && phase != Accepted
      requires lgrId != prevLedgerId || previousLedger.id != lgrId
      modifies this, adaptor`patience, adaptor`log
      ensures Valid() && !firstRound && adaptor.patience <= old(adaptor.patience) && now == old(now)
      ensures old(modes) <= modes && old(sent) <= sent && mode != Proposing
      ensures old(adaptor.log).named <= adaptor.log.named && old(adaptor.log).ledgers <= adaptor.log.ledgers
      ensures prevLedgerId == NamedLast(adaptor.log.named, |old(adaptor.log).named|, lgrId)
      ensures adaptor.log.named == old(adaptor.log).named && lgrId != old(prevLedgerId) ==> HeardRecent()
      ensures old(previousLedger).id != lgrId ==> Restarted(old(adaptor.log), adaptor.log, old(modes), modes, mode)
      ensures prevCloseTime == old(prevCloseTime) && recentPeerPositions == old(recentPeerPositions)
      decreases adaptor.patience, 1, 0
    {
      hide Grounded, Steady, RecentOk, HeardAll;
      LeaveConsensus();
      if prevLedgerId != lgrId {
        SwitchTo(lgrId);
      }
      if previousLedger.id == prevLedgerId {
        return;
      }
      Reacquire(lgrId);
    }

    /** Restart on the ledger if it is to be had; wait in wrong-ledger mode otherwise. */
    method Reacquire(lgrId: LedgerId)
      requires Steady() && !firstRound && RecentOk(recentPeerPositions) && prevLedgerId == lgrId && mode != Proposing
      modifies this, adaptor`patience, adaptor`log
      ensures Valid() && !firstRound && adaptor.patience <= old(adaptor.patience) && now == old(now)
      ensures old(modes) <= modes && old(sent) <= sent && mode != Proposing
      ensures old(adaptor.log).named <= adaptor.log.named && old(adaptor.log).ledgers <= adaptor.log.ledgers
      ensures prevLedgerId == NamedLast(adaptor.log.named, |old(adaptor.log).named|, lgrId)
      ensures adaptor.log.named == old(adaptor.log).named && old(HeardRecent()) ==> HeardRecent()
      ensures Restarted(old(adaptor.log), adaptor.log, old(modes), modes, mode)
      ensures prevCloseTime == old(prevCloseTime) && recentPeerPositions == old(recentPeerPositions)
      decreases adaptor.patience, 0, 4
    {
      hide Grounded, Steady, Injective, ModesOk, SentOk, HistoryOk, RecentOk, HeardAll, NextResolution;
      ReadyForMode(SwitchedLedger);
      var newLedger := adaptor.AcquireLedger(prevLedgerId);
      if newLedger.Some? {
        ghost var before := modes + [SwitchedLedger];
        StartRoundInternal(now, lgrId, newLedger.value, SwitchedLedger);
        StillNotProposing(before);
        assert modes[|before| - 1] == SwitchedLedger;
      } else {
        EnterMode(WrongLedger);
      }
    }

    lemma ReadyForMode(m: Mode)
      requires Steady() && m != Proposing
      ensures Injective(adaptor.idOf) && ModesOk(modes + [m]) && SentOk(sent)
    {
      hide BookOk, AcquiredOk, StanceOk, Injective, PeersOk, PhaseOk, HistoryOk, ModesOk, SentOk;
      AnotherMode(mode, modes, sent, result, m);
    }

    lemma StillNotProposing(before: seq<Mode>)
      requires Steady() && before <= modes && before != [] && before[|before| - 1] != Proposing
      ensures mode != Proposing
    {
      hide BookOk, AcquiredOk, StanceOk, Injective, PeersOk, PhaseOk, HistoryOk;
      NotTakenUpAgain(mode, modes, sent, result, before);
    }

    method EnterMode(m: Mode)
      requires Steady() && m != Proposing
      modifies this`mode, this`modes
      ensures Steady() && mode == m && modes == old(modes) + [m]
    {
      hide BookOk, AcquiredOk, StanceOk, Injective, PeersOk, PhaseOk, HistoryOk, ModesOk, SentOk;
      AnotherMode(mode, modes, sent, result, m);
      SetMode(m);
    }

    /** Forget what was said about the old prior ledger, and replay what was said about the new one. */
    method SwitchTo(lgrId: LedgerId)
      requires Steady() && phase != Accepted
      modifies this`prevLedgerId, this`result, this`currPeerPositions, this`closeTimePeers, this`deadNodes,
               this`now, this`acquired, adaptor`log
      ensures OnlySets(old(adaptor.log), adaptor.log)
      ensures Steady() && prevLedgerId == lgrId && SameStance(old(result), result) && now == old(now)
      ensures HeardRecent()
    {
      hide Grounded, Steady, HeardRecent;
      Forget(lgrId);
      PlaybackProposals();
    }

    method Forget(lgrId: LedgerId)
      requires Steady() && phase != Accepted
      modifies this`prevLedgerId, this`result, this`currPeerPositions, this`closeTimePeers, this`deadNodes
      ensures Steady() && prevLedgerId == lgrId && SameStance(old(result), result)
    {
      hide AcquiredOk, Injective, HistoryOk, DisputeOk, VoteOk, CompareOk;
      prevLedgerId := lgrId;
      if result.Some? {
        result := Some(result.value.(disputes := map[], compares := {}));
      }
      SameStanceKeeps(mode, modes, sent, old(result), result);
      currPeerPositions := map[];
      closeTimePeers := map[];
      deadNodes := {};
    }

    /** Kick off the next round of consensus. */
    method StartRound(time: Time, id: LedgerId, ledger: LedgerInfo, nowUntrusted: set<NodeId>, proposing: bool)
      requires Valid() && ledger.resolution > 0
      modifies this, adaptor`patience, adaptor`log
      ensures Valid() && !firstRound && modes != []
      ensures ledger.id == id ==> modes[0] == if proposing then Proposing else Observing
      ensures ledger.id != id ==>
                var n := |old(adaptor.log).ledgers|;
                && |adaptor.log.ledgers| > n
                && modes[0] == (if adaptor.log.ledgers[n].None? then WrongLedger else if proposing then Proposing else Observing)
      ensures prevCloseTime == if old(firstRound) then ledger.closeTime else old(closeTimeSelf)
      ensures recentPeerPositions == old(recentPeerPositions) - nowUntrusted
      ensures old(adaptor.log).named <= adaptor.log.named && now == time
      ensures prevLedgerId == NamedLast(adaptor.log.named, |old(adaptor.log).named|, id)
      ensures adaptor.log.named == old(adaptor.log).named ==>
                phase == Open && HeardRecent() && 2 * |currPeerPositions| <= prevProposers
      ensures old(firstRound) && adaptor.log.named == old(adaptor.log).named ==> prevRoundTime == 15000
    {
      hide BookOk, HistoryOk, AcquiredOk, StanceOk, PeersOk, PhaseOk, HeardAll, NextResolution, Injective;
      if firstRound {
        prevRoundTime := LEDGER_IDLE_INTERVAL;
        prevCloseTime := ledger.closeTime;
        firstRound := false;
      } else {
        prevCloseTime := closeTimeSelf;
      }
      recentPeerPositions := recentPeerPositions - nowUntrusted;
      sent, modes := [], [];
      var startMode := if proposing then Proposing else Observing;
      var prevLedger := ledger;
      if ledger.id != id {
        var newLedger := adaptor.AcquireLedger(id);
        if newLedger.Some? {
          prevLedger := newLedger.value;
        } else {
          startMode := WrongLedger;
        }
      }
      StartRoundInternal(time, id, prevLedger, startMode);
    }
  }

  /**
    Dispute completeness in every reachable state: every dispute holds votes of
    current peers only, ours and the right totals; against a peer whose set we
    have, everything our sets differ in is disputed, with that peer's vote.
   */
  lemma DisputesComplete(c: Consensus, t: TxId)
    requires c.Valid() && c.result.Some?
    ensures t in c.result.value.disputes ==>
              var d := c.result.value.disputes[t];
              && d.votes.Keys <= c.currPeerPositions.Keys
              && d.ourVote == (t in c.result.value.txns)
              && d.yays == |Voters(d.votes, true)| && d.nays == |Voters(d.votes, false)|
    ensures forall p :: p in c.currPeerPositions && c.currPeerPositions[p].position in c.acquired ==>
              var ds, theirs := c.result.value.disputes, c.acquired[c.currPeerPositions[p].position];
              && ((t in c.result.value.txns) != (t in theirs) ==> t in ds)
              && (t in ds ==> p in ds[t].votes && ds[t].votes[p] == (t in theirs))
  {
    var b := c.TheBook();
    forall p | p in b.peers && b.peers[p].position in b.acquired
      ensures (t in b.txns) != (t in b.acquired[b.peers[p].position]) ==> t in b.disputes
      ensures t in b.disputes ==>
                p in b.disputes[t].votes && b.disputes[t].votes[p] == (t in b.acquired[b.peers[p].position])
    {
      Complete(b, p, t);
    }
    if t in b.disputes {
      assert DisputeOk(b, t);
    }
  }

  // ----- Whole runs -----

  /**
    What every state of a run satisfies.  The modes and proposals recorded are
    those since the last round was started from outside.
   */
  lemma RoundSafety(c: Consensus)
    requires c.Valid()
    ensures c.phase == Open ==> c.result.None?
    ensures c.phase == Establish ==> c.result.Some?
    ensures !c.firstRound && c.previousLedger.id != c.prevLedgerId ==> c.mode == WrongLedger
    ensures forall p :: p in c.currPeerPositions ==>
              && c.currPeerPositions[p].prevLedger == c.prevLedgerId && !c.currPeerPositions[p].IsBowOut()
              && p !in c.deadNodes
    ensures c.result.Some? ==>
              var txns := c.result.value.txns;
              && c.result.value.position.position == c.adaptor.idOf(txns)
              && c.adaptor.idOf(txns) in c.acquired && c.acquired[c.adaptor.idOf(txns)] == txns
    ensures forall i, j :: 0 <= i < j < |c.modes| && c.modes[i] != Proposing ==> c.modes[j] != Proposing
    ensures forall i, j :: 0 <= i < j < |c.sent| ==> c.sent[i].seqNo < c.sent[j].seqNo
    ensures forall i :: 0 <= i < |c.sent| && c.sent[i].IsBowOut() ==> i == |c.sent| - 1
  {
    hide BookOk;
    forall i | 0 <= i < |c.sent| && c.sent[i].IsBowOut()
      ensures i == |c.sent| - 1
    {
      BowOutIsLast(c.sent, i);
    }
  }

  datatype Event =
    | RoundStarted(time: Time, id: LedgerId, ledger: LedgerInfo, nowUntrusted: set<NodeId>, proposing: bool)
    | ProposalReceived(time: Time, prop: Proposal)
    | TxSetReceived(time: Time, txSet: TxSet)
    | TimerFired(time: Time)

  /**
    Whatever happens, in whatever order, and whatever the application answers:
    the invariants hold after every event.
   */
  method Run(adaptor: Adaptor, events: seq<Event>) returns (c: Consensus)
    requires Injective(adaptor.idOf)
    requires forall i :: 0 <= i < |events| && events[i].RoundStarted? ==> events[i].ledger.resolution > 0
    modifies adaptor`patience, adaptor`log
    ensures fresh(c) && c.adaptor == adaptor && c.Valid()
  {
    c := new Consensus(adaptor);
    for i := 0 to |events|
      invariant fresh(c) && c.adaptor == adaptor && c.Valid()
    {
      adaptor.patience := *;
      match events[i] {
        case RoundStarted(time, id, ledger, untrusted, proposing) =>
          c.StartRound(time, id, ledger, untrusted, proposing);
        case ProposalReceived(time, prop) =>
          var relay := c.PeerProposal(time, prop);
        case TxSetReceived(time, txSet) =>
          c.GotTxSet(time, txSet);
        case TimerFired(time) =>
          ghost var outcome := c.TimerEntry(time);
      }
    }
  }

  // ----- Sifting out stale peers -----

  /** Exactly the peers whose proposals are newer than `cutoff` remain. */
  ghost predicate LivePeers(was: map<NodeId, Proposal>, cutoff: Time, peers: map<NodeId, Proposal>) {
    && (forall p :: p in peers <==> p in was && !was[p].IsStale(cutoff))
    && (forall p :: p in peers ==> peers[p] == was[p])
  }

  /** Halfway through: the peers in `rest` have not been looked at yet. */
  ghost predicate Sifting(b: Book, f: map<NodeId, Time>, cutoff: Time, rest: set<NodeId>,
                          peers: map<NodeId, Proposal>, ds: map<TxId, Dispute>, votes: Tally)
  {
    && f.Keys == b.peers.Keys && rest <= peers.Keys <= b.peers.Keys
    && (forall p :: p in b.peers && p !in rest ==> (p in peers <==> !b.peers[p].IsStale(cutoff)))
    && (forall p :: p in peers ==> peers[p] == b.peers[p])
    && IsTally(votes, peers.Keys - rest, f)
    && VotesWithout(b, b.peers.Keys - peers.Keys, ds)
  }

  lemma SiftNone(b: Book, f: map<NodeId, Time>, cutoff: Time)
    requires f.Keys == b.peers.Keys
    ensures Sifting(b, f, cutoff, b.peers.Keys, b.peers, b.disputes, map[])
  {
    TallyNone(f);
    WithoutNobody(b);
    assert b.peers.Keys - b.peers.Keys == {};
  }

  lemma SiftFacts(b: Book, f: map<NodeId, Time>, cutoff: Time, rest: set<NodeId>,
                  peers: map<NodeId, Proposal>, ds: map<TxId, Dispute>, votes: Tally, p: NodeId)
    requires Sifting(b, f, cutoff, rest, peers, ds, votes) && p in rest
    ensures p in peers && p in b.peers && p in f && peers[p] == b.peers[p]
  {
  }

  lemma SiftDrop(b: Book, f: map<NodeId, Time>, cutoff: Time, rest: set<NodeId>, was: Book, p: NodeId,
                 ds: map<TxId, Dispute>, votes: Tally)
    requires Sifting(b, f, cutoff, rest, was.peers, was.disputes, votes) && p in rest && was.peers[p].IsStale(cutoff)
    requires Unvoted(was, p, ds)
    ensures Sifting(b, f, cutoff, rest - {p}, was.peers - {p}, ds, votes)
  {
    hide IsTally, VotesWithout, Unvoted;
    var peers' := was.peers - {p};
    assert peers'.Keys - (rest - {p}) == was.peers.Keys - rest;
    assert b.peers.Keys - peers'.Keys == b.peers.Keys - was.peers.Keys + {p};
    WithoutOneMore(b, was, b.peers.Keys - was.peers.Keys, p, ds);
  }

  lemma SiftKeep(b: Book, f: map<NodeId, Time>, cutoff: Time, rest: set<NodeId>,
                 peers: map<NodeId, Proposal>, ds: map<TxId, Dispute>, votes: Tally, p: NodeId)
    requires Sifting(b, f, cutoff, rest, peers, ds, votes) && p in rest && !peers[p].IsStale(cutoff)
    ensures p in f && Sifting(b, f, cutoff, rest - {p}, peers, ds, AddVote(votes, f[p]))
  {
    hide IsTally, VotesWithout;
    TallyOne(votes, peers.Keys - rest, f, p);
    assert peers.Keys - (rest - {p}) == peers.Keys - rest + {p};
  }

  lemma SiftDone(b: Book, f: map<NodeId, Time>, cutoff: Time, peers: map<NodeId, Proposal>, ds: map<TxId, Dispute>,
                 votes: Tally, g: map<NodeId, Time>, resolution: nat)
    requires Sifting(b, f, cutoff, {}, peers, ds, votes) && resolution > 0 && g.Keys == peers.Keys
    requires forall p :: p in f && p in b.peers ==> f[p] == RoundCloseTime(b.peers[p].closeTime, resolution)
    requires forall p :: p in peers ==> g[p] == RoundCloseTime(peers[p].closeTime, resolution)
    ensures LivePeers(b.peers, cutoff, peers)
    ensures IsTally(votes, peers.Keys, g) && VotesWithout(b, b.peers.Keys - peers.Keys, ds)
  {
    hide IsTally, VotesWithout;
    assert peers.Keys - {} == peers.Keys;
    TallyRestrict(votes, peers.Keys, f, g);
  }

  lemma TallyNone(f: map<NodeId, Time>)
    ensures IsTally(map[], {}, f)
  {
    assert forall t :: VotersFor({}, f, t) == {};
  }

  /** All participants have voted; the winner and whether it is agreed on follow from the counts. */
  ghost predicate CloseTimeChosen(votes: Tally, participants: nat, percent: int, closeTime: Time, agreed: bool) {
    var needed := ParticipantsNeeded(participants, NeededWeight(percent));
    && Total(votes) == participants
    && ((exists t :: t in votes && votes[t] >= needed) ==> LatestTop(votes, closeTime) && votes[closeTime] >= needed)
    && ((forall t :: t in votes ==> votes[t] < needed) ==> closeTime == 0 && !agreed)
    && (agreed <==> exists t :: t in votes && votes[t] >= needed
                                  && votes[t] >= ParticipantsNeeded(participants, AV_CT_CONSENSUS_PCT))
  }

  /** A tally does not depend on times of peers it does not count. */
  lemma TallyRestrict(votes: Tally, ps: set<NodeId>, f: map<NodeId, Time>, g: map<NodeId, Time>)
    requires ps <= f.Keys && ps <= g.Keys && IsTally(votes, ps, f)
    requires forall p :: p in ps ==> f[p] == g[p]
    ensures IsTally(votes, ps, g)
  {
    forall t ensures VotersFor(ps, f, t) == VotersFor(ps, g, t) {
    }
  }
}
