/**
  The decisions of a round that depend on counts and times only: when to close
  a ledger, when there is consensus, and which close time has won.
 */
module Thresholds {
  import opened Collections
  import opened ConsensusTypes
  import opened Digits

  /** Integer division that truncates toward zero. */
  function TruncDiv(a: int, b: int): int
    requires b > 0
  {
    if a >= 0 then a / b else -((-a) / b)
  }

  /** Whether the open ledger should close now. */
  predicate ShouldCloseLedger(anyTransactions: bool, prevProposers: nat, proposersClosed: nat, proposersValidated: nat,
                              prevRoundTime: Millis, timeSincePrevClose: Millis, openTime: Millis, idleInterval: Millis)
  {
    if prevRoundTime < -1000 || prevRoundTime > 600000 || timeSincePrevClose > 600000 then true
    else if proposersClosed + proposersValidated > prevProposers / 2 then true
    else if !anyTransactions then timeSincePrevClose >= idleInterval
    else if openTime < LEDGER_MIN_CLOSE then false
    else if openTime < TruncDiv(prevRoundTime, 2) then false
    else true
  }

  /** Division as the source does it, without dividing. */
  ghost predicate IsQuotient(q: int, a: int, b: int) {
    if a >= 0 then q * b <= a < q * b + b else q * b - b < a <= q * b
  }

  lemma TruncDivIs(a: int, b: int)
    requires b > 0
    ensures IsQuotient(TruncDiv(a, b), a, b)
  {
    var c := if a >= 0 then a else -a;
    var q := c / b;
    assert c == b * q + c % b;
    Product(b, q);
    Product(b, -q);
  }

  /** Times at which something must have gone wrong: the previous round or the wait exceeds ten minutes. */
  predicate UnusualTimes(prevRoundTime: Millis, timeSincePrevClose: Millis) {
    !(-1000 <= prevRoundTime <= 600000) || timeSincePrevClose > 600000
  }

  /**
    What is promised about closing: at unusual times at once; with a majority
    of the previous proposers beyond the open phase at once; else, when idle,
    at the end of the idle interval, and when not, once the ledger has been
    open for two seconds and for half the previous round.
   */
  ghost predicate ClosingRule(closes: bool, anyTransactions: bool, prevProposers: nat, closedOrValidated: nat,
                              prevRoundTime: Millis, timeSincePrevClose: Millis, openTime: Millis, idleInterval: Millis)
  {
    && (UnusualTimes(prevRoundTime, timeSincePrevClose) ==> closes)
    && (2 * closedOrValidated > prevProposers ==> closes)
    && (!UnusualTimes(prevRoundTime, timeSincePrevClose) && 2 * closedOrValidated <= prevProposers && !anyTransactions ==>
          (closes <==> timeSincePrevClose >= idleInterval))
    && (!UnusualTimes(prevRoundTime, timeSincePrevClose) && 2 * closedOrValidated <= prevProposers && anyTransactions ==>
          (closes <==> openTime >= 2000 && 2 * openTime + 1 >= prevRoundTime))
  }

  lemma ClosesByTheRule(anyTransactions: bool, prevProposers: nat, proposersClosed: nat, proposersValidated: nat,
                        prevRoundTime: Millis, timeSincePrevClose: Millis, openTime: Millis, idleInterval: Millis)
    ensures ClosingRule(ShouldCloseLedger(anyTransactions, prevProposers, proposersClosed, proposersValidated, prevRoundTime,
                                          timeSincePrevClose, openTime, idleInterval),
                        anyTransactions, prevProposers, proposersClosed + proposersValidated, prevRoundTime,
                        timeSincePrevClose, openTime, idleInterval)
  {
  }

  /** More proposers beyond the open phase, or more time, never turn closing into waiting. */
  lemma ClosingIsMonotone(any: bool, prev: nat, closed: nat, validated: nat, round: Millis, since: Millis, open: Millis,
                          idle: Millis, closed': nat, validated': nat, since': Millis, open': Millis)
    requires closed <= closed' && validated <= validated' && since <= since' && open <= open'
    requires ShouldCloseLedger(any, prev, closed, validated, round, since, open, idle)
    ensures ShouldCloseLedger(any, prev, closed', validated', round, since', open', idle)
  {
    hide ShouldCloseLedger;
    ClosesByTheRule(any, prev, closed, validated, round, since, open, idle);
    ClosesByTheRule(any, prev, closed', validated', round, since', open', idle);
  }

  predicate CheckConsensusReached(agreeing: nat, total: nat, countSelf: bool, minConsensusPct: nat) {
    if total == 0 then true
    else
      var a := if countSelf then agreeing + 1 else agreeing;
      var t := if countSelf then total + 1 else total;
      (a * 100) / t >= minConsensusPct
  }

  function CheckConsensus(prevProposers: nat, currentProposers: nat, currentAgree: nat, currentFinished: nat,
                          previousAgreeTime: Millis, currentAgreeTime: Millis, proposing: bool): ConsensusState
  {
    if currentAgreeTime <= LEDGER_MIN_CONSENSUS then No
    else if currentProposers < prevProposers * 3 / 4 && currentAgreeTime < previousAgreeTime + LEDGER_MIN_CONSENSUS then No
    else if CheckConsensusReached(currentAgree, currentProposers, proposing, MIN_CONSENSUS_PCT) then Yes
    else if CheckConsensusReached(currentFinished, currentProposers, false, MIN_CONSENSUS_PCT) then MovedOn
    else No
  }

  /** The round has lasted long enough for the proposers there are. */
  predicate Ripe(prevProposers: nat, peers: nat, previousTime: Millis, currentTime: Millis) {
    && currentTime > 1950
    && (4 * (peers + 1) <= 3 * prevProposers ==> currentTime >= previousTime + 1950)
  }

  /**
    What is promised about consensus: none before the round is ripe; then yes
    exactly when four fifths of the participants agree, and moved on exactly
    when they do not but as many as four fifths of the peers have finished.
   */
  ghost predicate Decided(state: ConsensusState, prevProposers: nat, peers: nat, agree: nat, finished: nat,
                          previousTime: Millis, currentTime: Millis, proposing: bool)
  {
    var self := if proposing then 1 else 0;
    var ripe := Ripe(prevProposers, peers, previousTime, currentTime);
    var enough := 5 * (agree + self) >= 4 * (peers + self);
    && (state == Yes <==> ripe && enough)
    && (state == MovedOn <==> ripe && !enough && 5 * finished >= 4 * peers)
  }

  lemma DecidesExactly(prevProposers: nat, peers: nat, agree: nat, finished: nat, previousTime: Millis,
                       currentTime: Millis, proposing: bool)
    ensures Decided(CheckConsensus(prevProposers, peers, agree, finished, previousTime, currentTime, proposing),
                    prevProposers, peers, agree, finished, previousTime, currentTime, proposing)
  {
    hide CheckConsensusReached;
    ReachedExactly(agree, peers, proposing);
    ReachedExactly(finished, peers, false);
  }

  lemma ReachedExactly(agreeing: nat, total: nat, countSelf: bool)
    ensures
      var self := if countSelf then 1 else 0;
      CheckConsensusReached(agreeing, total, countSelf, 80) <==> 5 * (agreeing + self) >= 4 * (total + self)
  {
    var self := if countSelf then 1 else 0;
    if total > 0 {
      PercentBound(agreeing + self, total + self);
    }
  }

  lemma PercentBound(a: nat, t: nat)
    requires t > 0
    ensures (a * 100) / t >= 80 <==> 5 * a >= 4 * t
  {
    var q, r := (a * 100) / t, (a * 100) % t;
    assert a * 100 == t * q + r;
    if q >= 80 {
      Scale(t, 80, q);
    } else {
      Scale(t, q, 79);
    }
  }

  /** How many of the participants must agree, rounded to the nearest and never zero. */
  function ParticipantsNeeded(participants: nat, percent: nat): (n: nat)
    ensures n >= 1
    ensures n == 1 <==> participants * percent + percent / 2 < 200
    ensures n > 1 ==> 100 * n <= participants * percent + percent / 2 < 100 * n + 100
  {
    var result := (participants * percent + percent / 2) / 100;
    if result == 0 then 1 else result
  }

  // ----- Agreement by overlap -----

  /** What one node sees of a round: its peers' positions, and its own if it proposes. */
  datatype View = View(self: NodeId, position: SetId, proposing: bool, peers: map<NodeId, SetId>) {

    ghost function Backers(): set<NodeId> {
      set p | p in peers && peers[p] == position
    }

    ghost function Participants(): set<NodeId> {
      peers.Keys + if proposing then {self} else {}
    }

    ghost function Agreeing(): set<NodeId> {
      Backers() + if proposing then {self} else {}
    }

    ghost function Seen(n: NodeId): SetId
      requires n in Participants()
    {
      if n in peers then peers[n] else position
    }

    /** The node declares consensus on its position. */
    ghost predicate DeclaresYes(prevProposers: nat, finished: nat, previousTime: Millis, currentTime: Millis) {
      && self !in peers
      && CheckConsensus(prevProposers, |peers|, |Backers()|, finished, previousTime, currentTime, proposing) == Yes
    }
  }

  lemma ViewSizes(v: View)
    requires v.self !in v.peers
    ensures |v.Agreeing()| == |v.Backers()| + if v.proposing then 1 else 0
    ensures |v.Participants()| == |v.peers| + if v.proposing then 1 else 0
  {
    assert v.Backers() <= v.peers.Keys;
  }

  /** The decision on what a node sees, in terms of who agrees. */
  lemma DecidesOnView(v: View, prevProposers: nat, finished: nat, t0: Millis, t1: Millis)
    requires v.self !in v.peers
    ensures
      var state := CheckConsensus(prevProposers, |v.peers|, |v.Backers()|, finished, t0, t1, v.proposing);
      var ripe, enough := Ripe(prevProposers, |v.peers|, t0, t1), 5 * |v.Agreeing()| >= 4 * |v.Participants()|;
      && (state == Yes <==> ripe && enough)
      && (state == MovedOn <==> ripe && !enough && 5 * finished >= 4 * |v.peers|)
  {
    hide CheckConsensus, Ripe;
    ViewSizes(v);
    DecidesExactly(prevProposers, |v.peers|, |v.Backers()|, finished, t0, t1, v.proposing);
  }

  lemma YesIsFourFifths(v: View, prevProposers: nat, finished: nat, t0: Millis, t1: Millis)
    requires v.DeclaresYes(prevProposers, finished, t0, t1)
    ensures 5 * |v.Agreeing()| >= 4 * |v.Participants()|
    ensures v.Agreeing() <= v.Participants()
    ensures forall n :: n in v.Agreeing() ==> n in v.Participants() && v.Seen(n) == v.position
  {
    hide CheckConsensus, Ripe;
    DecidesOnView(v, prevProposers, finished, t0, t1);
  }

  /**
    Two nodes that see the same position from every common participant can
    both declare consensus, for different positions, only if at most a fifth of
    their participants (counted together) are common.
   */
  lemma AgreementByOverlap(v: View, prev: nat, fin: nat, t0: Millis, t1: Millis,
                           w: View, prev': nat, fin': nat, t0': Millis, t1': Millis)
    requires v.DeclaresYes(prev, fin, t0, t1) && w.DeclaresYes(prev', fin', t0', t1')
    requires forall n :: n in v.Participants() && n in w.Participants() ==> v.Seen(n) == w.Seen(n)
    requires v.position != w.position
    ensures 5 * |v.Participants() * w.Participants()| <= |v.Participants()| + |w.Participants()|
  {
    YesIsFourFifths(v, prev, fin, t0, t1);
    YesIsFourFifths(w, prev', fin', t0', t1');
    var u1, u2, a1, a2 := v.Participants(), w.Participants(), v.Agreeing(), w.Agreeing();
    assert a1 !! a2;
    assert |a1 + a2| == |a1| + |a2|;
    SubsetSize(a1 + a2, u1 + u2);
    assert |u1 + u2| == |u1| + |u2| - |u1 * u2|;
  }

  /** So enough overlap forces agreement. */
  lemma OverlapForcesAgreement(v: View, prev: nat, fin: nat, t0: Millis, t1: Millis,
                               w: View, prev': nat, fin': nat, t0': Millis, t1': Millis)
    requires v.DeclaresYes(prev, fin, t0, t1) && w.DeclaresYes(prev', fin', t0', t1')
    requires forall n :: n in v.Participants() && n in w.Participants() ==> v.Seen(n) == w.Seen(n)
    requires 5 * |v.Participants() * w.Participants()| > |v.Participants()| + |w.Participants()|
    ensures v.position == w.position
  {
    if v.position != w.position {
      AgreementByOverlap(v, prev, fin, t0, t1, w, prev', fin', t0', t1');
    }
  }

  lemma {:induction false} SubsetSize(a: set<nat>, b: set<nat>)
    requires a <= b
    ensures |a| <= |b|
  {
    assert b == a + (b - a);
  }

  // ----- Close-time votes -----

  type Tally = map<Time, nat>

  ghost function Total(votes: Tally): nat {
    if votes == map[] then 0
    else
      SomeElement(votes.Keys);
      var t :| t in votes;
      votes[t] + Total(votes - {t})
  }

  lemma {:induction false} TotalRemove(votes: Tally, s: Time)
    requires s in votes
    ensures Total(votes) == votes[s] + Total(votes - {s})
    decreases |votes|
  {
    var t :| t in votes && Total(votes) == votes[t] + Total(votes - {t});
    if s != t {
      TotalRemove(votes - {t}, s);
      TotalRemove(votes - {s}, t);
      assert votes - {t} - {s} == votes - {s} - {t};
    }
  }

  function AddVote(votes: Tally, t: Time): Tally {
    votes[t := (if t in votes then votes[t] else 0) + 1]
  }

  lemma AddVoteTotal(votes: Tally, t: Time)
    ensures Total(AddVote(votes, t)) == Total(votes) + 1
  {
    TotalRemove(AddVote(votes, t), t);
    assert AddVote(votes, t) - {t} == votes - {t};
    if t in votes {
      TotalRemove(votes, t);
    } else {
      assert votes - {t} == votes;
    }
  }

  ghost function VotersFor(ps: set<NodeId>, f: map<NodeId, Time>, t: Time): set<NodeId>
    requires ps <= f.Keys
  {
    set p | p in ps && f[p] == t
  }

  /** Every peer in `ps` has one vote, for the time `f` gives it. */
  ghost predicate IsTally(votes: Tally, ps: set<NodeId>, f: map<NodeId, Time>)
    requires ps <= f.Keys
  {
    && (forall t :: t in votes <==> VotersFor(ps, f, t) != {})
    && (forall t :: t in votes ==> votes[t] == |VotersFor(ps, f, t)|)
    && Total(votes) == |ps|
  }

  lemma TallyOne(votes: Tally, ps: set<NodeId>, f: map<NodeId, Time>, q: NodeId)
    requires ps <= f.Keys && q in f && q !in ps && IsTally(votes, ps, f)
    ensures IsTally(AddVote(votes, f[q]), ps + {q}, f)
  {
    hide VotersFor, Total;
    AddVoteTotal(votes, f[q]);
    forall t
      ensures VotersFor(ps + {q}, f, t) == VotersFor(ps, f, t) + if t == f[q] then {q} else {}
      ensures q !in VotersFor(ps, f, t)
    {
      VotersAdded(ps, f, q, t);
    }
  }

  lemma VotersAdded(ps: set<NodeId>, f: map<NodeId, Time>, q: NodeId, t: Time)
    requires ps <= f.Keys && q in f && q !in ps
    ensures VotersFor(ps + {q}, f, t) == VotersFor(ps, f, t) + if t == f[q] then {q} else {}
    ensures q !in VotersFor(ps, f, t)
  {
  }

  /** No time has more votes than `t`, and no later time has as many. */
  ghost predicate LatestTop(votes: Tally, t: Time) {
    && t in votes
    && forall s :: s in votes ==> votes[s] < votes[t] || (votes[s] == votes[t] && s <= t)
  }

  /** Where the search stands once the times `seen` have been looked at. */
  ghost predicate Standing(votes: Tally, seen: seq<Time>, threshVote: nat, threshConsensus: nat,
                           winner: Time, thresh: nat, agreed: bool) {
    && (forall s :: s in seen ==> s in votes)
    && if forall s :: s in seen ==> votes[s] < threshVote then thresh == threshVote && winner == 0 && !agreed
       else
         && winner in seen && thresh == votes[winner] >= threshVote
         && (forall s :: s in seen ==> votes[s] < thresh || (votes[s] == thresh && s <= winner))
         && (agreed <==> thresh >= threshConsensus)
  }

  lemma StandingStep(votes: Tally, seen: seq<Time>, threshVote: nat, threshConsensus: nat,
                     winner: Time, thresh: nat, agreed: bool, t: Time)
    requires Standing(votes, seen, threshVote, threshConsensus, winner, thresh, agreed)
    requires t in votes && forall s :: s in seen ==> s < t
    ensures if votes[t] >= thresh then
              Standing(votes, seen + [t], threshVote, threshConsensus, t, votes[t], agreed || votes[t] >= threshConsensus)
            else
              Standing(votes, seen + [t], threshVote, threshConsensus, winner, thresh, agreed)
  {
    var next := seen + [t];
    assert forall s :: s in next <==> s in seen || s == t;
    assert t in next;
  }

  lemma StandingDone(votes: Tally, seen: seq<Time>, threshVote: nat, threshConsensus: nat,
                     winner: Time, thresh: nat, agreed: bool)
    requires Standing(votes, seen, threshVote, threshConsensus, winner, thresh, agreed)
    requires forall t :: t in seen <==> t in votes
    ensures (exists t :: t in votes && votes[t] >= threshVote) ==> LatestTop(votes, winner) && votes[winner] >= threshVote
    ensures (forall t :: t in votes ==> votes[t] < threshVote) ==> winner == 0 && !agreed
    ensures agreed <==> exists t :: t in votes && votes[t] >= threshVote && votes[t] >= threshConsensus
  {
  }

  /**
    The close time the votes settle on: the latest among those with the most
    votes, provided it has enough to be considered at all, and whether it has
    enough to be agreed on.  Zero stands for no time.
   */
  method PickCloseTime(votes: Tally, threshVote: nat, threshConsensus: nat) returns (winner: Time, agreed: bool)
    ensures (exists t :: t in votes && votes[t] >= threshVote) ==> LatestTop(votes, winner) && votes[winner] >= threshVote
    ensures (forall t :: t in votes ==> votes[t] < threshVote) ==> winner == 0 && !agreed
    ensures agreed <==> exists t :: t in votes && votes[t] >= threshVote && votes[t] >= threshConsensus
  {
    hide Standing;
    winner, agreed := 0, false;
    var thresh: nat := threshVote;
    var ts := SortedKeys(votes.Keys);
    NothingSeen(votes, ts[..0], threshVote, threshConsensus);
    for i := 0 to |ts|
      invariant Standing(votes, ts[..i], threshVote, threshConsensus, winner, thresh, agreed)
    {
      assert ts[i] in ts && ts[..i + 1] == ts[..i] + [ts[i]];
      StandingStep(votes, ts[..i], threshVote, threshConsensus, winner, thresh, agreed, ts[i]);
      if votes[ts[i]] >= thresh {
        winner, thresh := ts[i], votes[ts[i]];
        if thresh >= threshConsensus {
          agreed := true;
        }
      }
    }
    assert ts[..|ts|] == ts;
    StandingDone(votes, ts, threshVote, threshConsensus, winner, thresh, agreed);
  }

  lemma NothingSeen(votes: Tally, seen: seq<Time>, threshVote: nat, threshConsensus: nat)
    requires seen == []
    ensures Standing(votes, seen, threshVote, threshConsensus, 0, threshVote, false)
  {
  }

  /** The two largest shares of a vote cannot exceed the whole. */
  lemma TwoShares(votes: Tally, s: Time, t: Time)
    requires s in votes && t in votes && s != t
    ensures votes[s] + votes[t] <= Total(votes)
  {
    TotalRemove(votes, s);
    TotalRemove(votes - {s}, t);
  }

  /** At most one close time can reach the threshold, whatever the votes. */
  ghost predicate OneWinner(participants: nat) {
    forall votes: Tally, s, t ::
      Total(votes) == participants && s in votes && t in votes
      && votes[s] >= ParticipantsNeeded(participants, AV_CT_CONSENSUS_PCT)
      && votes[t] >= ParticipantsNeeded(participants, AV_CT_CONSENSUS_PCT)
      ==> s == t
  }

  /** With exactly two participants, and only then, two close times can both be agreed on. */
  lemma OneWinnerUnlessTwo(participants: nat)
    ensures OneWinner(participants) <==> participants != 2
  {
    if participants == 2 {
      var votes: Tally := map[1 := 1, 2 := 1];
      TotalRemove(votes, 1);
      TotalRemove(votes - {1}, 2);
      assert votes - {1} - {2} == map[];
      assert ParticipantsNeeded(2, AV_CT_CONSENSUS_PCT) == 1;
    } else {
      forall votes: Tally, s, t |
        Total(votes) == participants && s in votes && t in votes
        && votes[s] >= ParticipantsNeeded(participants, AV_CT_CONSENSUS_PCT)
        && votes[t] >= ParticipantsNeeded(participants, AV_CT_CONSENSUS_PCT)
        ensures s == t
      {
        if s != t {
          TwoShares(votes, s, t);
        }
      }
    }
  }
}
