/**
  A transaction in dispute, the votes of peers on it, and the rule by which
  our own vote follows them.
 */
module Disputes {
  import opened ConsensusTypes
  import opened Digits

  datatype Dispute = Dispute(yays: int, nays: int, ourVote: bool, tx: TxId, votes: map<NodeId, bool>) {

    /** The running totals are the totals of the votes. */
    ghost predicate Counted() {
      && yays == |Voters(votes, true)|
      && nays == |Voters(votes, false)|
    }

    function SetVote(peer: NodeId, yes: bool): Dispute {
      if peer !in votes then
        this.(votes := votes[peer := yes], yays := if yes then yays + 1 else yays, nays := if yes then nays else nays + 1)
      else if yes && !votes[peer] then
        this.(votes := votes[peer := true], yays := yays + 1, nays := nays - 1)
      else if !yes && votes[peer] then
        this.(votes := votes[peer := false], yays := yays - 1, nays := nays + 1)
      else
        this
    }

    function UnVote(peer: NodeId): Dispute {
      if peer !in votes then this
      else
        this.(votes := votes - {peer},
              yays := if votes[peer] then yays - 1 else yays,
              nays := if votes[peer] then nays else nays - 1)
    }

    /** The percentage of yes votes, ours with full weight. */
    function Weight(): int
      requires yays >= 0 && nays >= 0
    {
      (yays * 100 + if ourVote then 100 else 0) / (nays + yays + 1)
    }

    /** What our vote becomes. */
    function NextVote(percentTime: int, proposing: bool): bool
      requires yays >= 0 && nays >= 0
    {
      if ourVote && nays == 0 then true
      else if !ourVote && yays == 0 then false
      else if proposing then Weight() > NeededWeight(percentTime)
      else yays > nays
    }

    function UpdateVote(percentTime: int, proposing: bool): Dispute
      requires yays >= 0 && nays >= 0
    {
      this.(ourVote := NextVote(percentTime, proposing))
    }
  }

  ghost function Voters(votes: map<NodeId, bool>, yes: bool): set<NodeId> {
    set p | p in votes && votes[p] == yes
  }

  /**
    What is promised about our vote: unopposed, it stands.  Otherwise it turns
    to yes exactly when the yes voters outnumber the no voters, if we observe,
    or when the percentage of yes votes, ours included, exceeds what is needed
    by then, if we propose.
   */
  ghost predicate VoteRule(votes: map<NodeId, bool>, ours: bool, percentTime: int, proposing: bool, next: bool) {
    var yes, no := |Voters(votes, true)|, |Voters(votes, false)|;
    && (Voters(votes, !ours) == {} ==> next == ours)
    && (Voters(votes, !ours) != {} && !proposing ==> (next <==> yes > no))
    && (Voters(votes, !ours) != {} && proposing ==>
          (next <==> 100 * (yes + if ours then 1 else 0) >= (NeededWeight(percentTime) + 1) * (yes + no + 1)))
  }

  lemma VotesByTheRule(d: Dispute, percentTime: int, proposing: bool)
    requires d.Counted()
    ensures VoteRule(d.votes, d.ourVote, percentTime, proposing, d.NextVote(percentTime, proposing))
  {
    hide Voters, NeededWeight;
    var ours, all := if d.ourVote then 1 else 0, d.yays + d.nays + 1;
    OverShare(100 * (d.yays + ours), all, NeededWeight(percentTime));
  }

  /** A whole percentage exceeds `w` exactly when the share is at least `w + 1` percent. */
  lemma OverShare(a: nat, n: nat, w: nat)
    requires n > 0
    ensures a / n > w <==> a >= (w + 1) * n
  {
    var q, r := a / n, a % n;
    assert a == n * q + r;
    Product(n, w + 1);
    if q > w {
      Scale(n, w + 1, q);
    } else {
      Scale(n, q, w);
      Distribute(n, w, 1);
    }
  }

  /** A dispute nobody has voted on yet. */
  function NewDispute(tx: TxId, ourVote: bool): (d: Dispute)
    ensures d.Counted() && d.votes == map[]
  {
    var d := Dispute(0, 0, ourVote, tx, map[]);
    assert Voters(d.votes, true) == {} && Voters(d.votes, false) == {};
    d
  }

  lemma SetVoteCounted(d: Dispute, peer: NodeId, yes: bool)
    requires d.Counted()
    ensures d.SetVote(peer, yes).Counted()
    ensures d.SetVote(peer, yes).votes == d.votes[peer := yes]
    ensures d.SetVote(peer, yes).tx == d.tx && d.SetVote(peer, yes).ourVote == d.ourVote
  {
    hide Voters;
    if peer in d.votes && d.votes[peer] == yes {
      assert d.votes == d.votes[peer := yes];
    } else {
      CountAfter(d.votes, peer, yes);
    }
  }

  lemma CountAfter(votes: map<NodeId, bool>, peer: NodeId, yes: bool)
    requires peer !in votes || votes[peer] != yes
    ensures |Voters(votes[peer := yes], yes)| == |Voters(votes, yes)| + 1
    ensures |Voters(votes[peer := yes], !yes)| == |Voters(votes, !yes)| - if peer in votes then 1 else 0
  {
    hide Voters;
    VotersAfter(votes, peer, yes);
    VotersKnow(votes, peer);
    assert peer !in votes ==> Voters(votes, !yes) - {peer} == Voters(votes, !yes);
  }

  lemma VotersAfter(votes: map<NodeId, bool>, peer: NodeId, yes: bool)
    ensures Voters(votes[peer := yes], yes) == Voters(votes, yes) + {peer}
    ensures Voters(votes[peer := yes], !yes) == Voters(votes, !yes) - {peer}
  {
  }

  lemma VotersKnow(votes: map<NodeId, bool>, peer: NodeId)
    ensures forall b :: peer in Voters(votes, b) <==> peer in votes && votes[peer] == b
  {
  }

  lemma UnVoteCounted(d: Dispute, peer: NodeId)
    requires d.Counted()
    ensures d.UnVote(peer).Counted()
    ensures d.UnVote(peer).votes == d.votes - {peer}
    ensures d.UnVote(peer).tx == d.tx && d.UnVote(peer).ourVote == d.ourVote
  {
    hide Voters;
    if peer in d.votes {
      CountWithout(d.votes, peer, true);
      CountWithout(d.votes, peer, false);
    } else {
      assert d.votes == d.votes - {peer};
    }
  }

  lemma CountWithout(votes: map<NodeId, bool>, peer: NodeId, yes: bool)
    requires peer in votes
    ensures |Voters(votes - {peer}, yes)| == |Voters(votes, yes)| - if votes[peer] == yes then 1 else 0
  {
    assert Voters(votes - {peer}, yes) == Voters(votes, yes) - {peer};
    VotersKnow(votes, peer);
    hide Voters;
    assert peer in Voters(votes, yes) <==> votes[peer] == yes;
  }

  /** Taking back a new vote restores the dispute. */
  lemma UnVoteUndoesSetVote(d: Dispute, peer: NodeId, yes: bool)
    requires peer !in d.votes
    ensures d.SetVote(peer, yes).UnVote(peer) == d
  {
    assert d.votes[peer := yes] - {peer} == d.votes;
  }

  // ----- The dispute as the source keeps it: an object updated in place -----

  class DisputedTx {
    var yays: int
    var nays: int
    var ourVote: bool
    var votes: map<NodeId, bool>
    const tx: TxId

    ghost function Value(): Dispute
      reads this
    {
      Dispute(yays, nays, ourVote, tx, votes)
    }

    constructor (tx: TxId, ourVote: bool)
      ensures Value() == NewDispute(tx, ourVote)
    {
      this.tx := tx;
      this.ourVote := ourVote;
      yays, nays, votes := 0, 0, map[];
    }

    method SetVote(peer: NodeId, votesYes: bool)
      requires Value().Counted()
      modifies this
      ensures Value() == old(Value()).SetVote(peer, votesYes) && Value().Counted()
      ensures votes == old(votes)[peer := votesYes] && ourVote == old(ourVote)
    {
      SetVoteCounted(Value(), peer, votesYes);
      if peer !in votes {
        votes := votes[peer := votesYes];
        if votesYes {
          yays := yays + 1;
        } else {
          nays := nays + 1;
        }
      } else if votesYes && !votes[peer] {
        nays, yays := nays - 1, yays + 1;
        votes := votes[peer := true];
      } else if !votesYes && votes[peer] {
        nays, yays := nays + 1, yays - 1;
        votes := votes[peer := false];
      }
    }

    method UnVote(peer: NodeId)
      requires Value().Counted()
      modifies this
      ensures Value() == old(Value()).UnVote(peer) && Value().Counted()
      ensures votes == old(votes) - {peer} && ourVote == old(ourVote)
    {
      UnVoteCounted(Value(), peer);
      if peer in votes {
        if votes[peer] {
          yays := yays - 1;
        } else {
          nays := nays - 1;
        }
        votes := votes - {peer};
      }
    }

    method UpdateVote(percentTime: int, proposing: bool) returns (changed: bool)
      requires Value().Counted()
      modifies this`ourVote
      ensures Value() == old(Value()).UpdateVote(percentTime, proposing) && Value().Counted()
      ensures VoteRule(votes, old(ourVote), percentTime, proposing, ourVote)
      ensures changed <==> ourVote != old(ourVote)
    {
      VotesByTheRule(Value(), percentTime, proposing);
      if ourVote && nays == 0 {
        return false;
      }
      if !ourVote && yays == 0 {
        return false;
      }
      var newPosition;
      if proposing {
        var weight := (yays * 100 + if ourVote then 100 else 0) / (nays + yays + 1);
        newPosition := weight > NeededWeight(percentTime);
      } else {
        newPosition := yays > nays;
      }
      if newPosition == ourVote {
        return false;
      }
      ourVote := newPosition;
      return true;
    }
  }

  // ----- The avalanche settles -----

  lemma NeededWeightRises(s: int, t: int)
    requires 0 <= s <= t
    ensures NeededWeight(s) <= NeededWeight(t)
  {
  }

  /** Our own yes only adds weight. */
  lemma YesWeighsMore(d: Dispute)
    requires d.yays >= 0 && d.nays >= 0
    ensures d.(ourVote := false).Weight() <= d.(ourVote := true).Weight()
  {
    var n := d.nays + d.yays + 1;
    assert d.(ourVote := true).Weight() == (d.yays * 100 + 100) / n;
    DivMonotone(d.yays * 100, d.yays * 100 + 100, n);
  }

  lemma DivMonotone(a: int, b: int, n: int)
    requires a <= b && n > 0
    ensures a / n <= b / n
  {
    var p, q := a / n, b / n;
    assert a == n * p + a % n && b == n * q + b % n;
    if p > q {
      Larger(n, p, q);
      assert false;
    }
  }

  lemma Larger(n: int, p: int, q: int)
    requires n > 0 && p > q
    ensures n * p >= n * q + n
  {
    Scale(n, q + 1, p);
    Distribute(n, q, 1);
  }

  /** Our votes as time passes and peer votes stay as they are: entry 0 is the vote we start with. */
  function VotesOverTime(d: Dispute, times: seq<int>): (vs: seq<bool>)
    requires d.yays >= 0 && d.nays >= 0
    ensures |vs| == |times| + 1
    decreases |times|
  {
    if times == [] then [d.ourVote]
    else [d.ourVote] + VotesOverTime(d.UpdateVote(times[0], true), times[1..])
  }

  ghost predicate Rising(times: seq<int>) {
    && (forall i :: 0 <= i < |times| ==> 0 <= times[i])
    && (forall i, j :: 0 <= i < j < |times| ==> times[i] <= times[j])
  }

  function Flips(vs: seq<bool>): nat {
    if |vs| < 2 then 0 else (if vs[0] != vs[1] then 1 else 0) + Flips(vs[1..])
  }

  /** Once a yes has turned into a no at time `t`, the vote stays no at all later times. */
  lemma {:induction false} NoIsFinal(d: Dispute, t: int, times: seq<int>)
    requires d.yays >= 0 && d.nays >= 0 && !d.ourVote && 0 <= t
    requires Rising(times) && forall i :: 0 <= i < |times| ==> t <= times[i]
    requires d.(ourVote := true).Weight() <= NeededWeight(t)
    ensures VotesOverTime(d, times) == seq(|times| + 1, i => false)
    ensures Flips(VotesOverTime(d, times)) == 0
  {
    if times != [] {
      YesWeighsMore(d);
      NeededWeightRises(t, times[0]);
      assert d == d.(ourVote := false);
      assert d.UpdateVote(times[0], true) == d;
      NoIsFinal(d, t, times[1..]);
      var vs := VotesOverTime(d, times);
      assert vs[1..] == VotesOverTime(d, times[1..]);
      assert vs == [false] + seq(|times|, i => false);
    }
  }

  /** A yes may turn into a no, once. */
  lemma {:induction false} YesFlipsOnce(d: Dispute, times: seq<int>)
    requires d.yays >= 0 && d.nays >= 0 && d.ourVote && Rising(times)
    ensures Flips(VotesOverTime(d, times)) <= 1
    ensures
      var vs := VotesOverTime(d, times);
      forall i, j :: 0 <= i < j < |vs| && !vs[i] ==> !vs[j]
  {
    if times != [] {
      var d' := d.UpdateVote(times[0], true);
      var vs := VotesOverTime(d, times);
      assert vs[1..] == VotesOverTime(d', times[1..]);
      assert Rising(times[1..]);
      if d'.ourVote {
        YesFlipsOnce(d', times[1..]);
        assert d'.ourVote == vs[1];
        forall i, j | 0 <= i < j < |vs| && !vs[i] ensures !vs[j] {
          assert vs[i] == vs[1..][i - 1] && vs[j] == vs[1..][j - 1];
        }
      } else {
        assert d == d.(ourVote := true) && d'.(ourVote := true) == d;
        NoIsFinal(d', times[0], times[1..]);
        forall j | 0 < j < |vs| ensures !vs[j] {
          assert vs[j] == vs[1..][j - 1];
        }
      }
    }
  }

  /**
    With peer votes fixed and time passing, our vote changes at most twice and
    never returns to yes after giving it up.
   */
  lemma {:induction false} AvalancheSettles(d: Dispute, times: seq<int>)
    requires d.Counted() && Rising(times)
    ensures Flips(VotesOverTime(d, times)) <= 2
    ensures
      var vs := VotesOverTime(d, times);
      forall i, j, k :: 0 <= i < j < k < |vs| && vs[i] && !vs[j] ==> !vs[k]
  {
    if d.ourVote {
      YesFlipsOnce(d, times);
    } else if times != [] {
      var d' := d.UpdateVote(times[0], true);
      assert Rising(times[1..]) && d'.Counted();
      var vs := VotesOverTime(d, times);
      assert vs[1..] == VotesOverTime(d', times[1..]) && vs[1] == d'.ourVote;
      if d'.ourVote {
        YesFlipsOnce(d', times[1..]);
      } else {
        AvalancheSettles(d', times[1..]);
      }
      forall i, j, k | 0 <= i < j < k < |vs| && vs[i] && !vs[j] ensures !vs[k] {
        assert vs[i] == vs[1..][i - 1] && vs[j] == vs[1..][j - 1] && vs[k] == vs[1..][k - 1];
      }
    }
  }
}
