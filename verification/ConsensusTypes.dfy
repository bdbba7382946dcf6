/**
  The values a round of consensus works with.  A transaction set is a set of
  transaction ids; peers refer to it by a set id.
 */
module ConsensusTypes {
  import opened Digits

  type NodeId = nat
  type LedgerId = nat
  type TxId = nat
  type TxSet = set<TxId>
  type SetId = nat
  /** Network time in seconds. */
  type Time = int
  /** Durations on the internal clock, in milliseconds. */
  type Millis = int

  datatype Mode = Proposing | Observing | WrongLedger | SwitchedLedger

  datatype Phase = Open | Establish | Accepted

  datatype ConsensusState = No | MovedOn | Yes

  // ----- Parameters -----

  const PROPOSE_FRESHNESS: Time := 20
  const PROPOSE_INTERVAL: Time := 12
  const MIN_CONSENSUS_PCT: nat := 80
  const LEDGER_IDLE_INTERVAL: Millis := 15000
  const LEDGER_MIN_CONSENSUS: Millis := 1950
  const LEDGER_MIN_CLOSE: Millis := 2000
  const AV_MIN_CONSENSUS_TIME: Millis := 5000
  const AV_INIT_CONSENSUS_PCT: nat := 50
  const AV_MID_CONSENSUS_TIME: nat := 50
  const AV_MID_CONSENSUS_PCT: nat := 65
  const AV_LATE_CONSENSUS_TIME: nat := 85
  const AV_LATE_CONSENSUS_PCT: nat := 70
  const AV_STUCK_CONSENSUS_TIME: nat := 200
  const AV_STUCK_CONSENSUS_PCT: nat := 95
  const AV_CT_CONSENSUS_PCT: nat := 75

  /** An int compared with an unsigned parameter is converted to 64 bits first. */
  function AsUnsigned(x: int): int {
    if x < 0 then x + 0x1_0000_0000_0000_0000 else x
  }

  /** The share of votes needed, which rises with the share of the expected round time already spent. */
  function NeededWeight(percentTime: int): (w: nat)
    ensures 0 <= percentTime < 50 ==> w == 50
    ensures 50 <= percentTime < 85 ==> w == 65
    ensures 85 <= percentTime < 200 ==> w == 70
    ensures percentTime >= 200 || -0x8000_0000 <= percentTime < 0 ==> w == 95
    ensures w in {50, 65, 70, 95}
  {
    if AsUnsigned(percentTime) < AV_MID_CONSENSUS_TIME then AV_INIT_CONSENSUS_PCT
    else if AsUnsigned(percentTime) < AV_LATE_CONSENSUS_TIME then AV_MID_CONSENSUS_PCT
    else if AsUnsigned(percentTime) < AV_STUCK_CONSENSUS_TIME then AV_LATE_CONSENSUS_PCT
    else AV_STUCK_CONSENSUS_PCT
  }

  // ----- Proposals -----

  const SEQ_JOIN: nat := 0
  const SEQ_LEAVE: nat := 0xffff_ffff

  type ProposeSeq = n: nat | n <= SEQ_LEAVE

  datatype Proposal = Proposal(
    prevLedger: LedgerId, seqNo: ProposeSeq, position: SetId, closeTime: Time, seenTime: Time, node: NodeId)
  {
    predicate IsInitial() {
      seqNo == SEQ_JOIN
    }

    predicate IsBowOut() {
      seqNo == SEQ_LEAVE
    }

    predicate IsStale(cutoff: Time) {
      seenTime <= cutoff
    }

    /** A new position with the next sequence number, unless the proposer has left. */
    function ChangePosition(newPosition: SetId, newCloseTime: Time, now: Time): (p: Proposal)
      ensures p.node == node && p.prevLedger == prevLedger && p.position == newPosition
      ensures p.closeTime == newCloseTime && p.seenTime == now
      ensures IsBowOut() ==> p.IsBowOut()
      ensures !IsBowOut() ==> p.seqNo == seqNo + 1
    {
      Proposal(prevLedger, if seqNo != SEQ_LEAVE then seqNo + 1 else seqNo, newPosition, newCloseTime, now, node)
    }

    /** Leaving keeps the position but can never be superseded. */
    function BowOut(now: Time): (p: Proposal)
      ensures p.IsBowOut() && p.position == position && p.closeTime == closeTime && p.seenTime == now
      ensures p.node == node && p.prevLedger == prevLedger
      ensures forall q: Proposal :: q.seqNo <= p.seqNo
    {
      Proposal(prevLedger, SEQ_LEAVE, position, closeTime, now, node)
    }
  }

  // ----- Ledgers and close times -----

  datatype LedgerInfo = LedgerInfo(
    id: LedgerId, seqNo: nat, closeTime: Time, parentCloseTime: Time, closeAgree: bool, resolution: nat)

  const RESOLUTIONS: seq<nat> := [10, 20, 30, 60, 90, 120]

  /** Coarser when the last close time was disputed, finer every eighth ledger when it was agreed on. */
  function NextResolution(previous: nat, previousAgree: bool, ledgerSeq: nat): (r: nat)
    ensures previous > 0 ==> r > 0
  {
    if previous !in RESOLUTIONS then previous
    else
      var i := ResolutionIndex(previous, 0);
      if !previousAgree && i + 1 < |RESOLUTIONS| then RESOLUTIONS[i + 1]
      else if previousAgree && ledgerSeq % 8 == 0 && i > 0 then RESOLUTIONS[i - 1]
      else previous
  }

  function ResolutionIndex(r: nat, from: nat): (i: nat)
    requires from <= |RESOLUTIONS| && r in RESOLUTIONS[from..]
    ensures i < |RESOLUTIONS| && RESOLUTIONS[i] == r
    decreases |RESOLUTIONS| - from
  {
    if RESOLUTIONS[from] == r then from
    else
      assert RESOLUTIONS[from..] == [RESOLUTIONS[from]] + RESOLUTIONS[from + 1..];
      ResolutionIndex(r, from + 1)
  }

  /** Rounded to a multiple of the resolution; the zero time stands for "unknown". */
  function RoundCloseTime(t: Time, resolution: nat): Time
    requires resolution > 0
  {
    if t == 0 then 0
    else
      var u := t + resolution / 2;
      u - u % resolution
  }

  /** The nearest multiple, the later one when midway. */
  lemma RoundsToNearest(t: Time, resolution: nat)
    requires resolution > 0 && t != 0
    ensures
      var r := RoundCloseTime(t, resolution);
      r % resolution == 0 && 2 * r <= 2 * t + resolution && 2 * t < 2 * r + resolution
  {
    var u := t + resolution / 2;
    assert u - u % resolution == resolution * (u / resolution);
    MultipleMod(resolution, u / resolution);
  }

  /** There is only one such multiple. */
  lemma OneNearest(t: Time, resolution: nat, r: Time)
    requires resolution > 0 && t != 0
    requires r % resolution == 0 && 2 * r <= 2 * t + resolution && 2 * t < 2 * r + resolution
    ensures r == RoundCloseTime(t, resolution)
  {
    var u, k := t + resolution / 2, r / resolution;
    assert r == resolution * k;
    assert 0 <= u - r < resolution;
    ModBy(u, resolution, k, u - r);
  }

  /** To the next coarser bin after a disagreement, to the next finer one every eighth ledger after agreement. */
  lemma NextResolutionIsNeighbour(previous: nat, previousAgree: bool, ledgerSeq: nat)
    ensures
      var r := NextResolution(previous, previousAgree, ledgerSeq);
      && (previous !in RESOLUTIONS ==> r == previous)
      && (previous in RESOLUTIONS ==> r in RESOLUTIONS)
      && (previous in RESOLUTIONS && !previousAgree ==>
            if previous == 120 then r == 120 else r > previous && forall b :: b in RESOLUTIONS && b > previous ==> r <= b)
      && (previous in RESOLUTIONS && previousAgree && ledgerSeq % 8 == 0 ==>
            if previous == 10 then r == 10 else r < previous && forall b :: b in RESOLUTIONS && b < previous ==> b <= r)
      && (previousAgree && ledgerSeq % 8 != 0 ==> r == previous)
  {
    if previous in RESOLUTIONS {
      var i := ResolutionIndex(previous, 0);
      assert RESOLUTIONS[0] == 10 && RESOLUTIONS[5] == 120;
    }
  }

  lemma MultipleMod(d: nat, q: int)
    requires d > 0
    ensures (d * q) % d == 0
  {
    ModBy(d * q, d, q, 0);
  }
}
