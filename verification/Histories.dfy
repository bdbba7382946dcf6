/**
  Ledger histories and the plain vote over a multiset of them.

  A ledger is the sequence of the ids of its ancestors: index `s` holds the id
  of its ancestor with sequence number `s`, the last entry is its own id, and
  every ledger starts at genesis.  A validation supports one ledger; the
  validations a node tracks are a multiset of ledgers.  Nothing in this module
  knows about the trie: it is the yardstick the trie is measured against.
 */
module Histories {

  type Id = nat
  type Ledger = seq<Id>

  const GENESIS: Id := 0

  predicate IsLedger(l: Ledger) {
    |l| > 0 && l[0] == GENESIS
  }

  /** Sequence number of a ledger (the genesis ledger has sequence number 0). */
  function SeqOf(l: Ledger): nat
    requires |l| > 0
  {
    |l| - 1
  }

  /**
    The unique history rule: an id names one ledger together with all of its
    ancestors.  `history` is that naming.
   */
  ghost predicate Known(history: Id -> Ledger, l: Ledger) {
    && IsLedger(l)
    && forall i {:trigger l[i]} :: 0 <= i < |l| ==> history(l[i]) == l[..i + 1]
  }

  lemma KnownPrefix(history: Id -> Ledger, l: Ledger, k: nat)
    requires Known(history, l) && 0 < k <= |l|
    ensures Known(history, l[..k])
  {
    forall i | 0 <= i < k ensures history(l[..k][i]) == l[..k][..i + 1] {
      assert l[..k][i] == l[i] && l[..k][..i + 1] == l[..i + 1];
    }
  }

  /** Known ledgers with the same id are the same ledger. */
  lemma SameId(history: Id -> Ledger, a: Ledger, b: Ledger)
    requires Known(history, a) && Known(history, b) && a[|a| - 1] == b[|b| - 1]
    ensures a == b
  {
    assert a == a[..|a|] == history(a[|a| - 1]);
    assert b == b[..|b|] == history(b[|b| - 1]);
  }

  /** The first sequence number at which two ledgers may differ. */
  function Mismatch(a: Ledger, b: Ledger): (k: nat)
    ensures k <= |a| && k <= |b|
    ensures a[..k] == b[..k]
    ensures k < |a| && k < |b| ==> a[k] != b[k]
  {
    if a == [] || b == [] || a[0] != b[0] then 0
    else
      var k := Mismatch(a[1..], b[1..]) + 1;
      assert a[..k] == [a[0]] + a[1..][..k - 1] && b[..k] == [b[0]] + b[1..][..k - 1];
      k
  }

  // ----- Counting -----

  ghost function Filter(e: multiset<Ledger>, f: Ledger -> bool): (r: multiset<Ledger>)
    ensures forall x {:trigger r[x]} :: r[x] == if f(x) then e[x] else 0
    decreases |e|
  {
    if e == multiset{} then multiset{}
    else
      var x :| x in e;
      var rest := Filter(e[x := 0], f);
      if f(x) then rest[x := e[x]] else rest
  }

  /** The validations of `p` and of its descendants. */
  ghost function WithPrefix(e: multiset<Ledger>, p: Ledger): (r: multiset<Ledger>)
    ensures forall x {:trigger r[x]} :: r[x] == if p <= x then e[x] else 0
  {
    Filter(e, x => p <= x)
  }

  /** The validations whose sequence number is below `t`. */
  ghost function Below(e: multiset<Ledger>, t: nat): (r: multiset<Ledger>)
    ensures forall x {:trigger r[x]} :: r[x] == if |x| <= t then e[x] else 0
  {
    Filter(e, x => |x| <= t)
  }

  /** The validations whose sequence number is `s`. */
  ghost function AtSeq(e: multiset<Ledger>, s: nat): (r: multiset<Ledger>)
    ensures forall x {:trigger r[x]} :: r[x] == if |x| == s + 1 then e[x] else 0
  {
    Filter(e, x => |x| == s + 1)
  }

  ghost function Support(e: multiset<Ledger>, p: Ledger): nat {
    |WithPrefix(e, p)|
  }

  /** Support that has not yet reached sequence number `t`. */
  ghost function Uncommitted(e: multiset<Ledger>, t: nat): nat {
    |Below(e, t)|
  }

  function Min(a: nat, b: nat): nat {
    if a < b then a else b
  }

  function Max(a: nat, b: nat): nat {
    if a < b then b else a
  }

  lemma SupportOfMore(e: multiset<Ledger>, l: Ledger, count: nat, p: Ledger)
    ensures Support(e[l := e[l] + count], p) == Support(e, p) + if p <= l then count else 0
  {
    var w := WithPrefix(e, p);
    assert WithPrefix(e[l := e[l] + count], p) == if p <= l then w[l := w[l] + count] else w;
  }

  lemma SeqCountOfMore(e: multiset<Ledger>, l: Ledger, count: nat, s: nat)
    ensures |AtSeq(e[l := e[l] + count], s)| == |AtSeq(e, s)| + if |l| == s + 1 then count else 0
  {
    var w := AtSeq(e, s);
    assert AtSeq(e[l := e[l] + count], s) == if |l| == s + 1 then w[l := w[l] + count] else w;
  }

  lemma SupportMonotone(e: multiset<Ledger>, p: Ledger, q: Ledger)
    requires p <= q
    ensures Support(e, q) <= Support(e, p)
  {
    assert WithPrefix(e, p) == WithPrefix(e, q) + (WithPrefix(e, p) - WithPrefix(e, q));
  }

  /** Nothing happens between two ledgers when every validation of the first is one of the second. */
  lemma SameSupport(e: multiset<Ledger>, q: Ledger, p: Ledger)
    requires q <= p && forall h :: h in e && q <= h ==> p <= h
    ensures Support(e, q) == Support(e, p)
    ensures q != p ==> e[q] == 0
  {
    forall h ensures WithPrefix(e, q)[h] == WithPrefix(e, p)[h] {
      assert q <= h <== p <= h;
    }
    assert WithPrefix(e, q) == WithPrefix(e, p);
    assert q <= q;
  }

  /** A ledger has support exactly when some validation extends it. */
  lemma SupportWitness(e: multiset<Ledger>, p: Ledger)
    ensures Support(e, p) > 0 <==> exists h :: h in e && p <= h
  {
    if Support(e, p) > 0 {
      var h :| h in WithPrefix(e, p);
      assert h in e && p <= h;
    }
    if h :| h in e && p <= h {
      assert h in WithPrefix(e, p);
    }
  }

  lemma UncommittedStep(e: multiset<Ledger>, t: nat)
    ensures Uncommitted(e, t + 1) == Uncommitted(e, t) + |AtSeq(e, t)|
  {
    assert Below(e, t + 1) == Below(e, t) + AtSeq(e, t);
  }

  // ----- The vote, one sequence number at a time -----

  ghost predicate IsChild(e: multiset<Ledger>, p: Ledger, c: Id) {
    Support(e, p + [c]) > 0
  }

  /** Branch support first, larger id on a tie. */
  ghost predicate Beats(e: multiset<Ledger>, p: Ledger, c: Id, d: Id) {
    var sc, sd := Support(e, p + [c]), Support(e, p + [d]);
    sc > sd || (sc == sd && c > d)
  }

  ghost predicate IsBest(e: multiset<Ledger>, p: Ledger, c: Id) {
    IsChild(e, p, c) && forall d :: IsChild(e, p, d) && d != c ==> Beats(e, p, c, d)
  }

  ghost predicate IsRunnerUp(e: multiset<Ledger>, p: Ledger, c: Id, r: Id) {
    r != c && IsChild(e, p, r) && forall d :: IsChild(e, p, d) && d != c && d != r ==> Beats(e, p, r, d)
  }

  /**
    How much support child `c` can afford to lose: its lead over the
    runner-up, one more if it also wins the tie, or everything it has when it
    is the only child.
   */
  ghost function Margin(e: multiset<Ledger>, p: Ledger, c: Id): int {
    if r :| IsRunnerUp(e, p, c, r) then
      Support(e, p + [c]) - Support(e, p + [r]) + if c > r then 1 else 0
    else
      Support(e, p + [c])
  }

  /** The vote moves from `p` to its child `c`. */
  ghost predicate Accepts(e: multiset<Ledger>, issued: nat, p: Ledger, c: Id) {
    IsBest(e, p, c) && Margin(e, p, c) > Uncommitted(e, Max(|p|, issued))
  }

  ghost function Longest(e: multiset<Ledger>): (n: nat)
    ensures forall h :: h in e ==> |h| <= n
    decreases |e|
  {
    if e == multiset{} then 0
    else
      var x :| x in e;
      Max(|x|, Longest(e[x := 0]))
  }

  /** The preferred ledger found by walking one sequence number at a time. */
  ghost function Walk(e: multiset<Ledger>, issued: nat, p: Ledger): Ledger
    decreases if |p| <= Longest(e) then Longest(e) - |p| + 1 else 0
  {
    if c :| Accepts(e, issued, p, c) then
      SupportWitness(e, p + [c]);
      Walk(e, issued, p + [c])
    else p
  }

  lemma BestIsUnique(e: multiset<Ledger>, p: Ledger, c: Id, d: Id)
    requires IsBest(e, p, c) && IsBest(e, p, d)
    ensures c == d
  {
  }

  lemma MarginWithRunnerUp(e: multiset<Ledger>, p: Ledger, c: Id, r: Id)
    requires IsRunnerUp(e, p, c, r)
    ensures Margin(e, p, c) == Support(e, p + [c]) - Support(e, p + [r]) + if c > r then 1 else 0
  {
    forall s | IsRunnerUp(e, p, c, s) ensures s == r {
      assert s != r ==> Beats(e, p, s, r) && Beats(e, p, r, s);
    }
  }

  /** One accepted step of the walk. */
  lemma WalkAccepts(e: multiset<Ledger>, issued: nat, p: Ledger, c: Id)
    requires Accepts(e, issued, p, c)
    ensures Walk(e, issued, p) == Walk(e, issued, p + [c])
  {
    forall d | Accepts(e, issued, p, d) ensures d == c {
      BestIsUnique(e, p, c, d);
    }
  }

  /** The walk stops where no step is accepted. */
  lemma WalkStops(e: multiset<Ledger>, issued: nat, p: Ledger, c: Id)
    requires IsBest(e, p, c) && !Accepts(e, issued, p, c)
    ensures Walk(e, issued, p) == p
  {
    forall d | Accepts(e, issued, p, d) ensures false {
      BestIsUnique(e, p, c, d);
    }
  }

  lemma WalkExtends(e: multiset<Ledger>, issued: nat, p: Ledger)
    ensures p <= Walk(e, issued, p)
    decreases if |p| <= Longest(e) then Longest(e) - |p| + 1 else 0
  {
    if c :| Accepts(e, issued, p, c) {
      SupportWitness(e, p + [c]);
      WalkAccepts(e, issued, p, c);
      WalkExtends(e, issued, p + [c]);
    }
  }

  // ----- Stability of the vote -----

  /** The lead of an accepted child over any sibling, known or not. */
  lemma AcceptedLead(e: multiset<Ledger>, issued: nat, p: Ledger, c: Id, d: Id)
    requires Accepts(e, issued, p, c) && d != c
    ensures
      var u := Uncommitted(e, Max(|p|, issued));
      var lead := Support(e, p + [c]) - Support(e, p + [d]);
      lead > u || (lead == u && c > d)
  {
    if r :| IsRunnerUp(e, p, c, r) {
      MarginWithRunnerUp(e, p, c, r);
      assert !IsChild(e, p, d) ==> Support(e, p + [d]) == 0;
      assert IsChild(e, p, d) ==> d == r || Beats(e, p, r, d);
    } else if IsChild(e, p, d) {
      var r := SomeRunnerUp(e, p, c, d);
      assert false;
    }
  }

  ghost function ChildIds(e: multiset<Ledger>, p: Ledger): (ids: set<Id>)
    ensures forall c :: c in ids <==> IsChild(e, p, c)
  {
    var ids := set h | h in e && |p| < |h| && p <= h :: h[|p|];
    assert forall c :: c in ids <==> IsChild(e, p, c) by {
      forall c ensures c in ids <==> IsChild(e, p, c) {
        SupportWitness(e, p + [c]);
        if c in ids {
          var h :| h in e && |p| < |h| && p <= h && c == h[|p|];
          assert p + [c] <= h;
        }
        if h :| h in e && p + [c] <= h {
          assert p <= h && c == h[|p|];
        }
      }
    }
    ids
  }

  /** Two children are enough for a runner-up to exist. */
  lemma SomeRunnerUp(e: multiset<Ledger>, p: Ledger, c: Id, d: Id) returns (r: Id)
    requires IsChild(e, p, d) && d != c
    ensures IsRunnerUp(e, p, c, r)
  {
    r := d;
    var pending := ChildIds(e, p) - {c, d};
    while pending != {}
      invariant r != c && IsChild(e, p, r) && r !in pending
      invariant forall x :: IsChild(e, p, x) && x != c && x != r && x !in pending ==> Beats(e, p, r, x)
      decreases pending
    {
      var x :| x in pending;
      pending := pending - {x};
      if Beats(e, p, x, r) {
        r := x;
      }
    }
  }

  lemma SupportOfSum(a: multiset<Ledger>, b: multiset<Ledger>, p: Ledger)
    ensures Support(a + b, p) == Support(a, p) + Support(b, p)
    ensures Support(a, p) <= |a|
  {
    assert WithPrefix(a + b, p) == WithPrefix(a, p) + WithPrefix(b, p);
    assert a == WithPrefix(a, p) + (a - WithPrefix(a, p));
  }

  lemma DisjointSupport(a: multiset<Ledger>, p: Ledger, c: Id, d: Id)
    requires c != d
    ensures Support(a, p + [c]) + Support(a, p + [d]) <= |a|
  {
    var wc, wd := WithPrefix(a, p + [c]), WithPrefix(a, p + [d]);
    forall x ensures wc[x] + wd[x] <= a[x] {
      assert p + [c] <= x ==> x[|p|] == c;
    }
    assert a == wc + wd + (a - (wc + wd));
  }

  lemma SupportOfLate(e: multiset<Ledger>, p: Ledger, c: Id)
    ensures Support(e - Below(e, |p|), p + [c]) == Support(e, p + [c])
  {
    assert WithPrefix(e - Below(e, |p|), p + [c]) == WithPrefix(e, p + [c]);
  }

  /** However the validations below sequence number `t` move, `c` comes before any other child `d` by (support, id). */
  ghost predicate Stable(e: multiset<Ledger>, t: nat, p: Ledger, c: Id) {
    forall moved: multiset<Ledger>, d: Id {:trigger Beats(e - Below(e, t) + moved, p, c, d)} ::
      |moved| == Uncommitted(e, t) && d != c ==> Beats(e - Below(e, t) + moved, p, c, d)
  }

  /** Among the validations that stay, `c` leads `d` by more than can move, or by as many with the larger id. */
  ghost predicate LeadsLate(e: multiset<Ledger>, t: nat, p: Ledger, c: Id, d: Id) {
    var lead := Support(e - Below(e, t), p + [c]) - Support(e - Below(e, t), p + [d]);
    lead > Uncommitted(e, t) || (lead == Uncommitted(e, t) && c > d)
  }

  lemma LeadWithstands(e: multiset<Ledger>, t: nat, p: Ledger, c: Id, d: Id, moved: multiset<Ledger>)
    requires LeadsLate(e, t, p, c, d) && d != c && |moved| == Uncommitted(e, t)
    ensures Beats(e - Below(e, t) + moved, p, c, d)
  {
    SupportOfSum(e - Below(e, t), moved, p + [c]);
    SupportOfSum(e - Below(e, t), moved, p + [d]);
    DisjointSupport(moved, p, c, d);
  }

  /** The worst that can happen to `c`: all that can move goes to `d`. */
  lemma WorstMove(e: multiset<Ledger>, t: nat, p: Ledger, c: Id, d: Id, moved: multiset<Ledger>)
    requires d != c && |moved| == Uncommitted(e, t) && forall h :: h in moved ==> p + [d] <= h
    ensures Beats(e - Below(e, t) + moved, p, c, d) <==> LeadsLate(e, t, p, c, d)
    ensures Beats(e - Below(e, t) + moved, p, d, c) <==> !LeadsLate(e, t, p, c, d)
  {
    SupportOfSum(e - Below(e, t), moved, p + [c]);
    SupportOfSum(e - Below(e, t), moved, p + [d]);
    assert WithPrefix(moved, p + [d]) == moved;
    DisjointSupport(moved, p, c, d);
  }

  /**
    Exactly when a choice is stable, for any sequence number: when `c` leads
    every other id, known or not, by the validations that stay.
   */
  lemma StableExactly(e: multiset<Ledger>, t: nat, p: Ledger, c: Id)
    ensures Stable(e, t, p, c) <==> forall d :: d != c ==> LeadsLate(e, t, p, c, d)
  {
    hide LeadsLate, Beats;
    var u := Uncommitted(e, t);
    if Stable(e, t, p, c) {
      forall d | d != c ensures LeadsLate(e, t, p, c, d) {
        var moved: multiset<Ledger> := multiset{}[p + [d] := u];
        CopiesOf(p + [d], u);
        WorstMove(e, t, p, c, d, moved);
      }
    }
    if forall d :: d != c ==> LeadsLate(e, t, p, c, d) {
      forall moved: multiset<Ledger>, d: Id | |moved| == u && d != c
        ensures Beats(e - Below(e, t) + moved, p, c, d)
      {
        LeadWithstands(e, t, p, c, d, moved);
      }
    }
  }

  /** An id nobody has heard of, larger than a given one. */
  lemma {:induction false} UnheardId(ids: set<Id>, c: Id) returns (d: Id)
    ensures d > c && forall x :: x in ids ==> x < d
  {
    if ids == {} {
      d := c + 1;
    } else {
      var x :| x in ids;
      var rest := UnheardId(ids - {x}, c);
      d := Max(rest, x + 1);
      forall y | y in ids ensures y < d {
        assert y == x || y in ids - {x};
      }
    }
  }

  /** The same condition by counting: outnumber what can move, and lead the siblings that are left. */
  lemma StableByCounting(e: multiset<Ledger>, t: nat, p: Ledger, c: Id)
    ensures
      var late := e - Below(e, t);
      Stable(e, t, p, c) <==>
      && Support(late, p + [c]) > Uncommitted(e, t)
      && forall d :: d in ChildIds(late, p) && d != c ==> LeadsLate(e, t, p, c, d)
  {
    hide Stable, Support, ChildIds;
    StableExactly(e, t, p, c);
    var late := e - Below(e, t);
    var d := UnheardId(ChildIds(late, p), c);
    assert !IsChild(late, p, d);
    if Stable(e, t, p, c) {
      assert LeadsLate(e, t, p, c, d);
    } else {
      var x :| x != c && !LeadsLate(e, t, p, c, x);
      assert x !in ChildIds(late, p) ==> !IsChild(late, p, x);
    }
  }

  lemma CopiesOf(h: Ledger, n: nat)
    ensures var m: multiset<Ledger> := multiset{}[h := n]; |m| == n && forall x :: x in m ==> x == h
  {
  }

  /**
    Preferred choice is stable.  Once the vote has accepted the step from `p`
    to `c` at a sequence number not below `issued`, every validation that has
    not yet reached that sequence number may move anywhere, to siblings nobody
    has heard of included, and `c` still comes first by (support, id).
   */
  lemma AcceptedStepIsStable(e: multiset<Ledger>, issued: nat, p: Ledger, c: Id)
    requires Accepts(e, issued, p, c)
    requires issued <= |p|
    ensures Stable(e, |p|, p, c)
  {
    hide Stable;
    forall d | d != c ensures LeadsLate(e, |p|, p, c, d) {
      AcceptedLead(e, issued, p, c, d);
      SupportOfLate(e, p, c);
      SupportOfLate(e, p, d);
    }
    StableExactly(e, |p|, p, c);
  }

  /**
    Below `issued` the uncommitted validations may already count for the
    accepted child, so an accepted step need not be stable.  It is stable
    exactly when the lead without them still exceeds their number.
   */
  lemma AcceptedStepStableExactly(e: multiset<Ledger>, issued: nat, p: Ledger, c: Id)
    requires Accepts(e, issued, p, c)
    ensures
      var t := Max(|p|, issued);
      var late := e - Below(e, t);
      Stable(e, t, p, c) <==>
      || issued <= |p|
      || (&& Support(late, p + [c]) > Uncommitted(e, t)
          && forall d :: d in ChildIds(late, p) && d != c ==> LeadsLate(e, t, p, c, d))
  {
    hide Stable, LeadsLate;
    StableByCounting(e, Max(|p|, issued), p, c);
    if issued <= |p| {
      AcceptedStepIsStable(e, issued, p, c);
    }
  }

  /**
    A family of steps that are accepted and not stable: one child only, more of
    its validations below `issued` than not, and all of those move to a sibling.
   */
  lemma UnstableBelowIssued(early: multiset<Ledger>, late: multiset<Ledger>, moved: multiset<Ledger>,
                            issued: nat, p: Ledger, c: Id, d: Id)
    requires c != d && |p| < issued
    requires forall h :: h in early ==> p + [c] <= h && |h| <= issued
    requires forall h :: h in late ==> p + [c] <= h && |h| > issued
    requires forall h :: h in moved ==> p + [d] <= h
    requires |moved| == |early| > |late| > 0
    ensures Accepts(early + late, issued, p, c) && Uncommitted(early + late, issued) == |moved|
    ensures Beats(early + late - Below(early + late, issued) + moved, p, d, c)
    ensures !Stable(early + late, issued, p, c)
  {
    var e := early + late;
    assert Below(e, issued) == early;
    OnlyChildAccepted(e, p, issued, c);
    assert e - early == late;
    SupportOfSum(late, moved, p + [c]);
    assert !LeadsLate(e, issued, p, c, d);
    WorstMove(e, issued, p, c, d, moved);
    StableExactly(e, issued, p, c);
  }

  /** A concrete instance: two validations of ledger 1 and one of its child, with sequence number 2 issued. */
  lemma StabilityNeedsIssuedBound()
    ensures
      var e := multiset{[GENESIS, 1], [GENESIS, 1]} + multiset{[GENESIS, 1, 5]};
      var moved := multiset{[GENESIS, 2], [GENESIS, 2]};
      && Accepts(e, 2, [GENESIS], 1)
      && |moved| == Uncommitted(e, 2)
      && Beats(e - Below(e, 2) + moved, [GENESIS], 2, 1)
      && !Stable(e, 2, [GENESIS], 1)
  {
    UnstableBelowIssued(multiset{[GENESIS, 1], [GENESIS, 1]}, multiset{[GENESIS, 1, 5]},
                        multiset{[GENESIS, 2], [GENESIS, 2]}, 2, [GENESIS], 1, 2);
  }

  /** When every validation extends `p + [c]`, the step to `c` needs only to outnumber the uncommitted. */
  lemma OnlyChildAccepted(e: multiset<Ledger>, p: Ledger, issued: nat, c: Id)
    requires forall h :: h in e ==> p + [c] <= h
    requires |e| > Uncommitted(e, Max(|p|, issued))
    ensures Accepts(e, issued, p, c)
  {
    assert WithPrefix(e, p + [c]) == e;
    forall r | r != c ensures !IsChild(e, p, r) {
      DisjointSupport(e, p, c, r);
    }
  }
}
