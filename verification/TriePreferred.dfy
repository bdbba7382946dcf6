/**
  The vote of `Histories`, read off the nodes of a trie: along a span every
  step has one candidate, and at the end of a span the candidates are the
  children of its node.
 */
module TriePreferred {
  import opened Histories
  import opened Spans
  import opened TrieShape
  import opened TrieSteps
  import opened TrieCanonical

  // ----- Uncommitted support and the per-sequence counts -----

  /** The per-sequence counts list exactly the sequence numbers that have validations. */
  ghost predicate SeqCounts(ss: map<nat, nat>, e: multiset<Ledger>) {
    && (forall s: nat :: s in ss <==> |AtSeq(e, s)| > 0)
    && (forall s: nat :: s in ss ==> ss[s] == |AtSeq(e, s)|)
  }

  lemma {:induction false} UncommittedGap(ss: map<nat, nat>, e: multiset<Ledger>, a: nat, b: nat)
    requires SeqCounts(ss, e) && a <= b
    requires forall s: nat :: a <= s < b ==> s !in ss
    ensures Uncommitted(e, a) == Uncommitted(e, b)
    decreases b - a
  {
    if a < b {
      UncommittedStep(e, a);
      UncommittedGap(ss, e, a + 1, b);
    }
  }

  lemma {:induction false} UncommittedMonotone(e: multiset<Ledger>, a: nat, b: nat)
    requires a <= b
    ensures Uncommitted(e, a) <= Uncommitted(e, b)
    decreases b - a
  {
    if a < b {
      UncommittedStep(e, a);
      UncommittedMonotone(e, a + 1, b);
    }
  }

  /** Passing over the next sequence number that has validations adds its count. */
  lemma UncommittedNext(ss: map<nat, nat>, e: multiset<Ledger>, a: nat, s: nat)
    requires SeqCounts(ss, e) && a <= s && s in ss
    requires forall t: nat :: a <= t < s ==> t !in ss
    ensures Uncommitted(e, s + 1) == Uncommitted(e, a) + ss[s]
  {
    UncommittedGap(ss, e, a, s);
    UncommittedStep(e, s);
  }

  // ----- Along a span -----

  /** Inside a span the only child of a ledger is the next one on the span. */
  lemma SpanChild(m: Heap, root: Node, e: multiset<Ledger>, n: Node, t: nat)
    requires Tree(m, root) && Counts(m, e) && Compressed(m, root, null) && n in m
    requires m[n].span.start < t < m[n].span.end
    ensures
      var p, c := Path(m, n)[..t], Path(m, n)[t];
      && p + [c] == Path(m, n)[..t + 1]
      && IsBest(e, p, c) && Margin(e, p, c) == m[n].branch
  {
    var p, c := Path(m, n)[..t], Path(m, n)[t];
    assert p + [c] == Path(m, n)[..t + 1];
    SpanSupport(m, root, e, n, t + 1);
    PositiveBranch(m, root, e, n);
    forall d | IsChild(e, p, d) ensures d == c {
      var b, h := Below1(m, e, p, d);
      InsideSpan(m, root, n, t, b);
      assert h[t] == Path(m, n)[t];
    }
    assert !exists r :: IsRunnerUp(e, p, c, r);
  }

  /** While the branch support exceeds the uncommitted support, the walk follows the span. */
  lemma {:induction false} WalkAlong(m: Heap, root: Node, e: multiset<Ledger>, issued: nat, n: Node, t: nat, u: nat)
    requires Tree(m, root) && Counts(m, e) && Compressed(m, root, null) && n in m
    requires m[n].span.start < t <= u <= m[n].span.end
    requires t < u ==> m[n].branch > Uncommitted(e, Max(u - 1, issued))
    ensures Walk(e, issued, Path(m, n)[..t]) == Walk(e, issued, Path(m, n)[..u])
    decreases u - t
  {
    if t < u {
      SpanChild(m, root, e, n, t);
      UncommittedMonotone(e, Max(t, issued), Max(u - 1, issued));
      WalkAccepts(e, issued, Path(m, n)[..t], Path(m, n)[t]);
      WalkAlong(m, root, e, issued, n, t + 1, u);
    }
  }

  /** Where it no longer does, the walk stops inside the span. */
  lemma WalkStopsInside(m: Heap, root: Node, e: multiset<Ledger>, issued: nat, n: Node, t: nat)
    requires Tree(m, root) && Counts(m, e) && Compressed(m, root, null) && n in m
    requires m[n].span.start < t < m[n].span.end
    requires m[n].branch <= Uncommitted(e, Max(t, issued))
    ensures Walk(e, issued, Path(m, n)[..t]) == Path(m, n)[..t]
  {
    SpanChild(m, root, e, n, t);
    WalkStops(e, issued, Path(m, n)[..t], Path(m, n)[t]);
  }

  // ----- At the end of a span -----

  /** (branch support, starting id), compared lexicographically. */
  ghost predicate Ahead(m: Heap, a: Node, b: Node)
    requires SpansValid(m) && a in m && b in m
  {
    m[a].branch > m[b].branch || (m[a].branch == m[b].branch && m[a].span.StartId() > m[b].span.StartId())
  }

  lemma ChildNode(m: Heap, root: Node, e: multiset<Ledger>, n: Node, d: Id) returns (c: Node)
    requires Tree(m, root) && Counts(m, e) && n in m && IsChild(e, Path(m, n), d)
    ensures c in m[n].children && c in m && m[c].span.StartId() == d
  {
    var b, h := Below1(m, e, Path(m, n), d);
    c := ChildToward(m, root, n, b);
    assert m[c].span.StartId() == Path(m, c)[m[n].span.end] == h[m[n].span.end];
  }

  lemma BeatsIsAhead(m: Heap, root: Node, e: multiset<Ledger>, n: Node, a: Node, b: Node)
    requires Tree(m, root) && Counts(m, e) && Compressed(m, root, null)
    requires n in m && a in m[n].children && b in m[n].children
    ensures a in m && b in m
    ensures Beats(e, Path(m, n), m[a].span.StartId(), m[b].span.StartId()) <==> Ahead(m, a, b)
  {
    ChildSupport(m, root, e, n, a);
    ChildSupport(m, root, e, n, b);
  }

  ghost predicate Leads(m: Heap, n: Node, a: Node)
    requires SpansValid(m) && n in m
  {
    && a in m[n].children && a in m
    && forall c :: c in m[n].children && c != a ==> c in m && Ahead(m, a, c)
  }

  ghost predicate Second(m: Heap, n: Node, a: Node, b: Node)
    requires SpansValid(m) && n in m
  {
    && b in m[n].children && b in m && b != a
    && forall c :: c in m[n].children && c != a && c != b ==> c in m && Ahead(m, b, c)
  }

  lemma LeaderIsBest(m: Heap, root: Node, e: multiset<Ledger>, n: Node, a: Node)
    requires Tree(m, root) && Counts(m, e) && Compressed(m, root, null) && n in m && Leads(m, n, a)
    ensures IsBest(e, Path(m, n), m[a].span.StartId())
    ensures Support(e, Path(m, n) + [m[a].span.StartId()]) == m[a].branch > 0
  {
    var p, c := Path(m, n), m[a].span.StartId();
    ChildSupport(m, root, e, n, a);
    forall d | IsChild(e, p, d) && d != c ensures Beats(e, p, c, d) {
      var b := ChildNode(m, root, e, n, d);
      BeatsIsAhead(m, root, e, n, a, b);
    }
  }

  lemma SecondIsRunnerUp(m: Heap, root: Node, e: multiset<Ledger>, n: Node, a: Node, b: Node)
    requires Tree(m, root) && Counts(m, e) && Compressed(m, root, null) && n in m
    requires a in m[n].children && a in m && Second(m, n, a, b)
    ensures IsRunnerUp(e, Path(m, n), m[a].span.StartId(), m[b].span.StartId())
    ensures Support(e, Path(m, n) + [m[b].span.StartId()]) == m[b].branch
  {
    var p, c, r := Path(m, n), m[a].span.StartId(), m[b].span.StartId();
    ChildSupport(m, root, e, n, a);
    ChildSupport(m, root, e, n, b);
    if r == c {
      SameStart(m, root, n, a, b);
    }
    forall d | IsChild(e, p, d) && d != c && d != r ensures Beats(e, p, r, d) {
      var x := ChildNode(m, root, e, n, d);
      BeatsIsAhead(m, root, e, n, b, x);
    }
  }

  /** The margin of the leading child of a node. */
  lemma LeaderMargin(m: Heap, root: Node, e: multiset<Ledger>, n: Node, a: Node, margin: int)
    requires Tree(m, root) && Counts(m, e) && Compressed(m, root, null) && n in m && Leads(m, n, a)
    requires m[n].children == [a] ==> margin == m[a].branch
    requires m[n].children != [a] ==>
               exists b :: Second(m, n, a, b) &&
                 margin == m[a].branch - m[b].branch + if m[a].span.StartId() > m[b].span.StartId() then 1 else 0
    ensures IsBest(e, Path(m, n), m[a].span.StartId())
    ensures Margin(e, Path(m, n), m[a].span.StartId()) == margin > 0
  {
    var p, c := Path(m, n), m[a].span.StartId();
    LeaderIsBest(m, root, e, n, a);
    if m[n].children == [a] {
      forall r | IsRunnerUp(e, p, c, r) ensures false {
        var b := ChildNode(m, root, e, n, r);
      }
    } else {
      var b :| Second(m, n, a, b) &&
        margin == m[a].branch - m[b].branch + if m[a].span.StartId() > m[b].span.StartId() then 1 else 0;
      SecondIsRunnerUp(m, root, e, n, a, b);
      MarginWithRunnerUp(e, p, c, m[b].span.StartId());
    }
  }

  /** At the end of a span the walk moves on to the leading child exactly when its margin is large enough. */
  lemma WalkToChild(m: Heap, root: Node, e: multiset<Ledger>, issued: nat, n: Node, a: Node, margin: int)
    requires Tree(m, root) && n in m && a in m[n].children && Linked(m, n, a)
    requires IsBest(e, Path(m, n), m[a].span.StartId())
    requires Margin(e, Path(m, n), m[a].span.StartId()) == margin
    ensures
      var u := Uncommitted(e, Max(m[n].span.end, issued));
      Walk(e, issued, Path(m, n)) ==
        if margin > u then Walk(e, issued, Path(m, a)[..m[a].span.start + 1]) else Path(m, n)
  {
    var p, c := Path(m, n), m[a].span.StartId();
    assert p + [c] == Path(m, a)[..m[a].span.start + 1];
    if margin > Uncommitted(e, Max(|p|, issued)) {
      WalkAccepts(e, issued, p, c);
    } else {
      WalkStops(e, issued, p, c);
    }
  }

  lemma WalkStopsAtLeaf(m: Heap, root: Node, e: multiset<Ledger>, issued: nat, n: Node)
    requires Tree(m, root) && Counts(m, e) && n in m && m[n].children == []
    ensures Walk(e, issued, Path(m, n)) == Path(m, n)
  {
    forall d | IsChild(e, Path(m, n), d) ensures false {
      var c := ChildNode(m, root, e, n, d);
    }
  }

  // ----- Reordering children -----

  ghost predicate IsReorder(m: Heap, n: Node, m': Heap)
    requires n in m
  {
    && m'.Keys == m.Keys
    && multiset(m'[n].children) == multiset(m[n].children)
    && m'[n] == m[n].(children := m'[n].children)
    && forall k :: k in m && k != n ==> m'[k] == m[k]
  }

  lemma ReorderMembers(a: seq<Node>, b: seq<Node>)
    requires multiset(a) == multiset(b)
    ensures |a| == |b| && forall x :: x in a <==> x in b
  {
    assert |multiset(a)| == |a| && |multiset(b)| == |b|;
    forall x ensures x in a <==> x in b {
      assert x in multiset(a) <==> x in multiset(b);
    }
  }

  lemma ReorderStarts(m: Heap, a: seq<Node>, b: seq<Node>)
    requires multiset(a) == multiset(b) && SpansValid(m) && (forall x :: x in a ==> x in m) && DistinctStarts(m, a)
    requires forall x :: x in b ==> x in m
    ensures DistinctStarts(m, b)
  {
    forall i, j | 0 <= i < j < |b| ensures m[b[i]].span.StartId() != m[b[j]].span.StartId() {
      if m[b[i]].span.StartId() == m[b[j]].span.StartId() {
        ReorderMembers(a, b);
        assert b[i] in a && b[j] in a;
        var k :| 0 <= k < |a| && a[k] == b[i];
        var l :| 0 <= l < |a| && a[l] == b[j];
        assert k == l && b[i] == b[j];
        TwiceInMultiset(b, i, j);
        OnceInMultiset(m, a, k);
      }
    }
  }

  lemma TwiceInMultiset(b: seq<Node>, i: nat, j: nat)
    requires i < j < |b| && b[i] == b[j]
    ensures multiset(b)[b[i]] >= 2
  {
    assert b == b[..i] + [b[i]] + b[i + 1..j] + [b[j]] + b[j + 1..];
  }

  lemma OnceInMultiset(m: Heap, a: seq<Node>, k: nat)
    requires SpansValid(m) && k < |a| && (forall x :: x in a ==> x in m) && DistinctStarts(m, a)
    ensures multiset(a)[a[k]] == 1
  {
    assert a == a[..k] + [a[k]] + a[k + 1..];
    assert a[k] !in a[..k] && a[k] !in a[k + 1..];
  }

  lemma ReorderNode(m: Heap, root: Node, n: Node, m': Heap, k: Node)
    requires SpansValid(m) && n in m && IsReorder(m, n, m') && k in m && NodeOk(m, root, k)
    requires forall x :: x in m'[n].children <==> x in m[n].children
    ensures SpansValid(m') && NodeOk(m', root, k)
  {
    forall c | c in m'[k].children ensures Linked(m', k, c) {
      assert Linked(m, k, c);
    }
    ReorderStarts(m, m[k].children, m'[k].children);
    KeepStarts(m, m', m'[k].children);
  }

  lemma ReorderTree(m: Heap, root: Node, n: Node, m': Heap)
    requires Tree(m, root) && n in m && IsReorder(m, n, m')
    ensures Tree(m', root)
  {
    hide NodeOk;
    ReorderMembers(m[n].children, m'[n].children);
    forall k | k in m' ensures NodeOk(m', root, k) {
      assert NodeOk(m, root, k);
      ReorderNode(m, root, n, m', k);
    }
  }

  lemma ReorderCounts(m: Heap, e: multiset<Ledger>, n: Node, m': Heap)
    requires SpansValid(m) && Counts(m, e) && n in m && IsReorder(m, n, m')
    ensures SpansValid(m') && Counts(m', e)
  {
    assert SpansValid(m');
    forall k | k in m' ensures CountOk(m', e, k) {
      assert CountOk(m, e, k);
    }
    forall h | h in e ensures HasNode(m', h) {
      var b := NodeFor(m, e, h);
      assert Path(m', b) == h;
    }
  }

  lemma ReorderKeeps(m: Heap, root: Node, history: Id -> Ledger, e: multiset<Ledger>, n: Node, m': Heap)
    requires n in m && Represents(m, root, history, e, null) && IsReorder(m, n, m')
    ensures Represents(m', root, history, e, null)
    ensures forall k :: k in m ==> m'[k].span == m[k].span && m'[k].branch == m[k].branch
  {
    hide NodeOk, Counts, Known;
    ReorderMembers(m[n].children, m'[n].children);
    ReorderTree(m, root, n, m');
    ReorderCounts(m, e, n, m');
  }
}
