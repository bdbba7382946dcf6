/**
  The conditions that `checkInvariants` tests, and why every trie that
  represents a multiset of validations meets them.
 */
module TrieInvariants {
  import opened Histories
  import opened Spans
  import opened TrieShape
  import opened TrieSteps
  import opened TriePreferred

  ghost function BranchSum(m: Heap, cs: seq<Node>): nat
    requires forall c :: c in cs ==> c in m
  {
    if cs == [] then 0 else BranchSum(m, cs[..|cs| - 1]) + m[cs[|cs| - 1]].branch
  }

  /** The tip supports of the nodes in `ns` whose spans end at sequence number `s`. */
  ghost function SeqTotal(m: Heap, ns: set<Node>, s: nat): nat
    requires ns <= m.Keys
  {
    if ns == {} then 0
    else
      var x :| x in ns;
      SeqTotal(m, ns - {x}, s) + if m[x].span.end == s + 1 then m[x].tip else 0
  }

  lemma {:induction false} SeqTotalRemove(m: Heap, ns: set<Node>, s: nat, y: Node)
    requires ns <= m.Keys && y in ns
    ensures SeqTotal(m, ns, s) == SeqTotal(m, ns - {y}, s) + if m[y].span.end == s + 1 then m[y].tip else 0
  {
    var x :| x in ns && SeqTotal(m, ns, s) == SeqTotal(m, ns - {x}, s) + if m[x].span.end == s + 1 then m[x].tip else 0;
    if x != y {
      SeqTotalRemove(m, ns - {x}, s, y);
      SeqTotalRemove(m, ns - {y}, s, x);
      assert ns - {x} - {y} == ns - {y} - {x};
    }
  }

  /** What one node must satisfy. */
  ghost predicate NodeInvariant(m: Heap, root: Node, n: Node)
    requires n in m && forall c :: c in m[n].children ==> c in m
  {
    && (n != root && m[n].tip == 0 ==> |m[n].children| >= 2)
    && (forall c :: c in m[n].children ==> m[c].parent == n)
    && m[n].branch == m[n].tip + BranchSum(m, m[n].children)
  }

  /** The counts per sequence number that the nodes in `ns` add up to. */
  ghost predicate IsSeqTotals(m: Heap, ns: set<Node>, ss: map<nat, nat>)
    requires ns <= m.Keys
  {
    && (forall s: nat :: s in ss <==> SeqTotal(m, ns, s) > 0)
    && (forall s: nat :: s in ss ==> ss[s] == SeqTotal(m, ns, s))
  }

  ghost predicate InvariantsHold(m: Heap, root: Node, ss: map<nat, nat>)
    requires forall n, c :: n in m && c in m[n].children ==> c in m
  {
    && (forall n {:trigger NodeInvariant(m, root, n)} :: n in m ==> NodeInvariant(m, root, n))
    && IsSeqTotals(m, m.Keys, ss)
  }

  lemma TotalsUnique(m: Heap, ns: set<Node>, a: map<nat, nat>, b: map<nat, nat>)
    requires ns <= m.Keys && IsSeqTotals(m, ns, a) && IsSeqTotals(m, ns, b)
    ensures a == b
  {
  }

  lemma AddTotal(m: Heap, ns: set<Node>, ss: map<nat, nat>, n: Node)
    requires ns <= m.Keys && n in m && n !in ns && IsSeqTotals(m, ns, ss) && m[n].span.end > 0
    ensures
      var s := m[n].span.end - 1;
      IsSeqTotals(m, ns + {n}, if m[n].tip == 0 then ss else ss[s := (if s in ss then ss[s] else 0) + m[n].tip])
  {
    forall s: nat ensures SeqTotal(m, ns + {n}, s) == SeqTotal(m, ns, s) + if m[n].span.end == s + 1 then m[n].tip else 0 {
      SeqTotalRemove(m, ns + {n}, s, n);
      assert ns + {n} - {n} == ns;
    }
  }

  // ----- Branch support is the sum over children -----

  /** The validations below the first children `cs` of `p`. */
  ghost function BelowChildren(m: Heap, e: multiset<Ledger>, cs: seq<Node>): multiset<Ledger>
    requires SpansValid(m) && forall c :: c in cs ==> c in m
  {
    if cs == [] then multiset{} else BelowChildren(m, e, cs[..|cs| - 1]) + WithPrefix(e, Path(m, cs[|cs| - 1]))
  }

  lemma {:induction false} BranchSumCounts(m: Heap, e: multiset<Ledger>, cs: seq<Node>)
    requires SpansValid(m) && Counts(m, e) && forall c :: c in cs ==> c in m
    ensures BranchSum(m, cs) == |BelowChildren(m, e, cs)|
  {
    if cs != [] {
      BranchSumCounts(m, e, cs[..|cs| - 1]);
      assert CountOk(m, e, cs[|cs| - 1]);
    }
  }

  /** A ledger lies below at most one of two children. */
  lemma ChildrenApart(m: Heap, root: Node, p: Node, i: nat, j: nat, h: Ledger)
    requires Tree(m, root) && p in m && i < j < |m[p].children|
    requires forall c :: c in m[p].children ==> c in m && Linked(m, p, c)
    ensures !(Path(m, m[p].children[i]) <= h && Path(m, m[p].children[j]) <= h)
  {
    assert NodeOk(m, root, p);
    var a, b := m[p].children[i], m[p].children[j];
    assert a != b;
    if Path(m, a) <= h && Path(m, b) <= h {
      OneWay(m, root, p, a, b, h);
      assert false;
    }
  }

  /** One of the first k children leads to `h`. */
  ghost predicate LeadsTo(m: Heap, cs: seq<Node>, k: nat, h: Ledger)
    requires SpansValid(m) && k <= |cs| && forall c :: c in cs ==> c in m
  {
    exists i :: 0 <= i < k && Path(m, cs[i]) <= h
  }

  /** The children before one that leads to `h` do not. */
  lemma LeadsToOnce(m: Heap, root: Node, p: Node, k: nat, h: Ledger)
    requires Tree(m, root) && p in m && k < |m[p].children|
    requires forall c :: c in m[p].children ==> c in m && Linked(m, p, c)
    ensures Path(m, m[p].children[k]) <= h ==> !LeadsTo(m, m[p].children, k, h)
  {
    hide Linked, Path, NodeOk;
    if Path(m, m[p].children[k]) <= h {
      forall i | 0 <= i < k ensures !(Path(m, m[p].children[i]) <= h) {
        ChildrenApart(m, root, p, i, k, h);
      }
    }
  }

  /** A validation is counted once, below the one child that leads to it. */
  lemma {:induction false} BelowChildrenAt(m: Heap, root: Node, e: multiset<Ledger>, p: Node, k: nat, h: Ledger)
    requires Tree(m, root) && p in m && k <= |m[p].children| && forall c :: c in m[p].children ==> c in m && Linked(m, p, c)
    ensures BelowChildren(m, e, m[p].children[..k])[h] == if LeadsTo(m, m[p].children, k, h) then e[h] else 0
  {
    hide Linked, Path, NodeOk;
    var cs := m[p].children;
    if k > 0 {
      BelowChildrenAt(m, root, e, p, k - 1, h);
      assert cs[..k][..k - 1] == cs[..k - 1] && cs[..k][k - 1] == cs[k - 1];
      LeadsToOnce(m, root, p, k - 1, h);
      assert LeadsTo(m, cs, k, h) <==> LeadsTo(m, cs, k - 1, h) || Path(m, cs[k - 1]) <= h;
    }
  }

  /** A validation below `p` is one of `p` itself or lies below one of its children. */
  lemma PrefixSplits(m: Heap, root: Node, e: multiset<Ledger>, p: Node, h: Ledger)
    requires Tree(m, root) && Counts(m, e) && p in m && forall c :: c in m[p].children ==> c in m && Linked(m, p, c)
    ensures
      var l := Path(m, p);
      WithPrefix(e, l)[h] == BelowChildren(m, e, m[p].children)[h] + if h == l then e[l] else 0
  {
    hide NodeOk, CountOk, HasNode;
    var cs, l := m[p].children, Path(m, p);
    BelowChildrenAt(m, root, e, p, |cs|, h);
    assert cs[..|cs|] == cs;
    if h in e && l <= h && h != l {
      var b := NodeFor(m, e, h);
      var c := ChildToward(m, root, p, b);
      var i :| 0 <= i < |cs| && cs[i] == c;
    }
    if i :| 0 <= i < |cs| && Path(m, cs[i]) <= h {
      assert cs[i] in cs;
    }
  }

  lemma BranchIsSum(m: Heap, root: Node, e: multiset<Ledger>, p: Node)
    requires Tree(m, root) && Counts(m, e) && p in m && forall c :: c in m[p].children ==> c in m
    ensures m[p].branch == m[p].tip + BranchSum(m, m[p].children)
  {
    hide NodeOk, HasNode, BelowChildren, BranchSum;
    var cs, l := m[p].children, Path(m, p);
    forall c | c in cs ensures Linked(m, p, c) {
      LinkedChild(m, root, p, c);
    }
    BranchSumCounts(m, e, cs);
    assert CountOk(m, e, p);
    var below := BelowChildren(m, e, cs);
    forall h ensures WithPrefix(e, l)[h] == below[h] + if h == l then e[l] else 0 {
      PrefixSplits(m, root, e, p, h);
    }
    assert below[l] == 0;
    assert WithPrefix(e, l) == below[l := e[l]];
  }

  // ----- Counts per sequence number -----

  /** The validations of the ledgers of the nodes in `ns`. */
  ghost function OfNodes(m: Heap, e: multiset<Ledger>, ns: set<Node>): (r: multiset<Ledger>)
    requires SpansValid(m) && ns <= m.Keys
    ensures forall h {:trigger r[h]} :: r[h] == if exists n :: n in ns && Path(m, n) == h then e[h] else 0
  {
    Filter(e, h => exists n :: n in ns && Path(m, n) == h)
  }

  lemma {:induction false} SeqTotalCounts(m: Heap, root: Node, e: multiset<Ledger>, ns: set<Node>, s: nat)
    requires Tree(m, root) && Counts(m, e) && ns <= m.Keys
    ensures SeqTotal(m, ns, s) == |AtSeq(OfNodes(m, e, ns), s)|
  {
    hide NodeOk, HasNode, Support, OfNodes, SeqTotal;
    if ns == {} {
      EmptyTotals(m, e, s);
    } else {
      var x :| x in ns;
      SeqTotalRemove(m, ns, s, x);
      SeqTotalCounts(m, root, e, ns - {x}, s);
      var l := Path(m, x);
      assert CountOk(m, e, x);
      OfNodesRemove(m, root, e, ns, x);
      SeqCountOfMore(OfNodes(m, e, ns - {x}), l, e[l], s);
    }
  }

  lemma EmptyTotals(m: Heap, e: multiset<Ledger>, s: nat)
    requires SpansValid(m)
    ensures SeqTotal(m, {}, s) == 0 == |AtSeq(OfNodes(m, e, {}), s)|
  {
    assert AtSeq(OfNodes(m, e, {}), s) == multiset{};
  }

  lemma OfNodesRemove(m: Heap, root: Node, e: multiset<Ledger>, ns: set<Node>, x: Node)
    requires Tree(m, root) && ns <= m.Keys && x in ns
    ensures
      var l := Path(m, x);
      var rest := OfNodes(m, e, ns - {x});
      rest[l] == 0 && OfNodes(m, e, ns) == rest[l := rest[l] + e[l]]
  {
    var l := Path(m, x);
    forall n | n in ns - {x} ensures Path(m, n) != l {
      if Path(m, n) == l {
        UniquePath(m, root, n, x);
      }
    }
    var rest := OfNodes(m, e, ns - {x});
    forall h ensures OfNodes(m, e, ns)[h] == rest[l := e[l]][h] {
      if n :| n in ns && Path(m, n) == h {
        assert n == x || n in ns - {x};
      }
      if n :| n in ns - {x} && Path(m, n) == h {
        assert n in ns;
      }
    }
    assert OfNodes(m, e, ns) == rest[l := e[l]];
  }

  lemma NodeMeetsInvariant(m: Heap, root: Node, e: multiset<Ledger>, n: Node)
    requires Tree(m, root) && Counts(m, e) && Compressed(m, root, null) && n in m
    requires forall c :: c in m[n].children ==> c in m
    ensures NodeInvariant(m, root, n)
  {
    BranchIsSum(m, root, e, n);
    ChildrenAreLinked(m, root, n);
  }

  lemma CountsMeetTotals(m: Heap, root: Node, e: multiset<Ledger>, ss: map<nat, nat>)
    requires Tree(m, root) && Counts(m, e) && SeqCounts(ss, e)
    ensures IsSeqTotals(m, m.Keys, ss)
  {
    hide NodeOk, HasNode, SeqTotal;
    forall h ensures OfNodes(m, e, m.Keys)[h] == e[h] {
      if h in e {
        var n := NodeFor(m, e, h);
      }
    }
    assert OfNodes(m, e, m.Keys) == e;
    forall s: nat ensures SeqTotal(m, m.Keys, s) == |AtSeq(e, s)| {
      SeqTotalCounts(m, root, e, m.Keys, s);
    }
  }

  /** The invariants hold of every trie that represents a multiset of validations. */
  lemma RepresentsMeetsInvariants(m: Heap, root: Node, history: Id -> Ledger, e: multiset<Ledger>, ss: map<nat, nat>)
    requires Represents(m, root, history, e, null) && SeqCounts(ss, e)
    requires forall n, c :: n in m && c in m[n].children ==> c in m
    ensures InvariantsHold(m, root, ss)
  {
    hide NodeInvariant, IsSeqTotals, Tree, Counts, Compressed, KnownPaths, SeqCounts;
    forall n | n in m ensures NodeInvariant(m, root, n) {
      NodeMeetsInvariant(m, root, e, n);
    }
    CountsMeetTotals(m, root, e, ss);
  }
}
