/**
  A compressed trie is determined by the validations it stands for: which
  ledgers have nodes, where their spans start, and their supports.
 */
module TrieCanonical {
  import opened Histories
  import opened Spans
  import opened TrieShape
  import opened TrieSteps

  /** There is always a place where a ledger parts from the trie. */
  lemma {:induction false} Locate(m: Heap, root: Node, l: Ledger, cur: Node) returns (loc: Node, pos: nat)
    requires Tree(m, root) && cur in m && Path(m, cur) <= l
    ensures FoundAt(m, l, loc, pos)
    decreases |l| - m[cur].span.end
  {
    assert NodeOk(m, root, cur);
    var end := m[cur].span.end;
    loc, pos := cur, end;
    if end < |l| {
      if c :| c in m[cur].children && Linked(m, cur, c) && m[c].span.StartId() == l[end] {
        assert l[..end] == m[c].span.ledger[..end];
        if Path(m, c) <= l {
          loc, pos := Locate(m, root, l, c);
        } else {
          pos := Mismatch(Path(m, c), l);
          loc := c;
          assert Path(m, c)[..end + 1] == l[..end + 1];
        }
      }
    }
  }

  /** The support of a ledger, read off the place where it parts from the trie. */
  lemma SupportWhereFound(m: Heap, root: Node, e: multiset<Ledger>, l: Ledger, loc: Node, pos: nat)
    requires Tree(m, root) && Counts(m, e) && FoundAt(m, l, loc, pos)
    ensures Support(e, l) == if pos == |l| then m[loc].branch else 0
  {
    if pos == |l| {
      SpanSupport(m, root, e, loc, pos);
      assert Path(m, loc)[..pos] == l;
    } else if pos == m[loc].span.end {
      NoSupport(m, root, e, loc, l);
    } else {
      SupportWitness(e, l);
      forall h | h in e && l <= h ensures false {
        var b := NodeFor(m, e, h);
        InsideSpan(m, root, loc, pos, b);
        assert false;
      }
    }
  }

  /** Every node but the root stands for some validation. */
  lemma {:induction false} PositiveBranch(m: Heap, root: Node, e: multiset<Ledger>, n: Node)
    requires Tree(m, root) && Counts(m, e) && Compressed(m, root, null) && n in m && n != root
    ensures m[n].branch > 0
    decreases Under(m, n)
  {
    if m[n].tip > 0 {
      BranchCovers(m, root, e, n, n);
    } else {
      var c := m[n].children[0];
      UnderChild(m, root, n, c);
      LinkedChild(m, root, n, c);
      RootHasNoParent(m, root, n, c);
      PositiveBranch(m, root, e, c);
      assert CountOk(m, e, n) && CountOk(m, e, c);
      SupportMonotone(e, Path(m, n), Path(m, c));
    }
  }

  lemma RootHasNoParent(m: Heap, root: Node, p: Node, c: Node)
    requires Tree(m, root) && p in m && Linked(m, p, c)
    ensures c != root
  {
    assert NodeOk(m, root, c);
  }

  // ----- Which ledgers have nodes -----

  /** Validated descendants of `p` continue in two different ways. */
  ghost predicate Branches(e: multiset<Ledger>, p: Ledger) {
    exists c, d :: c != d && IsChild(e, p, c) && IsChild(e, p, d)
  }

  ghost predicate NodeLedger(e: multiset<Ledger>, p: Ledger) {
    p == [GENESIS] || p in e || Branches(e, p)
  }

  lemma NodePathsForth(m: Heap, root: Node, e: multiset<Ledger>, n: Node)
    requires Tree(m, root) && Counts(m, e) && Compressed(m, root, null) && n in m
    ensures NodeLedger(e, Path(m, n))
  {
    var p := Path(m, n);
    assert CountOk(m, e, n);
    if n == root {
      assert m[root].span.Valid();
    } else if m[n].tip == 0 {
      assert NodeOk(m, root, n);
      var a, b := m[n].children[0], m[n].children[1];
      ChildSupport(m, root, e, n, a);
      ChildSupport(m, root, e, n, b);
      assert m[a].span.StartId() != m[b].span.StartId();
      assert IsChild(e, p, m[a].span.StartId()) && IsChild(e, p, m[b].span.StartId());
    }
  }

  /** A child node carries the support of the ledger its span starts with. */
  lemma ChildSupport(m: Heap, root: Node, e: multiset<Ledger>, n: Node, c: Node)
    requires Tree(m, root) && Counts(m, e) && Compressed(m, root, null) && n in m && c in m[n].children
    ensures Linked(m, n, c)
    ensures Support(e, Path(m, n) + [m[c].span.StartId()]) == m[c].branch > 0
  {
    LinkedChild(m, root, n, c);
    RootHasNoParent(m, root, n, c);
    SpanSupport(m, root, e, c, m[n].span.end + 1);
    assert Path(m, c)[..m[n].span.end + 1] == Path(m, n) + [m[c].span.StartId()];
    PositiveBranch(m, root, e, c);
  }

  lemma NodePathsBack(m: Heap, root: Node, e: multiset<Ledger>, p: Ledger)
    requires Tree(m, root) && Counts(m, e) && NodeLedger(e, p)
    ensures HasNode(m, p)
  {
    if p == [GENESIS] {
      assert m[root].span.Valid();
      assert Path(m, root) == p;
    } else if p in e {
      var n := NodeFor(m, e, p);
    } else {
      var c, d :| c != d && IsChild(e, p, c) && IsChild(e, p, d);
      BranchingHasNode(m, root, e, p, c, d);
    }
  }

  lemma BranchingHasNode(m: Heap, root: Node, e: multiset<Ledger>, p: Ledger, c: Id, d: Id)
    requires Tree(m, root) && Counts(m, e) && c != d && IsChild(e, p, c) && IsChild(e, p, d)
    ensures HasNode(m, p)
  {
    var a, x := Below1(m, e, p, c);
    var b, y := Below1(m, e, p, d);
    UnderRoot(m, root);
    assert a in Under(m, root) && b in Under(m, root);
    assert m[root].span.Valid();
    assert p != [] by {
      assert x[0] == y[0] == GENESIS;
      assert x[|p|] == c && y[|p|] == d;
    }
    assert Path(m, root) <= p;
    var loc, pos := Locate(m, root, p, root);
    SupportWhereFound(m, root, e, p, loc, pos);
    SupportMonotone(e, p, p + [c]);
    assert pos == |p|;
    if pos < m[loc].span.end {
      InsideSpan(m, root, loc, pos, a);
      InsideSpan(m, root, loc, pos, b);
      assert false;
    }
    assert Path(m, loc) == p;
  }

  /** A node whose path shows that `c` is a child of `p`. */
  lemma Below1(m: Heap, e: multiset<Ledger>, p: Ledger, c: Id) returns (n: Node, h: Ledger)
    requires SpansValid(m) && Counts(m, e) && IsChild(e, p, c)
    ensures n in m && Path(m, n) == h && p + [c] <= h && p <= h && h[|p|] == c
  {
    SupportWitness(e, p + [c]);
    h :| h in e && p + [c] <= h;
    n := NodeFor(m, e, h);
  }

  // ----- Where their spans start -----

  /** The longest proper prefix of a node's path that has a node itself; 0 for the root. */
  ghost predicate StartsAt(e: multiset<Ledger>, p: Ledger, start: nat) {
    && start < |p|
    && (start == 0 <==> p == [GENESIS])
    && (start > 0 ==> NodeLedger(e, p[..start]))
    && forall k :: start < k < |p| ==> !NodeLedger(e, p[..k])
  }

  lemma NodeStart(m: Heap, root: Node, e: multiset<Ledger>, n: Node)
    requires Tree(m, root) && Counts(m, e) && Compressed(m, root, null) && n in m
    ensures StartsAt(e, Path(m, n), m[n].span.start)
  {
    var p, start := Path(m, n), m[n].span.start;
    if n == root {
      assert m[root].span.Valid();
    } else {
      var q := ParentOf(m, root, n);
      assert p[..start] == Path(m, q);
      NodePathsForth(m, root, e, q);
      forall k | start < k < |p| ensures !NodeLedger(e, p[..k]) {
        if NodeLedger(e, p[..k]) {
          NodePathsBack(m, root, e, p[..k]);
          var b :| b in m && Path(m, b) == p[..k];
          InsideSpan(m, root, n, k, b);
        }
      }
    }
  }

  lemma StartIsUnique(e: multiset<Ledger>, p: Ledger, s: nat, t: nat)
    requires StartsAt(e, p, s) && StartsAt(e, p, t)
    ensures s == t
  {
  }

  // ----- The canonical form -----

  datatype NodeView = NodeView(start: nat, tip: nat, branch: nat)

  /** What can be seen of a trie apart from the order of children: its nodes, keyed by path. */
  ghost predicate IsView(m: Heap, v: map<Ledger, NodeView>)
    requires SpansValid(m)
  {
    && (forall n :: n in m ==> Path(m, n) in v && v[Path(m, n)] == NodeView(m[n].span.start, m[n].tip, m[n].branch))
    && (forall p :: p in v ==> HasNode(m, p))
  }

  ghost function ViewOf(m: Heap, root: Node): map<Ledger, NodeView>
    requires Tree(m, root)
  {
    assert forall a, b :: a in m && b in m && Path(m, a) == Path(m, b) ==> a == b by {
      forall a, b | a in m && b in m && Path(m, a) == Path(m, b) ensures a == b {
        UniquePath(m, root, a, b);
      }
    }
    map n | n in m :: Path(m, n) := NodeView(m[n].span.start, m[n].tip, m[n].branch)
  }

  lemma ViewIsView(m: Heap, root: Node)
    requires Tree(m, root)
    ensures IsView(m, ViewOf(m, root))
  {
    hide NodeOk, Path;
    var v := ViewOf(m, root);
    forall n | n in m ensures Path(m, n) in v && v[Path(m, n)] == NodeView(m[n].span.start, m[n].tip, m[n].branch) {
      var b :| b in m && Path(m, b) == Path(m, n) && v[Path(m, n)] == NodeView(m[b].span.start, m[b].tip, m[b].branch);
      UniquePath(m, root, b, n);
    }
    forall p | p in v ensures HasNode(m, p) {
      var n :| n in m && Path(m, n) == p;
    }
  }

  /**
    Two tries over the same validations have the same nodes, with the same
    spans and supports, whatever operations built them.
   */
  lemma Canonical(m: Heap, root: Node, m': Heap, root': Node, history: Id -> Ledger, e: multiset<Ledger>)
    requires Represents(m, root, history, e, null) && Represents(m', root', history, e, null)
    ensures ViewOf(m, root) == ViewOf(m', root')
  {
    hide NodeOk, CountOk, Known;
    var v, v' := ViewOf(m, root), ViewOf(m', root');
    ViewIsView(m, root);
    ViewIsView(m', root');
    SameNodes(m, root, m', root', e, v, v');
    SameNodes(m', root', m, root, e, v', v);
  }

  lemma SameNodes(m: Heap, root: Node, m': Heap, root': Node, e: multiset<Ledger>,
                  v: map<Ledger, NodeView>, v': map<Ledger, NodeView>)
    requires Tree(m, root) && Counts(m, e) && Compressed(m, root, null) && IsView(m, v)
    requires Tree(m', root') && Counts(m', e) && Compressed(m', root', null) && IsView(m', v')
    ensures forall p :: p in v ==> p in v' && v[p] == v'[p]
  {
    hide NodeOk, NodeLedger, StartsAt;
    forall p | p in v ensures p in v' && v[p] == v'[p] {
      assert HasNode(m, p);
      var n :| n in m && Path(m, n) == p;
      NodePathsForth(m, root, e, n);
      NodePathsBack(m', root', e, p);
      var n' :| n' in m' && Path(m', n') == p;
      NodeStart(m, root, e, n);
      NodeStart(m', root', e, n');
      StartIsUnique(e, p, m[n].span.start, m'[n'].span.start);
      assert CountOk(m, e, n) && CountOk(m', e, n');
    }
  }
}
