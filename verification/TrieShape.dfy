/**
  The nodes of the ancestry trie, and what a heap of linked nodes must look
  like to be a compressed trie over a multiset of validations.

  The proofs work on snapshots: a `Heap` maps every node of the trie to the
  contents of its fields.  All conditions relate a node to its parent and
  its children only; what holds of paths across the whole trie follows from
  them in the lemmas below.
 */
module TrieShape {
  import opened Histories
  import opened Spans

  class Node {
    var span: Span
    var tipSupport: nat
    var branchSupport: nat
    var children: seq<Node>
    var parent: Node?

    constructor (s: Span)
      ensures span == s && tipSupport == 0 && branchSupport == 0 && children == [] && parent == null
    {
      span := s;
      tipSupport, branchSupport := 0, 0;
      children, parent := [], null;
    }
  }

  datatype Fields = Fields(span: Span, tip: nat, branch: nat, children: seq<Node>, parent: Node?)

  type Heap = map<Node, Fields>

  ghost function FieldsOf(n: Node): Fields
    reads n
  {
    Fields(n.span, n.tipSupport, n.branchSupport, n.children, n.parent)
  }

  ghost function Snapshot(ns: set<Node>): Heap
    reads ns
  {
    map n | n in ns :: FieldsOf(n)
  }

  // ----- Shape -----

  ghost predicate SpansValid(m: Heap) {
    forall n :: n in m ==> m[n].span.Valid()
  }

  ghost function Path(m: Heap, n: Node): Ledger
    requires n in m && m[n].span.Valid()
  {
    m[n].span.Path()
  }

  /** Node `c` hangs off node `p`: linked back to it and continuing its path. */
  ghost predicate Linked(m: Heap, p: Node, c: Node)
    requires SpansValid(m) && p in m
  {
    && c in m
    && m[c].parent == p
    && m[c].span.start == m[p].span.end
    && Path(m, p) <= Path(m, c)
  }

  ghost predicate DistinctStarts(m: Heap, cs: seq<Node>)
    requires SpansValid(m) && forall c :: c in cs ==> c in m
  {
    forall i, j :: 0 <= i < j < |cs| ==> m[cs[i]].span.StartId() != m[cs[j]].span.StartId()
  }

  ghost predicate NodeOk(m: Heap, root: Node, n: Node)
    requires SpansValid(m) && n in m
  {
    && (n == root <==> m[n].parent == null)
    && (n != root ==> m[n].parent in m && n in m[m[n].parent].children)
    && (forall c :: c in m[n].children ==> Linked(m, n, c))
    && DistinctStarts(m, m[n].children)
  }

  /** A tree of spans rooted at the genesis span [0, 1). */
  ghost predicate Tree(m: Heap, root: Node) {
    && SpansValid(m)
    && root in m && m[root].span.start == 0 && m[root].span.end == 1
    && forall n {:trigger NodeOk(m, root, n)} :: n in m ==> NodeOk(m, root, n)
  }

  lemma ParentOf(m: Heap, root: Node, c: Node) returns (p: Node)
    requires Tree(m, root) && c in m && c != root
    ensures p in m && m[c].parent == p && c in m[p].children && Linked(m, p, c)
    ensures |Path(m, p)| < |Path(m, c)|
  {
    assert NodeOk(m, root, c);
    p := m[c].parent;
    assert NodeOk(m, root, p);
  }

  lemma ChildrenAreLinked(m: Heap, root: Node, p: Node)
    requires Tree(m, root) && p in m
    ensures forall n :: n in m ==> (n in m[p].children <==> m[n].parent == p)
    ensures forall c :: c in m[p].children ==> c in m && c != p
  {
    assert NodeOk(m, root, p);
    forall c | c in m[p].children ensures c in m && c != p && m[c].parent == p {
      assert Linked(m, p, c);
    }
    forall n | n in m && m[n].parent == p ensures n in m[p].children {
      assert NodeOk(m, root, n);
    }
  }

  lemma OnlyChild(m: Heap, root: Node, p: Node, loc: Node, c: Node)
    requires Tree(m, root) && loc in m && m[loc].parent == p && p in m && loc in m[p].children
    requires m[loc].children == [c]
    ensures c in m && c != loc && p != loc && c != p
  {
    assert NodeOk(m, root, loc) && NodeOk(m, root, p);
    assert Linked(m, loc, c) && Linked(m, p, loc);
  }

  /** At most one child leads towards a given ledger. */
  lemma OneWay(m: Heap, root: Node, p: Node, a: Node, b: Node, x: Ledger)
    requires Tree(m, root) && p in m && a in m[p].children && b in m[p].children
    requires Linked(m, p, a) && Linked(m, p, b)
    requires Path(m, a) <= x && Path(m, b) <= x
    ensures a == b
  {
    assert NodeOk(m, root, p);
    var i :| 0 <= i < |m[p].children| && m[p].children[i] == a;
    var j :| 0 <= j < |m[p].children| && m[p].children[j] == b;
    assert m[a].span.StartId() == x[m[p].span.end] == m[b].span.StartId();
  }

  /**
    From a node towards any other node below its path there is a child to
    follow.
   */
  lemma {:induction false} ChildToward(m: Heap, root: Node, a: Node, b: Node) returns (c: Node)
    requires Tree(m, root) && a in m && b in m && a != b
    requires Path(m, a) <= Path(m, b)
    ensures c in m[a].children && Linked(m, a, c) && Path(m, c) <= Path(m, b)
    decreases |Path(m, a)| + |Path(m, b)|
  {
    assert NodeOk(m, root, a) && NodeOk(m, root, b);
    if b == root {
      var p := ParentOf(m, root, a);
      assert false;
    }
    var p := ParentOf(m, root, b);
    if p == a {
      return b;
    }
    if |Path(m, a)| <= |Path(m, p)| {
      c := ChildToward(m, root, a, p);
    } else {
      var c' := ChildToward(m, root, p, a);
      OneWay(m, root, p, c', b, Path(m, b));
      assert Path(m, a) == Path(m, b);
      PathsDiffer(m, root, a, b, p);
      assert false;
    }
  }

  /** Two nodes never share a path. */
  lemma {:induction false} PathsDiffer(m: Heap, root: Node, a: Node, b: Node, p: Node)
    requires Tree(m, root) && a in m && b in m && a != b && a != root
    requires p in m && m[b].parent == p && b in m[p].children && Linked(m, p, b)
    ensures Path(m, a) != Path(m, b)
    decreases |Path(m, a)| + |Path(m, b)|, 0
  {
    if Path(m, a) == Path(m, b) {
      var q := ParentOf(m, root, a);
      if q == p {
        OneWay(m, root, p, a, b, Path(m, b));
      } else if |Path(m, q)| <= |Path(m, p)| {
        var c := ChildToward(m, root, q, p);
        assert Path(m, p) <= Path(m, a);
        OneWay(m, root, q, c, a, Path(m, a));
      } else {
        var c := ChildToward(m, root, p, q);
        assert Path(m, q) <= Path(m, b);
        OneWay(m, root, p, c, b, Path(m, b));
      }
    }
  }

  lemma UniquePath(m: Heap, root: Node, a: Node, b: Node)
    requires Tree(m, root) && a in m && b in m && Path(m, a) == Path(m, b)
    ensures a == b
  {
    if a != b {
      var c := ChildToward(m, root, a, b);
      assert false;
    }
  }

  /** A path that enters a span leaves it only at its end. */
  lemma InsideSpan(m: Heap, root: Node, n: Node, pos: nat, b: Node)
    requires Tree(m, root) && n in m && b in m
    requires m[n].span.start < pos <= m[n].span.end && Path(m, n)[..pos] <= Path(m, b)
    ensures Path(m, n) <= Path(m, b)
  {
    if n != root {
      var p := ParentOf(m, root, n);
      assert Path(m, p) <= Path(m, n)[..pos];
      var c := ChildToward(m, root, p, b);
      assert m[c].span.StartId() == Path(m, b)[m[p].span.end] == m[n].span.StartId();
      SameStart(m, root, p, c, n);
    }
  }

  lemma SameStart(m: Heap, root: Node, p: Node, a: Node, b: Node)
    requires Tree(m, root) && p in m && a in m[p].children && b in m[p].children
    requires Linked(m, p, a) && Linked(m, p, b)
    requires m[a].span.StartId() == m[b].span.StartId()
    ensures a == b
  {
    assert NodeOk(m, root, p);
    var i :| 0 <= i < |m[p].children| && m[p].children[i] == a;
    var j :| 0 <= j < |m[p].children| && m[p].children[j] == b;
  }

  /** The nodes above a node are the node itself and those above its parent. */
  lemma AboveParent(m: Heap, root: Node, n: Node, a: Node)
    requires Tree(m, root) && n in m && a in m && n != root && a != n && Path(m, a) <= Path(m, n)
    ensures m[n].parent in m && Path(m, a) <= Path(m, m[n].parent)
  {
    var p := ParentOf(m, root, n);
    if |Path(m, a)| > |Path(m, p)| {
      var c := ChildToward(m, root, p, a);
      OneWay(m, root, p, c, n, Path(m, n));
      UniquePath(m, root, a, n);
    }
  }

  /** The nodes at and below the path of `from`. */
  ghost function Under(m: Heap, from: Node): set<Node>
    requires SpansValid(m) && from in m
  {
    set n | n in m && Path(m, from) <= Path(m, n)
  }

  lemma UnderChild(m: Heap, root: Node, from: Node, c: Node)
    requires Tree(m, root) && from in m && c in m[from].children
    ensures c in m && Under(m, c) < Under(m, from)
  {
    assert NodeOk(m, root, from) && Linked(m, from, c);
    assert from in Under(m, from) && from !in Under(m, c);
    forall n | n in Under(m, c) ensures n in Under(m, from) {
      assert Path(m, from) <= Path(m, c) <= Path(m, n);
    }
  }

  ghost predicate Absent(m: Heap, from: Node, l: Ledger)
    requires SpansValid(m)
  {
    from in m ==> forall n :: n in Under(m, from) ==> Path(m, n) != l
  }

  /** A ledger found neither at a node nor below its children is nowhere below the node. */
  lemma NotUnder(m: Heap, root: Node, from: Node, l: Ledger)
    requires Tree(m, root) && from in m && Path(m, from) != l
    requires forall c :: c in m[from].children ==> Absent(m, c, l)
    ensures Absent(m, from, l)
  {
    forall n | n in Under(m, from) ensures Path(m, n) != l {
      if n != from {
        var c := ChildToward(m, root, from, n);
        assert n in Under(m, c);
      }
    }
  }

  lemma UnderRoot(m: Heap, root: Node)
    requires Tree(m, root)
    ensures Under(m, root) == m.Keys
  {
    forall n | n in m ensures Path(m, root) <= Path(m, n) {
      assert m[n].span.Valid();
    }
  }

  // ----- Supports -----

  ghost predicate HasNode(m: Heap, h: Ledger)
    requires SpansValid(m)
  {
    exists n :: n in m && Path(m, n) == h
  }

  /** The supports of the nodes are those of the validations `e`, and every validated ledger has its node. */
  ghost predicate Counts(m: Heap, e: multiset<Ledger>)
    requires SpansValid(m)
  {
    && (forall n {:trigger CountOk(m, e, n)} :: n in m ==> CountOk(m, e, n))
    && (forall h {:trigger HasNode(m, h)} :: h in e ==> HasNode(m, h))
  }

  ghost predicate CountOk(m: Heap, e: multiset<Ledger>, n: Node)
    requires SpansValid(m) && n in m
  {
    m[n].tip == e[Path(m, n)] && m[n].branch == Support(e, Path(m, n))
  }

  lemma NodeFor(m: Heap, e: multiset<Ledger>, h: Ledger) returns (n: Node)
    requires SpansValid(m) && Counts(m, e) && h in e
    ensures n in m && Path(m, n) == h
  {
    assert HasNode(m, h);
    n :| n in m && Path(m, n) == h;
  }

  /** No node but the root and `pending` could be dropped or merged with its only child. */
  ghost predicate Compressed(m: Heap, root: Node, pending: Node?) {
    forall n :: n in m && n != root && n != pending ==> m[n].tip > 0 || |m[n].children| >= 2
  }

  /** Support inside a span is the branch support of its node. */
  lemma SpanSupport(m: Heap, root: Node, e: multiset<Ledger>, n: Node, pos: nat)
    requires Tree(m, root) && Counts(m, e) && n in m && m[n].span.start < pos <= m[n].span.end
    ensures Support(e, Path(m, n)[..pos]) == m[n].branch
    ensures pos < m[n].span.end ==> e[Path(m, n)[..pos]] == 0
  {
    var q, p := Path(m, n)[..pos], Path(m, n);
    assert CountOk(m, e, n);
    forall h | h in e && q <= h ensures p <= h {
      var b := NodeFor(m, e, h);
      InsideSpan(m, root, n, pos, b);
    }
    SameSupport(e, q, p);
  }

  ghost predicate KnownPaths(m: Heap, history: Id -> Ledger)
    requires SpansValid(m)
  {
    forall n :: n in m ==> Known(history, Path(m, n))
  }

  /**
    The nodes are a trie over the validations `e`, compressed everywhere but
    perhaps at `pending`.
   */
  ghost predicate Represents(m: Heap, root: Node, history: Id -> Ledger, e: multiset<Ledger>, pending: Node?) {
    && Tree(m, root)
    && Counts(m, e)
    && Compressed(m, root, pending)
    && KnownPaths(m, history)
  }

  /** Position `pos` of node `loc` is where the trie and the ledger `l` part. */
  ghost predicate FoundAt(m: Heap, l: Ledger, loc: Node, pos: nat)
    requires SpansValid(m)
  {
    && loc in m
    && m[loc].span.start < pos <= m[loc].span.end && pos <= |l|
    && l[..pos] == Path(m, loc)[..pos]
    && (pos < m[loc].span.end && pos < |l| ==> l[pos] != Path(m, loc)[pos])
    && (pos == m[loc].span.end && pos < |l| ==>
          forall c :: c in m[loc].children ==> c in m && m[c].span.StartId() != l[pos])
  }
}
