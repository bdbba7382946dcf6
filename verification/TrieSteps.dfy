/**
  The steps that `insert` and `remove` are made of, as functions on
  snapshots, and what each of them keeps.
 */
module TrieSteps {
  import opened Histories
  import opened Spans
  import opened TrieShape

  // ----- Splitting a span -----

  /** Node `loc` keeps the part of its span before `pos`; `nn` takes over the rest and everything below it. */
  ghost predicate IsSplit(m: Heap, loc: Node, nn: Node, pos: nat, m': Heap)
    requires SpansValid(m) && loc in m
  {
    var was := m[loc];
    && was.span.start < pos < was.span.end
    && nn !in m && m'.Keys == m.Keys + {nn}
    && m'[nn] == Fields(Span(pos, was.span.end, was.span.ledger), was.tip, was.branch, was.children, loc)
    && m'[loc] == Fields(Span(was.span.start, pos, was.span.ledger), 0, was.branch, [nn], was.parent)
    && forall n :: n in m && n != loc ==> m'[n] == m[n].(parent := if m[n].parent == loc then nn else m[n].parent)
  }

  lemma SplitPaths(m: Heap, loc: Node, nn: Node, pos: nat, m': Heap)
    requires SpansValid(m) && loc in m && IsSplit(m, loc, nn, pos, m')
    ensures SpansValid(m')
    ensures Path(m', nn) == Path(m, loc) && Path(m', loc) == Path(m, loc)[..pos]
    ensures forall n :: n in m && n != loc ==> Path(m', n) == Path(m, n) && m'[n].span == m[n].span
  {
  }

  lemma SplitTree(m: Heap, root: Node, loc: Node, nn: Node, pos: nat, m': Heap)
    requires Tree(m, root) && loc in m && loc != root && IsSplit(m, loc, nn, pos, m')
    ensures Tree(m', root)
  {
    SplitPaths(m, loc, nn, pos, m');
    var p := ParentOf(m, root, loc);
    forall n | n in m' ensures NodeOk(m', root, n) {
      if n == nn {
        SplitTaker(m, root, loc, nn, pos, m');
      } else if n == loc {
        assert NodeOk(m', root, loc);
      } else {
        SplitOther(m, root, loc, nn, pos, m', n);
      }
    }
  }

  lemma SplitTaker(m: Heap, root: Node, loc: Node, nn: Node, pos: nat, m': Heap)
    requires SpansValid(m) && loc in m && NodeOk(m, root, loc) && IsSplit(m, loc, nn, pos, m') && root in m
    ensures SpansValid(m') && NodeOk(m', root, nn)
  {
    SplitPaths(m, loc, nn, pos, m');
    forall c | c in m'[nn].children ensures Linked(m', nn, c) {
      assert Linked(m, loc, c);
    }
    KeepStarts(m, m', m[loc].children);
  }

  lemma SplitOther(m: Heap, root: Node, loc: Node, nn: Node, pos: nat, m': Heap, n: Node)
    requires SpansValid(m) && loc in m && IsSplit(m, loc, nn, pos, m')
    requires n in m && n != loc && NodeOk(m, root, n)
    ensures SpansValid(m') && NodeOk(m', root, n)
  {
    SplitPaths(m, loc, nn, pos, m');
    forall c | c in m'[n].children ensures Linked(m', n, c) {
      assert Linked(m, n, c);
    }
    KeepStarts(m, m', m[n].children);
  }

  /** Children that keep the ids they start with keep them apart. */
  lemma KeepStarts(m: Heap, m': Heap, cs: seq<Node>)
    requires SpansValid(m) && SpansValid(m')
    requires forall c :: c in cs ==> c in m && c in m' && m'[c].span.StartId() == m[c].span.StartId()
    requires DistinctStarts(m, cs)
    ensures DistinctStarts(m', cs)
  {
    forall i, j | 0 <= i < j < |cs|
      ensures m'[cs[i]].span.StartId() != m'[cs[j]].span.StartId()
    {
      assert cs[i] in cs && cs[j] in cs;
    }
  }

  lemma SplitCounts(m: Heap, e: multiset<Ledger>, loc: Node, nn: Node, pos: nat, m': Heap)
    requires SpansValid(m) && Counts(m, e) && loc in m && IsSplit(m, loc, nn, pos, m')
    requires Support(e, Path(m, loc)[..pos]) == m[loc].branch && e[Path(m, loc)[..pos]] == 0
    ensures SpansValid(m') && Counts(m', e)
  {
    SplitPaths(m, loc, nn, pos, m');
    forall n | n in m' ensures CountOk(m', e, n) {
      assert CountOk(m, e, if n == nn then loc else n);
    }
    forall h | h in e ensures HasNode(m', h) {
      var n := NodeFor(m, e, h);
      assert Path(m', if n == loc then nn else n) == h;
    }
  }

  // ----- Hanging a new leaf -----

  ghost predicate IsAttach(m: Heap, loc: Node, nn: Node, l: Ledger, m': Heap)
    requires loc in m
  {
    && nn !in m && m'.Keys == m.Keys + {nn}
    && m'[nn] == Fields(Span(m[loc].span.end, |l|, l), 0, 0, [], loc)
    && m'[loc] == m[loc].(children := m[loc].children + [nn])
    && forall n :: n in m && n != loc ==> m'[n] == m[n]
  }

  lemma AttachPaths(m: Heap, loc: Node, nn: Node, l: Ledger, m': Heap)
    requires SpansValid(m) && loc in m && IsAttach(m, loc, nn, l, m') && IsLedger(l) && m[loc].span.end < |l|
    ensures SpansValid(m') && Path(m', nn) == l
    ensures forall n :: n in m ==> Path(m', n) == Path(m, n) && m'[n].span == m[n].span
  {
  }

  lemma AttachTree(m: Heap, root: Node, loc: Node, nn: Node, l: Ledger, m': Heap)
    requires Tree(m, root) && loc in m && IsAttach(m, loc, nn, l, m')
    requires Path(m, loc) <= l && m[loc].span.end < |l|
    requires forall c :: c in m[loc].children ==> c in m && m[c].span.StartId() != l[m[loc].span.end]
    ensures Tree(m', root)
  {
    AttachPaths(m, loc, nn, l, m');
    forall n | n in m' ensures NodeOk(m', root, n) {
      if n == nn {
        assert nn in m'[loc].children;
      } else {
        AttachOther(m, root, loc, nn, l, m', n);
      }
    }
  }

  lemma AttachOther(m: Heap, root: Node, loc: Node, nn: Node, l: Ledger, m': Heap, n: Node)
    requires SpansValid(m) && loc in m && IsAttach(m, loc, nn, l, m') && n in m && NodeOk(m, root, n)
    requires Path(m, loc) <= l && m[loc].span.end < |l|
    requires forall c :: c in m[loc].children ==> c in m && m[c].span.StartId() != l[m[loc].span.end]
    ensures SpansValid(m') && NodeOk(m', root, n)
  {
    AttachPaths(m, loc, nn, l, m');
    forall c | c in m[n].children ensures Linked(m', n, c) {
      assert Linked(m, n, c);
    }
    KeepStarts(m, m', m[n].children);
  }

  /** A ledger that no child of the node it branches off leads to has no support yet. */
  lemma NoSupport(m: Heap, root: Node, e: multiset<Ledger>, loc: Node, l: Ledger)
    requires Tree(m, root) && Counts(m, e) && loc in m
    requires Path(m, loc) <= l && m[loc].span.end < |l|
    requires forall c :: c in m[loc].children ==> c in m && m[c].span.StartId() != l[m[loc].span.end]
    ensures Support(e, l) == 0 && e[l] == 0
  {
    SupportWitness(e, l);
    forall h | h in e && l <= h ensures false {
      var b := NodeFor(m, e, h);
      var c := ChildToward(m, root, loc, b);
    }
    assert l <= l;
  }

  lemma AttachCounts(m: Heap, e: multiset<Ledger>, loc: Node, nn: Node, l: Ledger, m': Heap)
    requires SpansValid(m) && Counts(m, e) && loc in m && IsAttach(m, loc, nn, l, m')
    requires IsLedger(l) && m[loc].span.end < |l|
    requires Support(e, l) == 0 && e[l] == 0
    ensures SpansValid(m') && Counts(m', e)
  {
    AttachPaths(m, loc, nn, l, m');
    forall n | n in m' ensures CountOk(m', e, n) {
      assert n != nn ==> CountOk(m, e, n);
    }
    forall h | h in e ensures HasNode(m', h) {
      var n := NodeFor(m, e, h);
      assert Path(m', n) == h;
    }
  }

  // ----- Changing support along the path of a ledger -----

  ghost predicate SameShape(m: Heap, m': Heap) {
    && m.Keys == m'.Keys
    && forall n :: n in m ==> m'[n].span == m[n].span && m'[n].children == m[n].children && m'[n].parent == m[n].parent
  }

  lemma SameShapeTree(m: Heap, m': Heap, root: Node)
    requires Tree(m, root) && SameShape(m, m')
    ensures Tree(m', root)
    ensures forall n :: n in m ==> Path(m', n) == Path(m, n)
  {
    forall n | n in m' ensures NodeOk(m', root, n) {
      assert NodeOk(m, root, n);
      forall c | c in m'[n].children ensures Linked(m', n, c) {
        assert Linked(m, n, c);
      }
      KeepStarts(m, m', m[n].children);
    }
  }

  /** The heap after the support of `loc` changed by `delta`, along its whole path. */
  ghost predicate Bumped(m: Heap, loc: Node, delta: int, m': Heap)
    requires SpansValid(m) && loc in m
  {
    && SameShape(m, m')
    && forall n :: n in m ==>
         && m'[n].tip == m[n].tip + (if n == loc then delta else 0)
         && m'[n].branch == m[n].branch + (if Path(m, n) <= Path(m, loc) then delta else 0)
  }

  lemma BumpCounts(m: Heap, root: Node, e: multiset<Ledger>, loc: Node, count: nat, m': Heap)
    requires Tree(m, root) && Counts(m, e) && loc in m && Bumped(m, loc, count, m')
    ensures Tree(m', root) && Counts(m', e[Path(m, loc) := e[Path(m, loc)] + count])
  {
    SameShapeTree(m, m', root);
    var l := Path(m, loc);
    var e' := e[l := e[l] + count];
    forall n | n in m' ensures CountOk(m', e', n) {
      SupportOfMore(e, l, count, Path(m, n));
      if n != loc && Path(m, n) == l {
        UniquePath(m, root, n, loc);
      }
      assert CountOk(m, e, n);
    }
    forall h | h in e' ensures HasNode(m', h) {
      var n := loc;
      if h != l {
        n := NodeFor(m, e, h);
      }
      assert Path(m', n) == h;
    }
  }

  /** Taking support away again: `e` is what is left. */
  lemma UnbumpCounts(m: Heap, root: Node, e: multiset<Ledger>, loc: Node, count: nat, m': Heap)
    requires Tree(m, root) && SpansValid(m') && loc in m' && Bumped(m', loc, count, m)
    requires Counts(m, e[Path(m', loc) := e[Path(m', loc)] + count])
    ensures Tree(m', root) && Counts(m', e)
  {
    SameShapeTree(m, m', root);
    var l := Path(m', loc);
    forall n | n in m' ensures CountOk(m', e, n) {
      UnbumpCount(m, root, e, loc, count, m', n);
    }
    forall h | h in e ensures HasNode(m', h) {
      var n := NodeFor(m, e[l := e[l] + count], h);
      assert Path(m', n) == h;
    }
  }

  lemma UnbumpCount(m: Heap, root: Node, e: multiset<Ledger>, loc: Node, count: nat, m': Heap, n: Node)
    requires Tree(m', root) && loc in m' && n in m' && Bumped(m', loc, count, m)
    requires SpansValid(m) && CountOk(m, e[Path(m', loc) := e[Path(m', loc)] + count], n)
    ensures CountOk(m', e, n)
  {
    hide Support;
    var l := Path(m', loc);
    assert Path(m, n) == Path(m', n);
    SupportOfMore(e, l, count, Path(m', n));
    if n != loc && Path(m', n) == l {
      UniquePath(m', root, n, loc);
    }
  }

  // ----- Dropping a node, or joining it with its only child -----

  function IndexOf(cs: seq<Node>, c: Node): (i: nat)
    requires c in cs
    ensures i < |cs| && cs[i] == c
  {
    if cs[0] == c then 0 else 1 + IndexOf(cs[1..], c)
  }

  /** Swap with the last child, then drop the last. */
  function Erased(cs: seq<Node>, c: Node): seq<Node>
    requires c in cs
  {
    cs[IndexOf(cs, c) := cs[|cs| - 1]][..|cs| - 1]
  }

  /** One occurrence of the child goes, and nothing else. */
  lemma ErasedOne(cs: seq<Node>, c: Node)
    requires c in cs
    ensures multiset(Erased(cs, c)) == multiset(cs) - multiset{c}
  {
    var i, n := IndexOf(cs, c), |cs| - 1;
    var s := cs[i := cs[n]];
    assert s == s[..n] + [cs[n]];
    assert multiset(s) == multiset(cs) - multiset{c} + multiset{cs[n]};
    assert multiset(s) == multiset(s[..n]) + multiset{cs[n]};
    assert multiset(s[..n]) == multiset(s) - multiset{cs[n]};
  }

  lemma ErasedMembers(cs: seq<Node>, c: Node, x: Node)
    requires c in cs && forall i, j :: 0 <= i < j < |cs| ==> cs[i] != cs[j]
    ensures x in Erased(cs, c) <==> x in cs && x != c
  {
    var i, n := IndexOf(cs, c), |cs| - 1;
    var es := Erased(cs, c);
    if x in cs && x != c {
      var k :| 0 <= k < |cs| && cs[k] == x;
      assert es[if k == n then i else k] == x;
    }
  }

  lemma ErasedStarts(m: Heap, cs: seq<Node>, c: Node)
    requires SpansValid(m) && c in cs && (forall x :: x in cs ==> x in m) && DistinctStarts(m, cs)
    ensures forall x :: x in Erased(cs, c) <==> x in cs && x != c
    ensures DistinctStarts(m, Erased(cs, c))
  {
    forall x ensures x in Erased(cs, c) <==> x in cs && x != c {
      ErasedMembers(cs, c, x);
    }
  }

  ghost predicate IsErase(m: Heap, p: Node, loc: Node, m': Heap)
    requires p in m && loc in m[p].children
  {
    && p != loc && m'.Keys == m.Keys - {loc}
    && m'[p] == m[p].(children := Erased(m[p].children, loc))
    && forall n :: n in m && n != loc && n != p ==> m'[n] == m[n]
  }

  lemma EraseTree(m: Heap, root: Node, p: Node, loc: Node, m': Heap)
    requires Tree(m, root) && loc in m && loc != root && m[loc].parent == p && m[loc].children == []
    requires p in m && loc in m[p].children && IsErase(m, p, loc, m')
    ensures Tree(m', root)
  {
    assert SpansValid(m');
    forall n | n in m' ensures NodeOk(m', root, n) {
      assert NodeOk(m, root, p);
      ErasedStarts(m, m[p].children, loc);
      EraseOther(m, root, p, loc, m', n);
    }
  }

  lemma EraseOther(m: Heap, root: Node, p: Node, loc: Node, m': Heap, n: Node)
    requires SpansValid(m) && SpansValid(m') && loc in m && m[loc].parent == p && m[loc].children == []
    requires p in m && loc in m[p].children && IsErase(m, p, loc, m') && root in m && root != loc
    requires n in m' && NodeOk(m, root, n) && (forall x :: x in m[p].children ==> x in m)
    requires forall x :: x in Erased(m[p].children, loc) <==> x in m[p].children && x != loc
    requires DistinctStarts(m, Erased(m[p].children, loc))
    ensures NodeOk(m', root, n)
  {
    assert n != root ==> m[n].parent != loc;
    forall c | c in m'[n].children ensures Linked(m', n, c) {
      assert Linked(m, n, c);
    }
    KeepStarts(m, m', m'[n].children);
  }

  lemma EraseCounts(m: Heap, e: multiset<Ledger>, p: Node, loc: Node, m': Heap)
    requires SpansValid(m) && Counts(m, e) && p in m && loc in m[p].children && IsErase(m, p, loc, m')
    requires loc in m && m[loc].tip == 0
    ensures SpansValid(m') && Counts(m', e)
  {
    assert SpansValid(m');
    forall n | n in m' ensures CountOk(m', e, n) {
      assert CountOk(m, e, n);
    }
    assert CountOk(m, e, loc);
    forall h | h in e ensures HasNode(m', h) {
      var n := NodeFor(m, e, h);
      assert Path(m', n) == h;
    }
  }

  ghost predicate IsSplice(m: Heap, p: Node, loc: Node, c: Node, m': Heap)
    requires SpansValid(m) && p in m && loc in m && c in m && loc in m[p].children
  {
    && p != loc && c != loc && c != p && m'.Keys == m.Keys - {loc}
    && m'[p] == m[p].(children := Erased(m[p].children + [c], loc))
    && m'[c] == m[c].(span := Merge(m[loc].span, m[c].span), parent := p)
    && forall n :: n in m && n != loc && n != p && n != c ==> m'[n] == m[n]
  }

  lemma SplicePaths(m: Heap, p: Node, loc: Node, c: Node, m': Heap)
    requires SpansValid(m) && p in m && loc in m && c in m && loc in m[p].children && IsSplice(m, p, loc, c, m')
    requires Linked(m, loc, c)
    ensures SpansValid(m')
    ensures forall n :: n in m' ==> Path(m', n) == Path(m, n)
    ensures forall n :: n in m' && n != c ==> m'[n].span == m[n].span
    ensures m'[c].span.start == m[loc].span.start && m'[c].span.StartId() == m[loc].span.StartId()
  {
    assert m'[c].span.StartId() == Path(m, c)[m[loc].span.start];
    assert m[loc].span.StartId() == Path(m, loc)[m[loc].span.start];
  }

  lemma ErasedLast(cs: seq<Node>, loc: Node, c: Node)
    requires loc in cs
    ensures loc in cs + [c] && IndexOf(cs + [c], loc) < |cs|
    ensures Erased(cs + [c], loc) == cs[IndexOf(cs + [c], loc) := c]
    ensures c in Erased(cs + [c], loc)
    ensures forall x :: x in cs && x != loc ==> x in Erased(cs + [c], loc)
  {
    IndexInPrefix(cs, loc, c);
    var i, es := IndexOf(cs + [c], loc), Erased(cs + [c], loc);
    assert es[i] == c;
    forall x | x in cs && x != loc ensures x in es {
      var k :| 0 <= k < |cs| && cs[k] == x;
      assert es[k] == x;
    }
  }

  lemma IndexInPrefix(cs: seq<Node>, loc: Node, c: Node)
    requires loc in cs
    ensures IndexOf(cs + [c], loc) < |cs|
  {
    if cs[0] != loc {
      assert (cs + [c])[1..] == cs[1..] + [c];
    }
  }

  lemma SpliceTree(m: Heap, root: Node, p: Node, loc: Node, c: Node, m': Heap)
    requires Tree(m, root) && loc in m && loc != root && m[loc].parent == p && m[loc].children == [c]
    requires p in m && loc in m[p].children && c in m && IsSplice(m, p, loc, c, m')
    ensures Tree(m', root)
  {
    assert NodeOk(m, root, loc) && Linked(m, loc, c) && NodeOk(m, root, p) && Linked(m, p, loc);
    SplicePaths(m, p, loc, c, m');
    ErasedLast(m[p].children, loc, c);
    forall n | n in m' ensures NodeOk(m', root, n) {
      if n == p {
        SpliceParent(m, root, p, loc, c, m');
      } else {
        SpliceOther(m, root, p, loc, c, m', n);
      }
    }
  }

  /** The k-th child after a splice stands where the k-th stood before. */
  lemma SpliceChild(m: Heap, root: Node, p: Node, loc: Node, c: Node, m': Heap, k: nat)
    requires SpansValid(m) && loc in m && c in m && p in m && loc in m[p].children && IsSplice(m, p, loc, c, m')
    requires NodeOk(m, root, p) && Linked(m, loc, c) && m[loc].children == [c]
    requires k < |m'[p].children|
    ensures SpansValid(m') && |m'[p].children| == |m[p].children|
    ensures m[p].children[k] in m && Linked(m', p, m'[p].children[k])
    ensures m'[m'[p].children[k]].span.StartId() == m[m[p].children[k]].span.StartId()
  {
    SplicePaths(m, p, loc, c, m');
    var cs := m[p].children;
    ErasedLast(cs, loc, c);
    var i := IndexOf(cs + [c], loc);
    assert cs[k] in cs && Linked(m, p, cs[k]) && Linked(m, p, loc);
    hide Erased, IndexOf;
    if k != i {
      assert m[cs[k]].span.StartId() != m[cs[i]].span.StartId();
    }
  }

  lemma SpliceParent(m: Heap, root: Node, p: Node, loc: Node, c: Node, m': Heap)
    requires SpansValid(m) && loc in m && c in m && p in m && loc in m[p].children && IsSplice(m, p, loc, c, m')
    requires NodeOk(m, root, p) && Linked(m, loc, c) && m[loc].children == [c]
    ensures SpansValid(m') && NodeOk(m', root, p)
  {
    SplicePaths(m, p, loc, c, m');
    var es := m'[p].children;
    forall k | 0 <= k < |es|
      ensures |es| == |m[p].children| && m[p].children[k] in m && Linked(m', p, es[k])
      ensures m'[es[k]].span.StartId() == m[m[p].children[k]].span.StartId()
    {
      SpliceChild(m, root, p, loc, c, m', k);
    }
    if p != root {
      assert m[p].parent != loc;
    }
  }

  lemma SpliceOther(m: Heap, root: Node, p: Node, loc: Node, c: Node, m': Heap, n: Node)
    requires SpansValid(m) && loc in m && c in m && p in m && loc in m[p].children && IsSplice(m, p, loc, c, m')
    requires NodeOk(m, root, loc) && m[loc].children == [c] && Linked(m, loc, c) && Linked(m, p, loc)
    requires n in m' && n != p && NodeOk(m, root, n) && root != loc
    requires c in m'[p].children && forall x :: x in m[p].children && x != loc ==> x in m'[p].children
    ensures SpansValid(m') && NodeOk(m', root, n)
  {
    SplicePaths(m, p, loc, c, m');
    forall x | x in m'[n].children ensures Linked(m', n, x) {
      assert Linked(m, n, x);
    }
    KeepStarts(m, m', m'[n].children);
  }

  lemma SpliceCounts(m: Heap, e: multiset<Ledger>, p: Node, loc: Node, c: Node, m': Heap)
    requires SpansValid(m) && Counts(m, e) && p in m && loc in m && c in m && loc in m[p].children
    requires IsSplice(m, p, loc, c, m') && Linked(m, loc, c) && m[loc].tip == 0
    ensures SpansValid(m') && Counts(m', e)
  {
    SplicePaths(m, p, loc, c, m');
    forall n | n in m' ensures CountOk(m', e, n) {
      assert CountOk(m, e, n);
    }
    assert CountOk(m, e, loc);
    forall h | h in e ensures HasNode(m', h) {
      var n := NodeFor(m, e, h);
      assert Path(m', n) == h;
    }
  }

  // ----- What the steps keep, put together -----

  /** After the split, the two paths part between the shortened node and its only child. */
  lemma SplitFound(m: Heap, root: Node, l: Ledger, loc: Node, nn: Node, pos: nat, m': Heap)
    requires SpansValid(m) && loc in m && IsSplit(m, loc, nn, pos, m') && FoundAt(m, l, loc, pos)
    ensures SpansValid(m') && FoundAt(m', l, loc, pos)
    ensures m'[loc].span.end == pos && Path(m', loc) <= l
  {
    SplitPaths(m, loc, nn, pos, m');
    assert m'[nn].span.StartId() == Path(m, loc)[pos];
  }

  lemma SplitKeeps(m: Heap, root: Node, history: Id -> Ledger, e: multiset<Ledger>, l: Ledger, loc: Node, nn: Node,
                   pos: nat, m': Heap)
    requires Represents(m, root, history, e, null) && FoundAt(m, l, loc, pos) && IsSplit(m, loc, nn, pos, m')
    ensures Represents(m', root, history, e, loc) && FoundAt(m', l, loc, pos)
    ensures m'[loc].span.end == pos && Path(m', loc) <= l && loc != root && |m'[loc].children| == 1
  {
    hide NodeOk, CountOk, HasNode, Known;
    SpanSupport(m, root, e, loc, pos);
    SplitPaths(m, loc, nn, pos, m');
    SplitTree(m, root, loc, nn, pos, m');
    SplitCounts(m, e, loc, nn, pos, m');
    SplitFound(m, root, l, loc, nn, pos, m');
    KnownPrefix(history, Path(m, loc), pos);
  }

  lemma AttachKeeps(m: Heap, root: Node, history: Id -> Ledger, e: multiset<Ledger>, loc: Node, nn: Node, l: Ledger,
                    m': Heap)
    requires loc in m && Represents(m, root, history, e, loc) && Known(history, l) && IsAttach(m, loc, nn, l, m')
    requires FoundAt(m, l, loc, m[loc].span.end) && m[loc].span.end < |l|
    requires loc == root || m[loc].tip > 0 || |m[loc].children| >= 1
    ensures Represents(m', root, history, e, nn) && Path(m', nn) == l
  {
    hide NodeOk, CountOk, HasNode, Known;
    NoSupport(m, root, e, loc, l);
    AttachPaths(m, loc, nn, l, m');
    AttachTree(m, root, loc, nn, l, m');
    AttachCounts(m, e, loc, nn, l, m');
  }

  lemma BumpKeeps(m: Heap, root: Node, history: Id -> Ledger, e: multiset<Ledger>, loc: Node, count: nat, m': Heap)
    requires loc in m && Represents(m, root, history, e, loc) && Bumped(m, loc, count, m')
    ensures Represents(m', root, history, e[Path(m, loc) := e[Path(m, loc)] + count], if count > 0 then null else loc)
    ensures SpansValid(m') && Path(m', loc) == Path(m, loc)
  {
    BumpCounts(m, root, e, loc, count, m');
    SameShapeTree(m, m', root);
  }

  lemma UnbumpKeeps(m: Heap, root: Node, history: Id -> Ledger, e: multiset<Ledger>, loc: Node, l: Ledger, count: nat,
                    m': Heap)
    requires loc in m && Represents(m, root, history, e, null) && Bumped(m, loc, -(count as int), m')
    requires l == Path(m, loc) && count <= e[l]
    ensures Represents(m', root, history, e[l := e[l] - count], loc)
  {
    hide NodeOk, CountOk, HasNode, Known;
    SameShapeTree(m, m', root);
    var e' := e[l := e[l] - count];
    assert e == e'[l := e'[l] + count];
    assert Bumped(m', loc, count, m);
    UnbumpCounts(m, root, e', loc, count, m');
  }

  lemma EraseKeeps(m: Heap, root: Node, history: Id -> Ledger, e: multiset<Ledger>, p: Node, loc: Node, m': Heap)
    requires loc in m && loc != root && m[loc].parent == p && m[loc].children == [] && m[loc].tip == 0
    requires Represents(m, root, history, e, loc) && p in m && loc in m[p].children && IsErase(m, p, loc, m')
    ensures Represents(m', root, history, e, p)
  {
    hide NodeOk, CountOk, HasNode, Known;
    EraseTree(m, root, p, loc, m');
    EraseCounts(m, e, p, loc, m');
  }

  lemma SpliceKeeps(m: Heap, root: Node, history: Id -> Ledger, e: multiset<Ledger>, p: Node, loc: Node, c: Node,
                    m': Heap)
    requires loc in m && loc != root && m[loc].parent == p && m[loc].children == [c] && m[loc].tip == 0
    requires Represents(m, root, history, e, loc) && p in m && loc in m[p].children && c in m
    requires IsSplice(m, p, loc, c, m')
    ensures Represents(m', root, history, e, p)
  {
    hide NodeOk, CountOk, HasNode, Known;
    ChildrenAreLinked(m, root, loc);
    LinkedChild(m, root, loc, c);
    SplicePaths(m, p, loc, c, m');
    SpliceTree(m, root, p, loc, c, m');
    SpliceCounts(m, e, p, loc, c, m');
  }

  lemma LinkedChild(m: Heap, root: Node, p: Node, c: Node)
    requires Tree(m, root) && p in m && c in m[p].children
    ensures Linked(m, p, c)
  {
    assert NodeOk(m, root, p);
  }

  /** Every node above a validated ledger has at least its support. */
  lemma BranchCovers(m: Heap, root: Node, e: multiset<Ledger>, loc: Node, n: Node)
    requires Tree(m, root) && Counts(m, e) && loc in m && n in m && Path(m, n) <= Path(m, loc)
    ensures m[n].branch >= m[loc].tip
  {
    assert CountOk(m, e, loc) && CountOk(m, e, n);
    var l := Path(m, loc);
    SupportMonotone(e, Path(m, n), l);
    var w := WithPrefix(e, l);
    assert w == w[l := 0] + multiset{}[l := e[l]];
  }

  /** Where the lookup by id finds no node, there is no validation. */
  lemma AbsentUnsupported(m: Heap, root: Node, e: multiset<Ledger>, l: Ledger)
    requires Tree(m, root) && Counts(m, e) && Absent(m, root, l)
    ensures e[l] == 0
  {
    UnderRoot(m, root);
    if l in e {
      var n := NodeFor(m, e, l);
    }
  }
}
