/**
  The compressed ancestry trie of validated ledgers.

  `validations` is the multiset the trie stands for.  Every operation is
  specified on that multiset alone; `Valid` says how the linked nodes and the
  per-sequence counts represent it.
 */
module LedgerTries {
  import opened Collections
  import opened Histories
  import opened Spans
  import opened TrieShape
  import opened TrieSteps
  import opened TrieCanonical
  import opened TriePreferred
  import opened TrieInvariants

  lemma KeysAreNats(ks: seq<int>, ss: map<nat, nat>)
    requires IsOrder(ks, ss.Keys)
    ensures forall i :: 0 <= i < |ks| ==> ks[i] >= 0
  {
    forall i | 0 <= i < |ks| ensures ks[i] >= 0 {
      assert ks[i] in ks;
    }
  }

  /** Exactly the first `it` sequence numbers lie below `b`, and `uncommitted` is their support. */
  ghost predicate Passed(ks: seq<nat>, e: multiset<Ledger>, it: nat, b: nat, uncommitted: nat) {
    && it <= |ks|
    && (forall i :: 0 <= i < it ==> ks[i] < b)
    && (forall i :: it <= i < |ks| ==> b <= ks[i])
    && uncommitted == Uncommitted(e, b)
  }

  lemma PassOne(ks: seq<nat>, ss: map<nat, nat>, e: multiset<Ledger>, it: nat, b: nat, uncommitted: nat)
    requires IsOrder(ks, ss.Keys) && SeqCounts(ss, e) && Passed(ks, e, it, b, uncommitted) && it < |ks|
    ensures ks[it] in ss && Uncommitted(e, ks[it]) == uncommitted
    ensures Passed(ks, e, it + 1, ks[it] + 1, uncommitted + ss[ks[it]])
  {
    assert ks[it] in ks;
    forall t: nat | b <= t < ks[it] ensures t !in ss {
      if t in ss {
        KeyIsPlaced(ks, ss, t);
        assert false;
      }
    }
    UncommittedGap(ss, e, b, ks[it]);
    UncommittedNext(ss, e, b, ks[it]);
  }

  lemma KeyIsPlaced(ks: seq<nat>, ss: map<nat, nat>, t: nat)
    requires IsOrder(ks, ss.Keys) && t in ss
    ensures exists i :: 0 <= i < |ks| && ks[i] == t
  {
    assert t in ks;
  }

  lemma PassNone(ks: seq<nat>, ss: map<nat, nat>, e: multiset<Ledger>, it: nat, b: nat, c: nat, uncommitted: nat)
    requires IsOrder(ks, ss.Keys) && SeqCounts(ss, e) && Passed(ks, e, it, b, uncommitted)
    requires b <= c && (it < |ks| ==> c <= ks[it])
    ensures Passed(ks, e, it, c, uncommitted)
  {
    forall t: nat | b <= t < c ensures t !in ss {
      if t in ss {
        KeyIsPlaced(ks, ss, t);
        assert false;
      }
    }
    UncommittedGap(ss, e, b, c);
  }

  class LedgerTrie {
    var root: Node
    var seqSupport: map<nat, nat>

    ghost const history: Id -> Ledger
    ghost var nodes: set<Node>
    ghost var validations: multiset<Ledger>

    ghost predicate Valid()
      reads this, nodes
    {
      && Represents(Snapshot(nodes), root, history, validations, null)
      && SeqCounts(seqSupport, validations)
    }

    constructor (ghost h: Id -> Ledger)
      requires Known(h, [GENESIS])
      ensures Valid() && fresh(nodes)
      ensures validations == multiset{} && history == h
    {
      var r := new Node(Span(0, 1, [GENESIS]));
      root, nodes := r, {r};
      seqSupport := map[];
      validations := multiset{};
      history := h;
      new;
      ghost var m := Snapshot(nodes);
      assert Path(m, r) == [GENESIS];
      assert Support(multiset{}, [GENESIS]) == 0;
      assert NodeOk(m, root, r);
    }

    // ----- Looking up -----

    method Find(ledger: Ledger) returns (loc: Node, pos: nat)
      requires Tree(Snapshot(nodes), root) && IsLedger(ledger)
      ensures FoundAt(Snapshot(nodes), ledger, loc, pos)
    {
      ghost var m := Snapshot(nodes);
      loc := root;
      pos := loc.span.Diff(ledger);
      assert pos == 1 by {
        assert ledger[..0] == loc.span.ledger[..0];
      }
      var done := false;
      while !done && pos == loc.span.end
        invariant loc in nodes
        invariant loc.span.start < pos <= loc.span.end && pos <= |ledger|
        invariant ledger[..pos] == Path(m, loc)[..pos]
        invariant pos < loc.span.end && pos < |ledger| ==> ledger[pos] != Path(m, loc)[pos]
        invariant done ==> pos == loc.span.end
        invariant done && pos < |ledger| ==> forall c :: c in loc.children ==> c in m && m[c].span.StartId() != ledger[pos]
        decreases |ledger| - pos, !done
      {
        done := true;
        assert NodeOk(m, root, loc);
        var i := 0;
        while i < |loc.children|
          invariant 0 <= i <= |loc.children|
          invariant pos < |ledger| ==> forall k :: 0 <= k < i ==>
                      loc.children[k] in m && m[loc.children[k]].span.StartId() != ledger[pos]
        {
          var child := loc.children[i];
          assert Linked(m, loc, child);
          var childPos := child.span.Diff(ledger);
          if childPos > pos {
            done := false;
            pos := childPos;
            loc := child;
            break;
          }
          assert ledger[..pos] == child.span.ledger[..pos];
          i := i + 1;
        }
      }
    }

    method FindByLedgerId(ledger: Ledger, from: Node) returns (loc: Node?)
      requires Tree(Snapshot(nodes), root) && KnownPaths(Snapshot(nodes), history)
      requires Known(history, ledger) && from in nodes
      ensures loc != null ==> loc in nodes && Path(Snapshot(nodes), loc) == ledger
      ensures loc == null ==> Absent(Snapshot(nodes), from, ledger)
      decreases Under(Snapshot(nodes), from)
    {
      ghost var m := Snapshot(nodes);
      assert m[from].span.Valid();
      if ledger[|ledger| - 1] == from.span.Tip().id {
        SameId(history, ledger, Path(m, from));
        return from;
      }
      var i := 0;
      while i < |from.children|
        invariant 0 <= i <= |from.children|
        invariant forall k :: 0 <= k < i ==> Absent(m, from.children[k], ledger)
      {
        UnderChild(m, root, from, from.children[i]);
        loc := FindByLedgerId(ledger, from.children[i]);
        if loc != null {
          return;
        }
        i := i + 1;
      }
      NotUnder(m, root, from, ledger);
      return null;
    }

    // ----- Steps of insertion and removal -----

    static method Reparent(cs: seq<Node>, p: Node)
      modifies (set c | c in cs)`parent
      ensures forall c :: c in cs ==> c.parent == p
    {
      for i := 0 to |cs|
        invariant forall k :: 0 <= k < i ==> cs[k].parent == p
      {
        cs[i].parent := p;
      }
    }

    /** A new node takes over the supports and the children of `loc`. */
    static method TakeOver(loc: Node, oldSuffix: Span, ghost ns: set<Node>, ghost m: Heap) returns (nn: Node)
      requires m == Snapshot(ns) && loc in m
      requires forall c :: c in m[loc].children ==> c in m && c != loc
      modifies ns
      ensures fresh(nn)
      ensures nn.span == oldSuffix && nn.tipSupport == m[loc].tip && nn.branchSupport == m[loc].branch
      ensures nn.children == m[loc].children
      ensures TakenOver(m, loc, nn, Snapshot(ns))
    {
      nn := new Node(oldSuffix);
      nn.tipSupport := loc.tipSupport;
      nn.branchSupport := loc.branchSupport;
      nn.children := loc.children;
      loc.children := [];
      Reparent(nn.children, nn);
    }

    /** A new node takes over the old suffix of `loc`, its supports and its children. */
    method SplitSpan(loc: Node, prefix: Span, oldSuffix: Span, ghost pos: nat) returns (nn: Node)
      requires Tree(Snapshot(nodes), root) && loc in nodes && loc != root
      requires loc.span.start < pos < loc.span.end
      requires prefix == Span(loc.span.start, pos, loc.span.ledger)
      requires oldSuffix == Span(pos, loc.span.end, loc.span.ledger)
      modifies this`nodes, nodes
      ensures fresh(nn) && nodes == old(nodes) + {nn}
      ensures IsSplit(old(Snapshot(nodes)), loc, nn, pos, Snapshot(nodes))
    {
      hide Tree, TakenOver, IsSplit;
      ghost var m := Snapshot(nodes);
      ChildrenAreLinked(m, root, loc);
      nn := TakeOver(loc, oldSuffix, nodes, m);
      ghost var m1 := Snapshot(nodes);
      loc.span := prefix;
      nn.parent := loc;
      loc.children := loc.children + [nn];
      loc.tipSupport := 0;
      nodes := nodes + {nn};
      SplitInSteps(m, root, loc, nn, pos, m1, Snapshot(nodes));
    }

    /** A new leaf for the part of `ledger` beyond `loc`, without support yet. */
    method HangLeaf(loc: Node, newSuffix: Span, ghost ledger: Ledger) returns (nn: Node)
      requires loc in nodes && newSuffix == Span(loc.span.end, |ledger|, ledger)
      modifies this`nodes, loc
      ensures fresh(nn) && nodes == old(nodes) + {nn}
      ensures IsAttach(old(Snapshot(nodes)), loc, nn, ledger, Snapshot(nodes))
    {
      nn := new Node(newSuffix);
      nn.parent := loc;
      loc.children := loc.children + [nn];
      nodes := nodes + {nn};
    }

    /** Walk up the parents of `from`, changing branch support. */
    method AdjustBranch(from: Node, delta: int, ghost m: Heap)
      requires m == Snapshot(nodes) && Tree(m, root) && from in nodes
      requires forall n :: n in m && Path(m, n) <= Path(m, from) ==> m[n].branch + delta >= 0
      modifies nodes`branchSupport
      ensures BranchesMoved(m, from, delta, Snapshot(nodes))
    {
      var cur: Node? := from;
      while cur != null
        invariant cur != null ==> cur in nodes && Path(m, cur) <= Path(m, from)
        invariant forall n :: n in m ==>
                    n.branchSupport == m[n].branch
                      + if Path(m, n) <= Path(m, from) && (cur == null || |Path(m, n)| > |Path(m, cur)|) then delta else 0
        decreases if cur == null then 0 else 1 + |Path(m, cur)|
      {
        AboveCursor(m, root, from, cur);
        cur.branchSupport := cur.branchSupport + delta;
        cur := cur.parent;
      }
    }

    /** Split `loc` where the ledger parts from it, unless that is at its end. */
    method PartAt(loc: Node, ledger: Ledger, diffSeq: nat)
      requires Represents(Snapshot(nodes), root, history, validations, null)
      requires FoundAt(Snapshot(nodes), ledger, loc, diffSeq)
      modifies this`nodes, nodes
      ensures nodes >= old(nodes) && fresh(nodes - old(nodes))
      ensures Represents(Snapshot(nodes), root, history, validations, loc) && FoundAt(Snapshot(nodes), ledger, loc, diffSeq)
      ensures loc.span.end == diffSeq && (loc == root || loc.tipSupport > 0 || |loc.children| >= 1)
    {
      hide NodeOk, Counts, KnownPaths, IsSplit;
      var prefix := loc.span.Before(diffSeq);
      var oldSuffix := loc.span.From(diffSeq);
      if oldSuffix.Some? {
        ghost var m := Snapshot(nodes);
        var nn := SplitSpan(loc, prefix.value, oldSuffix.value, diffSeq);
        SplitKeeps(m, root, history, validations, ledger, loc, nn, diffSeq, Snapshot(nodes));
      }
    }

    /** Hang a leaf for the rest of the ledger, if there is any. */
    method HangAt(loc: Node, ledger: Ledger, diffSeq: nat) returns (incNode: Node)
      requires Represents(Snapshot(nodes), root, history, validations, loc) && Known(history, ledger)
      requires FoundAt(Snapshot(nodes), ledger, loc, diffSeq) && loc.span.end == diffSeq
      requires loc == root || loc.tipSupport > 0 || |loc.children| >= 1
      modifies this`nodes, nodes
      ensures nodes >= old(nodes) && fresh(nodes - old(nodes)) && incNode in nodes && incNode in Snapshot(nodes)
      ensures Represents(Snapshot(nodes), root, history, validations, incNode)
      ensures Path(Snapshot(nodes), incNode) == ledger
    {
      hide NodeOk, Counts, KnownPaths, Compressed, IsAttach;
      ghost var m := Snapshot(nodes);
      incNode := loc;
      var newSuffix := Whole(ledger).From(diffSeq);
      if newSuffix.Some? {
        incNode := HangLeaf(loc, newSuffix.value, ledger);
        AttachKeeps(m, root, history, validations, loc, incNode, ledger, Snapshot(nodes));
      }
    }

    /** Make a node for `ledger` if there is none: split the span it parts from, then hang a leaf. */
    method Place(ledger: Ledger) returns (incNode: Node)
      requires Represents(Snapshot(nodes), root, history, validations, null) && Known(history, ledger)
      modifies this`nodes, nodes
      ensures fresh(nodes - old(nodes)) && incNode in nodes && incNode in Snapshot(nodes)
      ensures Tree(Snapshot(nodes), root) && Represents(Snapshot(nodes), root, history, validations, incNode)
      ensures Path(Snapshot(nodes), incNode) == ledger
    {
      hide NodeOk, Counts, KnownPaths, Compressed, FoundAt, Path, Snapshot;
      var loc, diffSeq := Find(ledger);
      PartAt(loc, ledger, diffSeq);
      incNode := HangAt(loc, ledger, diffSeq);
    }

    /** Change the tip support of a node and the branch support of everything above it. */
    method MoveSupport(loc: Node, delta: int, ghost m: Heap)
      requires m == Snapshot(nodes) && Tree(m, root) && loc in nodes && loc.tipSupport + delta >= 0
      requires forall n :: n in m && Path(m, n) <= Path(m, loc) ==> m[n].branch + delta >= 0
      modifies nodes
      ensures Bumped(m, loc, delta, Snapshot(nodes)) && loc in Snapshot(nodes)
    {
      hide Tree, Path, BranchesMoved, Bumped;
      loc.tipSupport := loc.tipSupport + delta;
      ghost var m1 := Snapshot(nodes);
      assert m1 == m[loc := m[loc].(tip := m[loc].tip + delta)];
      TipMoved(m, root, loc, delta, m1);
      AdjustBranch(loc, delta, m1);
      BumpedInSteps(m, loc, delta, m1, Snapshot(nodes));
    }

    /**
      Count `count` more validations for `ledger`.  Only when nothing is added
      can this leave an entry that stands for no validation: a node that should
      be merged or dropped, or a sequence number without support.
     */
    method Insert(ledger: Ledger, count: nat)
      requires Valid() && Known(history, ledger)
      modifies this, nodes
      ensures fresh(nodes - old(nodes)) && root == old(root)
      ensures validations == old(validations)[ledger := old(validations)[ledger] + count]
      ensures Valid() <==> (count > 0 || Tracked(old(validations), ledger))
    {
      hide Represents, Tree, SeqCounts, Bumped, Tracked, AtSeq, SpansValid, Path, Snapshot;
      MoreSeqCounts(seqSupport, validations, ledger, count);
      var incNode := Place(ledger);
      ghost var m := Snapshot(nodes);
      MoveSupport(incNode, count, m);
      ghost var m1 := Snapshot(nodes);
      BumpKeeps(m, root, history, validations, incNode, count, m1);
      var s := SeqOf(ledger);
      seqSupport := seqSupport[s := (if s in seqSupport then seqSupport[s] else 0) + count];
      validations := validations[ledger := validations[ledger] + count];
      assert Snapshot(nodes) == m1;
      ValidIff(m1, root, history, old(validations), ledger, count, incNode, seqSupport);
    }

    /** There is branch support to take wherever there is tip support below. */
    method TakeSupport(loc: Node, count: nat, ghost m: Heap)
      requires m == Snapshot(nodes) && Tree(m, root) && Counts(m, validations) && loc in nodes && count <= loc.tipSupport
      modifies nodes
      ensures Bumped(m, loc, -(count as int), Snapshot(nodes))
    {
      hide Tree, Counts, Path, Bumped, SpansValid;
      BranchesCover(m, root, validations, loc);
      MoveSupport(loc, -(count as int), m);
    }

    /** Remove a child: swap it with the last one, then drop the last. */
    static method EraseChild(p: Node, c: Node)
      requires c in p.children
      modifies p`children
      ensures p.children == Erased(old(p.children), c)
    {
      var i := IndexOf(p.children, c);
      var last := |p.children| - 1;
      p.children := p.children[i := p.children[last]];
      p.children := p.children[..last];
    }

    /** Drop a node without children. */
    method DropLeaf(p: Node, loc: Node)
      requires p in nodes && loc in nodes && p != loc && loc in p.children
      modifies this`nodes, p`children
      ensures nodes == old(nodes) - {loc}
      ensures IsErase(old(Snapshot(nodes)), p, loc, Snapshot(nodes))
    {
      EraseChild(p, loc);
      nodes := nodes - {loc};
    }

    /** Combine a node with its only child. */
    method JoinChild(p: Node, loc: Node, child: Node)
      requires p in nodes && loc in nodes && child in nodes && p != loc && p != child && child != loc
      requires SpansValid(Snapshot(nodes)) && loc in p.children
      modifies this`nodes, p`children, child`span, child`parent
      ensures nodes == old(nodes) - {loc}
      ensures IsSplice(old(Snapshot(nodes)), p, loc, child, Snapshot(nodes))
    {
      ghost var m := Snapshot(nodes);
      assert m[loc].span.Valid() && m[child].span.Valid();
      child.span := Merge(loc.span, child.span);
      child.parent := p;
      p.children := p.children + [child];
      EraseChild(p, loc);
      nodes := nodes - {loc};
    }

    /** Starting at `from`, drop or merge nodes that have no tip support of their own. */
    method Compress(from: Node)
      requires from in nodes && Represents(Snapshot(nodes), root, history, validations, from)
      modifies this`nodes, nodes
      ensures Represents(Snapshot(nodes), root, history, validations, null) && nodes <= old(nodes)
    {
      hide NodeOk, Counts, KnownPaths, Compressed, IsErase, IsSplice;
      var loc := from;
      while loc.tipSupport == 0 && loc != root
        invariant loc in nodes && nodes <= old(nodes)
        invariant Represents(Snapshot(nodes), root, history, validations, loc)
        decreases loc.span.end
      {
        ghost var m := Snapshot(nodes);
        ghost var q := ParentOf(m, root, loc);
        var parent: Node := loc.parent;
        if loc.children == [] {
          DropLeaf(parent, loc);
          EraseKeeps(m, root, history, validations, parent, loc, Snapshot(nodes));
        } else if |loc.children| == 1 {
          var child := loc.children[0];
          OnlyChild(m, root, parent, loc, child);
          JoinChild(parent, loc, child);
          SpliceKeeps(m, root, history, validations, parent, loc, child, Snapshot(nodes));
        } else {
          break;
        }
        loc := parent;
      }
      NodeNeeded(Snapshot(nodes), root, history, validations, loc);
    }

    /** Count up to `count` fewer validations for `ledger`. */
    method Remove(ledger: Ledger, count: nat) returns (removed: bool)
      requires Valid() && Known(history, ledger)
      modifies this, nodes
      ensures Valid() && nodes <= old(nodes) && root == old(root)
      ensures removed <==> old(validations)[ledger] > 0
      ensures validations == old(validations)[ledger := old(validations)[ledger] - Min(count, old(validations)[ledger])]
    {
      hide NodeOk, SeqCounts, Known;
      ghost var m := Snapshot(nodes);
      var loc := FindByLedgerId(ledger, root);
      TipOf(m, root, validations, ledger, loc);
      if loc == null || loc.tipSupport == 0 {
        assert validations == validations[ledger := 0];
        return false;
      }
      TakeAt(loc, ledger, Min(count, loc.tipSupport));
      return true;
    }

    /** The rest of removal, once the node of `ledger` is known. */
    method TakeAt(loc: Node, ledger: Ledger, count: nat)
      requires Valid() && Known(history, ledger)
      requires loc in nodes && Path(Snapshot(nodes), loc) == ledger
      requires count <= loc.tipSupport == validations[ledger] && loc.tipSupport > 0
      modifies this, nodes
      ensures Valid() && nodes <= old(nodes) && root == old(root)
      ensures validations == old(validations)[ledger := old(validations)[ledger] - count]
    {
      hide Tree, SeqCounts, Bumped, Counts, Compressed, KnownPaths;
      ghost var m := Snapshot(nodes);
      LessSeqCounts(seqSupport, validations, ledger, count);
      TakeSupport(loc, count, m);
      UnbumpKeeps(m, root, history, validations, loc, ledger, count, Snapshot(nodes));
      var s := SeqOf(ledger);
      seqSupport := if seqSupport[s] == count then seqSupport - {s} else seqSupport[s := seqSupport[s] - count];
      validations := validations[ledger := validations[ledger] - count];
      Compress(loc);
    }

    // ----- Queries -----

    method TipSupport(ledger: Ledger) returns (n: nat)
      requires Valid() && Known(history, ledger)
      ensures n == validations[ledger]
    {
      hide NodeOk, Known, SeqCounts;
      var loc := FindByLedgerId(ledger, root);
      TipOf(Snapshot(nodes), root, validations, ledger, loc);
      n := if loc == null then 0 else loc.tipSupport;
    }

    method BranchSupport(ledger: Ledger) returns (n: nat)
      requires Valid() && Known(history, ledger)
      ensures n == Support(validations, ledger)
    {
      hide NodeOk, SeqCounts, Compressed, Support;
      ghost var m := Snapshot(nodes);
      var loc := FindByLedgerId(ledger, root);
      if loc == null {
        var diffSeq;
        loc, diffSeq := Find(ledger);
        SupportWhereFound(m, root, validations, ledger, loc, diffSeq);
        if !(diffSeq > SeqOf(ledger) && SeqOf(ledger) < loc.span.end) {
          loc := null;
        }
      } else {
        assert CountOk(m, validations, loc);
      }
      n := if loc == null then 0 else loc.branchSupport;
    }

    /** Count as uncommitted everything below sequence number `bound`. */
    method PassBelow(bound: nat, ks: seq<nat>, it0: nat, uncommitted0: nat, ghost b0: nat)
      returns (it: nat, uncommitted: nat)
      requires SeqCounts(seqSupport, validations) && IsOrder(ks, seqSupport.Keys)
      requires Passed(ks, validations, it0, b0, uncommitted0) && b0 <= bound
      ensures Passed(ks, validations, it, bound, uncommitted)
    {
      hide SeqCounts, Uncommitted;
      it, uncommitted := it0, uncommitted0;
      ghost var b: nat := b0;
      while it < |ks| && ks[it] < bound
        invariant Passed(ks, validations, it, b, uncommitted) && b <= bound
        decreases |ks| - it
      {
        PassOne(ks, seqSupport, validations, it, b, uncommitted);
        b := ks[it] + 1;
        uncommitted, it := uncommitted + seqSupport[ks[it]], it + 1;
      }
      PassNone(ks, seqSupport, validations, it, b, bound, uncommitted);
    }

    /**
      Follow the span of `curr` as far as its branch support exceeds the
      uncommitted support, jumping from one change of the uncommitted support
      to the next.
     */
    method Advance(curr: Node, issued: nat, ks: seq<nat>, it0: nat, uncommitted0: nat, ghost b0: nat)
      returns (nextSeq: nat, it: nat, uncommitted: nat)
      requires Valid() && curr in nodes && curr.span.Valid() && IsOrder(ks, seqSupport.Keys)
      requires Passed(ks, validations, it0, b0, uncommitted0) && b0 <= Max(curr.span.start + 1, issued)
      ensures curr.span.start < nextSeq <= curr.span.end
      ensures Passed(ks, validations, it, Max(nextSeq, issued), uncommitted)
      ensures nextSeq < curr.span.end ==> curr.branchSupport <= uncommitted
      ensures Walk(validations, issued, StartOf(curr.span)) == Walk(validations, issued, curr.span.Path()[..nextSeq])
    {
      hide NodeOk, Counts, KnownPaths, Compressed, SeqCounts, IsOrder, Walk, Uncommitted;
      ghost var m := Snapshot(nodes);
      assert m[curr].span.Valid();
      nextSeq := curr.span.start + 1;
      it, uncommitted := PassBelow(Max(nextSeq, issued), ks, it0, uncommitted0, b0);
      while nextSeq < curr.span.end && curr.branchSupport > uncommitted
        invariant curr.span.start < nextSeq <= curr.span.end
        invariant Passed(ks, validations, it, Max(nextSeq, issued), uncommitted)
        invariant Walk(validations, issued, Path(m, curr)[..curr.span.start + 1])
                  == Walk(validations, issued, Path(m, curr)[..nextSeq])
        decreases curr.span.end - nextSeq
      {
        ghost var prev := nextSeq;
        if it < |ks| && ks[it] < curr.span.end {
          PassOne(ks, seqSupport, validations, it, Max(nextSeq, issued), uncommitted);
          nextSeq := ks[it] + 1;
          uncommitted, it := uncommitted + seqSupport[ks[it]], it + 1;
        } else {
          nextSeq := curr.span.end;
          PassNone(ks, seqSupport, validations, it, Max(prev, issued), Max(nextSeq, issued), uncommitted);
          UncommittedMonotone(validations, Max(nextSeq - 1, issued), Max(nextSeq, issued));
        }
        WalkAlong(m, root, validations, issued, curr, prev, nextSeq);
      }
    }

    static method FindForemost(cs: seq<Node>, from: nat) returns (best: nat)
      requires from < |cs| && SiblingsOk(cs)
      ensures from <= best < |cs|
      ensures forall i :: from <= i < |cs| && i != best ==> Foremost(cs[best], cs[i])
    {
      best := from;
      for j := from + 1 to |cs|
        invariant from <= best < j
        invariant forall i :: from <= i < j && i != best ==> Foremost(cs[best], cs[i])
      {
        assert cs[best].span.StartId() != cs[j].span.StartId();
        if Foremost(cs[j], cs[best]) {
          best := j;
        }
      }
    }

    /** Move the foremost of the children from position `from` on to that position. */
    static method SelectFront(n: Node, from: nat)
      requires from < |n.children| && SiblingsOk(n.children)
      modifies n`children
      ensures multiset(n.children) == old(multiset(n.children)) && |n.children| == |old(n.children)|
      ensures n.children[..from] == old(n.children)[..from]
      ensures SiblingsOk(n.children)
      ensures forall j :: from < j < |n.children| ==> Foremost(n.children[from], n.children[j])
    {
      hide Foremost;
      var cs := n.children;
      var best := FindForemost(cs, from);
      SwapKeeps(cs, from, best);
      var swapped := cs[from := cs[best]][best := cs[from]];
      SwapSiblings(cs, from, best, swapped);
      n.children := swapped;
    }

    /** The two foremost children go first; the order of the others is unspecified. */
    static method PartialSort(n: Node)
      requires |n.children| >= 2 && SiblingsOk(n.children)
      modifies n`children
      ensures multiset(n.children) == old(multiset(n.children)) && |n.children| == |old(n.children)|
      ensures SiblingsOk(n.children)
      ensures forall j :: 0 < j < |n.children| ==> Foremost(n.children[0], n.children[j])
      ensures forall j :: 1 < j < |n.children| ==> Foremost(n.children[1], n.children[j])
    {
      SelectFront(n, 0);
      ghost var cs := n.children;
      SelectFront(n, 1);
      assert n.children[0] == n.children[..1][0] == cs[0];
      ReorderMembers(cs, n.children);
      forall j | 0 < j < |n.children| ensures Foremost(n.children[0], n.children[j]) {
        assert n.children[j] in cs;
        var k :| 0 <= k < |cs| && cs[k] == n.children[j];
        assert n.children[0].span.StartId() != n.children[j].span.StartId();
      }
    }

    /** Sort the foremost two children of `curr` to the front. */
    method SortChildren(curr: Node)
      requires Valid() && curr in nodes && |curr.children| >= 2
      modifies curr`children
      ensures Valid() && multiset(curr.children) == old(multiset(curr.children)) && |curr.children| >= 2
      ensures Leads(Snapshot(nodes), curr, curr.children[0])
      ensures Second(Snapshot(nodes), curr, curr.children[0], curr.children[1])
    {
      hide NodeOk, Counts, Compressed, KnownPaths, SeqCounts;
      ghost var m := Snapshot(nodes);
      SiblingFacts(m, root, curr);
      PartialSort(curr);
      ReorderKeeps(m, root, history, validations, curr, Snapshot(nodes));
      ReorderMembers(m[curr].children, curr.children);
      SortedFacts(curr);
    }

    lemma SortedFacts(curr: Node)
      requires SpansValid(Snapshot(nodes)) && curr in nodes && |curr.children| >= 2
      requires (forall c :: c in curr.children ==> c in nodes) && SiblingsOk(curr.children)
      requires forall j :: 0 < j < |curr.children| ==> Foremost(curr.children[0], curr.children[j])
      requires forall j :: 1 < j < |curr.children| ==> Foremost(curr.children[1], curr.children[j])
      ensures Leads(Snapshot(nodes), curr, curr.children[0])
      ensures Second(Snapshot(nodes), curr, curr.children[0], curr.children[1])
    {
    }

    /** The leading child of `curr` and its margin. */
    method PickBest(curr: Node) returns (best: Node?, margin: nat)
      requires Valid() && curr in nodes
      modifies curr`children
      ensures Valid()
      ensures best == null <==> curr.children == []
      ensures best != null ==>
                var m := Snapshot(nodes);
                && best in curr.children && Linked(m, curr, best) && best.branchSupport > 0
                && IsBest(validations, Path(m, curr), best.span.StartId())
                && Margin(validations, Path(m, curr), best.span.StartId()) == margin > 0
    {
      hide NodeOk, Counts, Compressed, KnownPaths, SeqCounts, Margin, IsBest;
      best, margin := null, 0;
      if |curr.children| == 1 {
        best := curr.children[0];
        margin := best.branchSupport;
        assert curr.children == [best];
        ghost var m := Snapshot(nodes);
        ChildSupport(m, root, validations, curr, best);
        LeaderMargin(m, root, validations, curr, best, margin);
      } else if curr.children != [] {
        SortChildren(curr);
        ghost var m := Snapshot(nodes);
        best := curr.children[0];
        var next := curr.children[1];
        ChildSupport(m, root, validations, curr, best);
        assert m[best].span.Valid() && m[next].span.Valid();
        margin := best.branchSupport - next.branchSupport;
        if best.span.StartId() > next.span.StartId() {
          margin := margin + 1;
        }
        LeaderMargin(m, root, validations, curr, best, margin);
      }
    }

    predicate Empty()
      reads this, root
    {
      root.branchSupport == 0
    }

    /**
      One turn of the search for the preferred ledger: follow the span of
      `curr`, then either stop or move on to its leading child.
     */
    method Descend(curr: Node, issued: nat, ks: seq<nat>, it0: nat, uncommitted0: nat, ghost b0: nat)
      returns (r: Option<SpanTip>, next: Node, it: nat, uncommitted: nat, ghost b: nat)
      requires Valid() && curr in nodes && curr.span.Valid() && IsOrder(ks, seqSupport.Keys)
      requires Passed(ks, validations, it0, b0, uncommitted0) && b0 <= Max(curr.span.start + 1, issued)
      modifies curr`children
      ensures Valid()
      ensures r.Some? ==> TipIs(r.value, Walk(validations, issued, StartOf(curr.span)))
      ensures r.None? ==>
                && next in nodes && next.span.Valid() && curr.span.end < next.span.end <= Longest(validations)
                && Passed(ks, validations, it, b, uncommitted) && b <= Max(next.span.start + 1, issued)
                && Walk(validations, issued, StartOf(curr.span)) == Walk(validations, issued, StartOf(next.span))
    {
      hide NodeOk, Counts, Compressed, KnownPaths, SeqCounts, IsOrder, Walk, Uncommitted, StartOf, Longest, TipIs;
      ghost var m := Snapshot(nodes);
      next := curr;
      var nextSeq;
      nextSeq, it, uncommitted := Advance(curr, issued, ks, it0, uncommitted0, b0);
      b := Max(nextSeq, issued);
      if nextSeq < curr.span.end {
        WalkStopsInside(m, root, validations, issued, curr, nextSeq);
        TipInside(curr.span, nextSeq);
        return Some(curr.span.Before(nextSeq).value.Tip()), next, it, uncommitted, b;
      }
      assert curr.span.Path()[..nextSeq] == curr.span.Path();
      TipAtEnd(curr.span);
      var best := MoveOn(curr, issued, uncommitted);
      if best != null {
        return None, best, it, uncommitted, b;
      }
      return Some(curr.span.Tip()), next, it, uncommitted, b;
    }

    /** From the end of the span of `curr`: the child to continue with, or null if `curr` is the best. */
    method MoveOn(curr: Node, issued: nat, uncommitted: nat) returns (next: Node?)
      requires Valid() && curr in nodes && curr.span.Valid()
      requires uncommitted == Uncommitted(validations, Max(curr.span.end, issued))
      modifies curr`children
      ensures Valid()
      ensures next == null ==> Walk(validations, issued, curr.span.Path()) == curr.span.Path()
      ensures next != null ==>
                && next in nodes && next.span.Valid()
                && curr.span.end == next.span.start && next.span.end <= Longest(validations)
                && Walk(validations, issued, curr.span.Path()) == Walk(validations, issued, StartOf(next.span))
    {
      hide NodeOk, Counts, Compressed, KnownPaths, SeqCounts, Margin, IsBest, Walk, Uncommitted;
      var best, margin := PickBest(curr);
      ghost var m := Snapshot(nodes);
      if best == null {
        WalkStopsAtLeaf(m, root, validations, issued, curr);
        return null;
      }
      WalkToChild(m, root, validations, issued, curr, best, margin);
      WithinLongest(m, root, validations, best);
      if margin > uncommitted || uncommitted == 0 {
        return best;
      }
      return null;
    }

    /**
      The preferred ledger.  It is the one the plain vote walks to; the jumps
      along spans and the order of children make no difference to it.
     */
    method GetPreferred(largestIssued: nat) returns (r: Option<SpanTip>)
      requires Valid()
      modifies nodes`children
      ensures Valid()
      ensures r.None? <==> validations == multiset{}
      ensures r.Some? ==> TipIs(r.value, Walk(validations, largestIssued, [GENESIS]))
    {
      hide Valid, IsOrder, Walk, Passed;
      RootFacts();
      if Empty() {
        return None;
      }
      var order := SortedKeys(seqSupport.Keys);
      KeysAreNats(order, seqSupport);
      var ks: seq<nat> := order;
      var curr, it, uncommitted := root, 0, 0;
      ghost var b: nat := 0;
      NothingPassed(ks, validations);
      r := None;
      while r.None?
        invariant Valid() && curr in nodes && curr.span.Valid()
        invariant r.None? ==> Passed(ks, validations, it, b, uncommitted) && b <= Max(curr.span.start + 1, largestIssued)
        invariant r.None? ==> Walk(validations, largestIssued, [GENESIS]) == Walk(validations, largestIssued, StartOf(curr.span))
        invariant r.Some? ==> TipIs(r.value, Walk(validations, largestIssued, [GENESIS]))
        decreases r.None?, Longest(validations) - curr.span.end
      {
        var next;
        r, next, it, uncommitted, b := Descend(curr, largestIssued, ks, it, uncommitted, b);
        if r.None? {
          curr := next;
        }
      }
    }

    lemma RootFacts()
      requires Valid()
      ensures root in nodes && root.span.Valid() && StartOf(root.span) == [GENESIS]
      ensures root.branchSupport == 0 <==> validations == multiset{}
      ensures [] !in validations
    {
      RootSupport(Snapshot(nodes), root, validations);
    }

    /** The check of one node: neither droppable nor mergeable, and its branch support adds up. */
    method CheckNode(curr: Node) returns (ok: bool)
      requires curr in nodes && forall c :: c in curr.children ==> c in nodes
      ensures ok <==> NodeInvariant(Snapshot(nodes), root, curr)
    {
      ghost var m := Snapshot(nodes);
      if curr != root && curr.tipSupport == 0 && |curr.children| < 2 {
        return false;
      }
      var support := curr.tipSupport;
      var i := 0;
      while i < |curr.children|
        invariant 0 <= i <= |curr.children|
        invariant support == curr.tipSupport + BranchSum(m, curr.children[..i])
        invariant forall k :: 0 <= k < i ==> curr.children[k].parent == curr
      {
        var child := curr.children[i];
        assert child in m;
        if child.parent != curr {
          return false;
        }
        assert curr.children[..i + 1][..i] == curr.children[..i];
        support := support + child.branchSupport;
        i := i + 1;
      }
      assert curr.children[..i] == curr.children;
      return support == curr.branchSupport;
    }

    /** Visit every node once with a stack; true exactly when all invariants hold. */
    method CheckInvariants() returns (ok: bool)
      requires Tree(Snapshot(nodes), root)
      requires forall n, c :: n in nodes && c in n.children ==> c in nodes
      ensures ok <==> InvariantsHold(Snapshot(nodes), root, seqSupport)
    {
      hide Tree, NodeInvariant, IsSeqTotals, OnStack;
      ghost var m := Snapshot(nodes);
      var expected: map<nat, nat> := map[];
      ghost var visited: set<Node> := {};
      var stack := [root];
      NoTotals(m);
      FirstOnStack(m, root);
      while stack != []
        invariant visited <= m.Keys && OnStack(m, root, visited, stack)
        invariant IsSeqTotals(m, visited, expected)
        invariant forall n {:trigger NodeInvariant(m, root, n)} :: n in visited ==> NodeInvariant(m, root, n)
        decreases m.Keys - visited
      {
        var curr := stack[|stack| - 1];
        TopOfStack(m, root, visited, stack);
        var good := CheckNode(curr);
        if !good {
          return false;
        }
        AddTotal(m, visited, expected, curr);
        VisitTop(m, root, visited, stack);
        var s := curr.span.end - 1;
        expected := if curr.tipSupport == 0 then expected
                    else expected[s := (if s in expected then expected[s] else 0) + curr.tipSupport];
        visited := visited + {curr};
        stack := stack[..|stack| - 1] + curr.children;
      }
      AllVisited(m, root, visited);
      SameTotals(m, expected, seqSupport);
      return expected == seqSupport;
    }

    /** Every trie built by insertion and removal passes its own check. */
    method SelfCheck() returns (ok: bool)
      requires Valid()
      ensures ok
    {
      hide NodeOk, Counts, KnownPaths, Compressed, SeqCounts, InvariantsHold;
      ghost var m := Snapshot(nodes);
      forall n, c | n in nodes && c in n.children ensures c in nodes {
        LinkedChild(m, root, n, c);
      }
      RepresentsMeetsInvariants(m, root, history, validations, seqSupport);
      ok := CheckInvariants();
    }
  }

  // ----- The stack of checkInvariants -----

  /**
    The stack holds nodes still to be visited: each appears once, below a
    visited parent, and every unvisited node is on it or has an unvisited
    parent.
   */
  ghost predicate OnStack(m: Heap, root: Node, visited: set<Node>, stack: seq<Node>) {
    && visited <= m.Keys
    && (forall n :: n in visited ==> n == root || m[n].parent in visited)
    && (forall i, j :: 0 <= i < j < |stack| ==> stack[i] != stack[j])
    && (forall n :: n in stack ==> n in m && n !in visited && (n == root || m[n].parent in visited))
    && (root in visited || root in stack)
    && (forall n :: n in m && n !in visited && n != root && m[n].parent in visited ==> n in stack)
  }

  lemma FirstOnStack(m: Heap, root: Node)
    requires Tree(m, root)
    ensures OnStack(m, root, {}, [root])
  {
  }

  lemma TopOfStack(m: Heap, root: Node, visited: set<Node>, stack: seq<Node>)
    requires Tree(m, root) && stack != [] && OnStack(m, root, visited, stack)
    ensures
      var curr := stack[|stack| - 1];
      curr in m && curr !in visited && visited <= m.Keys && m[curr].span.end > 0
  {
    var curr := stack[|stack| - 1];
    assert curr in stack && m[curr].span.Valid();
  }

  lemma VisitTop(m: Heap, root: Node, visited: set<Node>, stack: seq<Node>)
    requires Tree(m, root) && stack != [] && OnStack(m, root, visited, stack)
    ensures
      var curr := stack[|stack| - 1];
      OnStack(m, root, visited + {curr}, stack[..|stack| - 1] + m[curr].children)
  {
    var k := |stack| - 1;
    var curr := stack[k];
    var cs := m[curr].children;
    var stack' := stack[..k] + cs;
    assert curr in stack;
    assert NodeOk(m, root, curr);
    ChildrenAreLinked(m, root, curr);
    forall i, j | 0 <= i < j < |stack'| ensures stack'[i] != stack'[j] {
      if j >= k {
        assert stack'[j] in cs && m[stack'[j]].parent == curr;
        if i < k {
          assert stack'[i] in stack;
        } else {
          assert stack'[i] == cs[i - k] && stack'[j] == cs[j - k];
        }
      }
    }
    forall n | n in stack' ensures n in m && n !in visited + {curr} && (n == root || m[n].parent in visited + {curr}) {
      if n in cs {
        assert m[n].parent == curr && n != root;
      } else {
        assert n in stack[..k];
      }
    }
  }

  lemma {:induction false} Reached(m: Heap, root: Node, visited: set<Node>, n: Node)
    requires Tree(m, root) && OnStack(m, root, visited, []) && n in m
    ensures n in visited
    decreases |Path(m, n)|
  {
    if n != root {
      var p := ParentOf(m, root, n);
      Reached(m, root, visited, p);
    }
  }

  lemma AllVisited(m: Heap, root: Node, visited: set<Node>)
    requires Tree(m, root) && OnStack(m, root, visited, [])
    ensures visited == m.Keys
  {
    forall n | n in m ensures n in visited {
      Reached(m, root, visited, n);
    }
  }

  lemma NoTotals(m: Heap)
    ensures IsSeqTotals(m, {}, map[])
  {
  }

  lemma SameTotals(m: Heap, a: map<nat, nat>, b: map<nat, nat>)
    requires IsSeqTotals(m, m.Keys, a)
    ensures a == b <==> IsSeqTotals(m, m.Keys, b)
  {
    if IsSeqTotals(m, m.Keys, b) {
      TotalsUnique(m, m.Keys, a, b);
    }
  }

  /** The first ledger of a span, with its ancestry. */
  ghost function StartOf(s: Span): Ledger
    requires s.Valid()
  {
    s.Path()[..s.start + 1]
  }

  /** A tip, with the ancestry it gives access to. */
  predicate TipIs(t: SpanTip, l: Ledger) {
    && t.seqNo < |t.ledger| && t.id == t.ledger[t.seqNo]
    && t.ledger[..t.seqNo + 1] == l
  }

  lemma BranchesCover(m: Heap, root: Node, e: multiset<Ledger>, loc: Node)
    requires Tree(m, root) && Counts(m, e) && loc in m
    ensures SpansValid(m) && forall n :: n in m && Path(m, n) <= Path(m, loc) ==> m[n].branch >= m[loc].tip
  {
    hide NodeOk, Counts, Path;
    forall n | n in m && Path(m, n) <= Path(m, loc) ensures m[n].branch >= m[loc].tip {
      BranchCovers(m, root, e, loc, n);
    }
  }

  lemma TipAtEnd(s: Span)
    requires s.Valid()
    ensures TipIs(s.Tip(), s.Path())
  {
  }

  lemma TipInside(s: Span, seqNo: nat)
    requires s.Valid() && s.start < seqNo < s.end
    ensures s.Before(seqNo).Some? && TipIs(s.Before(seqNo).value.Tip(), s.Path()[..seqNo])
  {
  }

  /** Exchanging two siblings, the second of them the foremost from the first on. */
  lemma SwapSiblings(cs: seq<Node>, i: nat, j: nat, s: seq<Node>)
    requires i <= j < |cs| && SiblingsOk(cs) && s == cs[i := cs[j]][j := cs[i]]
    requires forall k :: i <= k < |cs| && k != j ==> Foremost(cs[j], cs[k])
    ensures SiblingsOk(s)
    ensures forall k :: i < k < |s| ==> Foremost(s[i], s[k])
  {
    forall a, b | 0 <= a < b < |s|
      ensures s[a].span.Valid() && s[b].span.Valid() && s[a].span.StartId() != s[b].span.StartId()
    {
      var x, y := if a == i then j else if a == j then i else a, if b == i then j else if b == j then i else b;
      assert s[a] == cs[x] && s[b] == cs[y] && x != y;
      assert cs[x] in cs && cs[y] in cs;
      assert x < y ==> cs[x].span.StartId() != cs[y].span.StartId();
      assert y < x ==> cs[y].span.StartId() != cs[x].span.StartId();
    }
  }

  lemma SwapKeeps(cs: seq<Node>, i: nat, j: nat)
    requires i <= j < |cs|
    ensures multiset(cs[i := cs[j]][j := cs[i]]) == multiset(cs)
  {
  }

  lemma SiblingFacts(m: Heap, root: Node, n: Node)
    requires Tree(m, root) && n in m
    ensures forall c :: c in m[n].children ==> c in m && m[c].span.Valid() && c != n
    ensures DistinctStarts(m, m[n].children)
  {
    assert NodeOk(m, root, n);
    forall c | c in m[n].children ensures c in m && m[c].span.Valid() && c != n {
      assert Linked(m, n, c);
    }
  }

  /** The branch support of the root is the number of validations. */
  lemma RootSupport(m: Heap, root: Node, e: multiset<Ledger>)
    requires Tree(m, root) && Counts(m, e)
    ensures m[root].span.Valid() && Path(m, root) == [GENESIS] && m[root].branch == |e|
    ensures m[root].branch == 0 <==> e == multiset{}
    ensures [] !in e
  {
    assert m[root].span.Valid() && CountOk(m, e, root);
    forall h | h in e ensures [GENESIS] <= h {
      var n := NodeFor(m, e, h);
      assert m[n].span.Valid();
    }
    assert WithPrefix(e, [GENESIS]) == e;
  }

  lemma NothingPassed(ks: seq<nat>, e: multiset<Ledger>)
    requires [] !in e
    ensures Passed(ks, e, 0, 0, 0)
  {
    assert Below(e, 0) == multiset{};
  }

  lemma WithinLongest(m: Heap, root: Node, e: multiset<Ledger>, n: Node)
    requires Tree(m, root) && Counts(m, e) && n in m && m[n].branch > 0
    ensures m[n].span.end <= Longest(e)
  {
    assert CountOk(m, e, n);
    SupportWitness(e, Path(m, n));
  }

  /** Larger branch support, or the same and a larger starting id. */
  predicate Foremost(a: Node, b: Node)
    requires a.span.Valid() && b.span.Valid()
    reads a`span, a`branchSupport, b`span, b`branchSupport
  {
    a.branchSupport > b.branchSupport || (a.branchSupport == b.branchSupport && a.span.StartId() > b.span.StartId())
  }

  ghost predicate SiblingsOk(cs: seq<Node>)
    reads cs`span
  {
    && (forall c :: c in cs ==> c.span.Valid())
    && (forall i, j :: 0 <= i < j < |cs| ==> cs[i].span.StartId() != cs[j].span.StartId())
  }

  lemma MoreSeqCounts(ss: map<nat, nat>, e: multiset<Ledger>, l: Ledger, count: nat)
    requires SeqCounts(ss, e) && |l| > 0
    ensures
      var s := SeqOf(l);
      var ss' := ss[s := (if s in ss then ss[s] else 0) + count];
      SeqCounts(ss', e[l := e[l] + count]) <==> (count > 0 || |AtSeq(e, s)| > 0)
  {
    hide AtSeq;
    var s, e' := SeqOf(l), e[l := e[l] + count];
    var ss' := ss[s := (if s in ss then ss[s] else 0) + count];
    forall t: nat ensures |AtSeq(e', t)| == |AtSeq(e, t)| + if t == s then count else 0 {
      SeqCountOfMore(e, l, count, t);
    }
    assert |AtSeq(e', s)| == ss'[s];
    forall t: nat | t != s ensures t in ss' <==> |AtSeq(e', t)| > 0 {
    }
  }

  /** The ledger already has a node, and its sequence number a count. */
  ghost predicate Tracked(e: multiset<Ledger>, l: Ledger)
    requires |l| > 0
  {
    NodeLedger(e, l) && |AtSeq(e, SeqOf(l))| > 0
  }

  /** A node that might not be needed is needed exactly when its ledger calls for a node. */
  lemma PendingResolved(m: Heap, root: Node, history: Id -> Ledger, e: multiset<Ledger>, n: Node)
    requires n in m && Represents(m, root, history, e, n)
    ensures Represents(m, root, history, e, null) <==> NodeLedger(e, Path(m, n))
  {
    hide NodeOk, Known;
    var l := Path(m, n);
    if Represents(m, root, history, e, null) {
      NodePathsForth(m, root, e, n);
    }
    if NodeLedger(e, l) {
      if l == [GENESIS] {
        assert m[root].span.Valid();
        UniquePath(m, root, n, root);
      } else if l in e {
        assert CountOk(m, e, n);
      } else {
        var c, d :| c != d && IsChild(e, l, c) && IsChild(e, l, d);
        var a := ChildNode(m, root, e, n, c);
        var b := ChildNode(m, root, e, n, d);
        assert a != b;
      }
    }
  }

  lemma ValidIff(m: Heap, root: Node, history: Id -> Ledger, e: multiset<Ledger>, l: Ledger, count: nat, n: Node,
                 ss: map<nat, nat>)
    requires n in m && |l| > 0 && SpansValid(m) && Path(m, n) == l
    requires Represents(m, root, history, e[l := e[l] + count], if count > 0 then null else n)
    requires SeqCounts(ss, e[l := e[l] + count]) <==> (count > 0 || |AtSeq(e, SeqOf(l))| > 0)
    ensures
      var e' := e[l := e[l] + count];
      (Represents(m, root, history, e', null) && SeqCounts(ss, e')) <==> (count > 0 || Tracked(e, l))
  {
    hide Represents, SeqCounts;
    if count == 0 {
      assert e[l := e[l] + count] == e;
      PendingResolved(m, root, history, e, n);
    }
  }

  /** Moving the cursor from a node to its parent leaves exactly that node behind. */
  /** The children of `loc` have moved to `nn`. */
  ghost predicate TakenOver(m: Heap, loc: Node, nn: Node, m': Heap)
    requires loc in m
  {
    && m'.Keys == m.Keys
    && m'[loc] == m[loc].(children := [])
    && forall n :: n in m && n != loc ==> m'[n] == m[n].(parent := if n in m[loc].children then nn else m[n].parent)
  }

  lemma SplitInSteps(m: Heap, root: Node, loc: Node, nn: Node, pos: nat, m1: Heap, m': Heap)
    requires Tree(m, root) && loc in m && loc != root && nn !in m && m[loc].span.start < pos < m[loc].span.end
    requires TakenOver(m, loc, nn, m1) && m'.Keys == m.Keys + {nn}
    requires m'[nn] == Fields(Span(pos, m[loc].span.end, m[loc].span.ledger), m[loc].tip, m[loc].branch,
                              m[loc].children, loc)
    requires m'[loc] == Fields(Span(m[loc].span.start, pos, m[loc].span.ledger), 0, m1[loc].branch,
                               m1[loc].children + [nn], m1[loc].parent)
    requires forall n :: n in m && n != loc ==> m'[n] == m1[n]
    ensures IsSplit(m, loc, nn, pos, m')
  {
    hide Tree;
    ChildrenAreLinked(m, root, loc);
    assert m1[loc].children + [nn] == [nn];
  }

  lemma NodeNeeded(m: Heap, root: Node, history: Id -> Ledger, e: multiset<Ledger>, n: Node)
    requires n in m && Represents(m, root, history, e, n)
    requires n == root || m[n].tip > 0 || |m[n].children| >= 2
    ensures Represents(m, root, history, e, null)
  {
    hide Tree, Counts, KnownPaths;
  }

  lemma TipMoved(m: Heap, root: Node, loc: Node, delta: int, m1: Heap)
    requires Tree(m, root) && loc in m && m[loc].tip + delta >= 0
    requires m1 == m[loc := m[loc].(tip := m[loc].tip + delta)]
    ensures SameShape(m, m1) && Tree(m1, root) && SpansValid(m) && SpansValid(m1)
    ensures forall n :: n in m ==> Path(m1, n) == Path(m, n) && m1[n].branch == m[n].branch
  {
    SameShapeTree(m, m1, root);
  }

  /** Branch support has changed along the path to `loc`, and nothing else has. */
  ghost predicate BranchesMoved(m: Heap, loc: Node, delta: int, m': Heap)
    requires SpansValid(m) && loc in m
  {
    && SameShape(m, m')
    && forall n :: n in m ==>
         && m'[n].tip == m[n].tip
         && m'[n].branch == m[n].branch + (if Path(m, n) <= Path(m, loc) then delta else 0)
  }

  lemma BumpedInSteps(m: Heap, loc: Node, delta: int, m1: Heap, m': Heap)
    requires SpansValid(m) && loc in m && m[loc].tip + delta >= 0
    requires m1 == m[loc := m[loc].(tip := m[loc].tip + delta)] && SpansValid(m1)
    requires BranchesMoved(m1, loc, delta, m')
    ensures Bumped(m, loc, delta, m')
  {
    hide Path;
    SamePath(m, m1, loc);
    assert m'.Keys == m.Keys;
    forall n | n in m
      ensures m'[n].span == m[n].span && m'[n].children == m[n].children && m'[n].parent == m[n].parent
      ensures m'[n].tip == m[n].tip + (if n == loc then delta else 0)
      ensures m'[n].branch == m[n].branch + (if Path(m, n) <= Path(m, loc) then delta else 0)
    {
      SamePath(m, m1, n);
    }
  }

  lemma SamePath(m: Heap, m1: Heap, n: Node)
    requires n in m && n in m1 && m[n].span == m1[n].span && m[n].span.Valid()
    ensures Path(m1, n) == Path(m, n)
  {
  }

  lemma AboveCursor(m: Heap, root: Node, from: Node, cur: Node)
    requires Tree(m, root) && from in m && cur in m && Path(m, cur) <= Path(m, from)
    ensures cur == root <==> m[cur].parent == null
    ensures cur != root ==>
              && m[cur].parent in m && |Path(m, m[cur].parent)| < |Path(m, cur)|
              && Path(m, m[cur].parent) <= Path(m, from)
    ensures forall n :: n in m && Path(m, n) <= Path(m, from) ==>
              (n == cur || |Path(m, n)| > |Path(m, cur)| <==> cur == root || |Path(m, n)| > |Path(m, m[cur].parent)|)
  {
    assert NodeOk(m, root, cur);
    if cur != root {
      var p := ParentOf(m, root, cur);
    }
    forall n | n in m && Path(m, n) <= Path(m, from)
      ensures n == cur || |Path(m, n)| > |Path(m, cur)| <==> cur == root || |Path(m, n)| > |Path(m, m[cur].parent)|
    {
      assert m[n].span.Valid();
      if |Path(m, n)| <= |Path(m, cur)| && n != cur {
        if cur == root {
          UniquePath(m, root, n, cur);
        } else {
          AboveParent(m, root, cur, n);
        }
      }
    }
  }

  lemma LessSeqCounts(ss: map<nat, nat>, e: multiset<Ledger>, l: Ledger, count: nat)
    requires SeqCounts(ss, e) && |l| > 0 && count <= e[l] && e[l] > 0
    ensures
      var s := SeqOf(l);
      && s in ss && ss[s] >= count
      && SeqCounts(if ss[s] == count then ss - {s} else ss[s := ss[s] - count], e[l := e[l] - count])
  {
    hide AtSeq;
    var e', e0 := e[l := e[l] - count], e[l := 0];
    assert e == e'[l := e'[l] + count] && e == e0[l := e0[l] + e[l]];
    forall t: nat ensures |AtSeq(e, t)| == |AtSeq(e', t)| + if |l| == t + 1 then count else 0 {
      SeqCountOfMore(e', l, count, t);
    }
    SeqCountOfMore(e0, l, e[l], SeqOf(l));
  }

  /** What the lookup by id says about the validations of a ledger. */
  lemma TipOf(m: Heap, root: Node, e: multiset<Ledger>, l: Ledger, loc: Node?)
    requires Tree(m, root) && Counts(m, e)
    requires loc != null ==> loc in m && Path(m, loc) == l
    requires loc == null ==> Absent(m, root, l)
    ensures e[l] == if loc == null then 0 else m[loc].tip
  {
    if loc == null {
      AbsentUnsupported(m, root, e, l);
    } else {
      assert CountOk(m, e, loc);
    }
  }

  // ----- Whole runs -----

  datatype Operation = Insertion(ledger: Ledger, count: nat) | Removal(ledger: Ledger, count: nat)

  /** The validations left after a run of operations. */
  ghost function Replay(ops: seq<Operation>): multiset<Ledger> {
    if ops == [] then multiset{}
    else
      var e, op := Replay(ops[..|ops| - 1]), ops[|ops| - 1];
      match op
      case Insertion(l, n) => e[l := e[l] + n]
      case Removal(l, n) => e[l := e[l] - Min(n, e[l])]
  }

  /** Any run of insertions and removals leaves a trie over the validations that remain. */
  method Run(ghost h: Id -> Ledger, ops: seq<Operation>) returns (t: LedgerTrie)
    requires Known(h, [GENESIS])
    requires forall i :: 0 <= i < |ops| ==> Known(h, ops[i].ledger) && (ops[i].Insertion? ==> ops[i].count > 0)
    ensures fresh(t) && fresh(t.nodes) && t.Valid() && t.history == h
    ensures t.validations == Replay(ops)
  {
    hide LedgerTrie.Valid, Known;
    t := new LedgerTrie(h);
    for i := 0 to |ops|
      invariant fresh(t) && fresh(t.nodes) && t.Valid() && t.history == h
      invariant t.validations == Replay(ops[..i])
    {
      assert ops[..i + 1][..i] == ops[..i] && ops[..i + 1][i] == ops[i];
      match ops[i] {
        case Insertion(l, n) => t.Insert(l, n);
        case Removal(l, n) =>
          var removed := t.Remove(l, n);
      }
    }
    assert ops[..|ops|] == ops;
  }

  /** Removing what was just inserted restores the trie, up to the order of children. */
  method InsertThenRemove(t: LedgerTrie, ledger: Ledger, count: nat)
    requires t.Valid() && Known(t.history, ledger) && count > 0
    modifies t, t.nodes
    ensures t.Valid() && t.validations == old(t.validations)
    ensures ViewOf(Snapshot(t.nodes), t.root) == old(ViewOf(Snapshot(t.nodes), t.root))
  {
    hide Tree, Counts, KnownPaths, Compressed, SeqCounts;
    ghost var m, e := Snapshot(t.nodes), t.validations;
    t.Insert(ledger, count);
    var removed := t.Remove(ledger, count);
    assert t.validations == e;
    Canonical(m, t.root, Snapshot(t.nodes), t.root, t.history, e);
  }
}
