/** The heap loop of batch verification. */
module BatchHeaps {
  import opened BatchScalars
  import opened CommonDivisors
  import opened Digits
  import opened Groups
  import opened IndexHeaps
  import opened Scalars
  import opened WeightedSums

  function Keys(scalars: seq<seq<int>>): (key: seq<int>)
    ensures |key| == |scalars|
    ensures forall i :: 0 <= i < |key| ==> key[i] == ScalarValue(scalars[i])
  {
    seq(|scalars|, i requires 0 <= i < |scalars| => ScalarValue(scalars[i]))
  }

  predicate AllScalars(scalars: seq<seq<int>>) {
    forall i {:trigger scalars[i]} :: 0 <= i < |scalars| ==> IsScalar(scalars[i])
  }

  predicate AllShort(scalars: seq<seq<int>>, size: nat, limbs: nat) {
    size <= |scalars| && forall i {:trigger scalars[i]} :: 0 <= i < size ==> ZeroAbove(scalars[i], limbs)
  }

  lemma KeysUpdated(scalars: seq<seq<int>>, i: nat, s: seq<int>)
    requires i < |scalars|
    ensures Keys(scalars[i := s]) == Keys(scalars)[i := ScalarValue(s)]
  {
    hide ScalarValue;
  }

  class BatchHeap<G(!new)> {
    const points: array<G>
    const scalars: array<seq<int>>
    const heap: array<nat>
    var size: nat

    ghost predicate Separate()
      reads this
    {
      && scalars.Length == heap.Length == points.Length && size <= heap.Length
      && (points as object) != scalars && (points as object) != heap && (scalars as object) != heap
    }

    method Swap(a: nat, b: nat, ghost n: nat)
      requires a < n && b < n <= heap.Length
      modifies heap
      ensures heap[..n] == Swapped(old(heap[..n]), a, b)
    {
      var temp := heap[a];
      heap[a] := heap[b];
      heap[b] := temp;
    }

    /** heap_insert_next: the scalar at index `size` joins the heap. */
    method InsertNext()
      requires Separate() && size < heap.Length && AllScalars(scalars[..])
      requires IsPermutation(heap[..size]) && IsHeap(heap[..size], Keys(scalars[..]))
      modifies this`size, heap
      ensures Separate() && size == old(size) + 1
      ensures IsPermutation(heap[..size]) && IsHeap(heap[..size], Keys(scalars[..]))
    {
      hide IsPermutation, IsHeap, Rising, Keys, ScalarValue;
      ghost var key := Keys(scalars[..]);
      ghost var n := size + 1;
      ghost var was := heap[..size];
      var node: nat := size;
      LeafAdded(was, key);
      GrownPermutation(was);
      heap[node] := node;
      assert heap[..n] == was + [node];
      while node > 0
        invariant node < n && size + 1 == n
        invariant IsPermutation(heap[..n]) && Rising(heap[..n], key, node)
      {
        var parent := (node - 1) / 2;
        IndicesInRange(heap[..n], key, parent, node);
        var less := Less(scalars[heap[parent]], scalars[heap[node]], 4);
        if !less {
          break;
        }
        RiseStep(heap[..n], key, node);
        SwapKeeps(heap[..n], parent, node);
        Swap(parent, node, n);
        node := parent;
      }
      RiseDone(heap[..n], key, node);
      size := size + 1;
      assert heap[..size] == heap[..n];
    }

    /** heap_updated_root: the root sinks to a leaf along the larger children, then rises to its place. */
    method UpdatedRoot(limbs: nat)
      requires Separate() && size >= 3 && size % 2 == 1 && limbs <= 4
      requires AllScalars(scalars[..]) && AllShort(scalars[..], size, limbs)
      requires IsPermutation(heap[..size]) && Sinking(heap[..size], Keys(scalars[..]), 0)
      modifies heap
      ensures IsPermutation(heap[..size]) && IsHeap(heap[..size], Keys(scalars[..]))
    {
      hide IsPermutation, IsHeap, Rising, Sinking, Keys, IsScalar, ScalarValue;
      ghost var key := Keys(scalars[..]);
      var node: nat := SinkRoot(limbs, key);
      SinkDone(heap[..size], key, node);
      while node > 0
        invariant node < size
        invariant IsPermutation(heap[..size]) && Rising(heap[..size], key, node)
      {
        var parent := (node - 1) / 2;
        IndicesInRange(heap[..size], key, parent, node);
        var atMost := AtMost(scalars[heap[parent]], scalars[heap[node]], limbs);
        if !atMost {
          break;
        }
        RiseStep(heap[..size], key, node);
        SwapKeeps(heap[..size], parent, node);
        Swap(parent, node, size);
        node := parent;
      }
      RiseDone(heap[..size], key, node);
    }

    method SinkRoot(limbs: nat, ghost key: seq<int>) returns (node: nat)
      requires Separate() && size >= 3 && size % 2 == 1 && limbs <= 4 && key == Keys(scalars[..])
      requires AllScalars(scalars[..]) && AllShort(scalars[..], size, limbs)
      requires IsPermutation(heap[..size]) && Sinking(heap[..size], key, 0)
      modifies heap
      ensures IsPermutation(heap[..size]) && Sinking(heap[..size], key, node)
      ensures node < size <= 2 * node + 1
    {
      hide IsPermutation, Sinking, Keys, IsScalar, ScalarValue;
      var parent, childl, childr := 0, 1, 2;
      node := 1;
      while childr < size
        invariant childl == 2 * parent + 1 && childr == childl + 1
        invariant parent < size && (parent == 0 || node == parent)
        invariant IsPermutation(heap[..size]) && Sinking(heap[..size], key, parent)
        decreases size - parent
      {
        IndicesInRange(heap[..size], key, childl, childr);
        var less := Less(scalars[heap[childl]], scalars[heap[childr]], limbs);
        node := if less then childr else childl;
        LargerChild(heap[..size], key, parent, node);
        SwapKeeps(heap[..size], parent, node);
        Swap(parent, node, size);
        parent := node;
        childl := parent * 2 + 1;
        childr := childl + 1;
      }
    }

    /** heap_get_top2 */
    method GetTop2(limbs: nat) returns (max1: nat, max2: nat)
      requires Separate() && size >= 3 && limbs <= 4
      requires AllScalars(scalars[..]) && AllShort(scalars[..], size, limbs)
      requires IsPermutation(heap[..size]) && IsHeap(heap[..size], Keys(scalars[..]))
      ensures max1 == heap[0] && Top2(Keys(scalars[..]), size, max1, max2)
    {
      hide IsPermutation, IsHeap, Keys, IsScalar, ScalarValue;
      ghost var key := Keys(scalars[..]);
      IndicesInRange(heap[..size], key, 0, 1);
      IndicesInRange(heap[..size], key, 0, 2);
      max1, max2 := heap[0], heap[1];
      var less := Less(scalars[heap[1]], scalars[heap[2]], limbs);
      if less {
        max2 := heap[2];
      }
      TopOfHeap(heap[..size], key, max2);
    }

    /** heap_build and heap_extend, which differ in where they start. */
    method Extend(count: nat)
      requires Separate() && size <= count <= heap.Length && AllScalars(scalars[..])
      requires IsPermutation(heap[..size]) && IsHeap(heap[..size], Keys(scalars[..]))
      modifies this`size, heap
      ensures Separate() && size == count
      ensures IsPermutation(heap[..size]) && IsHeap(heap[..size], Keys(scalars[..]))
    {
      hide IsPermutation, IsHeap, Keys, IsScalar, ScalarValue;
      while size < count
        invariant Separate() && size <= count
        invariant IsPermutation(heap[..size]) && IsHeap(heap[..size], Keys(scalars[..]))
      {
        InsertNext();
      }
    }

    /** The scalars and points part of a turn. */
    method Reduce(g: Group<G>, limbs: nat, max1: nat, max2: nat, ghost key: seq<int>, ghost count: nat)
      requires Separate() && IsAbelian(g) && size <= count <= heap.Length && limbs <= 4
      requires AllScalars(scalars[..]) && AllShort(scalars[..], size, limbs) && key == Keys(scalars[..])
      requires Top2(key, size, max1, max2) && key[max2] > 0 && max1 == heap[0]
      requires IsPermutation(heap[..size]) && IsHeap(heap[..size], key)
      modifies scalars, points
      ensures AllScalars(scalars[..]) && AllShort(scalars[..], size, limbs)
      ensures Keys(scalars[..]) == key[max1 := key[max1] - key[max2]]
      ensures Total(g, Keys(scalars[..]), points[..], count) == old(Total(g, Keys(scalars[..]), points[..], count))
      ensures Total(g, Keys(scalars[..]), points[..], size) == old(Total(g, Keys(scalars[..]), points[..], size))
      ensures Sum(Keys(scalars[..]), count) < Sum(key, count)
      ensures Sinking(heap[..size], Keys(scalars[..]), 0)
    {
      hide IsPermutation, IsHeap, Sinking, Keys, ScalarValue, IsAbelian, Total, Sum, Pow, IsScalar, ZeroAbove;
      ghost var was, pts := scalars[..], points[..];
      scalars[max1] := Subtract(scalars[max1], scalars[max2], limbs);
      assert scalars[..] == was[max1 := scalars[max1]];
      KeysUpdated(was, max1, scalars[max1]);
      points[max2] := g.add(points[max2], points[max1]);
      assert points[..] == pts[max2 := g.add(pts[max2], pts[max1])];
      StepKeepsTotal(g, key, pts, max1, max2, count);
      StepKeepsTotal(g, key, pts, max1, max2, size);
      SumChanged(key, max1, key[max1] - key[max2], count);
      assert heap[..size][0] == max1;
      RootChanged(heap[..size], key, Keys(scalars[..]));
    }

    /** One turn of the loop; `limbs` and `extended` are its local variables. */
    method Turn(g: Group<G>, count: nat, limbs0: nat, extended0: bool)
      returns (done: bool, max1: nat, limbs: nat, extended: bool, ghost max2: nat, ghost top1: nat, ghost top2: nat)
      requires Separate() && IsAbelian(g) && 5 <= count <= heap.Length && count % 2 == 1
      requires Steady(heap[..size], scalars[..], limbs0, count, extended0)
      modifies this`size, heap, scalars, points
      ensures Separate() && Steady(heap[..size], scalars[..], limbs, count, extended)
      ensures Total(g, Keys(scalars[..]), points[..], count) == old(Total(g, Keys(scalars[..]), points[..], count))
      ensures extended0 ==> extended
      ensures !extended ==> size == old(size)
      ensures extended && !extended0 ==> limbs >= 2
      ensures !extended ==>
        Total(g, Keys(scalars[..]), points[..], size) == old(Total(g, Keys(scalars[..]), points[..], size))
      ensures done ==> extended == extended0 && OnlyOne(Keys(scalars[..]), size, max1)
      ensures done ==> Keys(scalars[..]) == old(Keys(scalars[..]))
      ensures !done ==>
        Stepped(old(Keys(scalars[..])), Keys(scalars[..]), if extended then count else old(size), max1, max2)
      ensures !done && !extended ==> old(Keys(scalars[..]))[max1] >= Pow(2, 128)
      ensures extended && !extended0 ==> !done && Ready(old(Keys(scalars[..])), old(size), top1, top2)
      ensures !done ==> Sum(Keys(scalars[..]), count) < old(Sum(Keys(scalars[..]), count))
    {
      hide IsPermutation, IsHeap, Sinking, Keys, Top2, ScalarValue, IsAbelian, Total, Sum, Pow, AllScalars, AllShort;
      limbs, extended := limbs0, extended0;
      ghost var key := Keys(scalars[..]);
      var second;
      max1, second := GetTop2(limbs);
      max2, top1, top2 := second, max1, second;
      ScalarsInRange(scalars[..], key, size, max1, second);
      var zero := IsZero(scalars[second]);
      if zero {
        RestAreZero(scalars[..], key, size, max1, second);
        return true, max1, limbs, extended, max2, top1, top2;
      }
      if scalars[max1][limbs] == 0 {
        DropLimb(scalars[..], key, size, limbs, max1, second);
        limbs := limbs - 1;
      }
      if !extended {
        EnoughLimbs(heap[..size], key, limbs0, limbs, count);
      }
      var small := AtMost128Bits(scalars[max1]);
      if !extended && small {
        AllShortAfter(heap[..size], scalars[..], key, limbs0, limbs, count, max1, second);
        ghost var before := size;
        Extend(count);
        max1, second := GetTop2(limbs);
        max2 := second;
        StillPositive(key, before, top1, top2, size, max1, second);
        ScalarsInRange(scalars[..], key, size, max1, second);
        extended := true;
      }
      Subtracted(g, limbs, max1, second, key, count, extended);
      done := false;
    }

    /** The end of a turn: the larger scalar shrinks and sinks. */
    method Subtracted(g: Group<G>, limbs: nat, max1: nat, max2: nat, ghost key: seq<int>, ghost count: nat,
                      ghost extended: bool)
      requires Separate() && IsAbelian(g) && 3 <= size <= count <= heap.Length && size % 2 == 1 && limbs <= 4
      requires AllScalars(scalars[..]) && AllShort(scalars[..], size, limbs) && key == Keys(scalars[..])
      requires Top2(key, size, max1, max2) && key[max2] > 0 && max1 == heap[0]
      requires IsPermutation(heap[..size]) && IsHeap(heap[..size], key)
      requires extended ==> size == count && Below128(key, count)
      requires !extended ==> limbs >= 2 && key[max1] >= Pow(2, 128)
      requires !extended ==> forall i :: size <= i < count ==> key[i] < Pow(2, 128)
      modifies heap, scalars, points
      ensures Separate() && Steady(heap[..size], scalars[..], limbs, count, extended)
      ensures Stepped(key, Keys(scalars[..]), size, max1, max2)
      ensures Total(g, Keys(scalars[..]), points[..], count) == old(Total(g, Keys(scalars[..]), points[..], count))
      ensures Total(g, Keys(scalars[..]), points[..], size) == old(Total(g, Keys(scalars[..]), points[..], size))
      ensures Sum(Keys(scalars[..]), count) < Sum(key, count)
    {
      hide IsPermutation, IsHeap, Sinking, Keys, ScalarValue, IsAbelian, Total, Sum, Pow, AllScalars, AllShort, Steady;
      Reduce(g, limbs, max1, max2, key, count);
      UpdatedRoot(limbs);
      StaysSteady(heap[..size], scalars[..], key, limbs, count, extended, max1, max2);
    }

    /**
      ge25519_multi_scalarmult_vartime up to the end of its loop: the scalars
      from First(count) on are short and join the heap once the others are.
     */
    method MultiScalarMult(g: Group<G>, count: nat) returns (max1: nat, extended: bool)
      requires Separate() && IsAbelian(g) && 5 <= count <= heap.Length && count % 2 == 1
      requires AllScalars(scalars[..])
      requires forall i :: First(count) <= i < count ==> ScalarValue(scalars[i]) < Pow(2, 128)
      modifies this`size, heap, scalars, points
      ensures max1 < count && AllScalars(scalars[..])
      ensures Total(g, Keys(scalars[..]), points[..], count) == old(Total(g, Keys(scalars[..]), points[..], count))
      ensures OnlyOne(Keys(scalars[..]), Taken(count, extended), max1)
      ensures extended <==> Joins(old(Keys(scalars[..])), First(count))
      ensures IsGcd(ScalarValue(scalars[max1]), old(Keys(scalars[..])), Taken(count, extended))
      ensures extended ==> ScalarValue(scalars[max1]) < Pow(2, 128)
      ensures !extended ==>
        Multiple(g, ScalarValue(scalars[max1]), points[max1])
        == old(Total(g, Keys(scalars[..]), points[..], First(count)))
      ensures extended ==>
        Multiple(g, ScalarValue(scalars[max1]), points[max1]) == old(Total(g, Keys(scalars[..]), points[..], count))
    {
      hide IsPermutation, IsHeap, Keys, ScalarValue, IsAbelian, Total, Sum, Pow, AllScalars, AllShort, Steady, Multiple,
           Progress, Stepped, Ready, Joins, IsGcd, OnlyOne;
      var limbs := 4;
      extended := false;
      ghost var first, key0 := First(count), Keys(scalars[..]);
      ghost var whole, part := Total(g, key0, points[..], count), Total(g, key0, points[..], first);
      heap[0] := 0;
      size := 0;
      EmptyHeap(heap[..0], Keys(scalars[..]));
      Extend(First(count));
      StartsSteady(heap[..size], scalars[..], count);
      NoProgressYet(scalars[..], first, count);
      while true
        invariant Separate() && Steady(heap[..size], scalars[..], limbs, count, extended)
        invariant !extended ==> size == first
        invariant Progress(key0, Keys(scalars[..]), first, count, extended)
        invariant Total(g, Keys(scalars[..]), points[..], count) == whole
        invariant !extended ==> Total(g, Keys(scalars[..]), points[..], first) == part
        decreases Sum(Keys(scalars[..]), count)
      {
        SumIsNat(heap[..size], scalars[..], limbs, count, extended);
        ghost var key, before := Keys(scalars[..]), extended;
        var done;
        ghost var max2, top1, top2;
        done, max1, limbs, extended, max2, top1, top2 := Turn(g, count, limbs, extended);
        if done {
          break;
        }
        MoreProgress(key0, key, Keys(scalars[..]), first, count, before, extended, max1, max2, top1, top2);
      }
      LastOne(g, heap[..size], scalars[..], points[..], limbs, count, extended, max1);
      ProgressEnds(key0, Keys(scalars[..]), first, count, extended, max1);
    }

    /**
      ge25519_multi_scalarmult_vartime as a whole. What is left is the greatest
      common divisor of the scalars taken in: the sum asked for comes out when
      that is one, and with a power of two on top otherwise.
     */
    method MultiScalarMultVartime(g: Group<G>, count: nat)
      returns (inside: bool, r: G, extended: bool, max1: nat, ghost bits: nat)
      requires Separate() && IsAbelian(g) && 5 <= count <= heap.Length && count % 2 == 1
      requires AllScalars(scalars[..])
      requires forall i :: First(count) <= i < count ==> ScalarValue(scalars[i]) < Pow(2, 128)
      modifies this`size, heap, scalars, points
      ensures max1 < count && IsScalar(scalars[max1])
      ensures extended <==> Joins(old(Keys(scalars[..])), First(count))
      ensures IsGcd(ScalarValue(scalars[max1]), old(Keys(scalars[..])), Taken(count, extended))
      ensures extended ==> inside
      ensures inside <==> ScalarValue(scalars[max1]) <= 1 || LowPart(scalars[max1]) > 0
      ensures Coprime(old(Keys(scalars[..])), Taken(count, extended)) ==>
        inside && r == old(Total(g, Keys(scalars[..]), points[..], Taken(count, extended)))
      ensures ScalarValue(scalars[max1]) == 0 ==>
        r == old(Total(g, Keys(scalars[..]), points[..], Taken(count, extended)))
      ensures inside ==> HasBits(LowPart(scalars[max1]), bits)
      ensures extended && ScalarValue(scalars[max1]) >= 2 ==>
        r == g.add(Multiple(g, Pow(2, bits), points[max1]), old(Total(g, Keys(scalars[..]), points[..], count)))
      ensures extended ==>
        (r == old(Total(g, Keys(scalars[..]), points[..], count))
         <==> ScalarValue(scalars[max1]) <= 1 || Multiple(g, Pow(2, bits), points[max1]) == g.zero)
      ensures inside && ScalarValue(scalars[max1]) >= 2 ==>
        r == Multiple(g, Pow(2, bits) + LowPart(scalars[max1]), points[max1])
    {
      hide Keys, ScalarValue, LowPart, IsAbelian, Total, Pow, Multiple, HasBits, Joins, IsGcd, Coprime;
      max1, extended := MultiScalarMult(g, count);
      inside, r, bits := Final(g, points[max1], scalars[max1]);
      LowOfShort(scalars[max1]);
      OneIsCoprime(ScalarValue(scalars[max1]), old(Keys(scalars[..])), Taken(count, extended));
      MultipleSum(g, Pow(2, bits), ScalarValue(scalars[max1]), points[max1]);
      FinalIsExact(g, points[max1], ScalarValue(scalars[max1]), bits);
    }
  }

  lemma GrownPermutation(h: seq<nat>)
    requires IsPermutation(h)
    ensures IsPermutation(h + [|h|])
  {
    var s := h + [|h|];
    forall x | 0 <= x < |s|
      ensures x in s
    {
      if x < |h| {
        assert x in h;
      } else {
        assert s[|h|] == x;
      }
    }
  }

  lemma IndicesInRange(h: seq<nat>, key: seq<int>, a: nat, b: nat)
    requires IsPermutation(h) && a < |h| && b < |h| <= |key|
    ensures h[a] < |h| && h[b] < |h|
    ensures Fits(h, key)
  {
  }

  lemma LargerChild(h: seq<nat>, key: seq<int>, c: nat, d: nat)
    requires Sinking(h, key, c) && 2 * c + 2 < |h|
    requires Fits(h, key) && d == if key[h[2 * c + 1]] < key[h[2 * c + 2]] then 2 * c + 2 else 2 * c + 1
    ensures Sinking(Swapped(h, c, d), key, d)
  {
    SinkStep(h, key, c, d);
  }

  /** The number of scalars the heap starts with: odd, and as little above half of them as that allows. */
  function First(count: nat): (n: nat)
    ensures n % 2 == 1 && count <= 2 * n <= count + 3
  {
    var half := (count + 1) / 2;
    if half % 2 == 0 then half + 1 else half
  }

  /** How many scalars the loop has taken in. */
  function Taken(count: nat, extended: bool): nat {
    if extended then count else First(count)
  }

  /** Until the short scalars are in the heap, they are short and there are limbs enough for them. */
  ghost predicate Waiting(h: seq<nat>, key: seq<int>, limbs: nat, count: nat) {
    && 0 < |h| <= count <= |key| && h[0] < |key|
    && (forall i :: |h| <= i < count ==> key[i] < Pow(2, 128))
    && (limbs >= 3 || (limbs == 2 && key[h[0]] >= Pow(2, 127)))
  }

  ghost predicate Below128(key: seq<int>, count: nat) {
    count <= |key| && forall i :: 0 <= i < count ==> key[i] < Pow(2, 128)
  }

  /** What holds whenever the loop starts a turn. */
  ghost predicate Steady(h: seq<nat>, scalars: seq<seq<int>>, limbs: nat, count: nat, extended: bool) {
    && 3 <= |h| <= count <= |scalars| && |h| % 2 == 1 && limbs <= 4
    && IsPermutation(h) && AllScalars(scalars) && IsHeap(h, Keys(scalars)) && AllShort(scalars, |h|, limbs)
    && (extended ==> |h| == count && Below128(Keys(scalars), count))
    && (!extended ==> Waiting(h, Keys(scalars), limbs, count))
  }

  lemma EmptyHeap(h: seq<nat>, key: seq<int>)
    requires h == []
    ensures IsPermutation(h) && IsHeap(h, key)
  {
  }

  lemma StartsSteady(h: seq<nat>, scalars: seq<seq<int>>, count: nat)
    requires |h| == First(count) && 5 <= count <= |scalars| && count % 2 == 1
    requires IsPermutation(h) && AllScalars(scalars) && IsHeap(h, Keys(scalars))
    requires forall i :: First(count) <= i < count ==> ScalarValue(scalars[i]) < Pow(2, 128)
    ensures Steady(h, scalars, 4, count, false)
  {
    hide ScalarValue, Pow, Keys, IsHeap;
  }

  lemma SumIsNat(h: seq<nat>, scalars: seq<seq<int>>, limbs: nat, count: nat, extended: bool)
    requires Steady(h, scalars, limbs, count, extended)
    ensures Sum(Keys(scalars), count) >= 0
  {
    hide ScalarValue, Waiting, IsHeap, IsPermutation;
    forall i | 0 <= i < count
      ensures Keys(scalars)[i] >= 0
    {
      ScalarRange(scalars[i]);
    }
    SumNonNegative(Keys(scalars), count);
  }

  lemma LastOne<G(!new)>(g: Group<G>, h: seq<nat>, scalars: seq<seq<int>>, points: seq<G>, limbs: nat, count: nat,
                         extended: bool, i: nat)
    requires IsAbelian(g) && Steady(h, scalars, limbs, count, extended) && |points| >= count
    requires OnlyOne(Keys(scalars), |h|, i)
    ensures i < count && AllScalars(scalars)
    ensures extended ==> |h| == count && ScalarValue(scalars[i]) < Pow(2, 128)
    ensures Keys(scalars)[i] == ScalarValue(scalars[i])
    ensures Multiple(g, ScalarValue(scalars[i]), points[i]) == Total(g, Keys(scalars), points, |h|)
  {
    hide IsAbelian, Multiple, Total, ScalarValue, IsHeap, IsPermutation;
    OneLeft(g, Keys(scalars), points, i, |h|);
  }

  // ----- When the short scalars join, and what is left -----

  /** What the loop does to the scalars in one turn. */
  ghost predicate Stepped(key: seq<int>, next: seq<int>, n: nat, i: nat, j: nat) {
    && i < n <= |key| && j < n && i != j && 0 < key[j] <= key[i]
    && next == key[i := key[i] - key[j]]
  }

  /** The largest scalar is short, and the second largest is set. */
  ghost predicate Ready(key: seq<int>, n: nat, top1: nat, top2: nat) {
    Top2(key, n, top1, top2) && key[top2] > 0 && key[top1] < Pow(2, 128)
  }

  /**
    The condition on the scalars given for the short ones to join: two of the
    first n are set, and nothing of more than 128 bits divides all of those.
   */
  ghost predicate Joins(key: seq<int>, n: nat)
    requires n <= |key|
  {
    && TwoSet(key, n)
    && forall d: nat {:trigger DividesAll(d, key, n)} :: d > 0 && d >= Pow(2, 128) ==> !DividesAll(d, key, n)
  }

  /** Only one scalar is left, and it is not short. */
  ghost predicate Stuck(key: seq<int>, n: nat) {
    exists top: nat :: OnlyOne(key, n, top) && key[top] >= Pow(2, 128)
  }

  ghost predicate Progress(key0: seq<int>, key: seq<int>, n: nat, count: nat, extended: bool) {
    && n <= count <= |key0| == |key|
    && (forall i :: 0 <= i < count ==> 0 <= key[i] <= key0[i])
    && SameDivisors(key0, key, count)
    && (!extended ==> SameDivisors(key0, key, n) && (TwoSet(key0, n) ==> TwoSet(key, n) || Stuck(key, n)))
    && (extended ==> Joins(key0, n))
  }

  lemma NoProgressYet(scalars: seq<seq<int>>, n: nat, count: nat)
    requires AllScalars(scalars) && n <= count <= |scalars|
    ensures Progress(Keys(scalars), Keys(scalars), n, count, false)
  {
    hide ScalarValue;
    forall i | 0 <= i < count
      ensures Keys(scalars)[i] >= 0
    {
      ScalarRange(scalars[i]);
    }
  }

  /** Of two equal scalars that are not short, subtraction leaves one; otherwise two remain. */
  lemma TwoOrStuck(key: seq<int>, next: seq<int>, n: nat, i: nat, j: nat)
    requires Stepped(key, next, n, i, j) && key[i] >= Pow(2, 128) && forall k :: 0 <= k < n ==> key[k] >= 0
    ensures TwoSet(next, n) || Stuck(next, n)
  {
    hide Pow;
    if k :| 0 <= k < n && k != j && next[k] != 0 {
      assert next[j] != 0;
    } else {
      assert next[i] == 0;
      assert OnlyOne(next, n, j) && next[j] == key[i];
    }
  }

  lemma JoinsNow(key0: seq<int>, key: seq<int>, n: nat, top1: nat, top2: nat)
    requires n <= |key0| == |key| && Ready(key, n, top1, top2) && SameDivisors(key0, key, n)
    requires forall i :: 0 <= i < n ==> key[i] <= key0[i]
    ensures Joins(key0, n)
  {
    hide Pow, Divides;
    assert key0[top1] != 0 && key0[top2] != 0;
    forall d: nat | d > 0 && d >= Pow(2, 128)
      ensures !DividesAll(d, key0, n)
    {
      if DividesAll(d, key, n) {
        DivisorIsSmaller(d, key[top1]);
      }
    }
  }

  lemma MoreProgress(key0: seq<int>, key: seq<int>, next: seq<int>, n: nat, count: nat, before: bool, extended: bool,
                     i: nat, j: nat, top1: nat, top2: nat)
    requires Progress(key0, key, n, count, before) && (before ==> extended)
    requires Stepped(key, next, if extended then count else n, i, j)
    requires !extended ==> key[i] >= Pow(2, 128)
    requires extended && !before ==> Ready(key, n, top1, top2)
    ensures Progress(key0, next, n, count, extended)
  {
    hide Pow, Joins, Stuck, TwoSet, DividesAll, Ready;
    StepKeepsDivisors(key, i, j, count);
    if !extended {
      StepKeepsDivisors(key, i, j, n);
      TwoOrStuck(key, next, n, i, j);
    } else if !before {
      JoinsNow(key0, key, n, top1, top2);
    }
  }

  /** At the end: whether the short scalars joined is decided by the scalars given, and so is the one left. */
  lemma ProgressEnds(key0: seq<int>, key: seq<int>, n: nat, count: nat, extended: bool, i: nat)
    requires Progress(key0, key, n, count, extended) && OnlyOne(key, if extended then count else n, i)
    ensures extended <==> Joins(key0, n)
    ensures IsGcd(key[i], key0, if extended then count else n)
  {
    hide Pow, Divides, IsGcd;
    LastIsGcd(key0, key, if extended then count else n, i);
    if !extended && TwoSet(key0, n) {
      var top: nat :| OnlyOne(key, n, top) && key[top] >= Pow(2, 128);
      PowPositive(2, 128);
      SelfDivides(key, n, top);
      assert DividesAll(key[top], key0, n);
    }
  }

  lemma SelfDivides(key: seq<int>, n: nat, top: nat)
    requires OnlyOne(key, n, top) && key[top] > 0
    ensures DividesAll(key[top], key, n)
  {
  }

  lemma ScalarsInRange(scalars: seq<seq<int>>, key: seq<int>, size: nat, max1: nat, max2: nat)
    requires AllScalars(scalars) && key == Keys(scalars) && Top2(key, size, max1, max2)
    ensures max1 < size <= |scalars| && max2 < size && max1 != max2 && key[max2] <= key[max1]
    ensures IsScalar(scalars[max1]) && IsScalar(scalars[max2])
    ensures key[max1] == ScalarValue(scalars[max1]) && key[max2] == ScalarValue(scalars[max2]) >= 0
  {
    ScalarRange(scalars[max2]);
  }

  lemma RestAreZero(scalars: seq<seq<int>>, key: seq<int>, size: nat, max1: nat, max2: nat)
    requires AllScalars(scalars) && key == Keys(scalars) && Top2(key, size, max1, max2) && key[max2] == 0
    ensures OnlyOne(key, size, max1)
  {
    hide ScalarValue;
    forall k | 0 <= k < size && k != max1
      ensures key[k] == 0
    {
      ScalarRange(scalars[k]);
    }
  }

  /** A clear top limb of the largest scalar is clear in all, and is never the lowest limb. */
  lemma DropLimb(scalars: seq<seq<int>>, key: seq<int>, size: nat, limbs: nat, max1: nat, max2: nat)
    requires AllScalars(scalars) && AllShort(scalars, size, limbs) && limbs <= 4 && key == Keys(scalars)
    requires Top2(key, size, max1, max2) && key[max2] > 0 && |scalars[max1]| == 5 && scalars[max1][limbs] == 0
    ensures limbs > 0 && AllShort(scalars, size, limbs - 1)
    ensures key[max1] < Pow(LIMB, limbs)
  {
    hide ScalarValue, Pow;
    SmallerLimb(scalars[max1], limbs);
    LimbPowers();
    forall i | 0 <= i < size && limbs > 0
      ensures ZeroAbove(scalars[i], limbs - 1)
    {
      SmallerLimb(scalars[i], limbs);
    }
  }

  /** There are limbs for 128 bits when the short scalars come in. */
  lemma EnoughLimbs(h: seq<nat>, key: seq<int>, limbs0: nat, limbs: nat, count: nat)
    requires Waiting(h, key, limbs0, count)
    requires limbs == limbs0 || (limbs == limbs0 - 1 && key[h[0]] < Pow(LIMB, limbs0))
    ensures limbs >= 2
  {
    hide Pow;
    LimbPowers();
  }

  lemma AllShortAfter(h: seq<nat>, scalars: seq<seq<int>>, key: seq<int>, limbs0: nat, limbs: nat, count: nat,
                      max1: nat, max2: nat)
    requires AllScalars(scalars) && AllShort(scalars, |h|, limbs) && key == Keys(scalars) && limbs >= 2
    requires Waiting(h, key, limbs0, count) && Top2(key, |h|, max1, max2) && key[max1] < Pow(2, 128)
    ensures AllShort(scalars, count, limbs) && Below128(key, count)
  {
    hide ScalarValue, Pow, ZeroAbove;
    forall i | |h| <= i < count
      ensures ZeroAbove(scalars[i], limbs)
    {
      ShortScalar(scalars[i], limbs);
    }
  }

  lemma StillPositive(key: seq<int>, size0: nat, top1: nat, top2: nat, size: nat, max1: nat, max2: nat)
    requires Top2(key, size0, top1, top2) && key[top2] > 0 && size0 <= size && Top2(key, size, max1, max2)
    ensures key[max2] > 0
  {
    if top1 == max1 {
      assert key[top2] <= key[max2];
    } else {
      assert key[top1] <= key[max2];
    }
  }

  lemma {:induction false} TopIsLargest(h: seq<nat>, key: seq<int>, i: nat)
    requires IsHeap(h, key) && IsPermutation(h) && 3 <= |h| <= |key| && i < |h|
    ensures key[i] <= key[h[0]]
  {
    assert i in h;
    var n :| 0 <= n < |h| && h[n] == i;
    BelowTop2(h, key, n);
  }

  /** The largest scalar at most halves in a turn. */
  lemma StaysSteady(h: seq<nat>, scalars: seq<seq<int>>, key: seq<int>, limbs: nat, count: nat, extended: bool,
                    max1: nat, max2: nat)
    requires 3 <= |h| <= count <= |scalars| && |h| % 2 == 1 && limbs <= 4
    requires IsPermutation(h) && AllScalars(scalars) && IsHeap(h, Keys(scalars)) && AllShort(scalars, |h|, limbs)
    requires Top2(key, |h|, max1, max2) && |key| == |scalars|
    requires Keys(scalars) == key[max1 := key[max1] - key[max2]]
    requires extended ==> |h| == count && Below128(key, count) && key[max2] >= 0
    requires !extended ==> limbs >= 2 && key[max1] >= Pow(2, 128)
    requires !extended ==> forall i :: |h| <= i < count ==> key[i] < Pow(2, 128)
    ensures Steady(h, scalars, limbs, count, extended)
  {
    hide Pow, ScalarValue, Keys, ZeroAbove, IsHeap;
    if !extended {
      TopIsLargest(h, Keys(scalars), max1);
      TopIsLargest(h, Keys(scalars), max2);
      LimbPowers();
    }
  }

  // ----- The last scalar -----

  /** isone256_modm_batch */
  method IsOne(a: seq<int>) returns (one: bool)
    requires IsScalar(a)
    ensures one == (ScalarValue(a) == 1)
  {
    hide ScalarValue;
    for i := 0 to 5
      invariant forall k :: 0 <= k < i ==> a[k] == if k == 0 then 1 else 0
    {
      if a[i] != if i == 0 then 1 else 0 {
        NotOne(a, i);
        return false;
      }
    }
    OneValue(a);
    return true;
  }

  lemma OneValue(a: seq<int>)
    requires IsScalar(a) && forall k :: 0 <= k < 5 ==> a[k] == if k == 0 then 1 else 0
    ensures ScalarValue(a) == 1
  {
    ValueOfZeros(a[1..], LIMB);
  }

  lemma NotOne(a: seq<int>, i: nat)
    requires IsScalar(a) && i < 5 && a[i] != if i == 0 then 1 else 0
    ensures ScalarValue(a) != 1
  {
    if i == 0 {
      ValueOfDigits(a[1..], LIMB);
    } else {
      LargeLimb(a, i);
      PowSum(LIMB, 1, i - 1);
      PowPositive(LIMB, i - 1);
      hide ScalarValue, Pow;
    }
  }

  /** The bits of s, from the leading one on, are `bits` in number. */
  ghost predicate HasBits(s: int, bits: nat) {
    s < Pow(2, bits) && (s > 0 ==> bits > 0 && s >= Pow(2, bits - 1))
  }

  /** The four lower limbs: the fifth is not looked at. */
  function LowPart(s: seq<int>): int
    requires |s| == 5
  {
    Value(s[..4], LIMB)
  }

  /** The four lower limbs, from one of them on. */
  ghost function UpperPart(s: seq<int>, limb: nat): int
    requires limb <= 4 < |s|
  {
    Value(s[limb..4], LIMB)
  }

  lemma UpperStep(s: seq<int>, limb: nat)
    requires limb < 4 < |s|
    ensures UpperPart(s, limb) == s[limb] + LIMB * UpperPart(s, limb + 1)
  {
    assert s[limb..4][1..] == s[limb + 1..4];
  }

  lemma WholePart(s: seq<int>)
    requires IsScalar(s)
    ensures UpperPart(s, 0) == LowPart(s) >= 0 && UpperPart(s, 4) == 0
  {
    assert s[0..4] == s[..4] && s[4..4] == [];
    ValueOfDigits(s[..4], LIMB);
  }

  /** The lower limbs are what the scalar leaves on division by two to the 224th. */
  lemma LowPartIsRest(s: seq<int>)
    requires IsScalar(s)
    ensures ScalarValue(s) == LowPart(s) + Pow(LIMB, 4) * s[4] && 0 <= LowPart(s) < Pow(LIMB, 4)
  {
    assert s == s[..4] + [s[4]];
    ValueOfDigits(s[..4], LIMB);
    ValueOfJoin(s[..4], [s[4]], LIMB);
    assert Value([s[4]], LIMB) == s[4];
  }

  lemma LowOfShort(s: seq<int>)
    requires IsScalar(s)
    ensures ScalarValue(s) >= 0
    ensures ScalarValue(s) < Pow(2, 128) || ScalarValue(s) <= 1 ==> LowPart(s) == ScalarValue(s)
  {
    hide ScalarValue, LowPart, Pow;
    ScalarRange(s);
    ShortPower();
    if ScalarValue(s) < Pow(2, 128) {
      ShortScalar(s, 2);
      LowPartIsRest(s);
    }
  }

  lemma ShortPower()
    ensures Pow(2, 128) > 1
  {
    PowPositive(2, 127);
  }

  /** The leading bit: nothing is set above it. The search leaves the scalar if all lower limbs are clear. */
  method LeadingBit(s: seq<int>) returns (inside: bool, limb: nat, flag: nat, ghost j: nat)
    requires IsScalar(s)
    ensures inside <==> LowPart(s) > 0
    ensures inside ==> limb <= 3 && UpperPart(s, limb) == s[limb] < 2 * flag && flag <= s[limb]
    ensures inside ==> j <= 55 && flag == Pow(2, j)
  {
    hide LowPart, Pow, UpperPart;
    WholePart(s);
    limb := 3;
    UpperStep(s, 3);
    while s[limb] == 0
      invariant limb <= 3 && UpperPart(s, limb) == s[limb]
      decreases limb
    {
      if limb == 0 {
        return false, 0, 0, 0;
      }
      UpperStep(s, limb - 1);
      limb := limb - 1;
    }
    SomeLimb(s, limb);
    inside := true;
    flag := 0x80_0000_0000_0000;
    j := 55;
    TopBit();
    while s[limb] / flag % 2 == 0
      invariant j <= 55 && flag == Pow(2, j) && 0 < s[limb] < 2 * flag
      decreases j
    {
      NextFlag(s[limb], flag, j);
      flag := flag / 2;
      j := j - 1;
    }
    SetFlag(s[limb], flag);
  }

  lemma {:induction false} SomeLimb(s: seq<int>, limb: nat)
    requires IsScalar(s) && limb <= 3 && UpperPart(s, limb) > 0
    ensures LowPart(s) > 0
    decreases limb
  {
    hide LowPart, UpperPart;
    if limb == 0 {
      WholePart(s);
    } else {
      UpperStep(s, limb - 1);
      SomeLimb(s, limb - 1);
    }
  }

  lemma TopBit()
    ensures Pow(2, 55) == 0x80_0000_0000_0000
  {
    WidePowers();
    assert Pow(2, 56) == 2 * Pow(2, 55);
  }

  lemma NextFlag(x: nat, flag: nat, j: nat)
    requires flag == Pow(2, j) && 0 < x < 2 * flag && x / flag % 2 == 0
    ensures j > 0 && flag / 2 == Pow(2, j - 1) && 2 * (flag / 2) == flag && x < flag
  {
    PowPositive(2, j);
    if x >= flag {
      DivOne(x, flag);
      assert false;
    }
  }

  lemma DivOne(x: nat, flag: nat)
    requires 0 < flag <= x < 2 * flag
    ensures x / flag == 1
  {
  }

  lemma SetFlag(x: nat, flag: nat)
    requires flag > 0 && x / flag % 2 != 0
    ensures x >= flag
  {
    if x < flag {
      assert false;
    }
  }

  /** What the loop has taken in: the bits from the leading one down to above the flag. */
  ghost predicate Read(s: seq<int>, limb: nat, flag: nat, n: int)
    requires limb < 4 < |s|
  {
    flag > 0 && UpperPart(s, limb) == n * (2 * flag) + s[limb] % (2 * flag)
  }

  lemma TakeNext(s: seq<int>, limb: nat, flag: nat, n: int, j: nat)
    requires IsScalar(s) && limb < 4 && Read(s, limb, flag, n) && flag == Pow(2, j)
    ensures
      var next := 2 * n + s[limb] / flag % 2;
      && (j > 0 ==> flag / 2 == Pow(2, j - 1) > 0 && Read(s, limb, flag / 2, next))
      && (j == 0 ==> flag / 2 == 0 && UpperPart(s, limb) == next)
  {
    hide UpperPart;
    assert s[limb] >= 0;
    Halves(s[limb], flag);
    Regrouped(n, flag, s[limb] / flag % 2, s[limb] % flag);
    if j > 0 {
      assert flag == 2 * Pow(2, j - 1);
      PowPositive(2, j - 1);
    } else {
      assert flag == 1;
    }
  }

  lemma Halves(x: nat, flag: nat)
    requires flag > 0
    ensures x % (2 * flag) == x / flag % 2 * flag + x % flag
  {
    var q, r := x / flag, x % flag;
    var h, b := q / 2, q % 2;
    assert x == flag * q + r && q == 2 * h + b;
    assert flag * (2 * h + b) == 2 * flag * h + b * flag;
    assert 0 <= b * flag + r < 2 * flag by {
      assert b == 0 || b == 1;
    }
    ModBy(x, 2 * flag, h, b * flag + r);
  }

  lemma Regrouped(n: int, flag: nat, b: int, low: int)
    ensures n * (2 * flag) + (b * flag + low) == (2 * n + b) * flag + low
  {
    assert (2 * n + b) * flag == 2 * n * flag + b * flag;
  }

  /** Doubling, then adding the point if the bit is set, on a multiple that carries an extra power of two. */
  lemma DoubleAndAdd<G(!new)>(g: Group<G>, p: G, k: nat, n: int, bit: int)
    requires IsAbelian(g) && 0 <= bit <= 1
    ensures
      var r := Multiple(g, Pow(2, k) + n, p);
      var d := g.add(r, r);
      (if bit == 1 then g.add(d, p) else d) == Multiple(g, Pow(2, k + 1) + (2 * n + bit), p)
  {
    hide IsAbelian, Multiple, Pow;
    PowStep(k);
    var m := Pow(2, k) + n;
    MultipleSum(g, m, m, p);
    MultipleOne(g, p);
    MultipleSum(g, 2 * m, 1, p);
  }

  lemma MoreBits(n: int, k: nat, bit: int)
    requires HasBits(n, k) && 0 <= bit <= 1 && 0 <= n && (n == 0 ==> k == 0 && bit == 1)
    ensures HasBits(2 * n + bit, k + 1)
  {
    if n > 0 {
      assert Pow(2, k) == 2 * Pow(2, k - 1);
    }
  }

  /**
    ge25519_multi_scalarmult_vartime_final. The result starts out as the
    point and is doubled for the leading bit too, so for a scalar above one it
    exceeds the multiple by a power of two. Past the tests for zero and one the
    fifth limb is not read; with nothing below it the search for the leading
    limb leaves the scalar, and there is no result.
   */
  method Final<G(!new)>(g: Group<G>, point: G, s: seq<int>) returns (inside: bool, r: G, ghost bits: nat)
    requires IsAbelian(g) && IsScalar(s)
    ensures inside <==> ScalarValue(s) <= 1 || LowPart(s) > 0
    ensures inside ==> HasBits(LowPart(s), bits)
    ensures ScalarValue(s) <= 1 ==> r == Multiple(g, ScalarValue(s), point)
    ensures inside && ScalarValue(s) >= 2 ==> r == Multiple(g, Pow(2, bits) + LowPart(s), point)
  {
    hide IsAbelian, Multiple, Pow, ScalarValue, LowPart, UpperPart, HasBits, Read;
    LowOfShort(s);
    ShortBits();
    MultipleOne(g, point);
    MultipleZero(g, point);
    inside := true;
    var one := IsOne(s);
    if one {
      return true, point, 1;
    }
    var zero := IsZero(s);
    if zero {
      return true, g.zero, 0;
    }
    r := point;
    var limb: nat, flag: nat;
    ghost var j: nat;
    inside, limb, flag, j := LeadingBit(s);
    if !inside {
      return false, r, 0;
    }
    bits := 0;
    ghost var n := 0;
    StartTaking(s, limb, flag);
    while true
      invariant limb <= 3 && j <= 55 && flag == Pow(2, j) && flag > 0 && Read(s, limb, flag, n) && 0 <= n
      invariant HasBits(n, bits) && (n == 0 ==> bits == 0 && s[limb] / flag % 2 == 1)
      invariant r == Multiple(g, Pow(2, bits) + n, point)
      decreases limb, j
    {
      ghost var bit := s[limb] / flag % 2;
      TakeNext(s, limb, flag, n, j);
      DoubleAndAdd(g, point, bits, n, bit);
      MoreBits(n, bits, bit);
      r := g.add(r, r);
      if s[limb] / flag % 2 == 1 {
        r := g.add(r, point);
      }
      n, bits := 2 * n + bit, bits + 1;
      flag := flag / 2;
      if flag == 0 {
        if limb == 0 {
          break;
        }
        NextLimb(s, limb, n);
        limb := limb - 1;
        flag := 0x80_0000_0000_0000;
        j := 55;
        TopBit();
      } else {
        j := j - 1;
      }
    }
    WholePart(s);
  }

  lemma ShortBits()
    ensures HasBits(0, 0) && HasBits(1, 1) && Pow(2, 0) == 1
  {
  }

  lemma StartTaking(s: seq<int>, limb: nat, flag: nat)
    requires limb < 4 < |s| && 0 < flag <= s[limb] < 2 * flag && UpperPart(s, limb) == s[limb]
    ensures Read(s, limb, flag, 0) && s[limb] / flag % 2 == 1
  {
    DivOne(s[limb], flag);
    ModBy(s[limb], 2 * flag, 0, s[limb]);
  }

  lemma NextLimb(s: seq<int>, limb: nat, n: int)
    requires IsScalar(s) && 0 < limb < 4 && UpperPart(s, limb) == n
    ensures Read(s, limb - 1, 0x80_0000_0000_0000, n)
  {
    UpperStep(s, limb - 1);
    hide UpperPart;
  }

  /** The result is the multiple asked for exactly when the extra power of two does not move the point. */
  lemma FinalIsExact<G(!new)>(g: Group<G>, point: G, s: int, bits: nat)
    requires IsAbelian(g)
    ensures Multiple(g, Pow(2, bits) + s, point) == Multiple(g, s, point) <==> Multiple(g, Pow(2, bits), point) == g.zero
  {
    hide IsAbelian, Multiple, Pow;
    var x, y := Multiple(g, Pow(2, bits), point), Multiple(g, s, point);
    MultipleSum(g, Pow(2, bits), s, point);
    Unit(g, y);
    if g.add(x, y) == y {
      Cancel(g, x, g.zero, y);
    }
  }

  const INTEGERS: Group<int> := Group(0, (x: int, y: int) => x + y, (x: int) => -x)

  lemma IntegersAreAbelian()
    ensures IsAbelian(INTEGERS)
  {
  }

  lemma {:induction false} TimesOne(n: nat)
    ensures Times(INTEGERS, n, 1) == n
  {
    if n > 0 {
      TimesOne(n - 1);
    }
  }

  /** With the integers as the group, twice the point 1 comes out as 6. */
  method FinalExceeds() returns (r: int)
    ensures r == 6 != Multiple(INTEGERS, ScalarValue([2, 0, 0, 0, 0]), 1)
  {
    hide IsAbelian, Times, ScalarValue, LowPart, Pow;
    IntegersAreAbelian();
    Powers();
    TimesOne(2);
    TimesOne(6);
    TwoIsTwo();
    var inside;
    ghost var bits;
    inside, r, bits := Final(INTEGERS, 1, [2, 0, 0, 0, 0]);
    BitsOfTwo(bits);
  }

  lemma TwoIsTwo()
    ensures ScalarValue([2, 0, 0, 0, 0]) == LowPart([2, 0, 0, 0, 0]) == 2
  {
    var s := [2, 0, 0, 0, 0];
    ValueOfZeros(s[1..], LIMB);
    ValueOfZeros(s[..4][1..], LIMB);
  }

  lemma BitsOfTwo(bits: nat)
    requires HasBits(2, bits)
    ensures Pow(2, bits) == 4
  {
    if bits > 2 {
      PowPositive(2, bits - 3);
      assert Pow(2, bits - 1) == 4 * Pow(2, bits - 3) by {
        assert Pow(2, bits - 1) == 2 * Pow(2, bits - 2);
      }
    }
  }
}
