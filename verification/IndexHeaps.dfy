/** Binary heaps of indices, ordered by the keys the indices stand for; the largest is at the root. */
module IndexHeaps {

  predicate IsPermutation(h: seq<nat>) {
    && (forall i :: 0 <= i < |h| ==> h[i] < |h|)
    && (forall i, j :: 0 <= i < j < |h| ==> h[i] != h[j])
    && (forall x :: 0 <= x < |h| ==> x in h)
  }

  function Swapped(h: seq<nat>, a: nat, b: nat): (s: seq<nat>)
    requires a < |h| && b < |h|
    ensures |s| == |h|
  {
    h[a := h[b]][b := h[a]]
  }

  lemma SwapKeeps(h: seq<nat>, a: nat, b: nat)
    requires IsPermutation(h) && a < |h| && b < |h|
    ensures IsPermutation(Swapped(h, a, b))
  {
    var s := Swapped(h, a, b);
    forall x | 0 <= x < |s|
      ensures x in s
    {
      assert x in h;
      var k :| 0 <= k < |h| && h[k] == x;
      assert s[if k == a then b else if k == b then a else k] == x;
    }
  }

  function Up(n: nat): nat
    requires n > 0
  {
    (n - 1) / 2
  }

  predicate Fits(h: seq<nat>, key: seq<int>) {
    forall i :: 0 <= i < |h| ==> h[i] < |key|
  }

  predicate Ordered(h: seq<nat>, key: seq<int>, n: nat)
    requires Fits(h, key) && 1 <= n < |h|
  {
    key[h[n]] <= key[h[Up(n)]]
  }

  predicate IsHeap(h: seq<nat>, key: seq<int>) {
    Fits(h, key) && forall n {:trigger Ordered(h, key, n)} :: 1 <= n < |h| ==> Ordered(h, key, n)
  }

  /** What is below position c is no larger than what is above it. */
  predicate Bridged(h: seq<nat>, key: seq<int>, c: nat)
    requires Fits(h, key)
  {
    c > 0 ==> forall n {:trigger h[n]} :: 1 <= n < |h| && Up(n) == c ==> key[h[n]] <= key[h[Up(c)]]
  }

  /** A heap but for position c, which may be too large for where it is. */
  predicate Rising(h: seq<nat>, key: seq<int>, c: nat) {
    && Fits(h, key) && c < |h|
    && (forall n {:trigger Ordered(h, key, n)} :: 1 <= n < |h| && n != c ==> Ordered(h, key, n))
    && Bridged(h, key, c)
  }

  /** A heap but for position c, which may be out of order with its parent and its children. */
  predicate Sinking(h: seq<nat>, key: seq<int>, c: nat) {
    && Fits(h, key) && c < |h|
    && (forall n {:trigger Ordered(h, key, n)} :: 1 <= n < |h| && n != c && Up(n) != c ==> Ordered(h, key, n))
    && Bridged(h, key, c)
  }

  lemma RiseStep(h: seq<nat>, key: seq<int>, c: nat)
    requires Rising(h, key, c) && c > 0 && key[h[Up(c)]] <= key[h[c]]
    ensures Rising(Swapped(h, Up(c), c), key, Up(c))
  {
    var p := Up(c);
    var s := Swapped(h, p, c);
    forall n | 1 <= n < |s| && n != p
      ensures Ordered(s, key, n)
    {
      if n != c {
        assert Ordered(h, key, n);
      }
      if p > 0 {
        assert Ordered(h, key, p);
      }
    }
    forall n | p > 0 && 1 <= n < |s| && Up(n) == p
      ensures key[s[n]] <= key[s[Up(p)]]
    {
      assert Ordered(h, key, p);
      if n != c {
        assert Ordered(h, key, n);
      }
    }
  }

  lemma RiseDone(h: seq<nat>, key: seq<int>, c: nat)
    requires Rising(h, key, c) && (c > 0 ==> key[h[c]] <= key[h[Up(c)]])
    ensures IsHeap(h, key)
  {
    forall n | 1 <= n < |h|
      ensures Ordered(h, key, n)
    {
    }
  }

  lemma SinkStep(h: seq<nat>, key: seq<int>, c: nat, d: nat)
    requires Sinking(h, key, c) && 0 < d < |h| && Up(d) == c
    requires forall n {:trigger h[n]} :: 1 <= n < |h| && Up(n) == c ==> key[h[n]] <= key[h[d]]
    ensures Sinking(Swapped(h, c, d), key, d)
  {
    var s := Swapped(h, c, d);
    forall n | 1 <= n < |s| && n != d && Up(n) != d
      ensures Ordered(s, key, n)
    {
      if n != c && Up(n) != c {
        assert Ordered(h, key, n);
      }
    }
    forall n | 1 <= n < |s| && Up(n) == d
      ensures key[s[n]] <= key[s[Up(d)]]
    {
      assert Ordered(h, key, n);
    }
  }

  lemma SinkDone(h: seq<nat>, key: seq<int>, c: nat)
    requires Sinking(h, key, c) && 2 * c + 1 >= |h|
    ensures Rising(h, key, c)
  {
    forall n | 1 <= n < |h| && n != c
      ensures Ordered(h, key, n)
    {
      assert Up(n) != c;
    }
  }

  lemma RootChanged(h: seq<nat>, key: seq<int>, changed: seq<int>)
    requires IsHeap(h, key) && IsPermutation(h) && |h| > 0
    requires |changed| == |key| && forall i :: 0 <= i < |key| && i != h[0] ==> changed[i] == key[i]
    ensures Sinking(h, changed, 0)
  {
    forall n | 1 <= n < |h| && Up(n) != 0
      ensures Ordered(h, changed, n)
    {
      assert Ordered(h, key, n);
    }
  }

  lemma LeafAdded(h: seq<nat>, key: seq<int>)
    requires IsHeap(h, key) && |h| < |key|
    ensures Rising(h + [|h|], key, |h|)
  {
    var s := h + [|h|];
    forall n | 1 <= n < |s| && n != |h|
      ensures Ordered(s, key, n)
    {
      assert Ordered(h, key, n);
    }
  }

  lemma {:induction false} BelowTop2(h: seq<nat>, key: seq<int>, n: nat)
    requires IsHeap(h, key) && |h| >= 3 && n < |h|
    ensures key[h[n]] <= key[h[0]]
    ensures n > 0 ==> key[h[n]] <= key[h[1]] || key[h[n]] <= key[h[2]]
  {
    if n > 0 {
      assert Ordered(h, key, n);
      BelowTop2(h, key, Up(n));
    }
  }

  /** max1 has the largest key, and max2 the largest of the rest. */
  predicate Top2(key: seq<int>, size: nat, max1: nat, max2: nat) {
    && size <= |key| && max1 < size && max2 < size && max1 != max2
    && (forall i :: 0 <= i < size ==> key[i] <= key[max1])
    && (forall i :: 0 <= i < size && i != max1 ==> key[i] <= key[max2])
  }

  lemma TopOfHeap(h: seq<nat>, key: seq<int>, max2: nat)
    requires IsHeap(h, key) && IsPermutation(h) && |h| >= 3 && |h| <= |key|
    requires max2 == (if key[h[1]] < key[h[2]] then h[2] else h[1])
    ensures Top2(key, |h|, h[0], max2)
  {
    forall i | 0 <= i < |h|
      ensures key[i] <= key[h[0]] && (i != h[0] ==> key[i] <= key[max2])
    {
      assert i in h;
      var n :| 0 <= n < |h| && h[n] == i;
      BelowTop2(h, key, n);
    }
  }
}
