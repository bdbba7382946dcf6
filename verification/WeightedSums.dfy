/** Sums of scalar multiples over any abelian group, and what the Bos-Coster step does to them. */
module WeightedSums {
  import opened Groups

  function Total<G>(g: Group<G>, key: seq<int>, points: seq<G>, n: nat): G
    requires n <= |key| && n <= |points|
  {
    if n == 0 then g.zero else g.add(Total(g, key, points, n - 1), Multiple(g, key[n - 1], points[n - 1]))
  }

  function Sum(key: seq<int>, n: nat): int
    requires n <= |key|
  {
    if n == 0 then 0 else Sum(key, n - 1) + key[n - 1]
  }

  lemma {:induction false} SumChanged(key: seq<int>, i: nat, x: int, n: nat)
    requires i < n <= |key|
    ensures Sum(key[i := x], n) == Sum(key, n) + x - key[i]
  {
    if n == i + 1 {
      SumSame(key, key[i := x], i);
    } else {
      SumChanged(key, i, x, n - 1);
    }
  }

  lemma {:induction false} SumSame(key: seq<int>, other: seq<int>, n: nat)
    requires n <= |key| && n <= |other| && forall i :: 0 <= i < n ==> key[i] == other[i]
    ensures Sum(key, n) == Sum(other, n)
  {
    if n > 0 {
      SumSame(key, other, n - 1);
    }
  }

  lemma {:induction false} SumNonNegative(key: seq<int>, n: nat)
    requires n <= |key| && forall i :: 0 <= i < n ==> key[i] >= 0
    ensures Sum(key, n) >= 0
  {
    if n > 0 {
      SumNonNegative(key, n - 1);
    }
  }

  lemma {:induction false} TotalSame<G(!new)>(g: Group<G>, key: seq<int>, points: seq<G>, key2: seq<int>, points2: seq<G>, n: nat)
    requires IsAbelian(g) && n <= |key| && n <= |points| && n <= |key2| && n <= |points2|
    requires forall i :: 0 <= i < n ==> key[i] == key2[i] && (key[i] == 0 || points[i] == points2[i])
    ensures Total(g, key, points, n) == Total(g, key2, points2, n)
  {
    hide IsAbelian;
    if n > 0 {
      TotalSame(g, key, points, key2, points2, n - 1);
    }
  }

  /** One entry taken out of the total. */
  lemma {:induction false} TotalWithout<G(!new)>(g: Group<G>, key: seq<int>, points: seq<G>, i: nat, n: nat)
    requires IsAbelian(g) && i < n && n <= |key| && n <= |points|
    ensures Total(g, key, points, n) == g.add(Total(g, key[i := 0], points, n), Multiple(g, key[i], points[i]))
  {
    hide IsAbelian, Multiple;
    var rest := Total(g, key[i := 0], points, n - 1);
    if n == i + 1 {
      TotalSame(g, key, points, key[i := 0], points, i);
      MultipleZero(g, points[i]);
      Unit(g, rest);
    } else {
      TotalWithout(g, key, points, i, n - 1);
      var x, y := Multiple(g, key[i], points[i]), Multiple(g, key[n - 1], points[n - 1]);
      Assoc(g, rest, x, y);
      Comm(g, x, y);
      Assoc(g, rest, y, x);
    }
  }

  lemma {:induction false} TotalOfZeros<G(!new)>(g: Group<G>, key: seq<int>, points: seq<G>, n: nat)
    requires IsAbelian(g) && n <= |key| && n <= |points| && forall i :: 0 <= i < n ==> key[i] == 0
    ensures Total(g, key, points, n) == g.zero
  {
    hide IsAbelian;
    if n > 0 {
      TotalOfZeros(g, key, points, n - 1);
      Unit(g, g.zero);
    }
  }

  lemma OneLeft<G(!new)>(g: Group<G>, key: seq<int>, points: seq<G>, i: nat, n: nat)
    requires IsAbelian(g) && i < n && n <= |key| && n <= |points|
    requires forall k :: 0 <= k < n && k != i ==> key[k] == 0
    ensures Total(g, key, points, n) == Multiple(g, key[i], points[i])
  {
    hide IsAbelian, Multiple, Total;
    TotalWithout(g, key, points, i, n);
    TotalOfZeros(g, key[i := 0], points, n);
    Unit(g, Multiple(g, key[i], points[i]));
  }

  /** a P + b Q == (a - b) P + b (P + Q) */
  lemma PairStep<G(!new)>(g: Group<G>, a: int, b: int, p: G, q: G)
    requires IsAbelian(g)
    ensures g.add(Multiple(g, a, p), Multiple(g, b, q)) == g.add(Multiple(g, a - b, p), Multiple(g, b, g.add(q, p)))
  {
    hide IsAbelian, Multiple;
    MultipleOfSum(g, b, q, p);
    var x, y, z := Multiple(g, a - b, p), Multiple(g, b, p), Multiple(g, b, q);
    MultipleSum(g, a - b, b, p);
    Comm(g, z, y);
    Assoc(g, x, y, z);
  }

  /** The Bos-Coster step leaves the total alone. */
  lemma StepKeepsTotal<G(!new)>(g: Group<G>, key: seq<int>, points: seq<G>, i: nat, j: nat, n: nat)
    requires IsAbelian(g) && i < n && j < n && i != j && n <= |key| && n <= |points|
    ensures Total(g, key[i := key[i] - key[j]], points[j := g.add(points[j], points[i])], n)
         == Total(g, key, points, n)
  {
    hide IsAbelian, Multiple, Total;
    var key2, points2 := key[i := key[i] - key[j]], points[j := g.add(points[j], points[i])];
    TotalWithout(g, key, points, i, n);
    TotalWithout(g, key[i := 0], points, j, n);
    TotalWithout(g, key2, points2, i, n);
    TotalWithout(g, key2[i := 0], points2, j, n);
    assert key2[i := 0] == key[i := 0];
    var zeroed := key[i := 0][j := 0];
    TotalSame(g, zeroed, points, zeroed, points2, n);
    var rest := Total(g, zeroed, points, n);
    PairStep(g, key[i], key[j], points[i], points[j]);
    Regroup(g, rest, Multiple(g, key[j], points[j]), Multiple(g, key[i], points[i]));
    Regroup(g, rest, Multiple(g, key[j], points2[j]), Multiple(g, key[i] - key[j], points[i]));
  }

  /** (a + b) + c == a + (c + b) */
  lemma Regroup<G(!new)>(g: Group<G>, a: G, b: G, c: G)
    requires IsAbelian(g)
    ensures g.add(g.add(a, b), c) == g.add(a, g.add(c, b))
  {
    hide IsAbelian;
    Assoc(g, a, b, c);
    Comm(g, b, c);
  }
}
