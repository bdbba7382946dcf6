/** Powers and the value of a digit sequence, least significant digit first. */
module Digits {

  function Pow(b: nat, n: nat): nat {
    if n == 0 then 1 else b * Pow(b, n - 1)
  }

  lemma {:induction false} PowSum(b: nat, m: nat, n: nat)
    ensures Pow(b, m + n) == Pow(b, m) * Pow(b, n)
  {
    if m == 0 {
    } else {
      PowSum(b, m - 1, n);
      assert b * (Pow(b, m - 1) * Pow(b, n)) == b * Pow(b, m - 1) * Pow(b, n);
    }
  }

  lemma PowStep(n: nat)
    ensures Pow(2, n + 1) == 2 * Pow(2, n)
  {
  }

  lemma {:induction false} PowPositive(b: nat, n: nat)
    requires b > 0
    ensures Pow(b, n) > 0
  {
    if n > 0 {
      PowPositive(b, n - 1);
    }
  }

  lemma {:induction false} PowPow(b: nat, m: nat, n: nat)
    ensures Pow(Pow(b, m), n) == Pow(b, m * n)
  {
    if n == 0 {
    } else {
      PowPow(b, m, n - 1);
      PowSum(b, m, m * (n - 1));
      assert m + m * (n - 1) == m * n;
    }
  }

  lemma Powers()
    ensures Pow(2, 1) == 2 && Pow(2, 2) == 4 && Pow(2, 3) == 8 && Pow(2, 4) == 16
    ensures Pow(2, 5) == 32 && Pow(2, 6) == 64 && Pow(2, 7) == 128 && Pow(2, 8) == 256
  {
    assert Pow(2, 0) == 1 && Pow(2, 1) == 2 && Pow(2, 2) == 4 && Pow(2, 3) == 8 && Pow(2, 4) == 16;
  }

  lemma WidePowers()
    ensures Pow(2, 32) == 0x1_0000_0000 && Pow(2, 56) == 0x100_0000_0000_0000
    ensures Pow(2, 64) == 0x1_0000_0000_0000_0000
  {
    Powers();
    hide Pow;
    PowSum(2, 8, 8);
    PowSum(2, 16, 16);
    PowSum(2, 32, 16);
    PowSum(2, 48, 8);
    PowSum(2, 32, 32);
  }

  lemma Scale(a: nat, x: int, y: int)
    requires x <= y
    ensures a * x <= a * y
  {
  }

  lemma Distribute(a: int, x: int, y: int)
    ensures a * (x + y) == a * x + a * y
  {
  }

  lemma Product(a: int, b: int)
    ensures a * b == b * a && a * -b == -(a * b)
  {
  }

  lemma ModBy(x: int, m: nat, k: int, r: int)
    requires m > 0 && x == r + m * k && 0 <= r < m
    ensures x % m == r
  {
    var d := x / m - k;
    assert m * d == m * (x / m) - m * k;
    if d >= 1 {
      Scale(m, 1, d);
      assert false;
    } else if d <= -1 {
      Scale(m, d, -1);
      assert false;
    }
  }

  lemma DivBy(x: int, m: nat, k: int, r: int)
    requires m > 0 && x == r + m * k && 0 <= r < m
    ensures x / m == k
  {
    ModBy(x, m, k, r);
    var d := x / m - k;
    assert m * d == m * (x / m) - m * k == 0;
    if d >= 1 {
      Scale(m, 1, d);
      assert false;
    } else if d <= -1 {
      Scale(m, d, -1);
      assert false;
    }
  }

  function Value(d: seq<int>, base: nat): int {
    if d == [] then 0 else d[0] + base * Value(d[1..], base)
  }

  lemma {:induction false} ValueOfJoin(a: seq<int>, b: seq<int>, base: nat)
    ensures Value(a + b, base) == Value(a, base) + Pow(base, |a|) * Value(b, base)
  {
    if a == [] {
      assert a + b == b;
    } else {
      ValueOfJoin(a[1..], b, base);
      assert (a + b)[1..] == a[1..] + b;
      var p, v := Pow(base, |a| - 1), Value(b, base);
      Distribute(base, Value(a[1..], base), p * v);
      assert base * (p * v) == base * p * v;
    }
  }

  lemma ValueSplit(d: seq<int>, i: nat, base: nat)
    requires i <= |d|
    ensures Value(d, base) == Value(d[..i], base) + Pow(base, i) * Value(d[i..], base)
  {
    assert d == d[..i] + d[i..];
    ValueOfJoin(d[..i], d[i..], base);
  }

  lemma ValueOfUpdate(d: seq<int>, i: nat, v: int, base: nat)
    requires i < |d|
    ensures Value(d[i := v], base) == Value(d, base) + (v - d[i]) * Pow(base, i)
  {
    var e := d[i := v];
    ValueSplit(d, i, base);
    ValueSplit(e, i, base);
    assert e[..i] == d[..i];
    assert e[i..][1..] == d[i..][1..];
    var p, rest := Pow(base, i), base * Value(d[i..][1..], base);
    assert p * (v + rest) == p * (d[i] + rest) + (v - d[i]) * p;
  }

  /** One more digit at the top. */
  lemma ValueOfTop(d: seq<int>, i: nat, base: nat)
    requires i < |d|
    ensures Value(d[..i + 1], base) == Value(d[..i], base) + d[i] * Pow(base, i)
  {
    assert d[..i + 1] == d[..i] + [d[i]];
    ValueOfJoin(d[..i], [d[i]], base);
    assert Value([d[i]], base) == d[i] + base * Value([], base);
  }

  predicate Between(d: seq<int>, from: int, to: int) {
    forall i :: 0 <= i < |d| ==> from <= d[i] <= to
  }

  lemma {:induction false} ValueOfDigits(d: seq<int>, base: nat)
    requires base > 0 && Between(d, 0, base - 1)
    ensures 0 <= Value(d, base) < Pow(base, |d|)
  {
    if d != [] {
      ValueOfDigits(d[1..], base);
      Scale(base, 0, Value(d[1..], base));
      Scale(base, Value(d[1..], base), Pow(base, |d| - 1) - 1);
      Distribute(base, Pow(base, |d| - 1), -1);
    }
  }

  function Low(v: nat, base: nat): int
    requires base > 0
  {
    v % base
  }

  function Rest(v: nat, base: nat): nat
    requires base > 0
  {
    v / base
  }

  /** The n lowest digits of v. */
  function DigitsOf(v: nat, base: nat, n: nat): (d: seq<int>)
    requires base > 0
    ensures |d| == n
    decreases n
  {
    if n == 0 then [] else [Low(v, base)] + DigitsOf(Rest(v, base), base, n - 1)
  }

  lemma Quotient(v: nat, base: nat, bound: nat)
    requires base > 0 && v < base * bound
    ensures v == base * Rest(v, base) + Low(v, base)
    ensures Rest(v, base) < bound && 0 <= Low(v, base) < base
  {
    if v / base >= bound {
      Scale(base, bound, v / base);
      assert false;
    }
  }

  lemma {:induction false} DigitsOfValue(v: nat, base: nat, n: nat)
    requires base > 0 && v < Pow(base, n)
    ensures Value(DigitsOf(v, base, n), base) == v
    ensures Between(DigitsOf(v, base, n), 0, base - 1)
  {
    hide Low, Rest;
    if n > 0 {
      var d := DigitsOf(Rest(v, base), base, n - 1);
      Quotient(v, base, Pow(base, n - 1));
      DigitsOfValue(Rest(v, base), base, n - 1);
      assert ([Low(v, base)] + d)[1..] == d;
    }
  }

  lemma {:induction false} ValueOfZeros(d: seq<int>, base: nat)
    requires Between(d, 0, 0)
    ensures Value(d, base) == 0
  {
    if d != [] {
      ValueOfZeros(d[1..], base);
    }
  }
}
