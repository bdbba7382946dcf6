/**
  The two scalar multiplication drivers over any abelian group: the points of
  the curve are the group, whatever coordinates an operation uses.
 */
module ScalarMult {
  import opened Digits
  import opened Groups
  import opened Recoding
  import opened Scalars

  const S1_WINDOW: nat := 5
  const S2_WINDOW: nat := 7
  const S1_TABLE: nat := 8
  const S2_TABLE: nat := 32

  /** Entry k holds the odd multiple 2k + 1 of p. */
  ghost predicate OddMultiples<G(!new)>(g: Group<G>, table: seq<G>, p: G) {
    forall k {:trigger table[k]} :: 0 <= k < |table| ==> table[k] == Multiple(g, 2 * k + 1, p)
  }

  function Abs(d: int): nat {
    if d < 0 then -d else d
  }

  /** Adds or subtracts a table entry, as the sign says. */
  function AddSigned<G>(g: Group<G>, r: G, entry: G, negative: bool): G {
    g.add(r, if negative then g.neg(entry) else entry)
  }

  lemma TableIndex(d: int, window: nat, size: nat)
    requires window >= 2 && size == Pow(2, window - 2)
    requires Settled(d, Pow(2, window - 1) - 1) && d != 0
    ensures Abs(d) / 2 < size && Abs(d) == 2 * (Abs(d) / 2) + 1
  {
    assert Pow(2, window - 1) == 2 * Pow(2, window - 2);
  }

  lemma AddDigit<G(!new)>(g: Group<G>, table: seq<G>, p: G, r: G, d: int)
    requires IsAbelian(g) && OddMultiples(g, table, p)
    requires Abs(d) / 2 < |table| && Abs(d) == 2 * (Abs(d) / 2) + 1
    ensures AddSigned(g, r, table[Abs(d) / 2], d < 0) == g.add(r, Multiple(g, d, p))
  {
    hide IsAbelian, Multiple;
    assert table[Abs(d) / 2] == Multiple(g, Abs(d), p);
    MultipleNeg(g, Abs(d), p);
  }

  lemma DoubleOf<G(!new)>(g: Group<G>, n: int, p: G)
    requires IsAbelian(g)
    ensures g.add(Multiple(g, n, p), Multiple(g, n, p)) == Multiple(g, 2 * n, p)
  {
    hide IsAbelian, Multiple;
    MultipleSum(g, n, n, p);
  }

  /** Doubling a sum of two multiples. */
  lemma DoublePair<G(!new)>(g: Group<G>, a: int, p: G, b: int, q: G)
    requires IsAbelian(g)
    ensures
      var r := g.add(Multiple(g, a, p), Multiple(g, b, q));
      g.add(r, r) == g.add(Multiple(g, 2 * a, p), Multiple(g, 2 * b, q))
  {
    hide IsAbelian, Multiple;
    var x, y := Multiple(g, a, p), Multiple(g, b, q);
    Exchange(g, x, y, x, y);
    DoubleOf(g, a, p);
    DoubleOf(g, b, q);
  }

  lemma AddLeft<G(!new)>(g: Group<G>, a: int, d: int, p: G, y: G)
    requires IsAbelian(g)
    ensures g.add(g.add(Multiple(g, a, p), y), Multiple(g, d, p)) == g.add(Multiple(g, a + d, p), y)
  {
    hide IsAbelian, Multiple;
    var x, z := Multiple(g, a, p), Multiple(g, d, p);
    Comm(g, x, y);
    Assoc(g, y, x, z);
    MultipleSum(g, a, d, p);
    Comm(g, y, g.add(x, z));
  }

  lemma AddRight<G(!new)>(g: Group<G>, x: G, b: int, d: int, q: G)
    requires IsAbelian(g)
    ensures g.add(g.add(x, Multiple(g, b, q)), Multiple(g, d, q)) == g.add(x, Multiple(g, b + d, q))
  {
    hide IsAbelian, Multiple;
    Assoc(g, x, Multiple(g, b, q), Multiple(g, d, q));
    MultipleSum(g, b, d, q);
  }

  /** The table of odd multiples of p, each from the one before it and 2p. */
  method OddTable<G(!new)>(g: Group<G>, p: G, size: nat) returns (table: seq<G>)
    requires IsAbelian(g) && size > 0
    ensures |table| == size && OddMultiples(g, table, p)
  {
    hide IsAbelian, Multiple;
    MultipleOne(g, p);
    var double := g.add(p, p);
    table := [p];
    for i := 0 to size - 1
      invariant |table| == i + 1 && OddMultiples(g, table, p)
    {
      MultipleSum(g, 2, 2 * i + 1, p);
      assert table[i] == Multiple(g, 2 * i + 1, p);
      table := table + [g.add(double, table[i])];
    }
  }

  /** What the digits from i on are worth, counted from i. */
  function From(d: seq<int>, i: nat): int
    requires i <= |d|
  {
    Value(d[i..], 2)
  }

  lemma ValueOfTail(d: seq<int>, i: nat)
    requires i < |d|
    ensures From(d, i) == d[i] + 2 * From(d, i + 1)
  {
    assert d[i..][1..] == d[i + 1..];
  }

  lemma WholeTail(d: seq<int>)
    ensures From(d, 0) == Value(d, 2) && From(d, |d|) == 0
  {
    assert d[0..] == d;
  }

  lemma TableSizes()
    ensures S1_TABLE == Pow(2, S1_WINDOW - 2) && S2_TABLE == Pow(2, S2_WINDOW - 2)
  {
    Powers();
  }

  /** ge25519_double_scalarmult_vartime, with `multiples` the stored odd multiples of the base point. */
  method DoubleScalarMult<G(!new)>(g: Group<G>, p1: G, s1: seq<int>, s2: seq<int>, multiples: seq<G>, base: G)
    returns (r: G)
    requires IsAbelian(g) && IsScalar(s1) && IsScalar(s2)
    requires ScalarValue(s1) < Pow(2, 255) && ScalarValue(s2) < Pow(2, 255)
    requires |multiples| == S2_TABLE && OddMultiples(g, multiples, base)
    ensures r == g.add(Multiple(g, ScalarValue(s1), p1), Multiple(g, ScalarValue(s2), base))
  {
    hide IsAbelian, Multiple, OddMultiples, Value, Pow, ScalarValue, AllSettled;
    var slide1 := Slide(s1, S1_WINDOW);
    var slide2 := Slide(s2, S2_WINDOW);
    var pre1 := OddTable(g, p1, S1_TABLE);
    TableSizes();
    r := Accumulate(g, pre1, p1, multiples, base, slide1, slide2);
  }

  ghost predicate AllSettled(d: seq<int>, window: nat)
    requires window >= 1
  {
    |d| == 256 && forall k :: 0 <= k < 256 ==> Settled(d[k], Pow(2, window - 1) - 1)
  }

  /** Skips the leading zeros, then runs down the digits. */
  method Accumulate<G(!new)>(g: Group<G>, pre1: seq<G>, p1: G, multiples: seq<G>, base: G,
                             slide1: seq<int>, slide2: seq<int>) returns (r: G)
    requires IsAbelian(g) && AllSettled(slide1, S1_WINDOW) && AllSettled(slide2, S2_WINDOW)
    requires |pre1| == Pow(2, S1_WINDOW - 2) && OddMultiples(g, pre1, p1)
    requires |multiples| == Pow(2, S2_WINDOW - 2) && OddMultiples(g, multiples, base)
    ensures r == g.add(Multiple(g, Value(slide1, 2), p1), Multiple(g, Value(slide2, 2), base))
  {
    hide IsAbelian, Multiple, OddMultiples, From, Value, Pow, Settled;
    r := g.zero;
    StartAtZero(g, p1, base);
    var i := 255;
    WholeTail(slide1);
    WholeTail(slide2);
    while i >= 0 && slide1[i] == 0 && slide2[i] == 0
      invariant -1 <= i <= 255
      invariant From(slide1, i + 1) == 0 == From(slide2, i + 1)
    {
      ValueOfTail(slide1, i);
      ValueOfTail(slide2, i);
      i := i - 1;
    }
    while i >= 0
      invariant -1 <= i <= 255
      invariant r == g.add(Multiple(g, From(slide1, i + 1), p1), Multiple(g, From(slide2, i + 1), base))
    {
      r := Step(g, pre1, p1, multiples, base, r, slide1, slide2, i);
      i := i - 1;
    }
  }

  method Slide(s: seq<int>, window: nat) returns (d: seq<int>)
    requires IsScalar(s) && 2 <= window <= 8 && ScalarValue(s) < Pow(2, 255)
    ensures AllSettled(d, window) && Value(d, 2) == ScalarValue(s)
  {
    hide Value, Pow, ScalarValue, Settled;
    var digits := new int[256];
    ContractSlidingWindow(digits, s, window);
    d := digits[..];
  }

  lemma StartAtZero<G(!new)>(g: Group<G>, p: G, q: G)
    requires IsAbelian(g)
    ensures g.zero == g.add(Multiple(g, 0, p), Multiple(g, 0, q))
  {
    Unit(g, g.zero);
  }

  /** One round: double, then add what each digit asks for. */
  method Step<G(!new)>(g: Group<G>, pre1: seq<G>, p1: G, multiples: seq<G>, base: G, r0: G,
                       slide1: seq<int>, slide2: seq<int>, i: nat) returns (r: G)
    requires IsAbelian(g) && i < |slide1| && i < |slide2|
    requires |pre1| == Pow(2, S1_WINDOW - 2) && OddMultiples(g, pre1, p1)
    requires |multiples| == Pow(2, S2_WINDOW - 2) && OddMultiples(g, multiples, base)
    requires Settled(slide1[i], Pow(2, S1_WINDOW - 1) - 1) && Settled(slide2[i], Pow(2, S2_WINDOW - 1) - 1)
    requires r0 == g.add(Multiple(g, From(slide1, i + 1), p1), Multiple(g, From(slide2, i + 1), base))
    ensures r == g.add(Multiple(g, From(slide1, i), p1), Multiple(g, From(slide2, i), base))
  {
    hide IsAbelian, Multiple, OddMultiples, From, Value, Pow, Settled;
    ghost var a, b := From(slide1, i + 1), From(slide2, i + 1);
    ValueOfTail(slide1, i);
    ValueOfTail(slide2, i);
    DoublePair(g, a, p1, b, base);
    r := g.add(r0, r0);
    if slide1[i] != 0 {
      TableIndex(slide1[i], S1_WINDOW, |pre1|);
      AddDigit(g, pre1, p1, r, slide1[i]);
      AddLeft(g, 2 * a, slide1[i], p1, Multiple(g, 2 * b, base));
      r := AddSigned(g, r, pre1[Abs(slide1[i]) / 2], slide1[i] < 0);
    }
    if slide2[i] != 0 {
      TableIndex(slide2[i], S2_WINDOW, |multiples|);
      AddDigit(g, multiples, base, r, slide2[i]);
      AddRight(g, Multiple(g, 2 * a + slide1[i], p1), 2 * b, slide2[i], base);
      r := AddSigned(g, r, multiples[Abs(slide2[i]) / 2], slide2[i] < 0);
    }
  }

  // ----- Fixed base -----

  /** Row `pos` holds the multiples 1 to 8 of 256^pos times the base point. */
  ghost predicate BaseTable<G(!new)>(g: Group<G>, table: seq<G>, base: G) {
    && |table| == 256
    && forall pos, k {:trigger Entry(table, pos, k)} :: 0 <= pos < 32 && 1 <= k <= 8 ==>
         Entry(table, pos, k) == Multiple(g, k * Pow(256, pos), base)
  }

  function Entry<G>(table: seq<G>, pos: nat, k: nat): G
    requires |table| == 256 && pos < 32 && 1 <= k <= 8
  {
    table[pos * 8 + (k - 1)]
  }

  /** ge25519_scalarmult_base_choose_niels: scans a whole row and negates at the end. */
  method Choose<G(!new)>(g: Group<G>, table: seq<G>, base: G, pos: nat, d: int) returns (t: G)
    requires IsAbelian(g) && BaseTable(g, table, base) && pos < 32 && -8 <= d <= 8
    ensures t == Multiple(g, d * Pow(256, pos), base)
  {
    hide IsAbelian, Multiple, Pow;
    var u := Abs(d);
    ghost var scale := Pow(256, pos);
    t := g.zero;
    assert Multiple(g, 0, base) == g.zero by { MultipleZero(g, base); }
    for i := 0 to 8
      invariant t == Multiple(g, if 1 <= u <= i then u * scale else 0, base)
    {
      if u == i + 1 {
        t := Entry(table, pos, i + 1);
      }
    }
    if d < 0 {
      MultipleNeg(g, u * scale, base);
      NegProduct(d, scale);
      t := g.neg(t);
    }
  }

  lemma NegProduct(d: int, scale: int)
    ensures d * scale == -((-d) * scale)
  {
  }

  /** What the digits at positions below n with the given parity are worth in radix 256. */
  function EveryOther(d: seq<int>, parity: nat, n: nat): int
    requires n <= |d|
  {
    if n == 0 then 0 else EveryOther(d, parity, n - 1) + Share(d[n - 1], parity, n - 1)
  }

  function Share(x: int, parity: nat, i: nat): int {
    if i % 2 == parity then x * Pow(256, i / 2) else 0
  }

  /** Odd positions shifted by one digit plus even positions are the whole value. */
  lemma {:induction false} OddsAndEvens(d: seq<int>, n: nat)
    requires n <= |d|
    ensures Value(d[..n], 16) == 16 * EveryOther(d, 1, n) + EveryOther(d, 0, n)
  {
    if n > 0 {
      OddsAndEvens(d, n - 1);
      ValueOfTop(d, n - 1, 16);
      RadixStep(d[n - 1], n - 1);
    }
  }

  lemma RadixStep(x: int, i: nat)
    ensures i % 2 == 0 ==> x * Pow(16, i) == x * Pow(256, i / 2)
    ensures i % 2 == 1 ==> x * Pow(16, i) == 16 * (x * Pow(256, i / 2))
  {
    assert Pow(16, 2) == 256;
    PowPow(16, 2, i / 2);
    if i % 2 == 1 {
      assert Pow(16, i) == 16 * Pow(16, i - 1);
    }
  }

  method Radix16Digits(s: seq<int>) returns (d: seq<int>)
    requires IsScalar(s) && ScalarValue(s) < Pow(2, 255)
    ensures |d| == 64 && Value(d, 16) == ScalarValue(s)
    ensures forall i :: 0 <= i < 64 ==> -8 <= d[i] <= 8
  {
    hide Value, Pow, ScalarValue;
    var digits := new int[64];
    ContractWindow4(digits, s);
    d := digits[..];
  }

  /** ge25519_scalarmult_base_niels */
  method ScalarMultBase<G(!new)>(g: Group<G>, table: seq<G>, base: G, s: seq<int>) returns (r: G)
    requires IsAbelian(g) && BaseTable(g, table, base)
    requires IsScalar(s) && ScalarValue(s) < Pow(2, 255)
    ensures r == Multiple(g, ScalarValue(s), base)
  {
    hide IsAbelian, Multiple, BaseTable, Value, Pow, ScalarValue, EveryOther;
    var d := Radix16Digits(s);
    FirstOf(d);
    r := Choose(g, table, base, 0, d[1]);
    r := AddRows(g, table, base, d, 3, r, 0);
    ghost var odds := EveryOther(d, 1, 64);
    r := TimesSixteen(g, r, odds, base);
    var t := Choose(g, table, base, 0, d[0]);
    MultipleSum(g, 16 * odds, d[0] * Pow(256, 0), base);
    r := g.add(r, t);
    r := AddRows(g, table, base, d, 2, r, 16 * odds);
    OddsAndEvens(d, 64);
    assert d[..64] == d;
  }

  /** Add the multiples for every other digit from position `from` on. */
  method AddRows<G(!new)>(g: Group<G>, table: seq<G>, base: G, d: seq<int>, from: nat, r0: G, ghost n: int)
    returns (r: G)
    requires IsAbelian(g) && BaseTable(g, table, base) && |d| == 64 && 2 <= from <= 3
    requires forall i :: 0 <= i < 64 ==> -8 <= d[i] <= 8
    requires r0 == Multiple(g, n + EveryOther(d, from % 2, from - 1), base)
    ensures r == Multiple(g, n + EveryOther(d, from % 2, 64), base)
  {
    hide IsAbelian, Multiple, BaseTable, Pow, EveryOther;
    r := r0;
    var i := from;
    while i < 64
      invariant 2 <= i <= 65 && i % 2 == from % 2
      invariant r == Multiple(g, n + EveryOther(d, from % 2, i - 1), base)
    {
      var t := Choose(g, table, base, i / 2, d[i]);
      MultipleSum(g, n + EveryOther(d, from % 2, i - 1), d[i] * Pow(256, i / 2), base);
      NextOf(d, i);
      r := g.add(r, t);
      i := i + 2;
    }
    if i == 64 {
      LastOf(d);
    }
  }

  method TimesSixteen<G(!new)>(g: Group<G>, r0: G, ghost n: int, ghost p: G) returns (r: G)
    requires IsAbelian(g) && r0 == Multiple(g, n, p)
    ensures r == Multiple(g, 16 * n, p)
  {
    hide IsAbelian, Multiple;
    DoubleOf(g, n, p);
    r := g.add(r0, r0);
    DoubleOf(g, 2 * n, p);
    r := g.add(r, r);
    DoubleOf(g, 4 * n, p);
    r := g.add(r, r);
    DoubleOf(g, 8 * n, p);
    r := g.add(r, r);
  }

  lemma FirstOf(d: seq<int>)
    requires |d| == 64
    ensures EveryOther(d, 1, 2) == d[1] * Pow(256, 0) && EveryOther(d, 0, 1) == d[0] * Pow(256, 0)
  {
    assert EveryOther(d, 1, 0) == 0 && EveryOther(d, 0, 0) == 0;
    assert EveryOther(d, 1, 1) == 0;
  }

  lemma NextOf(d: seq<int>, i: nat)
    requires |d| == 64 && 0 < i < 64
    ensures EveryOther(d, i % 2, i + 1) == EveryOther(d, i % 2, i - 1) + d[i] * Pow(256, i / 2)
  {
    assert Share(d[i - 1], i % 2, i - 1) == 0;
    assert Share(d[i], i % 2, i) == d[i] * Pow(256, i / 2);
    assert EveryOther(d, i % 2, i) == EveryOther(d, i % 2, i - 1) by { hide Share; }
    hide Share;
  }

  lemma LastOf(d: seq<int>)
    requires |d| == 64
    ensures EveryOther(d, 0, 64) == EveryOther(d, 0, 63)
  {
  }
}
