/**
  Signed recodings of a scalar into an array of small digits, done in place:
  the digits are first the plain expansion and are then made signed.
 */
module Recoding {
  import opened Digits
  import opened Scalars

  /** Writes the n lowest digits of v from position at on. */
  method Spread(r: array<int>, at: nat, v: nat, base: nat, n: nat)
    requires base > 1 && at + n <= r.Length
    modifies r
    ensures r[..at] == old(r[..at])
    ensures r[at..at + n] == DigitsOf(v, base, n)
  {
    hide Low, Rest;
    var w := v;
    for j := 0 to n
      invariant r[..at] == old(r[..at])
      invariant r[at..at + j] + DigitsOf(w, base, n - j) == DigitsOf(v, base, n)
    {
      ghost var before := r[at..at + j];
      assert DigitsOf(w, base, n - j) == [Low(w, base)] + DigitsOf(Rest(w, base), base, n - j - 1);
      r[at + j] := Low(w, base);
      w := Rest(w, base);
      assert r[at..at + j + 1] == before + [r[at + j]];
    }
  }

  /** The plain expansion: `per` digits from each full limb, `last` from the short one. */
  method Unpack(r: array<int>, s: seq<int>, base: nat, per: nat, last: nat)
    requires IsScalar(s) && base > 1 && r.Length == 4 * per + last
    requires Pow(base, per) == LIMB && Pow(base, last) == TOP
    modifies r
    ensures Value(r[..], base) == ScalarValue(s)
    ensures Between(r[..], 0, base - 1)
  {
    hide Pow, Value, DigitsOf;
    var at := 0;
    assert Value(r[..0], base) == Value(s[..0], LIMB) && Pow(base, 0) == Pow(LIMB, 0) by {
      EmptyValue(base);
      EmptyValue(LIMB);
      assert r[..0] == [] == s[..0];
    }
    for i := 0 to 5
      invariant at == if i < 5 then per * i else r.Length
      invariant Value(r[..at], base) == Value(s[..i], LIMB)
      invariant i < 5 ==> Pow(base, at) == Pow(LIMB, i)
      invariant Between(r[..at], 0, base - 1)
    {
      var m := if i == 4 then last else per;
      Spread(r, at, s[i], base, m);
      DigitsOfValue(s[i], base, m);
      UnpackStep(r[..at], r[at..at + m], s, i, base);
      assert r[..at + m] == r[..at] + r[at..at + m];
      if i < 4 {
        PowSum(base, at, per);
        PowSum(LIMB, i, 1);
        assert Pow(LIMB, 1) == LIMB by { EmptyValue(LIMB); }
      }
      at := at + m;
    }
    assert r[..at] == r[..] && s[..5] == s;
  }

  lemma EmptyValue(base: nat)
    ensures Value([], base) == 0 && Pow(base, 0) == 1 && Pow(base, 1) == base
  {
  }

  lemma UnpackStep(done: seq<int>, more: seq<int>, s: seq<int>, i: nat, base: nat)
    requires i < |s| && Value(done, base) == Value(s[..i], LIMB) && Pow(base, |done|) == Pow(LIMB, i)
    requires Value(more, base) == s[i]
    ensures Value(done + more, base) == Value(s[..i + 1], LIMB)
  {
    ValueOfJoin(done, more, base);
    ValueOfTop(s, i, LIMB);
  }

  lemma Radix16()
    ensures Pow(16, 14) == LIMB && Pow(16, 8) == TOP && Pow(16, 0) == 1
    ensures 8 * Pow(16, 63) == Pow(2, 255)
  {
    Powers();
    WidePowers();
    assert Pow(16, 0) == 1;
    hide Pow;
    PowPow(2, 4, 14);
    PowPow(2, 4, 8);
    PowPow(2, 4, 63);
    PowSum(2, 3, 252);
  }

  // ----- Radix 16 -----

  ghost predicate Window4Inv(r: seq<int>, i: nat, carry: int, v: int) {
    && |r| == 64 && i < 64
    && 0 <= carry <= 1
    && Value(r, 16) + carry * Pow(16, i) == v
    && Between(r[..i], -8, 7)
    && 0 <= r[i] && r[i] + carry <= 16
    && Between(r[i + 1..], 0, 15)
  }

  /** One digit made signed, with the carry it leaves to the next one. */
  lemma Window4Step(r: seq<int>, i: nat, carry: int, v: int)
    requires Window4Inv(r, i, carry, v) && i < 63
    ensures
      var a := r[i] + carry;
      var c := a % 16 / 8;
      Window4Inv(r[i + 1 := r[i + 1] + a / 16][i := a % 16 - 16 * c], i + 1, c, v)
  {
    hide Value, Pow;
    var a := r[i] + carry;
    var c := a % 16 / 8;
    var r2 := r[i + 1 := r[i + 1] + a / 16][i := a % 16 - 16 * c];
    Window4Value(r, i, carry, a / 16, a % 16, c);
    assert r2[..i + 1] == r[..i] + [r2[i]];
    assert r2[i + 2..] == r[i + 1..][1..];
    assert 0 <= r[i + 1..][0] <= 15;
  }

  lemma Window4Value(r: seq<int>, i: nat, carry: int, q: int, rem: int, c: int)
    requires i + 1 < |r| && r[i] + carry == 16 * q + rem
    ensures Value(r[i + 1 := r[i + 1] + q][i := rem - 16 * c], 16) + c * Pow(16, i + 1)
         == Value(r, 16) + carry * Pow(16, i)
  {
    assert Pow(16, i + 1) == 16 * Pow(16, i);
    hide Value, Pow;
    ValueOfUpdate(r, i + 1, r[i + 1] + q, 16);
    ValueOfUpdate(r[i + 1 := r[i + 1] + q], i, rem - 16 * c, 16);
    Window4Sum(Value(r, 16), Pow(16, i), r[i], carry, q, rem, c);
  }

  lemma Window4Sum(value: int, p: int, d: int, carry: int, q: int, rem: int, c: int)
    requires d + carry == 16 * q + rem
    ensures value + q * (16 * p) + (rem - 16 * c - d) * p + c * (16 * p) == value + carry * p
  {
    assert rem == d + carry - 16 * q;
    assert (rem - 16 * c - d) * p == carry * p - 16 * q * p - 16 * c * p;
  }

  /** The top digit of a value below 2^255 is below 8. */
  lemma TopDigit(r: seq<int>)
    requires |r| == 64 && Between(r, 0, 15) && Value(r, 16) < Pow(2, 255)
    ensures r[63] <= 7
  {
    ValueOfTop(r, 63, 16);
    assert r[..64] == r;
    ValueOfDigits(r[..63], 16);
    Radix16();
    PowPositive(16, 63);
    if r[63] >= 8 {
      Scale(Pow(16, 63), 8, r[63]);
      assert false;
    }
  }

  /** contract256_window4_modm */
  method ContractWindow4(r: array<int>, s: seq<int>)
    requires r.Length == 64 && IsScalar(s)
    modifies r
    ensures Value(r[..], 16) == ScalarValue(s)
    ensures forall i :: 0 <= i < 63 ==> -8 <= r[i] <= 7
    ensures 0 <= r[63] <= 16
    ensures ScalarValue(s) < Pow(2, 255) ==> r[63] <= 8
  {
    hide Pow, Value, ScalarValue, Window4Inv;
    Radix16();
    Unpack(r, s, 16, 14, 8);
    ghost var plain := r[..];
    ghost var v := ScalarValue(s);
    var carry := 0;
    Window4Start(plain, v);
    if v < Pow(2, 255) {
      TopDigit(plain);
    }
    for i := 0 to 63
      invariant Window4Inv(r[..], i, carry, v)
      invariant i < 63 ==> r[63] == plain[63]
      invariant i == 63 ==> r[63] + carry <= plain[63] + 1
    {
      ghost var was, c := r[..], carry;
      Window4Step(was, i, carry, v);
      Window4Shape(was, i, carry, v);
      r[i] := r[i] + carry;
      var a := r[i];
      r[i + 1] := r[i + 1] + r[i] / 16;
      r[i] := r[i] % 16;
      carry := r[i] / 8;
      r[i] := r[i] - 16 * carry;
      assert r[..] == was[i + 1 := was[i + 1] + a / 16][i := a % 16 - 16 * carry];
    }
    Window4End(r[..], carry, v);
    ghost var last := r[..];
    r[63] := r[63] + carry;
    assert r[..] == last[63 := last[63] + carry];
  }

  lemma Window4Start(r: seq<int>, v: int)
    requires |r| == 64 && Between(r, 0, 15) && Value(r, 16) == v
    ensures Window4Inv(r, 0, 0, v)
  {
  }

  lemma Window4Shape(r: seq<int>, i: nat, carry: int, v: int)
    requires Window4Inv(r, i, carry, v)
    ensures |r| == 64 && 0 <= carry && 0 <= r[i] && r[i] + carry <= 16
    ensures forall k :: i < k < 64 ==> 0 <= r[k] <= 15
  {
    forall k | i < k < 64
      ensures 0 <= r[k] <= 15
    {
      assert r[k] == r[i + 1..][k - i - 1];
    }
  }

  lemma Window4End(r: seq<int>, carry: int, v: int)
    requires Window4Inv(r, 63, carry, v)
    ensures Value(r[63 := r[63] + carry], 16) == v
    ensures forall k :: 0 <= k < 63 ==> -8 <= r[k] <= 7
    ensures 0 <= carry && 0 <= r[63] && r[63] + carry <= 16
  {
    ValueOfUpdate(r, 63, r[63] + carry, 16);
    forall k | 0 <= k < 63
      ensures -8 <= r[k] <= 7
    {
      assert r[k] == r[..63][k];
    }
  }

  // ----- Sliding window -----

  predicate Settled(d: int, m: int) {
    d == 0 || (d % 2 == 1 && -m <= d <= m)
  }

  ghost predicate Below(x: int, e: nat) {
    0 < x + Pow(2, e) && x < Pow(2, e)
  }

  /** Positions before j are settled, those from j on are still bits, and nothing is set in between. */
  ghost predicate SlideInv(r: seq<int>, j: nat, e: nat, m: int, v: int) {
    && |r| == 256 && j <= e <= 256
    && Value(r, 2) == v
    && (forall k :: 0 <= k < j ==> Settled(r[k], m))
    && Between(r[j..], 0, 1) && Between(r[j..e], 0, 0)
    && Below(Value(r[..e], 2), e)
  }

  /** The window opened at j has taken in the b positions from j on. */
  ghost predicate GrowInv(r: seq<int>, j: nat, b: nat, m: int, v: int) {
    && |r| == 256 && 1 <= b && j + b <= 256
    && Value(r, 2) == v
    && (forall k :: 0 <= k < j ==> Settled(r[k], m))
    && r[j] % 2 == 1 && -m <= r[j] <= m && Below(r[j], b)
    && Between(r[j + 1..j + b], 0, 0) && Between(r[j + b..], 0, 1)
    && Below(Value(r[..j], 2), j)
  }

  lemma GrowShape(r: seq<int>, j: nat, b: nat, m: int, v: int)
    requires GrowInv(r, j, b, m, v) && j + b < 256
    ensures 0 <= r[j + b] <= 1 && -m <= r[j] <= m && |r| == 256
    ensures Between(r[j + b..], 0, 1) && 1 <= b && r[j] % 2 == 1 && Value(r, 2) == v
  {
    assert r[j + b] == r[j + b..][0];
  }

  lemma ZeroAt(r: seq<int>, j: nat, e: nat)
    requires j < e <= |r| && Between(r[j..e], 0, 0)
    ensures r[j] == 0
  {
    assert r[j] == r[j..e][0];
  }

  lemma OpenWindow(r: seq<int>, j: nat, e: nat, m: int, v: int)
    requires SlideInv(r, j, e, m, v) && j < 256 && r[j] != 0 && m >= 1
    ensures GrowInv(r, j, 1, m, v)
  {
    if j < e {
      ZeroAt(r, j, e);
      assert false;
    }
    assert r[j..][0] == 1;
    Powers();
    assert r[j + 1..] == r[j..][1..];
  }

  lemma SkipZero(r: seq<int>, j: nat, e: nat, m: int, v: int)
    requires SlideInv(r, j, e, m, v) && j < 256 && r[j] == 0
    ensures SlideInv(r, j + 1, if e == j then j + 1 else e, m, v)
  {
    assert r[j + 1..] == r[j..][1..];
    if e == j {
      ValueOfTop(r, j, 2);
      assert Pow(2, j + 1) == 2 * Pow(2, j);
    } else {
      assert r[j + 1..e] == r[j..e][1..];
    }
  }

  lemma WindowBound(low: int, d: int, p: int, q: int)
    requires 0 < low + p && low < p && 0 < d + q && d < q
    ensures 0 < low + d * p + p * q && low + d * p < p * q
  {
    Scale(p, d, q - 1);
    Scale(p, 1 - q, d);
    Distribute(p, q, -1);
    Distribute(p, -q, 1);
    Product(p, d);
    Product(p, -q);
  }

  /** What a window holds stays below its end. */
  lemma WindowValue(r: seq<int>, j: nat, b: nat, m: int, v: int)
    requires GrowInv(r, j, b, m, v)
    ensures Value(r[..j + b], 2) == Value(r[..j], 2) + r[j] * Pow(2, j)
    ensures Below(Value(r[..j + b], 2), j + b)
  {
    hide Pow, Value;
    var p := r[..j + b];
    ValueSplit(p, j + 1, 2);
    assert p[..j + 1] == r[..j + 1] && p[j + 1..] == r[j + 1..j + b];
    ValueOfZeros(r[j + 1..j + b], 2);
    ValueOfTop(r, j, 2);
    PowSum(2, j, b);
    WindowBound(Value(r[..j], 2), r[j], Pow(2, j), Pow(2, b));
  }

  lemma CloseWindow(r: seq<int>, j: nat, b: nat, m: int, v: int)
    requires GrowInv(r, j, b, m, v)
    ensures SlideInv(r, j + 1, j + b, m, v)
  {
    WindowValue(r, j, b, m, v);
    assert r[j + 1..] == r[j + 1..j + b] + r[j + b..];
  }

  lemma MoveBit(r: seq<int>, j: nat, b: nat)
    requires |r| == 256 && 1 <= b && j + b < 256 && 0 <= r[j + b] <= 1
    ensures Value(r[j := r[j] + r[j + b] * Pow(2, b)][j + b := 0], 2) == Value(r, 2)
  {
    hide Pow, Value;
    var d := r[j] + r[j + b] * Pow(2, b);
    ValueOfUpdate(r, j, d, 2);
    ValueOfUpdate(r[j := d], j + b, 0, 2);
    PowSum(2, b, j);
    BitTerm(r[j + b], Pow(2, b), Pow(2, j));
  }

  /** The window takes in one more position, with d as its digit. */
  lemma Grow(r: seq<int>, r2: seq<int>, j: nat, b: nat, d: int, m: int, v: int, v2: int)
    requires GrowInv(r, j, b, m, v) && j + b < 256
    requires d % 2 == 1 && -m <= d <= m && Below(d, b + 1)
    requires |r2| == 256 && r2[..j + b] == r[j := d][..j + b]
    requires r2[j + b] == 0 && Between(r2[j + b..], 0, 1) && Value(r2, 2) == v2
    ensures GrowInv(r2, j, b + 1, m, v2)
  {
    hide Pow, Value;
    var p := r2[..j + b];
    forall k | 0 <= k < j + b
      ensures r2[k] == if k == j then d else r[k]
    {
      assert r2[k] == p[k];
    }
    assert r2[..j] == r[..j];
    assert r2[j + 1..j + b + 1] == r[j + 1..j + b] + [0];
    assert r2[j + b + 1..] == r2[j + b..][1..];
  }

  lemma AddBit(r: seq<int>, j: nat, b: nat, m: int, v: int)
    requires GrowInv(r, j, b, m, v) && j + b < 256
    requires r[j] + r[j + b] * Pow(2, b) <= m
    ensures GrowInv(r[j := r[j] + r[j + b] * Pow(2, b)][j + b := 0], j, b + 1, m, v)
  {
    hide Pow, Value, GrowInv;
    GrowShape(r, j, b, m, v);
    MoveBit(r, j, b);
    BitParity(r[j], r[j + b], b);
    TakeBit(r, j, b, r[j + b] * Pow(2, b), m, v);
  }

  lemma TakeBit(r: seq<int>, j: nat, b: nat, t: int, m: int, v: int)
    requires GrowInv(r, j, b, m, v) && j + b < 256 && r[j] + t <= m
    requires t == 0 || t == Pow(2, b)
    requires (r[j] + t) % 2 == 1 && Value(r[j := r[j] + t][j + b := 0], 2) == v
    ensures GrowInv(r[j := r[j] + t][j + b := 0], j, b + 1, m, v)
  {
    hide Pow, Value;
    PowStep(b);
    var r1 := r[j := r[j] + t];
    var r2 := r1[j + b := 0];
    assert r2[..j + b] == r1[..j + b];
    assert r2[j + b..] == [0] + r[j + b..][1..];
    Grow(r, r2, j, b, r[j] + t, m, v, v);
  }

  lemma BitTerm(x: int, p: nat, q: nat)
    ensures x * p * q == x * (p * q)
  {
  }

  lemma BitParity(d: int, x: int, b: nat)
    requires b >= 1 && 0 <= x <= 1 && d % 2 == 1
    ensures (d + x * Pow(2, b)) % 2 == 1 && (d - x * Pow(2, b)) % 2 == 1
  {
    assert Pow(2, b) == 2 * Pow(2, b - 1);
  }

  lemma {:induction false} ValueOfOnes(d: seq<int>)
    requires Between(d, 1, 1)
    ensures Value(d, 2) == Pow(2, |d|) - 1
  {
    if d != [] {
      ValueOfOnes(d[1..]);
    }
  }

  lemma OnesReachTop(r: seq<int>, p: nat)
    requires |r| == 256 && p < 256 && Between(r[p..], 1, 1) && Value(r[..p], 2) >= 0
    ensures Value(r, 2) >= Pow(2, 255)
  {
    ValueOfOnes(r[p..]);
    ValueSplit(r, p, 2);
    PowSum(2, p, 256 - p);
    Distribute(Pow(2, p), Pow(2, 256 - p), -1);
    PowSum(2, p, 255 - p);
    PowPositive(2, 255 - p);
    Scale(Pow(2, p), 1, Pow(2, 255 - p));
    PowStep(255);
  }

  lemma PositiveWindow(low: int, d: int, p: int)
    requires 0 < low + p && low < p && d > 0
    ensures low + d * p > 0
  {
    assert (d - 1) * p >= 0;
    assert (d - 1) * p == d * p - p;
  }

  /** Only a value of 2^255 and above can leave no zero for the carry to stop at. */
  lemma RoomAbove(r: seq<int>, j: nat, b: nat, m: int, v: int)
    requires GrowInv(r, j, b, m, v) && j + b < 256 && r[j] > 0
    ensures Between(r[j + b..], 1, 1) ==> v >= Pow(2, 255)
  {
    hide Pow, Value;
    GrowShape(r, j, b, m, v);
    WindowValue(r, j, b, m, v);
    PositiveWindow(Value(r[..j], 2), r[j], Pow(2, j));
    if Between(r[j + b..], 1, 1) {
      OnesReachTop(r, j + b);
    }
  }

  /** Adds one at position p of a row of bits; a row of ones loses it at the top. */
  method Carry(r: array<int>, p: nat)
    requires r.Length == 256 && p < 256 && Between(r[p..], 0, 1)
    modifies r
    ensures r[..p] == old(r[..p]) && r[p] == 1 - old(r[p]) && Between(r[p..], 0, 1)
    ensures Value(r[..], 2) == old(Value(r[..], 2)) + Pow(2, p) - if old(Between(r[p..], 1, 1)) then Pow(2, 256) else 0
  {
    hide Value, Pow;
    ghost var was := r[..];
    var k := p;
    while k < 256
      invariant p <= k <= 256
      invariant forall i :: 0 <= i < p || k <= i < 256 ==> r[i] == was[i]
      invariant forall i :: p <= i < k ==> r[i] == 0 && was[i] == 1
      invariant Value(r[..], 2) + Pow(2, k) == Value(was, 2) + Pow(2, p)
    {
      ghost var now := r[..];
      assert was[k] == was[p..][k - p];
      ValueOfUpdate(now, k, 1 - r[k], 2);
      PowStep(k);
      if r[k] == 0 {
        r[k] := 1;
        assert r[..] == now[k := 1];
        break;
      }
      r[k] := 0;
      assert r[..] == now[k := 0];
      k := k + 1;
    }
    forall i | 0 <= i < 256 - p
      ensures 0 <= r[p..][i] <= 1
    {
      assert was[p + i] == was[p..][i];
    }
    OnesFrom(was, p, k);
  }

  lemma OnesFrom(was: seq<int>, p: nat, k: nat)
    requires |was| == 256 && p <= k <= 256 && (forall i :: p <= i < k ==> was[i] == 1) && (k < 256 ==> was[k] != 1)
    ensures Between(was[p..], 1, 1) <==> k == 256
  {
    if k < 256 {
      assert was[p..][k - p] == was[k];
    }
  }

  /** A window subtracts only while its own digit is positive. */
  lemma SubtractBit(r: seq<int>, j: nat, b: nat, m: int, v: int)
    requires GrowInv(r, j, b, m, v) && j + b < 256
    requires r[j] + r[j + b] * Pow(2, b) > m && r[j] - r[j + b] * Pow(2, b) >= -m
    ensures r[j + b] == 1 && r[j] > 0
    ensures Value(r[j := r[j] - Pow(2, b)], 2) == v - Pow(2, j + b)
  {
    GrowShape(r, j, b, m, v);
    if r[j + b] == 0 {
      assert false;
    }
    assert r[j + b] * Pow(2, b) == Pow(2, b);
    ValueOfUpdate(r, j, r[j] - Pow(2, b), 2);
    PowSum(2, b, j);
    BitTerm(-1, Pow(2, b), Pow(2, j));
  }

  lemma BitSubtracted(r: seq<int>, r2: seq<int>, j: nat, b: nat, m: int, v: int, v2: int)
    requires GrowInv(r, j, b, m, v) && j + b < 256
    requires r[j] > 0 && r[j] - Pow(2, b) >= -m
    requires |r2| == 256 && r2[..j + b] == r[j := r[j] - Pow(2, b)][..j + b]
    requires r2[j + b] == 0 && Between(r2[j + b..], 0, 1) && Value(r2, 2) == v2
    ensures GrowInv(r2, j, b + 1, m, v2)
  {
    hide Pow, Value;
    PowStep(b);
    BitParity(r[j], 1, b);
    Grow(r, r2, j, b, r[j] - Pow(2, b), m, v, v2);
  }

  /** What becomes of the value: a carry at the top may be lost. */
  ghost predicate Kept(v: int, v2: int) {
    v2 == v || (v >= Pow(2, 255) && v2 == v - Pow(2, 256))
  }

  /** The window opened at the lowest position of a row of ones has not lost its carry yet. */
  ghost predicate Filling(r: seq<int>, b: nat, w: nat) {
    && 1 <= b <= w && b < |r| && r[0] == Pow(2, b) - 1
    && Between(r[b..], 1, 1)
  }

  lemma FillPowers(b: nat, w: nat)
    requires 1 <= b <= w
    ensures Pow(2, b + 1) == 2 * Pow(2, b) && Pow(2, b) >= 2
    ensures b < w ==> Pow(2, b + 1) <= Pow(2, w)
  {
    hide Pow;
    PowStep(b);
    PowStep(b - 1);
    PowPositive(2, b - 1);
    PowPositive(2, b + 1);
    if b < w {
      PowSum(2, b + 1, w - b - 1);
      PowPositive(2, w - b - 1);
      Scale(Pow(2, b + 1), 1, Pow(2, w - b - 1));
    }
  }

  /** The window takes in bits until it is full; then it subtracts. */
  lemma Fills(r: seq<int>, b: nat, w: nat)
    requires Filling(r, b, w)
    ensures r[b] == 1 && Between(r[b..], 1, 1)
    ensures b < w ==> r[0] + r[b] * Pow(2, b) <= Pow(2, w) - 1
    ensures b == w ==> r[0] + r[b] * Pow(2, b) > Pow(2, w) - 1 && r[0] - r[b] * Pow(2, b) >= -(Pow(2, w) - 1)
    ensures b < w && b + 1 < |r| ==> Filling(r[0 := r[0] + r[b] * Pow(2, b)][b := 0], b + 1, w)
  {
    hide Pow;
    FillPowers(b, w);
    assert r[b] == r[b..][0];
    if b < w && b + 1 < |r| {
      var r2 := r[0 := r[0] + r[b] * Pow(2, b)][b := 0];
      assert r2[b + 1..] == r[b..][1..];
    }
  }

  /** The inner loop for a window opened at j; e is where it ends. */
  method GrowWindow(r: array<int>, j: nat, m: int, ghost w: nat, ghost v: int) returns (ghost e: nat, ghost v2: int)
    requires r.Length == 256 && j < 256 && w >= 1 && m == Pow(2, w) - 1 && v < Pow(2, 256)
    requires GrowInv(r[..], j, 1, m, v)
    modifies r
    ensures SlideInv(r[..], j + 1, e, m, v2) && Kept(v, v2)
    ensures j == 0 && w <= 6 && old(Between(r[..], 1, 1)) ==> v2 != v
  {
    hide Value, Pow, GrowInv, SlideInv, Filling, Kept;
    var b := 1;
    v2 := v;
    ghost var ones := j == 0 && w <= 6 && Between(r[..], 1, 1);
    StartFilling(r[..], w);
    KeptSoFar(v, v);
    while b < 256 - j && b <= 6
      invariant 1 <= b <= 256 - j
      invariant GrowInv(r[..], j, b, m, v2) && Kept(v, v2)
      invariant ones && v2 == v ==> b <= w && Filling(r[..], b, w)
      decreases 7 - b
    {
      ghost var was := r[..];
      GrowShape(was, j, b, m, v2);
      if ones && v2 == v {
        Fills(was, b, w);
      }
      if r[j] + r[j + b] * Pow(2, b) <= m {
        AddBit(was, j, b, m, v2);
        r[j] := r[j] + r[j + b] * Pow(2, b);
        r[j + b] := 0;
        assert r[..] == was[j := was[j] + was[j + b] * Pow(2, b)][j + b := 0];
      } else if r[j] - r[j + b] * Pow(2, b) >= -m {
        SubtractBit(was, j, b, m, v2);
        RoomAbove(was, j, b, m, v2);
        r[j] := r[j] - r[j + b] * Pow(2, b);
        assert r[..] == was[j := was[j] - Pow(2, b)];
        assert r[j + b..] == was[j + b..];
        Carry(r, j + b);
        assert r[..j + b] == r[..][..j + b];
        ghost var v3 := if Between(was[j + b..], 1, 1) then v2 - Pow(2, 256) else v2;
        KeptStill(v, v2, v3, Between(was[j + b..], 1, 1));
        BitSubtracted(was, r[..], j, b, m, v2, v3);
        v2 := v3;
      } else if r[j + b] != 0 {
        break;
      }
      b := b + 1;
    }
    e := j + b;
    CloseWindow(r[..], j, b, m, v2);
  }

  lemma StartFilling(r: seq<int>, w: nat)
    requires |r| == 256 && w >= 1
    ensures Between(r, 1, 1) ==> Filling(r, 1, w)
  {
    Powers();
  }

  lemma KeptSoFar(v: int, v2: int)
    ensures Kept(v, v)
    ensures Kept(v, v2) && v < Pow(2, 255) ==> v2 == v
  {
  }

  /** The carry is lost at most once. */
  lemma KeptStill(v: int, v2: int, v3: int, lost: bool)
    requires Kept(v, v2) && v3 == (if lost then v2 - Pow(2, 256) else v2) && (lost ==> v2 >= Pow(2, 255))
    requires v < Pow(2, 256)
    ensures Kept(v, v3) && (lost ==> v3 != v)
  {
    PowStep(255);
    PowPositive(2, 255);
  }

  /** contract256_slidingwindow_modm */
  method ContractSlidingWindow(r: array<int>, s: seq<int>, window: nat)
    requires r.Length == 256 && IsScalar(s) && 2 <= window <= 8
    modifies r
    ensures Value(r[..], 2) == ScalarValue(s)
            || (ScalarValue(s) >= Pow(2, 255) && Value(r[..], 2) == ScalarValue(s) - Pow(2, 256))
    ensures ScalarValue(s) == Pow(2, 256) - 1 && window <= 7 ==> Value(r[..], 2) == -1
    ensures forall k :: 0 <= k < 256 ==> Settled(r[k], Pow(2, window - 1) - 1)
  {
    hide Value, Pow, SlideInv, ScalarValue, Kept;
    var m := Pow(2, window - 1) - 1;
    SomeRoom(window);
    WidePowers();
    Unpack(r, s, 2, 56, 32);
    ghost var v, ones := ScalarValue(s), r[..];
    AllOnes(ones, v);
    ghost var e := 0;
    StartSliding(r[..], m, v);
    KeptSoFar(v, v);
    for j := 0 to 256
      invariant SlideInv(r[..], j, e, m, v) && Kept(ScalarValue(s), v)
      invariant j == 0 ==> r[..] == ones
      invariant j > 0 && window <= 7 && Between(ones, 1, 1) ==> v != ScalarValue(s)
    {
      if r[j] == 0 {
        SkipZero(r[..], j, e, m, v);
        e := if e == j then j + 1 else e;
        continue;
      }
      OpenWindow(r[..], j, e, m, v);
      KeptBelow(ScalarValue(s), v);
      ghost var v2;
      e, v2 := GrowWindow(r, j, m, window - 1, v);
      KeptTwice(ScalarValue(s), v, v2);
      v := v2;
    }
    DoneSliding(r[..], e, m, v);
    KeptMeans(ScalarValue(s), v);
  }

  lemma KeptBelow(s: int, v: int)
    requires Kept(s, v) && s < Pow(2, 256)
    ensures v < Pow(2, 256)
  {
    PowPositive(2, 256);
  }

  lemma KeptTwice(s: int, v: int, v2: int)
    requires Kept(s, v) && Kept(v, v2) && s < Pow(2, 256)
    ensures Kept(s, v2) && (v != s ==> v2 != s)
  {
    PowStep(255);
    PowPositive(2, 255);
  }

  lemma KeptMeans(s: int, v: int)
    requires Kept(s, v)
    ensures v == s || (s >= Pow(2, 255) && v == s - Pow(2, 256))
  {
  }

  lemma AllOnes(r: seq<int>, v: int)
    requires |r| == 256 && Between(r, 0, 1) && Value(r, 2) == v
    ensures v == Pow(2, 256) - 1 ==> Between(r, 1, 1)
    ensures v < Pow(2, 256)
  {
    ValueOfDigits(r, 2);
    if v == Pow(2, 256) - 1 {
      MustBeOnes(r);
    }
  }

  lemma {:induction false} MustBeOnes(r: seq<int>)
    requires Between(r, 0, 1) && Value(r, 2) == Pow(2, |r|) - 1
    ensures Between(r, 1, 1)
  {
    if r != [] {
      ValueOfDigits(r[1..], 2);
      assert Value(r, 2) == r[0] + 2 * Value(r[1..], 2);
      assert Value(r[1..], 2) == Pow(2, |r| - 1) - 1;
      MustBeOnes(r[1..]);
      assert r == [r[0]] + r[1..];
    }
  }

  lemma SomeRoom(window: nat)
    requires window >= 2
    ensures Pow(2, window - 1) >= 2
  {
    PowPositive(2, window - 2);
  }

  lemma StartSliding(r: seq<int>, m: int, v: int)
    requires |r| == 256 && Between(r, 0, 1) && Value(r, 2) == v
    ensures SlideInv(r, 0, 0, m, v)
  {
    assert r[..0] == [] && r[0..] == r;
  }

  lemma DoneSliding(r: seq<int>, e: nat, m: int, v: int)
    requires SlideInv(r, 256, e, m, v)
    ensures Value(r, 2) == v && forall k :: 0 <= k < 256 ==> Settled(r[k], m)
  {
  }
}
