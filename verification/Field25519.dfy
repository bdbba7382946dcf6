/**
  Arithmetic modulo 2^255 - 19 on five 51-bit limbs. As elsewhere words are
  integers, and what the 64-bit and 128-bit registers drop is written out.
 */
module Field25519 {
  import opened BatchScalars
  import opened Digits
  import opened ModM
  import opened Recoding
  import opened ScalarCodec

  const B51: nat := 0x8_0000_0000_0000
  const B102: nat := B51 * B51
  const B153: nat := B51 * B102
  const B204: nat := B51 * B153
  const B255: nat := B51 * B204
  const P: nat := B255 - 19

  const B52: nat := 2 * B51
  const B54: nat := 8 * B51
  const B108: nat := B54 * B54

  predicate Small(a: seq<int>, bound: nat) {
    && |a| == 5
    && 0 <= a[0] < bound && 0 <= a[1] < bound && 0 <= a[2] < bound && 0 <= a[3] < bound && 0 <= a[4] < bound
  }

  function FieldValue(a: seq<int>): int
    requires |a| == 5
  {
    a[0] + B51 * a[1] + B102 * a[2] + B153 * a[3] + B204 * a[4]
  }

  predicate Congruent(x: int, y: int) {
    x % P == y % P
  }

  lemma CongruentBy(x: int, y: int, k: int)
    requires x == y + P * k
    ensures Congruent(x, y)
  {
    var q, r := y / P, y % P;
    assert x == r + P * (q + k);
    ModBy(x, P, q + k, r);
  }

  lemma Differ(x: int, y: int) returns (k: int)
    requires Congruent(x, y)
    ensures x == y + P * k
  {
    k := x / P - y / P;
  }

  lemma CongruentProduct(a: int, b: int, c: int, d: int)
    requires Congruent(a, b) && Congruent(c, d)
    ensures Congruent(a * c, b * d)
  {
    hide Congruent;
    var j := Differ(a, b);
    var k := Differ(c, d);
    ProductDiffers(b, d, j, k);
    CongruentBy(a * c, b * d, b * k + j * d + P * (j * k));
  }

  lemma ProductDiffers(b: int, d: int, j: int, k: int)
    ensures (b + P * j) * (d + P * k) == b * d + P * (b * k + j * d + P * (j * k))
  {
    assert (b + P * j) * (d + P * k) == b * (d + P * k) + P * (j * (d + P * k));
    assert b * (d + P * k) == b * d + P * (b * k);
    assert j * (d + P * k) == j * d + P * (j * k);
  }

  // ----- Words -----

  function Low51(c: nat): (l: nat)
    ensures l < B51
  {
    Lo(c) % B51
  }

  /** shr128 by 51; shl128 by 13 gives the same word. */
  function Shr51(c: nat): nat {
    c / B51 % WORD
  }

  lemma Cut51(c: nat)
    requires c < B51 * WORD
    ensures c == Low51(c) + B51 * Shr51(c)
  {
    var q := c / B51;
    assert q < WORD;
    var f, g := c % WORD, c / WORD;
    assert WORD == 8192 * B51;
    assert c == B51 * (8192 * g + f / B51) + f % B51;
  }

  // ----- Products -----

  /** The products a[i] * b[j] with i + j == k. */
  function Conv(a: seq<int>, b: seq<int>, k: nat): int
    requires |a| == 5 && |b| == 5 && k <= 8
  {
    if k == 0 then a[0] * b[0]
    else if k == 1 then a[0] * b[1] + a[1] * b[0]
    else if k == 2 then a[0] * b[2] + a[2] * b[0] + a[1] * b[1]
    else if k == 3 then a[0] * b[3] + a[3] * b[0] + a[1] * b[2] + a[2] * b[1]
    else if k == 4 then a[0] * b[4] + a[4] * b[0] + a[3] * b[1] + a[1] * b[3] + a[2] * b[2]
    else if k == 5 then a[4] * b[1] + a[1] * b[4] + a[2] * b[3] + a[3] * b[2]
    else if k == 6 then a[4] * b[2] + a[2] * b[4] + a[3] * b[3]
    else if k == 7 then a[4] * b[3] + a[3] * b[4]
    else a[4] * b[4]
  }

  lemma ConvBound(a: seq<int>, b: seq<int>, k: nat)
    requires Small(a, B54) && Small(b, B54) && k <= 8
    ensures 0 <= Conv(a, b, k) <= (if k <= 4 then k + 1 else 9 - k) * B108
  {
    forall i, j | 0 <= i < 5 && 0 <= j < 5
      ensures 0 <= a[i] * b[j] <= B108
    {
      ProductBound(a[i], b[j], B54, B54);
    }
  }

  lemma FieldRow(x: int, b: seq<int>)
    requires |b| == 5
    ensures x * FieldValue(b) == x * b[0] + B51 * (x * b[1]) + B102 * (x * b[2]) + B153 * (x * b[3]) + B204 * (x * b[4])
  {
  }

  lemma FieldRows(a: seq<int>, v: int)
    requires |a| == 5
    ensures FieldValue(a) * v == a[0] * v + B51 * (a[1] * v) + B102 * (a[2] * v) + B153 * (a[3] * v) + B204 * (a[4] * v)
  {
  }

  lemma FieldProduct(a: seq<int>, b: seq<int>)
    requires |a| == 5 && |b| == 5
    ensures FieldValue(a) * FieldValue(b)
         == Conv(a, b, 0) + B51 * Conv(a, b, 1) + B102 * Conv(a, b, 2) + B153 * Conv(a, b, 3) + B204 * Conv(a, b, 4)
            + B255 * (Conv(a, b, 5) + B51 * Conv(a, b, 6) + B102 * Conv(a, b, 7) + B153 * Conv(a, b, 8))
  {
    hide FieldValue;
    FieldRows(a, FieldValue(b));
    FieldRow(a[0], b);
    FieldRow(a[1], b);
    FieldRow(a[2], b);
    FieldRow(a[3], b);
    FieldRow(a[4], b);
  }

  /** What each of the five columns must hold: 2^255 counts as 19. */
  predicate Columns(a: seq<int>, b: seq<int>, t: seq<int>)
    requires |a| == 5 && |b| == 5
  {
    && |t| == 5
    && t[0] == Conv(a, b, 0) + 19 * Conv(a, b, 5) && t[1] == Conv(a, b, 1) + 19 * Conv(a, b, 6)
    && t[2] == Conv(a, b, 2) + 19 * Conv(a, b, 7) && t[3] == Conv(a, b, 3) + 19 * Conv(a, b, 8)
    && t[4] == Conv(a, b, 4)
  }

  lemma ColumnsValue(a: seq<int>, b: seq<int>, t: seq<int>)
    requires |a| == 5 && |b| == 5 && Columns(a, b, t)
    ensures Congruent(FieldValue(t), FieldValue(a) * FieldValue(b))
  {
    hide Conv, Congruent;
    FieldProduct(a, b);
    var high := Conv(a, b, 5) + B51 * Conv(a, b, 6) + B102 * Conv(a, b, 7) + B153 * Conv(a, b, 8);
    CongruentBy(FieldValue(t), FieldValue(a) * FieldValue(b), -high);
  }

  predicate ColumnsFit(t: seq<int>) {
    && |t| == 5
    && 0 <= t[0] <= 77 * B108 && 0 <= t[1] <= 77 * B108 && 0 <= t[2] <= 77 * B108 && 0 <= t[3] <= 23 * B108
    && 0 <= t[4] <= 5 * B108
  }

  lemma ColumnsBound(a: seq<int>, b: seq<int>, t: seq<int>)
    requires Small(a, B54) && Small(b, B54) && Columns(a, b, t)
    ensures ColumnsFit(t)
  {
    hide Conv;
    ConvBound(a, b, 0);
    ConvBound(a, b, 1);
    ConvBound(a, b, 2);
    ConvBound(a, b, 3);
    ConvBound(a, b, 4);
    ConvBound(a, b, 5);
    ConvBound(a, b, 6);
    ConvBound(a, b, 7);
    ConvBound(a, b, 8);
  }

  /** The carry chain that ends a multiplication. */
  method CarryColumns(t: seq<int>) returns (r: seq<int>)
    requires ColumnsFit(t)
    ensures Small(r, B52) && Congruent(FieldValue(r), FieldValue(t))
  {
    hide Low51, Shr51, FieldValue, Congruent;
    var t0: nat := t[0];
    Cut51(t0);
    var t1: nat := t[1] + Shr51(t0);
    Cut51(t1);
    var t2: nat := t[2] + Shr51(t1);
    Cut51(t2);
    var t3: nat := t[3] + Shr51(t2);
    Cut51(t3);
    var t4: nat := t[4] + Shr51(t3);
    Cut51(t4);
    var r0 := Low51(t0) + Shr51(t4) * 19;
    assert r0 < WORD;
    r := [r0 % B51, Low51(t1) + r0 / B51, Low51(t2), Low51(t3), Low51(t4)];
    CarriedColumns(t, r, r0, [Low51(t0), Low51(t1), Low51(t2), Low51(t3), Low51(t4)],
                   [Shr51(t0), Shr51(t1), Shr51(t2), Shr51(t3), Shr51(t4)]);
  }

  lemma CarriedColumns(t: seq<int>, r: seq<int>, r0: nat, l: seq<int>, c: seq<int>)
    requires |t| == 5 && |l| == 5 && |c| == 5
    requires t[0] == l[0] + B51 * c[0] && t[1] + c[0] == l[1] + B51 * c[1] && t[2] + c[1] == l[2] + B51 * c[2]
    requires t[3] + c[2] == l[3] + B51 * c[3] && t[4] + c[3] == l[4] + B51 * c[4]
    requires r0 == l[0] + c[4] * 19
    requires r == [r0 % B51, l[1] + r0 / B51, l[2], l[3], l[4]]
    ensures Congruent(FieldValue(r), FieldValue(t))
  {
    hide Congruent;
    assert r0 == B51 * (r0 / B51) + r0 % B51;
    CongruentBy(FieldValue(r), FieldValue(t), -c[4]);
  }

  /** curve25519_mul; the output may be one of the inputs. */
  method Mul(out: array<int>, in2: array<int>, input: array<int>)
    requires out.Length == 5 && Small(in2[..], B54) && Small(input[..], B54)
    modifies out
    ensures Small(out[..], B52)
    ensures Congruent(FieldValue(out[..]), old(FieldValue(in2[..])) * old(FieldValue(input[..])))
  {
    hide FieldValue, Congruent, Conv;
    ghost var r, s := input[..], in2[..];
    var r0, r1, r2, r3, r4 := input[0], input[1], input[2], input[3], input[4];
    var s0, s1, s2, s3, s4 := in2[0], in2[1], in2[2], in2[3], in2[4];
    var t := [
      r0 * s0,
      r0 * s1 + r1 * s0,
      r0 * s2 + r2 * s0 + r1 * s1,
      r0 * s3 + r3 * s0 + r1 * s2 + r2 * s1,
      r0 * s4 + r4 * s0 + r3 * s1 + r1 * s3 + r2 * s2
    ];
    r1, r2, r3, r4 := r1 * 19, r2 * 19, r3 * 19, r4 * 19;
    assert r1 < WORD && r2 < WORD && r3 < WORD && r4 < WORD;
    t := [
      t[0] + (r4 * s1 + r1 * s4 + r2 * s3 + r3 * s2),
      t[1] + (r4 * s2 + r2 * s4 + r3 * s3),
      t[2] + (r4 * s3 + r3 * s4),
      t[3] + r4 * s4,
      t[4]
    ];
    MulColumnsOf(r, s, t);
    ColumnsBound(r, s, t);
    ColumnsValue(r, s, t);
    var carried := CarryColumns(t);
    out[0], out[1], out[2], out[3], out[4] := carried[0], carried[1], carried[2], carried[3], carried[4];
    assert out[..] == carried;
    Product(FieldValue(r), FieldValue(s));
    Chain(FieldValue(carried), FieldValue(t), FieldValue(r) * FieldValue(s));
  }

  lemma Chain(x: int, y: int, z: int)
    requires Congruent(x, y) && Congruent(y, z)
    ensures Congruent(x, z)
  {
  }

  lemma MulColumnsOf(r: seq<int>, s: seq<int>, t: seq<int>)
    requires |r| == 5 && |s| == 5 && |t| == 5
    requires t[0] == r[0] * s[0] + (r[4] * 19 * s[1] + r[1] * 19 * s[4] + r[2] * 19 * s[3] + r[3] * 19 * s[2])
    requires t[1] == r[0] * s[1] + r[1] * s[0] + (r[4] * 19 * s[2] + r[2] * 19 * s[4] + r[3] * 19 * s[3])
    requires t[2] == r[0] * s[2] + r[2] * s[0] + r[1] * s[1] + (r[4] * 19 * s[3] + r[3] * 19 * s[4])
    requires t[3] == r[0] * s[3] + r[3] * s[0] + r[1] * s[2] + r[2] * s[1] + r[4] * 19 * s[4]
    requires t[4] == r[0] * s[4] + r[4] * s[0] + r[3] * s[1] + r[1] * s[3] + r[2] * s[2]
    ensures Columns(r, s, t)
  {
  }

  // ----- Squares -----

  method SquareColumns(r: seq<int>) returns (t: seq<int>)
    requires Small(r, B54)
    ensures Columns(r, r, t) && ColumnsFit(t)
  {
    hide Conv;
    var d0, d1, d2, d419 := r[0] * 2, r[1] * 2, r[2] * 2 * 19, r[4] * 19;
    var d4 := d419 * 2;
    assert d0 < WORD && d1 < WORD && d2 < WORD && d4 < WORD && r[3] * 19 < WORD;
    t := [
      r[0] * r[0] + d4 * r[1] + d2 * r[3],
      d0 * r[1] + d4 * r[2] + r[3] * (r[3] * 19),
      d0 * r[2] + r[1] * r[1] + d4 * r[3],
      d0 * r[3] + d1 * r[2] + r[4] * d419,
      d0 * r[4] + d1 * r[3] + r[2] * r[2]
    ];
    SquareColumnsOf(r, t);
    ColumnsBound(r, r, t);
  }

  lemma SquareColumnsOf(r: seq<int>, t: seq<int>)
    requires |r| == 5 && |t| == 5
    requires t[0] == r[0] * r[0] + r[4] * 19 * 2 * r[1] + r[2] * 2 * 19 * r[3]
    requires t[1] == r[0] * 2 * r[1] + r[4] * 19 * 2 * r[2] + r[3] * (r[3] * 19)
    requires t[2] == r[0] * 2 * r[2] + r[1] * r[1] + r[4] * 19 * 2 * r[3]
    requires t[3] == r[0] * 2 * r[3] + r[1] * 2 * r[2] + r[4] * (r[4] * 19)
    requires t[4] == r[0] * 2 * r[4] + r[1] * 2 * r[3] + r[2] * r[2]
    ensures Columns(r, r, t)
  {
  }

  /** curve25519_square */
  method Square(out: array<int>, input: array<int>)
    requires out.Length == 5 && Small(input[..], B54)
    modifies out
    ensures Small(out[..], B52)
    ensures Congruent(FieldValue(out[..]), old(FieldValue(input[..])) * old(FieldValue(input[..])))
  {
    hide FieldValue, Congruent, Conv, Columns;
    ghost var r := input[..];
    var t := SquareColumns(input[..]);
    ColumnsValue(r, r, t);
    var carried := CarryColumns(t);
    out[0], out[1], out[2], out[3], out[4] := carried[0], carried[1], carried[2], carried[3], carried[4];
    assert out[..] == carried;
    Chain(FieldValue(carried), FieldValue(t), FieldValue(r) * FieldValue(r));
  }

  /** One turn of the squaring loop, whose carries are taken from the columns before they are passed on. */
  method SquareRound(r: seq<int>) returns (s: seq<int>)
    requires Small(r, B54)
    ensures Small(s, B52) && Congruent(FieldValue(s), FieldValue(r) * FieldValue(r))
  {
    hide FieldValue, Congruent, Conv, Columns, Low51, Shr51;
    var t := SquareColumns(r);
    ColumnsValue(r, r, t);
    var t0: nat, t1: nat, t2: nat, t3: nat, t4: nat := t[0], t[1], t[2], t[3], t[4];
    Cut51(t0);
    Cut51(t1);
    Cut51(t2);
    Cut51(t3);
    Cut51(t4);
    var r0 := Low51(t0) + Shr51(t4) * 19;
    var r1 := Low51(t1) + Shr51(t0);
    var r2 := Low51(t2) + Shr51(t1);
    var r3 := Low51(t3) + Shr51(t2);
    var r4 := Low51(t4) + Shr51(t3);
    Spread51(t, [r0, r1, r2, r3, r4], [Low51(t0), Low51(t1), Low51(t2), Low51(t3), Low51(t4)],
             [Shr51(t0), Shr51(t1), Shr51(t2), Shr51(t3), Shr51(t4)]);
    s := CarryRound([r0, r1, r2, r3, r4]);
    Chain(FieldValue(s), FieldValue([r0, r1, r2, r3, r4]), FieldValue(t));
    Chain(FieldValue(s), FieldValue(t), FieldValue(r) * FieldValue(r));
  }

  lemma Spread51(t: seq<int>, r: seq<int>, l: seq<int>, c: seq<int>)
    requires |t| == 5 && |r| == 5 && |l| == 5 && |c| == 5
    requires t[0] == l[0] + B51 * c[0] && t[1] == l[1] + B51 * c[1] && t[2] == l[2] + B51 * c[2]
    requires t[3] == l[3] + B51 * c[3] && t[4] == l[4] + B51 * c[4]
    requires r == [l[0] + c[4] * 19, l[1] + c[0], l[2] + c[1], l[3] + c[2], l[4] + c[3]]
    ensures Congruent(FieldValue(r), FieldValue(t))
  {
    hide Congruent;
    CongruentBy(FieldValue(r), FieldValue(t), -c[4]);
  }

  /** Of a single word: the limb that stays and the carry. */
  function Below51(x: nat): (l: nat)
    ensures l < B51
  {
    x % B51
  }

  function Above51(x: nat): nat {
    x / B51
  }

  lemma LowHigh(x: nat)
    ensures x == Below51(x) + B51 * Above51(x)
  {
  }

  /** A full pass of carries, from limb 0 round to limb 0. */
  method CarryRound(r: seq<int>) returns (s: seq<int>)
    requires Small(r, WORD - 0x2000)
    ensures Small(s, B52) && Congruent(FieldValue(s), FieldValue(r))
    ensures s[1] < B51 && s[2] < B51 && s[3] < B51 && s[4] < B51
  {
    hide FieldValue, Congruent, Below51, Above51;
    var r0: nat, r1: nat := r[0], r[1] + Above51(r[0]);
    LowHigh(r0);
    LowHigh(r1);
    var r2: nat := r[2] + Above51(r1);
    LowHigh(r2);
    var r3: nat := r[3] + Above51(r2);
    LowHigh(r3);
    var r4: nat := r[4] + Above51(r3);
    LowHigh(r4);
    assert r1 < WORD && r2 < WORD && r3 < WORD && r4 < WORD;
    s := [Below51(r0) + Above51(r4) * 19, Below51(r1), Below51(r2), Below51(r3), Below51(r4)];
    Carried(r, s, Above51(r0), Above51(r1), Above51(r2), Above51(r3), Above51(r4));
  }

  lemma Carried(r: seq<int>, s: seq<int>, c0: int, c1: int, c2: int, c3: int, c4: int)
    requires |r| == 5 && |s| == 5
    requires s[0] == r[0] - B51 * c0 + c4 * 19 && s[1] == r[1] + c0 - B51 * c1 && s[2] == r[2] + c1 - B51 * c2
    requires s[3] == r[3] + c2 - B51 * c3 && s[4] == r[4] + c3 - B51 * c4
    ensures FieldValue(s) == FieldValue(r) - P * c4
    ensures Congruent(FieldValue(s), FieldValue(r))
  {
    hide Congruent;
    CongruentBy(FieldValue(s), FieldValue(r), -c4);
  }

  /** How often the squaring loop runs: its counter is lowered before it is compared with zero. */
  function Turns(count: nat): nat {
    if count == 0 then WORD else count
  }

  /** curve25519_square_times */
  method SquareTimes(out: array<int>, input: array<int>, count: nat)
    requires out.Length == 5 && Small(input[..], B54) && count < WORD
    modifies out
    ensures Small(out[..], B52)
    ensures Congruent(FieldValue(out[..]), Pow(old(FieldValue(input[..])), Pow(2, Turns(count))))
  {
    hide FieldValue, Congruent, Pow;
    NotNegative(input[..]);
    ghost var v: nat := FieldValue(input[..]);
    var r := input[..];
    StartPower(v);
    var left := count;
    ghost var done := 0;
    while true
      invariant 0 <= left < WORD && done + Turns(left) == Turns(count)
      invariant Small(r, B54) && Congruent(FieldValue(r), Pow(v, Pow(2, done)))
      decreases Turns(left)
    {
      ghost var before := r;
      r := SquareRound(r);
      SquarePower(v, done, FieldValue(before), FieldValue(r));
      left := if left == 0 then WORD - 1 else left - 1;
      done := done + 1;
      if left == 0 {
        break;
      }
    }
    out[0], out[1], out[2], out[3], out[4] := r[0], r[1], r[2], r[3], r[4];
    assert out[..] == r;
  }

  lemma NotNegative(a: seq<int>)
    requires Small(a, B54)
    ensures FieldValue(a) >= 0
  {
  }

  lemma StartPower(v: nat)
    ensures Congruent(v, Pow(v, Pow(2, 0)))
  {
    assert Pow(v, 1) == v * Pow(v, 0);
  }

  lemma SquarePower(v: nat, n: nat, x: int, y: int)
    requires Congruent(x, Pow(v, Pow(2, n))) && Congruent(y, x * x)
    ensures Congruent(y, Pow(v, Pow(2, n + 1)))
  {
    assert Pow(2, n + 1) == Pow(2, n) + Pow(2, n);
    hide Congruent, Pow;
    var e := Pow(2, n);
    PowSum(v, e, e);
    CongruentProduct(x, Pow(v, e), x, Pow(v, e));
    Chain(y, x * x, Pow(v, e) * Pow(v, e));
  }

  // ----- Addition chains -----

  ghost predicate IsPower(a: seq<int>, v: nat, e: nat) {
    Small(a, B54) && Congruent(FieldValue(a), Pow(v, e))
  }

  lemma {:induction false} CongruentPower(x: nat, y: nat, n: nat)
    requires Congruent(x, y)
    ensures Congruent(Pow(x, n), Pow(y, n))
  {
    hide Congruent;
    if n == 0 {
      CongruentBy(1, 1, 0);
    } else {
      CongruentPower(x, y, n - 1);
      CongruentProduct(x, y, Pow(x, n - 1), Pow(y, n - 1));
    }
  }

  method MulPowers(out: array<int>, x: array<int>, y: array<int>, ghost v: nat, ghost e: nat, ghost f: nat)
    requires out.Length == 5 && IsPower(x[..], v, e) && IsPower(y[..], v, f)
    modifies out
    ensures IsPower(out[..], v, e + f)
  {
    hide FieldValue, Congruent, Pow;
    ghost var a, b := FieldValue(x[..]), FieldValue(y[..]);
    CongruentProduct(a, Pow(v, e), b, Pow(v, f));
    PowSum(v, e, f);
    Mul(out, x, y);
    Chain(FieldValue(out[..]), a * b, Pow(v, e + f));
  }

  method SquarePowers(out: array<int>, x: array<int>, count: nat, ghost v: nat, ghost e: nat)
    requires out.Length == 5 && IsPower(x[..], v, e) && 0 < count < WORD
    modifies out
    ensures IsPower(out[..], v, e * Pow(2, count))
  {
    hide FieldValue, Congruent, Pow;
    NotNegative(x[..]);
    ghost var a: nat := FieldValue(x[..]);
    CongruentPower(a, Pow(v, e), Pow(2, count));
    PowPow(v, e, Pow(2, count));
    SquareTimes(out, x, count);
    Chain(FieldValue(out[..]), Pow(a, Pow(2, count)), Pow(v, e * Pow(2, count)));
  }

  /** One less than a power of two. */
  ghost function Ones(n: nat): nat {
    PowPositive(2, n);
    Pow(2, n) - 1
  }

  lemma OnesJoin(m: nat, n: nat)
    ensures Ones(m) * Pow(2, n) + Ones(n) == Ones(m + n)
  {
    hide Pow;
    PowSum(2, m, n);
    Distribute(Pow(2, n), Pow(2, m), -1);
  }

  /** curve25519_pow_two5mtwo0_two250mtwo0, in place. */
  method PowTo250(b: array<int>, ghost v: nat)
    requires b.Length == 5 && IsPower(b[..], v, Ones(5))
    modifies b
    ensures IsPower(b[..], v, Ones(250))
  {
    hide IsPower, Ones, Pow;
    var t0, c := new int[5], new int[5];
    SquarePowers(t0, b, 5, v, Ones(5));
    OnesJoin(5, 5);
    MulPowers(b, t0, b, v, Ones(5) * Pow(2, 5), Ones(5));
    SquarePowers(t0, b, 10, v, Ones(10));
    OnesJoin(10, 10);
    MulPowers(c, t0, b, v, Ones(10) * Pow(2, 10), Ones(10));
    SquarePowers(t0, c, 20, v, Ones(20));
    OnesJoin(20, 20);
    MulPowers(t0, t0, c, v, Ones(20) * Pow(2, 20), Ones(20));
    SquarePowers(t0, t0, 10, v, Ones(40));
    OnesJoin(40, 10);
    MulPowers(b, t0, b, v, Ones(40) * Pow(2, 10), Ones(10));
    SquarePowers(t0, b, 50, v, Ones(50));
    OnesJoin(50, 50);
    MulPowers(c, t0, b, v, Ones(50) * Pow(2, 50), Ones(50));
    SquarePowers(t0, c, 100, v, Ones(100));
    OnesJoin(100, 100);
    MulPowers(t0, t0, c, v, Ones(100) * Pow(2, 100), Ones(100));
    SquarePowers(t0, t0, 50, v, Ones(200));
    OnesJoin(200, 50);
    MulPowers(b, t0, b, v, Ones(200) * Pow(2, 50), Ones(50));
  }

  /** The powers 11 and 31 that both exponentiations start from. */
  method FirstPowers(a: array<int>, b: array<int>, z: array<int>, ghost v: nat)
    requires a.Length == 5 && b.Length == 5 && a != b && a != z && b != z && IsPower(z[..], v, 1)
    modifies a, b
    ensures IsPower(a[..], v, 11) && IsPower(b[..], v, Ones(5))
  {
    hide IsPower, Ones, Pow;
    SmallPowers();
    var t0 := new int[5];
    SquarePowers(a, z, 1, v, 1);
    SquarePowers(t0, a, 2, v, 2);
    MulPowers(b, t0, z, v, 8, 1);
    MulPowers(a, b, a, v, 9, 2);
    SquarePowers(t0, a, 1, v, 11);
    MulPowers(b, t0, b, v, 22, 9);
  }

  lemma SmallPowers()
    ensures Pow(2, 1) == 2 && Pow(2, 2) == 4 && Pow(2, 5) == 32 && Ones(5) == 31
  {
    Powers();
  }

  lemma FirstPower(a: seq<int>, v: nat)
    requires Small(a, B54) && FieldValue(a) == v
    ensures IsPower(a, v, 1)
  {
    assert Pow(v, 1) == v * Pow(v, 0);
  }

  /** curve25519_recip */
  method Recip(out: array<int>, z: array<int>)
    requires out.Length == 5 && Small(z[..], B54)
    modifies out
    ensures Small(out[..], B54)
    ensures Congruent(FieldValue(out[..]), Pow(old(FieldValue(z[..])), P - 2))
  {
    hide FieldValue, Pow, Ones, Congruent;
    NotNegative(z[..]);
    ghost var v: nat := FieldValue(z[..]);
    FirstPower(z[..], v);
    var a, b := new int[5], new int[5];
    FirstPowers(a, b, z, v);
    PowTo250(b, v);
    SquarePowers(b, b, 5, v, Ones(250));
    MulPowers(out, b, a, v, Ones(250) * Pow(2, 5), 11);
    RecipExponent();
  }

  lemma RecipExponent()
    ensures Ones(250) * Pow(2, 5) + 11 == P - 2
  {
    SmallPowers();
    OnesJoin(250, 5);
    TopPowers();
    hide Pow;
  }

  /** The modulus is 2^255 - 19. */
  lemma TopPowers()
    ensures B255 == Pow(2, 255) && B255 == 8 * Pow(2, 252)
  {
    assert Pow(2, 51) == B51 by {
      Powers();
      WidePowers();
      hide Pow;
      PowSum(2, 32, 8);
      PowSum(2, 40, 8);
      PowSum(2, 48, 3);
    }
    Powers();
    hide Pow;
    PowSum(2, 51, 51);
    PowSum(2, 102, 51);
    PowSum(2, 153, 51);
    PowSum(2, 204, 51);
    PowSum(2, 3, 252);
  }

  /** curve25519_pow_two252m3 */
  method PowTwo252Minus3(out: array<int>, z: array<int>)
    requires out.Length == 5 && Small(z[..], B54)
    modifies out
    ensures Small(out[..], B54)
    ensures Congruent(FieldValue(out[..]), Pow(old(FieldValue(z[..])), (P - 5) / 8))
  {
    hide FieldValue, Pow, Ones, Congruent;
    NotNegative(z[..]);
    ghost var v: nat := FieldValue(z[..]);
    FirstPower(z[..], v);
    var c, b := new int[5], new int[5];
    FirstPowers(c, b, z, v);
    PowTo250(b, v);
    SquarePowers(b, b, 2, v, Ones(250));
    MulPowers(out, b, z, v, Ones(250) * Pow(2, 2), 1);
    RootExponent();
  }

  lemma RootExponent()
    ensures Ones(250) * Pow(2, 2) + 1 == (P - 5) / 8
  {
    SmallPowers();
    OnesJoin(250, 2);
    TopPowers();
    hide Pow;
  }

  // ----- Bytes -----

  const B12: nat := 0x1000
  const B13: nat := 0x2000
  const B25: nat := 0x200_0000
  const B26: nat := 0x400_0000
  const B38: nat := 0x40_0000_0000
  const B39: nat := 0x80_0000_0000

  /** Limbs that take the top of one word and the bottom of the next. */
  lemma Join13(a: nat, b: nat)
    requires a < WORD && b < WORD
    ensures (a / B51 + Shl(b, B13)) % B51 == a / B51 + b % B38 * B13
  {
    ModBy(b * B13, WORD, b / B51, b % B51 * B13);
    Nest(b, B51, B38, B13);
    ModBy(a / B51 + b % B51 * B13, B51, b % B51 / B38, a / B51 + b % B38 * B13);
  }

  lemma Join26(a: nat, b: nat)
    requires a < WORD && b < WORD
    ensures (a / B38 + Shl(b, B26)) % B51 == a / B38 + b % B25 * B26
  {
    ModBy(b * B26, WORD, b / B38, b % B38 * B26);
    Nest(b, B38, B25, B13);
    ModBy(a / B38 + b % B38 * B26, B51, b % B38 / B25, a / B38 + b % B25 * B26);
  }

  lemma Join39(a: nat, b: nat)
    requires a < WORD && b < WORD
    ensures (a / B25 + Shl(b, B39)) % B51 == a / B25 + b % B12 * B39
  {
    ModBy(b * B39, WORD, b / B25, b % B25 * B39);
    Nest(b, B25, B12, B13);
    ModBy(a / B25 + b % B25 * B39, B51, b % B25 / B12, a / B25 + b % B12 * B39);
  }

  function LimbsOfWords(x0: nat, x1: nat, x2: nat, x3: nat): seq<int> {
    [x0 % B51, (x0 / B51 + Shl(x1, B13)) % B51, (x1 / B38 + Shl(x2, B26)) % B51, (x2 / B25 + Shl(x3, B39)) % B51,
     x3 / B12 % B51]
  }

  /** Bit 255 is dropped. */
  lemma LimbsOfWordsValue(x0: nat, x1: nat, x2: nat, x3: nat)
    requires x0 < WORD && x1 < WORD && x2 < WORD && x3 < WORD
    ensures Small(LimbsOfWords(x0, x1, x2, x3), B51)
    ensures FieldValue(LimbsOfWords(x0, x1, x2, x3)) == (x0 + WORD * x1 + W128 * x2 + W192 * x3) % B255
  {
    hide Shl, FieldValue;
    Join13(x0, x1);
    Join26(x1, x2);
    Join39(x2, x3);
    var a := LimbsOfWords(x0, x1, x2, x3);
    LimbsSum(a, x0, x1, x2, x3);
    ModBy(x0 + WORD * x1 + W128 * x2 + W192 * x3, B255, x3 / B12 / B51, FieldValue(a));
  }

  lemma LimbsSum(a: seq<int>, x0: nat, x1: nat, x2: nat, x3: nat)
    requires Small(a, B51)
    requires a[0] == x0 % B51 && a[1] == x0 / B51 + x1 % B38 * B13 && a[2] == x1 / B38 + x2 % B25 * B26
    requires a[3] == x2 / B25 + x3 % B12 * B39 && a[4] == x3 / B12 % B51
    ensures FieldValue(a) + B255 * (x3 / B12 / B51) == x0 + WORD * x1 + W128 * x2 + W192 * x3
    ensures 0 <= FieldValue(a) < B255
  {
  }

  /** curve25519_expand */
  method Expand(out: array<int>, input: seq<int>)
    requires out.Length == 5 && |input| == 32 && Bytes(input)
    modifies out
    ensures Small(out[..], B51) && FieldValue(out[..]) == Value(input, 256) % B255
  {
    hide Value, Load, FieldValue, LimbsOfWords;
    var x0, x1, x2, x3 := Load(input, 0), Load(input, 8), Load(input, 16), Load(input, 24);
    var a := LimbsOfWords(x0, x1, x2, x3);
    LimbsOfWordsValue(x0, x1, x2, x3);
    FourWords(input);
    NothingLeft(input[32..]);
    out[0], out[1], out[2], out[3], out[4] := a[0], a[1], a[2], a[3], a[4];
    assert out[..] == a;
  }

  /** curve25519_contract_carry: limbs 0 to 3 pass on what they cannot hold. */
  method PassOn(t: seq<int>) returns (s: seq<int>)
    requires Small(t, WORD - 0x2000)
    ensures |s| == 5 && FieldValue(s) == FieldValue(t) && 0 <= s[4] < WORD
    ensures 0 <= s[0] < B51 && 0 <= s[1] < B51 && 0 <= s[2] < B51 && 0 <= s[3] < B51
  {
    hide Below51, Above51;
    var t0: nat := t[0];
    LowHigh(t0);
    var t1: nat := t[1] + Above51(t0);
    LowHigh(t1);
    var t2: nat := t[2] + Above51(t1);
    LowHigh(t2);
    var t3: nat := t[3] + Above51(t2);
    LowHigh(t3);
    s := [Below51(t0), Below51(t1), Below51(t2), Below51(t3), t[4] + Above51(t3)];
  }

  /** curve25519_contract_carry_full */
  method CarryFull(t: seq<int>) returns (s: seq<int>)
    requires Small(t, WORD - 0x2000)
    ensures Small(s, B51 + 0x2_6000) && s[1] < B51 && s[2] < B51 && s[3] < B51 && s[4] < B51
    ensures FieldValue(s) == FieldValue(t) % B255 + 19 * (FieldValue(t) / B255)
    ensures FieldValue(t) < B255 ==> s[0] < B51
  {
    hide FieldValue, Below51, Above51;
    var p := PassOn(t);
    var p4: nat := p[4];
    LowHigh(p4);
    s := [p[0] + 19 * Above51(p4), p[1], p[2], p[3], Below51(p4)];
    FullValue(p, s, Above51(p4));
  }

  lemma FullValue(p: seq<int>, s: seq<int>, c: nat)
    requires |p| == 5 && |s| == 5 && s[0] == p[0] + 19 * c && s[4] == p[4] - B51 * c
    requires s[1] == p[1] && s[2] == p[2] && s[3] == p[3] && 0 <= s[4] < B51
    requires 0 <= p[0] < B51 && 0 <= p[1] < B51 && 0 <= p[2] < B51 && 0 <= p[3] < B51
    ensures FieldValue(s) == FieldValue(p) % B255 + 19 * (FieldValue(p) / B255)
    ensures FieldValue(p) < B255 ==> c == 0
  {
    var low := FieldValue([p[0], p[1], p[2], p[3], s[4]]);
    assert FieldValue(p) == low + B255 * c && 0 <= low < B255;
    ModBy(FieldValue(p), B255, c, low);
    DivBy(FieldValue(p), B255, c, low);
  }

  /** A second full pass leaves a properly carried value below 2^255. */
  lemma SecondPass(u: int, w: int, s: seq<int>)
    requires 0 <= u < B255 + 0x2_6000 && w == u % B255 + 19 * (u / B255)
    requires |s| == 5 && FieldValue(s) == w && 0 <= s[0] && 0 <= s[1] && 0 <= s[2] && 0 <= s[3] && 0 <= s[4]
    requires u < B255 ==> s[0] < B51
    ensures 0 <= w < B255 && s[0] < B51
  {
    if u >= B255 {
      assert u / B255 == 1 && u % B255 == u - B255;
    } else {
      assert u / B255 == 0 && u % B255 == u;
    }
  }

  lemma FirstPass(t: int, u: int)
    requires 0 <= t < B255 * 0x2000 && u == t % B255 + 19 * (t / B255)
    ensures 0 <= u < B255 + 0x2_6000
  {
    assert 0 <= t / B255 <= 0x2000;
  }

  lemma PassIsCongruent(t: int, u: int)
    requires u == t % B255 + 19 * (t / B255)
    ensures Congruent(u, t)
  {
    hide Congruent;
    CongruentBy(u, t, -(t / B255));
  }

  lemma WordsBound(t: seq<int>)
    requires Small(t, WORD - 0x2000)
    ensures 0 <= FieldValue(t) < B255 * 0x2000
  {
  }

  /** Adding 19 carries over exactly when the value is at least the modulus. */
  lemma Offset19(v: int, w: int)
    requires 0 <= v < B255 && w == (v + 19) % B255 + 19 * ((v + 19) / B255)
    ensures w == v % P + 19
  {
    if v < P {
      assert (v + 19) / B255 == 0 && (v + 19) % B255 == v + 19;
      ModBy(v, P, 0, v);
    } else {
      assert (v + 19) / B255 == 1 && (v + 19) % B255 == v + 19 - B255;
      ModBy(v, P, 1, v - P);
    }
  }

  lemma BackOffset(p: seq<int>, v: int, s: seq<int>)
    requires |p| == 5 && |s| == 5 && FieldValue(p) == v + B255 && 0 <= v < B255
    requires 0 <= p[0] < B51 && 0 <= p[1] < B51 && 0 <= p[2] < B51 && 0 <= p[3] < B51 && 0 <= p[4]
    requires s == [p[0], p[1], p[2], p[3], p[4] % B51]
    ensures Small(s, B51) && FieldValue(s) == v
  {
    var c := p[4] / B51;
    assert p[4] == p[4] % B51 + B51 * c;
    assert FieldValue(p) == FieldValue(s) + B255 * c && 0 <= FieldValue(s) < B255;
    ModBy(FieldValue(p), B255, c, FieldValue(s));
    ModBy(FieldValue(p), B255, 1, v);
  }

  /** The limbs of curve25519_contract before they are written out: the value reduced, below the modulus. */
  method Freeze(input: seq<int>) returns (t: seq<int>)
    requires Small(input, WORD - 0x2000)
    ensures Small(t, B51) && FieldValue(t) == FieldValue(input) % P
  {
    hide FieldValue, Congruent;
    WordsBound(input);
    t := CarryFull(input);
    FirstPass(FieldValue(input), FieldValue(t));
    PassIsCongruent(FieldValue(input), FieldValue(t));
    ghost var u := FieldValue(t);
    t := CarryFull(t);
    ghost var v := FieldValue(t);
    SecondPass(u, v, t);
    PassIsCongruent(u, v);
    Chain(v, u, FieldValue(input));
    OffsetValue();
    t := Plus(t, [19, 0, 0, 0, 0]);
    WordsBound(t);
    t := CarryFull(t);
    Offset19(v, FieldValue(t));
    SameRemainder(v, FieldValue(input));
    ghost var w := FieldValue(t);
    t := Plus(t, [B51 - 19, B51 - 1, B51 - 1, B51 - 1, B51 - 1]);
    var p := PassOn(t);
    t := [p[0], p[1], p[2], p[3], p[4] % B51];
    BackOffset(p, w - 19, t);
  }

  /** Adds constants to all limbs. */
  method Plus(a: seq<int>, d: seq<int>) returns (s: seq<int>)
    requires Small(a, B52) && Small(d, B51)
    ensures Small(s, B52 + B51) && FieldValue(s) == FieldValue(a) + FieldValue(d)
  {
    s := [a[0] + d[0], a[1] + d[1], a[2] + d[2], a[3] + d[3], a[4] + d[4]];
  }

  lemma SameRemainder(x: int, y: int)
    requires Congruent(x, y)
    ensures x % P == y % P && 0 <= x % P < P
  {
  }

  lemma OffsetValue()
    ensures FieldValue([19, 0, 0, 0, 0]) == 19
    ensures FieldValue([B51 - 19, B51 - 1, B51 - 1, B51 - 1, B51 - 1]) == P
  {
  }

  lemma ShlSplit(b: nat)
    requires b < B51
    ensures Shl(b, B51) == b % B13 * B51 && Shl(b, B38) == b % B26 * B38
    ensures Shl(b, B25) == b % B39 * B25 && Shl(b, B12) == b * B12
  {
    ModBy(b * B51, WORD, b / B13, b % B13 * B51);
    ModBy(b * B38, WORD, b / B26, b % B26 * B38);
    ModBy(b * B25, WORD, b / B39, b % B39 * B25);
    ModBy(b * B12, WORD, 0, b * B12);
  }

  lemma WordsOfLimbs(t: seq<int>, w0: nat, w1: nat, w2: nat, w3: nat)
    requires Small(t, B51)
    requires w0 == t[0] + Shl(t[1], B51) && w1 == t[1] / B13 + Shl(t[2], B38)
    requires w2 == t[2] / B26 + Shl(t[3], B25) && w3 == t[3] / B39 + Shl(t[4], B12)
    ensures w0 < WORD && w1 < WORD && w2 < WORD && w3 < WORD
    ensures FieldValue(t) == w0 + WORD * w1 + W128 * w2 + W192 * w3
  {
    hide Shl;
    ShlSplit(t[1]);
    ShlSplit(t[2]);
    ShlSplit(t[3]);
    ShlSplit(t[4]);
  }

  /** curve25519_contract */
  method Contract(out: array<int>, input: seq<int>)
    requires out.Length == 32 && Small(input, WORD - 0x2000)
    modifies out
    ensures Bytes(out[..]) && Value(out[..], 256) == FieldValue(input) % P
  {
    hide FieldValue, Shl, Value, DigitsOf;
    var t := Freeze(input);
    var w0 := t[0] + Shl(t[1], B51);
    var w1 := t[1] / B13 + Shl(t[2], B38);
    var w2 := t[2] / B26 + Shl(t[3], B25);
    var w3 := t[3] / B39 + Shl(t[4], B12);
    WordsOfLimbs(t, w0, w1, w2, w3);
    Store4(w0, w1, w2, w3);
    Spread(out, 0, w0, 256, 8);
    Spread(out, 8, w1, 256, 8);
    assert out[0..8] == out[..8];
    Spread(out, 16, w2, 256, 8);
    assert out[0..8] == out[..16][..8] && out[8..16] == out[..16][8..];
    Spread(out, 24, w3, 256, 8);
    assert out[..24] == out[0..8] + out[8..16] + out[16..24];
    assert out[..] == Store(w0) + Store(w1) + Store(w2) + Store(w3);
  }

  /** What a loosely carried element was written as is read back in canonical limbs. */
  method ReadBack(a: seq<int>) returns (e: seq<int>)
    requires Small(a, WORD - 0x2000)
    ensures Small(e, B51) && FieldValue(e) == FieldValue(a) % P
    ensures e == a <==> Small(a, B51) && FieldValue(a) < P
  {
    hide FieldValue, Value;
    var bytes, out := new int[32], new int[5];
    Contract(bytes, a);
    Expand(out, bytes[..]);
    e := out[..];
    Canonical(FieldValue(a));
    WordsBound(a);
    if Small(a, B51) && FieldValue(a) < P {
      SameLimbs(e, a);
    }
  }

  lemma Canonical(v: int)
    ensures 0 <= v % P < P && v % P % B255 == v % P
    ensures 0 <= v < P ==> v % P == v
  {
  }

  lemma SameLimbs(a: seq<int>, b: seq<int>)
    requires Small(a, B51) && Small(b, B51) && FieldValue(a) == FieldValue(b)
    ensures a == b
  {
    LimbValue(a);
    LimbValue(b);
    UniqueDigits(a, b, B51);
  }

  lemma LimbValue(a: seq<int>)
    requires |a| == 5
    ensures Value(a, B51) == FieldValue(a)
  {
    assert a[1..][1..] == a[2..] && a[2..][1..] == a[3..] && a[3..][1..] == a[4..] && a[4..][1..] == [];
    assert Value(a[4..], B51) == a[4];
    assert Value(a[3..], B51) == a[3] + B51 * a[4];
    assert Value(a[2..], B51) == a[2] + B51 * (a[3] + B51 * a[4]);
    assert Value(a[1..], B51) == a[1] + B51 * (a[2] + B51 * (a[3] + B51 * a[4]));
  }

  /** Bytes are written back as they were read exactly when they are canonical. */
  method WriteBack(input: seq<int>) returns (output: seq<int>)
    requires |input| == 32 && Bytes(input)
    ensures |output| == 32 && Bytes(output) && Value(output, 256) == Value(input, 256) % B255 % P
    ensures output == input <==> Value(input, 256) < P
  {
    hide FieldValue, Value;
    var bytes, limbs := new int[32], new int[5];
    Expand(limbs, input);
    Contract(bytes, limbs[..]);
    output := bytes[..];
    ByteValue(input);
    Canonical(Value(input, 256) % B255);
    if Value(input, 256) < P {
      Canonical(Value(input, 256));
      UniqueDigits(input, output, 256);
    }
  }

  lemma ByteValue(s: seq<int>)
    requires Bytes(s)
    ensures Value(s, 256) >= 0
  {
    ValueOfDigits(s, 256);
  }

  /** Equal bytes are written exactly for congruent elements. */
  method Compare(a: seq<int>, b: seq<int>) returns (equal: bool)
    requires Small(a, WORD - 0x2000) && Small(b, WORD - 0x2000)
    ensures equal <==> Congruent(FieldValue(a), FieldValue(b))
  {
    hide FieldValue, Value;
    var x, y := new int[32], new int[32];
    Contract(x, a);
    Contract(y, b);
    equal := x[..] == y[..];
    if Congruent(FieldValue(a), FieldValue(b)) {
      UniqueDigits(x[..], y[..], 256);
    }
  }

  // ----- Sums -----

  const FOUR_P: seq<int> := [0x1f_ffff_ffff_ffb4, 0x1f_ffff_ffff_fffc, 0x1f_ffff_ffff_fffc, 0x1f_ffff_ffff_fffc,
                             0x1f_ffff_ffff_fffc]
  const TWO_P: seq<int> := [0xf_ffff_ffff_ffda, 0xf_ffff_ffff_fffe, 0xf_ffff_ffff_fffe, 0xf_ffff_ffff_fffe,
                            0xf_ffff_ffff_fffe]

  /** curve25519_add_reduce */
  method AddReduce(a: seq<int>, b: seq<int>) returns (out: seq<int>)
    requires Small(a, WORD / 4) && Small(b, WORD / 4)
    ensures Small(out, B52) && Congruent(FieldValue(out), FieldValue(a) + FieldValue(b))
  {
    hide Congruent;
    out := CarryRound([a[0] + b[0], a[1] + b[1], a[2] + b[2], a[3] + b[3], a[4] + b[4]]);
  }

  /** curve25519_sub_reduce: four times the modulus keeps every limb from going below zero. */
  method SubReduce(a: seq<int>, b: seq<int>) returns (out: seq<int>)
    requires Small(a, WORD / 4) && Small(b, FOUR_P[0] + 1)
    ensures Small(out, B52) && Congruent(FieldValue(out), FieldValue(a) - FieldValue(b))
  {
    hide Congruent;
    var d := [a[0] + FOUR_P[0] - b[0], a[1] + FOUR_P[1] - b[1], a[2] + FOUR_P[2] - b[2], a[3] + FOUR_P[3] - b[3],
              a[4] + FOUR_P[4] - b[4]];
    CongruentBy(FieldValue(d), FieldValue(a) - FieldValue(b), 4);
    out := CarryRound(d);
    Chain(FieldValue(out), FieldValue(d), FieldValue(a) - FieldValue(b));
  }

  /** curve25519_neg */
  method Neg(a: seq<int>) returns (out: seq<int>)
    requires Small(a, TWO_P[0] + 1)
    ensures Small(out, B52) && Congruent(FieldValue(out), -FieldValue(a))
  {
    hide Congruent;
    var d := [TWO_P[0] - a[0], TWO_P[1] - a[1], TWO_P[2] - a[2], TWO_P[3] - a[3], TWO_P[4] - a[4]];
    CongruentBy(FieldValue(d), -FieldValue(a), 2);
    out := CarryRound(d);
    Chain(FieldValue(out), FieldValue(d), -FieldValue(a));
  }
}
