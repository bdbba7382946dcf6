/**
  Arithmetic modulo the group order on five 56-bit limbs. Words are integers
  here; every wrap-around, mask and shift of the 64-bit code is written out,
  and an `or` of values with no common bit is a sum.
 */
module ModM {
  import opened BatchScalars
  import opened Digits
  import opened Scalars

  const M: nat := 0x10000000_00000000_00000000_00000000_14def9de_a2f79cd6_5812631a_5cf5d3ed
  const M0: nat := 0x12631a_5cf5d3ed
  const M1: nat := 0xf9dea2_f79cd658
  const M2: nat := 0x14de
  const M3: nat := 0
  const M4: nat := 0x1000_0000

  const MU: nat := 0xf_ffffffff_ffffffff_ffffffff_ffffffeb_2106215d_086329a7_ed9ce5a3_0a2c131b
  const MU0: nat := 0x9ce5a3_0a2c131b
  const MU1: nat := 0x215d08_6329a7ed
  const MU2: nat := 0xffffff_ffeb2106
  const MU3: nat := 0xffffff_ffffffff
  const MU4: nat := 0xf_ffffffff

  const B8: nat := 0x100
  const B16: nat := 0x1_0000
  const B24: nat := 0x100_0000
  const B32: nat := 0x1_0000_0000
  const B40: nat := 0x100_0000_0000
  const B48: nat := 0x1_0000_0000_0000
  const B112: nat := LIMB * LIMB
  const B168: nat := LIMB * B112
  const B224: nat := LIMB * B168
  const B248: nat := B24 * B224
  const B264: nat := B40 * B224
  const B512: nat := B248 * B264

  lemma Constants()
    ensures M == M0 + LIMB * M1 + B112 * M2 + B168 * M3 + B224 * M4
    ensures MU == MU0 + LIMB * MU1 + B112 * MU2 + B168 * MU3 + B224 * MU4
    ensures M == 0x10000000_00000000_00000000_00000000_00000000_00000000_00000000_00000000
                 + 27742317777372353535851937790883648493
    ensures MU * M <= B512 < (MU + 1) * M
    ensures 16 * B248 < M && 3 * M < B264
    ensures 1000 * (B512 - MU * M) < 225 * M
  {
  }

  predicate Limbs(s: seq<int>, top: nat) {
    && |s| == 5
    && 0 <= s[0] < LIMB && 0 <= s[1] < LIMB && 0 <= s[2] < LIMB && 0 <= s[3] < LIMB
    && 0 <= s[4] < top
  }

  lemma FiveLimbs(s: seq<int>)
    requires |s| == 5
    ensures ScalarValue(s) == s[0] + LIMB * s[1] + B112 * s[2] + B168 * s[3] + B224 * s[4]
  {
    assert s[1..][1..] == s[2..] && s[2..][1..] == s[3..] && s[3..][1..] == s[4..] && s[4..][1..] == [];
    assert Value(s[4..], LIMB) == s[4];
    assert Value(s[3..], LIMB) == s[3] + LIMB * s[4];
    assert Value(s[2..], LIMB) == s[2] + LIMB * (s[3] + LIMB * s[4]);
    assert Value(s[1..], LIMB) == s[1] + LIMB * (s[2] + LIMB * (s[3] + LIMB * s[4]));
  }

  // ----- Words -----

  /** lo128 */
  function Lo(c: nat): nat {
    c % WORD
  }

  /** shr128 by one limb, which keeps 64 bits. */
  function Shr(c: nat): nat {
    c / LIMB % WORD
  }

  function Shl(f: nat, scale: nat): nat {
    f * scale % WORD
  }

  /** A column is its low limb and what shr128 leaves of it. */
  lemma Column(c: nat)
    requires c < LIMB * WORD
    ensures c == c % LIMB + LIMB * Shr(c)
    ensures Lo(c) % LIMB == c % LIMB
  {
    var q := c / LIMB;
    assert q < WORD;
    LowLimb(c);
  }

  lemma LowLimb(f: nat)
    ensures f % WORD % LIMB == f % LIMB
  {
    var q, r := f / WORD, f % WORD;
    assert f == LIMB * (256 * q + r / LIMB) + r % LIMB;
  }

  /** The 16 bits of the limb from bit 40 on. */
  lemma Above40(f: nat)
    requires f < WORD
    ensures f / B40 % B16 == f % LIMB / B40
  {
    var h, g := f / LIMB, f % LIMB;
    assert f / B40 == B16 * h + g / B40;
  }

  /** The 40 bits below, moved up by 16. */
  lemma Below40(f: nat)
    ensures Shl(f, B16) % LIMB == f % LIMB % B40 * B16
  {
    LowLimb(f * B16);
    ModBy(f * B16, LIMB, f / B40, f % B40 * B16);
    Nested40(f);
  }

  lemma Nested40(f: nat)
    ensures f % LIMB % B40 == f % B40
  {
    assert LIMB == B16 * B40;
  }

  // ----- Barrett reduction -----

  /** The column sums of mu * q1 from the third on, with their carries, are worth the rest of the product. */
  lemma ColumnsOfQuotient(p3: int, p4: int, p5: int, p6: int, p7: int, p8: int,
                          l3: int, l4: int, l5: int, l6: int, l7: int, l8: int,
                          f3: int, f4: int, f5: int, f6: int, f7: int, f8: int)
    requires p3 == l3 + LIMB * f3 && p4 + f3 == l4 + LIMB * f4 && p5 + f4 == l5 + LIMB * f5
    requires p6 + f5 == l6 + LIMB * f6 && p7 + f6 == l7 + LIMB * f7 && p8 + f7 == l8 + LIMB * f8
    ensures p3 + LIMB * (p4 + LIMB * (p5 + LIMB * (p6 + LIMB * (p7 + LIMB * p8))))
         == l3 + LIMB * (l4 + LIMB * (l5 + LIMB * (l6 + LIMB * (l7 + LIMB * (l8 + LIMB * f8)))))
  {
  }

  /** The limb a column leaves. */
  function Digit(c: nat): (l: nat)
    ensures l < LIMB
  {
    c % LIMB
  }

  /** Its upper 16 bits, as the code takes them. */
  function Upper16(c: nat): nat {
    Lo(c) / B40 % B16
  }

  /** Its lower 40 bits, moved above those of the limb before. */
  function Lower40(c: nat): nat {
    Shl(Lo(c), B16) % LIMB
  }

  /** Limbs put together from the upper 16 bits of one digit and the lower 40 of the next. */
  lemma Shifted40(c4: nat, c5: nat, c6: nat, c7: nat, c8: nat, f8: nat, q: seq<int>)
    requires |q| == 5 && f8 * B16 <= LIMB - B16
    requires q[0] == Upper16(c4) + Lower40(c5) && q[1] == Upper16(c5) + Lower40(c6)
    requires q[2] == Upper16(c6) + Lower40(c7) && q[3] == Upper16(c7) + Lower40(c8)
    requires q[4] == Upper16(c8) + f8 * B16
    ensures ScalarValue(q) ==
      Upper16(c4) + B16 * (Digit(c5) + LIMB * (Digit(c6) + LIMB * (Digit(c7) + LIMB * (Digit(c8) + LIMB * f8))))
    ensures Limbs(q, LIMB)
  {
    hide Upper16, Lower40, Digit, ScalarValue;
    FiveLimbs(q);
    Recombine40(c4);
    Recombine40(c5);
    Recombine40(c6);
    Recombine40(c7);
    Recombine40(c8);
  }

  lemma Recombine40(c: nat)
    ensures Lower40(c) + LIMB * Upper16(c) == B16 * Digit(c)
    ensures Lower40(c) <= LIMB - B16 && Upper16(c) < B16
    ensures Upper16(c) == Digit(c) / B40
  {
    hide Shl;
    Above40(Lo(c));
    Below40(Lo(c));
    LowLimb(c);
    var l := c % LIMB;
    assert l == B40 * (l / B40) + l % B40;
  }

  /** The products mu[i] * q[j] with i + j == k, for the columns the code computes. */
  function MuColumn(q: seq<int>, k: nat): int
    requires |q| == 5 && 3 <= k <= 8
  {
    if k == 3 then MU0 * q[3] + MU3 * q[0] + MU1 * q[2] + MU2 * q[1]
    else if k == 4 then MU0 * q[4] + MU4 * q[0] + MU3 * q[1] + MU1 * q[3] + MU2 * q[2]
    else if k == 5 then MU4 * q[1] + MU1 * q[4] + MU2 * q[3] + MU3 * q[2]
    else if k == 6 then MU4 * q[2] + MU2 * q[4] + MU3 * q[3]
    else if k == 7 then MU4 * q[3] + MU3 * q[4]
    else MU4 * q[4]
  }

  lemma MuColumnBound(q: seq<int>, k: nat)
    requires Limbs(q, B40) && 3 <= k <= 8
    ensures 0 <= MuColumn(q, k) < 5 * B112
    ensures MuColumn(q, 8) < LIMB * B24
  {
  }

  /** What is left of mu * q once the columns below the third are dropped, in units of 2^168. */
  function Truncated(q: seq<int>): int
    requires |q| == 5
  {
    MuColumn(q, 3) + LIMB * (MuColumn(q, 4) + LIMB * (MuColumn(q, 5)
    + LIMB * (MuColumn(q, 6) + LIMB * (MuColumn(q, 7) + LIMB * MuColumn(q, 8)))))
  }

  function Dropped(q: seq<int>): int
    requires |q| == 5
  {
    MU0 * q[0] + LIMB * (MU0 * q[1] + MU1 * q[0]) + B112 * (MU0 * q[2] + MU1 * q[1] + MU2 * q[0])
  }

  lemma MuProduct(q: seq<int>)
    requires |q| == 5
    ensures MU * ScalarValue(q) == Dropped(q) + B168 * Truncated(q)
  {
    FiveLimbs(q);
  }

  /** The dropped columns are worth less than 2^226. */
  lemma DroppedColumns(q: seq<int>)
    requires Limbs(q, B40)
    ensures MU * ScalarValue(q) - 4 * B224 < B168 * Truncated(q) <= MU * ScalarValue(q)
  {
    MuProduct(q);
    assert 0 <= Dropped(q) < 4 * B224;
    hide Truncated, ScalarValue;
  }

  /** A column, the limb it leaves and its carry. */
  lemma Cut(c: nat)
    requires c < LIMB * WORD
    ensures c == Digit(c) + LIMB * Shr(c) && Shr(c) < WORD
  {
    Column(c);
  }

  method Quotient(q1: seq<int>) returns (q3: seq<int>)
    requires Limbs(q1, B40)
    ensures Limbs(q3, LIMB)
    ensures B264 * ScalarValue(q3) <= B168 * Truncated(q1) < B264 * (ScalarValue(q3) + 1)
  {
    hide Shl, Shr, Upper16, Lower40, ScalarValue, MuColumn, Truncated;
    MuColumnBound(q1, 3);
    MuColumnBound(q1, 4);
    MuColumnBound(q1, 5);
    MuColumnBound(q1, 6);
    MuColumnBound(q1, 7);
    MuColumnBound(q1, 8);
    var c3: nat := MuColumn(q1, 3);
    var c4: nat := MuColumn(q1, 4) + Shr(c3);
    var c5: nat := MuColumn(q1, 5) + Shr(c4);
    var c6: nat := MuColumn(q1, 6) + Shr(c5);
    var c7: nat := MuColumn(q1, 7) + Shr(c6);
    var c8: nat := MuColumn(q1, 8) + Shr(c7);
    q3 := [
      Upper16(c4) + Lower40(c5),
      Upper16(c5) + Lower40(c6),
      Upper16(c6) + Lower40(c7),
      Upper16(c7) + Lower40(c8),
      Upper16(c8) + Shl(Shr(c8), B16)
    ];
    QuotientValue(q1, q3, [c3, c4, c5, c6, c7, c8]);
  }

  predicate MuColumns(q: seq<int>, c: seq<nat>)
    requires |q| == 5
  {
    && |c| == 6
    && c[0] == MuColumn(q, 3) && c[1] == MuColumn(q, 4) + Shr(c[0]) && c[2] == MuColumn(q, 5) + Shr(c[1])
    && c[3] == MuColumn(q, 6) + Shr(c[2]) && c[4] == MuColumn(q, 7) + Shr(c[3]) && c[5] == MuColumn(q, 8) + Shr(c[4])
  }

  lemma MuCarries(q: seq<int>, c: seq<nat>)
    requires Limbs(q, B40) && MuColumns(q, c)
    ensures forall k :: 0 <= k < 6 ==> c[k] == Digit(c[k]) + LIMB * Shr(c[k])
    ensures c[5] < B40 * LIMB
  {
    hide MuColumn, Shr, Digit;
    forall k | 0 <= k < 6
      ensures 0 <= MuColumn(q, k + 3) < 5 * B112 && Shr(c[k]) < WORD
    {
      MuColumnBound(q, k + 3);
      ShrBound(c[k]);
    }
    MuColumnBound(q, 8);
    forall k | 0 <= k < 6
      ensures c[k] == Digit(c[k]) + LIMB * Shr(c[k])
    {
      Cut(c[k]);
    }
  }

  lemma QuotientDigits(q: seq<int>, c: seq<nat>)
    requires Limbs(q, B40) && MuColumns(q, c)
    ensures Truncated(q) == Digit(c[0]) + LIMB * (Digit(c[1]) + LIMB * (Digit(c[2]) + LIMB * (Digit(c[3])
                            + LIMB * (Digit(c[4]) + LIMB * (Digit(c[5]) + LIMB * Shr(c[5]))))))
  {
    hide MuColumn, Shr, Digit;
    MuCarries(q, c);
    ColumnsOfQuotient(MuColumn(q, 3), MuColumn(q, 4), MuColumn(q, 5), MuColumn(q, 6), MuColumn(q, 7), MuColumn(q, 8),
                      Digit(c[0]), Digit(c[1]), Digit(c[2]), Digit(c[3]), Digit(c[4]), Digit(c[5]),
                      Shr(c[0]), Shr(c[1]), Shr(c[2]), Shr(c[3]), Shr(c[4]), Shr(c[5]));
  }

  lemma QuotientValue(q1: seq<int>, q3: seq<int>, c: seq<nat>)
    requires Limbs(q1, B40) && |c| == 6 && MuColumns(q1, c) && |q3| == 5
    requires q3[0] == Upper16(c[1]) + Lower40(c[2]) && q3[1] == Upper16(c[2]) + Lower40(c[3])
    requires q3[2] == Upper16(c[3]) + Lower40(c[4]) && q3[3] == Upper16(c[4]) + Lower40(c[5])
    requires q3[4] == Upper16(c[5]) + Shl(Shr(c[5]), B16)
    ensures Limbs(q3, LIMB)
    ensures B264 * ScalarValue(q3) <= B168 * Truncated(q1) < B264 * (ScalarValue(q3) + 1)
  {
    hide Shl, Shr, Upper16, Lower40, Digit, ScalarValue, MuColumn, MuColumns, Truncated;
    QuotientDigits(q1, c);
    MuCarries(q1, c);
    SmallTop(c[5]);
    Shifted40(c[1], c[2], c[3], c[4], c[5], Shr(c[5]), q3);
    FloorOf(c[0], c[1], Digit(c[2]) + LIMB * (Digit(c[3]) + LIMB * (Digit(c[4]) + LIMB * (Digit(c[5]) + LIMB * Shr(c[5])))));
  }

  lemma SmallTop(c: nat)
    requires c < B40 * LIMB
    ensures Shl(Shr(c), B16) == Shr(c) * B16 <= LIMB - B16
  {
  }

  lemma FloorOf(c3: nat, c4: nat, rest: nat)
    ensures B264 * (Upper16(c4) + B16 * rest) <= B168 * (Digit(c3) + LIMB * (Digit(c4) + LIMB * rest))
          < B264 * (Upper16(c4) + B16 * rest + 1)
  {
    hide Upper16;
    Recombine40(c4);
  }

  /** The products m[i] * q[j] with i + j == k, for the columns the code computes. */
  function MColumn(q: seq<int>, k: nat): int
    requires |q| == 5 && k <= 4
  {
    if k == 0 then M0 * q[0]
    else if k == 1 then M0 * q[1] + M1 * q[0]
    else if k == 2 then M0 * q[2] + M2 * q[0] + M1 * q[1]
    else if k == 3 then M0 * q[3] + M3 * q[0] + M1 * q[2] + M2 * q[1]
    else M0 * q[4] + M4 * q[0] + M3 * q[1] + M1 * q[3] + M2 * q[2]
  }

  lemma MColumnBound(q: seq<int>, k: nat)
    requires Limbs(q, LIMB) && k <= 4
    ensures 0 <= MColumn(q, k) < 5 * B112
  {
  }

  /** The columns above those, in units of 2^280. */
  function MHigh(q: seq<int>): int
    requires |q| == 5
  {
    M1 * q[4] + M2 * q[3] + M3 * q[2] + M4 * q[1]
    + LIMB * (M2 * q[4] + M3 * q[3] + M4 * q[2] + LIMB * (M3 * q[4] + M4 * q[3] + LIMB * (M4 * q[4])))
  }

  lemma MProduct(q: seq<int>)
    requires |q| == 5
    ensures M * ScalarValue(q) == MColumn(q, 0) + LIMB * MColumn(q, 1) + B112 * MColumn(q, 2)
                                + B168 * MColumn(q, 3) + B224 * MColumn(q, 4) + B224 * LIMB * MHigh(q)
  {
    FiveLimbs(q);
  }

  lemma ColumnsOfProduct(p0: int, p1: int, p2: int, p3: int, p4: int,
                         l0: int, l1: int, l2: int, l3: int, l4: int, f0: int, f1: int, f2: int, f3: int, f4: int)
    requires p0 == l0 + LIMB * f0 && p1 + f0 == l1 + LIMB * f1 && p2 + f1 == l2 + LIMB * f2
    requires p3 + f2 == l3 + LIMB * f3 && p4 + f3 == l4 + LIMB * f4
    ensures p0 + LIMB * p1 + B112 * p2 + B168 * p3 + B224 * p4
         == l0 + LIMB * l1 + B112 * l2 + B168 * l3 + B224 * l4 + B224 * LIMB * f4
  {
  }

  /** lo128 masked to a limb */
  function LowOf(c: nat): nat {
    Lo(c) % LIMB
  }

  function Low40(c: nat): nat {
    Lo(c) % B40
  }

  lemma CutLow(c: nat)
    requires c < LIMB * WORD
    ensures c == LowOf(c) + LIMB * Shr(c) && Shr(c) < WORD && LowOf(c) < LIMB
  {
    Column(c);
  }

  lemma CutTop(c: nat)
    ensures LowOf(c) == Low40(c) + B40 * Upper16(c) && Low40(c) < B40
  {
    Nested40(Lo(c));
    Above40(Lo(c));
  }

  /** The low 264 bits of m * q3. */
  method LowProduct(q3: seq<int>) returns (r2: seq<int>)
    requires Limbs(q3, LIMB)
    ensures Limbs(r2, B40)
    ensures ScalarValue(r2) == M * ScalarValue(q3) % B264
  {
    hide Shr, LowOf, Low40, ScalarValue, MColumn;
    MColumnBound(q3, 0);
    MColumnBound(q3, 1);
    MColumnBound(q3, 2);
    MColumnBound(q3, 3);
    MColumnBound(q3, 4);
    var c0: nat := MColumn(q3, 0);
    var c1: nat := MColumn(q3, 1) + Shr(c0);
    var c2: nat := MColumn(q3, 2) + Shr(c1);
    var c3: nat := MColumn(q3, 3) + Shr(c2);
    var c4: nat := MColumn(q3, 4) + Shr(c3);
    r2 := [LowOf(c0), LowOf(c1), LowOf(c2), LowOf(c3), Low40(c4)];
    ProductValue(q3, r2, [c0, c1, c2, c3, c4]);
  }

  lemma ProductValue(q3: seq<int>, r2: seq<int>, c: seq<nat>)
    requires Limbs(q3, LIMB) && |r2| == 5 && |c| == 5 && MColumns(q3, c)
    requires r2[0] == LowOf(c[0]) && r2[1] == LowOf(c[1]) && r2[2] == LowOf(c[2]) && r2[3] == LowOf(c[3])
    requires r2[4] == Low40(c[4])
    ensures Limbs(r2, B40)
    ensures ScalarValue(r2) == M * ScalarValue(q3) % B264
  {
    hide Shr, LowOf, Low40, Upper16, ScalarValue, MColumn, MColumns, MHigh;
    ProductDigits(q3, c);
    CutTop(c[4]);
    FiveLimbs(r2);
    Below264(ScalarValue(r2), M * ScalarValue(q3), Low40(c[4]), Upper16(c[4]), Shr(c[4]) + MHigh(q3),
             r2[0] + LIMB * r2[1] + B112 * r2[2] + B168 * r2[3]);
  }

  predicate MColumns(q: seq<int>, c: seq<nat>)
    requires |q| == 5
  {
    && |c| == 5
    && c[0] == MColumn(q, 0) && c[1] == MColumn(q, 1) + Shr(c[0]) && c[2] == MColumn(q, 2) + Shr(c[1])
    && c[3] == MColumn(q, 3) + Shr(c[2]) && c[4] == MColumn(q, 4) + Shr(c[3])
  }

  lemma ProductDigits(q: seq<int>, c: seq<nat>)
    requires Limbs(q, LIMB) && MColumns(q, c)
    ensures LowOf(c[0]) < LIMB && LowOf(c[1]) < LIMB && LowOf(c[2]) < LIMB && LowOf(c[3]) < LIMB
    ensures M * ScalarValue(q)
         == LowOf(c[0]) + LIMB * LowOf(c[1]) + B112 * LowOf(c[2]) + B168 * LowOf(c[3]) + B224 * LowOf(c[4])
            + B224 * LIMB * (Shr(c[4]) + MHigh(q))
  {
    hide Shr, LowOf, ScalarValue, MColumn, MHigh;
    MCarries(q, c);
    MProduct(q);
    ColumnsOfProduct(MColumn(q, 0), MColumn(q, 1), MColumn(q, 2), MColumn(q, 3), MColumn(q, 4),
                     LowOf(c[0]), LowOf(c[1]), LowOf(c[2]), LowOf(c[3]), LowOf(c[4]),
                     Shr(c[0]), Shr(c[1]), Shr(c[2]), Shr(c[3]), Shr(c[4]));
  }

  lemma MCarries(q: seq<int>, c: seq<nat>)
    requires Limbs(q, LIMB) && MColumns(q, c)
    ensures forall k :: 0 <= k < 5 ==> c[k] == LowOf(c[k]) + LIMB * Shr(c[k]) && LowOf(c[k]) < LIMB
  {
    hide MColumn, Shr, LowOf;
    forall k | 0 <= k < 5
      ensures 0 <= MColumn(q, k) < 5 * B112 && Shr(c[k]) < WORD
    {
      MColumnBound(q, k);
      ShrBound(c[k]);
    }
    forall k | 0 <= k < 5
      ensures c[k] == LowOf(c[k]) + LIMB * Shr(c[k]) && LowOf(c[k]) < LIMB
    {
      CutLow(c[k]);
    }
  }

  lemma Below264(v: int, product: int, low40: nat, upper: nat, high: int, low: int)
    requires low40 < B40 && 0 <= low < B224 && v == low + B224 * low40
    requires product == low + B224 * (low40 + B40 * upper) + B224 * LIMB * high
    ensures v == product % B264
  {
    ModBy(product, B264, upper + B16 * high, v);
  }

  // ----- Subtraction with borrow -----

  /** lt_modm */
  function Lt(a: nat, b: nat): nat {
    Wrap(a - b) / SIGN
  }

  /** One limb of a subtraction: the difference and whether it borrowed. */
  lemma BorrowLimb(a: nat, pb: nat, width: nat)
    requires a < LIMB && pb <= LIMB && width < SIGN
    ensures Lt(a, pb) == if a < pb then 1 else 0
    ensures 0 <= a - pb + Lt(a, pb) * width ==> Wrap(a - pb + Lt(a, pb) * width) == a - pb + Lt(a, pb) * width
  {
  }

  /** The difference limb by limb, where d is what is left at the top before any wrap. */
  lemma BorrowChain(a: seq<int>, s: seq<int>, t0: int, t1: int, t2: int, t3: int,
                    b0: int, b1: int, b2: int, b3: int, d: int)
    requires |a| == 5 && |s| == 5
    requires t0 == a[0] - s[0] + b0 * LIMB && t1 == a[1] - s[1] - b0 + b1 * LIMB
    requires t2 == a[2] - s[2] - b1 + b2 * LIMB && t3 == a[3] - s[3] - b2 + b3 * LIMB && d == a[4] - s[4] - b3
    requires 0 <= t0 < LIMB && 0 <= t1 < LIMB && 0 <= t2 < LIMB && 0 <= t3 < LIMB
    ensures ScalarValue([t0, t1, t2, t3, d]) == ScalarValue(a) - ScalarValue(s)
    ensures B224 * d <= ScalarValue(a) - ScalarValue(s) < B224 * (d + 1)
  {
    FiveLimbs(a);
    FiveLimbs(s);
    FiveLimbs([t0, t1, t2, t3, d]);
    hide ScalarValue;
  }

  const MODULUS: seq<int> := [M0, M1, M2, M3, M4]

  lemma ModulusValue()
    ensures ScalarValue(MODULUS) == M
  {
    FiveLimbs(MODULUS);
  }

  /** One limb of the chain: the borrow, and the difference with it. */
  method SubLimb(a: nat, pb: nat, width: nat) returns (t: nat, b: nat)
    requires a < LIMB && pb <= LIMB && width < SIGN
    ensures b == if a < pb then 1 else 0
    ensures 0 <= a - pb + b * width ==> t == a - pb + b * width
  {
    BorrowLimb(a, pb, width);
    b := Lt(a, pb);
    t := Wrap(a - pb + b * width);
  }

  /** reduce256_modm, in place. */
  method Reduce(r: array<int>)
    requires r.Length == 5 && Limbs(r[..], LIMB)
    modifies r
    ensures ScalarValue(r[..]) ==
            if old(ScalarValue(r[..])) < M then old(ScalarValue(r[..])) else old(ScalarValue(r[..])) - M
    ensures Limbs(r[..], LIMB)
  {
    hide ScalarValue;
    ghost var was := r[..];
    ModulusValue();
    var t0, b0 := SubLimb(r[0], M0, LIMB);
    var t1, b1 := SubLimb(r[1], b0 + M1, LIMB);
    var t2, b2 := SubLimb(r[2], b1 + M2, LIMB);
    var t3, b3 := SubLimb(r[3], b2 + M3, LIMB);
    var t4, b := SubLimb(r[4], b3 + M4, B32);
    BorrowChain(was, MODULUS, t0, t1, t2, t3, b0, b1, b2, b3, was[4] - M4 - b3);
    if b == 0 {
      r[0], r[1], r[2], r[3], r[4] := t0, t1, t2, t3, t4;
      assert r[..] == [t0, t1, t2, t3, t4];
    }
  }

  /** The difference modulo 2^264; r and r1 may be the same array. */
  method SubtractLow(r: array<int>, r1: array<int>, r2: seq<int>)
    requires r.Length == 5 && r1.Length == 5 && Limbs(r1[..], B40) && Limbs(r2, B40)
    modifies r
    ensures Limbs(r[..], B40)
    ensures ScalarValue(r[..]) == (old(ScalarValue(r1[..])) - ScalarValue(r2)) % B264
  {
    hide ScalarValue;
    ghost var was := r1[..];
    var t, b0 := SubLimb(r1[0], r2[0], LIMB);
    r[0] := t;
    assert r1[1] == was[1] && r1[2] == was[2] && r1[3] == was[3] && r1[4] == was[4];
    var b1, b2, b3, b;
    t, b1 := SubLimb(r1[1], b0 + r2[1], LIMB);
    r[1] := t;
    t, b2 := SubLimb(r1[2], b1 + r2[2], LIMB);
    r[2] := t;
    t, b3 := SubLimb(r1[3], b2 + r2[3], LIMB);
    r[3] := t;
    t, b := SubLimb(r1[4], b3 + r2[4], B40);
    r[4] := t;
    BorrowChain(was, r2, r[0], r[1], r[2], r[3], b0, b1, b2, b3, was[4] - r2[4] - b3);
    TopWrap(r[..], was[4] - r2[4] - b3, b, ScalarValue(was) - ScalarValue(r2));
  }

  lemma TopWrap(r: seq<int>, d: int, b: int, v: int)
    requires Limbs(r, B40) && r[4] == d + b * B40
    requires ScalarValue([r[0], r[1], r[2], r[3], d]) == v
    ensures ScalarValue(r) == v % B264
  {
    FiveLimbs(r);
    FiveLimbs([r[0], r[1], r[2], r[3], d]);
    hide ScalarValue;
    ModBy(v, B264, -b, ScalarValue(r));
  }

  /** What the truncated quotient leaves is below 1.3 times the order. */
  lemma Remainder(x: nat, q1: int, truncated: int, q3: int)
    requires x < B512 && q1 == x / B248
    requires MU * q1 - 4 * B224 < B168 * truncated <= MU * q1
    requires B264 * q3 <= B168 * truncated < B264 * (q3 + 1)
    ensures 0 <= x - M * q3 && 10 * (x - M * q3) < 13 * M
  {
    var x0 := x % B248;
    assert x == B248 * q1 + x0 && 0 <= q1 < B264;
    NotTooLarge(q1, B168 * truncated, q3);
    NotTooSmall(q1, B168 * truncated, q3);
    Constants();
  }

  lemma NotTooLarge(q1: int, t: int, q3: int)
    requires 0 <= q1 && t <= MU * q1 && B264 * q3 <= t
    ensures M * q3 <= B248 * q1
  {
    assert B264 * (M * q3) <= M * (MU * q1) <= B264 * (B248 * q1);
  }

  lemma NotTooSmall(q1: int, t: int, q3: int)
    requires 0 <= q1 < B264 && MU * q1 - 4 * B224 < t < B264 * (q3 + 1)
    ensures 1000 * (B248 * q1 - M * q3) < 1226 * M
  {
    assert 1000 * (B264 * (B248 * q1) - M * (MU * q1)) <= 225 * M * B264;
  }

  /** barrett_reduce256_modm; r and r1 may be the same array. */
  method Barrett(r: array<int>, q1: seq<int>, r1: array<int>, ghost x: nat)
    requires r.Length == 5 && r1.Length == 5 && Limbs(q1, B40) && Limbs(r1[..], B40)
    requires x < B512 && ScalarValue(q1) == x / B248 && ScalarValue(r1[..]) == x % B264
    modifies r
    ensures IsScalar(r[..]) && ScalarValue(r[..]) == x % M
  {
    hide ScalarValue, Truncated;
    var q3 := Quotient(q1);
    DroppedColumns(q1);
    Remainder(x, ScalarValue(q1), Truncated(q1), ScalarValue(q3));
    var r2 := LowProduct(q3);
    SubtractLow(r, r1, r2);
    LowBits(x, M * ScalarValue(q3), ScalarValue(r[..]));
    Reduce(r);
    Reduce(r);
    UpToTwice(x, ScalarValue(q3), ScalarValue(r[..]));
    Reduced(r[..]);
  }

  lemma LowBits(x: nat, product: int, r: int)
    requires 0 <= x - product < B264 && r == (x % B264 - product % B264) % B264
    ensures r == x - product
  {
    ModBy(x % B264 - product % B264, B264, product / B264 - x / B264, x - product);
  }

  lemma UpToTwice(x: nat, q: int, r: int)
    requires 0 <= r < M && (r == x - M * q || r == x - M * q - M)
    ensures r == x % M
  {
    ModBy(x, M, if r == x - M * q then q else q + 1, r);
  }

  lemma Reduced(r: seq<int>)
    requires Limbs(r, LIMB) && ScalarValue(r) < M
    ensures IsScalar(r)
  {
    FiveLimbs(r);
  }

  // ----- Addition and multiplication -----

  /** add256_modm */
  method Add(r: array<int>, x: seq<int>, y: seq<int>)
    requires r.Length == 5 && IsScalar(x) && IsScalar(y) && ScalarValue(x) < M && ScalarValue(y) < M
    modifies r
    ensures IsScalar(r[..]) && ScalarValue(r[..]) == (ScalarValue(x) + ScalarValue(y)) % M
  {
    hide ScalarValue, Digit, Over;
    ScalarRange(x);
    ScalarRange(y);
    var c0 := x[0] + y[0];
    var c1 := Over(c0) + x[1] + y[1];
    var c2 := Over(c1) + x[2] + y[2];
    var c3 := Over(c2) + x[3] + y[3];
    var c4 := Over(c3) + x[4] + y[4];
    r[0], r[1], r[2], r[3], r[4] := Digit(c0), Digit(c1), Digit(c2), Digit(c3), c4;
    SumValue(x, y, r[..], c0, c1, c2, c3);
    Reduce(r);
    UpToTwice(ScalarValue(x) + ScalarValue(y), 0, ScalarValue(r[..]));
    Reduced(r[..]);
  }

  function Over(c: nat): nat {
    c / LIMB
  }

  lemma Carries(c: nat)
    ensures c == Digit(c) + LIMB * Over(c)
  {
  }

  lemma SumValue(x: seq<int>, y: seq<int>, r: seq<int>, c0: nat, c1: nat, c2: nat, c3: nat)
    requires IsScalar(x) && IsScalar(y) && |r| == 5
    requires c0 == x[0] + y[0] && c1 == Over(c0) + x[1] + y[1]
    requires c2 == Over(c1) + x[2] + y[2] && c3 == Over(c2) + x[3] + y[3]
    requires r == [Digit(c0), Digit(c1), Digit(c2), Digit(c3), Over(c3) + x[4] + y[4]]
    ensures ScalarValue(r) == ScalarValue(x) + ScalarValue(y) && Limbs(r, LIMB)
  {
    hide ScalarValue, Digit, Over;
    Carries(c0);
    Carries(c1);
    Carries(c2);
    Carries(c3);
    FiveLimbs(x);
    FiveLimbs(y);
    FiveLimbs(r);
  }

  /** The products x[i] * y[j] with i + j == k. */
  function MulColumn(x: seq<int>, y: seq<int>, k: nat): int
    requires |x| == 5 && |y| == 5 && k <= 8
  {
    if k == 0 then x[0] * y[0]
    else if k == 1 then x[0] * y[1] + x[1] * y[0]
    else if k == 2 then x[0] * y[2] + x[2] * y[0] + x[1] * y[1]
    else if k == 3 then x[0] * y[3] + x[3] * y[0] + x[1] * y[2] + x[2] * y[1]
    else if k == 4 then x[0] * y[4] + x[4] * y[0] + x[3] * y[1] + x[1] * y[3] + x[2] * y[2]
    else if k == 5 then x[4] * y[1] + x[1] * y[4] + x[2] * y[3] + x[3] * y[2]
    else if k == 6 then x[4] * y[2] + x[2] * y[4] + x[3] * y[3]
    else if k == 7 then x[4] * y[3] + x[3] * y[4]
    else x[4] * y[4]
  }

  lemma ProductBound(a: int, b: int, m: nat, n: nat)
    requires 0 <= a < m && 0 <= b < n
    ensures 0 <= a * b <= m * n
  {
    Scale(a, b, n);
    Scale(n, a, m);
  }

  lemma LimbProduct(x: seq<int>, y: seq<int>, i: nat, j: nat)
    requires IsScalar(x) && IsScalar(y) && i < 5 && j < 5
    ensures 0 <= x[i] * y[j] <= B112
    ensures i == 4 && j == 4 ==> x[i] * y[j] <= WORD
  {
    ProductBound(x[i], y[j], LIMB, LIMB);
    if i == 4 && j == 4 {
      ProductBound(x[i], y[j], TOP, TOP);
    }
  }

  lemma MulColumnBound(x: seq<int>, y: seq<int>, k: nat)
    requires IsScalar(x) && IsScalar(y) && k <= 8
    ensures 0 <= MulColumn(x, y, k) <= 5 * B112
    ensures k == 8 ==> MulColumn(x, y, k) <= WORD
  {
    forall i, j | 0 <= i < 5 && 0 <= j < 5
      ensures 0 <= x[i] * y[j] <= B112
    {
      LimbProduct(x, y, i, j);
    }
    LimbProduct(x, y, 4, 4);
  }

  lemma Row(a: int, y: seq<int>)
    requires |y| == 5
    ensures a * ScalarValue(y) == a * y[0] + LIMB * (a * y[1]) + B112 * (a * y[2]) + B168 * (a * y[3]) + B224 * (a * y[4])
  {
    FiveLimbs(y);
    hide ScalarValue;
  }

  lemma Rows(x: seq<int>, v: int)
    requires |x| == 5
    ensures ScalarValue(x) * v == x[0] * v + LIMB * (x[1] * v) + B112 * (x[2] * v) + B168 * (x[3] * v) + B224 * (x[4] * v)
  {
    FiveLimbs(x);
    hide ScalarValue;
  }

  lemma MulProduct(x: seq<int>, y: seq<int>)
    requires |x| == 5 && |y| == 5
    ensures ScalarValue(x) * ScalarValue(y)
         == MulColumn(x, y, 0) + LIMB * MulColumn(x, y, 1) + B112 * MulColumn(x, y, 2) + B168 * MulColumn(x, y, 3)
            + B224 * (MulColumn(x, y, 4) + LIMB * (MulColumn(x, y, 5)
            + LIMB * (MulColumn(x, y, 6) + LIMB * (MulColumn(x, y, 7) + LIMB * MulColumn(x, y, 8)))))
  {
    hide ScalarValue;
    Rows(x, ScalarValue(y));
    Row(x[0], y);
    Row(x[1], y);
    Row(x[2], y);
    Row(x[3], y);
    Row(x[4], y);
  }

  /** The upper 32 bits of a limb, and its lower 24 moved above those of the limb before. */
  function Upper32(c: nat): nat {
    Lo(c) / B24 % B32
  }

  function Lower24(c: nat): nat {
    Shl(Lo(c), B32) % LIMB
  }

  lemma Recombine24(c: nat)
    ensures Lower24(c) + LIMB * Upper32(c) == B32 * Digit(c)
    ensures Lower24(c) <= LIMB - B32 && Upper32(c) < B32
    ensures 0 <= Digit(c) - B24 * Upper32(c) < B24
  {
    hide Shl;
    Above24(Lo(c));
    Below24(Lo(c));
    LowLimb(c);
    var l := c % LIMB;
    assert l == B24 * (l / B24) + l % B24;
  }

  lemma Above24(f: nat)
    ensures f / B24 % B32 == f % LIMB / B24
  {
    var h, g := f / LIMB, f % LIMB;
    assert f / B24 == B32 * h + g / B24;
  }

  lemma Below24(f: nat)
    ensures Shl(f, B32) % LIMB == f % LIMB % B24 * B32
  {
    LowLimb(f * B32);
    ModBy(f * B32, LIMB, f / B24, f % B24 * B32);
    Nested24(f);
  }

  lemma Nested24(f: nat)
    ensures f % LIMB % B24 == f % B24
  {
    assert LIMB == B32 * B24;
  }

  lemma Shifted24(c4: nat, c5: nat, c6: nat, c7: nat, c8: nat, f8: nat, q: seq<int>)
    requires |q| == 5
    requires q[0] == Upper32(c4) + Lower24(c5) && q[1] == Upper32(c5) + Lower24(c6)
    requires q[2] == Upper32(c6) + Lower24(c7) && q[3] == Upper32(c7) + Lower24(c8)
    requires q[4] == Upper32(c8) + f8 * B32
    ensures ScalarValue(q) ==
      Upper32(c4) + B32 * (Digit(c5) + LIMB * (Digit(c6) + LIMB * (Digit(c7) + LIMB * (Digit(c8) + LIMB * f8))))
    ensures 0 <= q[0] < LIMB && 0 <= q[1] < LIMB && 0 <= q[2] < LIMB && 0 <= q[3] < LIMB && 0 <= q[4]
  {
    hide Upper32, Lower24, Digit, ScalarValue;
    FiveLimbs(q);
    Recombine24(c4);
    Recombine24(c5);
    Recombine24(c6);
    Recombine24(c7);
    Recombine24(c8);
  }

  /** Where the product is cut: at bit 248 for the quotient's part, at bit 264 for the rest. */
  lemma Cuts(product: int, low: int, c4: nat, rest: int)
    requires 0 <= low < B224 && product == low + B224 * (Digit(c4) + LIMB * rest)
    ensures product / B248 == Upper32(c4) + B32 * rest
    ensures product % B264 == low + B224 * Low40(c4)
  {
    hide Upper32, Upper16, Low40;
    Recombine24(c4);
    var q := Upper32(c4) + B32 * rest;
    var below := low + B224 * (Digit(c4) - B24 * Upper32(c4));
    assert product == below + B248 * q && 0 <= below < B248;
    DivBy(product, B248, q, below);
    SameDigit(c4);
    CutTop(c4);
    ModBy(product, B264, Upper16(c4) + B16 * rest, low + B224 * Low40(c4));
  }

  lemma SameDigit(c: nat)
    ensures LowOf(c) == Digit(c)
  {
    LowLimb(c);
  }

  lemma BelowSum(q: seq<int>)
    requires |q| == 5 && 0 <= q[0] && 0 <= q[1] && 0 <= q[2] && 0 <= q[3] && ScalarValue(q) < B264
    ensures q[4] < B40
  {
    FiveLimbs(q);
  }

  lemma MulRange(x: seq<int>, y: seq<int>)
    requires IsScalar(x) && IsScalar(y)
    ensures 0 <= ScalarValue(x) * ScalarValue(y) < B512
  {
    FiveLimbs(x);
    FiveLimbs(y);
    hide ScalarValue;
    assert 0 <= ScalarValue(x) <= B224 * B32 - 1 && 0 <= ScalarValue(y) <= B224 * B32 - 1;
    ProductBound(ScalarValue(x), ScalarValue(y), B224 * B32 - 1 + 1, B224 * B32 - 1 + 1);
    Scale(ScalarValue(x), ScalarValue(y), B224 * B32 - 1);
    Scale(B224 * B32 - 1, ScalarValue(x), B224 * B32 - 1);
  }

  /** The columns with their carries. */
  predicate MulColumns(x: seq<int>, y: seq<int>, c: seq<nat>)
    requires |x| == 5 && |y| == 5
  {
    && |c| == 9
    && c[0] == MulColumn(x, y, 0) && c[1] == MulColumn(x, y, 1) + Shr(c[0]) && c[2] == MulColumn(x, y, 2) + Shr(c[1])
    && c[3] == MulColumn(x, y, 3) + Shr(c[2]) && c[4] == MulColumn(x, y, 4) + Shr(c[3])
    && c[5] == MulColumn(x, y, 5) + Shr(c[4]) && c[6] == MulColumn(x, y, 6) + Shr(c[5])
    && c[7] == MulColumn(x, y, 7) + Shr(c[6]) && c[8] == MulColumn(x, y, 8) + Shr(c[7])
  }

  lemma MulValue(x: seq<int>, y: seq<int>, q1: seq<int>, r1: seq<int>, c: seq<nat>)
    requires IsScalar(x) && IsScalar(y) && |q1| == 5 && |r1| == 5 && |c| == 9 && MulColumns(x, y, c)
    requires r1[0] == LowOf(c[0]) && r1[1] == LowOf(c[1]) && r1[2] == LowOf(c[2]) && r1[3] == LowOf(c[3])
    requires r1[4] == Low40(c[4])
    requires q1[0] == Upper32(c[4]) + Lower24(c[5]) && q1[1] == Upper32(c[5]) + Lower24(c[6])
    requires q1[2] == Upper32(c[6]) + Lower24(c[7]) && q1[3] == Upper32(c[7]) + Lower24(c[8])
    requires q1[4] == Upper32(c[8]) + Shl(Shr(c[8]), B32)
    ensures Limbs(q1, B40) && Limbs(r1, B40)
    ensures ScalarValue(q1) == ScalarValue(x) * ScalarValue(y) / B248
    ensures ScalarValue(r1) == ScalarValue(x) * ScalarValue(y) % B264
  {
    hide ScalarValue, MulColumn, MulColumns, Shr, Shl, LowOf, Low40, Upper32, Lower24, Digit;
    MulColumnBounds(x, y, c);
    MulDigits(x, y, c);
    LowLimbs(c[0], c[1], c[2], c[3]);
    Cuts(ScalarValue(x) * ScalarValue(y), LowOf(c[0]) + LIMB * LowOf(c[1]) + B112 * LowOf(c[2]) + B168 * LowOf(c[3]), c[4],
         Digit(c[5]) + LIMB * (Digit(c[6]) + LIMB * (Digit(c[7]) + LIMB * (Digit(c[8]) + LIMB * Shr(c[8])))));
    SmallTop32(c[8]);
    Shifted24(c[4], c[5], c[6], c[7], c[8], Shr(c[8]), q1);
    MulRange(x, y);
    BelowCut(ScalarValue(x) * ScalarValue(y));
    BelowSum(q1);
    FiveLimbs(r1);
    CutTop(c[4]);
  }

  lemma BelowCut(product: int)
    requires 0 <= product < B512
    ensures product / B248 < B264
  {
  }

  lemma LowLimbs(c0: nat, c1: nat, c2: nat, c3: nat)
    ensures LowOf(c0) < LIMB && LowOf(c1) < LIMB && LowOf(c2) < LIMB && LowOf(c3) < LIMB
    ensures 0 <= LowOf(c0) + LIMB * LowOf(c1) + B112 * LowOf(c2) + B168 * LowOf(c3) < B224
  {
    assert LowOf(c0) < LIMB && LowOf(c1) < LIMB && LowOf(c2) < LIMB && LowOf(c3) < LIMB;
    hide LowOf;
  }

  lemma SmallTop32(c: nat)
    requires c <= 2 * WORD
    ensures Shl(Shr(c), B32) == Shr(c) * B32
  {
  }

  lemma MulColumnBounds(x: seq<int>, y: seq<int>, c: seq<nat>)
    requires IsScalar(x) && IsScalar(y) && MulColumns(x, y, c)
    ensures forall k :: 0 <= k <= 8 ==> c[k] == LowOf(c[k]) + LIMB * Shr(c[k]) && LowOf(c[k]) == Digit(c[k])
    ensures c[8] <= 2 * WORD
  {
    hide MulColumn, Shr, LowOf, Digit;
    forall k | 0 <= k <= 8
      ensures 0 <= MulColumn(x, y, k) <= 5 * B112 && (k == 8 ==> MulColumn(x, y, k) <= WORD)
    {
      MulColumnBound(x, y, k);
    }
    forall k | 0 <= k <= 8
      ensures Shr(c[k]) < WORD
    {
      ShrBound(c[k]);
    }
    forall k | 0 <= k <= 8
      ensures c[k] == LowOf(c[k]) + LIMB * Shr(c[k]) && LowOf(c[k]) == Digit(c[k])
    {
      CutLow(c[k]);
      SameDigit(c[k]);
    }
  }

  lemma ShrBound(c: nat)
    ensures Shr(c) < WORD
  {
  }

  lemma MulDigits(x: seq<int>, y: seq<int>, c: seq<nat>)
    requires |x| == 5 && |y| == 5 && MulColumns(x, y, c)
    requires forall k :: 0 <= k <= 8 ==> c[k] == LowOf(c[k]) + LIMB * Shr(c[k]) && LowOf(c[k]) == Digit(c[k])
    ensures ScalarValue(x) * ScalarValue(y)
         == LowOf(c[0]) + LIMB * LowOf(c[1]) + B112 * LowOf(c[2]) + B168 * LowOf(c[3])
            + B224 * (Digit(c[4]) + LIMB * (Digit(c[5])
            + LIMB * (Digit(c[6]) + LIMB * (Digit(c[7]) + LIMB * (Digit(c[8]) + LIMB * Shr(c[8]))))))
  {
    hide MulColumn, Shr, LowOf, Digit, ScalarValue;
    MulProduct(x, y);
  }

  /** mul256_modm */
  method Mul(r: array<int>, x: seq<int>, y: seq<int>)
    requires r.Length == 5 && IsScalar(x) && IsScalar(y)
    modifies r
    ensures IsScalar(r[..]) && ScalarValue(r[..]) == ScalarValue(x) * ScalarValue(y) % M
  {
    hide ScalarValue, MulColumn, Shr, Shl, LowOf, Low40, Upper32, Lower24;
    forall k | 0 <= k <= 8
      ensures 0 <= MulColumn(x, y, k)
    {
      MulColumnBound(x, y, k);
    }
    var c0: nat := MulColumn(x, y, 0);
    var c1: nat := MulColumn(x, y, 1) + Shr(c0);
    var c2: nat := MulColumn(x, y, 2) + Shr(c1);
    var c3: nat := MulColumn(x, y, 3) + Shr(c2);
    var c4: nat := MulColumn(x, y, 4) + Shr(c3);
    var c5: nat := MulColumn(x, y, 5) + Shr(c4);
    var c6: nat := MulColumn(x, y, 6) + Shr(c5);
    var c7: nat := MulColumn(x, y, 7) + Shr(c6);
    var c8: nat := MulColumn(x, y, 8) + Shr(c7);
    var r1 := new int[5];
    r1[0], r1[1], r1[2], r1[3], r1[4] := LowOf(c0), LowOf(c1), LowOf(c2), LowOf(c3), Low40(c4);
    var q1 := [
      Upper32(c4) + Lower24(c5), Upper32(c5) + Lower24(c6), Upper32(c6) + Lower24(c7), Upper32(c7) + Lower24(c8),
      Upper32(c8) + Shl(Shr(c8), B32)
    ];
    MulValue(x, y, q1, r1[..], [c0, c1, c2, c3, c4, c5, c6, c7, c8]);
    MulRange(x, y);
    Barrett(r, q1, r1, ScalarValue(x) * ScalarValue(y));
  }
}
