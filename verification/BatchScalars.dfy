/**
  The limb helpers of batch verification. They look only at the limbs up to
  `limbs`, so their answers are about values only when nothing is set above.
 */
module BatchScalars {
  import opened Digits
  import opened Scalars

  const WORD: nat := 0x1_0000_0000_0000_0000
  const SIGN: nat := 0x8000_0000_0000_0000

  /** A difference as it comes out of 64-bit unsigned subtraction. */
  function Wrap(x: int): nat {
    x % WORD
  }

  predicate ZeroAbove(a: seq<int>, limbs: nat) {
    forall i :: limbs < i < |a| ==> a[i] == 0
  }

  lemma Borrow(d: int)
    requires 0 <= d + LIMB && d < LIMB
    ensures Wrap(d) / SIGN == if d < 0 then 1 else 0
    ensures Wrap(d) % LIMB == if d < 0 then d + LIMB else d
  {
    if d < 0 {
      assert Wrap(d) == d + WORD;
      assert d + WORD == (d + LIMB) + 255 * LIMB;
    } else {
      assert Wrap(d) == d;
    }
  }

  lemma Prefix(a: seq<int>, i: nat)
    requires IsScalar(a) && i < 5
    ensures 0 <= Value(a[..i], LIMB) < Pow(LIMB, i)
    ensures Value(a[..i + 1], LIMB) == Value(a[..i], LIMB) + a[i] * Pow(LIMB, i)
  {
    ValueOfDigits(a[..i], LIMB);
    ValueOfTop(a, i, LIMB);
  }

  lemma {:induction false} WholePrefix(a: seq<int>, limbs: nat)
    requires |a| == 5 && limbs <= 4 && ZeroAbove(a, limbs)
    ensures Value(a[..limbs + 1], LIMB) == ScalarValue(a)
  {
    ValueSplit(a, limbs + 1, LIMB);
    ValueOfZeros(a[limbs + 1..], LIMB);
  }

  lemma CompareStep(x: int, y: int, p: int, a: int, b: int, borrow: int)
    requires 0 <= x < p && 0 <= y < p && borrow == (if x < y then 1 else 0)
    ensures (x + a * p < y + b * p) == (a - b - borrow < 0)
  {
    assert (a - b) * p == a * p - b * p;
    if a - b >= 1 {
      assert (a - b - 1) * p >= 0;
      assert (a - b - 1) * p == (a - b) * p - p;
    } else if a - b <= -1 {
      assert (b - a - 1) * p >= 0;
      assert (b - a - 1) * p == -((a - b) * p) - p;
    }
  }

  /** lt256_modm_batch; lte256_modm_batch is its answer with the arguments exchanged, negated. */
  method Less(a: seq<int>, b: seq<int>, limbs: nat) returns (less: bool)
    requires IsScalar(a) && IsScalar(b) && limbs <= 4
    requires ZeroAbove(a, limbs) && ZeroAbove(b, limbs)
    ensures less == (ScalarValue(a) < ScalarValue(b))
  {
    hide Value, Pow, Wrap, ScalarValue;
    var borrow := 0;
    NoDigits(a, b);
    for i := 0 to limbs + 1
      invariant borrow == if Value(a[..i], LIMB) < Value(b[..i], LIMB) then 1 else 0
    {
      Prefix(a, i);
      Prefix(b, i);
      CompareStep(Value(a[..i], LIMB), Value(b[..i], LIMB), Pow(LIMB, i), a[i], b[i], borrow);
      Borrow(a[i] - b[i] - borrow);
      var t := Wrap(a[i] - b[i] - borrow);
      borrow := t / SIGN;
    }
    WholePrefix(a, limbs);
    WholePrefix(b, limbs);
    less := borrow == 1;
  }

  method AtMost(a: seq<int>, b: seq<int>, limbs: nat) returns (atMost: bool)
    requires IsScalar(a) && IsScalar(b) && limbs <= 4
    requires ZeroAbove(a, limbs) && ZeroAbove(b, limbs)
    ensures atMost == (ScalarValue(a) <= ScalarValue(b))
  {
    hide Value, ScalarValue;
    var less := Less(b, a, limbs);
    atMost := !less;
  }

  lemma NoDigits(a: seq<int>, b: seq<int>)
    ensures Value(a[..0], LIMB) == 0 == Value(b[..0], LIMB) && Pow(LIMB, 0) == 1
  {
  }

  lemma SubtractSum(x: int, y: int, z: int, p: int, a: int, b: int, borrow: int, d: int, next: int)
    requires z == x - y + borrow * p && d == a - b - borrow + next * LIMB
    ensures z + d * p == (x + a * p) - (y + b * p) + next * (LIMB * p)
  {
    assert d * p == a * p - b * p - borrow * p + next * LIMB * p;
  }

  /** sub256_modm_batch, in place on a. */
  method Subtract(a: seq<int>, b: seq<int>, limbs: nat) returns (out: seq<int>)
    requires IsScalar(a) && IsScalar(b) && limbs <= 4
    requires ZeroAbove(a, limbs) && ZeroAbove(b, limbs) && ScalarValue(b) <= ScalarValue(a)
    ensures IsScalar(out) && ZeroAbove(out, limbs)
    ensures ScalarValue(out) == ScalarValue(a) - ScalarValue(b)
  {
    hide Value, Pow, Wrap, ScalarValue;
    out := a;
    var borrow := 0;
    NoDigits(a, b);
    NoDigits(out, b);
    for i := 0 to limbs
      invariant |out| == 5 && 0 <= borrow <= 1
      invariant borrow == if Value(a[..i], LIMB) < Value(b[..i], LIMB) then 1 else 0
      invariant forall k :: 0 <= k < i ==> 0 <= out[k] < LIMB
      invariant forall k :: i <= k < 5 ==> out[k] == a[k]
      invariant Value(out[..i], LIMB) == Value(a[..i], LIMB) - Value(b[..i], LIMB) + borrow * Pow(LIMB, i)
    {
      ghost var before, was := out, borrow;
      SubtractLimb(a, b, i, borrow);
      var t := Wrap(a[i] - b[i] - borrow);
      borrow := t / SIGN;
      out := out[i := t % LIMB];
      SubtractNext(a, b, before, out, i, was, borrow);
    }
    ghost var before := out;
    SubtractLimb(a, b, limbs, borrow);
    WholePrefix(a, limbs);
    WholePrefix(b, limbs);
    WrapOfNat(a[limbs] - b[limbs] - borrow);
    out := out[limbs := Wrap(a[limbs] - b[limbs] - borrow)];
    SubtractNext(a, b, before, out, limbs, borrow, 0);
    WholePrefix(out, limbs);
  }

  lemma WrapOfNat(d: int)
    requires 0 <= d < LIMB
    ensures Wrap(d) == d
  {
  }

  lemma SubtractLimb(a: seq<int>, b: seq<int>, i: nat, borrow: int)
    requires IsScalar(a) && IsScalar(b) && i < 5
    requires borrow == if Value(a[..i], LIMB) < Value(b[..i], LIMB) then 1 else 0
    ensures
      var d := a[i] - b[i] - borrow;
      && 0 <= d + LIMB && d < LIMB && (d < 0) == (Value(a[..i + 1], LIMB) < Value(b[..i + 1], LIMB))
      && Wrap(d) / SIGN == (if d < 0 then 1 else 0)
      && Wrap(d) % LIMB == (if d < 0 then d + LIMB else d)
  {
    hide Wrap, Value, Pow;
    Prefix(a, i);
    Prefix(b, i);
    CompareStep(Value(a[..i], LIMB), Value(b[..i], LIMB), Pow(LIMB, i), a[i], b[i], borrow);
    Borrow(a[i] - b[i] - borrow);
  }

  lemma SubtractNext(a: seq<int>, b: seq<int>, before: seq<int>, out: seq<int>, i: nat, borrow: int, next: int)
    requires IsScalar(a) && IsScalar(b) && i < 5 && |before| == 5
    requires Value(before[..i], LIMB) == Value(a[..i], LIMB) - Value(b[..i], LIMB) + borrow * Pow(LIMB, i)
    requires out == before[i := a[i] - b[i] - borrow + next * LIMB]
    ensures Value(out[..i + 1], LIMB)
         == Value(a[..i + 1], LIMB) - Value(b[..i + 1], LIMB) + next * Pow(LIMB, i + 1)
  {
    hide Value;
    assert Pow(LIMB, i + 1) == LIMB * Pow(LIMB, i);
    hide Pow;
    Prefix(a, i);
    Prefix(b, i);
    assert out[..i] == before[..i];
    ValueOfTop(out, i, LIMB);
    SubtractSum(Value(a[..i], LIMB), Value(b[..i], LIMB), Value(before[..i], LIMB), Pow(LIMB, i),
                a[i], b[i], borrow, out[i], next);
  }

  /** iszero256_modm_batch */
  method IsZero(a: seq<int>) returns (zero: bool)
    requires IsScalar(a)
    ensures zero == (ScalarValue(a) == 0)
  {
    hide Value, ScalarValue;
    for i := 0 to 5
      invariant forall k :: 0 <= k < i ==> a[k] == 0
    {
      if a[i] != 0 {
        LargeLimb(a, i);
        return false;
      }
    }
    AllZero(a);
    return true;
  }

  lemma AllZero(a: seq<int>)
    requires IsScalar(a) && forall k :: 0 <= k < 5 ==> a[k] == 0
    ensures ScalarValue(a) == 0
  {
    ValueOfZeros(a, LIMB);
  }

  /** A set limb makes the value at least that power. */
  lemma LargeLimb(a: seq<int>, i: nat)
    requires IsScalar(a) && i < 5 && a[i] != 0
    ensures ScalarValue(a) >= a[i] * Pow(LIMB, i) >= Pow(LIMB, i) > 0
  {
    hide Value, Pow;
    Prefix(a, i);
    ValueSplit(a, i + 1, LIMB);
    ValueOfDigits(a[i + 1..], LIMB);
    PowPositive(LIMB, i);
    PowPositive(LIMB, i + 1);
    Scale(Pow(LIMB, i + 1), 0, Value(a[i + 1..], LIMB));
    Scale(Pow(LIMB, i), 1, a[i]);
  }

  /** With the limb at `limbs` clear as well, the value is below that power. */
  lemma SmallerLimb(a: seq<int>, limbs: nat)
    requires IsScalar(a) && limbs <= 4 && ZeroAbove(a, limbs)
    ensures a[limbs] == 0 <==> ScalarValue(a) < Pow(LIMB, limbs)
  {
    hide Value, Pow;
    if a[limbs] == 0 {
      WholePrefix(a, limbs);
      Prefix(a, limbs);
    } else {
      LargeLimb(a, limbs);
    }
  }

  /** isatmost128bits256_modm_batch: the test is on the bits of limb 2 from bit 16 on and the limbs above it. */
  method AtMost128Bits(a: seq<int>) returns (small: bool)
    requires IsScalar(a)
    ensures small == (ScalarValue(a) < Pow(2, 128))
  {
    hide Value, Pow, ScalarValue;
    small := a[4] == 0 && a[3] == 0 && a[2] / 0x1_0000 == 0;
    Within128Bits(a);
  }

  lemma LimbPowers()
    ensures Pow(LIMB, 0) == 1 && Pow(LIMB, 1) == LIMB && Pow(LIMB, 2) == Pow(2, 112)
    ensures Pow(LIMB, 3) == Pow(2, 168)
    ensures Pow(2, 128) == 0x1_0000 * Pow(2, 112) && Pow(2, 127) == 0x8000 * Pow(2, 112)
    ensures Pow(2, 112) > 0 && Pow(2, 128) == 2 * Pow(2, 127)
  {
    assert Pow(LIMB, 0) == 1 && Pow(LIMB, 1) == LIMB && Pow(2, 128) == 2 * Pow(2, 127);
    Powers();
    WidePowers();
    hide Pow;
    PowPow(2, 56, 2);
    PowPow(2, 56, 3);
    PowSum(2, 8, 8);
    PowSum(2, 8, 7);
    PowSum(2, 16, 112);
    PowSum(2, 15, 112);
    PowPositive(2, 112);
  }

  lemma Within128Bits(a: seq<int>)
    requires IsScalar(a)
    ensures (a[4] == 0 && a[3] == 0 && a[2] / 0x1_0000 == 0) <==> ScalarValue(a) < Pow(2, 128)
  {
    hide Value, Pow;
    LimbPowers();
    if a[4] == 0 && a[3] == 0 {
      WholePrefix(a, 2);
      Prefix(a, 2);
      HighPart(a[2], Value(a[..2], LIMB), Pow(LIMB, 2));
    } else {
      var i := if a[4] != 0 then 4 else 3;
      LargeLimb(a, i);
      Beyond128(i);
    }
  }

  lemma HighPart(x: int, low: int, p: int)
    requires 0 <= x && 0 <= low < p
    ensures x / 0x1_0000 == 0 <==> low + x * p < 0x1_0000 * p
  {
    Product(p, x);
    if x < 0x1_0000 {
      Scale(p, x, 0xffff);
    } else {
      Scale(p, 0x1_0000, x);
    }
  }

  lemma Beyond128(i: nat)
    requires i == 3 || i == 4
    ensures Pow(LIMB, i) >= Pow(2, 128)
  {
    hide Pow;
    WidePowers();
    PowPow(2, 56, i);
    PowSum(2, 128, 56 * i - 128);
    PowPositive(2, 56 * i - 128);
    Scale(Pow(2, 128), 1, Pow(2, 56 * i - 128));
  }

  /** A scalar below 2^128 has nothing above its limb 2. */
  lemma ShortScalar(a: seq<int>, limbs: nat)
    requires IsScalar(a) && ScalarValue(a) < Pow(2, 128) && limbs >= 2
    ensures ZeroAbove(a, limbs)
  {
    Within128Bits(a);
  }
}
