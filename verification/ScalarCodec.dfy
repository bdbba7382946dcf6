/** Scalars to and from little-endian bytes. */
module ScalarCodec {
  import opened BatchScalars
  import opened Digits
  import opened ModM
  import opened Scalars

  const W128: nat := WORD * WORD
  const W192: nat := WORD * W128
  const W256: nat := WORD * W192

  predicate Bytes(s: seq<int>) {
    Between(s, 0, 255)
  }

  /** U8TO64_LE */
  function Load(s: seq<int>, at: nat): (x: nat)
    requires Bytes(s) && at + 8 <= |s|
    ensures x < WORD
  {
    ValueOfDigits(s[at..at + 8], 256);
    EightBytes();
    Value(s[at..at + 8], 256)
  }

  lemma EightBytes()
    ensures Pow(256, 8) == WORD
  {
    Powers();
    WidePowers();
    hide Pow;
    PowPow(2, 8, 8);
  }

  lemma {:induction false} UniqueDigits(a: seq<int>, b: seq<int>, base: nat)
    requires base > 0 && |a| == |b| && Between(a, 0, base - 1) && Between(b, 0, base - 1)
    requires Value(a, base) == Value(b, base)
    ensures a == b
  {
    if a != [] {
      ModBy(Value(a, base), base, Value(a[1..], base), a[0]);
      ModBy(Value(b, base), base, Value(b[1..], base), b[0]);
      DivBy(Value(a, base), base, Value(a[1..], base), a[0]);
      DivBy(Value(b, base), base, Value(b[1..], base), b[0]);
      UniqueDigits(a[1..], b[1..], base);
      assert a == [a[0]] + a[1..] && b == [b[0]] + b[1..];
    }
  }

  lemma SameScalar(a: seq<int>, b: seq<int>)
    requires IsScalar(a) && IsScalar(b) && ScalarValue(a) == ScalarValue(b)
    ensures a == b
  {
    UniqueDigits(a, b, LIMB);
  }

  // ----- Bytes to words -----

  lemma FirstWord(s: seq<int>)
    requires Bytes(s) && |s| >= 8
    ensures Value(s, 256) == Load(s, 0) + WORD * Value(s[8..], 256)
  {
    EightBytes();
    ValueSplit(s, 8, 256);
  }

  lemma LaterWord(s: seq<int>, at: nat)
    requires Bytes(s) && at + 8 <= |s|
    ensures Load(s[at..], 0) == Load(s, at)
  {
    assert s[at..][0..8] == s[at..at + 8];
  }

  lemma FourWords(s: seq<int>)
    requires Bytes(s) && |s| >= 32
    ensures Value(s, 256) == Load(s, 0) + WORD * Load(s, 8) + W128 * Load(s, 16) + W192 * Load(s, 24)
                             + W256 * Value(s[32..], 256)
  {
    hide Value, Load;
    FirstWord(s);
    FirstWord(s[8..]);
    FirstWord(s[16..]);
    FirstWord(s[24..]);
    assert s[8..][8..] == s[16..] && s[16..][8..] == s[24..] && s[24..][8..] == s[32..];
    LaterWord(s, 8);
    LaterWord(s, 16);
    LaterWord(s, 24);
  }

  // ----- Words to limbs -----

  /** Limbs that take the top of one word and the bottom of the next. */
  lemma Join56(a: nat, b: nat)
    requires a < WORD && b < WORD
    ensures (a / LIMB + Shl(b, B8)) % LIMB == a / LIMB + b % B48 * B8
    ensures b % B48 <= B48 - 1 && a / LIMB < B8
  {
    ModBy(b * B8, WORD, b / LIMB, b % LIMB * B8);
    Nest(b, LIMB, B48, B8);
    ModBy(a / LIMB + b % LIMB * B8, LIMB, b % LIMB / B48, a / LIMB + b % B48 * B8);
  }

  lemma Join48(a: nat, b: nat)
    requires a < WORD && b < WORD
    ensures (a / B48 + Shl(b, B16)) % LIMB == a / B48 + b % B40 * B16
    ensures b % B40 <= B40 - 1 && a / B48 < B16
  {
    ModBy(b * B16, WORD, b / B48, b % B48 * B16);
    Nest(b, B48, B40, B8);
    ModBy(a / B48 + b % B48 * B16, LIMB, b % B48 / B40, a / B48 + b % B40 * B16);
  }

  lemma Join40(a: nat, b: nat)
    requires a < WORD && b < WORD
    ensures (a / B40 + Shl(b, B24)) % LIMB == a / B40 + b % B32 * B24
    ensures b % B32 <= B32 - 1 && a / B40 < B24
  {
    ModBy(b * B24, WORD, b / B40, b % B40 * B24);
    Nest(b, B40, B32, B8);
    ModBy(a / B40 + b % B40 * B24, LIMB, b % B40 / B32, a / B40 + b % B32 * B24);
  }

  lemma Join32(a: nat, b: nat)
    requires a < WORD && b < WORD
    ensures (a / B32 + Shl(b, B32)) % LIMB == a / B32 + b % B24 * B32
    ensures (a / B32 + Shl(b, B32)) % B40 == a / B32 + b % B8 * B32
    ensures b % B24 <= B24 - 1 && a / B32 < B32 && b % B8 <= B8 - 1
  {
    ModBy(b * B32, WORD, b / B32, b % B32 * B32);
    Nest(b, B32, B24, B8);
    Nest(b, B32, B8, B24);
    ModBy(a / B32 + b % B32 * B32, LIMB, b % B32 / B24, a / B32 + b % B24 * B32);
    ModBy(a / B32 + b % B32 * B32, B40, b % B32 / B8, a / B32 + b % B8 * B32);
  }

  lemma Nest(x: nat, m: nat, n: nat, k: nat)
    requires n > 0 && k > 0 && m == n * k
    ensures x % m % n == x % n
    ensures x % m == x % n + n * (x % m / n)
  {
    var q, r := x / m, x % m;
    assert x == m * q + r == n * (k * q) + r;
    assert r == n * (r / n) + r % n;
    Distribute(n, k * q, r / n);
    ModBy(x, n, k * q + r / n, r % n);
  }

  /** The five limbs the code takes from the low 264 bits of its words. */
  function LowLimbsOf(x0: nat, x1: nat, x2: nat, x3: nat, x4: nat): seq<int> {
    [x0 % LIMB, (x0 / LIMB + Shl(x1, B8)) % LIMB, (x1 / B48 + Shl(x2, B16)) % LIMB,
     (x2 / B40 + Shl(x3, B24)) % LIMB, (x3 / B32 + Shl(x4, B32)) % B40]
  }

  lemma LowLimbsValue(x0: nat, x1: nat, x2: nat, x3: nat, x4: nat)
    requires x0 < WORD && x1 < WORD && x2 < WORD && x3 < WORD && x4 < WORD
    ensures Limbs(LowLimbsOf(x0, x1, x2, x3, x4), B40)
    ensures ScalarValue(LowLimbsOf(x0, x1, x2, x3, x4)) == x0 + WORD * x1 + W128 * x2 + W192 * x3 + W256 * (x4 % B8)
  {
    hide Shl, ScalarValue;
    Join56(x0, x1);
    Join48(x1, x2);
    Join40(x2, x3);
    Join32(x3, x4);
    FiveLimbs(LowLimbsOf(x0, x1, x2, x3, x4));
    LowSum(x0, x1, x2, x3, x4);
  }

  lemma LowSum(x0: nat, x1: nat, x2: nat, x3: nat, x4: nat)
    ensures x0 % LIMB + LIMB * (x0 / LIMB + x1 % B48 * B8) + B112 * (x1 / B48 + x2 % B40 * B16)
            + B168 * (x2 / B40 + x3 % B32 * B24) + B224 * (x3 / B32 + x4 % B8 * B32)
         == x0 + WORD * x1 + W128 * x2 + W192 * x3 + W256 * (x4 % B8)
  {
  }

  /** The five limbs the code takes from bit 248 on. */
  function HighLimbsOf(x3: nat, x4: nat, x5: nat, x6: nat, x7: nat): seq<int> {
    [(x3 / LIMB + Shl(x4, B8)) % LIMB, (x4 / B48 + Shl(x5, B16)) % LIMB, (x5 / B40 + Shl(x6, B24)) % LIMB,
     (x6 / B32 + Shl(x7, B32)) % LIMB, x7 / B24]
  }

  lemma HighLimbsValue(x3: nat, x4: nat, x5: nat, x6: nat, x7: nat)
    requires x3 < WORD && x4 < WORD && x5 < WORD && x6 < WORD && x7 < WORD
    ensures Limbs(HighLimbsOf(x3, x4, x5, x6, x7), B40)
    ensures ScalarValue(HighLimbsOf(x3, x4, x5, x6, x7)) == x3 / LIMB + B8 * (x4 + WORD * x5 + W128 * x6 + W192 * x7)
  {
    hide Shl, ScalarValue;
    Join56(x3, x4);
    Join48(x4, x5);
    Join40(x5, x6);
    Join32(x6, x7);
    FiveLimbs(HighLimbsOf(x3, x4, x5, x6, x7));
    HighSum(x3, x4, x5, x6, x7);
  }

  lemma HighSum(x3: nat, x4: nat, x5: nat, x6: nat, x7: nat)
    ensures x3 / LIMB + x4 % B48 * B8 + LIMB * (x4 / B48 + x5 % B40 * B16) + B112 * (x5 / B40 + x6 % B32 * B24)
            + B168 * (x6 / B32 + x7 % B24 * B32) + B224 * (x7 / B24)
         == x3 / LIMB + B8 * (x4 + WORD * x5 + W128 * x6 + W192 * x7)
  {
  }

  /** Both parts of a 512-bit value. */
  lemma Parts(v: nat, low: nat, x3: nat, x4: nat, high: nat)
    requires v == low + W192 * x3 + W256 * (x4 + WORD * high) && low < W192 && x3 < WORD && x4 < WORD
    ensures v % B264 == low + W192 * x3 + W256 * (x4 % B8)
    ensures v / B248 == x3 / LIMB + B8 * (x4 + WORD * high)
  {
    ModBy(v, B264, x4 / B8 + LIMB * high, low + W192 * x3 + W256 * (x4 % B8));
    DivBy(v, B248, x3 / LIMB + B8 * (x4 + WORD * high), low + W192 * (x3 % LIMB));
  }

  function Padded(input: seq<int>): seq<int>
    requires |input| <= 64
  {
    input + seq(64 - |input|, _ => 0)
  }

  lemma PaddedValue(input: seq<int>)
    requires |input| <= 64 && Bytes(input)
    ensures Bytes(Padded(input)) && Value(Padded(input), 256) == Value(input, 256)
  {
    var zeros := seq(64 - |input|, _ => 0);
    ValueOfZeros(zeros, 256);
    ValueOfJoin(input, zeros, 256);
  }

  lemma WideValue(s: seq<int>)
    requires Bytes(s) && |s| == 64
    ensures Value(s, 256)
         == Load(s, 0) + WORD * Load(s, 8) + W128 * Load(s, 16) + W192 * Load(s, 24)
            + W256 * (Load(s, 32) + WORD * Load(s, 40) + W128 * Load(s, 48) + W192 * Load(s, 56))
  {
    hide Value, Load;
    FourWords(s);
    FourWords(s[32..]);
    assert s[32..][8..] == s[40..] && s[32..][16..] == s[48..] && s[32..][24..] == s[56..];
    Shifted(s, 0);
    Shifted(s, 8);
    Shifted(s, 16);
    Shifted(s, 24);
    NothingLeft(s[32..][32..]);
  }

  lemma Shifted(s: seq<int>, at: nat)
    requires Bytes(s) && |s| == 64 && at <= 24
    ensures Load(s[32..], at) == Load(s, 32 + at)
  {
    assert s[32..][at..at + 8] == s[32 + at..32 + at + 8];
  }

  lemma NothingLeft(s: seq<int>)
    requires s == []
    ensures Value(s, 256) == 0
  {
  }

  lemma ShortValue(input: seq<int>)
    requires Bytes(input) && |input| < 32
    ensures 0 <= Value(input, 256) < B248
  {
    Powers();
    ValueOfDigits(input, 256);
    hide Value, Pow;
    ManyBytes(|input|);
  }

  lemma ManyBytes(n: nat)
    requires n < 32
    ensures Pow(256, n) <= B248
  {
    hide Pow;
    PowSum(256, n, 31 - n);
    PowPositive(256, 31 - n);
    Scale(Pow(256, n), 1, Pow(256, 31 - n));
    EightBytes();
    PowSum(256, 8, 8);
    PowSum(256, 16, 16);
    TopByte();
  }

  lemma TopByte()
    ensures Pow(256, 32) == 256 * Pow(256, 31)
  {
  }

  lemma WideRange(s: seq<int>)
    requires Bytes(s) && |s| == 64
    ensures 0 <= Value(s, 256) < B512
  {
    hide Value, Load;
    WideValue(s);
  }

  /** expand256_modm: reduced little-endian value of up to 64 bytes. */
  method Expand(out: array<int>, input: seq<int>)
    requires out.Length == 5 && |input| <= 64 && Bytes(input)
    modifies out
    ensures IsScalar(out[..]) && ScalarValue(out[..]) == Value(input, 256) % M
  {
    hide Value, Load, ScalarValue, LowLimbsOf, HighLimbsOf, Shl;
    var work := Padded(input);
    PaddedValue(input);
    var x0, x1, x2, x3 := Load(work, 0), Load(work, 8), Load(work, 16), Load(work, 24);
    var x4, x5, x6, x7 := Load(work, 32), Load(work, 40), Load(work, 48), Load(work, 56);
    ghost var v := Value(input, 256);
    WideValue(work);
    WideRange(work);
    LowLimbsValue(x0, x1, x2, x3, x4);
    Parts(v, x0 + WORD * x1 + W128 * x2, x3, x4, x5 + WORD * x6 + W128 * x7);
    var low := LowLimbsOf(x0, x1, x2, x3, x4);
    out[0], out[1], out[2], out[3], out[4] := low[0], low[1], low[2], low[3], low[4];
    assert out[..] == low;
    if |input| < 32 {
      ShortValue(input);
      Unreduced(v, low);
      return;
    }
    HighLimbsValue(x3, x4, x5, x6, x7);
    Barrett(out, HighLimbsOf(x3, x4, x5, x6, x7), out, v);
  }

  lemma Unreduced(v: nat, low: seq<int>)
    requires v < B248 && Limbs(low, B40) && ScalarValue(low) == v % B264
    ensures IsScalar(low) && ScalarValue(low) == v % M
  {
    hide ScalarValue;
    Constants();
    ModBy(v, B264, 0, v);
    ModBy(v, M, 0, v);
    Reduced(low);
  }

  /** expand_raw256_modm: 32 bytes, not reduced. */
  method ExpandRaw(input: seq<int>) returns (out: seq<int>)
    requires |input| == 32 && Bytes(input)
    ensures IsScalar(out) && ScalarValue(out) == Value(input, 256)
  {
    hide Value, Load, ScalarValue, LowLimbsOf;
    var x0, x1, x2, x3 := Load(input, 0), Load(input, 8), Load(input, 16), Load(input, 24);
    out := [x0 % LIMB, (x0 / LIMB + Shl(x1, B8)) % LIMB, (x1 / B48 + Shl(x2, B16)) % LIMB,
            (x2 / B40 + Shl(x3, B24)) % LIMB, x3 / B32 % B32];
    RawLimbs(x0, x1, x2, x3, out);
    FourWords(input);
    NothingLeft(input[32..]);
  }

  lemma RawLimbs(x0: nat, x1: nat, x2: nat, x3: nat, out: seq<int>)
    requires x0 < WORD && x1 < WORD && x2 < WORD && x3 < WORD
    requires out == [x0 % LIMB, (x0 / LIMB + Shl(x1, B8)) % LIMB, (x1 / B48 + Shl(x2, B16)) % LIMB,
                     (x2 / B40 + Shl(x3, B24)) % LIMB, x3 / B32 % B32]
    ensures IsScalar(out) && ScalarValue(out) == x0 + WORD * x1 + W128 * x2 + W192 * x3
  {
    hide ScalarValue;
    LowLimbsValue(x0, x1, x2, x3, 0);
    Join32(x3, 0);
    assert out == LowLimbsOf(x0, x1, x2, x3, 0);
  }

  // ----- Limbs to bytes -----

  /** U64TO8_LE */
  function Store(w: nat): seq<int> {
    DigitsOf(w, 256, 8)
  }

  lemma StoreValue(w: nat)
    requires w < WORD
    ensures |Store(w)| == 8 && Bytes(Store(w)) && Value(Store(w), 256) == w
  {
    EightBytes();
    DigitsOfValue(w, 256, 8);
  }

  lemma Store4(w0: nat, w1: nat, w2: nat, w3: nat)
    requires w0 < WORD && w1 < WORD && w2 < WORD && w3 < WORD
    ensures
      var s := Store(w0) + Store(w1) + Store(w2) + Store(w3);
      |s| == 32 && Bytes(s) && Value(s, 256) == w0 + WORD * w1 + W128 * w2 + W192 * w3
  {
    hide Store, Value, Pow;
    StoreValue(w0);
    StoreValue(w1);
    StoreValue(w2);
    StoreValue(w3);
    EightBytes();
    PowSum(256, 8, 8);
    PowSum(256, 16, 8);
    ValueOfJoin(Store(w0), Store(w1), 256);
    ValueOfJoin(Store(w0) + Store(w1), Store(w2), 256);
    ValueOfJoin(Store(w0) + Store(w1) + Store(w2), Store(w3), 256);
  }

  lemma Split(a: nat, b: nat)
    requires a < LIMB && b < LIMB
    ensures Shl(b, LIMB) == b % B8 * LIMB && Shl(b, B48) == b % B16 * B48 && Shl(b, B40) == b % B24 * B40
    ensures b < B32 ==> Shl(b, B32) == b * B32
  {
    ModBy(b * LIMB, WORD, b / B8, b % B8 * LIMB);
    ModBy(b * B48, WORD, b / B16, b % B16 * B48);
    ModBy(b * B40, WORD, b / B24, b % B24 * B40);
    if b < B32 {
      ModBy(b * B32, WORD, 0, b * B32);
    }
  }

  lemma WordsOf(s: seq<int>, w0: nat, w1: nat, w2: nat, w3: nat)
    requires IsScalar(s)
    requires w0 == s[0] + Shl(s[1], LIMB) && w1 == s[1] / B8 + Shl(s[2], B48)
    requires w2 == s[2] / B16 + Shl(s[3], B40) && w3 == s[3] / B24 + Shl(s[4], B32)
    ensures w0 < WORD && w1 < WORD && w2 < WORD && w3 < WORD
    ensures ScalarValue(s) == w0 + WORD * w1 + W128 * w2 + W192 * w3
  {
    hide Shl, ScalarValue;
    FiveLimbs(s);
    Split(s[0], s[1]);
    Split(s[1], s[2]);
    Split(s[2], s[3]);
    Split(s[3], s[4]);
  }

  /** contract256_modm */
  method Contract(s: seq<int>) returns (out: seq<int>)
    requires IsScalar(s)
    ensures |out| == 32 && Bytes(out) && Value(out, 256) == ScalarValue(s)
  {
    hide Shl, ScalarValue, Store, Value;
    var w0 := s[0] + Shl(s[1], LIMB);
    var w1 := s[1] / B8 + Shl(s[2], B48);
    var w2 := s[2] / B16 + Shl(s[3], B40);
    var w3 := s[3] / B24 + Shl(s[4], B32);
    WordsOf(s, w0, w1, w2, w3);
    Store4(w0, w1, w2, w3);
    out := Store(w0) + Store(w1) + Store(w2) + Store(w3);
  }

  /** Both ways of reading a scalar back give its own limbs, the reducing one when it is reduced. */
  method ReadBack(s: seq<int>) returns (raw: seq<int>, reduced: seq<int>)
    requires IsScalar(s)
    ensures raw == s
    ensures reduced == s <==> ScalarValue(s) < M
  {
    hide ScalarValue, Value, IsScalar;
    var bytes := Contract(s);
    raw := ExpandRaw(bytes);
    SameScalar(raw, s);
    var out := new int[5];
    Expand(out, bytes);
    reduced := out[..];
    ReducedItself(s);
    if ScalarValue(s) < M {
      SameScalar(reduced, s);
    }
  }

  lemma ReducedItself(s: seq<int>)
    requires IsScalar(s)
    ensures ScalarValue(s) % M == ScalarValue(s) <==> ScalarValue(s) < M
  {
    ScalarRange(s);
    hide ScalarValue;
  }

  /** Every 32 bytes are written back as they were read. */
  method WriteBack(input: seq<int>) returns (output: seq<int>)
    requires |input| == 32 && Bytes(input)
    ensures output == input
  {
    hide ScalarValue, Value, IsScalar;
    var s := ExpandRaw(input);
    output := Contract(s);
    UniqueDigits(input, output, 256);
  }
}
