/**
  Streaming SHA-512: buffering, the message length counter and the padding,
  around a compression function that may be any function of the chaining
  value and a block.  Words are 64-bit; additions on them wrap.
 */
module Sha512Streaming {
  import opened Digits

  type Byte = n: nat | n < 256
  const TWO64: nat := 0x1_0000_0000_0000_0000
  const TWO128: nat := 0x1_0000_0000_0000_0000_0000_0000_0000_0000
  type Word = n: nat | n < TWO64
  type Chain = seq<Word>
  type Compression = (Chain, seq<Byte>) -> Chain

  const BLOCK: nat := 128

  const IV: Chain := [
    0x6a09e667f3bcc908, 0xbb67ae8584caa73b, 0x3c6ef372fe94f82b, 0xa54ff53a5f1d36f1,
    0x510e527fade682d1, 0x9b05688c2b3e6c1f, 0x1f83d9abfb41bd6b, 0x5be0cd19137e2179]

  // ----- The hash of a message -----

  /** How far a length is past its last whole block. */
  function Past(n: nat): (r: nat)
    ensures r < BLOCK && r <= n
  {
    n % BLOCK
  }

  lemma PastBlock(n: nat)
    ensures Past(n) == 0 && n > 0 ==> n >= BLOCK && Past(n - BLOCK) == 0
    ensures n < BLOCK ==> Past(n) == n
    ensures Past(BLOCK) == 0
  {
  }

  lemma PastSum(a: nat, b: nat)
    requires Past(a) == 0
    ensures Past(a + b) == Past(b)
  {
    var i, j := a / BLOCK, b / BLOCK;
    assert a + b == BLOCK * (i + j) + b % BLOCK;
    ModBy(a + b, BLOCK, i + j, b % BLOCK);
  }

  lemma PastRest(n: nat)
    ensures Past(n - Past(n)) == 0
  {
    ModBy(n - n % BLOCK, BLOCK, n / BLOCK, 0);
  }

  /** Compress a whole number of blocks, one after the other. */
  function Fold(compress: Compression, h: Chain, data: seq<Byte>): Chain
    requires Past(|data|) == 0
    decreases |data|
  {
    if data == [] then h else PastBlock(|data|); Fold(compress, compress(h, data[..BLOCK]), data[BLOCK..])
  }

  /** The number that bytes spell, most significant first. */
  function Number(bs: seq<Byte>): nat {
    if bs == [] then 0 else bs[0] * Pow(256, |bs| - 1) + Number(bs[1..])
  }

  lemma {:induction false} NumberOfJoin(a: seq<Byte>, b: seq<Byte>)
    ensures Number(a + b) == Number(a) * Pow(256, |b|) + Number(b)
  {
    if a == [] {
      assert a + b == b;
    } else {
      NumberOfJoin(a[1..], b);
      assert (a + b)[1..] == a[1..] + b;
      PowSum(256, |a| - 1, |b|);
      Regroup(a[0], Pow(256, |a| - 1), Pow(256, |b|), Number(a[1..]));
    }
  }

  lemma Regroup(x: int, p: int, q: int, y: int)
    ensures (x * p + y) * q == x * (p * q) + y * q
  {
    assert (x * p + y) * q == x * p * q + y * q;
  }

  lemma {:induction false} NumberBelow(bs: seq<Byte>)
    ensures Number(bs) < Pow(256, |bs|)
  {
    if bs != [] {
      NumberBelow(bs[1..]);
      PowPositive(256, |bs| - 1);
      var x: int := bs[0];
      Scale(Pow(256, |bs| - 1), x + 1, 256);
      Distribute(Pow(256, |bs| - 1), x, 1);
    }
  }

  /** Bytes of a given length are determined by the number they spell. */
  lemma {:induction false} NumberDetermines(a: seq<Byte>, b: seq<Byte>)
    requires |a| == |b| && Number(a) == Number(b)
    ensures a == b
  {
    if a != [] {
      var p := Pow(256, |a| - 1);
      NumberBelow(a[1..]);
      NumberBelow(b[1..]);
      PowPositive(256, |a| - 1);
      LeadingBytes(a[0], b[0], p, Number(a[1..]), Number(b[1..]));
      NumberDetermines(a[1..], b[1..]);
      assert a == [a[0]] + a[1..] && b == [b[0]] + b[1..];
    }
  }

  lemma LeadingBytes(x: int, y: int, p: int, u: nat, v: nat)
    requires u < p && v < p && x * p + u == y * p + v
    ensures x == y && u == v
  {
    Product(x, p);
    Product(y, p);
    DivBy(x * p + u, p, x, u);
    DivBy(y * p + v, p, y, v);
  }

  function ByteAt(v: nat, unit: nat): Byte
    requires unit > 0
  {
    v / unit % 256
  }

  /** sha512_STORE64_BE */
  function BigEndian(v: Word): (bs: seq<Byte>)
    ensures |bs| == 8
  {
    [ByteAt(v, 0x100_0000_0000_0000), ByteAt(v, 0x1_0000_0000_0000), ByteAt(v, 0x100_0000_0000), ByteAt(v, 0x1_0000_0000),
     ByteAt(v, 0x100_0000), ByteAt(v, 0x1_0000), ByteAt(v, 0x100), ByteAt(v, 1)]
  }

  /** sha512_LOAD64_BE */
  function Load(bs: seq<Byte>): int
    requires |bs| == 8
  {
    var b: seq<int> := bs;
    ((((((b[0] * 256 + b[1]) * 256 + b[2]) * 256 + b[3]) * 256 + b[4]) * 256 + b[5]) * 256 + b[6]) * 256 + b[7]
  }

  /** Stored most significant byte first: the bytes spell the word, and loading them gives it back. */
  lemma BigEndianSpells(v: Word)
    ensures Number(BigEndian(v)) == v && Load(BigEndian(v)) == v
  {
    hide Number, Load;
    LoadSpells(BigEndian(v));
    LoadStored(v);
  }

  lemma LoadSpells(b: seq<Byte>)
    requires |b| == 8
    ensures Number(b) == Load(b)
  {
    hide Number;
    forall k | 0 <= k < 8
      ensures Number(b[..k + 1]) == Number(b[..k]) * 256 + b[k]
    {
      OneMoreByte(b[..k], b[k]);
      assert b[..k + 1] == b[..k] + [b[k]];
    }
    NumberOfNone();
    assert b[..0] == [] && b[..8] == b;
  }

  lemma NumberOfNone()
    ensures Number([]) == 0
  {
  }

  lemma OneMoreByte(bs: seq<Byte>, x: Byte)
    ensures Number(bs + [x]) == Number(bs) * 256 + x
  {
    NumberOfJoin(bs, [x]);
    assert Number([x]) == x && Pow(256, 1) == 256;
  }

  function Above(v: nat, unit: nat): nat
    requires unit > 0
  {
    v / unit
  }

  lemma LoadStored(v: Word)
    ensures Load(BigEndian(v)) == v
  {
    hide ByteAt, Above;
    EndBytes(v);
    NextByte(v, 0x1_0000_0000_0000);
    NextByte(v, 0x100_0000_0000);
    NextByte(v, 0x1_0000_0000);
    NextByte(v, 0x100_0000);
    NextByte(v, 0x1_0000);
    NextByte(v, 0x100);
    NextByte(v, 1);
  }

  lemma EndBytes(v: Word)
    ensures Above(v, 0x100_0000_0000_0000) == ByteAt(v, 0x100_0000_0000_0000) && Above(v, 1) == v
  {
  }

  lemma NextByte(v: nat, unit: nat)
    requires unit > 0
    ensures Above(v, unit) == Above(v, 256 * unit) * 256 + ByteAt(v, unit)
  {
    var q, r := v / unit, v % unit;
    var h, l := q / 256, q % 256;
    assert v == unit * q + r && q == 256 * h + l;
    Distribute(unit, 256 * h, l);
    Scale(unit, l + 1, 256);
    Distribute(unit, l, 1);
    assert unit * (256 * h) == 256 * unit * h;
    DivBy(v, 256 * unit, h, unit * l + r);
  }

  function Zeros(n: nat): (z: seq<Byte>)
    ensures |z| == n && forall i :: 0 <= i < n ==> z[i] == 0
  {
    seq(n, _ => 0)
  }

  /** The number of zero bytes that brings a message and its end marker to 16 bytes short of a block. */
  function ZeroCount(length: nat): nat {
    (111 - length) % BLOCK
  }

  /** The high and low words of the length in bits, as a 128-bit number. */
  function HighBits(length: nat): Word {
    8 * length % TWO128 / TWO64
  }

  function LowBits(length: nat): Word {
    8 * length % TWO128 % TWO64
  }

  lemma PadLength(length: nat)
    ensures Past(length + 1 + ZeroCount(length) + 16) == 0
  {
    var z, q := (111 - length) % BLOCK, (111 - length) / BLOCK;
    ModBy(length + 1 + z + 16, BLOCK, 1 - q, 0);
  }

  /** Section 5.1.2 of FIPS 180-4: a one bit, zeros, and the length in bits as a 128-bit number. */
  function Pad(m: seq<Byte>): (p: seq<Byte>)
    ensures Past(|p|) == 0
  {
    PadLength(|m|);
    m + [0x80] + Zeros(ZeroCount(|m|)) + (BigEndian(HighBits(|m|)) + BigEndian(LowBits(|m|)))
  }

  /**
    Section 5.1.2 of FIPS 180-4, in terms of the result: the message, a one
    bit, zeros, and the length in bits as a 128-bit number, in as few whole
    blocks as hold them.
   */
  ghost predicate IsPadded(m: seq<Byte>, p: seq<Byte>) {
    && |p| >= |m| + 17 && |p| % BLOCK == 0 && |p| < |m| + 17 + BLOCK
    && p[..|m|] == m && p[|m|] == 0x80
    && (forall i :: |m| < i < |p| - 16 ==> p[i] == 0)
    && Number(p[|p| - 16..]) == 8 * |m| % TWO128
  }

  lemma PadIsPadded(m: seq<Byte>)
    ensures IsPadded(m, Pad(m))
  {
    hide Number, BigEndian;
    var p, z := Pad(m), ZeroCount(|m|);
    var high, low := BigEndian(HighBits(|m|)), BigEndian(LowBits(|m|));
    assert p[|p| - 16..] == high + low;
    LengthSpelled(|m|);
    PadLength(|m|);
    forall i | |m| < i < |p| - 16 ensures p[i] == 0 {
      assert p[i] == Zeros(z)[i - |m| - 1];
    }
  }

  lemma LengthSpelled(length: nat)
    ensures Number(BigEndian(HighBits(length)) + BigEndian(LowBits(length))) == 8 * length % TWO128
  {
    hide Number, BigEndian;
    var v := 8 * length % TWO128;
    NumberOfJoin(BigEndian(v / TWO64), BigEndian(v % TWO64));
    BigEndianSpells(v / TWO64);
    BigEndianSpells(v % TWO64);
    EightPowers();
  }

  lemma EightPowers()
    ensures Pow(256, 8) == TWO64
  {
    Powers();
    WidePowers();
    PowPow(2, 8, 8);
  }

  /** There is only one padding. */
  lemma OnePadding(m: seq<Byte>, p: seq<Byte>, q: seq<Byte>)
    requires IsPadded(m, p) && IsPadded(m, q)
    ensures p == q
  {
    hide Number;
    assert |p| == |q|;
    NumberDetermines(p[|p| - 16..], q[|q| - 16..]);
    forall i | 0 <= i < |p| ensures p[i] == q[i] {
      if i < |m| {
        assert p[..|m|][i] == q[..|m|][i];
      } else if i >= |p| - 16 {
        assert p[|p| - 16..][i - (|p| - 16)] == q[|p| - 16..][i - (|p| - 16)];
      }
    }
  }

  /** The zeros are the fewest that make the padded message end on a block. */
  lemma ZeroCountIsLeast(length: nat, k: nat)
    ensures (length + 1 + ZeroCount(length)) % BLOCK == 112
    ensures (length + 1 + k) % BLOCK == 112 ==> ZeroCount(length) <= k
  {
  }

  function Digest(h: Chain): seq<Byte>
    decreases |h|
  {
    if h == [] then [] else BigEndian(h[0]) + Digest(h[1..])
  }

  /** Every eight bytes spell a word of the chaining value, most significant byte first. */
  ghost predicate Spells(hash: seq<Byte>, h: Chain) {
    && |hash| == 8 * |h|
    && forall k :: 0 <= k < |h| ==> Number(hash[8 * k..8 * k + 8]) == h[k]
  }

  lemma {:induction false} DigestSpells(h: Chain)
    ensures Spells(Digest(h), h)
    decreases |h|
  {
    hide Number, BigEndian;
    if h != [] {
      DigestSpells(h[1..]);
      BigEndianSpells(h[0]);
      var d, rest := Digest(h), Digest(h[1..]);
      forall k | 0 <= k < |h| ensures Number(d[8 * k..8 * k + 8]) == h[k] {
        if k == 0 {
          assert d[..8] == BigEndian(h[0]) && d[0..8] == d[..8];
        } else {
          assert d[8 * k..8 * k + 8] == rest[8 * (k - 1)..8 * (k - 1) + 8];
          assert h[1..][k - 1] == h[k];
        }
      }
    }
  }

  /** Section 5.3.5 of FIPS 180-4: the fractional parts of the square roots of the first eight primes. */
  lemma InitialChain()
    ensures RootFraction(2, 1, IV[0]) && RootFraction(3, 1, IV[1]) && RootFraction(5, 2, IV[2]) && RootFraction(7, 2, IV[3])
    ensures RootFraction(11, 3, IV[4]) && RootFraction(13, 3, IV[5]) && RootFraction(17, 4, IV[6]) && RootFraction(19, 4, IV[7])
    ensures |IV| == 8
  {
  }

  /** The first 64 bits behind the point of the square root of p, whose whole part is `whole`. */
  predicate RootFraction(p: nat, whole: nat, fraction: Word) {
    var x := whole * TWO64 + fraction;
    x * x <= p * TWO128 < (x + 1) * (x + 1)
  }

  // ----- Facts about folding -----

  /** The chaining values from `h` on: each compresses the next block of `data` into the one before. */
  ghost predicate IsChain(compress: Compression, h: Chain, data: seq<Byte>, states: seq<Chain>) {
    && |data| == BLOCK * (|states| - 1)
    && states[0] == h
    && forall k :: 0 <= k < |states| - 1 ==> states[k + 1] == compress(states[k], data[BLOCK * k..BLOCK * k + BLOCK])
  }

  lemma {:induction false} FoldIsChain(compress: Compression, h: Chain, data: seq<Byte>) returns (states: seq<Chain>)
    requires Past(|data|) == 0
    ensures IsChain(compress, h, data, states) && states[|states| - 1] == Fold(compress, h, data)
    decreases |data|
  {
    if data == [] {
      return [h];
    }
    PastBlock(|data|);
    var rest := FoldIsChain(compress, compress(h, data[..BLOCK]), data[BLOCK..]);
    states := [h] + rest;
    forall k | 0 <= k < |states| - 1
      ensures states[k + 1] == compress(states[k], data[BLOCK * k..BLOCK * k + BLOCK])
    {
      if k == 0 {
        assert data[0..BLOCK] == data[..BLOCK];
      } else {
        LaterBlock(data, k, |rest|);
      }
    }
  }

  lemma LaterBlock(data: seq<Byte>, k: nat, n: nat)
    requires 0 < k < n && |data| == BLOCK * n
    ensures data[BLOCK * k..BLOCK * k + BLOCK] == data[BLOCK..][BLOCK * (k - 1)..BLOCK * (k - 1) + BLOCK]
  {
    Shifted(data, BLOCK * k, BLOCK * k + BLOCK);
  }

  lemma Shifted(data: seq<Byte>, a: nat, b: nat)
    requires BLOCK <= a <= b <= |data|
    ensures data[a..b] == data[BLOCK..][a - BLOCK..b - BLOCK]
  {
  }

  lemma {:induction false} FoldAppend(compress: Compression, h: Chain, a: seq<Byte>, b: seq<Byte>)
    requires Past(|a|) == 0 && Past(|b|) == 0
    ensures Past(|a| + |b|) == 0
    ensures Fold(compress, h, a + b) == Fold(compress, Fold(compress, h, a), b)
    decreases |a|
  {
    if a == [] {
      assert a + b == b;
    } else {
      PastBlock(|a|);
      assert (a + b)[..BLOCK] == a[..BLOCK];
      assert (a + b)[BLOCK..] == a[BLOCK..] + b;
      FoldAppend(compress, compress(h, a[..BLOCK]), a[BLOCK..], b);
    }
  }

  // ----- The 128-bit length counter -----

  ghost predicate Counts(t0: Word, t1: Word, bytes: nat) {
    Past(bytes) == 0 && t0 + TWO64 * t1 == 8 * bytes % TWO128
  }

  /** One more block, right across the wrap of the low word. */
  lemma CountBlock(t0: Word, t1: Word, bytes: nat)
    requires Counts(t0, t1, bytes)
    ensures
      var t0' := (t0 + 1024) % TWO64;
      Counts(t0', (t1 + if t0' == 0 then 1 else 0) % TWO64, bytes + BLOCK)
  {
    var q, j := Multiple1024(t0, t1, bytes);
    var v := t0 + TWO64 * t1;
    PastSum(bytes, BLOCK);
    PastBlock(BLOCK);
    hide Past;
    if v + 1024 == TWO128 {
      ModBy(8 * (bytes + BLOCK), TWO128, q + 1, 0);
    } else {
      ModBy(8 * (bytes + BLOCK), TWO128, q, v + 1024);
    }
  }

  /** Whole blocks keep the low word a multiple of 1024. */
  lemma Multiple1024(t0: Word, t1: Word, bytes: nat) returns (q: nat, j: nat)
    requires Counts(t0, t1, bytes)
    ensures 8 * bytes == TWO128 * q + t0 + TWO64 * t1 && t0 == 1024 * j
  {
    q := 8 * bytes / TWO128;
    j := Quotient1024(bytes / BLOCK, q, t0, t1);
  }

  lemma Quotient1024(k: nat, q: nat, t0: Word, t1: Word) returns (j: nat)
    requires 1024 * k == TWO128 * q + t0 + TWO64 * t1
    ensures t0 == 1024 * j
  {
    j := k - TWO128 / 1024 * q - TWO64 / 1024 * t1;
  }

  /** The counter and a partial block give the length of the whole message. */
  lemma FinalLength(t0: Word, t1: Word, bytes: nat, leftover: nat)
    requires Counts(t0, t1, bytes) && leftover < BLOCK
    ensures t0 + 8 * leftover < TWO64
    ensures HighBits(bytes + leftover) == t1 && LowBits(bytes + leftover) == t0 + 8 * leftover
  {
    var q, j := Multiple1024(t0, t1, bytes);
    hide Counts;
    var v := t0 + 8 * leftover + TWO64 * t1;
    ModBy(8 * (bytes + leftover), TWO128, q, v);
  }

  // ----- The hash context -----

  class Context {
    const compress: Compression
    var H: Chain
    var T0: Word
    var T1: Word
    var leftover: nat
    const buffer: array<Byte>
    ghost var message: seq<Byte>

    /** The part of the message already compressed. */
    ghost function Done(): seq<Byte>
      requires leftover <= |message|
      reads this
    {
      message[..|message| - leftover]
    }

    ghost predicate Valid()
      reads this, buffer
    {
      && buffer.Length == BLOCK
      && leftover == Past(|message|)
      && Past(|Done()|) == 0 && H == Fold(compress, IV, Done())
      && Counts(T0, T1, |Done()|)
      && buffer[..leftover] == message[|message| - leftover..]
    }

    constructor (compress: Compression)
      ensures Valid() && message == [] && this.compress == compress && fresh(buffer)
    {
      this.compress := compress;
      buffer := new Byte[BLOCK](_ => 0);
      H, T0, T1, leftover := IV, 0, 0, 0;
      message := [];
    }

    /** Compress `data` block by block, counting its bits. */
    method Blocks(data: seq<Byte>, ghost bytes: nat)
      requires Past(|data|) == 0 && Counts(T0, T1, bytes)
      modifies this`H, this`T0, this`T1
      ensures H == Fold(compress, old(H), data)
      ensures Counts(T0, T1, bytes + |data|)
    {
      hide Past, Counts;
      var i := 0;
      while i < |data|
        invariant 0 <= i <= |data| && Past(|data| - i) == 0
        invariant Fold(compress, H, data[i..]) == Fold(compress, old(H), data)
        invariant Counts(T0, T1, bytes + i)
        decreases |data| - i
      {
        PastBlock(|data| - i);
        assert data[i..][..BLOCK] == data[i..i + BLOCK] && data[i..][BLOCK..] == data[i + BLOCK..];
        CountBlock(T0, T1, bytes + i);
        H := compress(H, data[i..i + BLOCK]);
        T0 := (T0 + 1024) % TWO64;
        T1 := (T1 + if T0 == 0 then 1 else 0) % TWO64;
        i := i + BLOCK;
      }
    }

    /** Copy `data` into the buffer from position `at` on. */
    method Copy(at: nat, data: seq<Byte>)
      requires at + |data| <= buffer.Length
      modifies buffer
      ensures buffer[..at] == old(buffer[..at])
      ensures buffer[at..at + |data|] == data
      ensures buffer[at + |data|..] == old(buffer[at + |data|..])
    {
      for i := 0 to |data|
        invariant buffer[..at] == old(buffer[..at])
        invariant buffer[at..at + i] == data[..i]
        invariant buffer[at + |data|..] == old(buffer[at + |data|..])
      {
        buffer[at + i] := data[i];
        assert buffer[at..at + i + 1] == buffer[at..at + i] + [data[i]];
      }
    }

    /** The buffer holds what follows `done`, up to a whole block of it. */
    ghost predicate Buffered(done: seq<Byte>)
      reads this, buffer
    {
      && buffer.Length == BLOCK && leftover <= BLOCK
      && message == done + buffer[..leftover]
      && Past(|done|) == 0 && H == Fold(compress, IV, done) && Counts(T0, T1, |done|)
    }

    lemma PartlyFull(done: seq<Byte>)
      requires Buffered(done) && leftover < BLOCK
      ensures Valid()
    {
      hide Fold, Counts, Past;
      PastSum(|done|, leftover);
      PastBlock(leftover);
      Parts(done, buffer[..leftover]);
    }

    /** Compress the full buffer. */
    method Flush(ghost done: seq<Byte>)
      requires Buffered(done) && leftover == BLOCK
      modifies this
      ensures Valid() && leftover == 0 && message == old(message)
    {
      hide Fold, Counts, Past;
      assert buffer[..BLOCK] == buffer[..];
      PastBlock(BLOCK);
      Blocks(buffer[..], |done|);
      FoldAppend(compress, IV, done, buffer[..]);
      leftover := 0;
      assert message == message + buffer[..0];
      PartlyFull(message);
    }

    /** Handle what an earlier update left over: top up the buffer, and compress it once it is full. */
    method TopUp(data: seq<Byte>) returns (want: nat)
      requires Valid() && leftover != 0
      modifies this, buffer
      ensures Valid() && want <= |data| && message == old(message) + data[..want]
      ensures want < |data| ==> leftover == 0
    {
      hide Fold, Counts, Past;
      want := BLOCK - leftover;
      if |data| < want {
        want := |data|;
      }
      ghost var done, tail := Done(), buffer[..leftover];
      Copy(leftover, data[..want]);
      leftover := leftover + want;
      assert buffer[..leftover] == tail + data[..want];
      message := message + data[..want];
      assert message == done + buffer[..leftover];
      if leftover < BLOCK {
        PartlyFull(done);
        return;
      }
      Flush(done);
    }

    /** Compress all whole blocks of `data`, and keep the rest in the buffer. */
    method Absorb(data: seq<Byte>)
      requires Valid() && leftover == 0
      modifies this, buffer
      ensures Valid() && message == old(message) + data
    {
      hide Fold, Counts, Past;
      ghost var before := message;
      assert Done() == before;
      var blocks := |data| - Past(|data|);
      PastRest(|data|);
      PastSum(|before|, |data|);
      leftover := |data| - blocks;
      ghost var whole, rest := before + data[..blocks], data[blocks..];
      if blocks != 0 {
        Blocks(data[..blocks], |before|);
        FoldAppend(compress, IV, before, data[..blocks]);
      } else {
        assert whole == before;
      }
      if leftover != 0 {
        Copy(0, data[blocks..]);
      }
      message := before + data;
      assert message == whole + rest;
      Parts(whole, rest);
    }

    /** Take in more of the message. */
    method Update(data: seq<Byte>)
      requires Valid()
      modifies this, buffer
      ensures Valid() && message == old(message) + data
    {
      hide Valid;
      var rest := data;
      if leftover != 0 {
        var want := TopUp(data);
        assert data[..want] + data[want..] == data;
        if want == |data| {
          return;
        }
        rest := data[want..];
      }
      Absorb(rest);
    }

    /** Finish the message; the context is not used afterwards. */
    method Final() returns (hash: seq<Byte>)
      requires Valid()
      modifies this, buffer
      ensures H == Fold(compress, IV, Pad(old(message)))
      ensures hash == Digest(H)
    {
      hide Fold, Counts, BigEndian, Zeros, HighBits, LowBits;
      ghost var done, tail, bytes := Done(), message[|message| - leftover..], |message| - leftover;
      assert message == done + tail;
      FinalLength(T0, T1, bytes, leftover);
      var t0, t1 := T0 + leftover * 8, T1;
      var length := BigEndian(t1) + BigEndian(t0);
      if leftover <= 111 {
        var end := [0x80] + Zeros(111 - leftover) + length;
        Copy(leftover, end);
        assert buffer[..] == buffer[..leftover] + buffer[leftover..leftover + |end|];
        assert buffer[..] == tail + end == tail + [0x80] + Zeros(111 - leftover) + length;
        PadShort(message, done, tail, length);
        Blocks(buffer[..], bytes);
        FoldAppend(compress, IV, done, buffer[..]);
      } else {
        var end := [0x80] + Zeros(127 - leftover);
        Copy(leftover, end);
        ghost var first := buffer[..];
        assert first == buffer[..leftover] + buffer[leftover..leftover + |end|];
        assert first == tail + end == tail + [0x80] + Zeros(127 - leftover);
        Blocks(buffer[..], bytes);
        Copy(0, Zeros(112) + length);
        assert buffer[..] == Zeros(112) + length;
        PadLong(message, done, tail, length, first, buffer[..]);
        Blocks(buffer[..], bytes + BLOCK);
        FoldAppend(compress, IV, done, first);
        FoldAppend(compress, IV, done + first, buffer[..]);
      }
      hash := Digest(H);
    }
  }

  lemma Parts(done: seq<Byte>, more: seq<Byte>)
    ensures (done + more)[..|done + more| - |more|] == done && (done + more)[|done + more| - |more|..] == more
  {
  }

  /** The padding fits behind the rest of the message in one block. */
  lemma PadShort(message: seq<Byte>, done: seq<Byte>, tail: seq<Byte>, length: seq<Byte>)
    requires message == done + tail && Past(|done|) == 0 && |tail| <= 111
    requires length == BigEndian(HighBits(|message|)) + BigEndian(LowBits(|message|))
    ensures Pad(message) == done + (tail + [0x80] + Zeros(111 - |tail|) + length)
  {
    hide BigEndian, Zeros, ZeroCount, HighBits, LowBits;
    ZeroCountAfter(|done|, |tail|);
  }

  lemma ZeroCountAfter(done: nat, tail: nat)
    requires Past(done) == 0 && tail < BLOCK
    ensures ZeroCount(done + tail) == if tail <= 111 then 111 - tail else 239 - tail
  {
    var k := done / BLOCK;
    assert done == BLOCK * k;
    if tail <= 111 {
      ModBy(111 - (done + tail), BLOCK, -k, 111 - tail);
    } else {
      ModBy(111 - (done + tail), BLOCK, -k - 1, 239 - tail);
    }
  }

  /** The padding takes a block of its own. */
  lemma PadLong(message: seq<Byte>, done: seq<Byte>, tail: seq<Byte>, length: seq<Byte>, first: seq<Byte>, second: seq<Byte>)
    requires message == done + tail && Past(|done|) == 0 && 111 < |tail| < BLOCK
    requires length == BigEndian(HighBits(|message|)) + BigEndian(LowBits(|message|))
    requires first == tail + [0x80] + Zeros(127 - |tail|) && second == Zeros(112) + length
    ensures Pad(message) == done + first + second
  {
    hide BigEndian, Zeros, ZeroCount, HighBits, LowBits;
    ZeroCountAfter(|done|, |tail|);
    assert Zeros(239 - |tail|) == Zeros(127 - |tail|) + Zeros(112);
  }

  lemma HashMeans(compress: Compression, m: seq<Byte>) returns (padded: seq<Byte>, states: seq<Chain>)
    ensures IsPadded(m, padded) && IsChain(compress, IV, padded, states)
    ensures states != [] && Spells(Digest(Fold(compress, IV, Pad(m))), states[|states| - 1])
  {
    hide Fold, Past, Digest, IsPadded, Spells;
    padded := Pad(m);
    PadIsPadded(m);
    states := FoldIsChain(compress, IV, padded);
    DigestSpells(Fold(compress, IV, padded));
  }

  // ----- Any way of cutting the message -----

  /** The first n chunks, one after the other. */
  function Concat(chunks: seq<seq<Byte>>, n: nat): seq<Byte>
    requires n <= |chunks|
  {
    if n == 0 then [] else Concat(chunks, n - 1) + chunks[n - 1]
  }

  /** However the message is cut into updates, the hash is that of the whole message. */
  method HashChunks(compress: Compression, chunks: seq<seq<Byte>>)
    returns (hash: seq<Byte>, ghost padded: seq<Byte>, ghost states: seq<Chain>)
    ensures IsPadded(Concat(chunks, |chunks|), padded)
    ensures IsChain(compress, IV, padded, states) && Spells(hash, states[|states| - 1])
  {
    hide Fold, Pad, Past, Digest, IsPadded, Spells, IsChain;
    hash := HashInOrder(compress, chunks);
    padded, states := HashMeans(compress, Concat(chunks, |chunks|));
  }

  method HashInOrder(compress: Compression, chunks: seq<seq<Byte>>) returns (hash: seq<Byte>)
    ensures hash == Digest(Fold(compress, IV, Pad(Concat(chunks, |chunks|))))
  {
    hide Fold, Pad, Past, Digest, Counts;
    var ctx := new Context(compress);
    for i := 0 to |chunks|
      invariant ctx.Valid() && fresh(ctx) && fresh(ctx.buffer) && ctx.compress == compress
      invariant ctx.message == Concat(chunks, i)
    {
      ctx.Update(chunks[i]);
    }
    hash := ctx.Final();
  }
}
