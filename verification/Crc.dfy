/** CRC-16/USB: the 16-bit register of section 8.3.5.2 of the USB 2.0 specification, with
    generator x^16 + x^15 + x^2 + 1, least significant bit first, preset to all ones, the
    remainder complemented.  The frame code complements the finished value once more. */
module Crc {
  import opened Bytes

  /** Sixteen flip-flops, the least significant first. */
  type Register = r: seq<bool> | |r| == 16
    witness [false, false, false, false, false, false, false, false,
             false, false, false, false, false, false, false, false]

  const PRESET: Register := [true, true, true, true, true, true, true, true,
                             true, true, true, true, true, true, true, true]

  /** One clock of the reflected register. */
  function Shift(r: Register, bit: bool): Register {
    var f := r[0] != bit;
    [r[1] != f] + r[2..14] + [r[14] != f, r[15], f]
  }

  function Feed(r: Register, bits: seq<bool>): Register
    decreases |bits|
  {
    if bits == [] then r else Feed(Shift(r, bits[0]), bits[1..])
  }

  function Complement(r: Register): Register {
    seq(16, i requires 0 <= i < 16 => !r[i])
  }

  /** What the digest returns: the remainder, complemented. */
  function Digest(message: seq<byte>): Register {
    Complement(Feed(PRESET, Bits(message)))
  }

  function RegisterValue(r: Register): u16 {
    Pow2Word();
    FromBits(r)
  }

  /** The check value of a frame: the digest, complemented once more. */
  function CrcOf(message: seq<byte>): u16 {
    RegisterValue(Complement(Digest(message)))
  }

  lemma Pow2Word()
    ensures Pow2(16) == 0x1_0000
  {
    Pow2Byte();
    assert Pow2(12) == 16 * Pow2(8);
    assert Pow2(16) == 16 * Pow2(12);
  }

  /** The generator in reflected form, without its leading term. */
  const GENERATOR: u16 := 0xA001

  lemma GeneratorBits(n: nat, k: nat)
    requires n == GENERATOR && k == 16
    ensures forall i | 0 <= i < 16 :: ToBits(n, k)[i] == (i == 0 || i == 13 || i == 15)
  {
    hide ToBits, FromBits;
    var taps: Register := [true, false, false, false, false, false, false, false,
                           false, false, false, false, false, true, false, true];
    TapsValue(taps);
    ToFromBits(taps);
  }

  lemma TapsValue(taps: Register)
    requires forall i | 0 <= i < 16 :: taps[i] == (i == 0 || i == 13 || i == 15)
    ensures FromBits(taps) == GENERATOR
  {
    var low, mid, high := taps[..8], taps[8..12], taps[12..];
    assert taps == low + (mid + high);
    FromBitsConcat(low, mid + high);
    FromBitsConcat(mid, high);
    Pow2Byte();
    assert low[1..] == low[1..5] + low[5..] && forall i | 0 <= i < 7 :: !low[1..][i];
    NoOnes(low[1..]);
    NoOnes(mid);
    var h1 := high[1..];
    var h2 := h1[1..];
    var h3 := h2[1..];
    assert h3[1..] == [];
    assert FromBits(h3) == 1;
    assert FromBits(h2) == 2;
    assert FromBits(h1) == 5;
    assert FromBits(high) == 10;
  }

  lemma {:induction false} NoOnes(bits: seq<bool>)
    requires forall i | 0 <= i < |bits| :: !bits[i]
    ensures FromBits(bits) == 0
    decreases |bits|
  {
    if bits != [] {
      NoOnes(bits[1..]);
    }
  }

  /** A clock is division by the generator: shift down one place and, when the bit shifted out
      differs from the message bit, add the generator. */
  lemma ShiftDivides(r: Register, bit: bool, i: nat)
    requires i < 16
    ensures Shift(r, bit)[i] == ((i < 15 && r[i + 1]) != (r[0] != bit && ToBits(GENERATOR, 16)[i]))
  {
    GeneratorBits(GENERATOR, 16);
  }

  // ---------------------------------------------------------------- algebra of the register

  lemma {:induction false} FeedConcat(r: Register, a: seq<bool>, b: seq<bool>)
    ensures Feed(r, a + b) == Feed(Feed(r, a), b)
    decreases |a|
  {
    if a == [] {
      assert a + b == b;
    } else {
      assert (a + b)[1..] == a[1..] + b;
      FeedConcat(Shift(r, a[0]), a[1..], b);
    }
  }

  lemma ShiftInjective(r: Register, s: Register, bit: bool)
    requires Shift(r, bit) == Shift(s, bit)
    ensures r == s
  {
    var a, b := Shift(r, bit), Shift(s, bit);
    assert a[15] == b[15] && a[14] == b[14] && a[13] == b[13] && a[0] == b[0];
    forall i | 2 <= i < 14
      ensures r[i] == s[i]
    {
      assert a[i - 1] == r[i] && b[i - 1] == s[i];
    }
    assert forall i | 0 <= i < 16 :: r[i] == s[i];
  }

  lemma {:induction false} FeedInjective(r: Register, s: Register, bits: seq<bool>)
    requires Feed(r, bits) == Feed(s, bits)
    ensures r == s
    decreases |bits|
  {
    if bits != [] {
      FeedInjective(Shift(r, bits[0]), Shift(s, bits[0]), bits[1..]);
      ShiftInjective(r, s, bits[0]);
    }
  }

  /** Up to sixteen bits mixed into the register, the first one at the least significant place. */
  function Mix(r: Register, bits: seq<bool>): (m: Register)
    requires |bits| <= 16
  {
    seq(16, i requires 0 <= i < 16 => r[i] != (i < |bits| && bits[i]))
  }

  /** Clocking zero bits. */
  function Idle(r: Register, n: nat): Register
    decreases n
  {
    if n == 0 then r else Idle(Shift(r, false), n - 1)
  }

  /** Feeding up to 16 bits is the same as mixing them into the register first and then
      clocking zeros. */
  lemma {:induction false} FeedIsIdle(r: Register, bits: seq<bool>)
    requires |bits| <= 16
    ensures Feed(r, bits) == Idle(Mix(r, bits), |bits|)
    decreases |bits|
  {
    if bits == [] {
      assert Mix(r, []) == r;
    } else {
      ShiftMix(r, bits);
      FeedIsIdle(Shift(r, bits[0]), bits[1..]);
    }
  }

  lemma ShiftMix(r: Register, bits: seq<bool>)
    requires 0 < |bits| <= 16
    ensures Shift(Mix(r, bits), false) == Mix(Shift(r, bits[0]), bits[1..])
  {
  }

  lemma {:induction false} IdleInjective(r: Register, s: Register, n: nat)
    requires Idle(r, n) == Idle(s, n)
    ensures r == s
    decreases n
  {
    if n > 0 {
      IdleInjective(Shift(r, false), Shift(s, false), n - 1);
      ShiftInjective(r, s, false);
    }
  }

  lemma MixInjective(r: Register, u: seq<bool>, v: seq<bool>)
    requires |u| == |v| <= 16
    requires Mix(r, u) == Mix(r, v)
    ensures u == v
  {
    forall i | 0 <= i < |u|
      ensures u[i] == v[i]
    {
      assert Mix(r, u)[i] == Mix(r, v)[i];
    }
  }

  /** Two messages that differ only inside a window of at most 16 bits leave different
      remainders, wherever the window lies. */
  lemma BurstChangesRemainder(r: Register, x: seq<bool>, u: seq<bool>, v: seq<bool>, y: seq<bool>)
    requires |u| == |v| <= 16
    requires u != v
    ensures Feed(r, x + u + y) != Feed(r, x + v + y)
  {
    var s := Feed(r, x);
    FeedThree(r, x, u, y);
    FeedThree(r, x, v, y);
    if Feed(r, x + u + y) == Feed(r, x + v + y) {
      FeedInjective(Feed(s, u), Feed(s, v), y);
      FeedIsIdle(s, u);
      FeedIsIdle(s, v);
      IdleInjective(Mix(s, u), Mix(s, v), |u|);
      MixInjective(s, u, v);
    }
  }

  lemma FeedThree(r: Register, x: seq<bool>, u: seq<bool>, y: seq<bool>)
    ensures Feed(r, x + u + y) == Feed(Feed(Feed(r, x), u), y)
  {
    FeedConcat(r, x + u, y);
    FeedConcat(r, x, u);
  }

  // ---------------------------------------------------------------- the preset

  lemma ComplementMixes(zero: Register, u: seq<bool>)
    requires |u| == 16 && forall i | 0 <= i < 16 :: !zero[i]
    ensures Mix(PRESET, u) == Mix(zero, Complement(u))
  {
  }

  /** Presetting the register to all ones is complementing the first sixteen message bits before
      they enter an all-zero register. */
  lemma PresetComplements(zero: Register, bits: seq<bool>)
    requires |bits| >= 16 && forall i | 0 <= i < 16 :: !zero[i]
    ensures Feed(PRESET, bits) == Feed(zero, seq(16, i requires 0 <= i < 16 => !bits[i]) + bits[16..])
  {
    var u, rest := bits[..16], bits[16..];
    assert bits == u + rest;
    var v := Complement(u);
    assert v == seq(16, i requires 0 <= i < 16 => !bits[i]);
    FeedConcat(PRESET, u, rest);
    FeedConcat(zero, v, rest);
    FeedIsIdle(PRESET, u);
    FeedIsIdle(zero, v);
    ComplementMixes(zero, u);
  }

  lemma CrcComplementsFront(zero: Register, message: seq<byte>)
    requires |message| >= 2 && forall i | 0 <= i < 16 :: !zero[i]
    ensures var bits := Bits(message);
            CrcOf(message) ==
            RegisterValue(Feed(zero, seq(16, i requires 0 <= i < 16 => !bits[i]) + bits[16..]))
  {
    hide Bits, Feed, CrcOf, RegisterValue;
    CrcIsRemainder(message);
    PresetComplements(zero, Bits(message));
  }

  // ---------------------------------------------------------------- the register as a number

  /** One clock of the register as arithmetic on its 16-bit value: halve it and, when the bit
      shifted out differs from the message bit, add 0xA001 modulo two, which sets the top bit and
      flips bits 13 and 0. */
  function ClockValue(n: nat, bit: bool): nat {
    if (n % 2 == 1) == bit then n / 2
    else n / 2 + 0x8000 + (if n / 0x4000 % 2 == 1 then -0x2000 else 0x2000) + (if n / 2 % 2 == 1 then -1 else 1)
  }

  function BitValue(b: bool): nat {
    if b then 1 else 0
  }

  lemma ValueInParts(a: bool, b: bool, mid: seq<bool>, c: bool, d: bool)
    requires |mid| == 12
    ensures FromBits([a, b] + mid + [c, d]) ==
            BitValue(a) + 2 * BitValue(b) + 4 * FromBits(mid) + 0x4000 * BitValue(c) + 0x8000 * BitValue(d)
    ensures FromBits(mid) < 0x1000
  {
    hide FromBits, Pow2;
    PowersOfRegister();
    FromBitsConcat([a, b] + mid, [c, d]);
    FromBitsConcat([a, b], mid);
    PairValue(a, b);
    PairValue(c, d);
  }

  lemma PowersOfRegister()
    ensures Pow2(2) == 4 && Pow2(12) == 0x1000 && Pow2(14) == 0x4000
  {
    Pow2Byte();
    assert Pow2(12) == 16 * Pow2(8);
    assert Pow2(14) == 4 * Pow2(12);
    assert Pow2(2) == 4 * Pow2(0);
  }

  lemma PairValue(a: bool, b: bool)
    ensures FromBits([a, b]) == BitValue(a) + 2 * BitValue(b)
  {
    assert [a, b][1..] == [b] && [b][1..] == [];
  }

  lemma ClockInParts(a: bool, b: bool, mid: nat, c: bool, d: bool, bit: bool)
    requires mid < 0x1000
    ensures var n := BitValue(a) + 2 * BitValue(b) + 4 * mid + 0x4000 * BitValue(c) + 0x8000 * BitValue(d);
            var f := a != bit;
            ClockValue(n, bit) == BitValue(b != f) + 2 * mid + 0x2000 * BitValue(c != f) + 0x4000 * BitValue(d)
                                  + 0x8000 * BitValue(f)
  {
    var n := BitValue(a) + 2 * BitValue(b) + 4 * mid + 0x4000 * BitValue(c) + 0x8000 * BitValue(d);
    assert n / 2 == BitValue(b) + 2 * mid + 0x2000 * BitValue(c) + 0x4000 * BitValue(d);
    assert n / 0x4000 == BitValue(c) + 2 * BitValue(d);
  }

  lemma ShiftValue(r: Register, bit: bool)
    ensures FromBits(Shift(r, bit)) == ClockValue(FromBits(r), bit)
  {
    hide FromBits, ClockValue;
    var f, mid := r[0] != bit, r[2..14];
    assert r == [r[0], r[1]] + mid + [r[14], r[15]];
    ValueInParts(r[0], r[1], mid, r[14], r[15]);
    ShiftedValue(r[1] != f, mid, r[14] != f, r[15], f);
    ClockInParts(r[0], r[1], FromBits(mid), r[14], r[15], bit);
  }

  lemma ShiftedValue(a: bool, mid: seq<bool>, b: bool, c: bool, d: bool)
    requires |mid| == 12
    ensures FromBits([a] + mid + [b, c, d]) ==
            BitValue(a) + 2 * FromBits(mid) + 0x2000 * BitValue(b) + 0x4000 * BitValue(c) + 0x8000 * BitValue(d)
  {
    hide FromBits, Pow2;
    PowersOfRegister();
    assert [a] + mid + [b, c, d] == [a] + (mid + ([b] + [c, d]));
    FromBitsConcat([a], mid + ([b] + [c, d]));
    FromBitsConcat(mid, [b] + [c, d]);
    FromBitsConcat([b], [c, d]);
    OneBitValue(a);
    OneBitValue(b);
    PairValue(c, d);
  }

  lemma OneBitValue(a: bool)
    ensures FromBits([a]) == BitValue(a) && Pow2(1) == 2
  {
    assert [a][1..] == [];
  }

  /** The clocks of `k` bits of a byte, the lowest first. */
  function ClockByte(n: nat, b: nat, k: nat): nat
    decreases k
  {
    if k == 0 then n else ClockByte(ClockValue(n, b % 2 == 1), b / 2, k - 1)
  }

  function CrcLoop(n: nat, message: seq<byte>): nat
    decreases |message|
  {
    if message == [] then n else CrcLoop(ClockByte(n, message[0], 8), message[1..])
  }

  lemma {:induction false} FeedByteValue(r: Register, b: nat, k: nat)
    ensures FromBits(Feed(r, ToBits(b, k))) == ClockByte(FromBits(r), b, k)
    decreases k
  {
    hide FromBits, Shift;
    if k > 0 {
      ShiftValue(r, b % 2 == 1);
      assert ToBits(b, k)[1..] == ToBits(b / 2, k - 1);
      FeedByteValue(Shift(r, b % 2 == 1), b / 2, k - 1);
    }
  }

  lemma {:induction false} FeedIsLoop(r: Register, message: seq<byte>)
    ensures FromBits(Feed(r, Bits(message))) == CrcLoop(FromBits(r), message)
    decreases |message|
  {
    hide FromBits, Shift, ToBits, ClockByte;
    if message != [] {
      FeedConcat(r, ToBits(message[0], 8), Bits(message[1..]));
      FeedByteValue(r, message[0], 8);
      FeedIsLoop(Feed(r, ToBits(message[0], 8)), message[1..]);
    }
  }

  /** The check value is what the usual bit-by-bit loop computes, started with 0xFFFF. */
  lemma CrcIsLoop(message: seq<byte>)
    ensures CrcOf(message) == CrcLoop(0xFFFF, message)
  {
    hide FromBits, Feed;
    CrcIsRemainder(message);
    FeedIsLoop(PRESET, message);
    PresetValue();
  }

  lemma PresetValue()
    ensures FromBits(PRESET) == 0xFFFF
  {
    hide FromBits;
    Pow2Byte();
    AllOnes(PRESET);
    Pow2Word();
  }

  lemma {:induction false} AllOnes(bits: seq<bool>)
    requires forall i | 0 <= i < |bits| :: bits[i]
    ensures FromBits(bits) == Pow2(|bits|) - 1
    decreases |bits|
  {
    if bits != [] {
      AllOnes(bits[1..]);
    }
  }

  /** One byte of the loop, clock by clock. */
  lemma ByteStep(b: byte, n: nat, n1: nat, n2: nat, n3: nat, n4: nat, n5: nat, n6: nat, n7: nat, n8: nat)
    requires n1 == ClockValue(n, b % 2 == 1) && n2 == ClockValue(n1, b / 2 % 2 == 1)
    requires n3 == ClockValue(n2, b / 4 % 2 == 1) && n4 == ClockValue(n3, b / 8 % 2 == 1)
    requires n5 == ClockValue(n4, b / 16 % 2 == 1) && n6 == ClockValue(n5, b / 32 % 2 == 1)
    requires n7 == ClockValue(n6, b / 64 % 2 == 1) && n8 == ClockValue(n7, b / 128 % 2 == 1)
    ensures ClockByte(n, b, 8) == n8
  {
    hide ClockValue, ClockByte;
    assert b / 16 / 2 == b / 32 && b / 16 / 4 == b / 64 && b / 16 / 8 == b / 128;
    FourClocks(n, b, n1, n2, n3, n4, 8);
    FourClocks(n4, b / 16, n5, n6, n7, n8, 4);
    NoClock(n8, b / 16 / 16);
  }

  /** The values of the register between the bytes of a message. */
  predicate LoopPath(m: seq<byte>, path: seq<nat>) {
    |path| == |m| + 1 && forall i | 0 <= i < |m| :: ClockByte(path[i], m[i], 8) == path[i + 1]
  }

  lemma {:induction false} LoopFollows(m: seq<byte>, path: seq<nat>)
    requires LoopPath(m, path)
    ensures CrcLoop(path[0], m) == path[|m|]
    decreases |m|
  {
    hide ClockByte;
    if m != [] {
      LoopFollows(m[1..], path[1..]);
    }
  }

  lemma NoClock(n: nat, b: nat)
    ensures ClockByte(n, b, 0) == n
  {
  }

  lemma FourClocks(n: nat, b: nat, n1: nat, n2: nat, n3: nat, n4: nat, k: nat)
    requires k >= 4
    requires n1 == ClockValue(n, b % 2 == 1) && n2 == ClockValue(n1, b / 2 % 2 == 1)
    requires n3 == ClockValue(n2, b / 4 % 2 == 1) && n4 == ClockValue(n3, b / 8 % 2 == 1)
    ensures ClockByte(n, b, k) == ClockByte(n4, b / 16, k - 4)
  {
    hide ClockValue;
    assert b / 2 / 2 == b / 4 && b / 4 / 2 == b / 8 && b / 8 / 2 == b / 16;
    assert ClockByte(n, b, k) == ClockByte(n1, b / 2, k - 1);
    assert ClockByte(n1, b / 2, k - 1) == ClockByte(n2, b / 4, k - 2);
    assert ClockByte(n2, b / 4, k - 2) == ClockByte(n3, b / 8, k - 3);
    assert ClockByte(n3, b / 8, k - 3) == ClockByte(n4, b / 16, k - 4);
  }

  lemma DigitClocksFrom1()
    ensures ClockByte(0xFFFF, 0x31, 8) == 0x947E
    ensures ClockByte(0x947E, 0x32, 8) == 0xF595
    ensures ClockByte(0xF595, 0x33, 8) == 0x7A75
  {
    hide ClockByte;
    ByteStep(0x31, 0xFFFF, 0x7FFF, 0x9FFE, 0x4FFF, 0x87FE, 0xE3FE, 0xD1FE, 0x68FF, 0x947E);
    ByteStep(0x32, 0x947E, 0x4A3F, 0x251F, 0xB28E, 0x5947, 0x2CA3, 0x1651, 0xAB29, 0xF595);
    ByteStep(0x33, 0xF595, 0x7ACA, 0x9D64, 0x4EB2, 0x2759, 0x13AC, 0xA9D7, 0xF4EA, 0x7A75);
  }

  lemma DigitClocksFrom4()
    ensures ClockByte(0x7A75, 0x34, 8) == 0x30BA
    ensures ClockByte(0x30BA, 0x35, 8) == 0xA471
    ensures ClockByte(0xA471, 0x36, 8) == 0x32E4
  {
    hide ClockByte;
    ByteStep(0x34, 0x7A75, 0x9D3B, 0xEE9C, 0xD74F, 0xCBA6, 0xC5D2, 0xC2E8, 0x6174, 0x30BA);
    ByteStep(0x35, 0x30BA, 0xB85C, 0x5C2E, 0x8E16, 0x470B, 0x2385, 0x11C2, 0x08E1, 0xA471);
    ByteStep(0x36, 0xA471, 0xF239, 0x791C, 0x9C8F, 0xEE46, 0xD722, 0xCB90, 0x65C8, 0x32E4);
  }

  lemma DigitClocksFrom7()
    ensures ClockByte(0x32E4, 0x37, 8) == 0x9D73
    ensures ClockByte(0x9D73, 0x38, 8) == 0x37DD
    ensures ClockByte(0x37DD, 0x39, 8) == 0x4B37
  {
    hide ClockByte;
    ByteStep(0x37, 0x32E4, 0xB973, 0x5CB9, 0x2E5C, 0x172E, 0xAB96, 0xF5CA, 0x7AE5, 0x9D73);
    ByteStep(0x38, 0x9D73, 0xEEB8, 0x775C, 0x3BAE, 0xBDD6, 0xFEEA, 0xDF74, 0x6FBA, 0x37DD);
    ByteStep(0x39, 0x37DD, 0x1BEE, 0x0DF7, 0xA6FA, 0xF37C, 0xD9BF, 0x6CDF, 0x966E, 0x4B37);
  }

  /** The check value that is published for CRC-16/USB, 0xB4C8 for the digits 1 to 9, complemented
      once more. */
  lemma PublishedCheckValue()
    ensures CrcOf([0x31, 0x32, 0x33, 0x34, 0x35, 0x36, 0x37, 0x38, 0x39]) == 0xFFFF - 0xB4C8
  {
    hide CrcOf, CrcLoop, ClockByte;
    CrcIsLoop([0x31, 0x32, 0x33, 0x34, 0x35, 0x36, 0x37, 0x38, 0x39]);
    DigitClocksFrom1();
    DigitClocksFrom4();
    DigitClocksFrom7();
    LoopFollows([0x31, 0x32, 0x33, 0x34, 0x35, 0x36, 0x37, 0x38, 0x39],
                [0xFFFF, 0x947E, 0xF595, 0x7A75, 0x30BA, 0xA471, 0x32E4, 0x9D73, 0x37DD, 0x4B37]);
  }

  lemma QueryClocksFrom1()
    ensures ClockByte(0xFFFF, 0x5A, 8) == 0x7B3F
    ensures ClockByte(0x7B3F, 0x00, 8) == 0x103B
    ensures ClockByte(0x103B, 0x00, 8) == 0xD351
  {
    hide ClockByte;
    ByteStep(0x5A, 0xFFFF, 0xDFFE, 0xCFFE, 0x67FF, 0x33FF, 0x19FF, 0xACFE, 0xF67E, 0x7B3F);
    ByteStep(0x00, 0x7B3F, 0x9D9E, 0x4ECF, 0x8766, 0x43B3, 0x81D8, 0x40EC, 0x2076, 0x103B);
    ByteStep(0x00, 0x103B, 0xA81C, 0x540E, 0x2A07, 0xB502, 0x5A81, 0x8D41, 0xE6A1, 0xD351);
  }

  lemma QueryClocksFrom4()
    ensures ClockByte(0xD351, 0x01, 8) == 0x3CD3
    ensures ClockByte(0x3CD3, 0x00, 8) == 0x9D7D
    ensures ClockByte(0x9D7D, 0x00, 8) == 0x215D
  {
    hide ClockByte;
    ByteStep(0x01, 0xD351, 0x69A8, 0x34D4, 0x1A6A, 0x0D35, 0xA69B, 0xF34C, 0x79A6, 0x3CD3);
    ByteStep(0x00, 0x3CD3, 0xBE68, 0x5F34, 0x2F9A, 0x17CD, 0xABE7, 0xF5F2, 0x7AF9, 0x9D7D);
    ByteStep(0x00, 0x9D7D, 0xEEBF, 0xD75E, 0x6BAF, 0x95D6, 0x4AEB, 0x8574, 0x42BA, 0x215D);
  }

  /** The check value of the first version query of a client. */
  lemma QueryCheckValue()
    ensures CrcOf([0x5A, 0, 0, 1, 0, 0]) == 0x215D
  {
    hide CrcOf, CrcLoop, ClockByte;
    CrcIsLoop([0x5A, 0, 0, 1, 0, 0]);
    QueryClocksFrom1();
    QueryClocksFrom4();
    LoopFollows([0x5A, 0, 0, 1, 0, 0], [0xFFFF, 0x7B3F, 0x103B, 0xD351, 0x3CD3, 0x9D7D, 0x215D]);
  }

  // ---------------------------------------------------------------- parity

  /** Whether an odd number of the bits is set. */
  function Parity(bits: seq<bool>): bool
    decreases |bits|
  {
    if bits == [] then false else bits[0] != Parity(bits[1..])
  }

  lemma {:induction false} ParityConcat(a: seq<bool>, b: seq<bool>)
    ensures Parity(a + b) == (Parity(a) != Parity(b))
    decreases |a|
  {
    if a == [] {
      assert a + b == b;
    } else {
      assert (a + b)[1..] == a[1..] + b;
      ParityConcat(a[1..], b);
    }
  }

  lemma ParityOne(x: bool)
    ensures Parity([x]) == x
  {
    assert Parity([x]) == (x != Parity([x][1..]));
  }

  lemma ParityThree(x: bool, y: bool, z: bool)
    ensures Parity([x, y, z]) == (x != (y != z))
  {
    assert [x, y, z] == [x] + ([y] + [z]);
    ParityConcat([x], [y] + [z]);
    ParityConcat([y], [z]);
    ParityOne(x);
    ParityOne(y);
    ParityOne(z);
  }

  lemma ParityTwo(x: bool, y: bool)
    ensures Parity([x, y]) == (x != y)
  {
    assert [x, y] == [x] + [y];
    ParityConcat([x], [y]);
    ParityOne(x);
    ParityOne(y);
  }

  /** x + 1 divides the generator: a clock adds the message bit to the register's parity. */
  lemma ShiftParity(r: Register, bit: bool)
    ensures Parity(Shift(r, bit)) == (Parity(r) != bit)
  {
    hide Parity;
    var f, mid := r[0] != bit, r[2..14];
    assert r == [r[0], r[1]] + (mid + [r[14], r[15]]);
    ParityConcat([r[0], r[1]], mid + [r[14], r[15]]);
    ParityConcat(mid, [r[14], r[15]]);
    ParityTwo(r[0], r[1]);
    ParityTwo(r[14], r[15]);
    assert Shift(r, bit) == [r[1] != f] + (mid + [r[14] != f, r[15], f]);
    ParityConcat([r[1] != f], mid + [r[14] != f, r[15], f]);
    ParityConcat(mid, [r[14] != f, r[15], f]);
    ParityOne(r[1] != f);
    ParityThree(r[14] != f, r[15], f);
  }

  lemma {:induction false} FeedParity(r: Register, bits: seq<bool>)
    ensures Parity(Feed(r, bits)) == (Parity(r) != Parity(bits))
    decreases |bits|
  {
    if bits != [] {
      ShiftParity(r, bits[0]);
      FeedParity(Shift(r, bits[0]), bits[1..]);
    }
  }

  lemma PresetParity()
    ensures Parity(PRESET) == false
  {
    var four: seq<bool> := [true] + [true] + ([true] + [true]);
    ParityOne(true);
    ParityConcat([true], [true]);
    ParityConcat([true] + [true], [true] + [true]);
    assert PRESET == (four + four) + (four + four);
    ParityConcat(four + four, four + four);
  }

  // ---------------------------------------------------------------- facts about check values

  /** The big-endian bytes of a register value are the register's two halves. */
  lemma RegisterBytes(r: Register)
    ensures Bits(U16ToBytes(RegisterValue(r))) == r[8..] + r[..8]
  {
    Pow2Byte();
    var lo, hi := FromBits(r[..8]), FromBits(r[8..]);
    assert r == r[..8] + r[8..];
    FromBitsConcat(r[..8], r[8..]);
    assert RegisterValue(r) == lo + 0x100 * hi;
    assert U16ToBytes(RegisterValue(r)) == [hi, lo];
    assert [hi, lo][1..] == [lo];
    assert Bits([hi, lo]) == ToBits(hi, 8) + (ToBits(lo, 8) + Bits([]));
    ToFromBits(r[..8]);
    ToFromBits(r[8..]);
  }

  lemma RegisterValueInjective(r: Register, s: Register)
    requires RegisterValue(r) == RegisterValue(s)
    ensures r == s
  {
    ToFromBits(r);
    ToFromBits(s);
  }

  /** The two complements cancel: the check value is the remainder itself. */
  lemma CrcIsRemainder(message: seq<byte>)
    ensures CrcOf(message) == RegisterValue(Feed(PRESET, Bits(message)))
  {
    var r := Feed(PRESET, Bits(message));
    assert Complement(Complement(r)) == r;
  }

  /** A message followed by its check value always has even parity. */
  lemma CrcParity(message: seq<byte>)
    ensures Parity(Bits(message + U16ToBytes(CrcOf(message)))) == false
  {
    hide CrcOf, RegisterValue, U16ToBytes, ToBits;
    var r := Feed(PRESET, Bits(message));
    CrcIsRemainder(message);
    PresetParity();
    FeedParity(PRESET, Bits(message));
    RegisterBytes(r);
    assert r == r[..8] + r[8..];
    ParityConcat(r[..8], r[8..]);
    ParityConcat(r[8..], r[..8]);
    BitsConcat(message, U16ToBytes(CrcOf(message)));
    ParityConcat(Bits(message), Bits(U16ToBytes(CrcOf(message))));
  }

  /** Messages whose bits differ only inside a window of at most 16 bits have different check
      values. */
  lemma CrcSeesBurst(m: seq<byte>, m': seq<byte>, x: seq<bool>, u: seq<bool>, v: seq<bool>, y: seq<bool>)
    requires |u| == |v| <= 16
    requires u != v
    requires Bits(m) == x + u + y && Bits(m') == x + v + y
    ensures CrcOf(m) != CrcOf(m')
  {
    hide CrcOf, RegisterValue;
    BurstChangesRemainder(PRESET, x, u, v, y);
    CrcIsRemainder(m);
    CrcIsRemainder(m');
    if CrcOf(m) == CrcOf(m') {
      RegisterValueInjective(Feed(PRESET, Bits(m)), Feed(PRESET, Bits(m')));
    }
  }

  // ---------------------------------------------------------------- flipped bits

  /** The number of places in which two bit strings differ. */
  function Flips(a: seq<bool>, b: seq<bool>): nat
    requires |a| == |b|
    decreases |a|
  {
    if a == [] then 0 else (if a[0] != b[0] then 1 else 0) + Flips(a[1..], b[1..])
  }

  lemma {:induction false} FlipsParity(a: seq<bool>, b: seq<bool>)
    requires |a| == |b|
    ensures Flips(a, b) % 2 == 1 <==> Parity(a) != Parity(b)
    decreases |a|
  {
    if a != [] {
      FlipsParity(a[1..], b[1..]);
    }
  }
}
