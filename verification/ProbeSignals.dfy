/** Signals packed seven bits to a byte, read back as hexadecimal digits. */
module ProbeSignals {
  import opened Bytes

  // ---------------------------------------------------------------- unsigned byte operations, bit by bit

  function Zeros(n: nat): (z: seq<bool>)
    ensures |z| == n
  {
    seq(n, _ => false)
  }

  /** An eight-bit value from its bits. */
  function ByteOf(bits: seq<bool>): byte
    requires |bits| == 8
  {
    Pow2Byte();
    FromBits(bits)
  }

  function BitsOf(b: byte): (bits: seq<bool>)
    ensures |bits| == 8
  {
    ToBits(b, 8)
  }

  function ShiftRight(b: byte, k: nat): byte
    requires k <= 8
  {
    ByteOf(BitsOf(b)[k..] + Zeros(k))
  }

  /** Bits shifted out at the top are lost. */
  function ShiftLeft(b: byte, k: nat): byte
    requires k <= 8
  {
    ByteOf(Zeros(k) + BitsOf(b)[..8 - k])
  }

  function Or(a: byte, b: byte): byte {
    ByteOf(seq(8, i requires 0 <= i < 8 => BitsOf(a)[i] || BitsOf(b)[i]))
  }

  function And(a: byte, b: byte): byte {
    ByteOf(seq(8, i requires 0 <= i < 8 => BitsOf(a)[i] && BitsOf(b)[i]))
  }

  lemma BitsOfByte(bits: seq<bool>)
    requires |bits| == 8
    ensures BitsOf(ByteOf(bits)) == bits
  {
    ToFromBits(bits);
  }

  // ---------------------------------------------------------------- the signal buffer

  /** The bits of a row, seven to a byte, least significant first. */
  function RowBits(bytes: seq<byte>): (bits: seq<bool>)
    ensures |bits| == 7 * |bytes|
  {
    if bytes == [] then [] else ToBits(bytes[0], 7) + RowBits(bytes[1..])
  }

  /** The base-128 number the bytes stand for. */
  function RowNumber(bytes: seq<byte>): nat {
    if bytes == [] then 0 else bytes[0] + 0x80 * RowNumber(bytes[1..])
  }

  predicate SevenBit(bytes: seq<byte>) {
    forall i | 0 <= i < |bytes| :: bytes[i] < 0x80
  }

  /** A signal: `width` bits of a row from bit `offset` on. */
  datatype SignalBuffer = SignalBuffer(bytes: seq<byte>, offset: nat, width: nat)

  predicate ValidSignal(s: SignalBuffer) {
    s.width > 0 && s.offset + s.width <= 7 * |s.bytes|
  }

  function SignalBits(s: SignalBuffer): (bits: seq<bool>)
    requires ValidSignal(s)
    ensures |bits| == s.width
  {
    RowBits(s.bytes)[s.offset..s.offset + s.width]
  }

  function Get(s: SignalBuffer, index: nat): bool
    requires ValidSignal(s) && index < s.width
  {
    var byteIndex := (index + s.offset) / 7;
    var bitIndex := (index + s.offset) % 7;
    And(s.bytes[byteIndex], ShiftLeft(1, bitIndex)) != 0
  }

  function GetNibble(s: SignalBuffer, lowerBit: nat): byte
    requires ValidSignal(s) && lowerBit < s.width
  {
    var lower := lowerBit + s.offset;
    var upper := Min(s.width + s.offset - 1, lower + 3);
    var bitCount := upper - lower + 1;
    var mask := Pow2(bitCount) - 1;
    Pow2Small();
    var first, second := lower / 7, upper / 7;
    if first == second then
      And(ShiftRight(s.bytes[first], lower % 7), mask)
    else
      And(Or(ShiftRight(s.bytes[first], lower % 7), ShiftLeft(s.bytes[second], 7 - lower % 7)), mask)
  }

  lemma Pow2Small()
    ensures Pow2(1) == 2 && Pow2(2) == 4 && Pow2(3) == 8 && Pow2(4) == 16 && Pow2(7) == 0x80
  {
    assert Pow2(1) == 2 * Pow2(0);
    assert Pow2(4) == 16;
    assert Pow2(7) == 8 * Pow2(4);
  }

  // ---------------------------------------------------------------- bits of a row

  lemma {:induction false} RowBitAt(bytes: seq<byte>, q: nat, o: nat)
    requires q < |bytes| && o < 7
    ensures 7 * q + o < |RowBits(bytes)|
    ensures RowBits(bytes)[7 * q + o] == ToBits(bytes[q], 7)[o]
  {
    hide ToBits;
    if q > 0 {
      RowBitAt(bytes[1..], q - 1, o);
      assert RowBits(bytes)[7 * q + o] == RowBits(bytes[1..])[7 * (q - 1) + o];
    }
  }

  lemma {:induction false} ToBitsPrefix(n: nat, k: nat, m: nat)
    requires k <= m
    ensures ToBits(n, m)[..k] == ToBits(n, k)
    decreases k
  {
    if k > 0 {
      ToBitsPrefix(n / 2, k - 1, m - 1);
      assert ToBits(n, m)[..k] == [n % 2 == 1] + ToBits(n / 2, m - 1)[..k - 1];
    }
  }

  lemma NextBitClear(n: nat, k: nat)
    requires n < Pow2(k)
    ensures ToBits(n, k + 1) == ToBits(n, k) + [false]
  {
    hide ToBits;
    var bits := ToBits(n, k) + [false];
    FromToBits(n, k);
    FromBitsConcat(ToBits(n, k), [false]);
    assert FromBits([false]) == 0 by { assert [false][1..] == []; }
    ToFromBits(bits);
  }

  /** The top bit of a seven-bit value is clear. */
  lemma TopBitClear(b: byte)
    requires b < 0x80
    ensures BitsOf(b) == ToBits(b, 7) + [false]
  {
    hide ToBits;
    Pow2Small();
    NextBitClear(b, 7);
  }

  /** A mask of `k` ones. */
  lemma {:induction false} MaskBits(k: nat, m: nat, i: nat)
    requires k <= m && i < m
    ensures ToBits(Pow2(k) - 1, m)[i] == (i < k)
    decreases m
  {
    if k == 0 {
      ZeroBits(m, i);
    } else {
      var n := Pow2(k) - 1;
      assert n % 2 == 1 && n / 2 == Pow2(k - 1) - 1;
      assert ToBits(n, m)[0] == true;
      if i > 0 {
        MaskBits(k - 1, m - 1, i - 1);
        assert ToBits(n, m)[i] == ToBits(n / 2, m - 1)[i - 1];
      }
    }
  }

  lemma {:induction false} ZeroBits(m: nat, i: nat)
    requires i < m
    ensures ToBits(0, m)[i] == false
    decreases m
  {
    if i > 0 {
      ZeroBits(m - 1, i - 1);
    }
  }

  lemma MaskByte(count: nat, i: nat)
    requires 1 <= count <= 4 && i < 8
    ensures 0 <= Pow2(count) - 1 < 0x100
    ensures BitsOf(Pow2(count) - 1)[i] == (i < count)
  {
    hide ToBits;
    Pow2Small();
    MaskBits(count, 8, i);
  }

  /** What the nibble operations leave: the first `count` bits, the rest clear. */
  lemma MaskedBits(b: byte, count: nat)
    requires 1 <= count <= 4
    ensures 0 <= Pow2(count) - 1 < 0x100
    ensures And(b, Pow2(count) - 1) == FromBits(BitsOf(b)[..count])
  {
    hide BitsOf, FromBits, Pow2;
    MaskByte(count, 0);
    var bits, mask := BitsOf(b), BitsOf(Pow2(count) - 1);
    var masked := seq(8, i requires 0 <= i < 8 => bits[i] && mask[i]);
    forall i | 0 <= i < 8
      ensures masked[i] == (bits[..count] + Zeros(8 - count))[i]
    {
      MaskByte(count, i);
    }
    assert masked == bits[..count] + Zeros(8 - count);
    FromBitsConcat(bits[..count], Zeros(8 - count));
    FromZeros(8 - count);
  }

  lemma {:induction false} FromZeros(n: nat)
    ensures FromBits(Zeros(n)) == 0
  {
    if n > 0 {
      assert Zeros(n)[1..] == Zeros(n - 1);
      FromZeros(n - 1);
    }
  }

  // ---------------------------------------------------------------- a nibble is four bits of the signal

  lemma ShiftedBit(b: byte, o: nat, i: nat)
    requires b < 0x80 && o + i < 7
    ensures BitsOf(ShiftRight(b, o))[i] == ToBits(b, 7)[o + i]
  {
    hide ToBits, ByteOf;
    BitsOfByte(BitsOf(b)[o..] + Zeros(o));
    TopBitClear(b);
  }

  /** The place of a signal's bit in its row. */
  lemma SignalBitAt(s: SignalBuffer, index: nat, q: nat, o: nat)
    requires ValidSignal(s) && index < s.width
    requires index + s.offset == 7 * q + o && o < 7
    ensures q < |s.bytes| && SignalBits(s)[index] == ToBits(s.bytes[q], 7)[o]
  {
    hide ToBits;
    RowBitAt(s.bytes, q, o);
  }

  lemma NibbleInOneByte(s: SignalBuffer, lowerBit: nat, count: nat)
    requires ValidSignal(s) && SevenBit(s.bytes) && lowerBit < s.width
    requires count == Min(4, s.width - lowerBit)
    requires (lowerBit + s.offset) / 7 == (lowerBit + s.offset + count - 1) / 7
    ensures GetNibble(s, lowerBit) == FromBits(SignalBits(s)[lowerBit..lowerBit + count])
  {
    hide And, ShiftRight, SignalBits, ToBits, BitsOf, FromBits;
    var lower := lowerBit + s.offset;
    var q, o := lower / 7, lower % 7;
    var shifted := ShiftRight(s.bytes[q], o);
    MaskedBits(shifted, count);
    forall i | 0 <= i < count
      ensures BitsOf(shifted)[..count][i] == SignalBits(s)[lowerBit..lowerBit + count][i]
    {
      ShiftedBit(s.bytes[q], o, i);
      SignalBitAt(s, lowerBit + i, q, o + i);
    }
    assert BitsOf(shifted)[..count] == SignalBits(s)[lowerBit..lowerBit + count];
  }

  /** Bit `i` of two neighbouring bytes laid side by side. */
  lemma SideBySide(b: byte, c: byte, o: nat, i: nat)
    requires b < 0x80 && c < 0x80 && o < 7 && i < 4
    ensures BitsOf(Or(ShiftRight(b, o), ShiftLeft(c, 7 - o)))[i] ==
            if o + i < 7 then ToBits(b, 7)[o + i] else ToBits(c, 7)[o + i - 7]
  {
    hide ToBits, ByteOf;
    var low, high := ShiftRight(b, o), ShiftLeft(c, 7 - o);
    BitsOfByte(BitsOf(b)[o..] + Zeros(o));
    BitsOfByte(Zeros(7 - o) + BitsOf(c)[..8 - (7 - o)]);
    BitsOfByte(seq(8, i requires 0 <= i < 8 => BitsOf(low)[i] || BitsOf(high)[i]));
    TopBitClear(b);
    TopBitClear(c);
  }

  lemma NibbleInTwoBytes(s: SignalBuffer, lowerBit: nat, count: nat)
    requires ValidSignal(s) && SevenBit(s.bytes) && lowerBit < s.width
    requires count == Min(4, s.width - lowerBit)
    requires (lowerBit + s.offset) / 7 != (lowerBit + s.offset + count - 1) / 7
    ensures GetNibble(s, lowerBit) == FromBits(SignalBits(s)[lowerBit..lowerBit + count])
  {
    hide And, Or, ShiftRight, ShiftLeft, SignalBits, ToBits, BitsOf, FromBits;
    var lower := lowerBit + s.offset;
    var q, o := lower / 7, lower % 7;
    var both := Or(ShiftRight(s.bytes[q], o), ShiftLeft(s.bytes[q + 1], 7 - o));
    MaskedBits(both, count);
    forall i | 0 <= i < count
      ensures BitsOf(both)[..count][i] == SignalBits(s)[lowerBit..lowerBit + count][i]
    {
      SideBySide(s.bytes[q], s.bytes[q + 1], o, i);
      if o + i < 7 {
        SignalBitAt(s, lowerBit + i, q, o + i);
      } else {
        SignalBitAt(s, lowerBit + i, q + 1, o + i - 7);
      }
    }
    assert BitsOf(both)[..count] == SignalBits(s)[lowerBit..lowerBit + count];
  }

  /** What a nibble holds for any bytes: the bits of the signal, but where it runs across two bytes
      the unused top bit of the first falls on the lowest bit of the second. */
  lemma NibbleOfAnyBytes(s: SignalBuffer, lowerBit: nat, count: nat, i: nat)
    requires ValidSignal(s) && lowerBit < s.width
    requires count == Min(4, s.width - lowerBit) && i < 4
    ensures var q, o := (lowerBit + s.offset) / 7, (lowerBit + s.offset) % 7;
            ToBits(GetNibble(s, lowerBit), 4)[i] ==
            (&& i < count
             && if o + i < 7 then BitsOf(s.bytes[q])[o + i]
                else BitsOf(s.bytes[q + 1])[o + i - 7] || (o + i == 7 && BitsOf(s.bytes[q])[7]))
  {
    hide And, Or, ShiftRight, ShiftLeft, ToBits, FromBits, BitsOf;
    var lower := lowerBit + s.offset;
    var q, o := lower / 7, lower % 7;
    if q == (lower + count - 1) / 7 {
      var b := ShiftRight(s.bytes[q], o);
      assert GetNibble(s, lowerBit) == And(b, Pow2(count) - 1) by { MaskedBits(b, count); }
      MaskedNibble(b, count, i);
      if i < count {
        RightBit(s.bytes[q], o, i);
      }
    } else {
      var b := Or(ShiftRight(s.bytes[q], o), ShiftLeft(s.bytes[q + 1], 7 - o));
      assert GetNibble(s, lowerBit) == And(b, Pow2(count) - 1) by { MaskedBits(b, count); }
      MaskedNibble(b, count, i);
      OredBit(s.bytes[q], s.bytes[q + 1], o, i);
    }
  }

  lemma MaskedNibble(b: byte, count: nat, i: nat)
    requires 1 <= count <= 4 && i < 4
    ensures 0 <= Pow2(count) - 1 < 0x100
    ensures ToBits(And(b, Pow2(count) - 1), 4)[i] == (i < count && BitsOf(b)[i])
  {
    hide And, ToBits, FromBits, BitsOf, Pow2;
    MaskedBits(b, count);
    PaddedBits(BitsOf(b)[..count], 4);
  }

  lemma RightBit(b: byte, o: nat, i: nat)
    requires o < 7 && i < 4
    ensures BitsOf(ShiftRight(b, o))[i] == (o + i < 8 && BitsOf(b)[o + i])
  {
    hide ToBits, ByteOf;
    BitsOfByte(BitsOf(b)[o..] + Zeros(o));
  }

  lemma OredBit(b: byte, c: byte, o: nat, i: nat)
    requires o < 7 && i < 4
    ensures BitsOf(Or(ShiftRight(b, o), ShiftLeft(c, 7 - o)))[i] ==
            ((o + i < 8 && BitsOf(b)[o + i]) || (o + i >= 7 && BitsOf(c)[o + i - 7]))
  {
    hide ToBits, ByteOf;
    var low, high := ShiftRight(b, o), ShiftLeft(c, 7 - o);
    RightBit(b, o, i);
    BitsOfByte(Zeros(7 - o) + BitsOf(c)[..8 - (7 - o)]);
    BitsOfByte(seq(8, k requires 0 <= k < 8 => BitsOf(low)[k] || BitsOf(high)[k]));
  }

  /** A nibble is the value of the next four bits of the signal, or of as many as are left, also
      where it runs across two bytes. */
  lemma NibbleIsSignalBits(s: SignalBuffer, lowerBit: nat, count: nat)
    requires ValidSignal(s) && SevenBit(s.bytes) && lowerBit < s.width
    requires count == Min(4, s.width - lowerBit)
    ensures GetNibble(s, lowerBit) == FromBits(SignalBits(s)[lowerBit..lowerBit + count])
    ensures GetNibble(s, lowerBit) < 16
  {
    hide GetNibble, SignalBits;
    if (lowerBit + s.offset) / 7 == (lowerBit + s.offset + count - 1) / 7 {
      NibbleInOneByte(s, lowerBit, count);
    } else {
      NibbleInTwoBytes(s, lowerBit, count);
    }
    Pow2Small();
  }

  // ---------------------------------------------------------------- single bits

  lemma {:induction false} SomeBitSet(bits: seq<bool>, k: nat)
    requires k < |bits| && forall i | 0 <= i < |bits| :: i != k ==> !bits[i]
    ensures FromBits(bits) != 0 <==> bits[k]
    decreases |bits|
  {
    if k > 0 {
      SomeBitSet(bits[1..], k - 1);
    } else {
      assert bits[1..] == Zeros(|bits| - 1);
      FromZeros(|bits| - 1);
    }
  }

  lemma OneBits()
    ensures BitsOf(1) == [true] + Zeros(7)
  {
    hide ToBits;
    var bits := [true] + Zeros(7);
    FromZeros(7);
    assert bits[1..] == Zeros(7);
    assert FromBits(bits) == 1;
    ToFromBits(bits);
  }

  lemma TestedBit(b: byte, k: nat)
    requires k < 7
    ensures And(b, ShiftLeft(1, k)) != 0 <==> BitsOf(b)[k]
  {
    hide ToBits;
    OneBits();
    BitsOfByte(Zeros(k) + BitsOf(1)[..8 - k]);
    var mask := ShiftLeft(1, k);
    assert forall i | 0 <= i < 8 :: BitsOf(mask)[i] == (i == k);
    SomeBitSet(seq(8, i requires 0 <= i < 8 => BitsOf(b)[i] && BitsOf(mask)[i]), k);
  }

  /** The single-bit reader gives the signal's bit, whatever the top bits of the bytes. */
  lemma BitIsSignalBit(s: SignalBuffer, index: nat)
    requires ValidSignal(s) && index < s.width
    ensures Get(s, index) == SignalBits(s)[index]
  {
    hide And, ShiftLeft, SignalBits, ToBits;
    var at := index + s.offset;
    var b := s.bytes[at / 7];
    TestedBit(b, at % 7);
    ToBitsPrefix(b, 7, 8);
    SignalBitAt(s, index, at / 7, at % 7);
  }

  /** The single-bit reader and the nibble reader agree bit by bit. */
  lemma NibbleAgreesWithGet(s: SignalBuffer, lowerBit: nat, i: nat)
    requires ValidSignal(s) && SevenBit(s.bytes) && lowerBit + i < s.width && i < 4
    ensures Get(s, lowerBit + i) == ToBits(GetNibble(s, lowerBit), 4)[i]
  {
    hide Get, GetNibble, SignalBits, ToBits, FromBits, SevenBit;
    var count := Min(4, s.width - lowerBit);
    BitIsSignalBit(s, lowerBit + i);
    NibbleIsSignalBits(s, lowerBit, count);
    var bits := SignalBits(s)[lowerBit..lowerBit + count];
    PaddedBits(bits, 4);
    assert (bits + Zeros(4 - count))[i] == bits[i];
  }

  lemma PaddedBits(bits: seq<bool>, k: nat)
    requires |bits| <= k
    ensures ToBits(FromBits(bits), k) == bits + Zeros(k - |bits|)
  {
    hide ToBits, FromBits, Pow2;
    var zeros := Zeros(k - |bits|);
    FromBitsConcat(bits, zeros);
    FromZeros(k - |bits|);
    TimesZero(Pow2(|bits|));
    ToFromBits(bits + zeros);
  }

  lemma TimesZero(p: nat)
    ensures p * 0 == 0
  {
  }

  // ---------------------------------------------------------------- the number a signal stands for

  lemma {:induction false} RowBitsNumber(bytes: seq<byte>)
    requires SevenBit(bytes)
    ensures FromBits(RowBits(bytes)) == RowNumber(bytes)
  {
    hide ToBits;
    if bytes == [] {
    } else {
      Pow2Small();
      RowBitsNumber(bytes[1..]);
      FromToBits(bytes[0], 7);
      FromBitsConcat(ToBits(bytes[0], 7), RowBits(bytes[1..]));
    }
  }

  lemma MiddlePart(low: nat, p: nat, mid: nat, q: nat, high: nat)
    requires low < p && mid < q
    ensures (low + p * (mid + q * high)) / p % q == mid
  {
    QuotientOf(low, p, mid + q * high);
    QuotientOf(mid, q, high);
  }

  /** `width` bits of a number from bit `offset` on. */
  function Field(number: nat, offset: nat, width: nat): nat {
    number / Pow2(offset) % Pow2(width)
  }

  lemma ThreeParts(low: seq<bool>, mid: seq<bool>, high: seq<bool>)
    ensures Field(FromBits(low + (mid + high)), |low|, |mid|) == FromBits(mid)
  {
    hide Pow2, FromBits;
    FromBitsConcat(low, mid + high);
    FromBitsConcat(mid, high);
    MiddlePart(FromBits(low), Pow2(|low|), FromBits(mid), Pow2(|mid|), FromBits(high));
  }

  /** The value of a slice of bits is a field of the whole number. */
  lemma SliceValue(bits: seq<bool>, i: nat, n: nat)
    requires i + n <= |bits|
    ensures FromBits(bits[i..i + n]) == Field(FromBits(bits), i, n)
  {
    hide Pow2, FromBits, Field;
    ThreeParts(bits[..i], bits[i..i + n], bits[i + n..]);
    assert bits == bits[..i] + (bits[i..i + n] + bits[i + n..]);
  }

  /** A signal's value: the base-128 number of its row, divided by 2^offset, modulo 2^width. */
  lemma SignalValue(s: SignalBuffer)
    requires ValidSignal(s) && SevenBit(s.bytes)
    ensures FromBits(SignalBits(s)) == Field(RowNumber(s.bytes), s.offset, s.width)
  {
    hide RowBits, RowNumber, FromBits, Field;
    SliceValue(RowBits(s.bytes), s.offset, s.width);
    RowBitsNumber(s.bytes);
  }

  // ---------------------------------------------------------------- hexadecimal output

  const HEX := "0123456789abcdef"

  function HexDigit(n: nat): char
    requires n < 16
  {
    HEX[n]
  }

  /** The digits are the decimal ones and then the small letters. */
  lemma DigitsAre(n: nat)
    requires n < 16
    ensures HexDigit(n) as int == if n < 10 then '0' as int + n else 'a' as int + (n - 10)
  {
  }

  /** The value of a digit; 16 for anything else. */
  function DigitValue(c: char): nat {
    if '0' <= c <= '9' then c as int - '0' as int
    else if 'a' <= c <= 'f' then c as int - 'a' as int + 10
    else 16
  }

  lemma DigitRoundTrip(n: nat)
    requires n < 16
    ensures DigitValue(HexDigit(n)) == n
  {
  }

  /** The number a string of hexadecimal digits denotes, the most significant digit first. */
  function HexValue(h: string): nat {
    if h == "" then 0 else DigitValue(h[0]) * Pow2(4 * (|h| - 1)) + HexValue(h[1..])
  }

  function NumberOfNibbles(width: nat): nat {
    (width + 3) / 4
  }

  lemma NibbleIsSmall(s: SignalBuffer, lowerBit: nat)
    requires ValidSignal(s) && lowerBit < s.width
    ensures GetNibble(s, lowerBit) < 16
  {
    hide And, Or, ShiftRight, ShiftLeft, FromBits, BitsOf;
    var lower := lowerBit + s.offset;
    var count := Min(s.width + s.offset - 1, lower + 3) - lower + 1;
    var b := if lower / 7 == (lower + count - 1) / 7 then ShiftRight(s.bytes[lower / 7], lower % 7)
             else Or(ShiftRight(s.bytes[lower / 7], lower % 7),
                     ShiftLeft(s.bytes[(lower + count - 1) / 7], 7 - lower % 7));
    MaskedBits(b, count);
    Pow2Small();
  }

  /** The digits of the `n` lowest nibbles, the highest first. */
  function HexDigits(s: SignalBuffer, n: nat): (h: string)
    requires ValidSignal(s) && n <= NumberOfNibbles(s.width)
    ensures |h| == n
    decreases n
  {
    if n == 0 then ""
    else
      var lower := (n - 1) * 4;
      NibbleIsSmall(s, lower);
      [HexDigit(GetNibble(s, lower))] + HexDigits(s, n - 1)
  }

  /** Digit `j` is that of nibble `n - 1 - j`, whatever the bytes. */
  lemma {:induction false} DigitIsNibble(s: SignalBuffer, n: nat, j: nat)
    requires ValidSignal(s) && j < n <= NumberOfNibbles(s.width)
    ensures GetNibble(s, 4 * (n - 1 - j)) < 16
    ensures HexDigits(s, n)[j] == HexDigit(GetNibble(s, 4 * (n - 1 - j)))
    decreases n
  {
    hide GetNibble, HexDigit;
    NibbleIsSmall(s, 4 * (n - 1 - j));
    if j > 0 {
      DigitIsNibble(s, n - 1, j - 1);
    }
  }

  /** Formats a signal nibble by nibble, from the most significant one down. */
  method FormatHex(s: SignalBuffer) returns (h: string)
    requires ValidSignal(s)
    ensures h == HexDigits(s, NumberOfNibbles(s.width))
  {
    hide GetNibble, HexDigit;
    h := "";
    var i: nat := NumberOfNibbles(s.width);
    while i > 0
      invariant i <= NumberOfNibbles(s.width)
      invariant h + HexDigits(s, i) == HexDigits(s, NumberOfNibbles(s.width))
    {
      i := i - 1;
      NibbleIsSmall(s, i * 4);
      var nibble := GetNibble(s, i * 4);
      assert h + ([HexDigit(nibble)] + HexDigits(s, i)) == h + [HexDigit(nibble)] + HexDigits(s, i);
      h := h + [HexDigit(nibble)];
    }
    assert h + "" == h;
  }

  lemma HexValueStep(d: char, rest: string)
    ensures HexValue([d] + rest) == DigitValue(d) * Pow2(4 * |rest|) + HexValue(rest)
  {
    assert ([d] + rest)[1..] == rest;
  }

  lemma DigitsStep(s: SignalBuffer, n: nat, lower: nat, count: nat)
    requires ValidSignal(s) && SevenBit(s.bytes) && 0 < n <= NumberOfNibbles(s.width)
    requires lower == 4 * (n - 1) < s.width && count == Min(4, s.width - lower)
    requires HexValue(HexDigits(s, n - 1)) == FromBits(SignalBits(s)[..lower])
    ensures HexValue(HexDigits(s, n)) == FromBits(SignalBits(s)[..lower + count])
  {
    hide GetNibble, HexDigit, SignalBits, FromBits, DigitValue, HexValue, Pow2, SevenBit;
    var bits, nibble := SignalBits(s), GetNibble(s, lower);
    NibbleIsSignalBits(s, lower, count);
    DigitRoundTrip(nibble);
    HexValueStep(HexDigit(nibble), HexDigits(s, n - 1));
    FromBitsConcat(bits[..lower], bits[lower..lower + count]);
    assert bits[..lower] + bits[lower..lower + count] == bits[..lower + count];
  }

  lemma {:induction false} DigitsValue(s: SignalBuffer, n: nat)
    requires ValidSignal(s) && SevenBit(s.bytes) && n <= NumberOfNibbles(s.width)
    ensures HexValue(HexDigits(s, n)) == FromBits(SignalBits(s)[..Min(4 * n, s.width)])
    decreases n
  {
    hide SignalBits, FromBits, HexValue, SevenBit, HexDigits;
    if n == 0 {
      DigitsNone(s);
    } else {
      DigitsValue(s, n - 1);
      DigitsStep(s, n, 4 * (n - 1), Min(4, s.width - 4 * (n - 1)));
    }
  }

  lemma DigitsNone(s: SignalBuffer)
    requires ValidSignal(s)
    ensures HexValue(HexDigits(s, 0)) == 0 == FromBits(SignalBits(s)[..0])
  {
    hide SignalBits, FromBits, GetNibble;
    assert SignalBits(s)[..0] == Zeros(0);
    FromZeros(0);
  }

  /** The printed digits: as many as the width needs, denoting exactly the signal's value. */
  lemma PrintedValue(s: SignalBuffer)
    requires ValidSignal(s) && SevenBit(s.bytes)
    ensures var h := HexDigits(s, NumberOfNibbles(s.width));
            && |h| == (s.width + 3) / 4
            && HexValue(h) == Field(RowNumber(s.bytes), s.offset, s.width)
  {
    hide HexDigits, SignalBits, RowNumber, HexValue, Field;
    DigitsValue(s, NumberOfNibbles(s.width));
    assert SignalBits(s)[..s.width] == SignalBits(s);
    SignalValue(s);
  }
}
