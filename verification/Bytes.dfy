/** Bytes, big-endian integers and the bits of a byte. */
module Bytes {
  type byte = x: int | 0 <= x < 0x100
  type u16 = x: int | 0 <= x < 0x1_0000
  type u32 = x: int | 0 <= x < 0x1_0000_0000

  datatype Option<+T> = None | Some(value: T)

  datatype Result<+T, +E> = Ok(value: T) | Err(error: E)

  function U16ToBytes(n: u16): (b: seq<byte>)
    ensures |b| == 2
  {
    [n / 0x100, n % 0x100]
  }

  function U16FromBytes(b: seq<byte>): u16
    requires |b| == 2
  {
    (b[0] as int) * 0x100 + b[1]
  }

  function U32ToBytes(n: u32): (b: seq<byte>)
    ensures |b| == 4
  {
    [n / 0x100_0000, n / 0x1_0000 % 0x100, n / 0x100 % 0x100, n % 0x100]
  }

  function U32FromBytes(b: seq<byte>): u32
    requires |b| == 4
  {
    (b[0] as int) * 0x100_0000 + (b[1] as int) * 0x1_0000 + (b[2] as int) * 0x100 + b[3]
  }

  /** Numbers by the places of their bytes, the most significant first. */
  function Two(high: int, low: int): int {
    high * 0x100 + low
  }

  function Four(a: int, b: int, c: int, d: int): int {
    a * 0x100_0000 + b * 0x1_0000 + c * 0x100 + d
  }

  lemma U16Layout(n: u16)
    ensures Two(U16ToBytes(n)[0], U16ToBytes(n)[1]) == n
  {
  }

  lemma U16Read(b: seq<byte>)
    requires |b| == 2
    ensures U16FromBytes(b) == Two(b[0], b[1])
  {
  }

  lemma U32Layout(n: u32)
    ensures var b := U32ToBytes(n);
            Four(b[0], b[1], b[2], b[3]) == n
  {
    U32RoundTrip(n);
  }

  lemma U16RoundTrip(n: u16, b: seq<byte>)
    requires |b| == 2
    ensures U16FromBytes(U16ToBytes(n)) == n
    ensures U16ToBytes(U16FromBytes(b)) == b
  {
  }

  lemma U32RoundTrip(n: u32)
    ensures U32FromBytes(U32ToBytes(n)) == n
  {
    assert n / 0x100 / 0x100 == n / 0x1_0000;
    assert n / 0x1_0000 / 0x100 == n / 0x100_0000;
  }

  function Pow2(k: nat): (p: nat)
    ensures p > 0
  {
    if k == 0 then 1 else 2 * Pow2(k - 1)
  }

  /** The low `k` bits of `n`, least significant first. */
  function ToBits(n: nat, k: nat): (bits: seq<bool>)
    ensures |bits| == k
    decreases k
  {
    if k == 0 then [] else [n % 2 == 1] + ToBits(n / 2, k - 1)
  }

  function FromBits(bits: seq<bool>): (n: nat)
    ensures n < Pow2(|bits|)
    decreases |bits|
  {
    if bits == [] then 0 else (if bits[0] then 1 else 0) + 2 * FromBits(bits[1..])
  }

  /** Bit `i` of a number is its digit of weight 2^i. */
  lemma {:induction false} BitAt(n: nat, k: nat, i: nat)
    requires i < k
    ensures ToBits(n, k)[i] == (n / Pow2(i) % 2 == 1)
    decreases k
  {
    if i > 0 {
      BitAt(n / 2, k - 1, i - 1);
      HalfQuotient(n, Pow2(i - 1));
      assert ToBits(n, k)[i] == ToBits(n / 2, k - 1)[i - 1];
    }
  }

  lemma HalfQuotient(n: nat, p: nat)
    requires p > 0
    ensures n / (2 * p) == n / 2 / p
  {
    var q, r, b := n / 2 / p, n / 2 % p, n % 2;
    assert n / 2 == p * q + r;
    assert n == (2 * r + b) + 2 * (p * q);
    assert 2 * (p * q) == (2 * p) * q;
    QuotientOf(2 * r + b, 2 * p, q);
  }

  lemma {:induction false} FromToBits(n: nat, k: nat)
    requires n < Pow2(k)
    ensures FromBits(ToBits(n, k)) == n
    decreases k
  {
    if k > 0 {
      FromToBits(n / 2, k - 1);
      assert ToBits(n, k)[1..] == ToBits(n / 2, k - 1);
    }
  }

  lemma {:induction false} ToFromBits(bits: seq<bool>)
    ensures ToBits(FromBits(bits), |bits|) == bits
    decreases |bits|
  {
    if bits != [] {
      ToFromBits(bits[1..]);
      var n := FromBits(bits);
      assert n % 2 == (if bits[0] then 1 else 0) && n / 2 == FromBits(bits[1..]);
      assert bits == [bits[0]] + bits[1..];
    }
  }

  lemma {:induction false} FromBitsConcat(a: seq<bool>, b: seq<bool>)
    ensures FromBits(a + b) == FromBits(a) + Pow2(|a|) * FromBits(b)
    decreases |a|
  {
    if a == [] {
      assert a + b == b;
    } else {
      var rest, n := a[1..], FromBits(b);
      FromBitsConcat(rest, b);
      assert (a + b)[1..] == rest + b;
      DoubleProduct(FromBits(rest), Pow2(|rest|), n);
    }
  }

  lemma DoubleProduct(m: int, p: int, n: int)
    ensures 2 * (m + p * n) == 2 * m + (2 * p) * n
  {
  }

  lemma Pow2Byte()
    ensures Pow2(8) == 0x100
  {
    assert Pow2(4) == 16;
    assert Pow2(8) == 16 * Pow2(4);
  }

  /** The bits of a byte string in the order in which they enter a shift register. */
  function Bits(s: seq<byte>): (bits: seq<bool>)
    ensures |bits| == 8 * |s|
  {
    if s == [] then [] else ToBits(s[0], 8) + Bits(s[1..])
  }

  lemma {:induction false} BitsConcat(a: seq<byte>, b: seq<byte>)
    ensures Bits(a + b) == Bits(a) + Bits(b)
  {
    if a == [] {
      assert a + b == b;
    } else {
      assert (a + b)[1..] == a[1..] + b;
      BitsConcat(a[1..], b);
    }
  }

  lemma SliceJoin<T>(s: seq<T>, i: nat, j: nat, n: nat)
    requires i <= j && j + n <= |s|
    ensures s[i..j + n] == s[i..j] + s[j..][..n]
  {
  }

  lemma Associate<T>(a: seq<T>, b: seq<T>, c: seq<T>)
    ensures (a + b) + c == a + (b + c)
  {
  }

  lemma SliceOfSlice<T>(s: seq<T>, i: nat, n: nat, j: nat)
    requires i + n <= j <= |s|
    ensures s[i..j][..n] == s[i..i + n]
    ensures s[i..j][n..] == s[i + n..j]
  {
  }

  // ---------------------------------------------------------------- arithmetic

  function Min(a: nat, b: nat): nat {
    if a < b then a else b
  }

  lemma SmallMultiple(d: int, p: int)
    requires -p < d * p < p
    ensures d == 0
  {
  }

  /** Quotient and remainder are the only ones. */
  lemma QuotientOf(a: nat, p: nat, x: nat)
    requires a < p
    ensures (a + p * x) / p == x && (a + p * x) % p == a
  {
    var n := a + p * x;
    var q, r := n / p, n % p;
    assert n == p * q + r;
    assert (q - x) * p == a - r;
    SmallMultiple(q - x, p);
  }

  lemma ScaleMonotone(a: nat, b: nat, d: nat)
    requires a <= b
    ensures a * d <= b * d
  {
  }
}
