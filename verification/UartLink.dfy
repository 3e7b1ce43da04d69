/** The UART transmitter, and a transmitter wired to a receiver. */
module UartLink {
  import opened Bytes
  import opened Uart
  import opened UartLine

  datatype TxRegs = TxRegs(rateCounter: nat, bitCounter: nat, bits: seq<bool>)

  predicate ValidTx(c: Config, r: TxRegs) {
    && ValidConfig(c)
    && |r.bits| == c.numberOfBits + 2
    && r.rateCounter < c.baudDivider
    && r.bitCounter <= c.numberOfBits + 2
  }

  predicate TxReset(c: Config, r: TxRegs) {
    ValidTx(c, r) && r.bitCounter == 0
  }

  /** The width of a counter that is to hold the values below `k`. */
  function Log2Ceil(k: nat): (w: nat)
    requires k > 0
    ensures k <= Pow2(w)
    ensures w > 0 ==> Pow2(w - 1) < k
  {
    if k == 1 then 0 else 1 + Log2Ceil((k + 1) / 2)
  }

  /** What the bit counter holds after a load: it is as wide as it takes to count below
      `numberOfBits + 2`, so that value itself is cut off when it is a power of two. */
  function LoadedCount(c: Config): (n: nat)
    ensures n <= c.numberOfBits + 2
  {
    CutOff(c.numberOfBits + 2, Pow2(Log2Ceil(c.numberOfBits + 2)));
    (c.numberOfBits + 2) % Pow2(Log2Ceil(c.numberOfBits + 2))
  }

  /** The bit counter holds the number of bits of a frame. */
  predicate CounterFits(c: Config) {
    c.numberOfBits + 2 != Pow2(Log2Ceil(c.numberOfBits + 2))
  }

  lemma LoadedCountIs(c: Config)
    ensures LoadedCount(c) == if CounterFits(c) then c.numberOfBits + 2 else 0
  {
    hide Log2Ceil, Pow2;
    CutOff(c.numberOfBits + 2, Pow2(Log2Ceil(c.numberOfBits + 2)));
  }

  lemma CutOff(n: nat, p: nat)
    requires 0 < n <= p
    ensures n % p == if n < p then n else 0
  {
    if n < p {
      QuotientOf(n, p, 0);
    } else {
      QuotientOf(0, p, 1);
    }
  }

  /** Frames of eight data bits, as at the CPU and at the probe, are counted. */
  lemma EightBitsFit(c: Config)
    requires c.numberOfBits == 8
    ensures CounterFits(c)
  {
    assert Log2Ceil(10) == 4;
    assert Pow2(4) == 16;
  }

  /** Frames of six data bits are not. */
  lemma SixBitsDoNotFit(c: Config)
    requires c.numberOfBits == 6
    ensures !CounterFits(c) && LoadedCount(c) == 0
  {
    assert Log2Ceil(8) == 3;
    assert Pow2(3) == 8;
    LoadedCountIs(c);
  }

  /** Start bit, data bits with the least significant first, stop bit. */
  function FrameBits(c: Config, value: nat): (b: seq<bool>)
    ensures |b| == c.numberOfBits + 2
  {
    [false] + ToBits(value, c.numberOfBits) + [true]
  }

  /** Between start and stop bit the frame holds the value's binary digits, the lowest first. */
  lemma FrameBitIsDigit(c: Config, value: nat, k: nat)
    requires k < c.numberOfBits
    ensures FrameBits(c, value)[k + 1] == (value / Pow2(k) % 2 == 1)
    ensures !FrameBits(c, value)[0] && FrameBits(c, value)[c.numberOfBits + 1]
  {
    hide ToBits;
    BitAt(value, c.numberOfBits, k);
  }

  predicate TxOut(c: Config, r: TxRegs)
    requires ValidTx(c, r)
  {
    r.bitCounter == 0 || r.bits[0]
  }

  /** One clock edge, with a value on offer or none. */
  function TxStep(c: Config, r: TxRegs, offer: Option<nat>): (n: TxRegs)
    requires ValidTx(c, r)
    ensures ValidTx(c, n)
  {
    if r.bitCounter == 0 then
      match offer
      case None => r
      case Some(value) => TxRegs(c.baudDivider - 1, LoadedCount(c), FrameBits(c, value))
    else if r.rateCounter == 0 then
      TxRegs(c.baudDivider - 1, r.bitCounter - 1, r.bits[1..] + [r.bits[|r.bits| - 1]])
    else r.(rateCounter := r.rateCounter - 1)
  }

  class UartTx {
    const config: Config
    var rateCounter: nat
    var bitCounter: nat
    var bits: seq<bool>

    ghost function Value(): TxRegs
      reads this
    {
      TxRegs(rateCounter, bitCounter, bits)
    }

    constructor (config: Config, bits: seq<bool>)
      requires ValidConfig(config) && |bits| == config.numberOfBits + 2
      ensures this.config == config && TxReset(config, Value())
    {
      this.config := config;
      rateCounter, bitCounter := 0, 0;
      this.bits := bits;
    }

    /** The output level during a clock, and the clock edge that ends it. */
    method Clock(offer: Option<nat>) returns (tx: bool)
      requires ValidTx(config, Value())
      modifies this
      ensures ValidTx(config, Value())
      ensures tx == TxOut(config, old(Value()))
      ensures Value() == TxStep(config, old(Value()), offer)
    {
      tx := bitCounter == 0 || bits[0];
      var busy := bitCounter > 0;
      if !busy && offer.Some? {
        bits := [false] + ToBits(offer.value, config.numberOfBits) + [true];
        bitCounter := LoadedCount(config);
        rateCounter := config.baudDivider - 1;
      }
      if busy {
        if rateCounter == 0 {
          bits := bits[1..] + [bits[|bits| - 1]];
          bitCounter := bitCounter - 1;
          rateCounter := config.baudDivider - 1;
        } else {
          rateCounter := rateCounter - 1;
        }
      }
    }
  }

  // ---------------------------------------------------------------- a run of the transmitter

  datatype TxWorld = TxWorld(c: Config, reset: TxRegs, offer: nat -> Option<nat>)

  predicate ValidTxWorld(x: TxWorld) {
    TxReset(x.c, x.reset)
  }

  function TxAt(x: TxWorld, t: nat): (r: TxRegs)
    requires ValidTxWorld(x)
    ensures ValidTx(x.c, r)
    decreases t
  {
    if t == 0 then x.reset else TxStep(x.c, TxAt(x, t - 1), x.offer(t - 1))
  }

  predicate Ready(x: TxWorld, t: nat)
    requires ValidTxWorld(x)
  {
    TxAt(x, t).bitCounter == 0
  }

  predicate Loads(x: TxWorld, t: nat)
    requires ValidTxWorld(x)
  {
    Ready(x, t) && x.offer(t).Some?
  }

  /** The values taken before clock `t`, in order. */
  function Loaded(x: TxWorld, t: nat): seq<nat>
    requires ValidTxWorld(x)
    decreases t
  {
    if t == 0 then []
    else if Loads(x, t - 1) then Loaded(x, t - 1) + [x.offer(t - 1).value]
    else Loaded(x, t - 1)
  }

  lemma TxNext(x: TxWorld, t: nat)
    requires ValidTxWorld(x)
    ensures TxAt(x, t + 1) == TxStep(x.c, TxAt(x, t), x.offer(t))
    ensures Loaded(x, t + 1) == if Loads(x, t) then Loaded(x, t) + [x.offer(t).value] else Loaded(x, t)
  {
  }

  /** The registers during clock `m` of bit `q` of a frame carrying `value`. */
  predicate InBit(c: Config, r: TxRegs, value: nat, q: nat, m: nat)
    requires ValidTx(c, r) && q < c.numberOfBits + 2
  {
    && m < c.baudDivider
    && r.rateCounter == c.baudDivider - 1 - m
    && r.bitCounter == c.numberOfBits + 2 - q
    && r.bits[..c.numberOfBits + 2 - q] == FrameBits(c, value)[q..]
  }

  lemma WithinBit(c: Config, r: TxRegs, offer: Option<nat>, value: nat, q: nat, m: nat)
    requires ValidTx(c, r) && q < c.numberOfBits + 2 && m + 1 < c.baudDivider
    requires InBit(c, r, value, q, m)
    ensures InBit(c, TxStep(c, r, offer), value, q, m + 1)
  {
  }

  lemma NextBit(c: Config, r: TxRegs, offer: Option<nat>, value: nat, q: nat)
    requires ValidTx(c, r) && q < c.numberOfBits + 2
    requires InBit(c, r, value, q, c.baudDivider - 1)
    ensures if q + 1 < c.numberOfBits + 2 then InBit(c, TxStep(c, r, offer), value, q + 1, 0)
            else TxStep(c, r, offer).bitCounter == 0
  {
    hide FrameBits;
    var n, k := TxStep(c, r, offer), c.numberOfBits + 2 - q;
    if k > 1 {
      assert n.bits[..k - 1] == r.bits[..k][1..];
      assert FrameBits(c, value)[q..][1..] == FrameBits(c, value)[q + 1..];
    }
  }

  /** A loaded frame holds each of its bits for exactly one bit time; nothing is loaded
      meanwhile. */
  lemma {:induction false} HoldsEachBit(x: TxWorld, t: nat, q: nat, m: nat)
    requires ValidTxWorld(x) && CounterFits(x.c) && Loads(x, t)
    requires q < x.c.numberOfBits + 2 && m < x.c.baudDivider
    ensures t + 1 + q * x.c.baudDivider + m >= 0
    ensures InBit(x.c, TxAt(x, t + 1 + q * x.c.baudDivider + m), x.offer(t).value, q, m)
    ensures Loaded(x, t + 1 + q * x.c.baudDivider + m) == Loaded(x, t) + [x.offer(t).value]
    decreases q, m
  {
    hide TxAt, Loaded, FrameBits, ValidTx;
    var d, v := x.c.baudDivider, x.offer(t).value;
    assert q * d >= 0;
    if m > 0 {
      var u := t + 1 + q * d + (m - 1);
      HoldsEachBit(x, t, q, m - 1);
      TxNext(x, u);
      WithinBit(x.c, TxAt(x, u), x.offer(u), v, q, m - 1);
    } else if q > 0 {
      HoldsEachBit(x, t, q - 1, d - 1);
      BitTimes(q, d);
      var u := t + 1 + (q - 1) * d + (d - 1);
      TxNext(x, u);
      NextBit(x.c, TxAt(x, u), x.offer(u), v, q - 1);
    } else {
      assert 0 * d == 0;
      TxNext(x, t);
      LoadedCountIs(x.c);
      assert FrameBits(x.c, v)[0..] == FrameBits(x.c, v);
    }
  }

  function FrameClocks(c: Config): nat {
    (c.numberOfBits + 2) * c.baudDivider
  }

  /** After its last bit the transmitter is ready again, and the load counted once. */
  lemma ReadyAfterFrame(x: TxWorld, t: nat)
    requires ValidTxWorld(x) && CounterFits(x.c) && Loads(x, t)
    ensures Ready(x, t + 1 + FrameClocks(x.c))
    ensures Loaded(x, t + 1 + FrameClocks(x.c)) == Loaded(x, t) + [x.offer(t).value]
  {
    hide TxAt, Loaded, FrameBits;
    var q, d := x.c.numberOfBits + 1, x.c.baudDivider;
    HoldsEachBit(x, t, q, d - 1);
    BitTimes(q + 1, d);
    var u := t + 1 + q * d + (d - 1);
    TxNext(x, u);
    NextBit(x.c, TxAt(x, u), x.offer(u), x.offer(t).value, q);
  }

  lemma BusyDuringFrame(x: TxWorld, t: nat, u: nat)
    requires ValidTxWorld(x) && CounterFits(x.c) && Loads(x, t)
    requires t < u <= t + FrameClocks(x.c)
    ensures !Ready(x, u)
    ensures TxOut(x.c, TxAt(x, u)) == FrameBits(x.c, x.offer(t).value)[BitOf(x.c, u - t - 1)]
  {
    hide TxAt, FrameBits;
    var i, d := u - t - 1, x.c.baudDivider;
    var q, m := i / d, i % d;
    BitOfClock(x.c, i);
    HoldsEachBit(x, t, q, m);
    var r := TxAt(x, u);
    assert r.bits[..x.c.numberOfBits + 2 - q][0] == FrameBits(x.c, x.offer(t).value)[q..][0];
  }

  /** The bit on the line during clock `i` of a frame. */
  function BitOf(c: Config, i: nat): (q: nat)
    requires ValidConfig(c) && i < FrameClocks(c)
    ensures q < c.numberOfBits + 2
  {
    BitOfClock(c, i);
    i / c.baudDivider
  }

  lemma BitOfClock(c: Config, i: nat)
    requires ValidConfig(c) && i < FrameClocks(c)
    ensures i / c.baudDivider < c.numberOfBits + 2
    ensures i == (i / c.baudDivider) * c.baudDivider + i % c.baudDivider
  {
    var q := i / c.baudDivider;
    if q >= c.numberOfBits + 2 {
      assert q * c.baudDivider >= (c.numberOfBits + 2) * c.baudDivider by {
        ScaleMonotone(c.numberOfBits + 2, q, c.baudDivider);
      }
    }
  }

  // ---------------------------------------------------------------- transmitter to receiver

  /** The receiver's line is the transmitter's output, both at the same rate; offered values fit
      the frame. */
  predicate Wired(x: TxWorld, w: RxWorld, t: nat)
    requires ValidTxWorld(x) && ValidWorld(w)
  {
    && x.c == w.c
    && w.line(t) == TxOut(x.c, TxAt(x, t))
    && (x.offer(t).Some? ==> x.offer(t).value < Pow2(x.c.numberOfBits))
  }

  ghost predicate Linked(x: TxWorld, w: RxWorld) {
    ValidTxWorld(x) && ValidWorld(w) && forall t: nat :: Wired(x, w, t)
  }

  function NominalBounds(c: Config, f: int): (b: seq<int>)
    ensures |b| == c.numberOfBits + 1
  {
    seq(c.numberOfBits + 1, k requires 0 <= k => NominalStart(c, f, k))
  }

  lemma NominalIsWithinTolerance(c: Config, f: int)
    requires ValidConfig(c)
    ensures Increasing(f, NominalBounds(c, f))
    ensures WithinTolerance(c, f, NominalBounds(c, f))
  {
    var b := NominalBounds(c, f);
    forall i, j | 0 <= i < j < |b|
      ensures b[i] < b[j]
    {
      assert (j + 1) * c.baudDivider - (i + 1) * c.baudDivider == (j - i) * c.baudDivider;
      ScaleMonotone(1, j - i, c.baudDivider);
    }
    assert 1 * c.baudDivider == c.baudDivider;
    ToleranceInClocks(c, f, b);
  }

  lemma NominalLevel(c: Config, f: int, bits: seq<bool>, q: nat, m: nat)
    requires ValidConfig(c) && |bits| == c.numberOfBits
    requires q < c.numberOfBits + 2 && m < c.baudDivider
    ensures FrameLevel(f, NominalBounds(c, f), bits, f + q * c.baudDivider + m) == ([false] + bits + [true])[q]
  {
    var b, j, n := NominalBounds(c, f), f + q * c.baudDivider + m, c.numberOfBits;
    NominalIsWithinTolerance(c, f);
    assert q * c.baudDivider >= 0;
    assert forall k: nat | k <= n :: b[k] == NominalStart(c, f, k);
    if q < n + 1 {
      assert b[q] == f + (q + 1) * c.baudDivider > j by { BitTimes(q + 1, c.baudDivider); }
      assert forall k | q <= k <= n :: j < b[k];
    }
    LevelWithin(b, bits, n, if q == 0 then 0 else q - 1, j);
  }

  lemma IdleLevel(c: Config, f: int, bits: seq<bool>)
    requires ValidConfig(c) && |bits| == c.numberOfBits
    ensures FrameLevel(f, NominalBounds(c, f), bits, f + FrameClocks(c))
  {
    var n := c.numberOfBits;
    assert NominalBounds(c, f)[n] == NominalStart(c, f, n) == f + (n + 1) * c.baudDivider;
    ScaleMonotone(n + 1, n + 2, c.baudDivider);
  }

  lemma LoadedLevel(x: TxWorld, w: RxWorld, t: nat, j: nat)
    requires Linked(x, w) && CounterFits(x.c) && Loads(x, t)
    requires t <= j <= t + 1 + FrameClocks(x.c)
    ensures Level(w, j) == FrameLevel(t + 1, NominalBounds(x.c, t + 1), ToBits(x.offer(t).value, x.c.numberOfBits), j)
  {
    hide TxAt, ToBits, NominalBounds, FrameLevel, TxOut, FrameClocks;
    var c, f := x.c, t + 1;
    var bits := ToBits(x.offer(t).value, c.numberOfBits);
    assert Wired(x, w, j);
    if j == t {
      ReadyIsHigh(x, t);
      BeforeFrame(f, NominalBounds(c, f), bits, t);
    } else if j == f + FrameClocks(c) {
      ReadyAfterFrame(x, t);
      ReadyIsHigh(x, j);
      IdleLevel(c, f, bits);
    } else {
      BusyDuringFrame(x, t, j);
      BitOfClock(c, j - f);
      NominalLevel(c, f, bits, (j - f) / c.baudDivider, (j - f) % c.baudDivider);
    }
  }

  /** What a loading transmitter puts on the line is a frame that a receiver accepts. */
  lemma LoadedFrameIsCarried(x: TxWorld, w: RxWorld, t: nat)
    requires Linked(x, w) && CounterFits(x.c) && Loads(x, t)
    ensures var bits := ToBits(x.offer(t).value, x.c.numberOfBits);
            Carries(w, LineFrame(t + 1, NominalBounds(x.c, t + 1), bits), t + 2 + FrameClocks(x.c))
  {
    hide TxAt, ToBits, WithinTolerance, NominalBounds, FrameLevel, TxOut, FrameClocks, Increasing, SampleTime;
    var c, f := x.c, t + 1;
    assert Wired(x, w, t);
    NominalIsWithinTolerance(c, f);
    LastSampleBeforeIdle(c, f);
    forall j: int | t <= j < t + 2 + FrameClocks(c)
      ensures Level(w, j) == FrameLevel(f, NominalBounds(c, f), ToBits(x.offer(t).value, c.numberOfBits), j)
    {
      LoadedLevel(x, w, t, j);
    }
  }

  lemma ReadyIsHigh(x: TxWorld, t: nat)
    requires ValidTxWorld(x) && Ready(x, t)
    ensures TxOut(x.c, TxAt(x, t))
  {
  }

  lemma BeforeFrame(f: int, bounds: seq<int>, bits: seq<bool>, j: int)
    requires |bounds| == |bits| + 1 && j < f
    ensures FrameLevel(f, bounds, bits, j)
  {
  }

  lemma LastSampleBeforeIdle(c: Config, f: nat)
    requires ValidConfig(c)
    ensures SampleTime(c, f, c.numberOfBits - 1) + 2 <= f + FrameClocks(c) + 1
  {
    SampleIsMidBit(c, f, c.numberOfBits - 1);
    assert NominalStart(c, f, c.numberOfBits - 1) == f + c.numberOfBits * c.baudDivider;
    assert FrameClocks(c) == c.numberOfBits * c.baudDivider + 2 * c.baudDivider;
  }

  /** Both ends agree at clock `t`: the receiver is idle from clock `a` on, has delivered what was
      loaded before `t`, and sees no falling edge up to `t`. */
  ghost predicate Synced(x: TxWorld, w: RxWorld, t: nat, a: nat)
    requires Linked(x, w)
  {
    && Ready(x, t)
    && !RxAt(w, a).running
    && a - w.c.rxSyncStages <= t + 1
    && (forall j | a - w.c.rxSyncStages <= j <= t :: !Falls(w, j))
    && Delivered(w, a) == Loaded(x, t)
  }

  lemma SyncedAfterIdle(x: TxWorld, w: RxWorld, t: nat, a: nat)
    requires Linked(x, w) && Synced(x, w, t, a) && x.offer(t).None?
    ensures Synced(x, w, t + 1, a)
  {
    hide RxAt, Delivered, TxOut, Loaded;
    TxNext(x, t);
    assert Wired(x, w, t + 1);
    ReadyIsHigh(x, t + 1);
  }

  lemma SyncedAfterLoad(x: TxWorld, w: RxWorld, t: nat, a: nat)
    requires Linked(x, w) && CounterFits(x.c) && Synced(x, w, t, a) && x.offer(t).Some?
    ensures var e := CompletionTime(w.c, t + 1);
            e >= 0 && Synced(x, w, t + 1 + FrameClocks(x.c), e + 1)
  {
    hide RxAt, TxAt, Delivered, TxOut, Loaded, Carries, Falls, ToBits, FromBits;
    var v, n := x.offer(t).value, x.c.numberOfBits;
    var fr := LineFrame(t + 1, NominalBounds(x.c, t + 1), ToBits(v, n));
    assert Wired(x, w, t);
    LoadedFrameIsCarried(x, w, t);
    FrameIsReceived(w, a, fr, t + 2 + FrameClocks(x.c));
    FromToBits(v, n);
    ReadyAfterFrame(x, t);
  }

  lemma {:induction false} StaysSynced(x: TxWorld, w: RxWorld, t: nat, a: nat, end: nat) returns (b: nat)
    requires Linked(x, w) && CounterFits(x.c) && Synced(x, w, t, a)
    requires t <= end && Ready(x, end)
    ensures Synced(x, w, end, b)
    decreases end - t
  {
    hide Synced, TxAt;
    if t == end {
      b := a;
    } else if x.offer(t).None? {
      SyncedAfterIdle(x, w, t, a);
      b := StaysSynced(x, w, t + 1, a, end);
    } else {
      assert Loads(x, t) by { SyncedIsReady(x, w, t, a); }
      SyncedAfterLoad(x, w, t, a);
      if end <= t + FrameClocks(x.c) {
        BusyDuringFrame(x, t, end);
        assert false;
      }
      b := StaysSynced(x, w, t + 1 + FrameClocks(x.c), CompletionTime(w.c, t + 1) + 1, end);
    }
  }

  lemma SyncedIsReady(x: TxWorld, w: RxWorld, t: nat, a: nat)
    requires Linked(x, w) && Synced(x, w, t, a)
    ensures Ready(x, t)
  {
  }

  lemma InitiallySynced(x: TxWorld, w: RxWorld)
    requires Linked(x, w)
    ensures Synced(x, w, 0, 0)
  {
    TxStart(x);
    AtReset(w);
  }

  lemma TxStart(x: TxWorld)
    requires ValidTxWorld(x)
    ensures Ready(x, 0) && Loaded(x, 0) == []
  {
  }

  lemma SyncedDelivers(x: TxWorld, w: RxWorld, t: nat, a: nat)
    requires Linked(x, w) && Synced(x, w, t, a)
    ensures Delivered(w, t + 1 + w.c.rxSyncStages) == Loaded(x, t)
  {
    hide Falls, RxAt, TxAt, Delivered, Loaded, TxOut;
    StaysIdle(w, a, t + 1 + w.c.rxSyncStages);
  }

  /** The link delivers: when the counter fits, whatever is offered and whenever, at every clock at
      which the transmitter is ready the receiver, one synchroniser delay later, has delivered
      exactly the values loaded so far, in order. */
  lemma LinkDelivers(x: TxWorld, w: RxWorld, t: nat)
    requires Linked(x, w) && CounterFits(x.c) && Ready(x, t)
    ensures Delivered(w, t + 1 + w.c.rxSyncStages) == Loaded(x, t)
  {
    hide Synced, TxAt;
    InitiallySynced(x, w);
    var b := StaysSynced(x, w, 0, 0, t);
    SyncedDelivers(x, w, t, b);
  }

  /** Up to the consumer: every value loaded is taken, waits to be taken or has been overwritten; and
      when the overrun flag has never risen, the values taken, followed by the one that waits, are
      exactly the values loaded, in order. */
  lemma LinkHandsOver(x: TxWorld, w: RxWorld, t: nat)
    requires Linked(x, w) && CounterFits(x.c) && Ready(x, t)
    ensures var e := t + 1 + w.c.rxSyncStages;
            && multiset(Loaded(x, t)) == multiset(Taken(w, e)) + multiset(Waiting(w, e)) + multiset(Lost(w, e))
            && ((forall u: nat | u <= e :: !RxAt(w, u).overrun) ==> Taken(w, e) + Waiting(w, e) == Loaded(x, t))
  {
    hide TxAt, RxAt, Delivered, Loaded, Taken, Waiting, Lost, CounterFits;
    var e := t + 1 + w.c.rxSyncStages;
    LinkDelivers(x, w, t);
    DeliveredIsAccountedFor(w, e);
    if forall u: nat | u <= e :: !RxAt(w, u).overrun {
      NoOverrunNoLoss(w, e);
    }
  }

  /** A transmitter whose counter is too narrow takes every value and sends none of them. */
  lemma {:induction false} NarrowCounterIsSilent(x: TxWorld, t: nat)
    requires ValidTxWorld(x) && !CounterFits(x.c)
    ensures Ready(x, t)
    decreases t
  {
    if t > 0 {
      NarrowCounterIsSilent(x, t - 1);
      LoadedCountIs(x.c);
    }
  }

  lemma NothingArrives(x: TxWorld, w: RxWorld, t: nat)
    requires Linked(x, w) && !CounterFits(x.c)
    ensures Delivered(w, t) == []
  {
    hide RxAt, TxAt, TxOut, CounterFits;
    AtReset(w);
    forall j | 0 - w.c.rxSyncStages <= j < t - w.c.rxSyncStages
      ensures !Falls(w, j)
    {
      if j >= 0 {
        assert Wired(x, w, j);
        NarrowCounterIsSilent(x, j);
        ReadyIsHigh(x, j);
      }
    }
    StaysIdle(w, 0, t);
  }

  lemma {:induction false} NothingLoaded(x: TxWorld, t: nat)
    requires ValidTxWorld(x) && forall u: nat :: x.offer(u).None?
    ensures Loaded(x, t) == []
    decreases t
  {
    hide TxAt;
    if t > 0 {
      NothingLoaded(x, t - 1);
      assert x.offer(t - 1).None?;
    }
  }

  /** Exactly when a link delivers all it takes: when the bit counter holds the length of a frame,
      or when nothing is ever offered. */
  lemma DeliversExactlyWhenCounterFits(x: TxWorld, w: RxWorld)
    requires Linked(x, w)
    ensures (forall t: nat | Ready(x, t) :: Delivered(w, t + 1 + w.c.rxSyncStages) == Loaded(x, t))
       <==> CounterFits(x.c) || forall t: nat :: x.offer(t).None?
  {
    hide RxAt, TxAt, Delivered, Loaded, CounterFits, Wired;
    if CounterFits(x.c) {
      forall t: nat | Ready(x, t)
        ensures Delivered(w, t + 1 + w.c.rxSyncStages) == Loaded(x, t)
      {
        LinkDelivers(x, w, t);
      }
    } else if t: nat :| x.offer(t).Some? {
      NarrowCounterIsSilent(x, t);
      NarrowCounterIsSilent(x, t + 1);
      TxNext(x, t);
      NothingArrives(x, w, t + 1 + 1 + w.c.rxSyncStages);
      assert Loaded(x, t + 1) != [];
    } else {
      forall t: nat | Ready(x, t)
        ensures Delivered(w, t + 1 + w.c.rxSyncStages) == Loaded(x, t)
      {
        NothingArrives(x, w, t + 1 + w.c.rxSyncStages);
        NothingLoaded(x, t);
      }
    }
  }

  // ---------------------------------------------------------------- one value sent for ever

  function Copies(value: nat, n: nat): seq<nat> {
    if n == 0 then [] else Copies(value, n - 1) + [value]
  }

  function Period(c: Config): nat {
    1 + FrameClocks(c)
  }

  /** With a value always on offer the transmitter repeats every ten bit times and one clock (for
      eight data bits): one idle clock, then each bit of the frame for a bit time. */
  lemma {:induction false} RepeatsForEver(x: TxWorld, value: nat, n: nat)
    requires ValidTxWorld(x) && CounterFits(x.c) && forall t: nat :: x.offer(t) == Some(value)
    ensures n * Period(x.c) >= 0
    ensures Ready(x, n * Period(x.c)) && Loaded(x, n * Period(x.c)) == Copies(value, n)
    ensures TxOut(x.c, TxAt(x, n * Period(x.c)))
    ensures forall i: nat | i < FrameClocks(x.c) ::
              TxOut(x.c, TxAt(x, n * Period(x.c) + 1 + i)) == FrameBits(x.c, value)[BitOf(x.c, i)]
  {
    hide TxAt, Loaded, TxOut, FrameBits;
    var t := n * Period(x.c);
    assert t >= 0;
    if n == 0 {
      TxStart(x);
    } else {
      var p := (n - 1) * Period(x.c);
      RepeatsForEver(x, value, n - 1);
      ReadyAfterFrame(x, p);
      assert t == p + 1 + FrameClocks(x.c) by { BitTimes(n, Period(x.c)); }
    }
    ReadyIsHigh(x, t);
    forall i: nat | i < FrameClocks(x.c)
      ensures TxOut(x.c, TxAt(x, t + 1 + i)) == FrameBits(x.c, value)[BitOf(x.c, i)]
    {
      BusyDuringFrame(x, t, t + 1 + i);
    }
  }

  /** A receiver on that line delivers the value once per period, for ever. */
  lemma DeliversOncePerPeriod(x: TxWorld, w: RxWorld, value: nat, n: nat)
    requires Linked(x, w) && CounterFits(x.c) && forall t: nat :: x.offer(t) == Some(value)
    ensures n * Period(x.c) >= 0
    ensures Delivered(w, n * Period(x.c) + 1 + w.c.rxSyncStages) == Copies(value, n)
  {
    hide TxAt, Delivered, Loaded, TxOut, FrameBits, CounterFits;
    RepeatsForEver(x, value, n);
    LinkDelivers(x, w, n * Period(x.c));
  }
}
