/** What a receiver makes of frames whose bit boundaries are off. */
module UartLine {
  import opened Bytes
  import opened Uart

  // ---------------------------------------------------------------- frames with uneven bits

  /** Where the bits of a frame begin: `bounds[k]` for data bit `k`, the last entry for the stop
      bit. */
  predicate Increasing(f: int, bounds: seq<int>) {
    && |bounds| > 0 && f < bounds[0]
    && forall i, j | 0 <= i < j < |bounds| :: bounds[i] < bounds[j]
  }

  /** The level at line time `j`, looking no further than bit `k`. */
  function BitLevel(bounds: seq<int>, bits: seq<bool>, k: nat, j: int): bool
    requires |bounds| == |bits| + 1 && k <= |bits|
    decreases k
  {
    if j >= bounds[k] then k == |bits| || bits[k]
    else if k == 0 then false
    else BitLevel(bounds, bits, k - 1, j)
  }

  /** Idle high, a low start bit from `f`, the data bits, a high stop bit. */
  function FrameLevel(f: int, bounds: seq<int>, bits: seq<bool>, j: int): bool
    requires |bounds| == |bits| + 1
  {
    j < f || BitLevel(bounds, bits, |bits|, j)
  }

  lemma {:induction false} LevelWithin(bounds: seq<int>, bits: seq<bool>, k: nat, m: nat, j: int)
    requires |bounds| == |bits| + 1 && m <= k <= |bits|
    requires forall i | m < i <= k :: j < bounds[i]
    ensures BitLevel(bounds, bits, k, j) == BitLevel(bounds, bits, m, j)
    decreases k
  {
    if m < k {
      LevelWithin(bounds, bits, k - 1, m, j);
    }
  }

  lemma BitReadInside(f: int, bounds: seq<int>, bits: seq<bool>, k: nat, j: int)
    requires |bounds| == |bits| + 1 && Increasing(f, bounds) && k < |bits|
    requires bounds[k] <= j < bounds[k + 1]
    ensures FrameLevel(f, bounds, bits, j) == bits[k]
  {
    LevelWithin(bounds, bits, |bits|, k, j);
  }

  predicate WithinTolerance(c: Config, f: int, bounds: seq<int>)
    requires |bounds| == c.numberOfBits + 1
  {
    forall k: nat | k < c.numberOfBits :: SampleInside(c, f, bounds, k)
  }

  predicate SampleInside(c: Config, f: int, bounds: seq<int>, k: nat)
    requires k + 1 < |bounds|
  {
    bounds[k] <= SampleTime(c, f, k) < bounds[k + 1]
  }

  /** The bits a receiver samples from a frame that falls at `f`. */
  function SampledBits(c: Config, f: int, bounds: seq<int>, bits: seq<bool>): (s: seq<bool>)
    requires |bounds| == |bits| + 1 && |bits| == c.numberOfBits
    ensures |s| == |bits|
  {
    seq(|bits|, k requires 0 <= k < |bits| => FrameLevel(f, bounds, bits, SampleTime(c, f, k)))
  }

  /** Where data bit `k` (or, behind the last one, the stop bit) would begin at the exact rate. */
  function NominalStart(c: Config, f: int, k: nat): int {
    f + (k + 1) * c.baudDivider
  }

  /** The boundary in front of data bit `k` is late by at most half a bit time less one clock,
      the boundary behind it early by at most half a bit time, rounded up. */
  predicate BitInTolerance(c: Config, f: int, bounds: seq<int>, k: nat)
    requires k + 1 < |bounds|
  {
    && bounds[k] - NominalStart(c, f, k) <= c.baudDivider / 2 - 1
    && NominalStart(c, f, k + 1) - bounds[k + 1] <= c.baudDivider - c.baudDivider / 2
  }

  lemma SampleIsMidBit(c: Config, f: int, k: nat)
    requires ValidConfig(c)
    ensures SampleTime(c, f, k) == NominalStart(c, f, k) + c.baudDivider / 2 - 1
    ensures NominalStart(c, f, k + 1) == NominalStart(c, f, k) + c.baudDivider
  {
    assert (k + 1) * c.baudDivider == k * c.baudDivider + c.baudDivider;
    assert (k + 2) * c.baudDivider == (k + 1) * c.baudDivider + c.baudDivider;
  }

  lemma ToleranceInClocks(c: Config, f: int, bounds: seq<int>)
    requires ValidConfig(c) && |bounds| == c.numberOfBits + 1
    ensures WithinTolerance(c, f, bounds) <==>
            forall k: nat | k < c.numberOfBits :: BitInTolerance(c, f, bounds, k)
  {
    hide SampleTime, NominalStart;
    forall k: nat | k < c.numberOfBits
      ensures SampleInside(c, f, bounds, k) <==> BitInTolerance(c, f, bounds, k)
    {
      SampleIsMidBit(c, f, k);
    }
  }

  lemma LevelBefore(bounds: seq<int>, bits: seq<bool>, k: nat, m: nat, j: int)
    requires |bounds| == |bits| + 1 && k < m <= |bits|
    requires forall i | 0 <= i <= k :: !bits[i]
    ensures !BitLevel(bounds, bits, k, j)
    decreases k
  {
    if k > 0 {
      LevelBefore(bounds, bits, k - 1, m, j);
    }
  }

  lemma LevelAfter(f: int, bounds: seq<int>, bits: seq<bool>, k: nat, m: nat, j: int)
    requires |bounds| == |bits| + 1 && Increasing(f, bounds) && m <= k <= |bits|
    requires j >= bounds[m]
    requires forall i | m <= i < |bits| :: bits[i]
    ensures BitLevel(bounds, bits, k, j)
    decreases k
  {
    if k > m && j < bounds[k] {
      LevelAfter(f, bounds, bits, k - 1, m, j);
    }
  }

  /** The tolerance is exact: outside it some value is received wrongly. */
  lemma ToleranceIsExact(c: Config, f: int, bounds: seq<int>)
    requires ValidConfig(c) && |bounds| == c.numberOfBits + 1 && Increasing(f, bounds)
    ensures WithinTolerance(c, f, bounds) <==>
            forall bits: seq<bool> | |bits| == c.numberOfBits :: SampledBits(c, f, bounds, bits) == bits
  {
    if WithinTolerance(c, f, bounds) {
      forall bits: seq<bool> | |bits| == c.numberOfBits
        ensures SampledBits(c, f, bounds, bits) == bits
      {
        forall k: nat | k < |bits|
          ensures SampledBits(c, f, bounds, bits)[k] == bits[k]
        {
          assert SampleInside(c, f, bounds, k);
          BitReadInside(f, bounds, bits, k, SampleTime(c, f, k));
        }
      }
    } else {
      var k: nat :| k < c.numberOfBits && !SampleInside(c, f, bounds, k);
      var bits := MissedBits(c, f, bounds, k);
    }
  }

  /** A value that a frame with a boundary out of place turns into another one. */
  lemma MissedBits(c: Config, f: int, bounds: seq<int>, k: nat) returns (bits: seq<bool>)
    requires ValidConfig(c) && |bounds| == c.numberOfBits + 1 && Increasing(f, bounds)
    requires k < c.numberOfBits && !SampleInside(c, f, bounds, k)
    ensures |bits| == c.numberOfBits && SampledBits(c, f, bounds, bits) != bits
  {
    var n, s := c.numberOfBits, SampleTime(c, f, k);
    assert k * c.baudDivider >= 0;
    if s < bounds[k] {
      bits := seq(n, i => i == k);
      LevelWithin(bounds, bits, n, k, s);
      if k > 0 {
        LevelBefore(bounds, bits, k - 1, k, s);
      }
    } else {
      bits := seq(n, i => i != k);
      LevelAfter(f, bounds, bits, n, k + 1, s);
    }
    assert SampledBits(c, f, bounds, bits)[k] != bits[k];
  }

  // ---------------------------------------------------------------- receiving such frames

  /** A frame on the line: where it falls, where its bits begin, and the bits. */
  datatype LineFrame = LineFrame(start: nat, bounds: seq<int>, bits: seq<bool>)

  /** The line carries the frame from just before its start bit up to `until`, its bit
      boundaries are within tolerance, and `until` leaves the receiver its one idle clock. */
  predicate Carries(w: RxWorld, fr: LineFrame, until: nat)
    requires ValidWorld(w)
  {
    && |fr.bits| == w.c.numberOfBits && |fr.bounds| == w.c.numberOfBits + 1
    && Increasing(fr.start, fr.bounds)
    && WithinTolerance(w.c, fr.start, fr.bounds)
    && until >= SampleTime(w.c, fr.start, w.c.numberOfBits - 1) + 2
    && forall j: int | fr.start - 1 <= j < until :: Level(w, j) == FrameLevel(fr.start, fr.bounds, fr.bits, j)
  }

  lemma SamplesAreBits(w: RxWorld, fr: LineFrame, until: nat)
    requires ValidWorld(w) && Carries(w, fr, until)
    ensures Samples(w, SampleTime(w.c, fr.start, 0), w.c.numberOfBits) == fr.bits
  {
    var n, s := w.c.numberOfBits, SampleTime(w.c, fr.start, 0);
    forall k: nat | k < n
      ensures Samples(w, s, n)[k] == fr.bits[k]
    {
      SamplesAt(w, s, n, k);
      assert SampleInside(w.c, fr.start, fr.bounds, k);
      BitReadInside(fr.start, fr.bounds, fr.bits, k, SampleTime(w.c, fr.start, k));
      SampleOrder(w.c, fr.start, k, n - 1);
    }
  }

  lemma SampleOrder(c: Config, f: nat, k: nat, m: nat)
    requires ValidConfig(c) && k <= m
    ensures f <= SampleTime(c, f, k) <= SampleTime(c, f, m)
  {
    assert k * c.baudDivider + (m - k) * c.baudDivider == m * c.baudDivider;
    assert k * c.baudDivider >= 0 && (m - k) * c.baudDivider >= 0;
  }

  /** After the last sample the line never falls before the next frame. */
  lemma NoLateFall(w: RxWorld, fr: LineFrame, until: nat, j: int)
    requires ValidWorld(w) && Carries(w, fr, until)
    requires SampleTime(w.c, fr.start, w.c.numberOfBits - 1) < j < until
    ensures !Falls(w, j)
  {
    var n := w.c.numberOfBits;
    SampleOrder(w.c, fr.start, n - 1, n - 1);
    assert SampleInside(w.c, fr.start, fr.bounds, n - 1);
    LevelWithin(fr.bounds, fr.bits, n, if j - 1 >= fr.bounds[n] then n else n - 1, j - 1);
    LevelWithin(fr.bounds, fr.bits, n, if j >= fr.bounds[n] then n else n - 1, j);
  }

  /** Every frame whose boundaries are within tolerance is received as sent, completes exactly
      once, and leaves the receiver ready for the next falling edge. */
  lemma FrameIsReceived(w: RxWorld, a: nat, fr: LineFrame, until: nat)
    requires ValidWorld(w) && !RxAt(w, a).running
    requires a - w.c.rxSyncStages <= fr.start
    requires forall j | a - w.c.rxSyncStages <= j < fr.start :: !Falls(w, j)
    requires Carries(w, fr, until)
    ensures var e := CompletionTime(w.c, fr.start);
            && e >= a
            && e + 1 - w.c.rxSyncStages <= until
            && !RxAt(w, e + 1).running
            && RxAt(w, e + 1).outValid && RxAt(w, e + 1).outBits == FromBits(fr.bits)
            && RxAt(w, e + 1).overrun == RxAt(w, e).outValid
            && Delivered(w, e + 1) == Delivered(w, a) + [FromBits(fr.bits)]
            && forall j | e + 1 - w.c.rxSyncStages <= j < until :: !Falls(w, j)
  {
    hide RxAt, Delivered, FromBits, WithinTolerance;
    SampleOrder(w.c, fr.start, w.c.numberOfBits - 1, w.c.numberOfBits - 1);
    assert Falls(w, fr.start) by {
      LevelWithin(fr.bounds, fr.bits, w.c.numberOfBits, 0, fr.start);
    }
    ReceivesFrame(w, a, fr.start);
    SamplesAreBits(w, fr, until);
    var e := CompletionTime(w.c, fr.start);
    forall j | e + 1 - w.c.rxSyncStages <= j < until
      ensures !Falls(w, j)
    {
      NoLateFall(w, fr, until, j);
    }
  }

  lemma SamplesAreSampled(w: RxWorld, f: nat, bounds: seq<int>, bits: seq<bool>)
    requires ValidWorld(w) && |bits| == w.c.numberOfBits && |bounds| == |bits| + 1
    requires forall j: int | f - 1 <= j <= SampleTime(w.c, f, |bits| - 1) ::
               Level(w, j) == FrameLevel(f, bounds, bits, j)
    ensures Samples(w, SampleTime(w.c, f, 0), |bits|) == SampledBits(w.c, f, bounds, bits)
  {
    hide Level, FrameLevel;
    var n, s := |bits|, SampleTime(w.c, f, 0);
    forall k: nat | k < n
      ensures Samples(w, s, n)[k] == SampledBits(w.c, f, bounds, bits)[k]
    {
      SamplesAt(w, s, n, k);
      SampleOrder(w.c, f, k, n - 1);
    }
  }

  /** Any frame, its boundaries within tolerance or not, makes an idle receiver deliver what lies on
      the line at the sample times, once. */
  lemma FrameDeliversSamples(w: RxWorld, a: nat, f: nat, bounds: seq<int>, bits: seq<bool>)
    requires ValidWorld(w) && !RxAt(w, a).running
    requires a - w.c.rxSyncStages <= f
    requires forall j | a - w.c.rxSyncStages <= j < f :: !Falls(w, j)
    requires |bits| == w.c.numberOfBits && |bounds| == |bits| + 1 && Increasing(f, bounds)
    requires forall j: int | f - 1 <= j <= SampleTime(w.c, f, |bits| - 1) ::
               Level(w, j) == FrameLevel(f, bounds, bits, j)
    ensures var e := CompletionTime(w.c, f);
            && e >= a
            && Delivered(w, e + 1) == Delivered(w, a) + [FromBits(SampledBits(w.c, f, bounds, bits))]
  {
    hide RxAt, Delivered, FromBits, Samples;
    SampleOrder(w.c, f, |bits| - 1, |bits| - 1);
    assert Falls(w, f) by {
      LevelWithin(bounds, bits, |bits|, 0, f);
    }
    ReceivesFrame(w, a, f);
    SamplesAreSampled(w, f, bounds, bits);
  }

  /** A receiver from reset with nothing but this frame on its line. */
  function FrameWorld(reset: RxRegs, c: Config, f: nat, bounds: seq<int>, bits: seq<bool>): (w: RxWorld)
    requires |bounds| == |bits| + 1
  {
    RxWorld(c, reset, (j: nat) => FrameLevel(f, bounds, bits, j), _ => true)
  }

  lemma FrameWorldDelivers(reset: RxRegs, c: Config, f: nat, bounds: seq<int>, bits: seq<bool>)
    requires RxReset(c, reset) && |bits| == c.numberOfBits && |bounds| == |bits| + 1
    requires f > 0 && Increasing(f, bounds)
    ensures CompletionTime(c, f) >= 0
    ensures Delivered(FrameWorld(reset, c, f, bounds, bits), CompletionTime(c, f) + 1)
         == [FromBits(SampledBits(c, f, bounds, bits))]
  {
    hide RxAt, FromBits, SampledBits;
    var w := FrameWorld(reset, c, f, bounds, bits);
    AtReset(w);
    FrameDeliversSamples(w, 0, f, bounds, bits);
  }

  lemma {:induction false} FromBitsInjective(a: seq<bool>, b: seq<bool>)
    requires |a| == |b| && FromBits(a) == FromBits(b)
    ensures a == b
  {
    ToFromBits(a);
    ToFromBits(b);
  }

  /** The tolerance is exact for the receiver itself: it delivers every value as sent exactly when
      the boundaries are within it. */
  lemma DeliveryIsExact(reset: RxRegs, c: Config, f: nat, bounds: seq<int>)
    requires RxReset(c, reset) && |bounds| == c.numberOfBits + 1
    requires f > 0 && Increasing(f, bounds)
    ensures CompletionTime(c, f) >= 0
    ensures WithinTolerance(c, f, bounds) <==>
            forall bits: seq<bool> | |bits| == c.numberOfBits ::
              Delivered(FrameWorld(reset, c, f, bounds, bits), CompletionTime(c, f) + 1) == [FromBits(bits)]
  {
    hide Delivered, SampledBits, WithinTolerance, FromBits, CompletionTime, Increasing;
    forall bits: seq<bool> | |bits| == c.numberOfBits
      ensures CompletionTime(c, f) >= 0
      ensures Delivered(FrameWorld(reset, c, f, bounds, bits), CompletionTime(c, f) + 1) == [FromBits(bits)]
         <==> SampledBits(c, f, bounds, bits) == bits
    {
      FrameWorldDelivers(reset, c, f, bounds, bits);
      if FromBits(SampledBits(c, f, bounds, bits)) == FromBits(bits) {
        FromBitsInjective(SampledBits(c, f, bounds, bits), bits);
      }
    }
    CompletionAfterStart(c, f);
    ToleranceIsExact(c, f, bounds);
  }

  /** Consecutive frames: each is carried up to the start of the next, the last one up to `end`. */
  predicate CarriesAll(w: RxWorld, frames: seq<LineFrame>, end: nat)
    requires ValidWorld(w)
    decreases |frames|
  {
    frames == [] ||
    (&& Carries(w, frames[0], if |frames| == 1 then end else frames[1].start)
     && CarriesAll(w, frames[1..], end))
  }

  function Values(frames: seq<LineFrame>): seq<nat> {
    if frames == [] then [] else [FromBits(frames[0].bits)] + Values(frames[1..])
  }

  /** Any number of consecutive frames, each with its own uneven bits, is received in order and
      without additions. */
  lemma {:induction false} StreamIsReceived(w: RxWorld, a: nat, frames: seq<LineFrame>, end: nat)
    requires ValidWorld(w) && !RxAt(w, a).running
    requires frames != [] && CarriesAll(w, frames, end)
    requires a - w.c.rxSyncStages <= frames[0].start
    requires forall j | a - w.c.rxSyncStages <= j < frames[0].start :: !Falls(w, j)
    ensures var e := CompletionTime(w.c, frames[|frames| - 1].start);
            && e >= 0
            && !RxAt(w, e + 1).running
            && Delivered(w, e + 1) == Delivered(w, a) + Values(frames)
    decreases |frames|
  {
    hide RxAt, Delivered, FromBits, Carries, Falls;
    var fr := frames[0];
    var until := if |frames| == 1 then end else frames[1].start;
    FrameIsReceived(w, a, fr, until);
    var e := CompletionTime(w.c, fr.start);
    if |frames| == 1 {
      assert frames[1..] == [];
      assert Values(frames) == [FromBits(fr.bits)] + [];
    } else {
      StreamIsReceived(w, e + 1, frames[1..], end);
      Associate(Delivered(w, a), [FromBits(fr.bits)], Values(frames[1..]));
    }
  }
}
