/** The UART receiver, clock by clock. */
module Uart {
  import opened Bytes

  /** Bits per frame, clocks per bit and synchroniser stages. */
  datatype Config = Config(numberOfBits: nat, baudDivider: nat, rxSyncStages: nat)

  predicate ValidConfig(c: Config) {
    c.numberOfBits >= 1 && c.baudDivider >= 2 && c.rxSyncStages >= 1
  }

  // ---------------------------------------------------------------- receiver

  datatype RxRegs = RxRegs(
    rateCounter: nat,
    bitCounter: nat,
    bits: seq<bool>,
    rxRegs: seq<bool>,
    overrun: bool,
    running: bool,
    outValid: bool,
    outBits: nat)

  /** The registers have their widths and the counters their ranges. */
  predicate ValidRx(c: Config, r: RxRegs) {
    && ValidConfig(c)
    && |r.bits| == c.numberOfBits
    && |r.rxRegs| == c.rxSyncStages + 1
    && r.rateCounter < c.baudDivider * 3 / 2
    && r.bitCounter < c.numberOfBits
  }

  predicate RxReset(c: Config, r: RxRegs) {
    && ValidRx(c, r)
    && !r.running && !r.outValid && !r.overrun
    && forall i | 0 <= i < |r.rxRegs| :: !r.rxRegs[i]
  }

  /** The clock edge at which a frame is complete. */
  predicate Completes(r: RxRegs) {
    r.running && r.rateCounter == 0 && r.bitCounter == 0
  }

  /** The registers after one clock edge. */
  function RxStep(c: Config, r: RxRegs, rx: bool, outReady: bool): (n: RxRegs)
    requires ValidRx(c, r)
    ensures ValidRx(c, n)
  {
    var s := r.(outValid := r.outValid && !outReady, rxRegs := r.rxRegs[1..] + [rx]);
    if !r.running then
      if !r.rxRegs[1] && r.rxRegs[0] then
        s.(rateCounter := c.baudDivider * 3 / 2 - 1, bitCounter := c.numberOfBits - 1, running := true)
      else s
    else if r.rateCounter == 0 then
      var t := s.(bits := r.bits[1..] + [r.rxRegs[0]]);
      if r.bitCounter == 0 then
        t.(outValid := true, outBits := FromBits(r.bits[1..] + [r.rxRegs[0]]), overrun := r.outValid, running := false)
      else t.(rateCounter := c.baudDivider - 1, bitCounter := r.bitCounter - 1)
    else s.(rateCounter := r.rateCounter - 1)
  }

  /** An output that was not taken is lost only when a frame completes, and every completion over
      a valid output raises the overrun flag at that edge.  (The flag also rises when the output
      is taken at the very same edge.) */
  lemma LossIsReported(c: Config, r: RxRegs, rx: bool, outReady: bool)
    requires ValidRx(c, r)
    ensures var n := RxStep(c, r, rx, outReady);
            && (r.outValid && !outReady && !Completes(r) ==> n.outValid && n.outBits == r.outBits)
            && (Completes(r) ==> n.outValid && n.overrun == r.outValid)
            && (!Completes(r) ==> n.overrun == r.overrun && n.outBits == r.outBits)
  {
  }

  class UartRx {
    const config: Config
    var rateCounter: nat
    var bitCounter: nat
    var bits: seq<bool>
    var rxRegs: seq<bool>
    var overrun: bool
    var running: bool
    var outValid: bool
    var outBits: nat

    ghost function Value(): RxRegs
      reads this
    {
      RxRegs(rateCounter, bitCounter, bits, rxRegs, overrun, running, outValid, outBits)
    }

    /** Reset: the data registers hold anything. */
    constructor (config: Config, bits: seq<bool>, outBits: nat)
      requires ValidConfig(config) && |bits| == config.numberOfBits
      ensures this.config == config && RxReset(config, Value())
    {
      this.config := config;
      rateCounter, bitCounter := 0, 0;
      this.bits := bits;
      rxRegs := seq(config.rxSyncStages + 1, _ => false);
      overrun, running, outValid := false, false, false;
      this.outBits := outBits;
    }

    /** One clock edge: all right-hand sides are register values before the edge. */
    method Clock(rx: bool, outReady: bool)
      requires ValidRx(config, Value())
      modifies this
      ensures ValidRx(config, Value())
      ensures Value() == RxStep(config, old(Value()), rx, outReady)
    {
      hide FromBits;
      var first, second, wasValid := rxRegs[0], rxRegs[1], outValid;
      if outValid && outReady {
        outValid := false;
      }
      rxRegs := rxRegs[1..] + [rx];
      if !running {
        if !second && first {
          rateCounter := config.baudDivider * 3 / 2 - 1;
          bitCounter := config.numberOfBits - 1;
          running := true;
        }
      } else if rateCounter == 0 {
        var shifted := bits[1..] + [first];
        bits := shifted;
        if bitCounter == 0 {
          outValid := true;
          outBits := FromBits(shifted);
          overrun := wasValid;
          running := false;
        } else {
          rateCounter := config.baudDivider - 1;
          bitCounter := bitCounter - 1;
        }
      } else {
        rateCounter := rateCounter - 1;
      }
    }
  }

  // ---------------------------------------------------------------- a run of the receiver

  /** The environment of a receiver: registers at reset, the line and the consumer over time. */
  datatype RxWorld = RxWorld(c: Config, reset: RxRegs, line: nat -> bool, ready: nat -> bool)

  predicate ValidWorld(w: RxWorld) {
    RxReset(w.c, w.reset)
  }

  function RxAt(w: RxWorld, t: nat): (r: RxRegs)
    requires ValidWorld(w)
    ensures ValidRx(w.c, r)
    decreases t
  {
    if t == 0 then w.reset else RxStep(w.c, RxAt(w, t - 1), w.line(t - 1), w.ready(t - 1))
  }

  /** The line level; before the first clock the synchroniser holds low. */
  function Level(w: RxWorld, j: int): bool {
    j >= 0 && w.line(j)
  }

  predicate Falls(w: RxWorld, j: int) {
    Level(w, j - 1) && !Level(w, j)
  }

  /** The values completed before clock `t`, in order. */
  function Delivered(w: RxWorld, t: nat): seq<nat>
    requires ValidWorld(w)
    decreases t
  {
    if t == 0 then []
    else if Completes(RxAt(w, t - 1)) then Delivered(w, t - 1) + [RxAt(w, t).outBits]
    else Delivered(w, t - 1)
  }

  lemma RxNext(w: RxWorld, t: nat)
    requires ValidWorld(w)
    ensures RxAt(w, t + 1) == RxStep(w.c, RxAt(w, t), w.line(t), w.ready(t))
    ensures Delivered(w, t + 1) ==
            if Completes(RxAt(w, t)) then Delivered(w, t) + [RxAt(w, t + 1).outBits] else Delivered(w, t)
  {
  }

  /** The synchroniser is a delay line. */
  lemma {:induction false} SyncDelays(w: RxWorld, t: nat, i: nat)
    requires ValidWorld(w) && i <= w.c.rxSyncStages
    ensures RxAt(w, t).rxRegs[i] == Level(w, t - 1 - w.c.rxSyncStages + i)
    decreases t
  {
    hide RxAt, RxStep;
    if t == 0 {
      AtReset(w);
    } else {
      RxNext(w, t - 1);
      SyncShifts(w.c, RxAt(w, t - 1), w.line(t - 1), w.ready(t - 1));
      if i < w.c.rxSyncStages {
        SyncDelays(w, t - 1, i + 1);
      }
    }
  }

  lemma AtReset(w: RxWorld)
    requires ValidWorld(w)
    ensures RxAt(w, 0) == w.reset
  {
  }

  lemma SyncShifts(c: Config, r: RxRegs, rx: bool, outReady: bool)
    requires ValidRx(c, r)
    ensures RxStep(c, r, rx, outReady).rxRegs == r.rxRegs[1..] + [rx]
  {
  }

  /** One clock of an idle receiver: it starts exactly when the delayed line falls. */
  lemma IdleClock(w: RxWorld, t: nat)
    requires ValidWorld(w) && !RxAt(w, t).running
    ensures Delivered(w, t + 1) == Delivered(w, t)
    ensures RxAt(w, t + 1).running <==> Falls(w, t - w.c.rxSyncStages)
    ensures Falls(w, t - w.c.rxSyncStages) ==>
              && RxAt(w, t + 1).rateCounter == w.c.baudDivider * 3 / 2 - 1
              && RxAt(w, t + 1).bitCounter == w.c.numberOfBits - 1
  {
    hide RxAt, Delivered;
    RxNext(w, t);
    SyncDelays(w, t, 0);
    SyncDelays(w, t, 1);
  }

  /** While the delayed line does not fall, an idle receiver stays idle. */
  lemma {:induction false} StaysIdle(w: RxWorld, a: nat, b: nat)
    requires ValidWorld(w) && a <= b
    requires !RxAt(w, a).running
    requires forall j | a - w.c.rxSyncStages <= j < b - w.c.rxSyncStages :: !Falls(w, j)
    ensures !RxAt(w, b).running
    ensures Delivered(w, b) == Delivered(w, a)
    decreases b - a
  {
    hide RxAt, Delivered, Falls;
    if a < b {
      StaysIdle(w, a, b - 1);
      IdleClock(w, b - 1);
      assert !Falls(w, b - 1 - w.c.rxSyncStages);
    }
  }

  /** A line that has not changed since reset, low or high, starts nothing. */
  lemma StillLineDeliversNothing(w: RxWorld, t: nat, level: bool)
    requires ValidWorld(w) && forall j: nat | j < t :: w.line(j) == level
    ensures !RxAt(w, t).running && Delivered(w, t) == []
  {
    hide RxAt, Delivered;
    AtReset(w);
    NothingDelivered(w);
    StaysIdle(w, 0, t);
  }

  lemma NothingDelivered(w: RxWorld)
    requires ValidWorld(w)
    ensures Delivered(w, 0) == []
  {
  }

  lemma CountClock(w: RxWorld, t: nat)
    requires ValidWorld(w) && RxAt(w, t).running && RxAt(w, t).rateCounter > 0
    ensures var r, n := RxAt(w, t), RxAt(w, t + 1);
            n.running && n.rateCounter == r.rateCounter - 1 && n.bitCounter == r.bitCounter && n.bits == r.bits
    ensures Delivered(w, t + 1) == Delivered(w, t)
  {
    hide RxAt, Delivered;
    RxNext(w, t);
  }

  /** The rate counter counts down; the data of a running receiver do not move. */
  lemma {:induction false} CountsDown(w: RxWorld, t: nat, k: nat)
    requires ValidWorld(w) && RxAt(w, t).running && k <= RxAt(w, t).rateCounter
    ensures var r, n := RxAt(w, t), RxAt(w, t + k);
            n.running && n.rateCounter == r.rateCounter - k && n.bitCounter == r.bitCounter && n.bits == r.bits
    ensures Delivered(w, t + k) == Delivered(w, t)
    decreases k
  {
    hide RxAt, Delivered;
    if k > 0 {
      CountsDown(w, t, k - 1);
      CountClock(w, t + k - 1);
    }
  }

  /** The clock at which a bit is sampled. */
  lemma SampleClock(w: RxWorld, t: nat)
    requires ValidWorld(w) && RxAt(w, t).running && RxAt(w, t).rateCounter == 0
    ensures var r, n := RxAt(w, t), RxAt(w, t + 1);
            && n.bits == r.bits[1..] + [Level(w, t - 1 - w.c.rxSyncStages)]
            && if r.bitCounter > 0 then
                 && n.running && n.rateCounter == w.c.baudDivider - 1 && n.bitCounter == r.bitCounter - 1
                 && Delivered(w, t + 1) == Delivered(w, t)
               else
                 && !n.running && n.outValid && n.outBits == FromBits(n.bits) && n.overrun == r.outValid
                 && Delivered(w, t + 1) == Delivered(w, t) + [FromBits(n.bits)]
  {
    hide RxAt, Delivered, FromBits;
    RxNext(w, t);
    SyncDelays(w, t, 0);
  }

  /** The levels a running receiver is going to sample, `n` of them, the first at line time `s`. */
  function Samples(w: RxWorld, s: int, n: nat): (bits: seq<bool>)
    ensures |bits| == n
    decreases n
  {
    if n == 0 then [] else [Level(w, s)] + Samples(w, s + w.c.baudDivider, n - 1)
  }

  lemma SamplesAt(w: RxWorld, s: int, n: nat, k: nat)
    requires k < n
    ensures Samples(w, s, n)[k] == Level(w, s + k * w.c.baudDivider)
    decreases n
  {
    if k > 0 {
      SamplesAt(w, s + w.c.baudDivider, n - 1, k - 1);
      assert (k - 1) * w.c.baudDivider + w.c.baudDivider == k * w.c.baudDivider;
    }
  }

  /** A receiver with `m + 1` bits to go samples them one bit time apart, completes once, and
      goes idle. */
  lemma {:induction false} SamplesTheRest(w: RxWorld, t: nat, m: nat, u: nat, e: nat)
    requires ValidWorld(w) && RxAt(w, t).running && RxAt(w, t).bitCounter == m
    requires u == t + RxAt(w, t).rateCounter
    requires e == u + m * w.c.baudDivider
    ensures var value := FromBits(RxAt(w, t).bits[m + 1..] + Samples(w, u - 1 - w.c.rxSyncStages, m + 1));
            && !RxAt(w, e + 1).running
            && RxAt(w, e + 1).outValid
            && RxAt(w, e + 1).outBits == value
            && RxAt(w, e + 1).overrun == RxAt(w, e).outValid
            && Delivered(w, e + 1) == Delivered(w, t) + [value]
    decreases m
  {
    hide RxAt, Delivered, FromBits, Level, Samples;
    var r := RxAt(w, t);
    var s := u - 1 - w.c.rxSyncStages;
    CountsDown(w, t, r.rateCounter);
    SampleClock(w, u);
    var n := RxAt(w, u + 1);
    var rest := Samples(w, s + w.c.baudDivider, m);
    assert Samples(w, s, m + 1) == [Level(w, s)] + rest by { FirstSample(w, s, m); }
    if m == 0 {
      assert rest == [];
      assert n.bits == r.bits[1..] + Samples(w, s, 1);
    } else {
      BitTimes(m, w.c.baudDivider);
      SamplesTheRest(w, u + 1, m - 1, u + w.c.baudDivider, e);
      assert n.bits[m..] + rest == r.bits[m + 1..] + ([Level(w, s)] + rest);
    }
  }

  lemma FirstSample(w: RxWorld, s: int, m: nat)
    ensures Samples(w, s, m + 1) == [Level(w, s)] + Samples(w, s + w.c.baudDivider, m)
  {
  }

  lemma BitTimes(m: int, d: int)
    ensures (m - 1) * d + d == m * d
  {
  }

  /** The line time of the sample for bit `k` of a frame whose start bit falls at `f`. */
  function SampleTime(c: Config, f: int, k: nat): int {
    f + c.baudDivider * 3 / 2 - 1 + k * c.baudDivider
  }

  /** The clock at which that frame completes. */
  function CompletionTime(c: Config, f: int): int
    requires ValidConfig(c)
  {
    SampleTime(c, f, c.numberOfBits - 1) + 1 + c.rxSyncStages
  }

  /** One frame: an idle receiver that sees the line fall at `f`, and not before, delivers the
      levels at the sample times, least significant bit first, and nothing else, and is idle
      again right after. */
  lemma ReceivesFrame(w: RxWorld, a: nat, f: nat)
    requires ValidWorld(w) && !RxAt(w, a).running
    requires a - w.c.rxSyncStages <= f
    requires forall j | a - w.c.rxSyncStages <= j < f :: !Falls(w, j)
    requires Falls(w, f)
    ensures var e := CompletionTime(w.c, f);
            var value := FromBits(Samples(w, SampleTime(w.c, f, 0), w.c.numberOfBits));
            && e >= a
            && !RxAt(w, e + 1).running
            && RxAt(w, e + 1).outValid && RxAt(w, e + 1).outBits == value
            && RxAt(w, e + 1).overrun == RxAt(w, e).outValid
            && Delivered(w, e + 1) == Delivered(w, a) + [value]
  {
    hide RxAt, Delivered, FromBits, Level, Samples, Falls;
    var d := f + w.c.rxSyncStages;
    StaysIdle(w, a, d);
    IdleClock(w, d);
    var r := RxAt(w, d + 1);
    CompletionAfterStart(w.c, f);
    SamplesTheRest(w, d + 1, w.c.numberOfBits - 1, d + 1 + r.rateCounter, CompletionTime(w.c, f));
    var samples := Samples(w, SampleTime(w.c, f, 0), w.c.numberOfBits);
    assert r.bits[w.c.numberOfBits..] + samples == samples;
  }

  lemma CompletionAfterStart(c: Config, f: nat)
    requires ValidConfig(c)
    ensures CompletionTime(c, f) == f + c.rxSyncStages + c.baudDivider * 3 / 2 + (c.numberOfBits - 1) * c.baudDivider
    ensures SampleTime(c, f, 0) == f + c.baudDivider * 3 / 2 - 1
    ensures CompletionTime(c, f) >= f + c.rxSyncStages
  {
    assert (c.numberOfBits - 1) * c.baudDivider >= 0;
  }

  // ---------------------------------------------------------------- the consumer

  /** The values handed to the consumer before clock `t`, in order. */
  function Taken(w: RxWorld, t: nat): seq<nat>
    requires ValidWorld(w)
    decreases t
  {
    if t == 0 then []
    else if RxAt(w, t - 1).outValid && w.ready(t - 1) then Taken(w, t - 1) + [RxAt(w, t - 1).outBits]
    else Taken(w, t - 1)
  }

  /** The value on offer that has not been taken yet. */
  function Waiting(w: RxWorld, t: nat): seq<nat>
    requires ValidWorld(w)
  {
    if RxAt(w, t).outValid then [RxAt(w, t).outBits] else []
  }

  /** A frame completes over a value that is not being taken. */
  predicate Loses(w: RxWorld, t: nat)
    requires ValidWorld(w)
  {
    Completes(RxAt(w, t)) && RxAt(w, t).outValid && !w.ready(t)
  }

  /** The values overwritten before clock `t`, in order. */
  function Lost(w: RxWorld, t: nat): seq<nat>
    requires ValidWorld(w)
    decreases t
  {
    if t == 0 then []
    else if Loses(w, t - 1) then Lost(w, t - 1) + [RxAt(w, t - 1).outBits]
    else Lost(w, t - 1)
  }

  /** One clock: a ready consumer takes what waits; a completed frame overwrites what still does. */
  lemma ConsumerStep(w: RxWorld, t: nat, done: seq<nat>)
    requires ValidWorld(w)
    requires done == if Completes(RxAt(w, t)) then [RxAt(w, t + 1).outBits] else []
    ensures Delivered(w, t + 1) == Delivered(w, t) + done
    ensures Taken(w, t + 1) == (if w.ready(t) then Taken(w, t) + Waiting(w, t) else Taken(w, t))
    ensures Lost(w, t + 1) == (if !w.ready(t) && done != [] then Lost(w, t) + Waiting(w, t) else Lost(w, t))
    ensures Waiting(w, t + 1) == (if done != [] then done else if w.ready(t) then [] else Waiting(w, t))
  {
    hide RxStep;
    RxNext(w, t);
    LossIsReported(w.c, RxAt(w, t), w.line(t), w.ready(t));
    if !Completes(RxAt(w, t)) {
      TakenIsDropped(w.c, RxAt(w, t), w.line(t), w.ready(t));
    }
    assert Delivered(w, t) + [] == Delivered(w, t);
    assert Taken(w, t) + [] == Taken(w, t) && Lost(w, t) + [] == Lost(w, t);
  }

  lemma TakenIsDropped(c: Config, r: RxRegs, rx: bool, outReady: bool)
    requires ValidRx(c, r) && !Completes(r)
    ensures RxStep(c, r, rx, outReady).outValid == (r.outValid && !outReady)
  {
  }

  ghost predicate Accounts(delivered: seq<nat>, taken: seq<nat>, waiting: seq<nat>, lost: seq<nat>) {
    && multiset(delivered) == multiset(taken) + multiset(waiting) + multiset(lost)
    && (lost == [] ==> delivered == taken + waiting)
  }

  lemma AccountsStep(
      delivered: seq<nat>, taken: seq<nat>, waiting: seq<nat>, lost: seq<nat>, ready: bool, done: seq<nat>)
    requires Accounts(delivered, taken, waiting, lost)
    ensures Accounts(delivered + done,
                     if ready then taken + waiting else taken,
                     if done != [] then done else if ready then [] else waiting,
                     if !ready && done != [] then lost + waiting else lost)
  {
    assert taken + waiting + [] == taken + waiting;
    assert delivered + [] == delivered && taken + [] == taken;
  }

  /** Every value that is completed is taken, waits, or has been overwritten, exactly once, whatever
      the consumer does; and as long as none has been overwritten, the values taken are the values
      completed, in order, up to the one that waits. */
  lemma {:induction false} DeliveredIsAccountedFor(w: RxWorld, t: nat)
    requires ValidWorld(w)
    ensures Accounts(Delivered(w, t), Taken(w, t), Waiting(w, t), Lost(w, t))
    decreases t
  {
    hide RxAt, Taken, Lost, Waiting, Delivered, Accounts;
    if t == 0 {
      ConsumerStart(w);
    } else {
      var p := t - 1;
      DeliveredIsAccountedFor(w, p);
      var done := if Completes(RxAt(w, p)) then [RxAt(w, t).outBits] else [];
      ConsumerStep(w, p, done);
      AccountsStep(Delivered(w, p), Taken(w, p), Waiting(w, p), Lost(w, p), w.ready(p), done);
    }
  }

  lemma ConsumerStart(w: RxWorld)
    requires ValidWorld(w)
    ensures Accounts(Delivered(w, 0), Taken(w, 0), Waiting(w, 0), Lost(w, 0))
  {
  }

  /** A run in which the overrun flag never rises has lost nothing. */
  lemma {:induction false} NoOverrunNoLoss(w: RxWorld, t: nat)
    requires ValidWorld(w)
    requires forall u: nat | u <= t :: !RxAt(w, u).overrun
    ensures Lost(w, t) == []
    decreases t
  {
    hide RxAt;
    if t > 0 {
      NoOverrunNoLoss(w, t - 1);
      RxNext(w, t - 1);
      LossIsReported(w.c, RxAt(w, t - 1), w.line(t - 1), w.ready(t - 1));
    }
  }
}
