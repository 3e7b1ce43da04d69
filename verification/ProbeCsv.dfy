/** The row loop that turns a probe body into records. */
module ProbeCsv {
  import opened Bytes
  import opened ProbeSignals

  datatype Signal = Signal(name: string, width: nat)

  /** The command line asks for at least one signal, and no signal has width zero. */
  predicate ValidSignals(signals: seq<Signal>) {
    |signals| > 0 && PositiveWidths(signals)
  }

  predicate PositiveWidths(signals: seq<Signal>) {
    forall i | 0 <= i < |signals| :: signals[i].width > 0
  }

  function TotalBits(signals: seq<Signal>): nat {
    if signals == [] then 0 else signals[0].width + TotalBits(signals[1..])
  }

  /** Seven bits to a byte, rounded up. */
  function RowSize(signals: seq<Signal>): nat {
    (TotalBits(signals) + 6) / 7
  }

  lemma RowSizePositive(signals: seq<Signal>)
    requires ValidSignals(signals)
    ensures RowSize(signals) > 0 && 0 < TotalBits(signals) <= 7 * RowSize(signals)
  {
  }

  datatype Cell = Name(name: string) | Index(index: nat) | Hex(digits: string)

  function HeaderCells(signals: seq<Signal>): seq<Cell> {
    if signals == [] then [] else [Name(signals[0].name)] + HeaderCells(signals[1..])
  }

  function SignalCells(signals: seq<Signal>, row: seq<byte>, bitOffset: nat): (cells: seq<Cell>)
    requires PositiveWidths(signals)
    requires bitOffset + TotalBits(signals) <= 7 * |row|
    ensures |cells| == |signals|
  {
    if signals == [] then []
    else
      var s := SignalBuffer(row, bitOffset, signals[0].width);
      [Hex(HexDigits(s, NumberOfNibbles(s.width)))] + SignalCells(signals[1..], row, bitOffset + signals[0].width)
  }

  function Record(signals: seq<Signal>, withIndex: bool, row: seq<byte>, index: nat): seq<Cell>
    requires ValidSignals(signals) && |row| == RowSize(signals)
  {
    (if withIndex then [Index(index)] else []) + SignalCells(signals, row, 0)
  }

  function Rows(signals: seq<Signal>, withIndex: bool, body: seq<byte>, index: nat): (rows: seq<seq<Cell>>)
    requires ValidSignals(signals)
    decreases |body|
  {
    RowSizePositive(signals);
    var n := RowSize(signals);
    if |body| < n then []
    else [Record(signals, withIndex, body[..n], index)] + Rows(signals, withIndex, body[n..], index + 1)
  }

  /** Writes a header record and one record for each whole row. */
  method WriteSignals(signals: seq<Signal>, body: seq<byte>, withIndex: bool) returns (records: seq<seq<Cell>>)
    requires ValidSignals(signals)
    ensures records == [(if withIndex then [Name("index")] else []) + HeaderCells(signals)]
                       + Rows(signals, withIndex, body, 0)
  {
    hide HexDigits;
    var totalBytes := RowSize(signals);
    RowSizePositive(signals);
    var header := if withIndex then [Name("index")] else [];
    for k := 0 to |signals|
      invariant header + HeaderCells(signals[k..]) == (if withIndex then [Name("index")] else []) + HeaderCells(signals)
    {
      Associate(header, [Name(signals[k].name)], HeaderCells(signals[k..][1..]));
      assert signals[k..][1..] == signals[k + 1..];
      header := header + [Name(signals[k].name)];
    }
    assert header + [] == header;
    records := [header];
    var head, index := body, 0;
    while |head| >= totalBytes
      invariant index >= 0
      invariant records + Rows(signals, withIndex, head, index) == [header] + Rows(signals, withIndex, body, 0)
      decreases |head|
    {
      var record := WriteRow(signals, head[..totalBytes], withIndex, index);
      Associate(records, [record], Rows(signals, withIndex, head[totalBytes..], index + 1));
      records := records + [record];
      head := head[totalBytes..];
      index := index + 1;
    }
    assert records + [] == records;
  }

  /** One record: each signal formatted from where the one before it ended. */
  method WriteRow(signals: seq<Signal>, row: seq<byte>, withIndex: bool, index: nat) returns (record: seq<Cell>)
    requires ValidSignals(signals) && |row| == RowSize(signals)
    ensures record == Record(signals, withIndex, row, index)
  {
    hide HexDigits;
    RowSizePositive(signals);
    var prefix := if withIndex then [Index(index)] else [];
    record := prefix;
    var bitOffset := 0;
    for k := 0 to |signals|
      invariant bitOffset >= 0 && bitOffset + TotalBits(signals[k..]) == TotalBits(signals)
      invariant record + SignalCells(signals[k..], row, bitOffset) == prefix + SignalCells(signals, row, 0)
    {
      assert signals[k..][1..] == signals[k + 1..];
      var digits := FormatHex(SignalBuffer(row, bitOffset, signals[k].width));
      Associate(record, [Hex(digits)], SignalCells(signals[k + 1..], row, bitOffset + signals[k].width));
      record := record + [Hex(digits)];
      bitOffset := bitOffset + signals[k].width;
    }
    assert record + [] == record;
  }

  /** There is one record for each whole row in the body. */
  lemma RowCount(signals: seq<Signal>, withIndex: bool, body: seq<byte>, index: nat)
    requires ValidSignals(signals)
    ensures RowSize(signals) > 0
    ensures |Rows(signals, withIndex, body, index)| == |body| / RowSize(signals)
  {
    hide Rows, RowSize;
    RowSizePositive(signals);
    RowsByQuotient(signals, withIndex, body, index);
  }

  function Quotient(a: nat, n: nat): nat
    requires n > 0
  {
    a / n
  }

  lemma {:induction false} RowsByQuotient(signals: seq<Signal>, withIndex: bool, body: seq<byte>, index: nat)
    requires ValidSignals(signals)
    ensures RowSize(signals) > 0
    ensures |Rows(signals, withIndex, body, index)| == Quotient(|body|, RowSize(signals))
    decreases |body|
  {
    hide Record, RowSize, ValidSignals, Quotient;
    RowSizePositive(signals);
    var n := RowSize(signals);
    OneMore(|body|, n);
    if |body| >= n {
      RowsByQuotient(signals, withIndex, body[n..], index + 1);
    }
  }

  lemma OneMore(a: nat, n: nat)
    requires n > 0
    ensures Quotient(a, n) == if a < n then 0 else Quotient(a - n, n) + 1
  {
    if a < n {
      QuotientOf(a, n, 0);
    } else {
      var q, r := (a - n) / n, (a - n) % n;
      assert a - n == n * q + r;
      QuotientOf(r, n, q + 1);
      assert a == r + n * (q + 1);
    }
  }

  /** A row is as many bytes as its signals need at seven bits each, and no more. */
  lemma RowSizeIsLeast(signals: seq<Signal>)
    requires ValidSignals(signals)
    ensures 7 * (RowSize(signals) - 1) < TotalBits(signals) <= 7 * RowSize(signals)
  {
    RowSizePositive(signals);
  }

  /** The header names the signals, in order. */
  lemma {:induction false} HeaderNames(signals: seq<Signal>, i: nat)
    requires i < |signals|
    ensures |HeaderCells(signals)| == |signals| && HeaderCells(signals)[i] == Name(signals[i].name)
  {
    if |signals| > 1 {
      HeaderNames(signals[1..], if i == 0 then 0 else i - 1);
    } else {
      assert HeaderCells(signals[1..]) == [];
    }
  }

  /** Record `i` is that of the `i`th row of the body, whatever follows the last whole row. */
  lemma {:induction false} RowIsRecord(signals: seq<Signal>, withIndex: bool, body: seq<byte>, index: nat, i: nat)
    requires ValidSignals(signals)
    requires i * RowSize(signals) + RowSize(signals) <= |body|
    ensures i * RowSize(signals) >= 0
    ensures i < |Rows(signals, withIndex, body, index)|
    ensures Rows(signals, withIndex, body, index)[i] ==
            Record(signals, withIndex, body[i * RowSize(signals)..i * RowSize(signals) + RowSize(signals)], index + i)
    decreases i
  {
    hide Record, RowSize, ValidSignals;
    RowSizePositive(signals);
    var n := RowSize(signals);
    if i > 0 {
      Product(i, n);
      RowIsRecord(signals, withIndex, body[n..], index + 1, i - 1);
      assert body[n..][(i - 1) * n..(i - 1) * n + n] == body[i * n..i * n + n];
    } else {
      assert 0 * n == 0;
    }
  }

  lemma Product(i: nat, n: nat)
    requires i > 0
    ensures (i - 1) * n >= 0 && i * n == (i - 1) * n + n
  {
  }

  // ---------------------------------------------------------------- the reference packing

  /** Values that fit their signals. */
  predicate Fit(signals: seq<Signal>, values: seq<nat>) {
    |values| == |signals| && forall i | 0 <= i < |signals| :: values[i] < Pow2(signals[i].width)
  }

  /** The sampled signals one behind the other, least significant bits first. */
  function SampleBits(signals: seq<Signal>, values: seq<nat>): (bits: seq<bool>)
    requires |values| == |signals|
    ensures |bits| == TotalBits(signals)
  {
    if signals == [] then [] else ToBits(values[0], signals[0].width) + SampleBits(signals[1..], values[1..])
  }

  /** Seven bits to a byte, the top bit always clear. */
  function PackBits(bits: seq<bool>): (bytes: seq<byte>)
    requires |bits| % 7 == 0
    ensures 7 * |bytes| == |bits| && SevenBit(bytes)
    decreases |bits|
  {
    if bits == [] then []
    else
      Pow2Small();
      [FromBits(bits[..7])] + PackBits(bits[7..])
  }

  function PackRow(signals: seq<Signal>, values: seq<nat>): (row: seq<byte>)
    requires |values| == |signals|
    ensures |row| == RowSize(signals) && SevenBit(row)
  {
    var bits := SampleBits(signals, values);
    PackBits(bits + Zeros(7 * RowSize(signals) - |bits|))
  }

  function PackAll(signals: seq<Signal>, samples: seq<seq<nat>>): (body: seq<byte>)
    requires forall s | s in samples :: Fit(signals, s)
  {
    if samples == [] then []
    else
      assert samples[0] in samples && Fit(signals, samples[0]);
      PackRow(signals, samples[0]) + PackAll(signals, samples[1..])
  }

  lemma {:induction false} PackedBits(bits: seq<bool>)
    requires |bits| % 7 == 0
    ensures RowBits(PackBits(bits)) == bits
    decreases |bits|
  {
    hide ToBits, FromBits;
    if bits != [] {
      PackedBits(bits[7..]);
      ToFromBits(bits[..7]);
      assert PackBits(bits)[1..] == PackBits(bits[7..]);
      assert bits == bits[..7] + bits[7..];
    }
  }

  /** The sample that the format's description works out: nine ones are the bytes 7F 03. */
  lemma DescribedSample(name: string)
    ensures PackRow([Signal(name, 9)], [0x1FF]) == [0x7F, 0x03]
  {
    hide ToBits, FromBits, Pow2, RowSize;
    var signals := [Signal(name, 9)];
    NineBits(signals);
    Pow2Small();
    OnesOf(0x1FF, 9, 9);
    OnesOf(0x7F, 7, 7);
    OnesOf(0x03, 2, 7);
    var bits := SampleBits(signals, [0x1FF]);
    assert bits == ToBits(0x1FF, 9) + [];
    var padded := bits + Zeros(5);
    assert forall i | 0 <= i < 14 :: padded[i] == (i < 9);
    var low, high := padded[..7], padded[7..];
    assert low == ToBits(0x7F, 7) && high == ToBits(0x03, 7);
    FromToBits(0x7F, 7);
    FromToBits(0x03, 7);
    assert high[..7] == high && high[7..] == [];
    assert PackBits(high) == [0x03] + PackBits([]);
  }

  lemma NineBits(signals: seq<Signal>)
    requires |signals| == 1 && signals[0].width == 9
    ensures TotalBits(signals) == 9 && RowSize(signals) == 2
  {
    assert TotalBits(signals) == 9 + TotalBits(signals[1..]);
    assert signals[1..] == [];
  }

  /** A number one below a power of two is a run of ones. */
  lemma OnesOf(ones: nat, k: nat, m: nat)
    requires k <= m && k in {2, 7, 9}
    requires ones == (if k == 2 then 3 else if k == 7 then 0x7F else 0x1FF)
    ensures forall i | 0 <= i < m :: ToBits(ones, m)[i] == (i < k)
  {
    hide ToBits, Pow2;
    Pow2Small();
    assert Pow2(9) == 0x200 by { Pow2Nine(); }
    forall i | 0 <= i < m
      ensures ToBits(ones, m)[i] == (i < k)
    {
      MaskBits(k, m, i);
    }
  }

  lemma Pow2Nine()
    ensures Pow2(9) == 0x200
  {
    Pow2Small();
    assert Pow2(9) == 4 * Pow2(7);
  }

  /** Cells that print the given values. */
  predicate Prints(cells: seq<Cell>, signals: seq<Signal>, values: seq<nat>) {
    && |cells| == |signals| == |values|
    && forall i | 0 <= i < |signals| ::
         && cells[i].Hex?
         && |cells[i].digits| == (signals[i].width + 3) / 4
         && HexValue(cells[i].digits) == values[i]
  }

  lemma {:induction false} CellsPrintValues(signals: seq<Signal>, values: seq<nat>, row: seq<byte>, bitOffset: nat)
    requires PositiveWidths(signals) && Fit(signals, values)
    requires bitOffset + TotalBits(signals) <= 7 * |row| && SevenBit(row)
    requires RowBits(row)[bitOffset..bitOffset + TotalBits(signals)] == SampleBits(signals, values)
    ensures Prints(SignalCells(signals, row, bitOffset), signals, values)
    decreases |signals|
  {
    hide ToBits, RowBits, HexDigits, HexValue, Pow2, FromBits;
    if signals != [] {
      var w, n := signals[0].width, TotalBits(signals);
      var s := SignalBuffer(row, bitOffset, w);
      var bits := RowBits(row)[bitOffset..bitOffset + n];
      assert bits[..w] == SignalBits(s);
      assert bits[..w] == ToBits(values[0], w);
      FromToBits(values[0], w);
      DigitsValue(s, NumberOfNibbles(w));
      assert SignalBits(s)[..w] == SignalBits(s);
      assert bits[w..] == RowBits(row)[bitOffset + w..bitOffset + w + TotalBits(signals[1..])];
      assert bits[w..] == SampleBits(signals[1..], values[1..]);
      CellsPrintValues(signals[1..], values[1..], row, bitOffset + w);
    }
  }

  /** The record of a sample, with its index in front when asked for. */
  predicate RecordPrints(record: seq<Cell>, signals: seq<Signal>, withIndex: bool, index: nat, values: seq<nat>) {
    if withIndex then record != [] && record[0] == Index(index) && Prints(record[1..], signals, values)
    else Prints(record, signals, values)
  }

  lemma PackedRecord(signals: seq<Signal>, withIndex: bool, index: nat, values: seq<nat>)
    requires ValidSignals(signals) && Fit(signals, values)
    ensures RecordPrints(Record(signals, withIndex, PackRow(signals, values), index), signals, withIndex, index, values)
  {
    hide RowBits, SignalCells, PackBits, Prints;
    RowSizePositive(signals);
    var bits := SampleBits(signals, values);
    var padded := bits + Zeros(7 * RowSize(signals) - |bits|);
    PackedBits(padded);
    assert padded[0..0 + TotalBits(signals)] == bits;
    var row := PackRow(signals, values);
    CellsPrintValues(signals, values, row, 0);
    var cells := SignalCells(signals, row, 0);
    assert ([Index(index)] + cells)[1..] == cells;
    assert [] + cells == cells;
  }

  /** Packing any list of samples and running the row loop prints every value of every sample, in
      order, and nothing else. */
  lemma {:induction false} PackedSamplesAreRead(
      signals: seq<Signal>, withIndex: bool, samples: seq<seq<nat>>, index: nat)
    requires ValidSignals(signals)
    requires forall s | s in samples :: Fit(signals, s)
    ensures var rows := Rows(signals, withIndex, PackAll(signals, samples), index);
            && |rows| == |samples|
            && forall i | 0 <= i < |samples| :: RecordPrints(rows[i], signals, withIndex, index + i, samples[i])
    decreases |samples|
  {
    hide Record, PackRow, RecordPrints, RowSize;
    RowSizePositive(signals);
    if samples != [] {
      assert samples[0] in samples && forall s | s in samples[1..] :: s in samples;
      var row, rest := PackRow(signals, samples[0]), PackAll(signals, samples[1..]);
      PackedRecord(signals, withIndex, index, samples[0]);
      PackedSamplesAreRead(signals, withIndex, samples[1..], index + 1);
      var later := Rows(signals, withIndex, rest, index + 1);
      assert (row + rest)[..|row|] == row && (row + rest)[|row|..] == rest;
      assert Rows(signals, withIndex, row + rest, index) == [Record(signals, withIndex, row, index)] + later;
      forall i | 0 < i < |samples|
        ensures RecordPrints(([Record(signals, withIndex, row, index)] + later)[i],
                             signals, withIndex, index + i, samples[i])
      {
        assert RecordPrints(later[i - 1], signals, withIndex, (index + 1) + (i - 1), samples[1..][i - 1]);
      }
    }
  }
}
