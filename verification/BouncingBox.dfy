/** The box that bounces over a picture: a save-under buffer that gives the picture back. */
module BouncingBox {
  import opened Bytes

  const BOX_WIDTH: nat := 8
  const BOX_HEIGHT: nat := 8
  const VIDEO_WIDTH: nat := 80
  const VIDEO_HEIGHT: nat := 45

  // ---------------------------------------------------------------- cells of a raster

  /** The place of column `x` of row `y` in a raster of the given width. */
  function Cell(width: nat, x: nat, y: nat): nat {
    y * width + x
  }

  lemma CellNext(width: nat, x: nat, y: nat)
    ensures Cell(width, x + 1, y) == Cell(width, x, y) + 1
    ensures Cell(width, width, y) == Cell(width, 0, y + 1)
  {
  }

  lemma Distribute(a: int, b: int, c: int)
    ensures (a - b - 1) * c == a * c - b * c - c
  {
  }

  lemma RowsApart(width: nat, y: nat, y': nat)
    requires y < y'
    ensures y * width + width <= y' * width
  {
    Distribute(y', y, width);
    NotNegative(y' - y - 1, width);
  }

  lemma NotNegative(a: nat, b: nat)
    ensures a * b >= 0
  {
  }

  lemma CellInside(width: nat, height: nat, x: nat, y: nat)
    requires x < width && y < height
    ensures Cell(width, x, y) < width * height
  {
    RowsApart(width, y, height);
  }

  lemma CellOrder(width: nat, x: nat, y: nat, x': nat, y': nat)
    requires x < width && y < y'
    ensures Cell(width, x, y) < Cell(width, x', y')
  {
    RowsApart(width, y, y');
  }

  lemma CellInjective(width: nat, x: nat, y: nat, x': nat, y': nat)
    requires x < width && x' < width && Cell(width, x, y) == Cell(width, x', y')
    ensures x == x' && y == y'
  {
    if y < y' {
      CellOrder(width, x, y, x', y');
      assert false;
    } else if y' < y {
      CellOrder(width, x', y', x, y);
      assert false;
    }
  }

  /** A rectangle of a raster, end columns and rows excluded. */
  datatype Rect = Rect(xs: nat, ys: nat, xe: nat, ye: nat)

  predicate InRect(r: Rect, x: nat, y: nat) {
    r.xs <= x < r.xe && r.ys <= y < r.ye
  }

  predicate Fits(r: Rect, width: nat, height: nat) {
    r.xs <= r.xe <= width && r.ys <= r.ye <= height
  }

  /** The place of a cell of a rectangle in the rectangle's own buffer. */
  function Place(r: Rect, x: nat, y: nat): nat
    requires InRect(r, x, y)
  {
    Cell(r.xe - r.xs, x - r.xs, y - r.ys)
  }

  /** Whether a cell comes before column `x` of row `y` in reading order. */
  predicate Before(x': nat, y': nat, x: nat, y: nat) {
    y' < y || (y' == y && x' < x)
  }

  lemma PlaceInside(r: Rect, x: nat, y: nat)
    requires InRect(r, x, y)
    ensures Place(r, x, y) < (r.xe - r.xs) * (r.ye - r.ys)
  {
    CellInside(r.xe - r.xs, r.ye - r.ys, x - r.xs, y - r.ys);
  }

  // ---------------------------------------------------------------- copying rectangles

  /** The buffer holds the rectangle's cells, each cut down to a byte. */
  ghost predicate Holds(buffer: seq<byte>, vram: seq<u32>, width: nat, height: nat, r: Rect)
    requires Fits(r, width, height) && |vram| == width * height
    requires |buffer| == (r.xe - r.xs) * (r.ye - r.ys)
  {
    forall x: nat, y: nat | InRect(r, x, y) ::
      && Place(r, x, y) < |buffer| && Cell(width, x, y) < |vram|
      && buffer[Place(r, x, y)] == vram[Cell(width, x, y)] % 0x100
  }

  /** The rectangle shows the buffer, and all other cells are as before. */
  ghost predicate Shown(
    after: seq<u32>, before: seq<u32>, buffer: seq<byte>, width: nat, height: nat, r: Rect)
    requires Fits(r, width, height) && |after| == |before| == width * height
    requires |buffer| == (r.xe - r.xs) * (r.ye - r.ys)
  {
    forall x: nat, y: nat | x < width && y < height ::
      && Cell(width, x, y) < width * height
      && (InRect(r, x, y) ==> Place(r, x, y) < |buffer| && after[Cell(width, x, y)] == buffer[Place(r, x, y)])
      && (!InRect(r, x, y) ==> after[Cell(width, x, y)] == before[Cell(width, x, y)])
  }

  /** The rectangle shows one value, and all other cells are as before. */
  ghost predicate Filled(after: seq<u32>, before: seq<u32>, value: byte, width: nat, height: nat, r: Rect)
    requires |after| == |before| == width * height
  {
    forall x: nat, y: nat | x < width && y < height ::
      && Cell(width, x, y) < width * height
      && after[Cell(width, x, y)] == if InRect(r, x, y) then value else before[Cell(width, x, y)]
  }

  method CopyFromVram(buffer: array<byte>, vram: array<u32>, width: nat, height: nat, r: Rect)
    requires Fits(r, width, height) && vram.Length == width * height
    requires buffer.Length == (r.xe - r.xs) * (r.ye - r.ys)
    modifies buffer
    ensures vram[..] == old(vram[..])
    ensures Holds(buffer[..], vram[..], width, height, r)
  {
    hide Cell;
    var to := 0;
    CellZero(r.xe - r.xs);
    for y := r.ys to r.ye
      invariant vram[..] == old(vram[..])
      invariant to == Cell(r.xe - r.xs, 0, y - r.ys)
      invariant forall x': nat, y': nat | InRect(r, x', y') && y' < y ::
        && Place(r, x', y') < buffer.Length && Cell(width, x', y') < vram.Length
        && buffer[Place(r, x', y')] == vram[Cell(width, x', y')] % 0x100
    {
      var from := Cell(width, r.xs, y);
      for x := r.xs to r.xe
        invariant vram[..] == old(vram[..])
        invariant from == Cell(width, x, y)
        invariant to == Cell(r.xe - r.xs, x - r.xs, y - r.ys)
        invariant forall x': nat, y': nat | InRect(r, x', y') && Before(x', y', x, y) ::
          && Place(r, x', y') < buffer.Length && Cell(width, x', y') < vram.Length
          && buffer[Place(r, x', y')] == vram[Cell(width, x', y')] % 0x100
      {
        CellInside(width, height, x, y);
        PlaceInside(r, x, y);
        forall x': nat, y': nat | InRect(r, x', y') && Before(x', y', x, y)
          ensures Place(r, x', y') != to
        {
          if Place(r, x', y') == to {
            CellInjective(r.xe - r.xs, x' - r.xs, y' - r.ys, x - r.xs, y - r.ys);
          }
        }
        buffer[to] := vram[from] % 0x100;
        CellNext(r.xe - r.xs, x - r.xs, y - r.ys);
        CellNext(width, x, y);
        from := from + 1;
        to := to + 1;
      }
      CellNext(r.xe - r.xs, 0, y - r.ys);
    }
  }

  lemma CellZero(width: nat)
    ensures Cell(width, 0, 0) == 0
  {
  }

  method CopyToVram(vram: array<u32>, buffer: array<byte>, width: nat, height: nat, r: Rect)
    requires Fits(r, width, height) && vram.Length == width * height
    requires buffer.Length == (r.xe - r.xs) * (r.ye - r.ys)
    modifies vram
    ensures buffer[..] == old(buffer[..])
    ensures Shown(vram[..], old(vram[..]), buffer[..], width, height, r)
  {
    hide Cell;
    var from := 0;
    CellZero(r.xe - r.xs);
    AllInside(width, height);
    AllPlaced(r);
    for y := r.ys to r.ye
      invariant buffer[..] == old(buffer[..])
      invariant from == Cell(r.xe - r.xs, 0, y - r.ys)
      invariant forall x': nat, y': nat | x' < width && y' < height ::
        && Cell(width, x', y') < vram.Length
        && (InRect(r, x', y') && y' < y ==>
              Place(r, x', y') < buffer.Length && vram[Cell(width, x', y')] == buffer[Place(r, x', y')])
        && (!(InRect(r, x', y') && y' < y) ==> vram[Cell(width, x', y')] == old(vram[Cell(width, x', y')]))
    {
      var to := Cell(width, r.xs, y);
      for x := r.xs to r.xe
        invariant buffer[..] == old(buffer[..])
        invariant to == Cell(width, x, y)
        invariant from == Cell(r.xe - r.xs, x - r.xs, y - r.ys)
        invariant forall x': nat, y': nat | x' < width && y' < height ::
          && Cell(width, x', y') < vram.Length
          && (InRect(r, x', y') && Before(x', y', x, y) ==>
                Place(r, x', y') < buffer.Length && vram[Cell(width, x', y')] == buffer[Place(r, x', y')])
          && (!(InRect(r, x', y') && Before(x', y', x, y)) ==>
                vram[Cell(width, x', y')] == old(vram[Cell(width, x', y')]))
      {
        OthersApart(width, height, x, y);
        assert from == Place(r, x, y);
        vram[to] := buffer[from];
        CellNext(r.xe - r.xs, x - r.xs, y - r.ys);
        CellNext(width, x, y);
        from := from + 1;
        to := to + 1;
      }
      CellNext(r.xe - r.xs, 0, y - r.ys);
    }
  }

  lemma AllInside(width: nat, height: nat)
    ensures forall x: nat, y: nat | x < width && y < height :: Cell(width, x, y) < width * height
  {
    forall x: nat, y: nat | x < width && y < height
      ensures Cell(width, x, y) < width * height
    {
      CellInside(width, height, x, y);
    }
  }

  lemma AllPlaced(r: Rect)
    requires r.xs <= r.xe && r.ys <= r.ye
    ensures forall x: nat, y: nat | InRect(r, x, y) :: Place(r, x, y) < (r.xe - r.xs) * (r.ye - r.ys)
  {
    forall x: nat, y: nat | InRect(r, x, y)
      ensures Place(r, x, y) < (r.xe - r.xs) * (r.ye - r.ys)
    {
      PlaceInside(r, x, y);
    }
  }

  lemma OthersApart(width: nat, height: nat, x: nat, y: nat)
    requires x < width && y < height
    ensures forall x': nat, y': nat | x' < width && y' < height && Cell(width, x', y') == Cell(width, x, y) ::
              x' == x && y' == y
  {
    forall x': nat, y': nat | x' < width && y' < height && Cell(width, x', y') == Cell(width, x, y)
      ensures x' == x && y' == y
    {
      CellInjective(width, x', y', x, y);
    }
  }

  method FillVram(vram: array<u32>, value: byte, width: nat, height: nat, r: Rect)
    requires Fits(r, width, height) && vram.Length == width * height
    modifies vram
    ensures Filled(vram[..], old(vram[..]), value, width, height, r)
  {
    hide Cell;
    AllInside(width, height);
    for y := r.ys to r.ye
      invariant forall x': nat, y': nat | x' < width && y' < height ::
        && Cell(width, x', y') < vram.Length
        && vram[Cell(width, x', y')] == if InRect(r, x', y') && y' < y then value else old(vram[Cell(width, x', y')])
    {
      var to := Cell(width, r.xs, y);
      for x := r.xs to r.xe
        invariant to == Cell(width, x, y)
        invariant forall x': nat, y': nat | x' < width && y' < height ::
          && Cell(width, x', y') < vram.Length
          && vram[Cell(width, x', y')] ==
             if InRect(r, x', y') && Before(x', y', x, y) then value else old(vram[Cell(width, x', y')])
      {
        OthersApart(width, height, x, y);
        vram[to] := value;
        CellNext(width, x, y);
        to := to + 1;
      }
    }
  }

  // ---------------------------------------------------------------- the bounce

  /** A signed step added to an unsigned position, modulo 2^32. */
  function AddWrapping(x: u32, d: int): u32 {
    (x + d % 0x1_0000_0000) % 0x1_0000_0000
  }

  /** One frame's move along one axis: step, then turn round at an edge. */
  function Bounce(screen: nat, box: nat, x: u32, d: int): (u32, int) {
    var n := AddWrapping(x, d);
    (n, if n == 0 || n + box == screen then -d else d)
  }

  /** The triangle wave between 0 and `span`. */
  function Triangle(span: nat, n: nat): (x: nat)
    requires span > 0
    ensures x <= span
  {
    var m := n % (2 * span);
    if m <= span then m else 2 * span - m
  }

  function Direction(span: nat, n: nat): int
    requires span > 0
  {
    if n % (2 * span) < span then 1 else -1
  }

  lemma NextModulo(n: nat, p: nat)
    requires p > 0
    ensures (n + 1) % p == if n % p + 1 == p then 0 else n % p + 1
  {
    var q, r := n / p, n % p;
    assert n == p * q + r;
    if r + 1 == p {
      QuotientOf(0, p, q + 1);
      assert n + 1 == p * (q + 1);
    } else {
      QuotientOf(r + 1, p, q);
    }
  }

  lemma WrappingStep(x: u32, d: int)
    requires (d == 1 && x < 0x8000_0000) || (d == -1 && x > 0)
    ensures AddWrapping(x, d) == x + d
  {
  }

  lemma TriangleStep(span: nat, n: nat)
    requires span > 0
    ensures Triangle(span, n + 1) == Triangle(span, n) + Direction(span, n)
    ensures Direction(span, n + 1) ==
            if Triangle(span, n + 1) == 0 || Triangle(span, n + 1) == span then -Direction(span, n)
            else Direction(span, n)
  {
    NextModulo(n, 2 * span);
  }

  /** Unsigned wrap-around and turning at the edges make the box follow the triangle wave. */
  lemma BounceIsTriangle(screen: nat, box: nat, n: nat)
    requires 0 < box < screen < 0x8000_0000
    ensures var span := screen - box;
            Bounce(screen, box, Triangle(span, n), Direction(span, n))
            == (Triangle(span, n + 1), Direction(span, n + 1))
  {
    hide Triangle, Direction, AddWrapping;
    var span := screen - box;
    TriangleStep(span, n);
    DirectionIsUnit(span, n);
    WrappingStep(Triangle(span, n), Direction(span, n));
  }

  lemma WaveStarts(span: nat)
    requires span > 0
    ensures Triangle(span, 0) == 0 && Direction(span, 0) == 1
  {
  }

  lemma DirectionIsUnit(span: nat, n: nat)
    requires span > 0
    ensures Direction(span, n) == 1 || (Direction(span, n) == -1 && Triangle(span, n) > 0)
  {
  }

  lemma ModuloShift(n: nat, k: nat, p: nat)
    requires p > 0
    ensures (n + k * p) % p == n % p
  {
    var q, r := n / p, n % p;
    assert n == p * q + r;
    assert n + k * p == r + p * (q + k);
    QuotientOf(r, p, q + k);
  }

  lemma OnePeriodLater(span: nat, m: nat)
    requires span > 0
    ensures Triangle(span, 2 * span + m) == Triangle(span, m)
    ensures Triangle(span, 2 * span) == 0
    ensures Triangle(span, m) == 0 <==> m % (2 * span) == 0
  {
    var p := 2 * span;
    ModuloShift(m, 1, p);
    ModuloShift(0, 1, p);
  }

  /** The wave repeats after exactly the multiples of twice its span. */
  lemma TrianglePeriod(span: nat, m: nat)
    requires span > 0
    ensures m % (2 * span) == 0 <==> forall n: nat | n >= 1 :: Triangle(span, n + m) == Triangle(span, n)
  {
    var p := 2 * span;
    if m % p == 0 {
      forall n: nat | n >= 1
        ensures Triangle(span, n + m) == Triangle(span, n)
      {
        assert m == (m / p) * p;
        ModuloShift(n, m / p, p);
      }
    } else {
      OnePeriodLater(span, m);
      assert Triangle(span, p + m) != Triangle(span, p);
    }
  }

  // ---------------------------------------------------------------- the animation

  function BoxAt(x: nat, y: nat): Rect {
    Rect(x, y, x + BOX_WIDTH, y + BOX_HEIGHT)
  }

  /** The picture with a black box over it. */
  ghost predicate PictureWithBox(vram: seq<u32>, background: seq<u32>, width: nat, height: nat, box: Rect)
    requires |vram| == |background| == width * height
  {
    Filled(vram, background, 0, width, height, box)
  }

  lemma CellOf(width: nat, height: nat, i: nat) returns (x: nat, y: nat)
    requires i < width * height
    ensures x < width && y < height && Cell(width, x, y) == i
  {
    if width == 0 {
      assert false;
    }
    x, y := i % width, i / width;
    assert i == y * width + x;
    if y >= height {
      ScaleMonotone(height, y, width);
      assert false;
    }
  }

  /** Where the box is drawn in frame `n`. */
  function BoxInFrame(width: nat, height: nat, n: nat): (r: Rect)
    requires BOX_WIDTH < width && BOX_HEIGHT < height
    ensures Fits(r, width, height)
  {
    BoxAt(Triangle(width - BOX_WIDTH, n), Triangle(height - BOX_HEIGHT, n))
  }

  /** From the first frame on the whole picture repeats after every common multiple of the two
      periods. */
  lemma PictureRepeats(width: nat, height: nat, background: seq<u32>, now: seq<u32>, later: seq<u32>, n: nat, m: nat)
    requires BOX_WIDTH < width && BOX_HEIGHT < height
    requires |background| == |now| == |later| == width * height
    requires m % (2 * (width - BOX_WIDTH)) == 0 && m % (2 * (height - BOX_HEIGHT)) == 0
    requires n >= 1
    requires PictureWithBox(now, background, width, height, BoxInFrame(width, height, n))
    requires PictureWithBox(later, background, width, height, BoxInFrame(width, height, n + m))
    ensures now == later
  {
    hide Cell, Triangle;
    TrianglePeriod(width - BOX_WIDTH, m);
    TrianglePeriod(height - BOX_HEIGHT, m);
    forall i | 0 <= i < width * height
      ensures now[i] == later[i]
    {
      var x, y := CellOf(width, height, i);
    }
  }

  /** A background without black cells, such as the seven bands. */
  predicate NoBlack(background: seq<u32>) {
    forall i | 0 <= i < |background| :: background[i] != 0
  }

  /** On such a background a picture shows where its box is. */
  lemma PictureShowsBox(width: nat, height: nat, background: seq<u32>, vram: seq<u32>, x: nat, y: nat, x': nat, y': nat)
    requires |background| == |vram| == width * height && NoBlack(background)
    requires x + BOX_WIDTH <= width && y + BOX_HEIGHT <= height
    requires x' + BOX_WIDTH <= width && y' + BOX_HEIGHT <= height
    requires PictureWithBox(vram, background, width, height, BoxAt(x, y))
    requires PictureWithBox(vram, background, width, height, BoxAt(x', y'))
    ensures x == x' && y == y'
  {
    hide Cell;
    var i, j := Cell(width, x, y), Cell(width, x', y');
    assert InRect(BoxAt(x, y), x, y) && vram[i] == 0 && background[i] != 0;
    assert InRect(BoxAt(x', y'), x', y') && vram[j] == 0 && background[j] != 0;
  }

  /** The pictures of a run repeat after `m` frames, from the first frame on, exactly when `m` is a
      common multiple of the two periods. */
  lemma PictureRepeatsExactly(width: nat, height: nat, background: seq<u32>, picture: nat -> seq<u32>, m: nat)
    requires BOX_WIDTH < width && BOX_HEIGHT < height
    requires |background| == width * height && NoBlack(background)
    requires forall n: nat | n >= 1 :: |picture(n)| == width * height
    requires forall n: nat | n >= 1 ::
               PictureWithBox(picture(n), background, width, height, BoxInFrame(width, height, n))
    ensures (forall n: nat | n >= 1 :: picture(n + m) == picture(n))
       <==> m % (2 * (width - BOX_WIDTH)) == 0 && m % (2 * (height - BOX_HEIGHT)) == 0
  {
    hide Cell, Triangle, PictureWithBox, NoBlack;
    var across, down := width - BOX_WIDTH, height - BOX_HEIGHT;
    if m % (2 * across) == 0 && m % (2 * down) == 0 {
      forall n: nat | n >= 1
        ensures picture(n + m) == picture(n)
      {
        PictureRepeats(width, height, background, picture(n), picture(n + m), n, m);
      }
    } else if forall n: nat | n >= 1 :: picture(n + m) == picture(n) {
      forall n: nat | n >= 1
        ensures Triangle(across, n + m) == Triangle(across, n) && Triangle(down, n + m) == Triangle(down, n)
      {
        assert picture(n + m) == picture(n);
        PictureShowsBox(width, height, background, picture(n), Triangle(across, n + m), Triangle(down, n + m),
                        Triangle(across, n), Triangle(down, n));
      }
      TrianglePeriod(across, m);
      TrianglePeriod(down, m);
    }
  }

  /** On the 80 by 45 screen the common multiples are the multiples of 5328. */
  lemma VideoPeriod(m: nat)
    ensures m % (2 * (VIDEO_WIDTH - BOX_WIDTH)) == 0 && m % (2 * (VIDEO_HEIGHT - BOX_HEIGHT)) == 0 <==> m % 5328 == 0
  {
    if m % 144 == 0 && m % 74 == 0 {
      var k := CommonFactor(m / 144, m / 74);
      QuotientOf(0, 5328, k);
    }
    if m % 5328 == 0 {
      QuotientOf(0, 144, 37 * (m / 5328));
      QuotientOf(0, 74, 72 * (m / 5328));
    }
  }

  lemma CommonFactor(a: nat, b: nat) returns (k: nat)
    requires 144 * a == 74 * b
    ensures a == 37 * k
  {
    k := a - 18 * (2 * a - b);
  }

  // ---------------------------------------------------------------- the frame loop, on values

  /** What the frame loop carries from one turn to the next. */
  datatype Scene = Scene(vram: seq<u32>, boxBuffer: seq<byte>, boxX: u32, boxY: u32, stepX: int, stepY: int)
  {
    function Box(): Rect {
      BoxAt(boxX, boxY)
    }

    predicate WellSized(width: nat, height: nat) {
      |vram| == width * height && |boxBuffer| == BOX_WIDTH * BOX_HEIGHT
    }
  }

  /** A picture of 8-bit values on a screen larger than the box. */
  predicate PictureSizes(width: nat, height: nat, background: seq<u32>) {
    && BOX_WIDTH < width < 0x8000_0000 && BOX_HEIGHT < height < 0x8000_0000
    && |background| == width * height
    && forall i | 0 <= i < |background| :: background[i] < 0x100
  }

  /** Before the first turn: the picture, and the buffer filled from its corner. */
  ghost predicate Initial(width: nat, height: nat, background: seq<u32>, s: Scene)
    requires PictureSizes(width, height, background)
  {
    && s.WellSized(width, height) && s.vram == background
    && (s.boxX, s.boxY, s.stepX, s.stepY) == (0, 0, 1, 1)
    && Holds(s.boxBuffer, background, width, height, s.Box())
  }

  /** One turn by way of the screen `mid`: the buffer is copied back, the box moves, the buffer is
      filled from the new place and the box is drawn there.  Nothing is said of what a copy does
      with a box that is not on the screen. */
  ghost predicate TurnVia(width: nat, height: nat, s: Scene, mid: seq<u32>, t: Scene)
    requires s.WellSized(width, height) && t.WellSized(width, height) && |mid| == width * height
  {
    && (Fits(s.Box(), width, height) ==> Shown(mid, s.vram, s.boxBuffer, width, height, s.Box()))
    && (t.boxX, t.stepX) == Bounce(width, BOX_WIDTH, s.boxX, s.stepX)
    && (t.boxY, t.stepY) == Bounce(height, BOX_HEIGHT, s.boxY, s.stepY)
    && (Fits(t.Box(), width, height) ==>
          && Holds(t.boxBuffer, mid, width, height, t.Box())
          && Filled(t.vram, mid, 0, width, height, t.Box()))
  }

  ghost predicate Turn(width: nat, height: nat, s: Scene, t: Scene) {
    && s.WellSized(width, height) && t.WellSized(width, height)
    && exists mid: seq<u32> | |mid| == width * height :: TurnVia(width, height, s, mid, t)
  }

  predicate OnWaves(width: nat, height: nat, n: nat, s: Scene)
    requires BOX_WIDTH < width && BOX_HEIGHT < height
  {
    && (s.boxX, s.stepX) == (Triangle(width - BOX_WIDTH, n), Direction(width - BOX_WIDTH, n))
    && (s.boxY, s.stepY) == (Triangle(height - BOX_HEIGHT, n), Direction(height - BOX_HEIGHT, n))
  }

  /** The save-under invariant after `n` turns: the box is where the triangle waves put it, the
      buffer holds the picture under it, and outside it the screen shows the picture. */
  ghost predicate SavesUnder(width: nat, height: nat, background: seq<u32>, n: nat, s: Scene)
    requires PictureSizes(width, height, background)
  {
    && s.WellSized(width, height) && OnWaves(width, height, n, s)
    && s.Box() == BoxInFrame(width, height, n)
    && Holds(s.boxBuffer, background, width, height, s.Box())
    && if n == 0 then s.vram == background else PictureWithBox(s.vram, background, width, height, s.Box())
  }

  lemma InitialSavesUnder(width: nat, height: nat, background: seq<u32>, s: Scene)
    requires PictureSizes(width, height, background) && Initial(width, height, background, s)
    ensures SavesUnder(width, height, background, 0, s)
  {
    hide Cell, Triangle, Direction, Holds;
    WaveStarts(width - BOX_WIDTH);
    WaveStarts(height - BOX_HEIGHT);
  }

  /** Copying the buffer back gives the whole picture back. */
  lemma PictureIsRestored(width: nat, height: nat, background: seq<u32>, n: nat, s: Scene, mid: seq<u32>)
    requires PictureSizes(width, height, background) && SavesUnder(width, height, background, n, s)
    requires |mid| == width * height && Shown(mid, s.vram, s.boxBuffer, width, height, s.Box())
    ensures mid == background
  {
    hide Cell, Triangle, Direction;
    forall i | 0 <= i < width * height
      ensures mid[i] == background[i]
    {
      var x, y := CellOf(width, height, i);
      assert background[Cell(width, x, y)] < 0x100;
    }
  }

  lemma MoveStaysOnWaves(width: nat, height: nat, n: nat, s: Scene, t: Scene)
    requires BOX_WIDTH < width < 0x8000_0000 && BOX_HEIGHT < height < 0x8000_0000
    requires OnWaves(width, height, n, s)
    requires (t.boxX, t.stepX) == Bounce(width, BOX_WIDTH, s.boxX, s.stepX)
    requires (t.boxY, t.stepY) == Bounce(height, BOX_HEIGHT, s.boxY, s.stepY)
    ensures OnWaves(width, height, n + 1, t) && t.Box() == BoxInFrame(width, height, n + 1)
  {
    hide Triangle, Direction, Bounce;
    BounceIsTriangle(width, BOX_WIDTH, n);
    BounceIsTriangle(height, BOX_HEIGHT, n);
  }

  /** Every turn keeps the save-under invariant. */
  lemma TurnSavesUnder(width: nat, height: nat, background: seq<u32>, n: nat, s: Scene, t: Scene)
    requires PictureSizes(width, height, background) && SavesUnder(width, height, background, n, s)
    requires Turn(width, height, s, t)
    ensures SavesUnder(width, height, background, n + 1, t)
  {
    hide Holds, Filled, Shown, Bounce, OnWaves;
    var mid :| |mid| == width * height && TurnVia(width, height, s, mid, t);
    PictureIsRestored(width, height, background, n, s, mid);
    MoveStaysOnWaves(width, height, n, s, t);
  }

  /** The frame loop: it begins with a picture and turns for ever. */
  ghost predicate FrameLoop(width: nat, height: nat, background: seq<u32>, scenes: nat -> Scene)
    requires PictureSizes(width, height, background)
  {
    Initial(width, height, background, scenes(0)) && forall n: nat :: TurnAt(width, height, scenes, n)
  }

  ghost predicate TurnAt(width: nat, height: nat, scenes: nat -> Scene, n: nat) {
    Turn(width, height, scenes(n), scenes(n + 1))
  }

  /** The invariant holds at every turn of the endless loop. */
  lemma {:induction false} LoopSavesUnder(
      width: nat, height: nat, background: seq<u32>, scenes: nat -> Scene, n: nat)
    requires PictureSizes(width, height, background) && FrameLoop(width, height, background, scenes)
    ensures SavesUnder(width, height, background, n, scenes(n))
    decreases n
  {
    hide SavesUnder, Turn, Initial;
    if n == 0 {
      InitialSavesUnder(width, height, background, scenes(0));
    } else {
      LoopSavesUnder(width, height, background, scenes, n - 1);
      assert TurnAt(width, height, scenes, n - 1);
      TurnSavesUnder(width, height, background, n - 1, scenes(n - 1), scenes(n));
    }
  }

  /** What the endless loop shows repeats after `m` frames, from the first frame on, exactly when `m`
      is a common multiple of the two periods. */
  lemma LoopRepeatsExactly(width: nat, height: nat, background: seq<u32>, scenes: nat -> Scene, m: nat)
    requires PictureSizes(width, height, background) && FrameLoop(width, height, background, scenes)
    requires NoBlack(background)
    ensures (forall n: nat | n >= 1 :: scenes(n + m).vram == scenes(n).vram)
       <==> m % (2 * (width - BOX_WIDTH)) == 0 && m % (2 * (height - BOX_HEIGHT)) == 0
  {
    hide FrameLoop, NoBlack, Holds, PictureWithBox, OnWaves, BoxInFrame;
    var picture: nat -> seq<u32> := n => scenes(n).vram;
    forall n: nat | n >= 1
      ensures |picture(n)| == width * height
      ensures PictureWithBox(picture(n), background, width, height, BoxInFrame(width, height, n))
    {
      LoopSavesUnder(width, height, background, scenes, n);
    }
    PictureRepeatsExactly(width, height, background, picture, m);
    assert forall n: nat | n >= 1 :: picture(n + m) == picture(n) <==> scenes(n + m).vram == scenes(n).vram;
  }

  class Screen {
    const width: nat
    const height: nat
    const vram: array<u32>
    const boxBuffer: array<byte>
    ghost const background: seq<u32>
    ghost var frame: nat
    var boxX: u32
    var boxY: u32
    var stepX: int
    var stepY: int

    ghost function Value(): Scene
      reads this, vram, boxBuffer
    {
      Scene(vram[..], boxBuffer[..], boxX, boxY, stepX, stepY)
    }

    ghost predicate Sizes()
      reads this
    {
      && PictureSizes(width, height, background)
      && vram.Length == width * height && boxBuffer.Length == BOX_WIDTH * BOX_HEIGHT
    }

    ghost predicate Valid()
      reads this, vram, boxBuffer
    {
      Sizes() && SavesUnder(width, height, background, frame, Value())
    }

    constructor (width: nat, height: nat, vram: array<u32>)
      requires BOX_WIDTH < width < 0x8000_0000 && BOX_HEIGHT < height < 0x8000_0000
      requires vram.Length == width * height
      requires forall i | 0 <= i < vram.Length :: vram[i] < 0x100
      ensures Valid() && fresh(boxBuffer)
      ensures this.width == width && this.height == height && this.vram == vram
      ensures frame == 0 && background == old(vram[..])
      ensures Initial(width, height, background, Value())
    {
      this.width, this.height, this.vram := width, height, vram;
      boxBuffer := new byte[BOX_WIDTH * BOX_HEIGHT](_ => 0);
      background := vram[..];
      frame := 0;
      boxX, boxY, stepX, stepY := 0, 0, 1, 1;
      new;
      hide Holds, SavesUnder;
      CopyFromVram(boxBuffer, vram, width, height, BoxAt(0, 0));
      InitialSavesUnder(width, height, background, Value());
    }

    /** One turn of the frame loop: give the picture back, move, save what is underneath, draw. */
    method DrawFrame()
      requires Valid()
      modifies this`frame, this`boxX, this`boxY, this`stepX, this`stepY, vram, boxBuffer
      ensures Turn(width, height, old(Value()), Value())
      ensures Valid() && frame == old(frame) + 1
      ensures PictureWithBox(vram[..], background, width, height, BoxInFrame(width, height, frame))
    {
      hide Holds, Filled, Shown, Bounce, OnWaves;
      ghost var before := Value();
      Restore();
      ghost var mid := vram[..];
      Move();
      MoveStaysOnWaves(width, height, frame, before, Value());
      Draw();
      frame := frame + 1;
      assert TurnVia(width, height, before, mid, Value());
      TurnSavesUnder(width, height, background, frame - 1, before, Value());
    }

    /** Copies the saved cells back: the whole picture is on the screen again. */
    method Restore()
      requires Valid()
      modifies vram
      ensures Shown(vram[..], old(vram[..]), boxBuffer[..], width, height, BoxAt(boxX, boxY))
      ensures vram[..] == background
    {
      hide Holds, Filled, Shown, OnWaves, PictureWithBox;
      ghost var before := Value();
      CopyToVram(vram, boxBuffer, width, height, BoxAt(boxX, boxY));
      PictureIsRestored(width, height, background, frame, before, vram[..]);
    }

    /** Steps the box and turns it round at the edges. */
    method Move()
      modifies this`boxX, this`boxY, this`stepX, this`stepY
      ensures (boxX, stepX) == Bounce(width, BOX_WIDTH, old(boxX), old(stepX))
      ensures (boxY, stepY) == Bounce(height, BOX_HEIGHT, old(boxY), old(stepY))
    {
      hide AddWrapping;
      boxX := AddWrapping(boxX, stepX);
      boxY := AddWrapping(boxY, stepY);
      if boxX == 0 || boxX + BOX_WIDTH == width {
        stepX := -stepX;
      }
      if boxY == 0 || boxY + BOX_HEIGHT == height {
        stepY := -stepY;
      }
    }

    /** Saves what is under the box and draws the box over it. */
    method Draw()
      requires Sizes() && Fits(BoxAt(boxX, boxY), width, height)
      modifies vram, boxBuffer
      ensures Holds(boxBuffer[..], old(vram[..]), width, height, BoxAt(boxX, boxY))
      ensures Filled(vram[..], old(vram[..]), 0, width, height, BoxAt(boxX, boxY))
    {
      hide Holds, Filled;
      CopyFromVram(boxBuffer, vram, width, height, BoxAt(boxX, boxY));
      FillVram(vram, 0, width, height, BoxAt(boxX, boxY));
    }
  }
}
