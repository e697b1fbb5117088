/**
 * What the ST7735R driver sends to the controller, as a sequence of bus
 * events, and the decoders that read a sequence back.
 *
 * Every `_JMEST7735R_write_command` is one `Cmd` event and every
 * `_JMEST7735R_write_data` or `JMEST7735R_seqWrite` one `Data` event; the
 * chip-select, read/write strobes and NOPs around them are folded into the
 * event. `Delay`, `Led` and `Reset` record the adapter macros
 * `JMEST7735R_delayMS`, `JMEST7735R_LEDON/LEDOFF` and
 * `JMEST7735R_RESETENABLE/RESETDISABLE`.
 *
 * The functions here say, for each drawing request, which events it
 * produces; the methods of `ST7735R.Panel` are proved to append exactly
 * these, and the lemmas here say what the events mean to the controller:
 * which window is addressed and which colour each streamed pixel gets.
 */
module ST7735RTrace {
  import opened JMEBase
  import opened JMEMath
  import opened JMEGeometry

  /** An RGB565 colour, sent high byte first. */
  type Color = uint16

  datatype Event =
    | Cmd(op: uint8)
    | Data(value: uint8)
    | Delay(ms: nat)
    | Led(on: bool)
    | Reset(active: bool)

  // Opcodes of the Sitronix ST7735R command set used by the driver.
  const NOP: uint8 := 0x00
  const SWRESET: uint8 := 0x01
  const SLPIN: uint8 := 0x10
  const SLPOUT: uint8 := 0x11
  const DISPON: uint8 := 0x29
  const CASET: uint8 := 0x2A
  const RASET: uint8 := 0x2B
  const RAMWR: uint8 := 0x2C
  const MADCTL: uint8 := 0x36
  const COLMOD: uint8 := 0x3A
  const FRMCTR1: uint8 := 0xB1
  const FRMCTR2: uint8 := 0xB2
  const FRMCTR3: uint8 := 0xB3
  const INVCTR: uint8 := 0xB4
  const PWCTR1: uint8 := 0xC0
  const PWCTR2: uint8 := 0xC1
  const PWCTR3: uint8 := 0xC2
  const PWCTR4: uint8 := 0xC3
  const PWCTR5: uint8 := 0xC4
  const VMCTR1: uint8 := 0xC5
  const GMCTRP1: uint8 := 0xE0
  const GMCTRN1: uint8 := 0xE1
  const EXTCTRL: uint8 := 0xF0

  /** `JMEST7735R_IPF_16`: 16 bits per pixel, the COLMOD parameter of 65k-colour mode. */
  const IPF_16: uint8 := 0x05

  /** `kJMEST7735RScreenFrame`: the 128 x 160 panel. */
  const ScreenFrame: Rect := Rect(Point(0, 0), Size(128, 160))

  const NumberSize: Size := Size(5, 8)
  const AsciiSize: Size := Size(8, 12)

  /**
   * `JMEASCII_NUMBER`: five column bytes per digit 0..9; bit `r` of a column
   * byte is the pixel on row `r` (row 0 at the top).
   */
  const NumberFont: seq<uint8> :=
    [0x3E, 0x51, 0x49, 0x45, 0x3E] +
    [0x00, 0x42, 0x7F, 0x40, 0x00] +
    [0x72, 0x49, 0x49, 0x49, 0x46] +
    [0x21, 0x41, 0x49, 0x4D, 0x33] +
    [0x18, 0x14, 0x12, 0x7F, 0x10] +
    [0x27, 0x45, 0x45, 0x45, 0x39] +
    [0x3C, 0x4A, 0x49, 0x49, 0x31] +
    [0x41, 0x21, 0x11, 0x09, 0x07] +
    [0x36, 0x49, 0x49, 0x49, 0x36] +
    [0x46, 0x49, 0x49, 0x29, 0x1E]

  // ---------------------------------------------------------------------
  // Pixel streams

  function Hi(c: Color): uint8 { c / 0x100 }
  function Lo(c: Color): uint8 { c % 0x100 }

  /** The data bytes of a colour stream: each colour high byte first, then low byte. */
  function PixelData(cs: seq<Color>): (ev: seq<Event>)
    ensures |ev| == 2 * |cs|
  {
    if cs == [] then []
    else PixelData(cs[..|cs| - 1]) + [Data(Hi(cs[|cs| - 1])), Data(Lo(cs[|cs| - 1]))]
  }

  /** Reads a colour stream back: pairs of data bytes, high byte first. */
  function DecodePixels(ev: seq<Event>): Option<seq<Color>>
  {
    if ev == [] then Some([])
    else if |ev| >= 2 && ev[|ev| - 2].Data? && ev[|ev| - 1].Data? then
      match DecodePixels(ev[..|ev| - 2])
      case None => None
      case Some(cs) => Some(cs + [ev[|ev| - 2].value * 0x100 + ev[|ev| - 1].value])
    else None
  }

  /** `n` copies of one colour. */
  function Repeat(c: Color, n: nat): (cs: seq<Color>)
    ensures |cs| == n && forall i :: 0 <= i < n ==> cs[i] == c
  {
    seq(n, i requires 0 <= i < n => c)
  }

  /** Two runs of one colour make one run. */
  lemma RepeatAppend(c: Color, m: nat, n: nat)
    ensures Repeat(c, m) + Repeat(c, n) == Repeat(c, m + n)
  {
    assert forall i :: 0 <= i < m + n ==> (Repeat(c, m) + Repeat(c, n))[i] == c;
  }

  lemma {:induction false} PixelDataAppend(a: seq<Color>, b: seq<Color>)
    ensures PixelData(a + b) == PixelData(a) + PixelData(b)
    decreases |b|
  {
    if b == [] {
      assert a + b == a;
    } else {
      var b' := b[..|b| - 1];
      assert (a + b)[..|a + b| - 1] == a + b';
      PixelDataAppend(a, b');
    }
  }

  /** Colour `k` of the stream sits at data bytes `2k` (high) and `2k + 1` (low). */
  lemma {:induction false} PixelDataAt(cs: seq<Color>, k: nat)
    requires k < |cs|
    ensures PixelData(cs)[2 * k] == Data(Hi(cs[k]))
    ensures PixelData(cs)[2 * k + 1] == Data(Lo(cs[k]))
  {
    if k < |cs| - 1 {
      PixelDataAt(cs[..|cs| - 1], k);
    }
  }

  /** Decoding a colour stream gives back the colours. */
  lemma {:induction false} PixelsRoundTrip(cs: seq<Color>)
    ensures DecodePixels(PixelData(cs)) == Some(cs)
  {
    if cs != [] {
      var ev := PixelData(cs);
      var init := cs[..|cs| - 1];
      assert ev[..|ev| - 2] == PixelData(init);
      PixelsRoundTrip(init);
      var c := cs[|cs| - 1];
      assert Hi(c) * 0x100 + Lo(c) == c;
      assert init + [c] == cs;
    }
  }

  /** A sequence of at least two elements is its front followed by its last two. */
  lemma LastTwo<T>(s: seq<T>)
    requires |s| >= 2
    ensures s == s[..|s| - 2] + [s[|s| - 2], s[|s| - 1]]
  {
    assert s[..|s| - 2] + [s[|s| - 2], s[|s| - 1]] == s[..|s| - 2] + s[|s| - 2..];
  }

  /** Every event sequence the decoder accepts is the stream of what it decodes to. */
  lemma {:induction false} PixelsDecodeInverse(ev: seq<Event>, cs: seq<Color>)
    requires DecodePixels(ev) == Some(cs)
    ensures PixelData(cs) == ev
    decreases |ev|
  {
    if ev != [] {
      assert |ev| >= 2 && ev[|ev| - 2].Data? && ev[|ev| - 1].Data?;
      var init := ev[..|ev| - 2];
      var cs' := DecodePixels(init).value;
      PixelsDecodeInverse(init, cs');
      var hi: int, lo: int := ev[|ev| - 2].value, ev[|ev| - 1].value;
      var c := hi * 0x100 + lo;
      assert cs == cs' + [c];
      assert cs[..|cs| - 1] == cs';
      DivModUnique(c, 0x100, hi, lo);
      assert PixelData(cs) == PixelData(cs') + [Data(hi), Data(lo)];
      LastTwo(ev);
    }
  }

  // ---------------------------------------------------------------------
  // Address window and memory write

  /**
   * The ten events of `_JMEST7735R_setDrawWindow`: column range, then row
   * range, each as two big-endian 16-bit bounds whose high byte is 0 and
   * whose end is inclusive, truncated to 8 bits.
   */
  function WindowTrace(rect: Rect): (ev: seq<Event>)
    ensures |ev| == 10
  {
    var x0 := U8(rect.origin.x + ScreenFrame.origin.x);
    var x1 := U8(x0 + rect.size.width - 1);
    var y0 := U8(rect.origin.y + ScreenFrame.origin.y);
    var y1 := U8(y0 + rect.size.height - 1);
    RangeTrace(CASET, x0, x1) + RangeTrace(RASET, y0, y1)
  }

  /** A CASET or RASET command with its inclusive bounds, each sent as a 16-bit value with high byte 0. */
  function RangeTrace(command: uint8, start: uint8, end: uint8): seq<Event>
  {
    [Cmd(command), Data(0), Data(start), Data(0), Data(end)]
  }

  /** The rect a CASET/RASET pair addresses, if it is one with a start not after its end. */
  function WindowOf(ev: seq<Event>): Option<Rect>
  {
    if && |ev| == 10
       && ev[0] == Cmd(CASET) && ev[1] == Data(0) && ev[2].Data? && ev[3] == Data(0) && ev[4].Data?
       && ev[5] == Cmd(RASET) && ev[6] == Data(0) && ev[7].Data? && ev[8] == Data(0) && ev[9].Data?
       && ev[2].value <= ev[4].value < ev[2].value + 0xFF
       && ev[7].value <= ev[9].value < ev[7].value + 0xFF
    then Some(Rect(Point(ev[2].value, ev[7].value),
                   Size(ev[4].value - ev[2].value + 1, ev[9].value - ev[7].value + 1)))
    else None
  }

  /** The inclusive end `origin + size - 1` of the rect is an 8-bit address. */
  predicate Addressable(rect: Rect)
  {
    rect.origin.x + rect.size.width <= 0x100 && rect.origin.y + rect.size.height <= 0x100
  }

  /**
   * The window events address exactly `rect` when it is non-empty and its
   * inclusive end stays below 256; otherwise they address no rect at all.
   */
  lemma WindowRoundTrip(rect: Rect)
    ensures WindowOf(WindowTrace(rect)) ==
      if !IsEmpty(rect) && Addressable(rect) then Some(rect) else None
  {
  }

  /** A memory write as decoded by the controller: the window, then the colours streamed into it. */
  datatype Write = Write(window: Rect, pixels: seq<Color>)

  /** Set the window, send RAMWR, stream the colours. */
  function WriteTrace(rect: Rect, cs: seq<Color>): (ev: seq<Event>)
    ensures |ev| == 11 + 2 * |cs|
  {
    WindowTrace(rect) + [Cmd(RAMWR)] + PixelData(cs)
  }

  function DecodeWrite(ev: seq<Event>): Option<Write>
  {
    if |ev| < 11 || ev[10] != Cmd(RAMWR) then None
    else
      match (WindowOf(ev[..10]), DecodePixels(ev[11..]))
      case (Some(w), Some(cs)) => Some(Write(w, cs))
      case _ => None
  }

  lemma WriteRoundTrip(rect: Rect, cs: seq<Color>)
    ensures DecodeWrite(WriteTrace(rect, cs)) ==
      if !IsEmpty(rect) && Addressable(rect) then Some(Write(rect, cs)) else None
  {
    var ev := WriteTrace(rect, cs);
    assert ev[..10] == WindowTrace(rect);
    assert ev[11..] == PixelData(cs);
    WindowRoundTrip(rect);
    PixelsRoundTrip(cs);
  }

  /**
   * A filled rect: nothing for an empty rect, otherwise its window, RAMWR and
   * `width * height` copies of the colour.
   */
  function FillTrace(rect: Rect, color: Color): seq<Event>
  {
    if IsEmpty(rect) then []
    else WriteTrace(rect, Repeat(color, rect.size.width * rect.size.height))
  }

  /** What a fill means to the controller: every pixel of the rect gets the colour. */
  lemma FillDecodes(rect: Rect, color: Color)
    requires Addressable(rect)
    ensures IsEmpty(rect) <==> FillTrace(rect, color) == []
    ensures !IsEmpty(rect) ==>
      DecodeWrite(FillTrace(rect, color)) == Some(Write(rect, Repeat(color, rect.size.width * rect.size.height)))
  {
    if !IsEmpty(rect) {
      WriteRoundTrip(rect, Repeat(color, rect.size.width * rect.size.height));
    }
  }

  /** `_JJMEST7735R_drawPixel`: a 1 x 1 window and one colour. */
  function PixelTrace(p: Point, color: Color): seq<Event>
  {
    WriteTrace(Rect(p, Size(1, 1)), [color])
  }

  lemma PixelDecodes(p: Point, color: Color)
    ensures |PixelTrace(p, color)| == 13
    ensures DecodeWrite(PixelTrace(p, color)) == Some(Write(Rect(p, Size(1, 1)), [color]))
  {
    WriteRoundTrip(Rect(p, Size(1, 1)), [color]);
  }

  /** One single-pixel write per point, in order. */
  function PointsTrace(ps: seq<Point>, color: Color): (ev: seq<Event>)
    ensures |ev| == 13 * |ps|
  {
    if ps == [] then []
    else PointsTrace(ps[..|ps| - 1], color) + PixelTrace(ps[|ps| - 1], color)
  }

  /** The `i`-th block of 13 events plots the `i`-th point. */
  lemma {:induction false} PointsTraceAt(ps: seq<Point>, color: Color, i: nat)
    requires i < |ps|
    ensures PointsTrace(ps, color)[13 * i .. 13 * i + 13] == PixelTrace(ps[i], color)
  {
    var n := |ps| - 1;
    var ev := PointsTrace(ps, color);
    var front := PointsTrace(ps[..n], color);
    assert ev == front + PixelTrace(ps[n], color);
    if i < n {
      PointsTraceAt(ps[..n], color, i);
      assert ev[13 * i .. 13 * i + 13] == front[13 * i .. 13 * i + 13];
    } else {
      assert ev[13 * i .. 13 * i + 13] == ev[|front|..];
    }
  }

  // ---------------------------------------------------------------------
  // Lines and rects

  /**
   * The pixels of the diagonal branch of `JMEST7735R_drawLine`, in the order
   * they are plotted. `scale` is the integer quotient of the two `uint8_t`
   * extents, computed before the conversion to `float`, and the loop counts
   * the longer extent down to 0.
   */
  function DiagonalPoints(x0: uint8, y0: uint8, dx: uint8, dy: uint8): (ps: seq<Point>)
  {
    if dx > dy then
      var scale := dy / dx;
      seq(dx, i requires 0 <= i < dx => var k := dx - 1 - i; Point(U8(x0 + k), U8(y0 + k * scale)))
    else if dy > 0 then
      var scale := dx / dy;
      seq(dy, i requires 0 <= i < dy => var k := dy - 1 - i; Point(U8(x0 + k * scale), U8(y0 + k)))
    else []
  }

  /** Step `n` of the countdown, the pixel the driver plots when `n` is reached. */
  lemma DiagonalStep(x0: uint8, y0: uint8, dx: uint8, dy: uint8, n: nat)
    requires n < Max(dx, dy)
    ensures |DiagonalPoints(x0, y0, dx, dy)| == Max(dx, dy)
    ensures DiagonalPoints(x0, y0, dx, dy)[Max(dx, dy) - 1 - n] ==
      if dx > dy then Point(U8(x0 + n), U8(y0 + n * (dy / dx)))
      else Point(U8(x0 + n * (dx / dy)), U8(y0 + n))
  {
    var ps := DiagonalPoints(x0, y0, dx, dy);
    if dx > dy {
      var i := dx - 1 - n;
      assert ps[i] == Point(U8(x0 + n), U8(y0 + n * (dy / dx)));
    } else {
      var i := dy - 1 - n;
      assert ps[i] == Point(U8(x0 + n * (dx / dy)), U8(y0 + n));
    }
  }

  /** `JMEST7735R_drawLine`: the min and max corner, then an axis fill or single-pixel writes. */
  function LineTrace(start: Point, end: Point, color: Color): seq<Event>
  {
    SpanTrace(Min(start.x, end.x), Min(start.y, end.y), Max(start.x, end.x), Max(start.y, end.y), color)
  }

  /** The line of `drawLine` once its end points are sorted into a min and a max corner. */
  function SpanTrace(x0: uint8, y0: uint8, x1: uint8, y1: uint8, color: Color): seq<Event>
    requires x0 <= x1 && y0 <= y1
  {
    if x0 == x1 then FillTrace(Rect(Point(x0, y0), Size(1, y1 - y0)), color)
    else if y0 == y1 then FillTrace(Rect(Point(x0, y0), Size(x1 - x0, 1)), color)
    else PointsTrace(DiagonalPoints(x0, y0, x1 - x0, y1 - y0), color)
  }

  /**
   * A vertical or horizontal line is one write of `|delta|` pixels from the
   * min corner; the far end point is not drawn, and equal end points draw nothing.
   */
  lemma AxisLine(start: Point, end: Point, color: Color)
    requires start.x == end.x || start.y == end.y
    ensures start == end <==> LineTrace(start, end, color) == []
    ensures start != end && start.x == end.x ==>
      DecodeWrite(LineTrace(start, end, color)) ==
        Some(Write(Rect(Point(start.x, Min(start.y, end.y)), Size(1, Abs(start.y - end.y))),
                   Repeat(color, Abs(start.y - end.y))))
    ensures start != end && start.y == end.y ==>
      DecodeWrite(LineTrace(start, end, color)) ==
        Some(Write(Rect(Point(Min(start.x, end.x), start.y), Size(Abs(start.x - end.x), 1)),
                   Repeat(color, Abs(start.x - end.x))))
  {
    var x0, y0 := Min(start.x, end.x), Min(start.y, end.y);
    var x1, y1 := Max(start.x, end.x), Max(start.y, end.y);
    if x0 == x1 {
      FillDecodes(Rect(Point(x0, y0), Size(1, y1 - y0)), color);
    } else {
      FillDecodes(Rect(Point(x0, y0), Size(x1 - x0, 1)), color);
    }
  }

  /**
   * A slanted line is `max(dx, dy)` single-pixel writes counted down from the
   * far end, all offset from the min corner: along row `y0` when `dx > dy`,
   * along column `x0` when `dx < dy`, on the main diagonal when `dx == dy`.
   */
  lemma SlantedLine(start: Point, end: Point, color: Color)
    requires start.x != end.x && start.y != end.y
    ensures var x0, y0 := Min(start.x, end.x), Min(start.y, end.y);
            var dx, dy := Abs(start.x - end.x), Abs(start.y - end.y);
            var ps := DiagonalPoints(x0, y0, dx, dy);
            && LineTrace(start, end, color) == PointsTrace(ps, color)
            && |ps| == Max(dx, dy)
            && forall i :: 0 <= i < |ps| ==>
                 ps[i] == (if dx > dy then Point(x0 + (|ps| - 1 - i), y0)
                           else if dx < dy then Point(x0, y0 + (|ps| - 1 - i))
                           else Point(x0 + (|ps| - 1 - i), y0 + (|ps| - 1 - i)))
  {
    SlantedSpan(start, end, color);
    DiagonalShape(Min(start.x, end.x), Min(start.y, end.y), Abs(start.x - end.x), Abs(start.y - end.y));
  }

  /** A slanted line is the single-pixel writes of the diagonal points from the min corner. */
  lemma SlantedSpan(start: Point, end: Point, color: Color)
    requires start.x != end.x && start.y != end.y
    ensures LineTrace(start, end, color)
      == PointsTrace(DiagonalPoints(Min(start.x, end.x), Min(start.y, end.y), Abs(start.x - end.x), Abs(start.y - end.y)), color)
    ensures Min(start.x, end.x) + Abs(start.x - end.x) <= 0xFF && Min(start.y, end.y) + Abs(start.y - end.y) <= 0xFF
  {
    var x0, y0 := Min(start.x, end.x), Min(start.y, end.y);
    var x1, y1 := Max(start.x, end.x), Max(start.y, end.y);
    assert x1 - x0 == Abs(start.x - end.x) && y1 - y0 == Abs(start.y - end.y);
    assert x0 != x1 && y0 != y1;
    assert LineTrace(start, end, color) == SpanTrace(x0, y0, x1, y1, color);
  }

  lemma DiagonalShape(x0: uint8, y0: uint8, dx: uint8, dy: uint8)
    requires 0 < dx && 0 < dy && x0 + dx <= 0xFF && y0 + dy <= 0xFF
    ensures var ps := DiagonalPoints(x0, y0, dx, dy);
            && |ps| == Max(dx, dy)
            && forall i :: 0 <= i < |ps| ==>
                 ps[i] == (if dx > dy then Point(x0 + (|ps| - 1 - i), y0)
                           else if dx < dy then Point(x0, y0 + (|ps| - 1 - i))
                           else Point(x0 + (|ps| - 1 - i), y0 + (|ps| - 1 - i)))
  {
    var ps := DiagonalPoints(x0, y0, dx, dy);
    var n := |ps|;
    if dx > dy {
      DivModUnique(dy, dx, 0, dy);
      forall i | 0 <= i < n ensures ps[i] == Point(x0 + (n - 1 - i), y0) {
        var k := dx - 1 - i;
        assert ps[i] == Point(U8(x0 + k), U8(y0 + k * 0));
      }
    } else if dx < dy {
      DivModUnique(dx, dy, 0, dx);
      forall i | 0 <= i < n ensures ps[i] == Point(x0, y0 + (n - 1 - i)) {
        var k := dy - 1 - i;
        assert ps[i] == Point(U8(x0 + k * 0), U8(y0 + k));
      }
    } else {
      DivModUnique(dx, dy, 1, 0);
      forall i | 0 <= i < n ensures ps[i] == Point(x0 + (n - 1 - i), y0 + (n - 1 - i)) {
        var k := dy - 1 - i;
        assert ps[i] == Point(U8(x0 + k * 1), U8(y0 + k));
      }
    }
  }

  /** The four sides of an outline, in the order and with the end points the driver uses. */
  function OutlineTrace(frame: Rect, color: Color): seq<Event>
  {
    var x, y, w, h := frame.origin.x, frame.origin.y, frame.size.width, frame.size.height;
    LineTrace(Point(x, y), Point(U8(x + w), y), color)
    + LineTrace(Point(U8(x + w - 1), y), Point(U8(x + w - 1), U8(y + h)), color)
    + LineTrace(Point(x, U8(y + h - 1)), Point(U8(x + w), U8(y + h - 1)), color)
    + LineTrace(Point(x, y), Point(x, U8(y + h)), color)
  }

  /**
   * `JMEST7735R_drawRect`: nothing for an empty frame; otherwise a fill, or
   * the frame's window (left unused) followed by the outline.
   */
  function RectTrace(frame: Rect, color: Color, fill: bool): seq<Event>
  {
    if IsEmpty(frame) then []
    else if fill then FillTrace(frame, color)
    else WindowTrace(frame) + OutlineTrace(frame, color)
  }

  /**
   * For a frame that does not wrap, the outline is four fills: the top row,
   * the right column, the bottom row and the left column. Corners are drawn
   * twice.
   */
  lemma OutlineSides(frame: Rect, color: Color)
    requires Fits(frame) && !IsEmpty(frame)
    ensures var x, y, w, h := frame.origin.x, frame.origin.y, frame.size.width, frame.size.height;
      RectTrace(frame, color, false) == WindowTrace(frame)
        + FillTrace(Rect(Point(x, y), Size(w, 1)), color)
        + FillTrace(Rect(Point(x + w - 1, y), Size(1, h)), color)
        + FillTrace(Rect(Point(x, y + h - 1), Size(w, 1)), color)
        + FillTrace(Rect(Point(x, y), Size(1, h)), color)
  {
    var x, y, w, h := frame.origin.x, frame.origin.y, frame.size.width, frame.size.height;
    OutlineFills(frame, color);
    Concat4(WindowTrace(frame), FillTrace(Rect(Point(x, y), Size(w, 1)), color),
      FillTrace(Rect(Point(x + w - 1, y), Size(1, h)), color),
      FillTrace(Rect(Point(x, y + h - 1), Size(w, 1)), color),
      FillTrace(Rect(Point(x, y), Size(1, h)), color));
  }

  lemma OutlineFills(frame: Rect, color: Color)
    requires Fits(frame) && !IsEmpty(frame)
    ensures var x, y, w, h := frame.origin.x, frame.origin.y, frame.size.width, frame.size.height;
      OutlineTrace(frame, color) ==
        FillTrace(Rect(Point(x, y), Size(w, 1)), color)
        + FillTrace(Rect(Point(x + w - 1, y), Size(1, h)), color)
        + FillTrace(Rect(Point(x, y + h - 1), Size(w, 1)), color)
        + FillTrace(Rect(Point(x, y), Size(1, h)), color)
  {
    TopSide(frame, color);
    RightSide(frame, color);
    BottomSide(frame, color);
    LeftSide(frame, color);
  }

  lemma TopSide(frame: Rect, color: Color)
    requires Fits(frame) && !IsEmpty(frame)
    ensures var x, y, w := frame.origin.x, frame.origin.y, frame.size.width;
      LineTrace(Point(x, y), Point(U8(x + w), y), color) == FillTrace(Rect(Point(x, y), Size(w, 1)), color)
  {
    RowLine(frame.origin, frame.size.width, color);
  }

  lemma RightSide(frame: Rect, color: Color)
    requires Fits(frame) && !IsEmpty(frame)
    ensures var x, y, w, h := frame.origin.x, frame.origin.y, frame.size.width, frame.size.height;
      LineTrace(Point(U8(x + w - 1), y), Point(U8(x + w - 1), U8(y + h)), color)
        == FillTrace(Rect(Point(x + w - 1, y), Size(1, h)), color)
  {
    var x, y, w, h := frame.origin.x, frame.origin.y, frame.size.width, frame.size.height;
    assert U8(x + w - 1) == x + w - 1 && U8(y + h) == y + h;
    ColumnLine(Point(x + w - 1, y), h, color);
  }

  lemma BottomSide(frame: Rect, color: Color)
    requires Fits(frame) && !IsEmpty(frame)
    ensures var x, y, w, h := frame.origin.x, frame.origin.y, frame.size.width, frame.size.height;
      LineTrace(Point(x, U8(y + h - 1)), Point(U8(x + w), U8(y + h - 1)), color)
        == FillTrace(Rect(Point(x, y + h - 1), Size(w, 1)), color)
  {
    var x, y, w, h := frame.origin.x, frame.origin.y, frame.size.width, frame.size.height;
    assert U8(y + h - 1) == y + h - 1 && U8(x + w) == x + w;
    RowLine(Point(x, y + h - 1), w, color);
  }

  lemma LeftSide(frame: Rect, color: Color)
    requires Fits(frame) && !IsEmpty(frame)
    ensures var x, y, h := frame.origin.x, frame.origin.y, frame.size.height;
      LineTrace(Point(x, y), Point(x, U8(y + h)), color) == FillTrace(Rect(Point(x, y), Size(1, h)), color)
  {
    ColumnLine(frame.origin, frame.size.height, color);
  }

  lemma Concat4<T>(w: seq<T>, a: seq<T>, b: seq<T>, c: seq<T>, d: seq<T>)
    ensures w + (a + b + c + d) == w + a + b + c + d
  {
  }

  /** A line from `p` to `w` pixels to its right fills the `w x 1` rect at `p`. */
  lemma RowLine(p: Point, w: uint8, color: Color)
    requires 0 < w && p.x + w <= 0xFF
    ensures LineTrace(p, Point(p.x + w, p.y), color) == FillTrace(Rect(p, Size(w, 1)), color)
  {
  }

  /** A line from `p` to `h` pixels below it fills the `1 x h` rect at `p`. */
  lemma ColumnLine(p: Point, h: uint8, color: Color)
    requires 0 < h && p.y + h <= 0xFF
    ensures LineTrace(p, Point(p.x, p.y + h), color) == FillTrace(Rect(p, Size(1, h)), color)
  {
  }

  /** `JMEST7735R_fillScreen`: one write covering the 128 x 160 panel. */
  lemma FillScreenDecodes(color: Color)
    ensures DecodeWrite(RectTrace(RectMake(0, 0, ScreenFrame.size.width, ScreenFrame.size.height), color, true))
            == Some(Write(ScreenFrame, Repeat(color, 128 * 160)))
  {
    FillDecodes(ScreenFrame, color);
  }

  /**
   * `JMEST7735R_drawBitmap`: the first `width * height` colours of the image,
   * verbatim; nothing without an image or for an empty frame.
   */
  function BitmapTrace(image: Option<seq<Color>>, frame: Rect): seq<Event>
    requires image.Some? && !IsEmpty(frame) ==> frame.size.width * frame.size.height <= |image.value|
  {
    if image.None? || IsEmpty(frame) then []
    else WriteTrace(frame, image.value[..frame.size.width * frame.size.height])
  }

  lemma BitmapDecodes(image: Option<seq<Color>>, frame: Rect)
    requires image.Some? && !IsEmpty(frame) ==> frame.size.width * frame.size.height <= |image.value|
    requires Addressable(frame)
    ensures image.None? || IsEmpty(frame) <==> BitmapTrace(image, frame) == []
    ensures image.Some? && !IsEmpty(frame) ==>
      DecodeWrite(BitmapTrace(image, frame)) == Some(Write(frame, image.value[..frame.size.width * frame.size.height]))
  {
    if image.Some? && !IsEmpty(frame) {
      WriteRoundTrip(frame, image.value[..frame.size.width * frame.size.height]);
    }
  }

  // ---------------------------------------------------------------------
  // 1-bit masks

  /** The eight pixels of one mask byte, most significant bit first. */
  function MaskColors(b: uint8, fgColor: Color, bgColor: Color): (cs: seq<Color>)
  {
    seq(8, i requires 0 <= i < 8 => if BitSet(b, 7 - i) then fgColor else bgColor)
  }

  function MaskPixels(bytes: seq<uint8>, fgColor: Color, bgColor: Color): (cs: seq<Color>)
    ensures |cs| == 8 * |bytes|
  {
    if bytes == [] then []
    else MaskPixels(bytes[..|bytes| - 1], fgColor, bgColor) + MaskColors(bytes[|bytes| - 1], fgColor, bgColor)
  }

  /** Pixel `k` is the foreground colour exactly when bit `7 - k % 8` of byte `k / 8` is set. */
  lemma {:induction false} MaskPixelAt(bytes: seq<uint8>, fgColor: Color, bgColor: Color, k: nat)
    requires k < 8 * |bytes|
    ensures MaskPixels(bytes, fgColor, bgColor)[k] ==
      if BitSet(bytes[k / 8], 7 - k % 8) then fgColor else bgColor
  {
    var n := |bytes| - 1;
    if k < 8 * n {
      MaskPixelAt(bytes[..n], fgColor, bgColor, k);
    } else {
      DivModUnique(k, 8, n, k - 8 * n);
    }
  }

  /** A mask of zero bytes paints only background, a mask of 0xFF bytes only foreground. */
  lemma {:induction false} UniformMask(bytes: seq<uint8>, fgColor: Color, bgColor: Color)
    ensures (forall i :: 0 <= i < |bytes| ==> bytes[i] == 0x00) ==>
      MaskPixels(bytes, fgColor, bgColor) == Repeat(bgColor, 8 * |bytes|)
    ensures (forall i :: 0 <= i < |bytes| ==> bytes[i] == 0xFF) ==>
      MaskPixels(bytes, fgColor, bgColor) == Repeat(fgColor, 8 * |bytes|)
  {
    if bytes != [] {
      var n := |bytes| - 1;
      UniformMask(bytes[..n], fgColor, bgColor);
      UniformByte(bytes[n], fgColor, bgColor);
      assert Repeat(bgColor, 8 * n) + Repeat(bgColor, 8) == Repeat(bgColor, 8 * |bytes|);
      assert Repeat(fgColor, 8 * n) + Repeat(fgColor, 8) == Repeat(fgColor, 8 * |bytes|);
    }
  }

  lemma UniformByte(b: uint8, fgColor: Color, bgColor: Color)
    ensures b == 0x00 ==> MaskColors(b, fgColor, bgColor) == Repeat(bgColor, 8)
    ensures b == 0xFF ==> MaskColors(b, fgColor, bgColor) == Repeat(fgColor, 8)
  {
    assert Bit(1) == 2 && Bit(2) == 4 && Bit(3) == 8 && Bit(4) == 16;
    assert Bit(5) == 32 && Bit(6) == 64 && Bit(7) == 128;
  }

  /**
   * `JMEST7735R_drawBinaryImage`: `(width * height) >> 3` mask bytes, eight
   * pixels each; a frame whose area is not a multiple of 8 is left short.
   */
  function BinaryImageTrace(image: seq<uint8>, frame: Rect, fgColor: Color, bgColor: Color): seq<Event>
    requires !IsEmpty(frame) ==> frame.size.width * frame.size.height / 8 <= |image|
  {
    if IsEmpty(frame) then []
    else WriteTrace(frame, MaskPixels(image[..frame.size.width * frame.size.height / 8], fgColor, bgColor))
  }

  /**
   * What a binary image means to the controller: one write over the frame of
   * `8 * ((w * h) >> 3)` pixels, pixel `k` the foreground colour exactly when
   * bit `7 - k % 8` of mask byte `k / 8` is set.
   */
  lemma BinaryImageDecodes(image: seq<uint8>, frame: Rect, fgColor: Color, bgColor: Color)
    requires !IsEmpty(frame) ==> frame.size.width * frame.size.height / 8 <= |image|
    requires Addressable(frame)
    ensures IsEmpty(frame) <==> BinaryImageTrace(image, frame, fgColor, bgColor) == []
    ensures !IsEmpty(frame) ==>
      var n := frame.size.width * frame.size.height / 8;
      && DecodeWrite(BinaryImageTrace(image, frame, fgColor, bgColor)) == Some(Write(frame, MaskPixels(image[..n], fgColor, bgColor)))
      && |MaskPixels(image[..n], fgColor, bgColor)| == 8 * n
      && forall k :: 0 <= k < 8 * n ==>
           MaskPixels(image[..n], fgColor, bgColor)[k] == if BitSet(image[k / 8], 7 - k % 8) then fgColor else bgColor
  {
    if !IsEmpty(frame) {
      var n := frame.size.width * frame.size.height / 8;
      WriteRoundTrip(frame, MaskPixels(image[..n], fgColor, bgColor));
      forall k | 0 <= k < 8 * n
        ensures MaskPixels(image[..n], fgColor, bgColor)[k] == if BitSet(image[k / 8], 7 - k % 8) then fgColor else bgColor
      {
        MaskPixelAt(image[..n], fgColor, bgColor, k);
      }
    }
  }

  /** Row-major index arithmetic: cell `(r, c)` of a `rows x cols` grid is below `rows * cols`. */
  lemma RowMajorBound(r: int, c: int, rows: int, cols: int)
    requires 0 <= r < rows && 0 <= c < cols
    ensures 0 <= r * cols + c < rows * cols
  {
    assert r * cols <= (rows - 1) * cols;
  }

  /** Row-major index arithmetic: division and remainder by the row length give back the cell. */
  lemma RowMajorCell(r: int, c: int, rows: int, cols: int)
    requires 0 <= r < rows && 0 <= c < cols
    ensures 0 <= r * cols + c < rows * cols
    ensures (r * cols + c) / cols == r && (r * cols + c) % cols == c
  {
    RowMajorBound(r, c, rows, cols);
    DivModUnique(r * cols + c, cols, r, c);
  }

  // ---------------------------------------------------------------------
  // Icons

  /** `JMEMenuIcon_t`; `iconData` is `None` for a null pointer. */
  datatype MenuIcon<T> = MenuIcon(iconFrame: Rect, iconSize: Size, iconData: Option<seq<T>>, color: Color, bgColor: Color)

  /**
   * The image is no larger than its frame. Otherwise the driver shifts a
   * negative `int` right, which C leaves to the implementation.
   */
  predicate IconFits<T>(icon: MenuIcon<T>)
  {
    icon.iconSize.width <= icon.iconFrame.size.width && icon.iconSize.height <= icon.iconFrame.size.height
  }

  /** Where `drawBinaryIcon` puts the image: centred in the frame, rounded towards the top left. */
  function IconImageFrame<T>(icon: MenuIcon<T>): Rect
    requires IconFits(icon)
  {
    var f, sz := icon.iconFrame, icon.iconSize;
    Rect(Point(U8(f.origin.x + (f.size.width - sz.width) / 2), U8(f.origin.y + (f.size.height - sz.height) / 2)), sz)
  }

  /** The four background bands around the image. */
  datatype Bands = Bands(top: Rect, left: Rect, right: Rect, bottom: Rect)

  function IconBands<T>(icon: MenuIcon<T>): Bands
    requires IconFits(icon)
  {
    var f, img := icon.iconFrame, IconImageFrame(icon);
    var top := Rect(f.origin, Size(f.size.width, U8(img.origin.y - f.origin.y)));
    var bottomY := U8(img.origin.y + img.size.height);
    var bottom := Rect(Point(f.origin.x, bottomY), Size(f.size.width, U8(f.origin.y + f.size.height - bottomY)));
    var left := Rect(Point(f.origin.x, img.origin.y), Size(U8(img.origin.x - f.origin.x), img.size.height));
    var rightX := U8(img.origin.x + img.size.width);
    var right := Rect(Point(rightX, img.origin.y), Size(U8(f.origin.x + f.size.width - rightX), img.size.height));
    Bands(top, left, right, bottom)
  }

  /** The icon can be drawn: no icon, no data, or data covering the mask of the image. */
  predicate BinaryIconDrawable(icon: Option<MenuIcon<uint8>>)
  {
    icon.Some? && icon.value.iconData.Some? ==>
      && IconFits(icon.value)
      && (!IsEmpty(IconImageFrame(icon.value)) ==>
            icon.value.iconSize.width * icon.value.iconSize.height / 8 <= |icon.value.iconData.value|)
  }

  /**
   * `JMEST7735R_drawBinaryIcon`: the top, left, right and bottom bands in the
   * background colour, then the image as a 1-bit mask.
   */
  function BinaryIconTrace(icon: Option<MenuIcon<uint8>>): seq<Event>
    requires BinaryIconDrawable(icon)
  {
    if icon.None? || icon.value.iconData.None? then []
    else
      var ic := icon.value;
      var bands := IconBands(ic);
      RectTrace(bands.top, ic.bgColor, true) + RectTrace(bands.left, ic.bgColor, true)
      + RectTrace(bands.right, ic.bgColor, true) + RectTrace(bands.bottom, ic.bgColor, true)
      + BinaryImageTrace(ic.iconData.value, IconImageFrame(ic), ic.color, ic.bgColor)
  }

  /**
   * For a frame that does not wrap, the image is centred (the odd pixel goes
   * right and below), the four bands and the image lie inside the frame, and
   * their areas add up to the frame's: they tile it.
   */
  lemma BinaryIconTiles<T>(icon: MenuIcon<T>)
    requires IconFits(icon) && Fits(icon.iconFrame)
    ensures var f, sz := icon.iconFrame, icon.iconSize;
            var img, b := IconImageFrame(icon), IconBands(icon);
            var dx, dy := (f.size.width - sz.width) / 2, (f.size.height - sz.height) / 2;
            && img == Rect(Point(f.origin.x + dx, f.origin.y + dy), sz)
            && b.top == Rect(f.origin, Size(f.size.width, dy))
            && b.left == Rect(Point(f.origin.x, f.origin.y + dy), Size(dx, sz.height))
            && b.right == Rect(Point(f.origin.x + dx + sz.width, f.origin.y + dy),
                               Size(f.size.width - sz.width - dx, sz.height))
            && b.bottom == Rect(Point(f.origin.x, f.origin.y + dy + sz.height),
                                Size(f.size.width, f.size.height - sz.height - dy))
            && Within(img, f) && Within(b.top, f) && Within(b.left, f) && Within(b.right, f) && Within(b.bottom, f)
            && b.top.size.width * b.top.size.height + b.left.size.width * b.left.size.height
               + b.right.size.width * b.right.size.height + b.bottom.size.width * b.bottom.size.height
               + sz.width * sz.height == f.size.width * f.size.height
  {
    var f, sz := icon.iconFrame, icon.iconSize;
    var dx, dy := (f.size.width - sz.width) / 2, (f.size.height - sz.height) / 2;
    BinaryIconRects(icon);
    BinaryIconWithin(icon);
    BinaryIconArea(icon);
  }

  lemma BinaryIconWithin<T>(icon: MenuIcon<T>)
    requires IconFits(icon) && Fits(icon.iconFrame)
    ensures var f, b := icon.iconFrame, IconBands(icon);
            Within(IconImageFrame(icon), f) && Within(b.top, f) && Within(b.left, f) && Within(b.right, f) && Within(b.bottom, f)
  {
    BinaryIconRects(icon);
  }

  lemma BinaryIconArea<T>(icon: MenuIcon<T>)
    requires IconFits(icon) && Fits(icon.iconFrame)
    ensures var f, sz, b := icon.iconFrame, icon.iconSize, IconBands(icon);
            b.top.size.width * b.top.size.height + b.left.size.width * b.left.size.height
              + b.right.size.width * b.right.size.height + b.bottom.size.width * b.bottom.size.height
              + sz.width * sz.height == f.size.width * f.size.height
  {
    var f, sz, b := icon.iconFrame, icon.iconSize, IconBands(icon);
    var fw: nat, fh: nat, iw: nat, ih: nat := f.size.width, f.size.height, sz.width, sz.height;
    var dx: nat, dy: nat := (fw - iw) / 2, (fh - ih) / 2;
    BinaryIconRects(icon);
    TileArea(fw, fh, iw, ih, dx, dy);
    assert b.top.size.width * b.top.size.height == fw * dy;
    assert b.left.size.width * b.left.size.height == dx * ih;
    assert b.right.size.width * b.right.size.height == (fw - iw - dx) * ih;
    assert b.bottom.size.width * b.bottom.size.height == fw * (fh - ih - dy);
  }

  /** The image frame and the bands of a frame that does not wrap, without 8-bit reduction. */
  lemma BinaryIconRects<T>(icon: MenuIcon<T>)
    requires IconFits(icon) && Fits(icon.iconFrame)
    ensures var f, sz := icon.iconFrame, icon.iconSize;
            var img, b := IconImageFrame(icon), IconBands(icon);
            var dx, dy := (f.size.width - sz.width) / 2, (f.size.height - sz.height) / 2;
            && img == Rect(Point(f.origin.x + dx, f.origin.y + dy), sz)
            && b.top == Rect(f.origin, Size(f.size.width, dy))
            && b.left == Rect(Point(f.origin.x, f.origin.y + dy), Size(dx, sz.height))
            && b.right == Rect(Point(f.origin.x + dx + sz.width, f.origin.y + dy),
                               Size(f.size.width - sz.width - dx, sz.height))
            && b.bottom == Rect(Point(f.origin.x, f.origin.y + dy + sz.height),
                                Size(f.size.width, f.size.height - sz.height - dy))
  {
  }

  /** Top, left, right and bottom band around an `iw x ih` image at `(dx, dy)` tile an `fw x fh` frame. */
  lemma TileArea(fw: nat, fh: nat, iw: nat, ih: nat, dx: nat, dy: nat)
    requires iw + dx <= fw && ih + dy <= fh
    ensures fw * dy + dx * ih + (fw - iw - dx) * ih + fw * (fh - ih - dy) + iw * ih == fw * fh
  {
    calc {
      fw * dy + dx * ih + (fw - iw - dx) * ih + fw * (fh - ih - dy) + iw * ih;
      fw * dy + (fw - iw) * ih + fw * (fh - ih - dy) + iw * ih;
      fw * (dy + (fh - ih - dy)) + fw * ih;
      fw * fh;
    }
  }

  /** The icon can be drawn: no icon, an empty frame, or an image that fits and data that covers it. */
  predicate MenuIconDrawable(icon: Option<MenuIcon<Color>>)
  {
    icon.Some? && !IsEmpty(icon.value.iconFrame) ==>
      && IconFits(icon.value)
      && var area := icon.value.iconSize.width * icon.value.iconSize.height;
         area > 0 ==> icon.value.iconData.Some? && area <= |icon.value.iconData.value|
  }
  /** An icon `drawMenuIcon` accepts whose frame covers at least one pixel. */
  predicate MenuIconShown(icon: MenuIcon<Color>)
  {
    MenuIconDrawable(Some(icon)) && !IsEmpty(icon.iconFrame)
  }


  /**
   * The colours `drawMenuIcon` streams into its frame, in the three runs it
   * sends them: the frame rows above the image, the rows that cross the
   * image, the rows below it (`MenuIconPixelsRows` shows that this is every
   * frame row top to bottom, `MenuIconPixelAt` where each pixel lands).
   */
  function MenuIconPixels(icon: MenuIcon<Color>): seq<Color>
    requires MenuIconShown(icon)
  {
    var fh, ih := icon.iconFrame.size.height, icon.iconSize.height;
    var oy := (fh - ih) / 2;
    ImageInside(icon);
    MenuIconRowsFrom(icon, 0, oy) + MenuIconRowsFrom(icon, oy, ih) + MenuIconRowsFrom(icon, oy + ih, fh - ih - oy)
  }

  /** The three runs together are the frame rows, top to bottom. */
  lemma MenuIconPixelsRows(icon: MenuIcon<Color>)
    requires MenuIconShown(icon)
    ensures MenuIconPixels(icon) == MenuIconRowsFrom(icon, 0, icon.iconFrame.size.height)
  {
    var fh, ih: nat := icon.iconFrame.size.height, icon.iconSize.height;
    var oy: nat := (fh - ih) / 2;
    ImageInside(icon);
    var rest: nat := fh - ih - oy;
    assert MenuIconPixels(icon) == MenuIconRowsFrom(icon, 0, oy) + MenuIconRowsFrom(icon, oy, ih) + MenuIconRowsFrom(icon, oy + ih, rest);
    MenuIconRowsSplit(icon, 0, oy, ih);
    MenuIconRowsSplit(icon, 0, oy + ih, rest);
    assert oy + ih + rest == fh;
  }

  /** `drawMenuIcon` streams exactly one colour per frame pixel. */
  lemma MenuIconPixelsLength(icon: MenuIcon<Color>)
    requires MenuIconShown(icon)
    ensures |MenuIconPixels(icon)| == icon.iconFrame.size.height * icon.iconFrame.size.width
  {
    MenuIconPixelsRows(icon);
    MenuIconRowsLength(icon, 0, icon.iconFrame.size.height);
  }

  /** Frame row `r` of the icon, left to right. */
  function MenuIconRow(icon: MenuIcon<Color>, r: nat): (cs: seq<Color>)
    requires MenuIconShown(icon) && r < icon.iconFrame.size.height
    ensures |cs| == icon.iconFrame.size.width
  {
    MenuIconCols(icon, r, icon.iconFrame.size.width)
  }

  /** The first `k` pixels of frame row `r`, left to right. */
  function MenuIconCols(icon: MenuIcon<Color>, r: nat, k: nat): (cs: seq<Color>)
    requires MenuIconShown(icon) && r < icon.iconFrame.size.height && k <= icon.iconFrame.size.width
    ensures |cs| == k
  {
    if k == 0 then [] else MenuIconCols(icon, r, k - 1) + [MenuIconPixel(icon, r, k - 1)]
  }

  /** Position `c` of a row prefix holds frame pixel `(r, c)`. */
  lemma {:induction false} MenuIconColsAt(icon: MenuIcon<Color>, r: nat, k: nat, c: nat)
    requires MenuIconShown(icon) && r < icon.iconFrame.size.height && k <= icon.iconFrame.size.width
    requires c < k
    ensures MenuIconCols(icon, r, k)[c] == MenuIconPixel(icon, r, c)
  {
    if c < k - 1 {
      MenuIconColsAt(icon, r, k - 1, c);
    }
  }

  /** Frame rows `a .. a + k`, top to bottom. */
  function MenuIconRowsFrom(icon: MenuIcon<Color>, a: nat, k: nat): seq<Color>
    requires MenuIconShown(icon) && a + k <= icon.iconFrame.size.height
  {
    if k == 0 then [] else MenuIconRowsFrom(icon, a, k - 1) + MenuIconRow(icon, a + k - 1)
  }

  /**
   * Frame pixel `(r, c)`: the image's colour inside the centred image area,
   * `icon.color` everywhere else.
   */
  function MenuIconPixel(icon: MenuIcon<Color>, r: nat, c: nat): Color
    requires MenuIconShown(icon)
    requires r < icon.iconFrame.size.height && c < icon.iconFrame.size.width
  {
    var fw, fh := icon.iconFrame.size.width, icon.iconFrame.size.height;
    var iw, ih := icon.iconSize.width, icon.iconSize.height;
    var ox, oy := (fw - iw) / 2, (fh - ih) / 2;
    if oy <= r < oy + ih && ox <= c < ox + iw then IconImagePixel(icon, r - oy, c - ox)
    else icon.color
  }

  /** Pixel `(i, j)` of the icon's image, stored row by row. */
  function IconImagePixel(icon: MenuIcon<Color>, i: nat, j: nat): Color
    requires MenuIconShown(icon)
    requires i < icon.iconSize.height && j < icon.iconSize.width
  {
    RowMajorBound(i, j, icon.iconSize.height, icon.iconSize.width);
    icon.iconData.value[i * icon.iconSize.width + j]
  }

  /** `JMEST7735R_drawMenuIcon`: one write over the whole frame. */
  function MenuIconTrace(icon: Option<MenuIcon<Color>>): seq<Event>
    requires MenuIconDrawable(icon)
  {
    if icon.None? || IsEmpty(icon.value.iconFrame) then []
    else WriteTrace(icon.value.iconFrame, MenuIconPixels(icon.value))
  }

  /**
   * What a menu icon means to the controller: one write over the whole frame
   * of `fw * fh` pixels, the frame's pixels row by row.
   */
  lemma MenuIconDecodes(icon: MenuIcon<Color>)
    requires MenuIconShown(icon) && Addressable(icon.iconFrame)
    ensures DecodeWrite(MenuIconTrace(Some(icon))) == Some(Write(icon.iconFrame, MenuIconPixels(icon)))
    ensures |MenuIconPixels(icon)| == icon.iconFrame.size.height * icon.iconFrame.size.width
  {
    WriteRoundTrip(icon.iconFrame, MenuIconPixels(icon));
    MenuIconPixelsLength(icon);
  }

  /** One more frame row appends that row. */
  lemma MenuIconRowsNext(icon: MenuIcon<Color>, a: nat, k: nat)
    requires MenuIconShown(icon) && a + k < icon.iconFrame.size.height
    ensures MenuIconRowsFrom(icon, a, k + 1) == MenuIconRowsFrom(icon, a, k) + MenuIconRow(icon, a + k)
  {
  }

  /** `k` frame rows hold `k * fw` colours. */
  lemma {:induction false} MenuIconRowsLength(icon: MenuIcon<Color>, a: nat, k: nat)
    requires MenuIconShown(icon) && a + k <= icon.iconFrame.size.height
    ensures |MenuIconRowsFrom(icon, a, k)| == k * icon.iconFrame.size.width
  {
    if k > 0 {
      MenuIconRowsLength(icon, a, k - 1);
      MulSucc(k - 1, icon.iconFrame.size.width);
    }
  }

  /** Position `p = i * fw + c` of rows `a .. a + k` holds frame pixel `(a + i, c)`. */
  lemma {:induction false} MenuIconRowsAt(icon: MenuIcon<Color>, a: nat, k: nat, i: nat, c: nat, p: nat)
    requires MenuIconShown(icon) && a + k <= icon.iconFrame.size.height
    requires i < k && c < icon.iconFrame.size.width && p == i * icon.iconFrame.size.width + c
    ensures p < |MenuIconRowsFrom(icon, a, k)| && MenuIconRowsFrom(icon, a, k)[p] == MenuIconPixel(icon, a + i, c)
  {
    var fw := icon.iconFrame.size.width;
    var front, last := MenuIconRowsFrom(icon, a, k - 1), MenuIconRow(icon, a + k - 1);
    assert MenuIconRowsFrom(icon, a, k) == front + last;
    MenuIconRowsLength(icon, a, k - 1);
    if i < k - 1 {
      MenuIconRowsAt(icon, a, k - 1, i, c, p);
      assert (front + last)[p] == front[p];
    } else {
      assert i == k - 1;
      assert p == |front| + c;
      assert (front + last)[p] == last[c];
      MenuIconColsAt(icon, a + k - 1, fw, c);
    }
  }

  /** Stream position `r * fw + c` holds frame pixel `(r, c)`: the stream is in raster order. */
  lemma MenuIconPixelAt(icon: MenuIcon<Color>, r: nat, c: nat)
    requires MenuIconShown(icon)
    requires r < icon.iconFrame.size.height && c < icon.iconFrame.size.width
    ensures r * icon.iconFrame.size.width + c < |MenuIconPixels(icon)|
            && MenuIconPixels(icon)[r * icon.iconFrame.size.width + c] == MenuIconPixel(icon, r, c)
  {
    MenuIconPixelsRows(icon);
    MenuIconRowsAt(icon, 0, icon.iconFrame.size.height, r, c, r * icon.iconFrame.size.width + c);
  }

  /** Rows `a .. a + k` followed by rows `a + k .. a + k + l` are rows `a .. a + k + l`. */
  lemma {:induction false} MenuIconRowsSplit(icon: MenuIcon<Color>, a: nat, k: nat, l: nat)
    requires MenuIconShown(icon) && a + k + l <= icon.iconFrame.size.height
    ensures MenuIconRowsFrom(icon, a, k) + MenuIconRowsFrom(icon, a + k, l) == MenuIconRowsFrom(icon, a, k + l)
  {
    if l > 0 {
      MenuIconRowsSplit(icon, a, k, l - 1);
      assert MenuIconRowsFrom(icon, a + k, l) == MenuIconRowsFrom(icon, a + k, l - 1) + MenuIconRow(icon, a + k + l - 1);
    }
  }

  /** A frame row that misses the image is all `icon.color`. */
  lemma MenuIconBlankRow(icon: MenuIcon<Color>, r: nat)
    requires MenuIconShown(icon) && r < icon.iconFrame.size.height
    requires var oy := (icon.iconFrame.size.height - icon.iconSize.height) / 2;
             r < oy || oy + icon.iconSize.height <= r
    ensures MenuIconRow(icon, r) == Repeat(icon.color, icon.iconFrame.size.width)
  {
    forall c | 0 <= c < icon.iconFrame.size.width
      ensures MenuIconRow(icon, r)[c] == icon.color
    {
      MenuIconColsAt(icon, r, icon.iconFrame.size.width, c);
      MenuIconBorder(icon, r, c);
    }
  }

  /** Rows that miss the image, above or below it, are all `icon.color`. */
  lemma {:induction false} MenuIconBlankRows(icon: MenuIcon<Color>, a: nat, k: nat)
    requires MenuIconShown(icon) && a + k <= icon.iconFrame.size.height
    requires var oy := (icon.iconFrame.size.height - icon.iconSize.height) / 2;
             a + k <= oy || oy + icon.iconSize.height <= a
    ensures MenuIconRowsFrom(icon, a, k) == Repeat(icon.color, k * icon.iconFrame.size.width)
  {
    var fw := icon.iconFrame.size.width;
    if k > 0 {
      MenuIconBlankRows(icon, a, k - 1);
      MenuIconBlankRow(icon, a + k - 1);
      MulSucc(k - 1, fw);
      RepeatAppend(icon.color, (k - 1) * fw, fw);
    }
  }

  /**
   * The image sits centred in the frame, at offset `((fw - iw) / 2, (fh - ih) / 2)`:
   * frame pixel `(oy + i, ox + j)` is image pixel `(i, j)`.
   */
  lemma MenuIconImage(icon: MenuIcon<Color>, i: nat, j: nat)
    requires MenuIconShown(icon)
    requires i < icon.iconSize.height && j < icon.iconSize.width
    ensures var oy := (icon.iconFrame.size.height - icon.iconSize.height) / 2;
            var ox := (icon.iconFrame.size.width - icon.iconSize.width) / 2;
            && oy + i < icon.iconFrame.size.height && ox + j < icon.iconFrame.size.width
            && MenuIconPixel(icon, oy + i, ox + j) == IconImagePixel(icon, i, j)
  {
  }

  /** The centred image lies inside the frame: its offset plus its extent stays within the frame. */
  lemma ImageInside<T>(icon: MenuIcon<T>)
    requires IconFits(icon)
    ensures (icon.iconFrame.size.width - icon.iconSize.width) / 2 + icon.iconSize.width <= icon.iconFrame.size.width
    ensures (icon.iconFrame.size.height - icon.iconSize.height) / 2 + icon.iconSize.height <= icon.iconFrame.size.height
  {
  }

  /** Every frame pixel outside the centred image area is `icon.color`. */
  lemma MenuIconBorder(icon: MenuIcon<Color>, r: nat, c: nat)
    requires MenuIconShown(icon)
    requires r < icon.iconFrame.size.height && c < icon.iconFrame.size.width
    requires var oy := (icon.iconFrame.size.height - icon.iconSize.height) / 2;
             var ox := (icon.iconFrame.size.width - icon.iconSize.width) / 2;
             !(oy <= r < oy + icon.iconSize.height && ox <= c < ox + icon.iconSize.width)
    ensures MenuIconPixel(icon, r, c) == icon.color
  {
  }

  // ---------------------------------------------------------------------
  // Scaled glyphs

  /** A font glyph as rows of ink bits, top row first, each row left to right. */
  type Bits = seq<seq<bool>>

  /** `bits` has `rows` rows of `cols` bits each. */
  predicate Shaped(bits: Bits, rows: nat, cols: nat)
  {
    |bits| == rows && forall r :: 0 <= r < rows ==> |bits[r]| == cols
  }

  /** The colour of one bit: the text colour when set, the background otherwise. */
  function Ink(on: bool, textColor: Color, bgColor: Color): Color
  {
    if on then textColor else bgColor
  }

  /**
   * Pixel row `R` of a glyph drawn `fs` times larger: `cols * fs` pixels,
   * pixel `C` taking the ink of bit `(R / fs, C / fs)`.
   */
  function ScaledRow(bits: Bits, rows: nat, cols: nat, fontSize: nat, textColor: Color, bgColor: Color, row: nat): (cs: seq<Color>)
    requires Shaped(bits, rows, cols) && fontSize >= 1 && row < rows * fontSize
    ensures |cs| == cols * fontSize
  {
    DivBelow(row, fontSize, rows);
    seq(cols * fontSize, col requires 0 <= col < cols * fontSize =>
      DivBelow(col, fontSize, cols);
      Ink(bits[row / fontSize][col / fontSize], textColor, bgColor))
  }

  /** Pixel rows `0 .. n` of the scaled glyph, top to bottom. */
  function ScaledTop(bits: Bits, rows: nat, cols: nat, fontSize: nat, textColor: Color, bgColor: Color, n: nat): (cs: seq<Color>)
    requires Shaped(bits, rows, cols) && fontSize >= 1 && n <= rows * fontSize
  {
    if n == 0 then []
    else
      ScaledTop(bits, rows, cols, fontSize, textColor, bgColor, n - 1) + ScaledRow(bits, rows, cols, fontSize, textColor, bgColor, n - 1)
  }

  /** A glyph drawn `fs` times larger, in raster order: `rows * fs` pixel rows of `cols * fs` pixels. */
  function Scaled(bits: Bits, rows: nat, cols: nat, fontSize: nat, textColor: Color, bgColor: Color): (cs: seq<Color>)
    requires Shaped(bits, rows, cols) && fontSize >= 1
  {
    ScaledTop(bits, rows, cols, fontSize, textColor, bgColor, rows * fontSize)
  }

  /** `n` pixel rows hold `n * (cols * fs)` pixels. */
  lemma {:induction false} ScaledTopLength(bits: Bits, rows: nat, cols: nat, fontSize: nat, textColor: Color, bgColor: Color, n: nat)
    requires Shaped(bits, rows, cols) && fontSize >= 1 && n <= rows * fontSize
    ensures |ScaledTop(bits, rows, cols, fontSize, textColor, bgColor, n)| == n * (cols * fontSize)
  {
    if n > 0 {
      ScaledTopLength(bits, rows, cols, fontSize, textColor, bgColor, n - 1);
      MulSucc(n - 1, cols * fontSize);
    }
  }

  /** A scaled glyph fills a `cols * fs` by `rows * fs` window exactly. */
  lemma ScaledSize(bits: Bits, rows: nat, cols: nat, fontSize: nat, textColor: Color, bgColor: Color)
    requires Shaped(bits, rows, cols) && fontSize >= 1
    ensures |Scaled(bits, rows, cols, fontSize, textColor, bgColor)| == (cols * fontSize) * (rows * fontSize)
  {
    ScaledTopLength(bits, rows, cols, fontSize, textColor, bgColor, rows * fontSize);
  }

  /** One scaled pixel row: each bit of `inks` as a run of `fs` pixels, left to right. */
  function ScaledLine(inks: seq<bool>, fontSize: nat, textColor: Color, bgColor: Color): (cs: seq<Color>)
    ensures |cs| == |inks| * fontSize
  {
    if inks == [] then []
    else
      MulSucc(|inks| - 1, fontSize);
      ScaledLine(inks[..|inks| - 1], fontSize, textColor, bgColor) + Repeat(Ink(inks[|inks| - 1], textColor, bgColor), fontSize)
  }

  /** `n` copies of one pixel row. */
  function Copies(line: seq<Color>, n: nat): (cs: seq<Color>)
    ensures |cs| == n * |line|
  {
    if n == 0 then []
    else
      MulSucc(n - 1, |line|);
      Copies(line, n - 1) + line
  }

  /**
   * The first `n` font rows of a glyph in the order the driver streams
   * them: for each font row, `fs` copies of its scaled pixel row.
   */
  function ScaledRows(bits: Bits, n: nat, fontSize: nat, textColor: Color, bgColor: Color): seq<Color>
    requires n <= |bits|
  {
    if n == 0 then []
    else
      ScaledRows(bits, n - 1, fontSize, textColor, bgColor)
      + Copies(ScaledLine(bits[n - 1], fontSize, textColor, bgColor), fontSize)
  }

  /** Streaming bit `col` after bits `..col` streams bits `..col + 1`. */
  lemma ScaledLineStep(inks: seq<bool>, fontSize: nat, textColor: Color, bgColor: Color, col: nat)
    requires col < |inks|
    ensures ScaledLine(inks[..col + 1], fontSize, textColor, bgColor) ==
      ScaledLine(inks[..col], fontSize, textColor, bgColor) + Repeat(Ink(inks[col], textColor, bgColor), fontSize)
  {
    assert inks[..col + 1][..col] == inks[..col];
  }

  /** Pixel `C` of a scaled row has the ink of bit `C / fs`. */
  lemma {:induction false} ScaledLineAt(inks: seq<bool>, fontSize: nat, textColor: Color, bgColor: Color, col: nat)
    requires fontSize >= 1 && col < |inks| * fontSize
    ensures col / fontSize < |inks|
    ensures ScaledLine(inks, fontSize, textColor, bgColor)[col] == Ink(inks[col / fontSize], textColor, bgColor)
    decreases |inks|
  {
    var n := |inks| - 1;
    MulSucc(n, fontSize);
    if col < n * fontSize {
      ScaledLineAt(inks[..n], fontSize, textColor, bgColor, col);
    } else {
      DivModUnique(col, fontSize, n, col - n * fontSize);
    }
  }

  /** Every pixel row of font row `r` is the scaled line of its bits. */
  lemma ScaledRowLine(bits: Bits, rows: nat, cols: nat, fontSize: nat, textColor: Color, bgColor: Color, r: nat, i: nat)
    requires Shaped(bits, rows, cols) && fontSize >= 1 && r < rows && i < fontSize
    ensures r * fontSize + i < rows * fontSize
    ensures ScaledRow(bits, rows, cols, fontSize, textColor, bgColor, r * fontSize + i) == ScaledLine(bits[r], fontSize, textColor, bgColor)
  {
    MulSucc(r, fontSize);
    MulMono(r + 1, rows, fontSize);
    DivModUnique(r * fontSize + i, fontSize, r, i);
    var a := ScaledRow(bits, rows, cols, fontSize, textColor, bgColor, r * fontSize + i);
    var b := ScaledLine(bits[r], fontSize, textColor, bgColor);
    assert |b| == |a|;
    forall col | 0 <= col < |a|
      ensures a[col] == b[col]
    {
      ScaledLineAt(bits[r], fontSize, textColor, bgColor, col);
    }
  }

  /**
   * The first `i` pixel rows of font row `r`, which start at pixel row
   * `n = r * fs`, are `i` copies of its scaled line.
   */
  lemma {:induction false} ScaledTopCopies(bits: Bits, rows: nat, cols: nat, fontSize: nat, textColor: Color, bgColor: Color,
                                           r: nat, n: nat, i: nat)
    requires Shaped(bits, rows, cols) && fontSize >= 1 && r < rows && i <= fontSize
    requires n == r * fontSize && n + fontSize <= rows * fontSize
    ensures ScaledTop(bits, rows, cols, fontSize, textColor, bgColor, n + i) ==
      ScaledTop(bits, rows, cols, fontSize, textColor, bgColor, n)
      + Copies(ScaledLine(bits[r], fontSize, textColor, bgColor), i)
  {
    if i > 0 {
      var j := i - 1;
      var line := ScaledLine(bits[r], fontSize, textColor, bgColor);
      ScaledTopCopies(bits, rows, cols, fontSize, textColor, bgColor, r, n, j);
      ScaledRowLine(bits, rows, cols, fontSize, textColor, bgColor, r, j);
      assert ScaledRow(bits, rows, cols, fontSize, textColor, bgColor, n + j) == line;
      assert ScaledTop(bits, rows, cols, fontSize, textColor, bgColor, n + i)
          == ScaledTop(bits, rows, cols, fontSize, textColor, bgColor, n + j) + line;
      assert Copies(line, i) == Copies(line, j) + line;
    }
  }

  /**
   * The driver's loops over the first `r` font rows stream the first
   * `n = r * fs` pixel rows.
   */
  lemma {:induction false} ScaledTopRows(bits: Bits, rows: nat, cols: nat, fontSize: nat, textColor: Color, bgColor: Color, r: nat, n: nat)
    requires Shaped(bits, rows, cols) && fontSize >= 1 && r <= rows
    requires n == r * fontSize && n <= rows * fontSize
    ensures ScaledTop(bits, rows, cols, fontSize, textColor, bgColor, n) == ScaledRows(bits, r, fontSize, textColor, bgColor)
  {
    if r > 0 {
      var q, m := r - 1, n - fontSize;
      MulSucc(q, fontSize);
      assert m == q * fontSize && m + fontSize == n;
      ScaledTopRows(bits, rows, cols, fontSize, textColor, bgColor, q, m);
      ScaledTopCopies(bits, rows, cols, fontSize, textColor, bgColor, q, m, fontSize);
      assert ScaledRows(bits, r, fontSize, textColor, bgColor)
          == ScaledRows(bits, q, fontSize, textColor, bgColor) + Copies(ScaledLine(bits[q], fontSize, textColor, bgColor), fontSize);
    }
  }

  /**
   * The driver's row / copy / column / run loops stream exactly the scaled
   * glyph, in raster order.
   */
  lemma ScaledRowsPixels(bits: Bits, rows: nat, cols: nat, fontSize: nat, textColor: Color, bgColor: Color)
    requires Shaped(bits, rows, cols) && fontSize >= 1
    ensures ScaledRows(bits, rows, fontSize, textColor, bgColor) == Scaled(bits, rows, cols, fontSize, textColor, bgColor)
  {
    ScaledTopRows(bits, rows, cols, fontSize, textColor, bgColor, rows, rows * fontSize);
  }

  /** Pixel `(R, C)` of the first `n` scaled rows sits at `R * (cols * fs) + C`, in pixel row `R`. */
  lemma {:induction false} ScaledTopAt(bits: Bits, rows: nat, cols: nat, fontSize: nat, textColor: Color, bgColor: Color,
                                       n: nat, row: nat, col: nat, p: nat)
    requires Shaped(bits, rows, cols) && fontSize >= 1 && n <= rows * fontSize
    requires row < n && col < cols * fontSize && p == row * (cols * fontSize) + col
    ensures p < |ScaledTop(bits, rows, cols, fontSize, textColor, bgColor, n)|
      && ScaledTop(bits, rows, cols, fontSize, textColor, bgColor, n)[p] == ScaledRow(bits, rows, cols, fontSize, textColor, bgColor, row)[col]
    decreases n
  {
    var w: nat := cols * fontSize;
    ScaledTopLength(bits, rows, cols, fontSize, textColor, bgColor, n - 1);
    if row < n - 1 {
      ScaledTopAt(bits, rows, cols, fontSize, textColor, bgColor, n - 1, row, col, p);
      MulMono(row + 1, n - 1, w);
    }
  }

  /**
   * Pixel `(R, C)` of a glyph drawn `fs` times larger, at `R * (cols * fs) + C`
   * in raster order, takes the ink of bit `(R / fs, C / fs)`.
   */
  lemma ScaledPixelAt(bits: Bits, rows: nat, cols: nat, fontSize: nat, textColor: Color, bgColor: Color, row: nat, col: nat)
    requires Shaped(bits, rows, cols) && fontSize >= 1 && row < rows * fontSize && col < cols * fontSize
    ensures var r, c := row / fontSize, col / fontSize;
      && r < |bits| && c < |bits[r]|
      && row * (cols * fontSize) + col < |Scaled(bits, rows, cols, fontSize, textColor, bgColor)|
      && Scaled(bits, rows, cols, fontSize, textColor, bgColor)[row * (cols * fontSize) + col] == Ink(bits[r][c], textColor, bgColor)
  {
    DivBelow(row, fontSize, rows);
    DivBelow(col, fontSize, cols);
    ScaledTopAt(bits, rows, cols, fontSize, textColor, bgColor, rows * fontSize, row, col, row * (cols * fontSize) + col);
  }

  // ---------------------------------------------------------------------
  // Numbers and strings

  /** The three decimal digits of `number % 1000`, hundreds first, leading zeros kept. */
  function Digits(number: nat): (ds: seq<nat>)
    ensures |ds| == 3 && ds[0] <= 9 && ds[1] <= 9 && ds[2] <= 9
  {
    [(number % 1000) / 100, (number % 100) / 10, number % 10]
  }

  /** The digits spell `number % 1000` in decimal. */
  lemma DigitsValue(number: nat)
    ensures 100 * Digits(number)[0] + 10 * Digits(number)[1] + Digits(number)[2] == number % 1000
  {
    var m, q := number % 1000, number / 1000;
    assert number == 1000 * q + m;
    DivModUnique(number, 100, 10 * q + m / 100, m % 100);
    var t := m % 100;
    DivModUnique(number, 10, 100 * q + 10 * (m / 100) + t / 10, t % 10);
  }

  /**
   * Taking the leading digit off, as the driver's `number -= d * modeNumber`
   * does, leaves the number's lower digits.
   */
  lemma DigitSteps(number: nat)
    ensures number % 1000 - Digits(number)[0] * 100 == number % 100
    ensures number % 100 - Digits(number)[1] * 10 == number % 10
    ensures number % 10 - Digits(number)[2] == 0
  {
    var m, t := number % 1000, number % 100;
    DivModUnique(number, 100, number / 1000 * 10 + m / 100, m % 100);
    DivModUnique(number, 10, number / 100 * 10 + t / 10, t % 10);
  }

  /** The place value of digit `i`, hundreds first: the driver's `modeNumber`, which ends at 0. */
  function Place(i: nat): nat
  {
    if i == 0 then 100 else if i == 1 then 10 else if i == 2 then 1 else 0
  }

  /**
   * Digit `i` is the part of `number` below `10 * Place(i)`, divided by
   * `Place(i)`; taking it off leaves the part below the next place.
   */
  lemma DigitPlace(number: nat, i: nat, rest: nat, mode: nat)
    requires i < 3 && mode == Place(i) && rest == number % (10 * mode)
    ensures rest / mode == Digits(number)[i]
    ensures rest - rest / mode * mode == if i < 2 then number % (10 * Place(i + 1)) else 0
    ensures mode / 10 == Place(i + 1)
  {
    DigitSteps(number);
  }

  /**
   * The bits of digit `digit`: bit `(r, col)` is bit `r` of column byte
   * `col` of the digit's five bytes.
   */
  function NumberBits(digit: nat): (bits: Bits)
    requires digit <= 9
    ensures Shaped(bits, 8, 5)
  {
    seq(8, r requires 0 <= r < 8 => seq(5, col requires 0 <= col < 5 => BitSet(NumberFont[digit * 5 + col], r)))
  }

  lemma NumberBitAt(digit: nat, r: nat, c: nat)
    requires digit <= 9 && r < 8 && c < 5
    ensures digit * 5 + c < |NumberFont| && NumberBits(digit)[r][c] == BitSet(NumberFont[digit * 5 + c], r)
  {
  }

  /** The `5fs x 8fs` colours of one scaled digit, in raster order. */
  function NumberGlyph(digit: nat, fontSize: nat, textColor: Color, bgColor: Color): (cs: seq<Color>)
    requires digit <= 9 && fontSize >= 1
  {
    Scaled(NumberBits(digit), 8, 5, fontSize, textColor, bgColor)
  }

  /**
   * Pixel `(R, C)` of a digit drawn `fs` times larger is the text colour
   * exactly when bit `R / fs` of column byte `C / fs` of the digit is set.
   */
  lemma NumberPixelAt(digit: nat, fontSize: nat, textColor: Color, bgColor: Color, row: nat, col: nat, p: nat, r: nat, c: nat)
    requires digit <= 9 && fontSize >= 1 && row < 8 * fontSize && col < 5 * fontSize && p == row * (5 * fontSize) + col
    requires r == row / fontSize && c == col / fontSize
    ensures digit * 5 + c < |NumberFont| && p < |NumberGlyph(digit, fontSize, textColor, bgColor)|
      && NumberGlyph(digit, fontSize, textColor, bgColor)[p] == if BitSet(NumberFont[digit * 5 + c], r) then textColor else bgColor
  {
    var bits := NumberBits(digit);
    DivBelow(row, fontSize, 8);
    DivBelow(col, fontSize, 5);
    ScaledPixelAt(bits, 8, 5, fontSize, textColor, bgColor, row, col);
    NumberBitAt(digit, r, c);
  }

  /** No column byte of the font uses bit 7, so the bottom `fs` pixel rows of every digit are background. */
  lemma NumberBottomBlank(digit: nat, fontSize: nat, textColor: Color, bgColor: Color, row: nat)
    requires digit <= 9 && fontSize >= 1 && 7 * fontSize <= row < 8 * fontSize
    ensures ScaledRow(NumberBits(digit), 8, 5, fontSize, textColor, bgColor, row) == Repeat(bgColor, 5 * fontSize)
  {
    var a := ScaledRow(NumberBits(digit), 8, 5, fontSize, textColor, bgColor, row);
    DivModUnique(row, fontSize, 7, row - 7 * fontSize);
    NumberFontBelow80();
    BitValues();
    forall col | 0 <= col < |a|
      ensures a[col] == bgColor
    {
      DivBelow(col, fontSize, 5);
      var b := NumberFont[digit * 5 + col / fontSize];
      DivModUnique(b, 0x80, 0, b);
      assert !BitSet(b, 7);
    }
  }

  /** Every column byte of the digit font leaves bit 7 clear. */
  lemma NumberFontBelow80()
    ensures forall k :: 0 <= k < |NumberFont| ==> NumberFont[k] < 0x80
  {
    forall k | 0 <= k < |NumberFont|
      ensures NumberFont[k] < 0x80
    {
      assert k == 0 || k == 1 || k == 2 || k == 3 || k == 4 || k == 5 || k == 6 || k == 7 || k == 8 || k == 9 || k == 10 || k == 11 || k == 12 || k == 13 || k == 14 || k == 15 || k == 16 || k == 17 || k == 18 || k == 19 || k == 20 || k == 21 || k == 22 || k == 23 || k == 24 || k == 25 || k == 26 || k == 27 || k == 28 || k == 29 || k == 30 || k == 31 || k == 32 || k == 33 || k == 34 || k == 35 || k == 36 || k == 37 || k == 38 || k == 39 || k == 40 || k == 41 || k == 42 || k == 43 || k == 44 || k == 45 || k == 46 || k == 47 || k == 48 || k == 49;
    }
  }

  /** The window of digit `i`: its x advances by the 8-bit width `5fs` per digit. */
  function DigitFrame(start: Point, fontSize: uint8, i: nat): Rect
  {
    var width := U8(NumberSize.width * fontSize);
    Rect(Point(U8(start.x + i * width), start.y), Size(width, U8(NumberSize.height * fontSize)))
  }

  /** Moving a digit's window right by its width gives the next digit's window. */
  lemma DigitFrameNext(start: Point, fontSize: uint8, i: nat)
    ensures var f := DigitFrame(start, fontSize, i);
            DigitFrame(start, fontSize, i + 1) == f.(origin := f.origin.(x := U8(f.origin.x + f.size.width)))
  {
    var w := U8(NumberSize.width * fontSize);
    U8Absorbs(start.x + i * w, w);
    MulSucc(i, w);
  }

  /** One digit: its window and glyph, or nothing when the window is empty. */
  function DigitTrace(frame: Rect, digit: nat, fontSize: uint8, textColor: Color, bgColor: Color): seq<Event>
    requires digit <= 9 && fontSize >= 1
  {
    if IsEmpty(frame) then [] else WriteTrace(frame, NumberGlyph(digit, fontSize, textColor, bgColor))
  }

  /** The first `n` digits of `ds`, left to right. */
  function DigitsTrace(start: Point, ds: seq<nat>, n: nat, fontSize: uint8, textColor: Color, bgColor: Color): seq<Event>
    requires n <= |ds| && fontSize >= 1 && forall k :: 0 <= k < |ds| ==> ds[k] <= 9
  {
    if n == 0 then []
    else
      DigitsTrace(start, ds, n - 1, fontSize, textColor, bgColor)
      + DigitTrace(DigitFrame(start, fontSize, n - 1), ds[n - 1], fontSize, textColor, bgColor)
  }

  /** `JMEST7735R_drawNumber`. */
  function NumberTrace(start: Point, number: uint16, textColor: Color, bgColor: Color, fontSize: uint8): seq<Event>
  {
    if fontSize == 0 then [] else DigitsTrace(start, Digits(number), 3, fontSize, textColor, bgColor)
  }

  /** Without wrap-around, digit `i`'s window starts `5fs * i` to the right of the start point. */
  lemma DigitFrameAt(start: Point, fontSize: uint8, i: nat)
    requires 8 * fontSize <= 0xFF && start.x + 5 * fontSize * i < 0x100
    ensures DigitFrame(start, fontSize, i) == Rect(Point(start.x + 5 * fontSize * i, start.y), Size(5 * fontSize, 8 * fontSize))
  {
  }

  /**
   * When nothing wraps, a number is three writes side by side, each a
   * `5fs x 8fs` window holding its digit's glyph, hundreds first.
   */
  lemma NumberLayout(start: Point, number: uint16, textColor: Color, bgColor: Color, fontSize: uint8)
    requires fontSize >= 1 && 8 * fontSize <= 0xFF && start.x + 15 * fontSize <= 0x100
    ensures var w, h := 5 * fontSize, 8 * fontSize;
            var ds := Digits(number);
            NumberTrace(start, number, textColor, bgColor, fontSize) ==
              WriteTrace(Rect(start, Size(w, h)), NumberGlyph(ds[0], fontSize, textColor, bgColor))
              + WriteTrace(Rect(Point(start.x + w, start.y), Size(w, h)), NumberGlyph(ds[1], fontSize, textColor, bgColor))
              + WriteTrace(Rect(Point(start.x + 2 * w, start.y), Size(w, h)), NumberGlyph(ds[2], fontSize, textColor, bgColor))
  {
    var w, h := 5 * fontSize, 8 * fontSize;
    var ds := Digits(number);
    var f0, f1, f2 := Rect(start, Size(w, h)), Rect(Point(start.x + w, start.y), Size(w, h)), Rect(Point(start.x + 2 * w, start.y), Size(w, h));
    assert DigitFrame(start, fontSize, 0) == f0 by { DigitFrameAt(start, fontSize, 0); }
    assert DigitFrame(start, fontSize, 1) == f1 by { DigitFrameAt(start, fontSize, 1); }
    assert DigitFrame(start, fontSize, 2) == f2 by { DigitFrameAt(start, fontSize, 2); }
    var t0 := WriteTrace(f0, NumberGlyph(ds[0], fontSize, textColor, bgColor));
    var t1 := WriteTrace(f1, NumberGlyph(ds[1], fontSize, textColor, bgColor));
    var t2 := WriteTrace(f2, NumberGlyph(ds[2], fontSize, textColor, bgColor));
    assert DigitTrace(f0, ds[0], fontSize, textColor, bgColor) == t0;
    assert DigitTrace(f1, ds[1], fontSize, textColor, bgColor) == t1;
    assert DigitTrace(f2, ds[2], fontSize, textColor, bgColor) == t2;
    assert DigitsTrace(start, ds, 1, fontSize, textColor, bgColor) == t0;
    assert DigitsTrace(start, ds, 2, fontSize, textColor, bgColor) == t0 + t1;
    assert DigitsTrace(start, ds, 3, fontSize, textColor, bgColor) == t0 + t1 + t2;
  }

  /** The characters the driver can look up: printable ASCII with twelve bytes of the table each. */
  predicate PrintableChar(ch: char, table: seq<uint8>)
  {
    32 <= ch as int < 128 && (ch as int - 32) * 12 + 12 <= |table|
  }

  predicate Printable(text: string, table: seq<uint8>)
  {
    forall k :: 0 <= k < |text| ==> PrintableChar(text[k], table)
  }

  /**
   * The bits of the character with table index `code`: bit `(r, col)` is
   * bit `7 - col` of row byte `r` of the character's twelve bytes.
   */
  function CharBits(table: seq<uint8>, code: nat): (bits: Bits)
    requires code * 12 + 12 <= |table|
    ensures Shaped(bits, 12, 8)
  {
    seq(12, r requires 0 <= r < 12 => seq(8, col requires 0 <= col < 8 => BitSet(table[code * 12 + r], 7 - col)))
  }

  /** The `8fs x 12fs` colours of one scaled character, in raster order. */
  function CharGlyph(table: seq<uint8>, code: nat, fontSize: nat, textColor: Color, bgColor: Color): (cs: seq<Color>)
    requires fontSize >= 1 && code * 12 + 12 <= |table|
  {
    Scaled(CharBits(table, code), 12, 8, fontSize, textColor, bgColor)
  }

  /** The window of character `i`: its x advances by the 8-bit width `8fs` per character. */
  function CharFrame(start: Point, fontSize: uint8, i: nat): Rect
  {
    var width := U8(AsciiSize.width * fontSize);
    Rect(Point(U8(start.x + i * width), start.y), Size(width, U8(AsciiSize.height * fontSize)))
  }

  /** Moving a character's window right by its width gives the next character's window. */
  lemma CharFrameNext(start: Point, fontSize: uint8, i: nat)
    ensures var f := CharFrame(start, fontSize, i);
            CharFrame(start, fontSize, i + 1) == f.(origin := f.origin.(x := U8(f.origin.x + f.size.width)))
  {
    var w := U8(AsciiSize.width * fontSize);
    U8Absorbs(start.x + i * w, w);
    MulSucc(i, w);
  }

  /** One character: its window and glyph, or nothing when the window is empty. */
  function CharTrace(frame: Rect, table: seq<uint8>, ch: char, textColor: Color, bgColor: Color, fontSize: uint8): seq<Event>
    requires fontSize >= 1 && (!IsEmpty(frame) ==> PrintableChar(ch, table))
  {
    if IsEmpty(frame) then []
    else
      WriteTrace(frame, CharGlyph(table, ch as int - 32, fontSize, textColor, bgColor))
  }

  /** The characters of `text`, left to right. */
  function CharsTrace(start: Point, text: string, textColor: Color, bgColor: Color, fontSize: uint8, table: seq<uint8>): seq<Event>
    requires fontSize >= 1 && (!IsEmpty(CharFrame(start, fontSize, 0)) ==> Printable(text, table))
  {
    if text == [] then []
    else
      var n := |text| - 1;
      assert !IsEmpty(CharFrame(start, fontSize, 0)) ==> PrintableChar(text[n], table) && Printable(text[..n], table);
      CharsTrace(start, text[..n], textColor, bgColor, fontSize, table)
      + CharTrace(CharFrame(start, fontSize, n), table, text[n], textColor, bgColor, fontSize)
  }

  /** Drawing the first `i + 1` characters draws the first `i`, then character `i` in window `i`. */
  lemma CharsStep(start: Point, text: string, i: nat, textColor: Color, bgColor: Color, fontSize: uint8, table: seq<uint8>)
    requires fontSize >= 1 && i < |text| && (!IsEmpty(CharFrame(start, fontSize, 0)) ==> Printable(text, table))
    ensures !IsEmpty(CharFrame(start, fontSize, 0)) ==> Printable(text[..i], table) && Printable(text[..i + 1], table)
    ensures CharsTrace(start, text[..i + 1], textColor, bgColor, fontSize, table) ==
      CharsTrace(start, text[..i], textColor, bgColor, fontSize, table)
      + CharTrace(CharFrame(start, fontSize, i), table, text[i], textColor, bgColor, fontSize)
  {
    assert text[..i + 1][..i] == text[..i];
    assert text[..i + 1][i] == text[i];
  }

  /**
   * Pixel `(R, C)` of a character drawn `fs` times larger is the text colour
   * exactly when bit `7 - C / fs` of row byte `R / fs` of the character is set.
   */
  lemma CharPixelAt(table: seq<uint8>, code: nat, fontSize: nat, textColor: Color, bgColor: Color, row: nat, col: nat, p: nat)
    requires fontSize >= 1 && code * 12 + 12 <= |table| && row < 12 * fontSize && col < 8 * fontSize
    requires p == row * (8 * fontSize) + col
    ensures var glyph, r, c := CharGlyph(table, code, fontSize, textColor, bgColor), row / fontSize, col / fontSize;
      && code * 12 + r < |table| && c < 8 && p < |glyph|
      && glyph[p] == if BitSet(table[code * 12 + r], 7 - c) then textColor else bgColor
  {
    var bits := CharBits(table, code);
    var r, c := row / fontSize, col / fontSize;
    ScaledPixelAt(bits, 12, 8, fontSize, textColor, bgColor, row, col);
    assert bits[r][c] == BitSet(table[code * 12 + r], 7 - c);
  }

  /** `JMEST7735R_drawString`, with the 8 x 12 ASCII table passed in. */
  function StringTrace(start: Point, text: string, textColor: Color, bgColor: Color, fontSize: uint8, table: seq<uint8>): seq<Event>
    requires fontSize >= 1 ==> !IsEmpty(CharFrame(start, fontSize, 0)) ==> Printable(text, table)
  {
    if fontSize == 0 then [] else CharsTrace(start, text, textColor, bgColor, fontSize, table)
  }

  /** Without wrap-around, character `i`'s window starts `8fs * i` to the right of the start point. */
  lemma CharFrameAt(start: Point, fontSize: uint8, i: nat)
    requires 12 * fontSize <= 0xFF && start.x + 8 * fontSize * i < 0x100
    ensures CharFrame(start, fontSize, i) == Rect(Point(start.x + 8 * fontSize * i, start.y), Size(8 * fontSize, 12 * fontSize))
  {
  }

  /**
   * Drawing `text + [ch]` draws `text`, then `ch` in the next window along,
   * holding the character's glyph.
   */
  lemma StringAppend(start: Point, text: string, ch: char, textColor: Color, bgColor: Color, fontSize: uint8, table: seq<uint8>)
    requires fontSize >= 1 && 12 * fontSize <= 0xFF && Printable(text, table) && PrintableChar(ch, table)
    ensures StringTrace(start, text + [ch], textColor, bgColor, fontSize, table) ==
      StringTrace(start, text, textColor, bgColor, fontSize, table)
      + WriteTrace(CharFrame(start, fontSize, |text|), CharGlyph(table, ch as int - 32, fontSize, textColor, bgColor))
  {
    var s := text + [ch];
    assert s[|text|] == ch;
    assert s[..|text|] == text;
  }

  // The character loop's index. The driver declares it `uint8_t`, so for
  // a string of 256 characters or more `i < strlen` always holds after
  // the increment wraps; a `nat` index, as `ST7735R.Panel.DrawChars` has,
  // visits every character once and stops.

  /**
   * The indices the loop visits in its first `steps` passes from index
   * `i`, with the 8-bit index as written: it runs while `i < len` and
   * steps `i` modulo 256.
   */
  function IndicesVisited8(len: nat, i: uint8, steps: nat): (vs: seq<uint8>)
    ensures |vs| <= steps
    decreases steps
  {
    if steps == 0 || len <= i then [] else [i] + IndicesVisited8(len, U8(i + 1), steps - 1)
  }

  /** With `len >= 256` the 8-bit loop never exits: every one of any number of passes happens, the index wrapping to 0 after 255. */
  lemma {:induction false} StringIndexNeverExits(len: nat, i: uint8, steps: nat, k: nat)
    requires len >= 256 && k < steps
    ensures |IndicesVisited8(len, i, steps)| == steps
    ensures IndicesVisited8(len, i, steps)[k] == U8(i + k)
    decreases steps
  {
    var vs := IndicesVisited8(len, i, steps);
    if k == 0 {
      if steps > 1 {
        StringIndexNeverExits(len, U8(i + 1), steps - 1, 0);
      }
    } else {
      StringIndexNeverExits(len, U8(i + 1), steps - 1, k - 1);
      U8Absorbs(i + 1, k - 1);
      assert vs[k] == IndicesVisited8(len, U8(i + 1), steps - 1)[k - 1];
    }
  }

  /** Pass 256 of the 8-bit loop goes back to character 0 instead of drawing character 256. */
  lemma StringIndexWraps(len: nat)
    requires len >= 256
    ensures |IndicesVisited8(len, 0, 257)| == 257 && IndicesVisited8(len, 0, 257)[256] == 0
  {
    StringIndexNeverExits(len, 0, 257, 256);
  }

  /** The indices the loop visits with an unbounded index. */
  function IndicesVisited(len: nat, i: nat, steps: nat): (vs: seq<nat>)
    ensures |vs| <= steps
    decreases steps
  {
    if steps == 0 || len <= i then [] else [i] + IndicesVisited(len, i + 1, steps - 1)
  }

  /** With an unbounded index the loop visits `i, i + 1, ..., len - 1` once each and then stops, however many passes it is allowed. */
  lemma {:induction false} StringIndexVisitsEach(len: nat, i: nat, steps: nat)
    requires i <= len && len - i <= steps
    ensures |IndicesVisited(len, i, steps)| == len - i
    ensures forall k :: 0 <= k < len - i ==> IndicesVisited(len, i, steps)[k] == i + k
    decreases steps
  {
    if i < len {
      StringIndexVisitsEach(len, i + 1, steps - 1);
    }
  }
}
