/**
 * The ST7735R driver as a machine that appends bus events.
 *
 * `Panel.trace` is everything the driver has sent to the controller since
 * power-on. Each method is the driver function of the same name, with the
 * same loops, and is proved to append exactly the events of the
 * specification function in `ST7735RTrace` or `ST7735RScript`; what those
 * events mean to the controller is proved there.
 */
module ST7735R {
  import opened JMEBase
  import opened JMEMath
  import opened JMEGeometry
  import opened ST7735RTrace
  import opened ST7735RScript

  /** Appending to a trace in two steps is appending once. */
  lemma Resume(t: seq<Event>, sent: seq<Event>, more: seq<Event>)
    ensures t + sent + more == t + (sent + more)
  {
  }

  /** The rows down to the image's bottom edge, then the band below it, stream the whole icon. */
  lemma MenuIconStreamed(ic: MenuIcon<Color>, oy: nat, rest: nat, t0: seq<Event>, t2: seq<Event>, t3: seq<Event>)
    requires MenuIconShown(ic) && oy == (ic.iconFrame.size.height - ic.iconSize.height) / 2
    requires rest == ic.iconFrame.size.height - ic.iconSize.height - oy
    requires t2 == t0 + PixelData(MenuIconRowsFrom(ic, 0, oy)) + PixelData(MenuIconRowsFrom(ic, oy, ic.iconSize.height))
    requires t3 == t2 + PixelData(MenuIconRowsFrom(ic, oy + ic.iconSize.height, rest))
    ensures t3 == t0 + PixelData(MenuIconPixels(ic))
  {
    Extend3(t0, t2, t3, MenuIconRowsFrom(ic, 0, oy), MenuIconRowsFrom(ic, oy, ic.iconSize.height),
            MenuIconRowsFrom(ic, oy + ic.iconSize.height, rest));
  }

  /** Three runs streamed one after the other stream their concatenation. */
  lemma Extend3(t0: seq<Event>, t2: seq<Event>, t3: seq<Event>, a: seq<Color>, b: seq<Color>, c: seq<Color>)
    requires t2 == t0 + PixelData(a) + PixelData(b) && t3 == t2 + PixelData(c)
    ensures t3 == t0 + PixelData(a + b + c)
  {
    Extend(t0, a, b);
    Extend(t0, a + b, c);
  }

  /** Streaming one run of colours after another streams their concatenation. */
  lemma Extend(t: seq<Event>, a: seq<Color>, b: seq<Color>)
    ensures t + PixelData(a) + PixelData(b) == t + PixelData(a + b)
  {
    PixelDataAppend(a, b);
    Resume(t, PixelData(a), PixelData(b));
  }

  /** Streaming colour `k` after the first `k` streams the first `k + 1`. */
  lemma ExtendOne(t: seq<Event>, cs: seq<Color>, k: nat)
    requires k < |cs|
    ensures t + PixelData(cs[..k]) + PixelData([cs[k]]) == t + PixelData(cs[..k + 1])
  {
    assert cs[..k + 1] == cs[..k] + [cs[k]];
    Extend(t, cs[..k], [cs[k]]);
  }

  /** Streaming colours `a..b` after the first `a` streams the first `b`. */
  lemma ExtendSlice(t: seq<Event>, cs: seq<Color>, a: nat, b: nat)
    requires a <= b <= |cs|
    ensures t + PixelData(cs[..a]) + PixelData(cs[a..b]) == t + PixelData(cs[..b])
  {
    assert cs[..b] == cs[..a] + cs[a..b];
    Extend(t, cs[..a], cs[a..b]);
  }

  /** Streaming colours `b..c` after colours `a..b` streams colours `a..c`. */
  lemma ExtendRange(t: seq<Event>, cs: seq<Color>, a: nat, b: nat, c: nat)
    requires a <= b <= c <= |cs|
    ensures t + PixelData(cs[a..b]) + PixelData(cs[b..c]) == t + PixelData(cs[a..c])
  {
    assert cs[a..c] == cs[a..b] + cs[b..c];
    Extend(t, cs[a..b], cs[b..c]);
  }

  /** Streaming colour `b` after colours `a..b` streams colours `a..b + 1`. */
  lemma ExtendAt(t: seq<Event>, cs: seq<Color>, a: nat, b: nat)
    requires a <= b < |cs|
    ensures t + PixelData(cs[a..b]) + PixelData([cs[b]]) == t + PixelData(cs[a..b + 1])
  {
    assert cs[a..b + 1] == cs[a..b] + [cs[b]];
    Extend(t, cs[a..b], [cs[b]]);
  }

  /** Image row `r` of a drawable icon whose image sits at `(ox, oy)` in its frame. */
  ghost predicate IconRow(icon: MenuIcon<Color>, ox: uint8, oy: uint8, r: uint8)
  {
    && MenuIconShown(icon)
    && ox == (icon.iconFrame.size.width - icon.iconSize.width) / 2
    && oy == (icon.iconFrame.size.height - icon.iconSize.height) / 2
    && r < icon.iconSize.height
  }

  /** Plotting point `j` after the first `j` extends the trace of the first `j` by one pixel write. */
  lemma PointsPrefix(ps: seq<Point>, color: Color, j: nat)
    requires j < |ps|
    ensures PointsTrace(ps[..j + 1], color) == PointsTrace(ps[..j], color) + PixelTrace(ps[j], color)
  {
    assert ps[..j + 1][..j] == ps[..j];
  }

  /** Stepping a wrapped coordinate back by one and forward again lands on the same values. */
  lemma OutlineCorners(x: int, y: int, w: int, h: int)
    ensures U8(U8(x + w) - 1) == U8(x + w - 1) && U8(U8(x + w - 1) + 1) == U8(x + w)
    ensures U8(U8(y + h) - 1) == U8(y + h - 1) && U8(U8(y + h - 1) + 1) == U8(y + h)
  {
    U8Absorbs(x + w, -1);
    U8Absorbs(x + w - 1, 1);
    U8Absorbs(y + h, -1);
    U8Absorbs(y + h - 1, 1);
  }

  class Panel {
    /** The bus events sent so far, oldest first. */
    var trace: seq<Event>

    constructor()
      ensures trace == []
    {
      trace := [];
    }

    // -------------------------------------------------------------------
    // Bus primitives

    /** `_JMEST7735R_write_command`: one byte with the command/data line low. */
    method WriteCommand(op: uint8)
      modifies this
      ensures trace == old(trace) + [Cmd(op)]
    {
      trace := trace + [Cmd(op)];
    }

    /** `_JMEST7735R_write_data` and `JMEST7735R_seqWrite`: one byte with the command/data line high. */
    method WriteData(value: uint8)
      modifies this
      ensures trace == old(trace) + [Data(value)]
    {
      trace := trace + [Data(value)];
    }

    /** `JMEST7735R_delayMS`. */
    method DelayMs(ms: nat)
      modifies this
      ensures trace == old(trace) + [Delay(ms)]
    {
      trace := trace + [Delay(ms)];
    }

    /** `JMEST7735R_LEDON` / `JMEST7735R_LEDOFF`. */
    method SetLed(on: bool)
      modifies this
      ensures trace == old(trace) + [Led(on)]
    {
      trace := trace + [Led(on)];
    }

    /** `JMEST7735R_RESETENABLE` / `JMEST7735R_RESETDISABLE`. */
    method SetReset(active: bool)
      modifies this
      ensures trace == old(trace) + [Reset(active)]
    {
      trace := trace + [Reset(active)];
    }

    /** The two `seqWrite` calls of one pixel: `(uint8_t)(color >> 8)`, then `(uint8_t)color`. */
    method WriteColor(color: Color)
      modifies this
      ensures trace == old(trace) + PixelData([color])
    {
      WriteData(U8(color / 0x100));
      WriteData(U8(color));
      assert PixelData([color]) == PixelData([]) + [Data(Hi(color)), Data(Lo(color))];
    }

    /** The `while (length--)` loops that stream one colour `length` times. */
    method WriteRepeated(color: Color, length: nat)
      modifies this
      ensures trace == old(trace) + PixelData(Repeat(color, length))
    {
      var n: nat := length;
      while n > 0
        invariant n <= length
        invariant trace == old(trace) + PixelData(Repeat(color, length - n))
      {
        n := n - 1;
        WriteColor(color);
        assert Repeat(color, length - n) == Repeat(color, length - n - 1) + [color];
        PixelDataAppend(Repeat(color, length - n - 1), [color]);
      }
    }

    // -------------------------------------------------------------------
    // Window and pixel data

    /**
     * `_JMEST7735R_setDrawWindow`: an empty rect sends nothing and answers
     * false; otherwise the column and row ranges, inclusive, as 16-bit
     * big-endian pairs whose 8-bit ends wrap modulo 256.
     */
    method SetDrawWindow(rect: Rect) returns (ok: bool)
      modifies this
      ensures ok == !IsEmpty(rect)
      ensures trace == old(trace) + (if ok then WindowTrace(rect) else [])
    {
      if !IsEmpty(rect) {
        var x0 := U8(rect.origin.x + ScreenFrame.origin.x);
        var x1 := U8(x0 + rect.size.width - 1);
        var y0 := U8(rect.origin.y + ScreenFrame.origin.y);
        var y1 := U8(y0 + rect.size.height - 1);
        WriteRange(CASET, x0, x1);
        WriteRange(RASET, y0, y1);
        Resume(old(trace), RangeTrace(CASET, x0, x1), RangeTrace(RASET, y0, y1));
        return true;
      }
      return false;
    }

    /** One half of the window: the range command, then its start and end as 16-bit big-endian values. */
    method WriteRange(command: uint8, start: uint8, end: uint8)
      modifies this
      ensures trace == old(trace) + RangeTrace(command, start, end)
    {
      WriteCommand(command);
      WriteData(0x00); WriteData(start);
      WriteData(0x00); WriteData(end);
    }

    /** `_JMEST7735R_writePixelData`: RAMWR, then the first `count` colours of the array. */
    method WritePixelData(colors: seq<Color>, count: uint16)
      requires count <= |colors|
      modifies this
      ensures trace == old(trace) + [Cmd(RAMWR)] + PixelData(colors[..count])
    {
      WriteCommand(RAMWR);
      for i := 0 to count
        invariant trace == old(trace) + [Cmd(RAMWR)] + PixelData(colors[..i])
      {
        WriteColor(colors[i]);
        assert colors[..i + 1] == colors[..i] + [colors[i]];
        PixelDataAppend(colors[..i], [colors[i]]);
      }
    }

    /** `_JJMEST7735R_drawPixel`: a 1 x 1 window, then one colour. */
    method DrawPixel(x: uint8, y: uint8, color: Color)
      modifies this
      ensures trace == old(trace) + PixelTrace(Point(x, y), color)
    {
      var ok := SetDrawWindow(Rect(Point(x, y), Size(1, 1)));
      if ok {
        WritePixelData([color], 1);
      }
      assert [color][..1] == [color];
    }

    // -------------------------------------------------------------------
    // Control

    /** `JMEST7735R_portInit`: the back light off. */
    method PortInit()
      modifies this
      ensures trace == old(trace) + PortInitEvents
    {
      SetLed(false);
    }

    /** `_JMEST7735R_HDReset`. */
    method HardwareReset()
      modifies this
      ensures trace == old(trace) + HardResetEvents
    {
      SetReset(true);
      DelayMs(100);
      SetReset(false);
      DelayMs(100);
    }

    /** `_JMEST7735R_SWReset`. */
    method SoftwareReset()
      modifies this
      ensures trace == old(trace) + SoftResetEvents
    {
      WriteCommand(SWRESET);
      DelayMs(120);
    }

    /** `_JMEST7735R_setPixelFormat`: COLMOD with the format as its one parameter. */
    method SetPixelFormat(format: uint8)
      modifies this
      ensures trace == old(trace) + CommandEvents(Command(COLMOD, [format]))
    {
      WriteCommand(COLMOD);
      WriteData(format);
    }

    /**
     * One `_JMEST7735R_write_command` followed by one `_JMEST7735R_write_data`
     * per parameter byte, as `JMEST7735R_init` writes its script.
     */
    method SendCommand(op: uint8, params: seq<uint8>)
      modifies this
      ensures trace == old(trace) + CommandEvents(Command(op, params))
    {
      WriteCommand(op);
      for i := 0 to |params|
        invariant trace == old(trace) + [Cmd(op)] + DataEvents(params[..i])
      {
        WriteData(params[i]);
        assert DataEvents(params[..i + 1]) == DataEvents(params[..i]) + [Data(params[i])];
      }
      assert params[..|params|] == params;
    }

    /** `JMEST7735R_init`, "init frame rate". */
    method InitFrameRate()
      modifies this
      ensures trace == old(trace) + Encode(FrameRateCommands)
    {
      ghost var s := trace;
      assert FrameRateCommands[0..] == FrameRateCommands;
      SendCommand(FRMCTR1, [0x02, 0x35, 0x36]);
      Sent(s, trace, FrameRateCommands, 0); s := trace;
      SendCommand(FRMCTR2, [0x02, 0x35, 0x36]);
      Sent(s, trace, FrameRateCommands, 1); s := trace;
      SendCommand(FRMCTR3, [0x02, 0x35, 0x36, 0x02, 0x35, 0x36]);
      Sent(s, trace, FrameRateCommands, 2); s := trace;
      assert FrameRateCommands[3..] == [];
    }

    /** `JMEST7735R_init`, "init display inversion control". */
    method InitInversion()
      modifies this
      ensures trace == old(trace) + Encode(InversionCommands)
    {
      ghost var s := trace;
      assert InversionCommands[0..] == InversionCommands;
      SendCommand(INVCTR, [0x03]);
      Sent(s, trace, InversionCommands, 0); s := trace;
      assert InversionCommands[1..] == [];
    }

    /** `JMEST7735R_init`, "init power sequence", ending with the VCOM setting. */
    method InitPowerSequence()
      modifies this
      ensures trace == old(trace) + Encode(PowerCommands)
    {
      ghost var s := trace;
      assert PowerCommands[0..] == PowerCommands;
      SendCommand(PWCTR1, [0xA2, 0x02, 0x84]);
      Sent(s, trace, PowerCommands, 0); s := trace;
      SendCommand(PWCTR2, [0xC5]);
      Sent(s, trace, PowerCommands, 1); s := trace;
      SendCommand(PWCTR3, [0x0D, 0x00]);
      Sent(s, trace, PowerCommands, 2); s := trace;
      SendCommand(PWCTR4, [0x8A, 0x2A]);
      Sent(s, trace, PowerCommands, 3); s := trace;
      SendCommand(PWCTR5, [0x8A, 0xEE]);
      Sent(s, trace, PowerCommands, 4); s := trace;
      SendCommand(VMCTR1, [0x03]);
      Sent(s, trace, PowerCommands, 5); s := trace;
      assert PowerCommands[6..] == [];
    }

    /** `JMEST7735R_init`, "gamma correction". */
    method InitGamma()
      modifies this
      ensures trace == old(trace) + Encode(GammaCommands)
    {
      ghost var s := trace;
      assert GammaCommands[0..] == GammaCommands;
      SendCommand(GMCTRP1, [0x12, 0x1C, 0x10, 0x18, 0x33, 0x2C, 0x25, 0x28,
                            0x28, 0x27, 0x2F, 0x3C, 0x00, 0x03, 0x03, 0x10]);
      Sent(s, trace, GammaCommands, 0); s := trace;
      SendCommand(GMCTRN1, [0x12, 0x1D, 0x10, 0x18, 0x2D, 0x28, 0x23, 0x28,
                            0x28, 0x26, 0x2F, 0x3B, 0x00, 0x03, 0x03, 0x10]);
      Sent(s, trace, GammaCommands, 1); s := trace;
      assert GammaCommands[2..] == [];
    }

    /** `JMEST7735R_init`: memory access order, 16-bit pixels, display on, then the vendor settings. */
    method InitDisplay()
      modifies this
      ensures trace == old(trace) + Encode(DisplayCommands)
    {
      ghost var s := trace;
      assert DisplayCommands[0..] == DisplayCommands;
      SendCommand(MADCTL, [0xC8]);
      Sent(s, trace, DisplayCommands, 0); s := trace;
      SetPixelFormat(IPF_16);
      Sent(s, trace, DisplayCommands, 1); s := trace;
      SendCommand(DISPON, []);
      Sent(s, trace, DisplayCommands, 2); s := trace;
      SendCommand(EXTCTRL, [0x01]);
      Sent(s, trace, DisplayCommands, 3); s := trace;
      SendCommand(VENDOR_F6, [0x00]);
      Sent(s, trace, DisplayCommands, 4); s := trace;
      assert DisplayCommands[5..] == [];
    }

    /**
     * `JMEST7735R_init`: the port set-up, the hardware reset, then the
     * power-on command script. The software reset stays commented out, as
     * in the driver.
     */
    method Init()
      modifies this
      ensures trace == old(trace) + InitTrace()
    {
      ghost var t := trace;
      PortInit();
      HardwareReset();
      Resume(t, PortInitEvents, HardResetEvents);
      ghost var sent := PortInitEvents + HardResetEvents;
      InitFrameRate();
      Resume(t, sent, Encode(FrameRateCommands));
      sent := sent + Encode(FrameRateCommands);
      InitInversion();
      Resume(t, sent, Encode(InversionCommands));
      sent := sent + Encode(InversionCommands);
      InitPowerSequence();
      Resume(t, sent, Encode(PowerCommands));
      sent := sent + Encode(PowerCommands);
      InitGamma();
      Resume(t, sent, Encode(GammaCommands));
      sent := sent + Encode(GammaCommands);
      InitDisplay();
      Resume(t, sent, Encode(DisplayCommands));
    }

    /** `JMEST7735R_enterSleep`. */
    method EnterSleep()
      modifies this
      ensures trace == old(trace) + SleepInEvents
      ensures PowerOf(trace) == SleepIn
    {
      SetLed(false);
      WriteCommand(SLPIN);
      DelayMs(20);
      SleepCommands(old(trace));
    }

    /** `JMEST7735R_exitSleep`. */
    method ExitSleep()
      modifies this
      ensures trace == old(trace) + SleepOutEvents
      ensures PowerOf(trace) == SleepOut
    {
      SetLed(true);
      WriteCommand(SLPOUT);
      DelayMs(20);
      SleepCommands(old(trace));
    }

    // -------------------------------------------------------------------
    // Drawing

    /**
     * The streaming part shared by the axis lines of `drawLine` and the
     * filled rects of `drawRect`: the window, RAMWR, then `length` copies
     * of the colour.
     */
    method FillWindow(rect: Rect, color: Color, length: nat)
      requires !IsEmpty(rect)
      modifies this
      ensures trace == old(trace) + WriteTrace(rect, Repeat(color, length))
    {
      var ok := SetDrawWindow(rect);
      WriteCommand(RAMWR);
      Resume(old(trace), WindowTrace(rect), [Cmd(RAMWR)]);
      WriteRepeated(color, length);
      Resume(old(trace), WindowTrace(rect) + [Cmd(RAMWR)], PixelData(Repeat(color, length)));
    }

    /**
     * The diagonal branch of `drawLine` when the line is wider than tall:
     * `dx` counts down and each step plots pixel `(x0 + dx, y0 + dx * scale)`.
     */
    method DrawDiagonalX(x0: uint8, y0: uint8, dx: uint8, dy: uint8, color: Color)
      requires dx > dy
      modifies this
      ensures trace == old(trace) + PointsTrace(DiagonalPoints(x0, y0, dx, dy), color)
    {
      ghost var ps := DiagonalPoints(x0, y0, dx, dy);
      var scale := dy / dx;
      assert |ps| == dx;
      var n := dx;
      while n > 0
        invariant n <= dx && |ps| == dx
        invariant 0 <= dx - n <= |ps|
        invariant trace == old(trace) + PointsTrace(ps[..dx - n], color)
      {
        n := n - 1;
        ghost var done := ps[..dx - n - 1];
        DiagonalStep(x0, y0, dx, dy, n);
        DrawPixel(U8(x0 + n), U8(y0 + n * scale), color);
        assert trace == old(trace) + PointsTrace(done, color) + PixelTrace(ps[dx - n - 1], color);
        PointsPrefix(ps, color, dx - n - 1);
        Resume(old(trace), PointsTrace(done, color), PixelTrace(ps[dx - n - 1], color));
      }
      assert ps[..dx] == ps;
    }

    /**
     * The diagonal branch of `drawLine` when the line is at least as tall as
     * wide: `dy` counts down and each step plots pixel `(x0 + dy * scale, y0 + dy)`.
     */
    method DrawDiagonalY(x0: uint8, y0: uint8, dx: uint8, dy: uint8, color: Color)
      requires 0 < dy && dx <= dy
      modifies this
      ensures trace == old(trace) + PointsTrace(DiagonalPoints(x0, y0, dx, dy), color)
    {
      ghost var ps := DiagonalPoints(x0, y0, dx, dy);
      var scale := dx / dy;
      assert |ps| == dy;
      var n := dy;
      while n > 0
        invariant n <= dy && |ps| == dy
        invariant trace == old(trace) + PointsTrace(ps[..dy - n], color)
      {
        n := n - 1;
        ghost var done := ps[..dy - n - 1];
        DiagonalStep(x0, y0, dx, dy, n);
        DrawPixel(U8(x0 + n * scale), U8(y0 + n), color);
        assert trace == old(trace) + PointsTrace(done, color) + PixelTrace(ps[dy - n - 1], color);
        PointsPrefix(ps, color, dy - n - 1);
        Resume(old(trace), PointsTrace(done, color), PixelTrace(ps[dy - n - 1], color));
      }
      assert ps[..dy] == ps;
    }

    /**
     * `JMEST7735R_drawLine`: a vertical or horizontal line streams its
     * length from the min corner; any other line plots single pixels.
     */
    method DrawLine(start: Point, end: Point, color: Color)
      modifies this
      ensures trace == old(trace) + LineTrace(start, end, color)
    {
      var x0: uint8, y0: uint8 := Min(start.x, end.x), Min(start.y, end.y);
      var x1: uint8, y1: uint8 := Max(start.x, end.x), Max(start.y, end.y);
      var length: uint8 := 0;
      if x0 == x1 {
        length := y1 - y0;
        var line := Rect(Point(x0, y0), Size(1, length));
        if length > 0 {
          FillWindow(line, color, length);
        }
      } else if y0 == y1 {
        length := x1 - x0;
        var line := Rect(Point(x0, y0), Size(length, 1));
        if length > 0 {
          FillWindow(line, color, length);
        }
      } else {
        var dx: uint8 := x1 - x0;
        var dy: uint8 := y1 - y0;
        if dx > dy {
          DrawDiagonalX(x0, y0, dx, dy, color);
        } else {
          DrawDiagonalY(x0, y0, dx, dy, color);
        }
      }
    }

    /**
     * The outline branch of `drawRect`: four lines whose end points are
     * updated in place between the calls, with 8-bit wrap-around.
     */
    method DrawOutline(frame: Rect, color: Color)
      modifies this
      ensures trace == old(trace) + OutlineTrace(frame, color)
    {
      var x: int, y: int, w: int, h: int := frame.origin.x, frame.origin.y, frame.size.width, frame.size.height;
      ghost var top := LineTrace(Point(x, y), Point(U8(x + w), y), color);
      ghost var right := LineTrace(Point(U8(x + w - 1), y), Point(U8(x + w - 1), U8(y + h)), color);
      ghost var bottom := LineTrace(Point(x, U8(y + h - 1)), Point(U8(x + w), U8(y + h - 1)), color);
      ghost var left := LineTrace(Point(x, y), Point(x, U8(y + h)), color);
      OutlineCorners(x, y, w, h);
      var start := frame.origin;
      var end := Point(U8(x + w), y);
      DrawLine(start, end, color);
      end := end.(x := U8(end.x - 1));
      start := Point(end.x, U8(y + h));
      assert end == Point(U8(x + w - 1), y) && start == Point(U8(x + w - 1), U8(y + h));
      DrawLine(end, start, color);
      Resume(old(trace), top, right);
      start := Point(U8(start.x + 1), U8(start.y - 1));
      end := Point(x, start.y);
      assert end == Point(x, U8(y + h - 1)) && start == Point(U8(x + w), U8(y + h - 1));
      DrawLine(end, start, color);
      Resume(old(trace), top + right, bottom);
      start := frame.origin;
      end := end.(y := U8(end.y + 1));
      assert start == Point(x, y) && end == Point(x, U8(y + h));
      DrawLine(start, end, color);
      Resume(old(trace), top + right + bottom, left);
    }

    /**
     * `JMEST7735R_drawRect`: nothing for an empty frame; otherwise the
     * frame's window, then either `width * height` copies of the colour or
     * the outline.
     */
    method DrawRect(frame: Rect, color: Color, fill: bool)
      modifies this
      ensures trace == old(trace) + RectTrace(frame, color, fill)
    {
      var ok := SetDrawWindow(frame);
      if ok {
        if fill {
          ByteProduct(frame.size.width, frame.size.height);
          var pixelCount: uint16 := U16(frame.size.width * frame.size.height);
          WriteCommand(RAMWR);
          Resume(old(trace), WindowTrace(frame), [Cmd(RAMWR)]);
          WriteRepeated(color, pixelCount);
          Resume(old(trace), WindowTrace(frame) + [Cmd(RAMWR)], PixelData(Repeat(color, pixelCount)));
        } else {
          DrawOutline(frame, color);
          Resume(old(trace), WindowTrace(frame), OutlineTrace(frame, color));
        }
      }
    }

    /** `JMEST7735R_fillScreen`: a filled rect over the whole panel. */
    method FillScreen(color: Color)
      modifies this
      ensures trace == old(trace) + RectTrace(RectMake(0, 0, ScreenFrame.size.width, ScreenFrame.size.height), color, true)
    {
      DrawRect(RectMake(0, 0, ScreenFrame.size.width, ScreenFrame.size.height), color, true);
    }

    /**
     * `JMEST7735R_drawBitmap`: without an image nothing is sent; otherwise
     * the frame's window and the first `width * height` colours of the image.
     * The highlight flag is accepted and ignored, as in the driver.
     */
    method DrawBitmap(image: Option<seq<Color>>, frame: Rect, isHighLight: bool)
      requires image.Some? && !IsEmpty(frame) ==> frame.size.width * frame.size.height <= |image.value|
      modifies this
      ensures trace == old(trace) + BitmapTrace(image, frame)
    {
      if image.Some? {
        var ok := SetDrawWindow(frame);
        if ok {
          ByteProduct(frame.size.width, frame.size.height);
          WritePixelData(image.value, U16(frame.size.width * frame.size.height));
          Resume(old(trace), WindowTrace(frame), [Cmd(RAMWR)]);
          Resume(old(trace), WindowTrace(frame) + [Cmd(RAMWR)], PixelData(image.value[..frame.size.width * frame.size.height]));
        }
      }
    }

    /**
     * One unrolled bit test of `drawBinaryImage`: bit `n` set sends the
     * foreground colour, which is pixel `7 - n` of the byte.
     */
    method WriteMaskBit(b: uint8, n: nat, fgColor: Color, bgColor: Color)
      requires n <= 7
      modifies this
      ensures trace == old(trace) + PixelData([MaskColors(b, fgColor, bgColor)[7 - n]])
    {
      MaskHitIsBitSet(b, n);
      if MaskHit(b, n) {
        WriteColor(fgColor);
      } else {
        WriteColor(bgColor);
      }
    }

    /** The eight bit tests of one mask byte, bit 7 first. */
    method WriteMaskByte(b: uint8, fgColor: Color, bgColor: Color)
      modifies this
      ensures trace == old(trace) + PixelData(MaskColors(b, fgColor, bgColor))
    {
      ghost var cs := MaskColors(b, fgColor, bgColor);
      assert cs[..0] == [];
      WriteMaskBit(b, 7, fgColor, bgColor);
      ExtendOne(old(trace), cs, 0);
      WriteMaskBit(b, 6, fgColor, bgColor);
      ExtendOne(old(trace), cs, 1);
      WriteMaskBit(b, 5, fgColor, bgColor);
      ExtendOne(old(trace), cs, 2);
      WriteMaskBit(b, 4, fgColor, bgColor);
      ExtendOne(old(trace), cs, 3);
      WriteMaskBit(b, 3, fgColor, bgColor);
      ExtendOne(old(trace), cs, 4);
      WriteMaskBit(b, 2, fgColor, bgColor);
      ExtendOne(old(trace), cs, 5);
      WriteMaskBit(b, 1, fgColor, bgColor);
      ExtendOne(old(trace), cs, 6);
      WriteMaskBit(b, 0, fgColor, bgColor);
      ExtendOne(old(trace), cs, 7);
      assert cs[..8] == cs;
    }

    /**
     * `JMEST7735R_drawBinaryImage`: the frame's window, RAMWR, then
     * `(width * height) >> 3` mask bytes of eight pixels each.
     */
    method DrawBinaryImage(image: seq<uint8>, frame: Rect, fgColor: Color, bgColor: Color)
      requires !IsEmpty(frame) ==> frame.size.width * frame.size.height / 8 <= |image|
      modifies this
      ensures trace == old(trace) + BinaryImageTrace(image, frame, fgColor, bgColor)
    {
      var ok := SetDrawWindow(frame);
      if ok {
        ByteProduct(frame.size.width, frame.size.height);
        var pixelCount: uint16 := U16(frame.size.width * frame.size.height / 8);
        WriteCommand(RAMWR);
        Resume(old(trace), WindowTrace(frame), [Cmd(RAMWR)]);
        ghost var t := trace;
        for n := 0 to pixelCount
          invariant trace == t + PixelData(MaskPixels(image[..n], fgColor, bgColor))
        {
          var imageData := image[n];
          WriteMaskByte(imageData, fgColor, bgColor);
          assert image[..n + 1][..n] == image[..n];
          Extend(t, MaskPixels(image[..n], fgColor, bgColor), MaskColors(imageData, fgColor, bgColor));
        }
        Resume(old(trace), WindowTrace(frame) + [Cmd(RAMWR)], PixelData(MaskPixels(image[..pixelCount], fgColor, bgColor)));
      }
    }

    /**
     * `JMEST7735R_drawBinaryIcon`: with an icon and image data, the image
     * frame centred in the icon frame, the four background bands around it
     * as filled rects, then the image as a mask.
     */
    method DrawBinaryIcon(icon: Option<MenuIcon<uint8>>)
      requires BinaryIconDrawable(icon)
      modifies this
      ensures trace == old(trace) + BinaryIconTrace(icon)
    {
      if icon.Some? && icon.value.iconData.Some? {
        var ic := icon.value;
        var imageFrame, bands := IconLayout(ic);
        ghost var fills := RectTrace(bands.top, ic.bgColor, true) + RectTrace(bands.left, ic.bgColor, true)
          + RectTrace(bands.right, ic.bgColor, true) + RectTrace(bands.bottom, ic.bgColor, true);
        FillBands(bands, ic.bgColor);
        DrawBinaryImage(ic.iconData.value, imageFrame, ic.color, ic.bgColor);
        Resume(old(trace), fills, BinaryImageTrace(ic.iconData.value, imageFrame, ic.color, ic.bgColor));
      }
    }

    /**
     * The rect arithmetic of `drawBinaryIcon`, in 8-bit fields: the image
     * frame centred in the icon frame, and the four insets around it.
     */
    static method IconLayout<T>(ic: MenuIcon<T>) returns (imageFrame: Rect, bands: Bands)
      requires IconFits(ic)
      ensures imageFrame == IconImageFrame(ic) && bands == IconBands(ic)
    {
      var f := ic.iconFrame;
      imageFrame := RectMake(0, 0, ic.iconSize.width, ic.iconSize.height);
      imageFrame := imageFrame.(origin := imageFrame.origin.(x := U8(f.origin.x + (f.size.width - ic.iconSize.width) / 2)));
      imageFrame := imageFrame.(origin := imageFrame.origin.(y := U8(f.origin.y + (f.size.height - ic.iconSize.height) / 2)));
      var topInset, bottomInset := VerticalInsets(ic, imageFrame);
      var leftInset, rightInset := HorizontalInsets(ic, imageFrame);
      bands := Bands(topInset, leftInset, rightInset, bottomInset);
    }

    /** The bands above and below the image frame, the full width of the icon frame. */
    static method VerticalInsets<T>(ic: MenuIcon<T>, imageFrame: Rect) returns (topInset: Rect, bottomInset: Rect)
      requires IconFits(ic) && imageFrame == IconImageFrame(ic)
      ensures topInset == IconBands(ic).top && bottomInset == IconBands(ic).bottom
    {
      var f := ic.iconFrame;
      topInset := RectMake(f.origin.x, f.origin.y, f.size.width, U8(imageFrame.origin.y - f.origin.y));
      bottomInset := RectMake(f.origin.x, U8(imageFrame.origin.y + imageFrame.size.height), f.size.width, 0);
      bottomInset := bottomInset.(size := bottomInset.size.(height := U8(f.origin.y + f.size.height - bottomInset.origin.y)));
    }

    /** The bands left and right of the image frame, as tall as the image. */
    static method HorizontalInsets<T>(ic: MenuIcon<T>, imageFrame: Rect) returns (leftInset: Rect, rightInset: Rect)
      requires IconFits(ic) && imageFrame == IconImageFrame(ic)
      ensures leftInset == IconBands(ic).left && rightInset == IconBands(ic).right
    {
      var f := ic.iconFrame;
      leftInset := RectMake(f.origin.x, imageFrame.origin.y, U8(imageFrame.origin.x - f.origin.x), imageFrame.size.height);
      rightInset := RectMake(U8(imageFrame.origin.x + imageFrame.size.width), imageFrame.origin.y, 0, imageFrame.size.height);
      rightInset := rightInset.(size := rightInset.size.(width := U8(f.origin.x + f.size.width - rightInset.origin.x)));
    }

    /** The four `drawRect` fills of `drawBinaryIcon`: top, left, right, bottom. */
    method FillBands(b: Bands, color: Color)
      modifies this
      ensures trace == old(trace) + (RectTrace(b.top, color, true) + RectTrace(b.left, color, true)
                                     + RectTrace(b.right, color, true) + RectTrace(b.bottom, color, true))
    {
      ghost var top, left := RectTrace(b.top, color, true), RectTrace(b.left, color, true);
      ghost var right, bottom := RectTrace(b.right, color, true), RectTrace(b.bottom, color, true);
      DrawRect(b.top, color, true);
      DrawRect(b.left, color, true);
      Resume(old(trace), top, left);
      DrawRect(b.right, color, true);
      Resume(old(trace), top + left, right);
      DrawRect(b.bottom, color, true);
      Resume(old(trace), top + left + right, bottom);
    }

    /**
     * The colour `drawMenuIcon` picks for column `c` of image row `r`:
     * the image's pixel inside columns `ox .. ox + iw`, `icon.color` outside.
     */
    static method IconRowPixel(icon: MenuIcon<Color>, ox: uint8, oy: uint8, r: uint8, offset: uint16, c: nat)
      returns (color: Color)
      requires IconRow(icon, ox, oy, r) && c < icon.iconFrame.size.width
      requires offset == r * icon.iconSize.width
      ensures oy + r < icon.iconFrame.size.height && color == MenuIconPixel(icon, oy + r, c)
    {
      if c >= ox && c < ox + icon.iconSize.width {
        RowMajorBound(r, c - ox, icon.iconSize.height, icon.iconSize.width);
        color := icon.iconData.value[offset + c - ox];
        MenuIconImage(icon, r, c - ox);
      } else {
        color := icon.color;
        MenuIconBorder(icon, oy + r, c);
      }
    }

    /** One image row of `drawMenuIcon`: frame row `oy + r`, image pixels between `icon.color` margins. */
    method WriteIconRow(icon: MenuIcon<Color>, ox: uint8, oy: uint8, r: uint8)
      requires IconRow(icon, ox, oy, r)
      modifies this
      ensures oy + r < icon.iconFrame.size.height
      ensures trace == old(trace) + PixelData(MenuIconRow(icon, oy + r))
    {
      var fw := icon.iconFrame.size.width;
      ByteProduct(r, icon.iconSize.width);
      var offset: uint16 := U16(r * icon.iconSize.width);
      for c := 0 to fw
        invariant trace == old(trace) + PixelData(MenuIconCols(icon, oy + r, c))
      {
        var color := IconRowPixel(icon, ox, oy, r, offset, c);
        WriteColor(color);
        Extend(old(trace), MenuIconCols(icon, oy + r, c), [color]);
      }
    }

    /**
     * `JMEST7735R_drawMenuIcon`: the frame's window, then every frame pixel
     * in raster order: `oy` rows of `icon.color`, the image rows with
     * `icon.color` either side, and the remaining rows of `icon.color`.
     * The highlight flag is accepted and ignored, as in the driver.
     */
    method DrawMenuIcon(icon: Option<MenuIcon<Color>>, isHighLight: bool)
      requires MenuIconDrawable(icon)
      modifies this
      ensures trace == old(trace) + MenuIconTrace(icon)
    {
      if icon.Some? {
        var ic := icon.value;
        var ok := SetDrawWindow(ic.iconFrame);
        if ok {
          WriteCommand(RAMWR);
          Resume(old(trace), WindowTrace(ic.iconFrame), [Cmd(RAMWR)]);
          StreamMenuIcon(ic);
          Resume(old(trace), WindowTrace(ic.iconFrame) + [Cmd(RAMWR)], PixelData(MenuIconPixels(ic)));
        }
      }
    }

    /** The pixel stream of `drawMenuIcon`, after RAMWR: top band, image rows, bottom band. */
    method StreamMenuIcon(ic: MenuIcon<Color>)
      requires MenuIconShown(ic)
      modifies this
      ensures trace == old(trace) + PixelData(MenuIconPixels(ic))
    {
      var fh, ih: nat := ic.iconFrame.size.height, ic.iconSize.height;
      var oy: nat := (fh - ih) / 2;
      ImageInside(ic);
      WriteUpperRows(ic);
      ghost var upper := trace;
      var rest: nat := fh - ih - oy;
      WriteBlankRows(ic, oy + ih, rest);
      MenuIconStreamed(ic, oy, rest, old(trace), upper, trace);
    }

    /** The border band above the image, then the image rows, of `drawMenuIcon`. */
    method WriteUpperRows(ic: MenuIcon<Color>)
      requires MenuIconShown(ic)
      modifies this
      ensures trace == old(trace) + PixelData(MenuIconRowsFrom(ic, 0, (ic.iconFrame.size.height - ic.iconSize.height) / 2))
                + PixelData(MenuIconRowsFrom(ic, (ic.iconFrame.size.height - ic.iconSize.height) / 2, ic.iconSize.height))
    {
      var ox: nat := (ic.iconFrame.size.width - ic.iconSize.width) / 2;
      var oy: nat := (ic.iconFrame.size.height - ic.iconSize.height) / 2;
      ImageInside(ic);
      WriteBlankRows(ic, 0, oy);
      WriteIconRows(ic, ox, oy);
    }

    /**
     * One of the two border bands of `drawMenuIcon`, above or below the
     * image: `k` whole frame rows of the icon's colour, counted in 16 bits.
     */
    method WriteBlankRows(ic: MenuIcon<Color>, a: nat, k: nat)
      requires MenuIconShown(ic) && a + k <= ic.iconFrame.size.height
      requires var oy := (ic.iconFrame.size.height - ic.iconSize.height) / 2;
               a + k <= oy || oy + ic.iconSize.height <= a
      modifies this
      ensures trace == old(trace) + PixelData(MenuIconRowsFrom(ic, a, k))
    {
      var color := ic.color;
      ByteProduct(k, ic.iconFrame.size.width);
      var count: uint16 := U16(k * ic.iconFrame.size.width);
      WriteRepeated(color, count);
      MenuIconBlankRows(ic, a, k);
    }

    /** The image rows of `drawMenuIcon`: frame rows `oy .. oy + ih`. */
    method WriteIconRows(ic: MenuIcon<Color>, ox: uint8, oy: uint8)
      requires MenuIconShown(ic)
      requires ox == (ic.iconFrame.size.width - ic.iconSize.width) / 2
      requires oy == (ic.iconFrame.size.height - ic.iconSize.height) / 2
      modifies this
      ensures oy + ic.iconSize.height <= ic.iconFrame.size.height
      ensures trace == old(trace) + PixelData(MenuIconRowsFrom(ic, oy, ic.iconSize.height))
    {
      ImageInside(ic);
      for r := 0 to ic.iconSize.height
        invariant trace == old(trace) + PixelData(MenuIconRowsFrom(ic, oy, r))
      {
        ghost var done := MenuIconRowsFrom(ic, oy, r);
        WriteIconRow(ic, ox, oy, r);
        Extend(old(trace), done, MenuIconRow(ic, oy + r));
        MenuIconRowsNext(ic, oy, r);
      }
    }

    // -------------------------------------------------------------------
    // Numbers

    /**
     * `JMEST7735R_drawNumber`: the last three decimal digits of `number`,
     * hundreds first and leading zeros kept, each in its own `5fs x 8fs`
     * window, the window's x advancing by its (8-bit) width after each digit.
     */
    method DrawNumber(start: Point, number: uint16, textColor: Color, bgColor: Color, fontSize: uint8)
      modifies this
      ensures trace == old(trace) + NumberTrace(start, number, textColor, bgColor, fontSize)
    {
      if fontSize > 0 {
        var numberFrame := Rect(start, Size(U8(NumberSize.width * fontSize), U8(NumberSize.height * fontSize)));
        var n: uint16 := number;
        if n > 999 {
          n := n % 1000;
        }
        DrawDigits(start, number, n, numberFrame, textColor, bgColor, fontSize);
      }
    }

    /**
     * The digit loop of `drawNumber`: `modeNumber` runs 100, 10, 1; each
     * pass draws `n / modeNumber`, takes it off `n` and moves the window
     * right by its width.
     */
    method DrawDigits(start: Point, number: uint16, n: uint16, frame: Rect, textColor: Color, bgColor: Color, fontSize: uint8)
      requires fontSize >= 1 && n == number % 1000 && frame == DigitFrame(start, fontSize, 0)
      modifies this
      ensures trace == old(trace) + DigitsTrace(start, Digits(number), 3, fontSize, textColor, bgColor)
    {
      var numberFrame := frame;
      var rest := n;
      var modeNumber: uint8 := 100;
      ghost var ds := Digits(number);
      for i := 0 to 3
        invariant numberFrame == DigitFrame(start, fontSize, i)
        invariant modeNumber == Place(i)
        invariant i < 3 ==> rest == number % (10 * Place(i))
        invariant trace == old(trace) + DigitsTrace(start, ds, i, fontSize, textColor, bgColor)
      {
        var displayNumber;
        displayNumber, rest, modeNumber := NextDigit(number, i, rest, modeNumber);
        WriteDigit(numberFrame, displayNumber, fontSize, textColor, bgColor);
        Resume(old(trace), DigitsTrace(start, ds, i, fontSize, textColor, bgColor),
          DigitTrace(numberFrame, displayNumber, fontSize, textColor, bgColor));
        DigitFrameNext(start, fontSize, i);
        numberFrame := numberFrame.(origin := numberFrame.origin.(x := U8(numberFrame.origin.x + numberFrame.size.width)));
      }
    }

    /**
     * The arithmetic of one pass of `drawNumber`'s loop: the digit at the
     * current place, what is left below it, and the next place.
     */
    static method NextDigit(ghost number: nat, ghost i: nat, rest: uint16, modeNumber: uint8)
      returns (displayNumber: uint8, rest': uint16, modeNumber': uint8)
      requires i < 3 && modeNumber == Place(i) && rest == number % (10 * Place(i))
      ensures displayNumber == Digits(number)[i]
      ensures modeNumber' == Place(i + 1)
      ensures i < 2 ==> rest' == number % (10 * Place(i + 1))
    {
      DigitPlace(number, i, rest, modeNumber);
      displayNumber := rest / modeNumber;
      rest' := rest - displayNumber * modeNumber;
      modeNumber' := modeNumber / 10;
    }

    /** One digit of `drawNumber`: its window, RAMWR and the scaled glyph, or nothing for an empty window. */
    method WriteDigit(frame: Rect, digit: uint8, fontSize: uint8, textColor: Color, bgColor: Color)
      requires digit <= 9 && fontSize >= 1
      modifies this
      ensures trace == old(trace) + DigitTrace(frame, digit, fontSize, textColor, bgColor)
    {
      var ok := SetDrawWindow(frame);
      if ok {
        WriteCommand(RAMWR);
        Resume(old(trace), WindowTrace(frame), [Cmd(RAMWR)]);
        WriteNumberGlyph(digit, fontSize, textColor, bgColor);
        Resume(old(trace), WindowTrace(frame) + [Cmd(RAMWR)], PixelData(NumberGlyph(digit, fontSize, textColor, bgColor)));
      }
    }

    /** The pixel stream of one digit: font rows 0..7, each drawn `fs` times. */
    method WriteNumberGlyph(digit: uint8, fontSize: uint8, textColor: Color, bgColor: Color)
      requires digit <= 9 && fontSize >= 1
      modifies this
      ensures trace == old(trace) + PixelData(NumberGlyph(digit, fontSize, textColor, bgColor))
    {
      ghost var bits := NumberBits(digit);
      for row := 0 to NumberSize.height
        invariant trace == old(trace) + PixelData(ScaledRows(bits, row, fontSize, textColor, bgColor))
      {
        WriteNumberRow(digit, fontSize, row, textColor, bgColor);
        Extend(old(trace), ScaledRows(bits, row, fontSize, textColor, bgColor),
          Copies(ScaledLine(bits[row], fontSize, textColor, bgColor), fontSize));
      }
      ScaledRowsPixels(bits, 8, 5, fontSize, textColor, bgColor);
    }

    /** Font row `r` of a digit: `fs` copies of its scaled pixel row. */
    method WriteNumberRow(digit: uint8, fontSize: uint8, r: nat, textColor: Color, bgColor: Color)
      requires digit <= 9 && r < 8
      modifies this
      ensures trace == old(trace) + PixelData(Copies(ScaledLine(NumberBits(digit)[r], fontSize, textColor, bgColor), fontSize))
    {
      ghost var line := ScaledLine(NumberBits(digit)[r], fontSize, textColor, bgColor);
      for i := 0 to fontSize
        invariant trace == old(trace) + PixelData(Copies(line, i))
      {
        WriteNumberLine(digit, fontSize, r, textColor, bgColor);
        Extend(old(trace), Copies(line, i), line);
      }
    }

    /**
     * One scaled pixel row of font row `r` of a digit: five runs of `fs`
     * pixels, run `col` in the text colour when column byte `col` of the
     * digit has bit `r` set.
     */
    method WriteNumberLine(digit: uint8, fontSize: uint8, r: nat, textColor: Color, bgColor: Color)
      requires digit <= 9 && r < 8
      modifies this
      ensures trace == old(trace) + PixelData(ScaledLine(NumberBits(digit)[r], fontSize, textColor, bgColor))
    {
      ghost var inks := NumberBits(digit)[r];
      assert inks[..0] == [];
      for col := 0 to NumberSize.width
        invariant trace == old(trace) + PixelData(ScaledLine(inks[..col], fontSize, textColor, bgColor))
      {
        var color := NumberInk(digit, r, col, textColor, bgColor);
        WriteRepeated(color, fontSize);
        ScaledLineStep(inks, fontSize, textColor, bgColor, col);
        Extend(old(trace), ScaledLine(inks[..col], fontSize, textColor, bgColor), Repeat(color, fontSize));
      }
      assert inks[..5] == inks;
    }

    /** The colour `drawNumber` gives column `col` of font row `r`: the text colour when the font bit is set. */
    static method NumberInk(digit: uint8, r: nat, col: nat, textColor: Color, bgColor: Color) returns (color: Color)
      requires digit <= 9 && r < 8 && col < 5
      ensures color == Ink(NumberBits(digit)[r][col], textColor, bgColor)
    {
      color := bgColor;
      var b := NumberFont[digit * NumberSize.width + col];
      assert NumberBits(digit)[r][col] == BitSet(b, r);
      MaskHitIsBitSet(b, r);
      if MaskHit(b, r) {
        color := textColor;
      }
    }

    // -------------------------------------------------------------------
    // Strings

    /**
     * `JMEST7735R_drawString`, with the 8 x 12 ASCII table passed in: each
     * character of `text` in its own `8fs x 12fs` window, the window's x
     * advancing by its (8-bit) width after each character.
     */
    method DrawString(start: Point, text: string, textColor: Color, bgColor: Color, fontSize: uint8, table: seq<uint8>)
      requires fontSize >= 1 ==> !IsEmpty(CharFrame(start, fontSize, 0)) ==> Printable(text, table)
      modifies this
      ensures trace == old(trace) + StringTrace(start, text, textColor, bgColor, fontSize, table)
    {
      if fontSize > 0 {
        var charFrame := Rect(start, Size(U8(AsciiSize.width * fontSize), U8(AsciiSize.height * fontSize)));
        DrawChars(start, text, charFrame, textColor, bgColor, fontSize, table);
      }
    }

    /**
     * The character loop of `drawString`, with an unbounded index: each
     * pass draws `text[i]` and moves the window right by its width.
     */
    method DrawChars(start: Point, text: string, frame: Rect, textColor: Color, bgColor: Color, fontSize: uint8, table: seq<uint8>)
      requires fontSize >= 1 && frame == CharFrame(start, fontSize, 0)
      requires !IsEmpty(frame) ==> Printable(text, table)
      modifies this
      ensures trace == old(trace) + CharsTrace(start, text, textColor, bgColor, fontSize, table)
    {
      var charFrame := frame;
      var i: nat := 0;
      while i < |text|
        invariant i <= |text| && charFrame == CharFrame(start, fontSize, i)
        invariant trace == old(trace) + CharsTrace(start, text[..i], textColor, bgColor, fontSize, table)
      {
        WriteChar(charFrame, text[i], textColor, bgColor, fontSize, table);
        CharsStep(start, text, i, textColor, bgColor, fontSize, table);
        Resume(old(trace), CharsTrace(start, text[..i], textColor, bgColor, fontSize, table),
          CharTrace(charFrame, table, text[i], textColor, bgColor, fontSize));
        CharFrameNext(start, fontSize, i);
        charFrame := charFrame.(origin := charFrame.origin.(x := U8(charFrame.origin.x + charFrame.size.width)));
        i := i + 1;
      }
      assert text[..|text|] == text;
    }

    /** One character of `drawString`: its window, RAMWR and the scaled glyph, or nothing for an empty window. */
    method WriteChar(frame: Rect, ch: char, textColor: Color, bgColor: Color, fontSize: uint8, table: seq<uint8>)
      requires fontSize >= 1 && (!IsEmpty(frame) ==> PrintableChar(ch, table))
      modifies this
      ensures trace == old(trace) + CharTrace(frame, table, ch, textColor, bgColor, fontSize)
    {
      var character: int := ch as int - 32;
      var ok := SetDrawWindow(frame);
      if ok {
        WriteCommand(RAMWR);
        Resume(old(trace), WindowTrace(frame), [Cmd(RAMWR)]);
        WriteCharGlyph(table, character, fontSize, textColor, bgColor);
        Resume(old(trace), WindowTrace(frame) + [Cmd(RAMWR)], PixelData(CharGlyph(table, character, fontSize, textColor, bgColor)));
      }
    }

    /** The pixel stream of one character: font rows 0..11, each drawn `fs` times. */
    method WriteCharGlyph(table: seq<uint8>, code: nat, fontSize: uint8, textColor: Color, bgColor: Color)
      requires fontSize >= 1 && code * 12 + 12 <= |table|
      modifies this
      ensures trace == old(trace) + PixelData(CharGlyph(table, code, fontSize, textColor, bgColor))
    {
      ghost var bits := CharBits(table, code);
      for row := 0 to AsciiSize.height
        invariant trace == old(trace) + PixelData(ScaledRows(bits, row, fontSize, textColor, bgColor))
      {
        WriteCharRow(table, code, fontSize, row, textColor, bgColor);
        Extend(old(trace), ScaledRows(bits, row, fontSize, textColor, bgColor),
          Copies(ScaledLine(bits[row], fontSize, textColor, bgColor), fontSize));
      }
      ScaledRowsPixels(bits, 12, 8, fontSize, textColor, bgColor);
    }

    /** Font row `r` of a character: `fs` copies of its scaled pixel row. */
    method WriteCharRow(table: seq<uint8>, code: nat, fontSize: uint8, r: nat, textColor: Color, bgColor: Color)
      requires code * 12 + 12 <= |table| && r < 12
      modifies this
      ensures trace == old(trace) + PixelData(Copies(ScaledLine(CharBits(table, code)[r], fontSize, textColor, bgColor), fontSize))
    {
      ghost var line := ScaledLine(CharBits(table, code)[r], fontSize, textColor, bgColor);
      for i := 0 to fontSize
        invariant trace == old(trace) + PixelData(Copies(line, i))
      {
        WriteCharLine(table, code, fontSize, r, textColor, bgColor);
        Extend(old(trace), Copies(line, i), line);
      }
    }

    /**
     * One scaled pixel row of font row `r` of a character: eight runs of
     * `fs` pixels, run `col` in the text colour when bit `7 - col` of the
     * row byte is set.
     */
    method WriteCharLine(table: seq<uint8>, code: nat, fontSize: uint8, r: nat, textColor: Color, bgColor: Color)
      requires code * 12 + 12 <= |table| && r < 12
      modifies this
      ensures trace == old(trace) + PixelData(ScaledLine(CharBits(table, code)[r], fontSize, textColor, bgColor))
    {
      ghost var inks := CharBits(table, code)[r];
      assert inks[..0] == [];
      for col := 0 to AsciiSize.width
        invariant trace == old(trace) + PixelData(ScaledLine(inks[..col], fontSize, textColor, bgColor))
      {
        var color := CharInk(table, code, r, col, textColor, bgColor);
        WriteRepeated(color, fontSize);
        ScaledLineStep(inks, fontSize, textColor, bgColor, col);
        Extend(old(trace), ScaledLine(inks[..col], fontSize, textColor, bgColor), Repeat(color, fontSize));
      }
      assert inks[..8] == inks;
    }

    /** The colour `drawString` gives column `col` of font row `r`: the text colour when bit `7 - col` is set. */
    static method CharInk(table: seq<uint8>, code: nat, r: nat, col: nat, textColor: Color, bgColor: Color) returns (color: Color)
      requires code * 12 + 12 <= |table| && r < 12 && col < 8
      ensures color == Ink(CharBits(table, code)[r][col], textColor, bgColor)
    {
      color := bgColor;
      var b := table[code * AsciiSize.height + r];
      var bit: nat := 7 - col;
      assert CharBits(table, code)[r][col] == BitSet(b, bit);
      MaskHitIsBitSet(b, bit);
      if MaskHit(b, bit) {
        color := textColor;
      }
    }

    /** `JMEST7735R_refreshScreen`. */
    method RefreshScreen()
      modifies this
      ensures trace == old(trace) + RefreshEvents
    {
      WriteCommand(NOP);
    }
  }
}
