# ST7735R driver — a verified byte-trace model

This project models the drawing core of the ST7735R TFT driver
(`src/OBST7735R_DriveLib.c`) and the geometry and math helpers it is built
on (`src/JMEGeometry.h`, `src/JMEGeometry.c`, `src/JMEMath.h`).

The driver's only effect is the byte stream it sends to the controller. The
model is therefore a byte-trace machine. `ST7735R.Panel` is a class with one
field, `trace: seq<Event>`. Each driver function is a method that appends to
it, and each method is proved to append exactly what a specification
function in `ST7735RTrace` or `ST7735RScript` gives:

- `_JMEST7735R_write_command` appends a `Cmd` event.
- `_JMEST7735R_write_data` and `JMEST7735R_seqWrite` append a `Data` event.
- The delay, back-light and reset-line macros append `Delay`, `Led` and `Reset` events.
- The chip-select, read/write strobes and NOPs are folded into these events.

The methods keep the driver's loops: the `while (count--)` runs, the nested
row / scale / column / scale loops of the two fonts, the digit loop whose
`number` and `modeNumber` shrink as it goes, and the character loop whose
window moves right. Each loop carries the invariant that ties the trace so
far to a prefix of the specification.

The specification functions are then given a meaning of their own:

- **Decoders.** `DecodePixels`, `WindowOf` and `DecodeWrite` read a trace back
  the way the controller does. A CASET/RASET pair gives a window, and RAMWR
  followed by byte pairs gives a colour stream.
- **Round-trip lemmas.** These show that a memory write decodes to exactly its
  window and colours, and that every decodable stream was produced by
  `PixelData`.
- **Drawing lemmas.** These state which window each drawing request addresses
  and which colour each streamed pixel gets, stated pixel by pixel for masks,
  icons and scaled glyphs.

The geometry helpers are pure functions on 8-bit rects. C integer promotion
is followed: `origin + size` is computed in `int`, so `JMEMin` of
`origin` and `origin + size` is always `origin`. A value is truncated modulo
256 only where it is stored back into an 8-bit field (`JMEBase.U8`).
`JMERectIntersection`'s uninitialised result, when neither branch applies,
is `None`.

The power-on script of `JMEST7735R_init` is a list of commands with their
parameter bytes. `ST7735RScript.Decode` reads them back from the trace. The
script is also checked against a small model of the controller's sleep state:
reset and SLPIN put it to sleep, SLPOUT wakes it.

The 8 x 12 ASCII table of `drawString` lives in a header that is not part of
this model, so it is a parameter (`table: seq<uint8>`). The 5 x 8 digit font
`JMEASCII_NUMBER` is a constant (`ST7735RTrace.NumberFont`).

Observations about the code as written, each reflected in the model:

- **Diagonal lines.** In `drawLine`, `float scale = dy/dx` divides two
  `uint8_t` values as integers before the conversion to float, so `scale` is
  0 or 1. `DiagonalShape` proves the result: a slanted line is drawn as
  `max(dx, dy)` pixels along row `y0` when `dx > dy`, along column `x0`
  when `dx < dy`, and on the diagonal only when `dx == dy`. The far end is
  never reached.
- **Rectangle outlines.** The outline of `drawRect` first sets the frame's
  window (and then never writes to it). It then draws four lines, and each
  corner is drawn twice: the right side starts on the top side's last pixel.
- **Power-on state.** `JMEST7735R_init` never sends SLPOUT, so after it the
  controller is still in sleep mode (`InitLeavesSleepIn`). Only
  `JMEST7735R_exitSleep` wakes it.

## Model

| member | source | states |
|---|---|---|
| JMEMath.Min | src/JMEMath.h:18 | the result is at most both arguments and equals one of them |
| JMEMath.Max | src/JMEMath.h:19 | the result is at least both arguments and equals one of them |
| JMEMath.Bit | src/JMEMath.h:20 | `1 << n` is positive and even for `n >= 1` |
| JMEMath.BitIsByteMask | src/JMEMath.h:20 | for `n <= 7`, `JMEBit(n)` fits a byte and is the single-bit mask `1 << n` |
| JMEMath.BitValues | src/JMEMath.h:20 | `JMEBit(0..7)` are 1, 2, 4, ..., 128 |
| JMEMath.MaskHitIsBitSet | src/OBST7735R_DriveLib.c:354-409 | the driver's test `b & JMEBit(n)` on a byte holds exactly when bit `n` of `b` is set |
| JMEMath.Abs | src/JMEMath.h:21 | the result is non-negative, equals `a` or `-a`, and is zero exactly for zero |
| JMEMath.Mod | src/JMEMath.h:22-29 | for `mod > 0` both loops end, with `0 <= n < mod` and `n` congruent to its old value modulo `mod` |
| JMEGeometry.ZeroConstants | src/JMEGeometry.c:17-34 | the zero point and size are `(0, 0)`, the zero rect is empty, and the null rect equals the zero rect field for field |
| JMEGeometry.RectMake | src/JMEGeometry.h:108-115 | the rect has the given origin and size |
| JMEGeometry.GetMinX | src/JMEGeometry.h:120-122 | with integer promotion, min x is always the origin's x |
| JMEGeometry.GetMidX | src/JMEGeometry.h:127-129 | for a rect that does not wrap, mid x lies between min and max x, at half the width rounded down |
| JMEGeometry.GetMaxX | src/JMEGeometry.h:134-136 | max x is `x + w`, less 256 when that passes 255 |
| JMEGeometry.GetMinY | src/JMEGeometry.h:141-143 | min y is always the origin's y |
| JMEGeometry.GetMidY | src/JMEGeometry.h:148-150 | for a rect that does not wrap, mid y lies between min and max y, at half the height rounded down |
| JMEGeometry.GetMaxY | src/JMEGeometry.h:155-157 | max y is `y + h`, less 256 when that passes 255 |
| JMEGeometry.PointEqualToPoint | src/JMEGeometry.h:162-164 | true exactly for equal points |
| JMEGeometry.SizeEqualToSize | src/JMEGeometry.h:169-171 | true exactly for equal sizes |
| JMEGeometry.RectEqualToRect | src/JMEGeometry.h:176-181 | true exactly for equal rects |
| JMEGeometry.IsEmpty | src/JMEGeometry.h:187-189 | true exactly when width or height is 0, which is exactly when the rect covers no point |
| JMEGeometry.IsNull | src/JMEGeometry.h:194-196 | the same predicate as `IsEmpty` |
| JMEGeometry.Inset | src/JMEGeometry.h:202-208 | when it does not wrap, the origin moves by `(dx, dy)` and the size shrinks by `(2dx, 2dy)` |
| JMEGeometry.InsetZero | src/JMEGeometry.h:202-208 | insetting by `(0, 0)` gives the rect back |
| JMEGeometry.InsetUndo | src/JMEGeometry.h:202-208 | insetting by `(-dx, -dy)` modulo 256 undoes an inset by `(dx, dy)`, for every rect |
| JMEGeometry.Offset | src/JMEGeometry.h:263-267 | the size is unchanged and, without wrap, the origin moves back by `(dx, dy)` |
| JMEGeometry.OffsetUndo | src/JMEGeometry.h:263-267 | offsetting by `(-dx, -dy)` modulo 256 undoes an offset, for every rect |
| JMEGeometry.Union | src/JMEGeometry.h:213-230 | for rects that do not wrap, the union contains both and lies inside every rect that contains both |
| JMEGeometry.UnionIdempotent | src/JMEGeometry.h:213-230 | `Union(r, r) == r` for every rect |
| JMEGeometry.UnionCommutes | src/JMEGeometry.h:213-230 | `Union(r1, r2) == Union(r2, r1)` |
| JMEGeometry.Intersection | src/JMEGeometry.h:235-258 | a rect is returned exactly when `IntersectsRect` holds; otherwise `None` (the C struct is uninitialised) |
| JMEGeometry.IntersectionWithin | src/JMEGeometry.h:246-256 | a returned intersection lies inside both rects |
| JMEGeometry.IntersectionIdempotent | src/JMEGeometry.h:246-250 | a non-empty rect that does not wrap intersects itself in itself |
| JMEGeometry.ContainsPoint | src/JMEGeometry.h:272-275 | for a rect that does not wrap, the point is contained exactly when it lies between origin and `origin + size`, both edges included |
| JMEGeometry.ContainsPointBothCorners | src/JMEGeometry.h:272-275 | both the origin and `(x + w, y + h)` are contained |
| JMEGeometry.ContainsRect | src/JMEGeometry.h:282-285 | a true result implies strict order of min x and of mid y against min y, so a rect never contains itself |
| JMEGeometry.ContainsRectIrreflexive | src/JMEGeometry.h:282-285 | `ContainsRect(r, r)` is false for every rect |
| JMEGeometry.IntersectsRect | src/JMEGeometry.h:292-305 | a true result implies the x ranges overlap |
| JMEGeometry.IntersectsRectSymmetric | src/JMEGeometry.h:303-304 | `IntersectsRect` is symmetric |
| JMEGeometry.IntersectionIntended | src/JMEGeometry.h:232-258 | the intended intersection covers exactly the points both rects cover |
| JMEGeometry.IntersectsRectIntended | src/JMEGeometry.h:287-305 | the intended test holds exactly when some point is covered by both rects |
| JMEGeometry.DisjointHaveNoIntersection | src/JMEGeometry.h:246-256 | non-empty rects that fit and share no pixel get no intersection |
| JMEGeometry.IntersectionAgreesWhereDefined | src/JMEGeometry.h:246-256 | whenever the driver's intersection returns a rect, it is the intended one |
| JMEGeometry.IntersectionMissesCrossedRects | src/JMEGeometry.h:246-256 | two crossed 10 x 10 rects share point (5, 5), yet the code reports no intersection |
| JMEGeometry.ContainsRectIntended | src/JMEGeometry.h:277-285 | the documented containment: the union equals `rect1`, which is the same as `rect2` lying inside `rect1` |
| JMEGeometry.ContainsRectMissesInnerRect | src/JMEGeometry.h:282-285 | a 4 x 4 rect inside a 10 x 10 rect, and the rect itself, are not reported as contained |
| ST7735RTrace.PixelDataAt | src/OBST7735R_DriveLib.c:646-650 | colour `k` is streamed as data bytes `2k` (high byte) and `2k + 1` (low byte) |
| ST7735RTrace.PixelDataAppend | src/OBST7735R_DriveLib.c:646-650 | streaming two colour runs one after the other is streaming their concatenation |
| ST7735RTrace.PixelsRoundTrip | src/OBST7735R_DriveLib.c:646-650 | decoding a streamed colour run gives back the colours |
| ST7735RTrace.PixelsDecodeInverse | src/OBST7735R_DriveLib.c:646-650 | every event run that decodes to colours is exactly the stream of those colours |
| ST7735RTrace.WindowTrace | src/OBST7735R_DriveLib.c:618-637 | a window is ten events: CASET and RASET, each with two 16-bit big-endian bounds |
| ST7735RTrace.WindowRoundTrip | src/OBST7735R_DriveLib.c:618-637 | the window events address exactly the rect when it is non-empty and its inclusive end `x + w - 1`, `y + h - 1` stays below 256, and no rect otherwise |
| ST7735RTrace.WriteTrace | src/OBST7735R_DriveLib.c:639-652 | a memory write is the window, RAMWR, then two bytes per colour |
| ST7735RTrace.WriteRoundTrip | src/OBST7735R_DriveLib.c:618-652 | a memory write decodes to exactly its window and colours |
| ST7735RTrace.FillDecodes | src/OBST7735R_DriveLib.c:284-297 | a fill sends nothing exactly for an empty rect, and otherwise gives every one of the `w * h` pixels the colour |
| ST7735RTrace.PixelDecodes | src/OBST7735R_DriveLib.c:654-658 | `drawPixel` is a 13-event write of one colour into the 1 x 1 window at the point |
| ST7735RTrace.PointsTraceAt | src/OBST7735R_DriveLib.c:268-279 | the `i`-th thirteen events of a run of pixels are the `i`-th pixel's write |
| ST7735RTrace.DiagonalStep | src/OBST7735R_DriveLib.c:261-281 | pass `n` of the counting-down loop plots `(x0 + n, y0 + n * (dy / dx))` or `(x0 + n * (dx / dy), y0 + n)`, with integer division, and there are `max(dx, dy)` passes |
| ST7735RTrace.AxisLine | src/OBST7735R_DriveLib.c:217-260 | an axis-aligned line sends nothing for equal endpoints, and otherwise one write of `|delta|` copies of the colour into the window from the smaller endpoint, far end excluded |
| ST7735RTrace.SlantedLine | src/OBST7735R_DriveLib.c:261-281 | a slanted line is `max(dx, dy)` single-pixel writes, which lie on row `y0`, on column `x0`, or on the diagonal, depending on the order of `dx` and `dy` |
| ST7735RTrace.SlantedSpan | src/OBST7735R_DriveLib.c:261-281 | when both coordinates differ, the line is the point-by-point walk from the min corner over `|dx|` by `|dy|`, and that walk stays within the 8-bit coordinate range |
| ST7735RTrace.DiagonalShape | src/OBST7735R_DriveLib.c:261-281 | with `scale` 0 or 1, the plotted points are exactly the row, column or diagonal run from the smaller corner, listed from the far end |
| ST7735RTrace.OutlineSides | src/OBST7735R_DriveLib.c:298-319 | an outline sends the frame's window, then fills `(x, y, w, 1)`, `(x + w - 1, y, 1, h)`, `(x, y + h - 1, w, 1)` and `(x, y, 1, h)` in that order |
| ST7735RTrace.OutlineFills | src/OBST7735R_DriveLib.c:298-319 | the four lines of the outline are those four fills |
| ST7735RTrace.TopSide | src/OBST7735R_DriveLib.c:303-304 | the first line is the top row fill `(x, y, w, 1)` |
| ST7735RTrace.RightSide | src/OBST7735R_DriveLib.c:307-309 | the second line is the right column fill `(x + w - 1, y, 1, h)` |
| ST7735RTrace.BottomSide | src/OBST7735R_DriveLib.c:312-314 | the third line is the bottom row fill `(x, y + h - 1, w, 1)` |
| ST7735RTrace.LeftSide | src/OBST7735R_DriveLib.c:317-318 | the fourth line is the left column fill `(x, y, 1, h)` |
| ST7735RTrace.RowLine | src/OBST7735R_DriveLib.c:243-260 | a horizontal line of length `w` is the fill of the `w x 1` rect at its start |
| ST7735RTrace.ColumnLine | src/OBST7735R_DriveLib.c:225-242 | a vertical line of length `h` is the fill of the `1 x h` rect at its start |
| ST7735RTrace.FillScreenDecodes | src/OBST7735R_DriveLib.c:323-326 | `fillScreen` is one write of 128 x 160 copies of the colour over the whole screen |
| ST7735RTrace.BitmapDecodes | src/OBST7735R_DriveLib.c:328-334 | a bitmap sends nothing without an image or for an empty frame, and otherwise writes the image's first `w * h` colours verbatim into the frame |
| ST7735RTrace.MaskPixelAt | src/OBST7735R_DriveLib.c:343-410 | mask pixel `k` is the foreground colour exactly when bit `7 - k % 8` of byte `k / 8` is set |
| ST7735RTrace.UniformMask | src/OBST7735R_DriveLib.c:343-410 | all-zero mask bytes give only background, all-0xFF bytes only foreground |
| ST7735RTrace.BinaryImageDecodes | src/OBST7735R_DriveLib.c:336-413 | a binary image sends nothing for an empty frame; otherwise one write of `8 * ((w * h) >> 3)` pixels from the first `(w * h) >> 3` mask bytes, MSB first |
| ST7735RTrace.BinaryIconTiles | src/OBST7735R_DriveLib.c:424-443 | the image is centred (odd pixel right and below) and the four bands and image lie inside the frame and tile it exactly |
| ST7735RTrace.BinaryIconRects | src/OBST7735R_DriveLib.c:424-437 | the image frame and the top, left, right and bottom bands, without 8-bit wrap |
| ST7735RTrace.BinaryIconWithin | src/OBST7735R_DriveLib.c:424-437 | the image and the four bands lie inside the icon frame |
| ST7735RTrace.BinaryIconArea | src/OBST7735R_DriveLib.c:424-437 | the areas of the bands and image add up to the frame's area |
| ST7735RTrace.MenuIconDecodes | src/OBST7735R_DriveLib.c:502-550 | a menu icon is one write over its whole frame of exactly `fw * fh` pixels |
| ST7735RTrace.MenuIconPixelAt | src/OBST7735R_DriveLib.c:518-541 | streamed pixel `r * fw + c` is frame pixel `(r, c)` |
| ST7735RTrace.MenuIconPixelsRows | src/OBST7735R_DriveLib.c:518-541 | the three runs (rows above, rows through, rows below the image) are every frame row, top to bottom |
| ST7735RTrace.MenuIconPixelsLength | src/OBST7735R_DriveLib.c:518-541 | exactly `fw * fh` pixels are streamed |
| ST7735RTrace.MenuIconImage | src/OBST7735R_DriveLib.c:524-531 | frame pixel `(oy + i, ox + j)` is image pixel `iconData[i * iw + j]` |
| ST7735RTrace.MenuIconBorder | src/OBST7735R_DriveLib.c:519-541 | every frame pixel outside the centred image area is `icon->color`, not `bgColor` |
| ST7735RTrace.MenuIconBlankRow | src/OBST7735R_DriveLib.c:519-523 | a frame row above or below the image is `fw` copies of `icon->color` |
| ST7735RTrace.MenuIconBlankRows | src/OBST7735R_DriveLib.c:536-541 | `k` such rows are `k * fw` copies of `icon->color`, as the driver's counted runs send them |
| ST7735RTrace.MenuIconRowsSplit | src/OBST7735R_DriveLib.c:518-541 | consecutive row runs concatenate |
| ST7735RTrace.MenuIconRowsAt | src/OBST7735R_DriveLib.c:524-535 | pixel `i * fw + c` of a row run is frame pixel `(a + i, c)` |
| ST7735RTrace.MenuIconColsAt | src/OBST7735R_DriveLib.c:526-534 | pixel `c` of the first `k` columns of a row is frame pixel `(r, c)` |
| ST7735RTrace.MenuIconRowsLength | src/OBST7735R_DriveLib.c:524-535 | `k` frame rows hold `k * fw` pixels |
| ST7735RTrace.ScaledSize | src/OBST7735R_DriveLib.c:475-493 | a glyph drawn `fs` times larger has `(cols * fs) * (rows * fs)` pixels |
| ST7735RTrace.ScaledTopAt | src/OBST7735R_DriveLib.c:475-493 | pixel `C` of scaled row `R` sits at position `R * width + C` of the first `n` scaled rows streamed |
| ST7735RTrace.ScaledPixelAt | src/OBST7735R_DriveLib.c:475-493 | scaled pixel `(R, C)` takes the ink of glyph bit `(R / fs, C / fs)` |
| ST7735RTrace.ScaledRowsPixels | src/OBST7735R_DriveLib.c:475-493 | the row / scale loops (each glyph row's line repeated `fs` times) produce the scaled glyph |
| ST7735RTrace.ScaledLineAt | src/OBST7735R_DriveLib.c:480-492 | pixel `C` of a scaled line takes the ink of bit `C / fs` |
| ST7735RTrace.NumberPixelAt | src/OBST7735R_DriveLib.c:475-493 | digit pixel `(R, C)` is the text colour exactly when bit `R / fs` of `JMEASCII_NUMBER[d * 5 + C / fs]` is set |
| ST7735RTrace.NumberBottomBlank | src/OBST7735R_DriveLib.c:38-49 | no font byte uses bit 7, so the bottom `fs` pixel rows of every digit are background |
| ST7735RTrace.Digits | src/OBST7735R_DriveLib.c:461-468 | the three digits are each at most 9 |
| ST7735RTrace.DigitsValue | src/OBST7735R_DriveLib.c:461-468 | the digits spell `number % 1000` in decimal, hundreds first, leading zeros kept |
| ST7735RTrace.DigitPlace | src/OBST7735R_DriveLib.c:466-468 | one pass of the digit loop takes off digit `i` and leaves the part below the next place value |
| ST7735RTrace.DigitFrameNext | src/OBST7735R_DriveLib.c:497 | advancing the window's x by its width gives the next digit's window |
| ST7735RTrace.DigitFrameAt | src/OBST7735R_DriveLib.c:456-459 | without wrap, digit `i`'s window is `5fs x 8fs` at `5fs * i` right of the start |
| ST7735RTrace.NumberLayout | src/OBST7735R_DriveLib.c:452-500 | without wrap, a number is three writes of the digit glyphs into adjacent `5fs x 8fs` windows |
| ST7735RTrace.CharPixelAt | src/OBST7735R_DriveLib.c:568-584 | character pixel `(R, C)` is the text colour exactly when bit `7 - C / fs` of table byte `code * 12 + R / fs` is set |
| ST7735RTrace.CharFrameNext | src/OBST7735R_DriveLib.c:589 | advancing the window's x by its width gives the next character's window |
| ST7735RTrace.CharFrameAt | src/OBST7735R_DriveLib.c:556-559 | without wrap, character `i`'s window is `8fs x 12fs` at `8fs * i` right of the start |
| ST7735RTrace.CharsStep | src/OBST7735R_DriveLib.c:560-590 | drawing one more character appends that character in the next window |
| ST7735RTrace.StringAppend | src/OBST7735R_DriveLib.c:552-591 | drawing `text + [ch]` draws `text`, then `ch`'s glyph in the window right after it |
| ST7735RTrace.StringIndexNeverExits | src/OBST7735R_DriveLib.c:560 | with the `uint8_t` index and a string of 256 characters or more, every pass is followed by another, the index wrapping modulo 256 |
| ST7735RTrace.StringIndexWraps | src/OBST7735R_DriveLib.c:560 | pass 256 of that loop goes back to index 0 |
| ST7735RTrace.StringIndexVisitsEach | src/OBST7735R_DriveLib.c:560 | with an unbounded index the loop visits each index below the length once, in order, and stops |
| ST7735RScript.DataEvents | src/OBST7735R_DriveLib.c:673-684 | parameter bytes become one `Data` event each, in order |
| ST7735RScript.DecodeEncode | src/OBST7735R_DriveLib.c:660-684 | decoding the events of a command list gives the list back |
| ST7735RScript.EncodeAppend | src/OBST7735R_DriveLib.c:660-684 | sending two command lists one after the other is sending their concatenation |
| ST7735RScript.InitSections | src/OBST7735R_DriveLib.c:120-193 | `init` is the back light switched off by `portInit`, the hardware reset, then the encoded command list |
| ST7735RScript.InitScript | src/OBST7735R_DriveLib.c:120-193 | the init trace decodes to exactly its 17 commands; the fourteenth is COLMOD with 0x05 |
| ST7735RScript.InitOpcodes | src/OBST7735R_DriveLib.c:132-192 | no command of the script is a software reset, SLPIN or SLPOUT |
| ST7735RScript.InitLeavesSleepIn | src/OBST7735R_DriveLib.c:120-193 | after `init` the controller is in sleep mode, whatever came before |
| ST7735RScript.SleepCommands | src/OBST7735R_DriveLib.c:195-209 | `exitSleep` always leaves the controller awake, `enterSleep` always asleep |
| ST7735RScript.SleepIdempotent | src/OBST7735R_DriveLib.c:195-209 | calling either sleep function twice ends in the same state as calling it once |
| ST7735RScript.PowerNeutralKeeps | src/OBST7735R_DriveLib.c:195-209 | events that do not touch the sleep state keep it |
| ST7735RScript.WriteKeepsPower | src/OBST7735R_DriveLib.c:618-652 | a window and memory write leaves the sleep state as it was |
| ST7735R.Panel.WriteCommand | src/OBST7735R_DriveLib.c:660-671 | appends one `Cmd` event |
| ST7735R.Panel.WriteData | src/OBST7735R_DriveLib.c:673-684 | appends one `Data` event |
| ST7735R.Panel.WriteColor | src/OBST7735R_DriveLib.c:648-649 | appends the colour's high byte, then its low byte |
| ST7735R.Panel.WriteRepeated | src/OBST7735R_DriveLib.c:235-239 | the `while (count--)` run appends `count` copies of the colour |
| ST7735R.Panel.SetDrawWindow | src/OBST7735R_DriveLib.c:618-637 | returns false and appends nothing for an empty rect; otherwise returns true and appends the ten window events |
| ST7735R.Panel.WriteRange | src/OBST7735R_DriveLib.c:625-633 | appends one CASET or RASET command with its two 16-bit bounds |
| ST7735R.Panel.WritePixelData | src/OBST7735R_DriveLib.c:639-652 | appends RAMWR, then the first `count` colours, high byte first |
| ST7735R.Panel.DrawPixel | src/OBST7735R_DriveLib.c:654-658 | appends the single-pixel write |
| ST7735R.Panel.PortInit | src/OBST7735R_Adapter.c:14-19 | `portInit` appends one back-light-off event |
| ST7735R.Panel.HardwareReset | src/OBST7735R_DriveLib.c:598-604 | reset low for 100 ms, then high for 100 ms |
| ST7735R.Panel.SoftwareReset | src/OBST7735R_DriveLib.c:606-610 | SWRESET, then a 120 ms delay |
| ST7735R.Panel.SetPixelFormat | src/OBST7735R_DriveLib.c:612-616 | COLMOD with the format byte |
| ST7735R.Panel.InitFrameRate | src/OBST7735R_DriveLib.c:132-139 | the three frame-rate commands |
| ST7735R.Panel.InitInversion | src/OBST7735R_DriveLib.c:141-143 | the inversion-control command |
| ST7735R.Panel.InitPowerSequence | src/OBST7735R_DriveLib.c:145-157 | the six power-control commands |
| ST7735R.Panel.InitGamma | src/OBST7735R_DriveLib.c:159-177 | the two gamma tables |
| ST7735R.Panel.InitDisplay | src/OBST7735R_DriveLib.c:179-192 | MADCTL, COLMOD 0x05, DISPON and the two vendor settings |
| ST7735R.Panel.Init | src/OBST7735R_DriveLib.c:120-193 | appends the whole power-on trace: back light off, hardware reset, then the script |
| ST7735R.Panel.EnterSleep | src/OBST7735R_DriveLib.c:195-201 | back light off, SLPIN, 20 ms; the controller is then asleep |
| ST7735R.Panel.ExitSleep | src/OBST7735R_DriveLib.c:203-209 | back light on, SLPOUT, 20 ms; the controller is then awake |
| ST7735R.Panel.RefreshScreen | src/OBST7735R_DriveLib.c:212-215 | appends a lone command 0x00 |
| ST7735R.Panel.FillWindow | src/OBST7735R_DriveLib.c:230-239 | for a non-empty rect, appends the window, RAMWR and the colour run |
| ST7735R.Panel.DrawDiagonalX | src/OBST7735R_DriveLib.c:265-272 | the `while (dx--)` loop appends the single-pixel writes of the diagonal points |
| ST7735R.Panel.DrawDiagonalY | src/OBST7735R_DriveLib.c:273-280 | the `while (dy--)` loop appends the single-pixel writes of the diagonal points |
| ST7735R.Panel.DrawLine | src/OBST7735R_DriveLib.c:217-282 | appends exactly the line's trace |
| ST7735R.Panel.DrawOutline | src/OBST7735R_DriveLib.c:298-319 | appends the four lines of the outline, with the driver's endpoint arithmetic |
| ST7735R.Panel.DrawRect | src/OBST7735R_DriveLib.c:284-321 | appends nothing for an empty frame, otherwise the window and the fill or the outline |
| ST7735R.Panel.FillScreen | src/OBST7735R_DriveLib.c:323-326 | a filled rect over the 128 x 160 screen |
| ST7735R.Panel.DrawBitmap | src/OBST7735R_DriveLib.c:328-334 | appends exactly the bitmap's trace |
| ST7735R.Panel.WriteMaskBit | src/OBST7735R_DriveLib.c:354-360 | one bit test appends the mask colour of that bit |
| ST7735R.Panel.WriteMaskByte | src/OBST7735R_DriveLib.c:354-409 | the eight unrolled tests append the byte's eight colours, MSB first |
| ST7735R.Panel.DrawBinaryImage | src/OBST7735R_DriveLib.c:336-413 | the `for n < pixelCount` loop appends exactly the binary image's trace |
| ST7735R.Panel.DrawBinaryIcon | src/OBST7735R_DriveLib.c:415-450 | appends the four background bands, then the binary image |
| ST7735R.Panel.IconLayout | src/OBST7735R_DriveLib.c:424-437 | computes the image frame and the four bands |
| ST7735R.Panel.VerticalInsets | src/OBST7735R_DriveLib.c:427-431 | computes the top and bottom bands |
| ST7735R.Panel.HorizontalInsets | src/OBST7735R_DriveLib.c:432-437 | computes the left and right bands |
| ST7735R.Panel.FillBands | src/OBST7735R_DriveLib.c:439-442 | fills the four bands in order |
| ST7735R.Panel.DrawMenuIcon | src/OBST7735R_DriveLib.c:502-550 | appends exactly the menu icon's trace |
| ST7735R.Panel.StreamMenuIcon | src/OBST7735R_DriveLib.c:518-541 | the three runs append the frame's pixels |
| ST7735R.Panel.WriteUpperRows | src/OBST7735R_DriveLib.c:518-535 | appends the rows above the image, then the rows through it |
| ST7735R.Panel.WriteBlankRows | src/OBST7735R_DriveLib.c:536-541 | a counted run of `icon->color` appends those frame rows |
| ST7735R.Panel.WriteIconRows | src/OBST7735R_DriveLib.c:524-535 | the `for r` loop appends the rows through the image |
| ST7735R.Panel.WriteIconRow | src/OBST7735R_DriveLib.c:526-534 | the `for c` loop appends one frame row |
| ST7735R.Panel.IconRowPixel | src/OBST7735R_DriveLib.c:527-531 | the colour chosen for column `c` is frame pixel `(oy + r, c)` |
| ST7735R.Panel.DrawNumber | src/OBST7735R_DriveLib.c:452-500 | appends exactly the number's trace, nothing for `fontSize == 0` |
| ST7735R.Panel.DrawDigits | src/OBST7735R_DriveLib.c:461-498 | the digit loop appends the three digits' writes |
| ST7735R.Panel.NextDigit | src/OBST7735R_DriveLib.c:466-468 | returns digit `i`, the rest below the next place value, and the next place value |
| ST7735R.Panel.WriteDigit | src/OBST7735R_DriveLib.c:469-496 | appends one digit's write, or nothing for an empty window |
| ST7735R.Panel.WriteNumberGlyph | src/OBST7735R_DriveLib.c:475-494 | the row loop appends the scaled digit glyph |
| ST7735R.Panel.WriteNumberRow | src/OBST7735R_DriveLib.c:477-493 | one glyph row appends its scaled line `fs` times |
| ST7735R.Panel.WriteNumberLine | src/OBST7735R_DriveLib.c:480-492 | the column loop appends one scaled line |
| ST7735R.Panel.NumberInk | src/OBST7735R_DriveLib.c:482-486 | the colour of one font bit |
| ST7735R.Panel.DrawString | src/OBST7735R_DriveLib.c:552-592 | appends exactly the string's trace, nothing for `fontSize == 0` |
| ST7735R.Panel.DrawChars | src/OBST7735R_DriveLib.c:560-590 | the character loop, with an unbounded index, appends each character in its window |
| ST7735R.Panel.WriteChar | src/OBST7735R_DriveLib.c:561-588 | appends one character's write, or nothing for an empty window |
| ST7735R.Panel.WriteCharGlyph | src/OBST7735R_DriveLib.c:568-585 | the row loop appends the scaled character glyph |
| ST7735R.Panel.WriteCharRow | src/OBST7735R_DriveLib.c:570-584 | one glyph row appends its scaled line `fs` times |
| ST7735R.Panel.WriteCharLine | src/OBST7735R_DriveLib.c:572-583 | the column loop appends one scaled line |
| ST7735R.Panel.CharInk | src/OBST7735R_DriveLib.c:574-578 | the colour of one table bit |

## Left out

- `_JMEST7735R_read_data` (src/OBST7735R_DriveLib.c:686-698) is an unused bus read with no observable result.
- The GPIO strobe macros have no bodies, and `JMEST7735R_IOEnterSleep` (src/OBST7735R_Adapter.c:21-27) has empty branches. `JMEST7735R_portInit` only switches the back light off, which is recorded as an event. Only the back light, delay and reset line remain, as events.
- `Delay` events record a duration only; timing itself is not modelled.
- The `JME_DEBUG` timing and logging blocks are OS clock and printf calls.
- The `float scale` of `drawLine` is modelled as the integer it always holds (0 or 1); no floating point.
- The contents of `kJME_ASCII8x12_Table` come from a header that is not part of this model. The table is a parameter, and `drawString` requires each drawn character to be printable ASCII (32 to 127) with its twelve bytes in the table.
- `drawMenuIcon` reads `iconData` as host-endian `uint16_t` through a cast. The icon's data is modelled as a sequence of 16-bit colours.
- The `isHighLight` arguments of `drawBitmap` and `drawMenuIcon` are unused by the driver and ignored.
- The first value stored in `count` in `drawMenuIcon` (`w * h`) is overwritten before use, so it has no model.
- `JMEST7735R_LEDON`, `LEDOFF` and the reset macros have no bodies. They are recorded as `Led` and `Reset` events, and the sleep state is a model of the controller, not of the code.
- Null pointers are `None` (the icon, its data, the bitmap). `drawString`'s `strlen` is the length of the Dafny string.
- Icons whose image is larger than their frame are excluded by precondition: the driver then shifts a negative `int` right, which C leaves to the implementation.
- ST7735R.Panel.DrawChars: models the character loop with an unbounded index. For strings of 256 characters or more the driver's `uint8_t` index never exits (see Findings), so the method draws the string the driver was evidently meant to draw.
- ST7735R.Panel.DrawString: for strings of 256 characters or more it ends with each character drawn once, where the driver never returns; it calls `DrawChars`.
- ST7735RTrace.StringTrace: for strings of 256 characters or more it is the finite trace of the intended loop, not the driver's endless one.
- ST7735RTrace.CharsTrace: the same as `StringTrace`, for the character list it is built from.
- ST7735R.Panel.DrawBinaryImage: C `int` is taken to be at least 32 bits. With a 16-bit `int`, as on 8051 compilers for the CC2540, `width * height` in `drawBinaryImage` (src/OBST7735R_DriveLib.c:338) overflows once a frame has more than 32767 pixels, and the byte count differs. Such frames are larger than the 128 x 160 panel. The other products (src/OBST7735R_DriveLib.c:287, 331, 525, 537) are stored into `uint16_t`, which gives the same bits either way.
- ST7735RTrace.BinaryImageTrace: the same 32-bit `int` assumption as `DrawBinaryImage`.

## Findings

| source | as written | input that shows it | evidently intended | confidence | as-written member | corrected member |
|---|---|---|---|---|---|---|
| src/JMEGeometry.h:246-256 | `JMERectIntersection` and `JMERectIntersectsRect` only see an overlap when one rect's origin is at or above-left of the other's | `(0, 5, 10, 10)` and `(5, 0, 10, 10)`, which share `(5, 5)` | the intersection is the common area whenever there is one | high; not executed | JMEGeometry.IntersectionMissesCrossedRects | JMEGeometry.IntersectionIntended |
| src/JMEGeometry.h:282-285 | `JMERectContainsRect` compares `GetMidY` where `GetMinY` is meant, and every comparison is strict | `(0, 0, 10, 10)` and `(2, 2, 4, 4)`: the inner rect is not reported as contained | `rect2` is contained when the union of the two is `rect1`, as the comment above it says | high; not executed | JMEGeometry.ContainsRectMissesInnerRect | JMEGeometry.ContainsRectIntended |
| src/OBST7735R_DriveLib.c:560 | the character index of `drawString` is a `uint8_t` compared with `strlen` | any string of 256 characters: after index 255 the index wraps to 0 and the loop never ends | every character is drawn once, then the loop ends | high; not executed | ST7735RTrace.StringIndexWraps | ST7735RTrace.StringIndexVisitsEach |
