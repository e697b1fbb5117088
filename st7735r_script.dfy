/**
 * The fixed command scripts of the driver: the power-on sequence of
 * `JMEST7735R_init`, the sleep commands, and the controller's sleep state
 * as the events sent so far determine it.
 *
 * A command is an opcode followed by its parameter bytes; `Encode` turns a
 * list of commands into bus events and `Decode` reads them back, skipping
 * events that are not commands or their parameters (delays, the LED and
 * the reset line).
 */
module ST7735RScript {
  import opened JMEBase
  import opened JMEGeometry
  import opened ST7735RTrace

  datatype Command = Command(op: uint8, params: seq<uint8>)

  /** Undocumented vendor command sent at the end of the power-on sequence. */
  const VENDOR_F6: uint8 := 0xF6

  // The power-on script of `JMEST7735R_init`, section by section as the
  // driver's comments divide it.

  const FrameRateCommands: seq<Command> :=
    [Command(FRMCTR1, [0x02, 0x35, 0x36]),
     Command(FRMCTR2, [0x02, 0x35, 0x36]),
     Command(FRMCTR3, [0x02, 0x35, 0x36, 0x02, 0x35, 0x36])]

  const InversionCommands: seq<Command> :=
    [Command(INVCTR, [0x03])]

  const PowerCommands: seq<Command> :=
    [Command(PWCTR1, [0xA2, 0x02, 0x84]),
     Command(PWCTR2, [0xC5]),
     Command(PWCTR3, [0x0D, 0x00]),
     Command(PWCTR4, [0x8A, 0x2A]),
     Command(PWCTR5, [0x8A, 0xEE]),
     Command(VMCTR1, [0x03])]

  const GammaCommands: seq<Command> :=
    [Command(GMCTRP1, [0x12, 0x1C, 0x10, 0x18, 0x33, 0x2C, 0x25, 0x28,
                       0x28, 0x27, 0x2F, 0x3C, 0x00, 0x03, 0x03, 0x10]),
     Command(GMCTRN1, [0x12, 0x1D, 0x10, 0x18, 0x2D, 0x28, 0x23, 0x28,
                       0x28, 0x26, 0x2F, 0x3B, 0x00, 0x03, 0x03, 0x10])]

  /** Memory access order, pixel format, display on, and two vendor settings. */
  const DisplayCommands: seq<Command> :=
    [Command(MADCTL, [0xC8]),
     Command(COLMOD, [IPF_16]),
     Command(DISPON, []),
     Command(EXTCTRL, [0x01]),
     Command(VENDOR_F6, [0x00])]

  /** The commands `JMEST7735R_init` sends after the hardware reset, in order. */
  const InitCommands: seq<Command> :=
    FrameRateCommands + InversionCommands + PowerCommands + GammaCommands + DisplayCommands

  /** `_JMEST7735R_HDReset`: reset low for 100 ms, then high for 100 ms. */
  const HardResetEvents: seq<Event> := [Reset(true), Delay(100), Reset(false), Delay(100)]

  /** `JMEST7735R_portInit`: the back light off. */
  const PortInitEvents: seq<Event> := [Led(false)]

  /** `_JMEST7735R_SWReset`, which `JMEST7735R_init` leaves commented out. */
  const SoftResetEvents: seq<Event> := [Cmd(SWRESET), Delay(120)]

  /** `JMEST7735R_enterSleep`: back light off, SLPIN, 20 ms. */
  const SleepInEvents: seq<Event> := [Led(false), Cmd(SLPIN), Delay(20)]

  /** `JMEST7735R_exitSleep`: back light on, SLPOUT, 20 ms. */
  const SleepOutEvents: seq<Event> := [Led(true), Cmd(SLPOUT), Delay(20)]

  /** `JMEST7735R_refreshScreen`: a lone NOP command. */
  const RefreshEvents: seq<Event> := [Cmd(NOP)]

  function DataEvents(bs: seq<uint8>): (ev: seq<Event>)
    ensures |ev| == |bs| && forall k :: 0 <= k < |bs| ==> ev[k] == Data(bs[k])
  {
    seq(|bs|, k requires 0 <= k < |bs| => Data(bs[k]))
  }

  function CommandEvents(c: Command): seq<Event>
  {
    [Cmd(c.op)] + DataEvents(c.params)
  }

  /** The bus events of a command list: each opcode, then its parameters. */
  function Encode(cmds: seq<Command>): (ev: seq<Event>)
  {
    if cmds == [] then [] else CommandEvents(cmds[0]) + Encode(cmds[1..])
  }

  /** The number of `Data` events at the front of `ev`. */
  function DataRun(ev: seq<Event>): (n: nat)
    ensures n <= |ev| && forall k :: 0 <= k < n ==> ev[k].Data?
    ensures n < |ev| ==> !ev[n].Data?
  {
    if ev == [] || !ev[0].Data? then 0 else 1 + DataRun(ev[1..])
  }

  function Values(ev: seq<Event>): (bs: seq<uint8>)
    requires forall k :: 0 <= k < |ev| ==> ev[k].Data?
    ensures |bs| == |ev| && forall k :: 0 <= k < |ev| ==> ev[k] == Data(bs[k])
  {
    seq(|ev|, k requires 0 <= k < |ev| => ev[k].value)
  }

  /**
   * The commands an event sequence sends: each `Cmd` with the `Data`
   * events that follow it; every other event is skipped.
   */
  function Decode(ev: seq<Event>): seq<Command>
    decreases |ev|
  {
    if ev == [] then []
    else if ev[0].Cmd? then
      var n := DataRun(ev[1..]);
      [Command(ev[0].op, Values(ev[1..][..n]))] + Decode(ev[1..][n..])
    else Decode(ev[1..])
  }

  /** The parameters of a command are exactly the data run after its opcode. */
  lemma DataRunOfParams(bs: seq<uint8>, rest: seq<Event>)
    requires rest == [] || !rest[0].Data?
    ensures DataRun(DataEvents(bs) + rest) == |bs|
  {
    var ev := DataEvents(bs) + rest;
    assert forall k :: 0 <= k < |bs| ==> ev[k] == Data(bs[k]);
    assert |bs| < |ev| ==> ev[|bs|] == rest[0];
  }

  /** Encoding a command list starts with its first opcode, if it has one. */
  lemma EncodeStartsWithCmd(cmds: seq<Command>)
    ensures Encode(cmds) == [] || !Encode(cmds)[0].Data?
  {
  }

  /** Decoding undoes encoding. */
  lemma {:induction false} DecodeEncode(cmds: seq<Command>)
    ensures Decode(Encode(cmds)) == cmds
    decreases |cmds|
  {
    if cmds != [] {
      var c, rest := cmds[0], Encode(cmds[1..]);
      var ev := Encode(cmds);
      assert ev == [Cmd(c.op)] + (DataEvents(c.params) + rest);
      assert ev[1..] == DataEvents(c.params) + rest;
      EncodeStartsWithCmd(cmds[1..]);
      DataRunOfParams(c.params, rest);
      var n := |c.params|;
      assert ev[1..][..n] == DataEvents(c.params);
      assert Values(DataEvents(c.params)) == c.params;
      assert ev[1..][n..] == rest;
      DecodeEncode(cmds[1..]);
      assert [c] + cmds[1..] == cmds;
    }
  }

  /** Encoding distributes over concatenation of command lists. */
  lemma {:induction false} EncodeAppend(a: seq<Command>, b: seq<Command>)
    ensures Encode(a + b) == Encode(a) + Encode(b)
    decreases |a|
  {
    if a == [] {
      assert a + b == b;
    } else {
      assert (a + b)[1..] == a[1..] + b;
      EncodeAppend(a[1..], b);
    }
  }

  /**
   * Having sent command `k` of a script, what is left to send is the
   * commands after it.
   */
  lemma Sent(before: seq<Event>, after: seq<Event>, cmds: seq<Command>, k: nat)
    requires k < |cmds| && after == before + CommandEvents(cmds[k])
    ensures after + Encode(cmds[k + 1..]) == before + Encode(cmds[k..])
  {
    assert cmds[k..][1..] == cmds[k + 1..];
  }

  /**
   * Everything `JMEST7735R_init` sends: the port set-up (back light off),
   * the hardware reset, then the script section by section.
   */
  function InitTrace(): seq<Event>
  {
    PortInitEvents + HardResetEvents + Encode(FrameRateCommands) + Encode(InversionCommands) + Encode(PowerCommands)
    + Encode(GammaCommands) + Encode(DisplayCommands)
  }

  /** The sections, sent one after the other, are the whole script. */
  lemma InitSections()
    ensures InitTrace() == PortInitEvents + HardResetEvents + Encode(InitCommands)
  {
    var a := FrameRateCommands + InversionCommands;
    var b := a + PowerCommands;
    var c := b + GammaCommands;
    EncodeAppend(FrameRateCommands, InversionCommands);
    EncodeAppend(a, PowerCommands);
    EncodeAppend(b, GammaCommands);
    EncodeAppend(c, DisplayCommands);
  }

  /**
   * The power-on sequence, read back, is the seventeen commands in order;
   * its fourteenth selects the 16-bit pixel format.
   */
  lemma InitScript()
    ensures Decode(InitTrace()) == InitCommands
    ensures |InitCommands| == 17 && InitCommands[13] == Command(COLMOD, [IPF_16])
  {
    assert InitCommands[13] == DisplayCommands[1];
    var e := Encode(InitCommands);
    InitSections();
    DecodeEncode(InitCommands);
    assert InitTrace()[5..] == e;
    assert InitTrace()[1..][1..][1..][1..][1..] == e;
  }

  // ---------------------------------------------------------------------
  // Sleep state

  datatype Power = SleepIn | SleepOut

  /** Events that change the controller's sleep state. */
  predicate PowerEvent(e: Event)
  {
    e.Reset? || e == Cmd(SWRESET) || e == Cmd(SLPIN) || e == Cmd(SLPOUT)
  }

  predicate PowerNeutral(ev: seq<Event>)
  {
    forall k :: 0 <= k < |ev| ==> !PowerEvent(ev[k])
  }

  /**
   * The sleep state after `ev`, by the last event that sets it: SLPOUT
   * wakes the controller; SLPIN, a software reset or the reset line put it
   * to sleep, which is also its state at power-on.
   */
  function PowerOf(ev: seq<Event>): Power
  {
    if ev == [] then SleepIn
    else
      var e := ev[|ev| - 1];
      if e == Cmd(SLPOUT) then SleepOut
      else if PowerEvent(e) then SleepIn
      else PowerOf(ev[..|ev| - 1])
  }

  /** Appending events that do not touch the sleep state keeps it. */
  lemma {:induction false} PowerNeutralKeeps(t: seq<Event>, u: seq<Event>)
    requires PowerNeutral(u)
    ensures PowerOf(t + u) == PowerOf(t)
    decreases |u|
  {
    if u == [] {
      assert t + u == t;
    } else {
      var u' := u[..|u| - 1];
      assert (t + u)[..|t + u| - 1] == t + u';
      assert (t + u)[|t + u| - 1] == u[|u| - 1];
      assert !PowerEvent(u[|u| - 1]);
      assert PowerNeutral(u');
      PowerNeutralKeeps(t, u');
    }
  }

  lemma PowerNeutralAppend(a: seq<Event>, b: seq<Event>)
    requires PowerNeutral(a) && PowerNeutral(b)
    ensures PowerNeutral(a + b)
  {
    forall k | 0 <= k < |a + b|
      ensures !PowerEvent((a + b)[k])
    {
      if k >= |a| {
        assert (a + b)[k] == b[k - |a|];
      }
    }
  }

  /** A script that never sends a sleep or reset opcode leaves the sleep state alone. */
  lemma {:induction false} EncodeNeutral(cmds: seq<Command>)
    requires forall i :: 0 <= i < |cmds| ==> cmds[i].op !in {SWRESET, SLPIN, SLPOUT}
    ensures PowerNeutral(Encode(cmds))
    decreases |cmds|
  {
    if cmds != [] {
      EncodeNeutral(cmds[1..]);
      PowerNeutralAppend(CommandEvents(cmds[0]), Encode(cmds[1..]));
    }
  }

  /** The opcodes of the power-on script, none of them SLPOUT, SLPIN or SWRESET. */
  lemma InitOpcodes()
    ensures forall i :: 0 <= i < |InitCommands| ==> InitCommands[i].op !in {SWRESET, SLPIN, SLPOUT}
  {
    forall i | 0 <= i < |InitCommands|
      ensures InitCommands[i].op !in {SWRESET, SLPIN, SLPOUT}
    {
      assert i < 9 || i - 9 < 8;
    }
  }

  /**
   * After `JMEST7735R_init` the controller is still in sleep mode: the
   * script ends a hardware reset and never sends SLPOUT, so nothing is
   * displayed until `JMEST7735R_exitSleep`.
   */
  lemma InitLeavesSleepIn(t: seq<Event>)
    ensures PowerOf(t + InitTrace()) == SleepIn
  {
    InitOpcodes();
    InitSections();
    EncodeNeutral(InitCommands);
    var h := t + PortInitEvents + HardResetEvents;
    assert t + InitTrace() == h + Encode(InitCommands);
    PowerNeutralKeeps(h, Encode(InitCommands));
    assert h[..|h| - 1][|h| - 2] == Reset(false);
  }

  /** `exitSleep` always leaves the controller awake, `enterSleep` always asleep. */
  lemma SleepCommands(t: seq<Event>)
    ensures PowerOf(t + SleepOutEvents) == SleepOut
    ensures PowerOf(t + SleepInEvents) == SleepIn
  {
    var o, i := t + SleepOutEvents, t + SleepInEvents;
    assert o[..|o| - 1][|o| - 2] == Cmd(SLPOUT);
    assert i[..|i| - 1][|i| - 2] == Cmd(SLPIN);
  }

  /**
   * Neither function keeps software state, so calling one twice sends its
   * events twice and ends in the same sleep state as calling it once.
   */
  lemma SleepIdempotent(t: seq<Event>)
    ensures PowerOf(t + SleepOutEvents + SleepOutEvents) == PowerOf(t + SleepOutEvents)
    ensures PowerOf(t + SleepInEvents + SleepInEvents) == PowerOf(t + SleepInEvents)
  {
    SleepCommands(t);
    SleepCommands(t + SleepOutEvents);
    SleepCommands(t + SleepInEvents);
  }

  lemma {:induction false} PixelDataNeutral(cs: seq<Color>)
    ensures PowerNeutral(PixelData(cs))
  {
    forall k | 0 <= k < |PixelData(cs)|
      ensures !PowerEvent(PixelData(cs)[k])
    {
      PixelDataAt(cs, k / 2);
    }
  }

  /** A window and memory write leaves the sleep state as it was. */
  lemma WriteKeepsPower(t: seq<Event>, rect: Rect, cs: seq<Color>)
    ensures PowerOf(t + WriteTrace(rect, cs)) == PowerOf(t)
  {
    PixelDataNeutral(cs);
    PowerNeutralAppend(WindowTrace(rect) + [Cmd(RAMWR)], PixelData(cs));
    PowerNeutralKeeps(t, WriteTrace(rect, cs));
  }
}
