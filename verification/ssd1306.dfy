/** The `pSSD1306` object and what it sends over I2C: single command and
    data bytes, the power-up command sequence, and the framebuffer. Every
    transfer goes to the fixed bus byte 0x78, the 7-bit address 0x3C
    followed by the write direction bit 0 (sections 3.1.4 and 3.1.10 of
    the NXP I2C-bus specification UM10204). */
module Ssd1306 {
  import opened Core
  import opened Framebuffer
  import opened I2c

  /** The address byte every transfer starts with. */
  const DisplayAddress: bv8 := 0x78
  /** First byte of a command transfer. */
  const CommandControl: bv8 := 0x00
  /** First byte of a display-data transfer. */
  const DataControl: bv8 := 0x40

  /** A `pSSD1306` object: the address it was given (unused by every
      transfer), its nominal size, its status and its framebuffer. */
  datatype Display = Display(address: bv8, w: int, h: int, status: Status, fb: Buffer)

  /** `pSSD1306(I2Cx, addr, w, h)`: records the arguments and zero-fills
      the framebuffer, one byte at a time; the status keeps its declared
      default. */
  method Construct(addr: bv8, w: int, h: int) returns (d: Display)
    ensures d.address == addr && d.w == w && d.h == h
    ensures d.status == Err
    ensures forall i | 0 <= i < Size :: d.fb[i] == 0
    ensures forall x, y | OnScreen(x, y) :: !Pixel(d.fb, x, y)
  {
    var fb: seq<bv8> := [];
    var i := 0;
    while i < Size
      invariant 0 <= i <= Size && |fb| == i
      invariant forall k | 0 <= k < i :: fb[k] == 0
    {
      fb := fb + [0x00];
      i := i + 1;
    }
    d := Display(addr, w, h, Err, fb);
    forall x, y | OnScreen(x, y)
      ensures !Pixel(d.fb, x, y)
    {
      OnScreenIsAddressable(x, y);
    }
  }

  /** One byte sent as a two-byte transfer: control byte, then the byte.
      F3 first announces the two bytes to the peripheral. */
  function SendByte(p: BusPlatform, b: Bus, control: bv8, x: bv8): (r: Bus)
    ensures r.dev.io == b.dev.io && r.dev.block == b.dev.block
  {
    var b := if p == F3 then SetNumBytesOp(b, 2) else b;
    var b := StartOp(p, b, DisplayAddress);
    var b := WriteByte(p, b, control as bv32);
    var b := WriteByte(p, b, x as bv32);
    StopOp(p, b)
  }

  /** `write_command_byte(cmd)`. */
  function WriteCommandByte(p: BusPlatform, b: Bus, cmd: bv8): (r: Bus)
    ensures r.dev.io == b.dev.io && r.dev.block == b.dev.block
  {
    SendByte(p, b, CommandControl, cmd)
  }

  /** `write_data_byte(dat)`. */
  function WriteDataByte(p: BusPlatform, b: Bus, dat: bv8): (r: Bus)
    ensures r.dev.io == b.dev.io && r.dev.block == b.dev.block
  {
    SendByte(p, b, DataControl, dat)
  }

  /** A control byte and the byte it introduces. */
  datatype ByteFrame = ByteFrame(control: bv8, value: bv8)

  /** Reads a trace as two-byte transfers to the display: each must be
      START to 0x78, two writes and STOP, on F3 preceded by a byte count of
      2. */
  function ByteFrames(p: BusPlatform, t: seq<BusEvent>): Option<seq<ByteFrame>>
    decreases |t|
  {
    var k := if p == F3 then 1 else 0;
    if |t| == 0 then Some([])
    else if |t| < k + 4 || (p == F3 && t[0] != SetNumBytes(2)) || t[k] != Start(DisplayAddress) ||
            !t[k + 1].Write? || !t[k + 2].Write? || t[k + 3] != Stop then None
    else match ByteFrames(p, t[k + 4..])
      case None => None
      case Some(rest) => Some([ByteFrame(t[k + 1].b, t[k + 2].b)] + rest)
  }

  /** A two-byte transfer appends one frame, bracketed by START and STOP,
      carrying its control byte and its byte; the trace reads back as
      that frame followed by whatever came after. */
  lemma SendByteFrame(p: BusPlatform, b: Bus, control: bv8, x: bv8, t: seq<BusEvent>)
    ensures var r := SendByte(p, b, control, x);
      r.trace == b.trace + Added(b, r) &&
      ByteFrames(p, Added(b, r) + t) ==
        if ByteFrames(p, t).Some? then Some([ByteFrame(control, x)] + ByteFrames(p, t).value) else None
  {
    var r := SendByte(p, b, control, x);
    var pre := if p == F3 then [SetNumBytes(2)] else [];
    LowByteOfByte(control);
    LowByteOfByte(x);
    AddedIs(b, r, pre + [Start(DisplayAddress), Write(control), Write(x), Stop]);
    var k := |pre|;
    assert (Added(b, r) + t)[k + 4..] == t;
  }

  /** `write_command_byte` and `write_data_byte` each send one frame: the
      command control byte 0x00 or the data control byte 0x40, then the
      byte. */
  lemma SingleByteFrames(p: BusPlatform, b: Bus, x: bv8)
    ensures var r := WriteCommandByte(p, b, x);
      r.trace == b.trace + Added(b, r) && ByteFrames(p, Added(b, r)) == Some([ByteFrame(0x00, x)])
    ensures var r := WriteDataByte(p, b, x);
      r.trace == b.trace + Added(b, r) && ByteFrames(p, Added(b, r)) == Some([ByteFrame(0x40, x)])
  {
    OneFrame(p, b, CommandControl, x);
    OneFrame(p, b, DataControl, x);
  }

  lemma OneFrame(p: BusPlatform, b: Bus, control: bv8, x: bv8)
    ensures var r := SendByte(p, b, control, x);
      r.trace == b.trace + Added(b, r) && ByteFrames(p, Added(b, r)) == Some([ByteFrame(control, x)])
  {
    var r := SendByte(p, b, control, x);
    var t: seq<BusEvent> := [];
    assert ByteFrames(p, t) == Some([]);
    SendByteFrame(p, b, control, x, t);
    assert Added(b, r) + t == Added(b, r);
    assert [ByteFrame(control, x)] + [] == [ByteFrame(control, x)];
  }

  lemma ByteFramesNil(p: BusPlatform)
    ensures ByteFrames(p, []) == Some([])
  {
  }

  /** Sends each command of a list with `write_command_byte`, in order. */
  function SendCommands(p: BusPlatform, b: Bus, cmds: seq<bv8>): (r: Bus)
    ensures r.dev.io == b.dev.io && r.dev.block == b.dev.block
    decreases |cmds|
  {
    if |cmds| == 0 then b else SendCommands(p, WriteCommandByte(p, b, cmds[0]), cmds[1..])
  }

  /** The command frames for a list of command bytes. */
  function CommandFrames(cmds: seq<bv8>): (fs: seq<ByteFrame>)
    ensures |fs| == |cmds|
  {
    seq(|cmds|, i requires 0 <= i < |cmds| => ByteFrame(CommandControl, cmds[i]))
  }

  /** Sending a list of commands appends one command frame per byte, in
      order, and nothing else. */
  lemma {:induction false} SendCommandsFrames(p: BusPlatform, b: Bus, cmds: seq<bv8>)
    ensures var r := SendCommands(p, b, cmds);
      r.trace == b.trace + Added(b, r) && ByteFrames(p, Added(b, r)) == Some(CommandFrames(cmds))
    decreases |cmds|
  {
    var r := SendCommands(p, b, cmds);
    hide SendByte, ByteFrames, Added;
    if |cmds| == 0 {
      AddedIs(b, b, []);
      ByteFramesNil(p);
    } else {
      var b1 := WriteCommandByte(p, b, cmds[0]);
      assert b1 == SendByte(p, b, CommandControl, cmds[0]);
      SendCommandsFrames(p, b1, cmds[1..]);
      SendByteFrame(p, b, CommandControl, cmds[0], Added(b1, r));
      AddedIs(b, r, Added(b, b1) + Added(b1, r));
      assert CommandFrames(cmds) == [ByteFrame(CommandControl, cmds[0])] + CommandFrames(cmds[1..]);
    }
  }

  /** The commands `init_display` sends: clock divide, multiplex ratio 64,
      display offset 0, start line 0, charge pump on, horizontal
      addressing, segment remap, reversed COM scan, COM pins, contrast,
      precharge, VCOM detect, display follows RAM, normal (not inverted)
      and display on. */
  const InitCommands: seq<bv8> :=
    [0xD5, 0x80, 0xA8, 0x3F, 0xD3, 0x00, 0x40, 0x8D, 0x14, 0x20, 0x00, 0xA1,
     0xC8, 0xDA, 0x12, 0x81, 0xCF, 0xD9, 0xF1, 0xDB, 0x40, 0xA4, 0xA6, 0xAF]

  /** `init_display`: its 24 `write_command_byte` calls. */
  function InitDisplay(p: BusPlatform, b: Bus): (r: Bus)
    ensures r.dev.io == b.dev.io && r.dev.block == b.dev.block
  {
    SendCommands(p, b, InitCommands)
  }

  /** `init_display` sends exactly 24 command frames, one per command of
      the power-up sequence, in order; it ends with display on (0xAF). */
  lemma InitDisplayFrames(p: BusPlatform, b: Bus)
    ensures var r := InitDisplay(p, b);
      var fs := CommandFrames(InitCommands);
      r.trace == b.trace + Added(b, r) && ByteFrames(p, Added(b, r)) == Some(fs) &&
      |fs| == 24 && fs[0] == ByteFrame(0x00, 0xD5) && fs[23] == ByteFrame(0x00, 0xAF)
  {
    hide SendCommands, ByteFrames, Added;
    SendCommandsFrames(p, b, InitCommands);
  }

  /** The bytes `draw_framebuffer` streams: `(oled_w * oled_h) / 8` in C's
      truncating division. */
  function FrameBytes(w: int, h: int): int
  {
    CDiv(w * h, 8)
  }

  /** The 128x64 panel fills the 1024-byte buffer exactly; in general the
      streamed length is the buffer size exactly when the pixel count is
      8192 to 8199 (so 64x128 or 256x32 would stream it as well). */
  lemma FrameBytesFull(w: int, h: int)
    requires w * h >= 0
    ensures FrameBytes(w, h) == Size <==> 8192 <= w * h < 8200
    ensures FrameBytes(128, 64) == Size
  {
  }

  /** What `draw_framebuffer` needs of the display: the product of the
      sizes is a 32-bit value and the stream stays inside the buffer. */
  predicate StreamFits(d: Display)
  {
    IsInt32(d.w * d.h) && FrameBytes(d.w, d.h) <= Size
  }

  /** What `draw_framebuffer` sends ahead of the stream. */
  function Preamble(p: BusPlatform): seq<BusEvent>
  {
    (if p == F3 then [SetReload(true), SetNumBytes(1)] else []) + [Start(DisplayAddress), Write(DataControl)]
  }

  /** `draw_framebuffer`: START to the display, the data control byte,
      `(oled_w * oled_h) / 8` framebuffer bytes and STOP; F3 first sets
      RELOAD and a byte count of 1 for the control byte. */
  function DrawFramebuffer(p: BusPlatform, b: Bus, d: Display): (r: Bus)
    requires StreamFits(d)
    ensures r.dev.io == b.dev.io && r.dev.block == b.dev.block
  {
    var b := if p == F3 then SetNumBytesOp(SetReloadOp(b, true), 1) else b;
    var b := StartOp(p, b, DisplayAddress);
    var b := WriteByte(p, b, DataControl as bv32);
    var b := Stream(p, b, d.fb, FrameBytes(d.w, d.h));
    StopOp(p, b)
  }

  /** The bytes `draw_framebuffer` streams. */
  function StreamedBytes(d: Display): seq<bv8>
    requires StreamFits(d)
  {
    var n := FrameBytes(d.w, d.h);
    if n > 0 then d.fb[..n] else []
  }

  /** `draw_framebuffer`'s trace: the preamble, then the stream (on F3 in
      chunks of 255 with a last one of 1 to 255, on F1 plain writes), then
      STOP. */
  lemma DrawFramebufferTrace(p: BusPlatform, b: Bus, d: Display)
    requires StreamFits(d)
    ensures var r := DrawFramebuffer(p, b, d);
      var t := Added(b, r);
      var k := |Preamble(p)|;
      r.trace == b.trace + t && k < |t| && t == Preamble(p) + t[k..|t| - 1] + [Stop] &&
      (p == F3 ==> ChunkedAs(t[k..|t| - 1], StreamedBytes(d))) &&
      (p == F1 ==> t[k..|t| - 1] == Writes(StreamedBytes(d)))
  {
    hide SetNumBytesOp, SetReloadOp, StartOp, WriteByte, StopOp, Stream, StreamF3From, ChunkedAs, Writes, Added, StreamsChunked;
    var len := FrameBytes(d.w, d.h);
    var b0 := if p == F3 then SetNumBytesOp(SetReloadOp(b, true), 1) else b;
    var b1 := StartOp(p, b0, DisplayAddress);
    var b2 := WriteByte(p, b1, DataControl as bv32);
    var b3 := Stream(p, b2, d.fb, len);
    var r := StopOp(p, b3);
    LowByteOfByte(DataControl);
    StreamTrace(p, b2, d.fb, len);
    var s := Added(b2, b3);
    if p == F3 {
      assert (if 0 < len then d.fb[0..len] else []) == StreamedBytes(d);
    } else {
      AddedIs(b2, b3, Writes(StreamedBytes(d)));
    }
    AddedIs(b, r, Preamble(p) + s + [Stop]);
    var t := Preamble(p) + s + [Stop];
    assert t[|Preamble(p)|..|t| - 1] == s;
  }

  lemma NoWrites(t: seq<BusEvent>)
    requires forall i | 0 <= i < |t| :: !t[i].Write?
    ensures WrittenBytes(t) == []
  {
  }

  lemma PreambleBytes(p: BusPlatform)
    ensures WrittenBytes(Preamble(p)) == [DataControl]
  {
    var t := Preamble(p);
    var w := [Write(DataControl)];
    assert WrittenBytes(w) == [DataControl] + WrittenBytes(w[1..]);
    assert w[1..] == [];
    assert t == t[..|t| - 1] + w;
    NoWrites(t[..|t| - 1]);
    WrittenBytesConcat(t[..|t| - 1], w);
  }

  /** The bytes of a transfer: the preamble's control byte, the body's
      bytes, nothing from STOP. */
  lemma TransferBytes(p: BusPlatform, s: seq<BusEvent>, bs: seq<bv8>)
    requires WrittenBytes(s) == bs
    ensures WrittenBytes(Preamble(p) + s + [Stop]) == [DataControl] + bs
  {
    hide WrittenBytes, Preamble;
    WrittenBytesConcat(Preamble(p) + s, [Stop]);
    WrittenBytesConcat(Preamble(p), s);
    PreambleBytes(p);
    WrittenBytesSingle(Stop);
  }

  /** Every byte `draw_framebuffer` puts on the bus, on either platform:
      the data control byte and then the streamed framebuffer bytes in
      order. */
  lemma DrawFramebufferBytes(p: BusPlatform, b: Bus, d: Display)
    requires StreamFits(d)
    ensures var r := DrawFramebuffer(p, b, d);
      WrittenBytes(Added(b, r)) == [DataControl] + StreamedBytes(d)
  {
    var r := DrawFramebuffer(p, b, d);
    hide DrawFramebuffer, Added, ChunkedAs, Writes, WrittenBytes, Preamble;
    DrawFramebufferTrace(p, b, d);
    var t := Added(b, r);
    var k := |Preamble(p)|;
    var s := t[k..|t| - 1];
    if p == F3 {
      ChunkedWritten(s, StreamedBytes(d));
    } else {
      WrittenBytesOfWrites(StreamedBytes(d));
    }
    TransferBytes(p, s, StreamedBytes(d));
  }

  /** On the 128x64 panel `draw_framebuffer` streams the whole buffer. */
  lemma FullPanelStreamsBuffer(d: Display)
    requires d.w == 128 && d.h == 64
    ensures StreamFits(d) && StreamedBytes(d) == d.fb
  {
    FrameBytesFull(128, 64);
  }
}
