/** The `pI2C` host driver: construction, `i2c_init`, and the bus
    operations `start`, `write`, `stream` and `stop` (and, on F3, the
    CR2 helpers `set_num_bytes` and `set_reload_flag`). Registers are plain
    32-bit values; every busy-wait is taken to complete, and where it waits
    for hardware to clear a bit, that bit reads clear afterwards. Each bus
    operation appends what it does to a trace of bus events. */
module I2c {
  import opened Core

  /** The I2C blocks a driver object can be constructed for. */
  datatype Block = I2C1 | I2C2

  /** The registers the driver touches: F3 parts use CR1, CR2, TXDR and
      TIMINGR; F1 parts use CR1, CR2, DR and CCR. */
  datatype Regs = Regs(cr1: bv32, cr2: bv32, txdr: bv32, dr: bv32, timingr: bv32, ccr: bv32)

  /** A `pI2C` object: the `pIO` fields, the block it drives (`None` for
      the null pointer of the default constructor) and its registers. */
  datatype I2c = I2c(io: IoCore, block: Option<Block>, regs: Regs)

  /** What a driver call does on the bus. */
  datatype BusEvent = SetReload(on: bool) | SetNumBytes(n: bv8) | Start(addr: bv8) | Write(b: bv8) | Stop

  /** A driver object together with the events emitted so far. */
  datatype Bus = Bus(dev: I2c, trace: seq<BusEvent>)

  // STM32F3 (RM0316) I2C register fields.
  const CR1_PE: bv32 := 0x0000_0001
  const CR1_DNF: bv32 := 0x0000_0F00
  const CR1_ANFOFF: bv32 := 0x0000_1000
  const CR1_SMBHEN: bv32 := 0x0010_0000
  const CR1_SMBDEN: bv32 := 0x0020_0000
  const CR2_SADD: bv32 := 0x0000_03FF
  const CR2_RD_WRN: bv32 := 0x0000_0400
  const CR2_START: bv32 := 0x0000_2000
  const CR2_STOP: bv32 := 0x0000_4000
  const CR2_NACK: bv32 := 0x0000_8000
  const CR2_NBYTES: bv32 := 0x00FF_0000
  const CR2_NBYTES_POS: bv32 := 16
  const CR2_RELOAD: bv32 := 0x0100_0000
  const CR2_AUTOEND: bv32 := 0x0200_0000

  // STM32F1 (RM0008) I2C register fields.
  const F1_CR1_START: bv32 := 0x0000_0100
  const F1_CR1_STOP: bv32 := 0x0000_0200
  const F1_CR1_SWRST: bv32 := 0x0000_8000
  const F1_CR2_FREQ: bv32 := 0x0000_003F
  const F1_CCR_CCR: bv32 := 0x0000_0FFF
  const F1_CCR_FS: bv32 := 0x0000_8000

  /** The byte a 32-bit value puts on the bus: its low eight bits. */
  function LowByte(x: bv32): (b: bv8)
    ensures b as bv32 == x & 0xFF
  {
    (x & 0xFF) as bv8
  }

  /** A count of 0 to 255 as the `uint8_t` it is passed as. */
  function ToByte(k: int): (b: bv8)
    requires 0 <= k <= 255
    ensures b as int == k
    decreases k
  {
    if k == 0 then 0 else ToByte(k - 1) + 1
  }

  lemma SameLowByte(x: bv32, y: bv32)
    requires x & 0xFF == y & 0xFF
    ensures LowByte(x) == LowByte(y)
  {
  }

  lemma LowByteOfByte(b: bv8)
    ensures LowByte(b as bv32) == b
  {
  }

  /** `pI2C(i2c_regs)`: the I2C1 block records its APB1 enable and reset
      bits and is ready to be initialised; any other block is an error. */
  function Construct(block: Block, regs: Regs): (d: I2c)
    ensures d.io.status == Set <==> block == I2C1
    ensures d.io.status == Err <==> block != I2C1
    ensures block == I2C1 ==> d.io.enableReg == Apb1Enr && d.io.enableBit == I2c1En &&
                              d.io.resetReg == Apb1Rstr && d.io.resetBit == I2c1Rst
    ensures block != I2C1 ==> d.io == DefaultIo()
    ensures d.block == Some(block) && d.regs == regs
  {
    if block == I2C1 then I2c(IoCore(Set, Apb1Enr, Apb1Rstr, I2c1En, I2c1Rst), Some(block), regs)
    else I2c(DefaultIo(), Some(block), regs)
  }

  /** `pI2C()`: no block, and the default `pIO` fields. */
  function ConstructDefault(regs: Regs): (d: I2c)
    ensures d.io == DefaultIo() && d.io.status == Err && d.block == None
  {
    I2c(DefaultIo(), None, regs)
  }

  /** The register writes of `i2c_init`, in program order. On F3 they leave
      the peripheral enabled with the analog and digital filters and SMBus
      modes off, touching only CR1, CR2 and TIMINGR; on F1 they leave it
      enabled and out of software reset, with the 36 MHz frequency field
      and the fast-mode clock control value 0x24, touching only CR1, CR2
      and CCR. */
  function InitRegs(p: BusPlatform, r: Regs): (e: Regs)
    ensures p == F3 ==>
      e == r.(cr1 := e.cr1, cr2 := e.cr2, timingr := e.timingr) &&
      e.cr1 & CR1_PE == CR1_PE &&
      e.cr1 & (CR1_DNF | CR1_ANFOFF | CR1_SMBHEN | CR1_SMBDEN) == 0
    ensures p == F1 ==>
      e == r.(cr1 := e.cr1, cr2 := e.cr2, ccr := e.ccr) &&
      e.cr1 & CR1_PE == CR1_PE && e.cr1 & F1_CR1_SWRST == 0 &&
      e.cr2 & F1_CR2_FREQ == 36 &&
      e.ccr & F1_CCR_CCR == 0x24 && e.ccr & F1_CCR_FS == F1_CCR_FS
  {
    if p == F3 then
      var cr1 := r.cr1 & !CR1_PE;
      var cr1 := cr1 & !(CR1_DNF | CR1_ANFOFF | CR1_SMBHEN | CR1_SMBDEN);
      var cr2 := r.cr2 & !(CR2_RD_WRN | CR2_NACK | CR2_RELOAD | CR2_AUTOEND);
      var timingr := r.timingr & 0x0F00_0000;
      var timingr := timingr | 0x5010_0103;
      var cr1 := cr1 | CR1_PE;
      r.(cr1 := cr1, cr2 := cr2, timingr := timingr)
    else
      var cr1 := r.cr1 | F1_CR1_SWRST;
      var cr1 := cr1 & !F1_CR1_SWRST;
      var cr1 := cr1 & !CR1_PE;
      var cr2 := r.cr2 & !F1_CR2_FREQ;
      var cr2 := cr2 | 36;
      var ccr := r.ccr & !F1_CCR_CCR;
      var ccr := ccr | (F1_CCR_FS | 0x24);
      var cr1 := cr1 | CR1_PE;
      r.(cr1 := cr1, cr2 := cr2, ccr := ccr)
  }

  /** `i2c_init`: nothing at all for an object in error, otherwise the
      register set-up followed by status Run. */
  function Init(p: BusPlatform, d: I2c): (e: I2c)
    ensures d.io.status == Err ==> e == d
    ensures d.io.status != Err ==> e.io == d.io.(status := Run) && e.block == d.block && e.regs == InitRegs(p, d.regs)
  {
    if d.io.status == Err then d
    else d.(io := d.io.(status := Run), regs := InitRegs(p, d.regs))
  }

  /** `i2c_init` on F3 clears the read, NACK, RELOAD and AUTOEND bits of
      CR2 and keeps the rest of it. */
  lemma InitF3Cr2(r: Regs)
    ensures var e := InitRegs(F3, r);
      e.cr2 & (CR2_RD_WRN | CR2_NACK | CR2_RELOAD | CR2_AUTOEND) == 0 &&
      e.cr2 & !(CR2_RD_WRN | CR2_NACK | CR2_RELOAD | CR2_AUTOEND) == r.cr2 & !(CR2_RD_WRN | CR2_NACK | CR2_RELOAD | CR2_AUTOEND)
  {
  }

  /** `i2c_init` on F3 puts the timing value 0x50100103 in every TIMINGR
      bit outside the reserved bits 24-27, which it keeps. */
  lemma InitF3Timing(r: Regs)
    ensures var e := InitRegs(F3, r);
      e.timingr & 0xF0FF_FFFF == 0x5010_0103 && e.timingr & 0x0F00_0000 == r.timingr & 0x0F00_0000
  {
  }

  /** `read` on F1: not implemented there, it always returns 0. */
  function ReadF1(d: I2c): (v: bv32)
    ensures v == 0
  {
    0
  }

  /** `write(dat)`: F3 ORs the value into TXDR keeping its upper 24 bits,
      F1 puts `(uint8_t)dat` into DR keeping bits 8-15. The byte sent is
      the value's low byte. */
  function WriteByte(p: BusPlatform, b: Bus, dat: bv32): (r: Bus)
    ensures r.trace == b.trace + [Write(LowByte(dat))]
    ensures r.dev.io == b.dev.io && r.dev.block == b.dev.block
  {
    var regs := b.dev.regs;
    var regs :=
      if p == F3 then regs.(txdr := (regs.txdr & 0xFFFF_FF00) | dat)
      else regs.(dr := (regs.dr & 0xFF00) | (dat & 0xFF));
    Bus(b.dev.(regs := regs), b.trace + [Write(LowByte(dat))])
  }

  /** The data register `write` fills on each platform. */
  function TxReg(p: BusPlatform, r: Regs): bv32
  {
    if p == F3 then r.txdr else r.dr
  }

  /** After `write` on F3 the low byte of TXDR is the value's and no other
      register changes; the upper 24 bits survive when the value fits a
      byte, and a wider value ORs its upper bits into them. */
  lemma WriteF3Effect(b: Bus, dat: bv32)
    ensures var r := WriteByte(F3, b, dat).dev.regs;
      r == b.dev.regs.(txdr := r.txdr) && r.txdr & 0xFF == dat & 0xFF &&
      r.txdr & 0xFFFF_FF00 == (b.dev.regs.txdr | dat) & 0xFFFF_FF00
  {
  }

  lemma WriteF3ByteKeepsUpper(b: Bus, dat: bv32)
    requires dat < 256
    ensures WriteByte(F3, b, dat).dev.regs.txdr & 0xFFFF_FF00 == b.dev.regs.txdr & 0xFFFF_FF00
  {
  }

  /** After `write` on F1 the low byte of DR is the value's low byte, bits
      8-15 are kept, the upper half is clear and no other register changes. */
  lemma WriteF1Effect(b: Bus, dat: bv32)
    ensures var r := WriteByte(F1, b, dat).dev.regs;
      r == b.dev.regs.(dr := r.dr) && r.dr & 0xFF == dat & 0xFF &&
      r.dr & 0xFF00 == b.dev.regs.dr & 0xFF00 && r.dr & 0xFFFF_0000 == 0
  {
    var d, x := b.dev.regs.dr, dat & 0xFF;
    ByteInto(d, x);
  }

  /** `(d & 0xFF00) | x` for a byte x. */
  lemma ByteInto(d: bv32, x: bv32)
    requires x & 0xFFFF_FF00 == 0
    ensures ((d & 0xFF00) | x) & 0xFF == x
    ensures ((d & 0xFF00) | x) & 0xFF00 == d & 0xFF00
    ensures ((d & 0xFF00) | x) & 0xFFFF_0000 == 0
  {
  }

  /** `set_num_bytes(n)` (F3): the NBYTES field of CR2 becomes n. */
  function SetNumBytesOp(b: Bus, n: bv8): (r: Bus)
    ensures r.trace == b.trace + [SetNumBytes(n)]
    ensures r.dev.io == b.dev.io && r.dev.block == b.dev.block
  {
    var cr2 := (b.dev.regs.cr2 & !CR2_NBYTES) | (n as bv32 << CR2_NBYTES_POS);
    Bus(b.dev.(regs := b.dev.regs.(cr2 := cr2)), b.trace + [SetNumBytes(n)])
  }

  /** `set_reload_flag(on)` (F3): the RELOAD bit of CR2 becomes `on`. */
  function SetReloadOp(b: Bus, on: bool): (r: Bus)
    ensures r.trace == b.trace + [SetReload(on)]
    ensures r.dev.io == b.dev.io && r.dev.block == b.dev.block
  {
    var cr2 := if on then b.dev.regs.cr2 | CR2_RELOAD else b.dev.regs.cr2 & !CR2_RELOAD;
    Bus(b.dev.(regs := b.dev.regs.(cr2 := cr2)), b.trace + [SetReload(on)])
  }

  /** `set_num_bytes(n)` changes only the NBYTES field of CR2, which then
      reads back n. */
  lemma NumBytesEffect(b: Bus, n: bv8)
    ensures var r := SetNumBytesOp(b, n).dev.regs;
      r == b.dev.regs.(cr2 := r.cr2) &&
      (r.cr2 & CR2_NBYTES) >> CR2_NBYTES_POS == n as bv32 &&
      r.cr2 & !CR2_NBYTES == b.dev.regs.cr2 & !CR2_NBYTES
  {
  }

  /** `set_reload_flag(on)` changes only the RELOAD bit of CR2, which then
      reads back the flag. */
  lemma ReloadEffect(b: Bus, on: bool)
    ensures var r := SetReloadOp(b, on).dev.regs;
      r == b.dev.regs.(cr2 := r.cr2) &&
      (r.cr2 & CR2_RELOAD != 0 <==> on) &&
      r.cr2 & !CR2_RELOAD == b.dev.regs.cr2 & !CR2_RELOAD
  {
  }

  /** `start(address)`: on F3 the address goes into the SADD field of CR2
      and START is requested until hardware clears it; on F1 START is set in
      CR1 and the address is written to DR. */
  function StartOp(p: BusPlatform, b: Bus, addr: bv8): (r: Bus)
    ensures r.trace == b.trace + [Start(addr)]
    ensures r.dev.io == b.dev.io && r.dev.block == b.dev.block
  {
    var regs := b.dev.regs;
    var regs :=
      if p == F3 then
        var cr2 := regs.cr2 & !CR2_SADD;
        var cr2 := cr2 | addr as bv32;
        var cr2 := cr2 | CR2_START;
        regs.(cr2 := cr2 & !CR2_START)
      else
        regs.(cr1 := regs.cr1 | F1_CR1_START, dr := addr as bv32);
    Bus(b.dev.(regs := regs), b.trace + [Start(addr)])
  }

  /** `stop()`: on F3 STOP is requested until hardware clears it and then
      RELOAD is cleared; on F1 STOP is set in CR1. The trailing
      `set_reload_flag(0)` on F3 is part of the one `Stop` event: its
      register effect is the RELOAD clear that `StopEffect` states, and no
      separate `SetReload(false)` event is recorded for it. */
  function StopOp(p: BusPlatform, b: Bus): (r: Bus)
    ensures r.trace == b.trace + [Stop]
    ensures r.dev.io == b.dev.io && r.dev.block == b.dev.block
  {
    var regs := b.dev.regs;
    var regs :=
      if p == F3 then
        var cr2 := regs.cr2 | CR2_STOP;
        regs.(cr2 := cr2 & !CR2_STOP & !CR2_RELOAD)
      else
        regs.(cr1 := regs.cr1 | F1_CR1_STOP);
    Bus(b.dev.(regs := regs), b.trace + [Stop])
  }

  /** After `start` on F3 the SADD field of CR2 holds the address, START
      reads clear, and the rest of CR2 and every other register is as
      before. */
  lemma StartF3Effect(b: Bus, addr: bv8)
    ensures var r := StartOp(F3, b, addr).dev.regs;
      r == b.dev.regs.(cr2 := r.cr2) && r.cr2 & CR2_SADD == addr as bv32 && r.cr2 & CR2_START == 0 &&
      r.cr2 & !(CR2_SADD | CR2_START) == b.dev.regs.cr2 & !(CR2_SADD | CR2_START)
  {
  }

  /** After `start` on F1 START is set in CR1 and DR holds the address. */
  lemma StartF1Effect(b: Bus, addr: bv8)
    ensures var r := StartOp(F1, b, addr).dev.regs;
      r == b.dev.regs.(cr1 := r.cr1, dr := r.dr) && r.dr == addr as bv32 && r.cr1 & F1_CR1_START != 0
  {
  }

  /** After `stop` on F3 the STOP and RELOAD bits of CR2 read clear and the
      rest of CR2 and every other register is as before; on F1 STOP is set
      in CR1. */
  lemma StopEffect(b: Bus)
    ensures var r := StopOp(F3, b).dev.regs;
      r == b.dev.regs.(cr2 := r.cr2) && r.cr2 & (CR2_STOP | CR2_RELOAD) == 0 &&
      r.cr2 & !(CR2_STOP | CR2_RELOAD) == b.dev.regs.cr2 & !(CR2_STOP | CR2_RELOAD)
    ensures var r := StopOp(F1, b).dev.regs;
      r == b.dev.regs.(cr1 := r.cr1) && r.cr1 & F1_CR1_STOP != 0
  {
  }

  /** `n` calls of `write(buf[pos])`, `pos` stepping by one. */
  function WriteRun(p: BusPlatform, b: Bus, buf: seq<bv8>, pos: int, n: int): (r: Bus)
    requires 0 <= pos && 0 <= n && pos + n <= |buf|
    ensures r.dev.io == b.dev.io && r.dev.block == b.dev.block
    decreases n
  {
    if n == 0 then b else WriteRun(p, WriteByte(p, b, buf[pos] as bv32), buf, pos + 1, n - 1)
  }

  /** The write events of a sequence of bytes. */
  function Writes(bs: seq<bv8>): (t: seq<BusEvent>)
    ensures |t| == |bs|
  {
    seq(|bs|, i requires 0 <= i < |bs| => Write(bs[i]))
  }

  lemma WritesConcat(a: seq<bv8>, c: seq<bv8>)
    ensures Writes(a + c) == Writes(a) + Writes(c)
  {
  }

  /** A run of writes sends exactly the bytes `buf[pos..pos+n]`, and leaves
      the last of them in the data register. */
  lemma {:induction false} WriteRunTrace(p: BusPlatform, b: Bus, buf: seq<bv8>, pos: int, n: int)
    requires 0 <= pos && 0 <= n && pos + n <= |buf|
    ensures WriteRun(p, b, buf, pos, n).trace == b.trace + Writes(buf[pos..pos + n])
    decreases n
  {
    if n > 0 {
      var b' := WriteByte(p, b, buf[pos] as bv32);
      LowByteOfByte(buf[pos]);
      WriteRunTrace(p, b', buf, pos + 1, n - 1);
      WritesConcat([buf[pos]], buf[pos + 1..pos + n]);
      assert [buf[pos]] + buf[pos + 1..pos + n] == buf[pos..pos + n];
    }
  }

  lemma WriteRunStep(p: BusPlatform, b: Bus, buf: seq<bv8>, pos: int, n: int)
    requires 0 <= pos && 0 < n && pos + n <= |buf|
    ensures var b' := WriteByte(p, b, buf[pos] as bv32);
      WriteRun(p, b, buf, pos, n) == if n == 1 then b' else WriteRun(p, b', buf, pos + 1, n - 1)
  {
  }

  /** Writing a byte leaves it in the low byte of the data register. */
  lemma WriteByteLow(p: BusPlatform, b: Bus, x: bv8)
    ensures LowByte(TxReg(p, WriteByte(p, b, x as bv32).dev.regs)) == x
  {
    if p == F3 { WriteF3Effect(b, x as bv32); } else { WriteF1Effect(b, x as bv32); }
    hide WriteByte;
    SameLowByte(TxReg(p, WriteByte(p, b, x as bv32).dev.regs), x as bv32);
    LowByteOfByte(x);
  }

  /** A run of writes leaves its last byte in the data register. */
  lemma {:induction false} WriteRunLast(p: BusPlatform, b: Bus, buf: seq<bv8>, pos: int, n: int)
    requires 0 <= pos && 0 < n && pos + n <= |buf|
    ensures LowByte(TxReg(p, WriteRun(p, b, buf, pos, n).dev.regs)) == buf[pos + n - 1]
    decreases n
  {
    var b' := WriteByte(p, b, buf[pos] as bv32);
    WriteRunStep(p, b, buf, pos, n);
    hide WriteRun;
    if n == 1 {
      WriteByteLow(p, b, buf[pos]);
    } else {
      WriteRunLast(p, b', buf, pos + 1, n - 1);
    }
  }

  /** The F3 loop of `stream` from `pos` on: whole 255-byte chunks while
      more than 255 bytes remain, then one chunk of what is left. */
  function StreamF3From(b: Bus, buf: seq<bv8>, pos: int, len: int): (r: Bus)
    requires 0 <= pos && len <= |buf|
    ensures r.dev.io == b.dev.io && r.dev.block == b.dev.block
    decreases len - pos
  {
    if len - pos > 255 then
      StreamF3From(WriteRun(F3, SetNumBytesOp(b, 255), buf, pos, 255), buf, pos + 255, len)
    else if pos < len then
      WriteRun(F3, SetNumBytesOp(b, ToByte(len - pos)), buf, pos, len - pos)
    else b
  }

  /** `stream(buf, len)`: chunked on F3, byte by byte on F1. */
  function Stream(p: BusPlatform, b: Bus, buf: seq<bv8>, len: int): (r: Bus)
    requires len <= |buf|
    ensures r.dev.io == b.dev.io && r.dev.block == b.dev.block
  {
    if p == F3 then StreamF3From(b, buf, 0, len)
    else if len > 0 then WriteRun(F1, b, buf, 0, len)
    else b
  }

  /** The bytes of the first n events of a trace, provided they are all
      writes. */
  function TakeWrites(t: seq<BusEvent>, n: nat): (bs: Option<seq<bv8>>)
    ensures bs.Some? ==> |bs.value| == n <= |t|
    decreases n
  {
    if n == 0 then Some([])
    else if |t| == 0 || !t[0].Write? then None
    else match TakeWrites(t[1..], n - 1)
      case None => None
      case Some(rest) => Some([t[0].b] + rest)
  }

  /** Reads a trace as framed transfers: each `SetNumBytes(n)` must be
      followed by exactly n writes, whose bytes form one frame. */
  function Frames(t: seq<BusEvent>): (fs: Option<seq<seq<bv8>>>)
    decreases |t|
  {
    if |t| == 0 then Some([])
    else if !t[0].SetNumBytes? then None
    else match TakeWrites(t[1..], t[0].n as nat)
      case None => None
      case Some(frame) =>
        match Frames(t[1 + |frame|..])
        case None => None
        case Some(rest) => Some([frame] + rest)
  }

  /** The bytes of a list of frames, in order. */
  function Flatten(fs: seq<seq<bv8>>): seq<bv8>
  {
    if |fs| == 0 then [] else fs[0] + Flatten(fs[1..])
  }

  /** A trace whose frames carry the bytes `bs` in chunks of 255, the last
      chunk holding 1 to 255 bytes; no frame at all when `bs` is empty. */
  predicate ChunkedAs(t: seq<BusEvent>, bs: seq<bv8>)
  {
    Frames(t).Some? &&
    var fs := Frames(t).value;
    Flatten(fs) == bs &&
    (forall i | 0 <= i < |fs| - 1 :: |fs[i]| == 255) &&
    (|fs| > 0 ==> 1 <= |fs[|fs| - 1]| <= 255)
  }

  lemma {:induction false} TakeWritesOfWrites(bs: seq<bv8>, t: seq<BusEvent>)
    ensures TakeWrites(Writes(bs) + t, |bs|) == Some(bs)
    decreases |bs|
  {
    if |bs| > 0 {
      var u := Writes(bs) + t;
      assert u[1..] == Writes(bs[1..]) + t;
      TakeWritesOfWrites(bs[1..], t);
      assert [bs[0]] + bs[1..] == bs;
    }
  }

  /** A frame announced by `SetNumBytes` and then written out parses back
      as that frame, followed by whatever the rest parses as. */
  lemma FramesCons(bs: seq<bv8>, t: seq<BusEvent>)
    requires 1 <= |bs| <= 255
    ensures Frames([SetNumBytes(ToByte(|bs|))] + Writes(bs) + t) ==
            if Frames(t).Some? then Some([bs] + Frames(t).value) else None
  {
    var u := [SetNumBytes(ToByte(|bs|))] + Writes(bs) + t;
    hide Writes, TakeWrites;
    assert u[1..] == Writes(bs) + t;
    TakeWritesOfWrites(bs, t);
    assert u[1 + |bs|..] == t;
  }

  /** One whole chunk of 255 bytes in front of a trace that carries the
      rest of the bytes. */
  lemma ChunkedCons(chunk: seq<bv8>, rest: seq<bv8>, t: seq<BusEvent>)
    requires |chunk| == 255 && |rest| > 0 && ChunkedAs(t, rest)
    ensures ChunkedAs([SetNumBytes(255)] + Writes(chunk) + t, chunk + rest)
  {
    FramesCons(chunk, t);
    var fs := Frames(t).value;
    var gs := [chunk] + fs;
    assert gs[1..] == fs;
    assert |fs| > 0;
  }

  lemma FramesNil()
    ensures Frames([]) == Some([])
  {
  }

  lemma FramesLast(chunk: seq<bv8>)
    requires 1 <= |chunk| <= 255
    ensures Frames([SetNumBytes(ToByte(|chunk|))] + Writes(chunk)) == Some([chunk])
  {
    var t := [SetNumBytes(ToByte(|chunk|))] + Writes(chunk);
    hide Writes, Frames;
    FramesCons(chunk, []);
    assert t + [] == t;
    FramesNil();
    assert [chunk] + [] == [chunk];
  }

  /** The last chunk, of 1 to 255 bytes. */
  lemma ChunkedLast(chunk: seq<bv8>)
    requires 1 <= |chunk| <= 255
    ensures ChunkedAs([SetNumBytes(ToByte(|chunk|))] + Writes(chunk), chunk)
  {
    hide Writes, Frames;
    FramesLast(chunk);
    assert Flatten([chunk]) == chunk + Flatten([]);
  }

  /** The events a bus operation appended to the trace. */
  function Added(b: Bus, r: Bus): seq<BusEvent>
  {
    if |b.trace| <= |r.trace| then r.trace[|b.trace|..] else []
  }

  lemma AddedIs(b: Bus, r: Bus, e: seq<BusEvent>)
    requires r.trace == b.trace + e
    ensures Added(b, r) == e
  {
  }

  /** What the F3 stream appends from `pos` on. */
  predicate StreamsChunked(b: Bus, buf: seq<bv8>, pos: int, len: int)
    requires 0 <= pos && len <= |buf|
  {
    var r := StreamF3From(b, buf, pos, len);
    r.trace == b.trace + Added(b, r) &&
    ChunkedAs(Added(b, r), if pos < len then buf[pos..len] else [])
  }

  /** One step of the F3 loop of `stream`. */
  lemma StreamF3FromStep(b: Bus, buf: seq<bv8>, pos: int, len: int)
    requires 0 <= pos && len <= |buf|
    ensures StreamF3From(b, buf, pos, len) ==
      if len - pos > 255 then StreamF3From(WriteRun(F3, SetNumBytesOp(b, 255), buf, pos, 255), buf, pos + 255, len)
      else if pos < len then WriteRun(F3, SetNumBytesOp(b, ToByte(len - pos)), buf, pos, len - pos)
      else b
  {
  }

  lemma ChunkedNil()
    ensures ChunkedAs([], [])
  {
  }

  /** A whole chunk of 255 bytes followed by the rest of the stream. */
  lemma StreamF3Whole(b: Bus, buf: seq<bv8>, pos: int, len: int)
    requires 0 <= pos && len <= |buf| && len - pos > 255
    requires StreamsChunked(WriteRun(F3, SetNumBytesOp(b, 255), buf, pos, 255), buf, pos + 255, len)
    ensures StreamsChunked(b, buf, pos, len)
  {
    hide ChunkedAs, StreamF3From, WriteRun, Writes, SetNumBytesOp, Added, Frames, Flatten;
    var b1 := SetNumBytesOp(b, 255);
    var b2 := WriteRun(F3, b1, buf, pos, 255);
    WriteRunTrace(F3, b1, buf, pos, 255);
    var r := StreamF3From(b2, buf, pos + 255, len);
    StreamF3FromStep(b, buf, pos, len);
    var chunk := buf[pos..pos + 255];
    ChunkedCons(chunk, buf[pos + 255..len], Added(b2, r));
    AddedIs(b, r, [SetNumBytes(255)] + Writes(chunk) + Added(b2, r));
    assert buf[pos..len] == chunk + buf[pos + 255..len];
  }

  /** The last chunk, when 1 to 255 bytes remain. */
  lemma StreamF3Last(b: Bus, buf: seq<bv8>, pos: int, len: int)
    requires 0 <= pos < len <= |buf| && len - pos <= 255
    ensures StreamsChunked(b, buf, pos, len)
  {
    hide ChunkedAs, StreamF3From, WriteRun, Writes, SetNumBytesOp, Added, Frames, Flatten, ToByte, WriteByte, LowByte, TxReg;
    var n := len - pos;
    var b1 := SetNumBytesOp(b, ToByte(n));
    WriteRunTrace(F3, b1, buf, pos, n);
    var r := WriteRun(F3, b1, buf, pos, n);
    StreamF3FromStep(b, buf, pos, len);
    var chunk := buf[pos..len];
    assert |chunk| == n && pos + n == len;
    assert r.trace == b1.trace + Writes(chunk);
    assert r.trace == b.trace + ([SetNumBytes(ToByte(|chunk|))] + Writes(chunk));
    AddedIs(b, r, [SetNumBytes(ToByte(|chunk|))] + Writes(chunk));
    ChunkedLast(chunk);
  }

  /** The F3 stream from `pos` on appends to the trace, and what it appends
      carries exactly the bytes `buf[pos..len]` in chunks of 255 with a last
      chunk of 1 to 255, and nothing at all when no byte is left. */
  lemma {:induction false} StreamF3Chunks(b: Bus, buf: seq<bv8>, pos: int, len: int)
    requires 0 <= pos && len <= |buf|
    ensures StreamsChunked(b, buf, pos, len)
    decreases len - pos
  {
    if len - pos > 255 {
      StreamF3Chunks(WriteRun(F3, SetNumBytesOp(b, 255), buf, pos, 255), buf, pos + 255, len);
      StreamF3Whole(b, buf, pos, len);
    } else if pos < len {
      StreamF3Last(b, buf, pos, len);
    } else {
      hide ChunkedAs, StreamF3From, Frames, Flatten;
      StreamF3FromStep(b, buf, pos, len);
      AddedIs(b, b, []);
      ChunkedNil();
    }
  }

  lemma {:induction false} FlattenLength(fs: seq<seq<bv8>>)
    ensures |Flatten(fs)| == if |fs| == 0 then 0 else |Flatten(fs[..|fs| - 1])| + |fs[|fs| - 1]|
    decreases |fs|
  {
    if |fs| > 1 {
      FlattenLength(fs[1..]);
      assert fs[1..][..|fs| - 2] == fs[..|fs| - 1][1..];
    }
  }

  /** The chunking fixes the frame sizes: for n bytes there are
      `(n + 254) / 255` frames and the last holds what the whole ones
      leave. */
  lemma {:induction false} FrameCount(t: seq<BusEvent>, bs: seq<bv8>)
    requires ChunkedAs(t, bs)
    ensures var fs := Frames(t).value;
      |fs| == (|bs| + 254) / 255 &&
      (|fs| > 0 ==> |fs[|fs| - 1]| == |bs| - 255 * (|fs| - 1))
  {
    var fs := Frames(t).value;
    FrameSizes(fs, |bs|);
  }

  lemma {:induction false} FrameSizes(fs: seq<seq<bv8>>, n: int)
    requires |Flatten(fs)| == n
    requires forall i | 0 <= i < |fs| - 1 :: |fs[i]| == 255
    requires |fs| > 0 ==> 1 <= |fs[|fs| - 1]| <= 255
    ensures |fs| == (n + 254) / 255
    ensures |fs| > 0 ==> |fs[|fs| - 1]| == n - 255 * (|fs| - 1)
    decreases |fs|
  {
    if |fs| > 1 {
      var rest := fs[1..];
      assert |Flatten(fs)| == |fs[0]| + |Flatten(rest)|;
      assert forall i | 0 <= i < |rest| - 1 :: |rest[i]| == 255 by {
        forall i | 0 <= i < |rest| - 1 ensures |rest[i]| == 255 { assert rest[i] == fs[i + 1]; }
      }
      FrameSizes(rest, n - 255);
    } else if |fs| == 1 {
      assert Flatten(fs) == fs[0] + Flatten([]);
    }
  }

  /** `stream` on F1 writes the first `len` bytes one by one and announces
      no byte count; on F3 it frames them in chunks (`StreamF3Chunks`). */
  lemma StreamTrace(p: BusPlatform, b: Bus, buf: seq<bv8>, len: int)
    requires len <= |buf|
    ensures p == F1 ==> Stream(p, b, buf, len).trace == b.trace + (if len > 0 then Writes(buf[..len]) else [])
    ensures p == F3 ==> var r := Stream(p, b, buf, len);
      r.trace == b.trace + Added(b, r) && ChunkedAs(Added(b, r), if 0 < len then buf[0..len] else [])
  {
    if p == F1 && len > 0 {
      WriteRunTrace(F1, b, buf, 0, len);
    }
    if p == F3 {
      StreamF3Chunks(b, buf, 0, len);
    }
  }

  /** The sizes of a trace's frames, when it parses as frames. */
  function FrameSizesOf(t: seq<BusEvent>): Option<seq<int>>
  {
    match Frames(t)
    case None => None
    case Some(fs) => Some(seq(|fs|, i requires 0 <= i < |fs| => |fs[i]|))
  }

  /** The frame sizes for n bytes: `(n + 254) / 255` frames, all of 255
      but the last, which holds the remainder. */
  function ChunkPlan(n: nat): (sizes: seq<int>)
  {
    var k := (n + 254) / 255;
    seq(k, i requires 0 <= i < k => if i < k - 1 then 255 else n - 255 * (k - 1))
  }

  /** A chunked trace has exactly the planned frame sizes. */
  lemma FrameSizesPlan(t: seq<BusEvent>, bs: seq<bv8>)
    requires ChunkedAs(t, bs)
    ensures FrameSizesOf(t) == Some(ChunkPlan(|bs|))
  {
    FrameCount(t, bs);
    var fs := Frames(t).value;
    var s := seq(|fs|, i requires 0 <= i < |fs| => |fs[i]|);
    var p := ChunkPlan(|bs|);
    assert |s| == |p|;
    forall i | 0 <= i < |s|
      ensures s[i] == p[i]
    {
    }
    assert s == p;
    assert FrameSizesOf(t) == Some(s);
  }

  /** The F3 stream of `len` bytes carries `buf[..len]`, chunked. */
  lemma StreamF3Carries(b: Bus, buf: seq<bv8>, len: int)
    requires 0 < len <= |buf|
    ensures ChunkedAs(Added(b, Stream(F3, b, buf, len)), buf[..len])
  {
    StreamTrace(F3, b, buf, len);
    assert buf[0..len] == buf[..len];
  }

  /** Streaming 300 bytes on F3 sends a frame of 255 and one of 45. */
  lemma Stream300(b: Bus, buf: seq<bv8>)
    requires |buf| >= 300
    ensures var r := Stream(F3, b, buf, 300); FrameSizesOf(Added(b, r)) == Some([255, 45])
  {
    hide Stream, StreamF3From, FrameSizesOf, Frames, Added, ChunkedAs;
    StreamF3Carries(b, buf, 300);
    FrameSizesPlan(Added(b, Stream(F3, b, buf, 300)), buf[..300]);
    assert ChunkPlan(300) == [255, 45];
  }

  /** Streaming a whole 1024-byte framebuffer on F3 sends four frames of
      255 and a last one of 4. */
  lemma Stream1024(b: Bus, buf: seq<bv8>)
    requires |buf| >= 1024
    ensures var r := Stream(F3, b, buf, 1024); FrameSizesOf(Added(b, r)) == Some([255, 255, 255, 255, 4])
  {
    hide Stream, StreamF3From, FrameSizesOf, Frames, Added, ChunkedAs;
    StreamF3Carries(b, buf, 1024);
    FrameSizesPlan(Added(b, Stream(F3, b, buf, 1024)), buf[..1024]);
    assert ChunkPlan(1024) == [255, 255, 255, 255, 4];
  }

  /** The bytes a trace puts on the bus: its write events, in order. */
  function WrittenBytes(t: seq<BusEvent>): seq<bv8>
  {
    if |t| == 0 then []
    else (if t[0].Write? then [t[0].b] else []) + WrittenBytes(t[1..])
  }

  lemma {:induction false} WrittenBytesConcat(t: seq<BusEvent>, u: seq<BusEvent>)
    ensures WrittenBytes(t + u) == WrittenBytes(t) + WrittenBytes(u)
    decreases |t|
  {
    if |t| > 0 {
      var h := if t[0].Write? then [t[0].b] else [];
      assert (t + u)[0] == t[0];
      assert (t + u)[1..] == t[1..] + u;
      WrittenBytesConcat(t[1..], u);
      assert WrittenBytes(t + u) == h + WrittenBytes(t[1..] + u);
      assert WrittenBytes(t) == h + WrittenBytes(t[1..]);
    } else {
      assert t + u == u;
    }
  }

  lemma {:induction false} WrittenBytesOfWrites(bs: seq<bv8>)
    ensures WrittenBytes(Writes(bs)) == bs
    decreases |bs|
  {
    if |bs| > 0 {
      assert Writes(bs)[1..] == Writes(bs[1..]);
      WrittenBytesOfWrites(bs[1..]);
    }
  }

  /** Taking n writes off the front of a trace reads back exactly the
      events there. */
  lemma {:induction false} TakeWritesPrefix(t: seq<BusEvent>, n: nat)
    requires TakeWrites(t, n).Some?
    ensures t[..n] == Writes(TakeWrites(t, n).value)
    decreases n
  {
    if n > 0 {
      TakeWritesPrefix(t[1..], n - 1);
      assert t[1..][..n - 1] == t[1..n];
    }
  }

  /** The bytes of a framed trace are the bytes of its frames. */
  lemma {:induction false} FramesWritten(t: seq<BusEvent>)
    requires Frames(t).Some?
    ensures WrittenBytes(t) == Flatten(Frames(t).value)
    decreases |t|
  {
    if |t| > 0 {
      var n := t[0].n as nat;
      FramesWritten(t[1 + n..]);
      FramesWrittenStep(t);
    }
  }

  /** How a framed trace starts: a byte count, that many writes, and a
      framed rest. */
  lemma FramesHead(t: seq<BusEvent>)
    requires Frames(t).Some? && |t| > 0
    ensures t[0].SetNumBytes? && 1 + t[0].n as nat <= |t|
    ensures TakeWrites(t[1..], t[0].n as nat).Some? && Frames(t[1 + t[0].n as nat..]).Some?
    ensures Frames(t).value == [TakeWrites(t[1..], t[0].n as nat).value] + Frames(t[1 + t[0].n as nat..]).value
  {
  }

  lemma WrittenBytesSingle(e: BusEvent)
    ensures WrittenBytes([e]) == if e.Write? then [e.b] else []
  {
  }

  lemma WrittenBytesSplit(t: seq<BusEvent>, i: int)
    requires 0 <= i <= |t|
    ensures WrittenBytes(t) == WrittenBytes(t[..i]) + WrittenBytes(t[i..])
  {
    WrittenBytesConcat(t[..i], t[i..]);
    assert t[..i] + t[i..] == t;
  }

  /** One frame in front of a framed trace whose bytes are known. */
  lemma FramesWrittenStep(t: seq<BusEvent>)
    requires Frames(t).Some? && |t| > 0
    requires var rest := t[1 + t[0].n as nat..];
      Frames(rest).Some? && WrittenBytes(rest) == Flatten(Frames(rest).value)
    ensures WrittenBytes(t) == Flatten(Frames(t).value)
  {
    hide Frames, TakeWrites, WrittenBytes, Writes;
    FramesHead(t);
    var n := t[0].n as nat;
    var u := t[1..];
    var frame := TakeWrites(u, n).value;
    TakeWritesPrefix(u, n);
    WrittenBytesOfWrites(frame);
    WrittenBytesSplit(t, 1);
    WrittenBytesSplit(u, n);
    assert u[n..] == t[1 + n..];
    assert t[..1] == [t[0]];
    WrittenBytesSingle(t[0]);
    var fs := Frames(t[1 + n..]).value;
    assert ([frame] + fs)[1..] == fs;
  }

  /** A chunked trace puts exactly its bytes on the bus. */
  lemma ChunkedWritten(t: seq<BusEvent>, bs: seq<bv8>)
    requires ChunkedAs(t, bs)
    ensures WrittenBytes(t) == bs
  {
    FramesWritten(t);
  }
}
