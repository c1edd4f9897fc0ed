/** The `pGPIO` bank driver and the `pGPIO_pin` convenience object.
    Registers are 32-bit values the hardware does not change between a
    read and the write that follows it. Every bank operation first checks
    the bank's status and does nothing (or returns 0) when it is Err. */
module Gpio {
  import opened Core
  import opened Bits

  /** The registers of one GPIO bank. F0/F3/L0 parts use MODER, OTYPER,
      OSPEEDR, PUPDR and AFR[0..1]; F1 parts use CRL and CRH; all use IDR
      and ODR. */
  datatype GpioRegs = GpioRegs(moder: bv32, otyper: bv32, ospeedr: bv32, pupdr: bv32,
                               idr: bv32, odr: bv32, afrl: bv32, afrh: bv32,
                               crl: bv32, crh: bv32)

  /** What the bank pointer handed to the constructor points at: nothing,
      one of the GPIO banks, or some other address. */
  datatype BankRef = NullBank | Bank(port: GpioPort) | Unlisted

  /** A `pGPIO` object: the `pIO` fields, the bank pointer and the bank's
      registers. */
  datatype Gpio = Gpio(io: IoCore, bank: BankRef, regs: GpioRegs)

  /** Whether the constructor's lookup finds the bank: GPIOA always, the
      other banks only when the chip's header defines them (`defined`). */
  predicate Recognized(bank: BankRef, defined: set<GpioPort>)
  {
    bank.Bank? && (bank.port == PortA || bank.port in defined)
  }

  /** `pGPIO(bank)`: on F3 a recognised bank records its AHB enable and
      reset bits, on F1 its APB2 ones, and the status becomes Set; an
      unrecognised bank leaves the defaults and status Err. F0 and L0
      builds have no lookup at all: every bank gets status Set and the
      default registers. */
  function Construct(p: Platform, bank: BankRef, defined: set<GpioPort>, regs: GpioRegs): (g: Gpio)
    ensures g.bank == bank && g.regs == regs
  {
    var io :=
      if p == F3 then
        if Recognized(bank, defined)
        then IoCore(Set, AhbEnr, AhbRstr, GpioEn(bank.port), GpioRst(bank.port))
        else DefaultIo()
      else if p == F1 then
        if Recognized(bank, defined)
        then IoCore(Set, Apb2Enr, Apb2Rstr, IopEn(bank.port), IopRst(bank.port))
        else DefaultIo()
      else DefaultIo().(status := Set);
    Gpio(io, bank, regs)
  }

  /** `pGPIO()`: null bank, default `pIO` fields. */
  function ConstructDefault(regs: GpioRegs): (g: Gpio)
    ensures g.io == DefaultIo() && g.bank == NullBank
  {
    Gpio(DefaultIo(), NullBank, regs)
  }

  /** The lookup: on F1 and F3 the status is Set exactly for recognised
      banks, whose enable and reset bits name that same bank on the bus
      the platform uses; different banks get different bits. On F0 and L0
      every bank is accepted. */
  lemma ConstructLookup(p: Platform, bank: BankRef, defined: set<GpioPort>, regs: GpioRegs)
    ensures var g := Construct(p, bank, defined, regs);
      (p == F1 || p == F3 ==>
        (g.io.status == Set <==> Recognized(bank, defined)) &&
        (!Recognized(bank, defined) ==> g.io == DefaultIo())) &&
      (p == F3 && Recognized(bank, defined) ==>
        g.io.enableReg == AhbEnr && g.io.resetReg == AhbRstr &&
        g.io.enableBit.GpioEn? && g.io.enableBit.port == bank.port &&
        g.io.resetBit.GpioRst? && g.io.resetBit.port == bank.port) &&
      (p == F1 && Recognized(bank, defined) ==>
        g.io.enableReg == Apb2Enr && g.io.resetReg == Apb2Rstr &&
        g.io.enableBit.IopEn? && g.io.enableBit.port == bank.port &&
        g.io.resetBit.IopRst? && g.io.resetBit.port == bank.port) &&
      (p == F0 || p == L0 ==> g.io == DefaultIo().(status := Set))
  {
  }

  lemma ConstructDistinct(p: Platform, b1: GpioPort, b2: GpioPort, defined: set<GpioPort>, regs: GpioRegs)
    requires p == F1 || p == F3
    requires Recognized(Bank(b1), defined) && Recognized(Bank(b2), defined) && b1 != b2
    ensures Construct(p, Bank(b1), defined, regs).io.enableBit != Construct(p, Bank(b2), defined, regs).io.enableBit
    ensures Construct(p, Bank(b1), defined, regs).io.resetBit != Construct(p, Bank(b2), defined, regs).io.resetBit
  {
  }

  /** Whether bank operations do anything: every one of them returns early
      when the status is Err. */
  predicate Active(g: Gpio)
  {
    g.io.status != Err
  }

  /** `1 << pin` (defined for pins below 32). */
  function PinBit(k: int): (m: bv32)
    requires 0 <= k < 32
  {
    Shl(1, k)
  }

  /** `read()`: the 16 input pins, or 0 when the bank is in error. */
  function Read(g: Gpio): (v: bv32)
    ensures !Active(g) ==> v == 0
    ensures Active(g) ==> v == g.regs.idr
  {
    if !Active(g) then 0 else g.regs.idr
  }

  /** `read_pin(pin)`: whether the pin's IDR bit is set; false in error. */
  function ReadPin(g: Gpio, k: int): (on: bool)
    requires Active(g) ==> 0 <= k < 32
    ensures on <==> Active(g) && AnySet(Read(g), PinBit(k))
  {
    if !Active(g) then false else AnySet(g.regs.idr, PinBit(k))
  }

  /** A pin reads as set exactly when its bit of the bank's `read()` value
      is set, and reads as clear in error. */
  lemma ReadPinAgrees(g: Gpio, k: int)
    requires 0 <= k < 32
    ensures ReadPin(g, k) <==> AnySet(Read(g), PinBit(k))
  {
    hide PinBit, AnySet;
    if !Active(g) {
      NoneSetInZero(PinBit(k));
    }
  }

  lemma ReadGuarded(g: Gpio, k: int)
    requires !Active(g)
    ensures Read(g) == 0 && !ReadPin(g, k)
  {
  }

  /** The bank with a new ODR value, every other register kept. */
  function WithOdr(g: Gpio, odr: bv32): Gpio
  {
    g.(regs := g.regs.(odr := odr))
  }

  /** `write(dat)`: ODR takes the low 16 bits of the value. */
  function Write(g: Gpio, dat: bv32): (r: Gpio)
    ensures r == WithOdr(g, r.regs.odr)
    ensures !Active(g) ==> r == g
    ensures Active(g) ==> r.regs.odr & 0xFFFF == dat & 0xFFFF && r.regs.odr & 0xFFFF_0000 == 0
  {
    if !Active(g) then g else LowHalf(dat); WithOdr(g, dat & 0xFFFF)
  }

  /** After `write`, ODR's low half is the value's and its upper half is
      clear, nothing else changes, and a bank in error is untouched. */
  lemma WriteEffect(g: Gpio, dat: bv32)
    ensures var r := Write(g, dat);
      (!Active(g) ==> r == g) &&
      (Active(g) ==> r == WithOdr(g, r.regs.odr) && r.regs.odr & 0xFFFF == dat & 0xFFFF && r.regs.odr & 0xFFFF_0000 == 0)
  {
    if Active(g) {
      LowHalf(dat);
    }
  }

  lemma LowHalf(dat: bv32)
    ensures (dat & 0xFFFF) & 0xFFFF == dat & 0xFFFF && (dat & 0xFFFF) & 0xFFFF_0000 == 0
  {
  }

  /** A write overrides whatever the previous write left in ODR. */
  lemma WriteOverrides(g: Gpio, x: bv32, dat: bv32)
    requires Active(g)
    ensures Write(WithOdr(g, x), dat) == Write(g, dat)
  {
  }

  lemma WriteActive(g: Gpio, dat: bv32)
    requires Active(g)
    ensures Write(g, dat) == WithOdr(g, dat & 0xFFFF)
  {
  }

  /** `stream(buf, len)`: `write` of each of the first `len` words; only
      the last one stays in ODR. */
  method Stream(g: Gpio, buf: seq<bv32>, len: int) returns (r: Gpio)
    requires len <= |buf|
    ensures !Active(g) || len <= 0 ==> r == g
    ensures Active(g) && len > 0 ==> r == Write(g, buf[len - 1])
  {
    r := g;
    if !Active(g) {
      return;
    }
    hide Write;
    var si := 0;
    while si < len
      invariant 0 <= si && (si <= len || si == 0)
      invariant r == if si == 0 then g else Write(g, buf[si - 1])
    {
      if si > 0 {
        WriteActive(g, buf[si - 1]);
        WriteOverrides(g, buf[si - 1] & 0xFFFF, buf[si]);
      }
      r := Write(r, buf[si]);
      si := si + 1;
    }
  }

  /** The ODR value each mask operation stores, in the form its contract
      states. */
  lemma SetOdrStep(g: Gpio, m: bv32)
    ensures BitsSet(g.regs.odr, WithOdr(g, g.regs.odr | m).regs.odr, m)
  {
    OrSets(g.regs.odr, m);
  }

  lemma ClearOdrStep(g: Gpio, m: bv32)
    ensures BitsCleared(g.regs.odr, WithOdr(g, g.regs.odr & !m).regs.odr, m)
  {
    AndNotClears(g.regs.odr, m);
  }

  lemma ToggleOdrStep(g: Gpio, m: bv32)
    ensures BitsFlipped(g.regs.odr, WithOdr(g, g.regs.odr ^ m).regs.odr, m)
  {
    XorFlips(g.regs.odr, m);
  }

  /** `pin_on` / `pins_on`: OR bits into ODR. */
  function SetOdrBits(g: Gpio, m: bv32): (r: Gpio)
    ensures r == WithOdr(g, r.regs.odr)
    ensures !Active(g) ==> r == g
    ensures Active(g) ==> BitsSet(g.regs.odr, r.regs.odr, m)
  {
    if !Active(g) then g else SetOdrStep(g, m); WithOdr(g, g.regs.odr | m)
  }

  /** `pin_off` / `pins_off`: clear bits of ODR. */
  function ClearOdrBits(g: Gpio, m: bv32): (r: Gpio)
    ensures r == WithOdr(g, r.regs.odr)
    ensures !Active(g) ==> r == g
    ensures Active(g) ==> BitsCleared(g.regs.odr, r.regs.odr, m)
  {
    if !Active(g) then g else ClearOdrStep(g, m); WithOdr(g, g.regs.odr & !m)
  }

  /** `pin_toggle` / `pins_toggle`: flip bits of ODR. */
  function ToggleOdrBits(g: Gpio, m: bv32): (r: Gpio)
    ensures r == WithOdr(g, r.regs.odr)
    ensures !Active(g) ==> r == g
    ensures Active(g) ==> BitsFlipped(g.regs.odr, r.regs.odr, m)
  {
    if !Active(g) then g else ToggleOdrStep(g, m); WithOdr(g, g.regs.odr ^ m)
  }

  function PinOn(g: Gpio, k: int): (r: Gpio)
    requires Active(g) ==> 0 <= k < 32
    ensures r == WithOdr(g, r.regs.odr)
    ensures !Active(g) ==> r == g
    ensures Active(g) ==> BitsSet(g.regs.odr, r.regs.odr, PinBit(k))
  {
    if !Active(g) then g else SetOdrBits(g, PinBit(k))
  }

  function PinsOn(g: Gpio, m: bv16): (r: Gpio)
    ensures r == WithOdr(g, r.regs.odr)
    ensures !Active(g) ==> r == g
    ensures Active(g) ==> BitsSet(g.regs.odr, r.regs.odr, m as bv32)
  {
    SetOdrBits(g, m as bv32)
  }

  function PinOff(g: Gpio, k: int): (r: Gpio)
    requires Active(g) ==> 0 <= k < 32
    ensures r == WithOdr(g, r.regs.odr)
    ensures !Active(g) ==> r == g
    ensures Active(g) ==> BitsCleared(g.regs.odr, r.regs.odr, PinBit(k))
  {
    if !Active(g) then g else ClearOdrBits(g, PinBit(k))
  }

  /** `~pin_mask` is taken after the promotion to `int`, so every bit above
      the mask is set and ODR's upper half is kept. */
  function PinsOff(g: Gpio, m: bv16): (r: Gpio)
    ensures r == WithOdr(g, r.regs.odr)
    ensures !Active(g) ==> r == g
    ensures Active(g) ==> BitsCleared(g.regs.odr, r.regs.odr, m as bv32)
  {
    ClearOdrBits(g, m as bv32)
  }

  function PinToggle(g: Gpio, k: int): (r: Gpio)
    requires Active(g) ==> 0 <= k < 32
    ensures r == WithOdr(g, r.regs.odr)
    ensures !Active(g) ==> r == g
    ensures Active(g) ==> BitsFlipped(g.regs.odr, r.regs.odr, PinBit(k))
  {
    if !Active(g) then g else ToggleOdrBits(g, PinBit(k))
  }

  function PinsToggle(g: Gpio, m: bv16): (r: Gpio)
    ensures r == WithOdr(g, r.regs.odr)
    ensures !Active(g) ==> r == g
    ensures Active(g) ==> BitsFlipped(g.regs.odr, r.regs.odr, m as bv32)
  {
    ToggleOdrBits(g, m as bv32)
  }

  /** The ODR operations on a bank in error do nothing. */
  lemma OdrGuarded(g: Gpio, m: bv32)
    requires !Active(g)
    ensures SetOdrBits(g, m) == g && ClearOdrBits(g, m) == g && ToggleOdrBits(g, m) == g
  {
  }

  /** Setting bits of ODR: exactly the mask's bits turn on, every other
      bit and every other register is unchanged. */
  lemma SetOdrEffect(g: Gpio, m: bv32)
    requires Active(g)
    ensures var r := SetOdrBits(g, m); r == WithOdr(g, r.regs.odr) && BitsSet(g.regs.odr, r.regs.odr, m)
  {
    OrSets(g.regs.odr, m);
  }

  /** Clearing bits of ODR: exactly the mask's bits turn off. */
  lemma ClearOdrEffect(g: Gpio, m: bv32)
    requires Active(g)
    ensures var r := ClearOdrBits(g, m); r == WithOdr(g, r.regs.odr) && BitsCleared(g.regs.odr, r.regs.odr, m)
  {
    AndNotClears(g.regs.odr, m);
  }

  /** Toggling bits of ODR: exactly the mask's bits flip. */
  lemma ToggleOdrEffect(g: Gpio, m: bv32)
    requires Active(g)
    ensures var r := ToggleOdrBits(g, m); r == WithOdr(g, r.regs.odr) && BitsFlipped(g.regs.odr, r.regs.odr, m)
  {
    XorFlips(g.regs.odr, m);
  }

  /** Toggling the same bits twice restores the bank. */
  lemma ToggleTwice(g: Gpio, m: bv32)
    ensures ToggleOdrBits(ToggleOdrBits(g, m), m) == g
  {
    XorTwice(g.regs.odr, m);
  }

  /** The single-pin operations are the mask operations on the pin's own
      bit; for pins 0-15 that is the 16-bit mask `1 << pin`. */
  lemma PinIsMask(g: Gpio, k: int)
    requires 0 <= k < 16
    ensures PinBit(k) < 0x1_0000
    ensures PinOn(g, k) == PinsOn(g, PinBit(k) as bv16)
    ensures PinOff(g, k) == PinsOff(g, PinBit(k) as bv16)
    ensures PinToggle(g, k) == PinsToggle(g, PinBit(k) as bv16)
  {
    PinBitFits(k);
  }

  lemma PinBitFits(k: int)
    requires 0 <= k < 16
    ensures PinBit(k) < 0x1_0000 && (PinBit(k) as bv16) as bv32 == PinBit(k)
  {
    if k == 0 { assert PinBit(k) == Shl(1, 0) == 0x1; }
    else if k == 1 { assert PinBit(k) == Shl(1, 1) == 0x2; }
    else if k == 2 { assert PinBit(k) == Shl(1, 2) == 0x4; }
    else if k == 3 { assert PinBit(k) == Shl(1, 3) == 0x8; }
    else if k == 4 { assert PinBit(k) == Shl(1, 4) == 0x10; }
    else if k == 5 { assert PinBit(k) == Shl(1, 5) == 0x20; }
    else if k == 6 { assert PinBit(k) == Shl(1, 6) == 0x40; }
    else if k == 7 { assert PinBit(k) == Shl(1, 7) == 0x80; }
    else if k == 8 { assert PinBit(k) == Shl(1, 8) == 0x100; }
    else if k == 9 { assert PinBit(k) == Shl(1, 9) == 0x200; }
    else if k == 10 { assert PinBit(k) == Shl(1, 10) == 0x400; }
    else if k == 11 { assert PinBit(k) == Shl(1, 11) == 0x800; }
    else if k == 12 { assert PinBit(k) == Shl(1, 12) == 0x1000; }
    else if k == 13 { assert PinBit(k) == Shl(1, 13) == 0x2000; }
    else if k == 14 { assert PinBit(k) == Shl(1, 14) == 0x4000; }
    else if k == 15 { assert PinBit(k) == Shl(1, 15) == 0x8000; }
  }

  /** Frames of the field writers: the bank after the write differs from
      the bank before at most in the named register(s). */
  predicate OnlyModer(g: Gpio, r: Gpio)
  {
    r == g.(regs := g.regs.(moder := r.regs.moder))
  }

  predicate OnlyOtyper(g: Gpio, r: Gpio)
  {
    r == g.(regs := g.regs.(otyper := r.regs.otyper))
  }

  predicate OnlyOspeedr(g: Gpio, r: Gpio)
  {
    r == g.(regs := g.regs.(ospeedr := r.regs.ospeedr))
  }

  predicate OnlyPupdr(g: Gpio, r: Gpio)
  {
    r == g.(regs := g.regs.(pupdr := r.regs.pupdr))
  }

  predicate OnlyAfr(g: Gpio, r: Gpio)
  {
    r == g.(regs := g.regs.(afrl := r.regs.afrl, afrh := r.regs.afrh))
  }

  predicate OnlyCr(g: Gpio, r: Gpio)
  {
    r == g.(regs := g.regs.(crl := r.regs.crl, crh := r.regs.crh))
  }

  /** `set_pin_mode` (F0/F3/L0): 2-bit field of MODER. */
  function SetPinMode(g: Gpio, k: int, v: bv32): (r: Gpio)
    requires Active(g) ==> 0 <= k < 16
    ensures OnlyModer(g, r)
    ensures !Active(g) ==> r == g
  {
    if !Active(g) then g else g.(regs := g.regs.(moder := SetField(g.regs.moder, 3, 2 * k, v)))
  }

  /** `set_pin_type` (F0/F3/L0): 1-bit field of OTYPER. */
  function SetPinType(g: Gpio, k: int, v: bv32): (r: Gpio)
    requires Active(g) ==> 0 <= k < 32
    ensures OnlyOtyper(g, r)
    ensures !Active(g) ==> r == g
  {
    if !Active(g) then g else g.(regs := g.regs.(otyper := SetField(g.regs.otyper, 1, k, v)))
  }

  /** `set_pin_speed` (F0/F3/L0): 2-bit field of OSPEEDR. */
  function SetPinSpeed(g: Gpio, k: int, v: bv32): (r: Gpio)
    requires Active(g) ==> 0 <= k < 16
    ensures OnlyOspeedr(g, r)
    ensures !Active(g) ==> r == g
  {
    if !Active(g) then g else g.(regs := g.regs.(ospeedr := SetField(g.regs.ospeedr, 3, 2 * k, v)))
  }

  /** `set_pin_pupd` (F0/F3/L0): 2-bit field of PUPDR. */
  function SetPinPupd(g: Gpio, k: int, v: bv32): (r: Gpio)
    requires Active(g) ==> 0 <= k < 16
    ensures OnlyPupdr(g, r)
    ensures !Active(g) ==> r == g
  {
    if !Active(g) then g else g.(regs := g.regs.(pupdr := SetField(g.regs.pupdr, 3, 2 * k, v)))
  }

  /** `set_pin_af` (F0/F3/L0): nibble `pin` of AFR[0] for pins 0-7,
      nibble `pin - 8` of AFR[1] for pins 8-15. */
  function SetPinAf(g: Gpio, k: int, v: bv32): (r: Gpio)
    requires Active(g) ==> 0 <= k < 16
    ensures OnlyAfr(g, r)
    ensures k < 8 ==> r.regs.afrh == g.regs.afrh
    ensures k >= 8 ==> r.regs.afrl == g.regs.afrl
    ensures !Active(g) ==> r == g
  {
    if !Active(g) then g
    else if k < 8 then g.(regs := g.regs.(afrl := SetField(g.regs.afrl, 0xF, 4 * k, v)))
    else g.(regs := g.regs.(afrh := SetField(g.regs.afrh, 0xF, 4 * (k - 8), v)))
  }

  /** `set_pin_cfg` (F1): nibble `pin` of CRL for pins 0-7, nibble
      `pin - 8` of CRH for pins 8-15. */
  function SetPinCfg(g: Gpio, k: int, v: bv32): (r: Gpio)
    requires Active(g) ==> 0 <= k < 16
    ensures OnlyCr(g, r)
    ensures k < 8 ==> r.regs.crh == g.regs.crh
    ensures k >= 8 ==> r.regs.crl == g.regs.crl
    ensures !Active(g) ==> r == g
  {
    if !Active(g) then g
    else if k < 8 then g.(regs := g.regs.(crl := SetField(g.regs.crl, 0xF, 4 * k, v)))
    else g.(regs := g.regs.(crh := SetField(g.regs.crh, 0xF, 4 * (k - 8), v)))
  }

  /** Every field writer leaves a bank in error untouched. */
  lemma FieldWritersGuarded(g: Gpio, k: int, v: bv32)
    requires !Active(g)
    ensures SetPinMode(g, k, v) == g && SetPinType(g, k, v) == g && SetPinSpeed(g, k, v) == g
    ensures SetPinPupd(g, k, v) == g && SetPinAf(g, k, v) == g && SetPinCfg(g, k, v) == g
  {
  }

  /** `set_pin_mode` with a 2-bit value: MODER bits 2*pin..2*pin+1 read
      it back, the rest of MODER and every other register is unchanged. */
  lemma ModeEffect(g: Gpio, k: int, v: bv32)
    requires Active(g) && 0 <= k < 16 && v < 4
    ensures var r := SetPinMode(g, k, v);
      r.io == g.io && r.bank == g.bank && r.regs == g.regs.(moder := r.regs.moder) &&
      FieldIs(g.regs.moder, r.regs.moder, 3, 2 * k, v)
  {
    hide SetField, FieldIs;
    Fits(v);
    SetFieldEffect(g.regs.moder, 3, 2 * k, v);
  }

  /** `set_pin_type` with a 1-bit value: OTYPER bit pin. */
  lemma TypeEffect(g: Gpio, k: int, v: bv32)
    requires Active(g) && 0 <= k < 16 && v < 2
    ensures var r := SetPinType(g, k, v);
      r.io == g.io && r.bank == g.bank && r.regs == g.regs.(otyper := r.regs.otyper) &&
      FieldIs(g.regs.otyper, r.regs.otyper, 1, k, v)
  {
    hide SetField, FieldIs;
    Fits(v);
    SetFieldEffect(g.regs.otyper, 1, k, v);
  }

  /** `set_pin_speed` with a 2-bit value: OSPEEDR bits 2*pin..2*pin+1. */
  lemma SpeedEffect(g: Gpio, k: int, v: bv32)
    requires Active(g) && 0 <= k < 16 && v < 4
    ensures var r := SetPinSpeed(g, k, v);
      r.io == g.io && r.bank == g.bank && r.regs == g.regs.(ospeedr := r.regs.ospeedr) &&
      FieldIs(g.regs.ospeedr, r.regs.ospeedr, 3, 2 * k, v)
  {
    hide SetField, FieldIs;
    Fits(v);
    SetFieldEffect(g.regs.ospeedr, 3, 2 * k, v);
  }

  /** `set_pin_pupd` with a 2-bit value: PUPDR bits 2*pin..2*pin+1. */
  lemma PupdEffect(g: Gpio, k: int, v: bv32)
    requires Active(g) && 0 <= k < 16 && v < 4
    ensures var r := SetPinPupd(g, k, v);
      r.io == g.io && r.bank == g.bank && r.regs == g.regs.(pupdr := r.regs.pupdr) &&
      FieldIs(g.regs.pupdr, r.regs.pupdr, 3, 2 * k, v)
  {
    hide SetField, FieldIs;
    Fits(v);
    SetFieldEffect(g.regs.pupdr, 3, 2 * k, v);
  }

  /** `set_pin_af` with a 4-bit value: pins 0-7 write nibble `pin` of
      AFR[0], pins 8-15 nibble `pin - 8` of AFR[1]; nothing else changes. */
  lemma AfEffect(g: Gpio, k: int, v: bv32)
    requires Active(g) && 0 <= k < 16 && v < 16
    ensures var r := SetPinAf(g, k, v);
      r.io == g.io && r.bank == g.bank &&
      (k < 8 ==> r.regs == g.regs.(afrl := r.regs.afrl) && FieldIs(g.regs.afrl, r.regs.afrl, 0xF, 4 * k, v)) &&
      (k >= 8 ==> r.regs == g.regs.(afrh := r.regs.afrh) && FieldIs(g.regs.afrh, r.regs.afrh, 0xF, 4 * (k - 8), v))
  {
    hide SetField, FieldIs;
    Fits(v);
    if k < 8 {
      SetFieldEffect(g.regs.afrl, 0xF, 4 * k, v);
    } else {
      SetFieldEffect(g.regs.afrh, 0xF, 4 * (k - 8), v);
    }
  }

  /** `set_pin_cfg` with a 4-bit value: pins 0-7 write nibble `pin` of
      CRL, pins 8-15 nibble `pin - 8` of CRH; nothing else changes. */
  lemma CfgEffect(g: Gpio, k: int, v: bv32)
    requires Active(g) && 0 <= k < 16 && v < 16
    ensures var r := SetPinCfg(g, k, v);
      r.io == g.io && r.bank == g.bank &&
      (k < 8 ==> r.regs == g.regs.(crl := r.regs.crl) && FieldIs(g.regs.crl, r.regs.crl, 0xF, 4 * k, v)) &&
      (k >= 8 ==> r.regs == g.regs.(crh := r.regs.crh) && FieldIs(g.regs.crh, r.regs.crh, 0xF, 4 * (k - 8), v))
  {
    hide SetField, FieldIs;
    Fits(v);
    if k < 8 {
      SetFieldEffect(g.regs.crl, 0xF, 4 * k, v);
    } else {
      SetFieldEffect(g.regs.crh, 0xF, 4 * (k - 8), v);
    }
  }

  // Pin setting codes, F0/F3/L0.
  const ModeIn: bv32 := 0x00
  const ModeOut: bv32 := 0x01
  const ModeAlt: bv32 := 0x02
  const ModeAin: bv32 := 0x03
  const OtypePP: bv32 := 0x00
  const OtypeOD: bv32 := 0x01
  const SpeedLow: bv32 := 0x00
  const SpeedMed: bv32 := 0x01
  const SpeedHi: bv32 := 0x03
  const PupdNone: bv32 := 0x00
  const PupdUp: bv32 := 0x01
  const PupdDown: bv32 := 0x02

  // Pin configuration nibbles, F1.
  const CfgInFlt: bv32 := 0x04
  const CfgInPupd: bv32 := 0x08
  const CfgInAnalog: bv32 := 0x00
  const CfgOutPP: bv32 := 0x02
  const CfgOutOD: bv32 := 0x06
  const CfgAfPP: bv32 := 0x0A
  const CfgAfOD: bv32 := 0x0E

  /** The pull resistor a preset asks for. */
  datatype Bias = NoBias | PullUp | PullDown

  /** The `pGPIO_pin_qinit` presets: an input (floating, pulled or
      analog), or an output or alternate-function pin, push-pull or open
      drain, with a pull resistor on F0/F3/L0. */
  datatype Preset =
    | InFloating | InPullUp | InPullDown | InAnalog
    | OutPP(bias: Bias) | OutOD(bias: Bias) | AfPP(bias: Bias) | AfOD(bias: Bias)

  /** The preset an enum value names on a platform: eight on every
      platform, eight more with a pull resistor on F0/F3/L0, in the order
      the enumerators are declared; any other value names none. */
  function PresetOf(p: Platform, q: int): (r: Option<Preset>)
    ensures r.Some? <==> 0 <= q < (if ModernGpio(p) then 16 else 8)
  {
    if q == 0 then Some(InFloating)
    else if q == 1 then Some(InPullUp)
    else if q == 2 then Some(InPullDown)
    else if q == 3 then Some(InAnalog)
    else if q == 4 then Some(OutPP(NoBias))
    else if q == 5 then Some(OutOD(NoBias))
    else if q == 6 then Some(AfPP(NoBias))
    else if q == 7 then Some(AfOD(NoBias))
    else if !ModernGpio(p) then None
    else if q == 8 then Some(OutPP(PullUp))
    else if q == 9 then Some(OutPP(PullDown))
    else if q == 10 then Some(OutOD(PullUp))
    else if q == 11 then Some(OutOD(PullDown))
    else if q == 12 then Some(AfPP(PullUp))
    else if q == 13 then Some(AfPP(PullDown))
    else if q == 14 then Some(AfOD(PullUp))
    else if q == 15 then Some(AfOD(PullDown))
    else None
  }

  /** Different enum values name different presets. */
  lemma PresetOfInjective(p: Platform, q1: int, q2: int)
    requires PresetOf(p, q1).Some? && PresetOf(p, q1) == PresetOf(p, q2)
    ensures q1 == q2
  {
  }

  /** A `pGPIO_pin` object: whether it has a bank, its pin number (a
      `uint8_t`) and its status. */
  datatype Pin = Pin(bound: bool, pin: int, status: Status)

  /** `pGPIO_pin()`: no bank, pin 0, status Err. */
  function PinDefault(): (pin: Pin)
    ensures !pin.bound && pin.pin == 0 && pin.status == Err && Code(pin.status) == 0
  {
    Pin(false, 0, Err)
  }

  /** The `switch` of the F0/F3/L0 preset constructor, on the enum value;
      None for the `default` branch. */
  function ModernPresetWrites(g: Gpio, k: int, q: int): (r: Option<Gpio>)
    requires Active(g) ==> 0 <= k < 16
    ensures r.Some? <==> 0 <= q < 16
    ensures r.Some? ==> r.value.io == g.io && r.value.bank == g.bank
    ensures r.Some? ==> r.value.regs.idr == g.regs.idr && r.value.regs.odr == g.regs.odr
    ensures r.Some? && !Active(g) ==> r.value == g
  {
    if q == 0 then Some(SetPinPupd(SetPinMode(g, k, ModeIn), k, PupdNone))
    else if q == 1 then Some(SetPinPupd(SetPinMode(g, k, ModeIn), k, PupdUp))
    else if q == 2 then Some(SetPinPupd(SetPinMode(g, k, ModeIn), k, PupdDown))
    else if q == 3 then Some(SetPinMode(g, k, ModeAin))
    else if q == 4 then Some(SetPinPupd(SetPinSpeed(SetPinType(SetPinMode(g, k, ModeOut), k, OtypePP), k, SpeedLow), k, PupdNone))
    else if q == 5 then Some(SetPinPupd(SetPinSpeed(SetPinType(SetPinMode(g, k, ModeOut), k, OtypeOD), k, SpeedLow), k, PupdNone))
    else if q == 6 then Some(SetPinPupd(SetPinSpeed(SetPinType(SetPinMode(g, k, ModeAlt), k, OtypePP), k, SpeedLow), k, PupdNone))
    else if q == 7 then Some(SetPinPupd(SetPinSpeed(SetPinType(SetPinMode(g, k, ModeAlt), k, OtypeOD), k, SpeedLow), k, PupdNone))
    else if q == 8 then Some(SetPinPupd(SetPinSpeed(SetPinType(SetPinMode(g, k, ModeOut), k, OtypePP), k, SpeedLow), k, PupdUp))
    else if q == 10 then Some(SetPinPupd(SetPinSpeed(SetPinType(SetPinMode(g, k, ModeOut), k, OtypeOD), k, SpeedLow), k, PupdUp))
    else if q == 9 then Some(SetPinPupd(SetPinSpeed(SetPinType(SetPinMode(g, k, ModeOut), k, OtypePP), k, SpeedLow), k, PupdDown))
    else if q == 11 then Some(SetPinPupd(SetPinSpeed(SetPinType(SetPinMode(g, k, ModeOut), k, OtypeOD), k, SpeedLow), k, PupdDown))
    else if q == 12 then Some(SetPinPupd(SetPinSpeed(SetPinType(SetPinMode(g, k, ModeAlt), k, OtypePP), k, SpeedLow), k, PupdUp))
    else if q == 14 then Some(SetPinPupd(SetPinSpeed(SetPinType(SetPinMode(g, k, ModeAlt), k, OtypeOD), k, SpeedLow), k, PupdUp))
    else if q == 13 then Some(SetPinPupd(SetPinSpeed(SetPinType(SetPinMode(g, k, ModeAlt), k, OtypePP), k, SpeedLow), k, PupdDown))
    else if q == 15 then Some(SetPinPupd(SetPinSpeed(SetPinType(SetPinMode(g, k, ModeAlt), k, OtypeOD), k, SpeedLow), k, PupdDown))
    else None
  }

  /** The `switch` of the F1 preset constructor; the pulled inputs also
      drive ODR, which picks the pull direction. */
  function F1PresetWrites(g: Gpio, k: int, q: int): (r: Option<Gpio>)
    requires Active(g) ==> 0 <= k < 16
    ensures r.Some? <==> 0 <= q < 8
    ensures r.Some? ==> r.value.io == g.io && r.value.bank == g.bank && r.value.regs.idr == g.regs.idr
    ensures r.Some? && !Active(g) ==> r.value == g
  {
    if q == 0 then Some(SetPinCfg(g, k, CfgInFlt))
    else if q == 1 then Some(PinOn(SetPinCfg(g, k, CfgInPupd), k))
    else if q == 2 then Some(PinOff(SetPinCfg(g, k, CfgInPupd), k))
    else if q == 3 then Some(SetPinCfg(g, k, CfgInAnalog))
    else if q == 4 then Some(SetPinCfg(g, k, CfgOutPP))
    else if q == 5 then Some(SetPinCfg(g, k, CfgOutOD))
    else if q == 6 then Some(SetPinCfg(g, k, CfgAfPP))
    else if q == 7 then Some(SetPinCfg(g, k, CfgAfOD))
    else None
  }

  /** `pGPIO_pin(bank, pin, q)`: the preset's writes to the bank, then
      status Set; an unknown preset writes nothing and leaves status Err. */
  function ConstructPin(p: Platform, g: Gpio, k: int, q: int): (res: (Pin, Gpio))
    requires 0 <= k < 256
    requires Active(g) ==> k < 16
    ensures res.0.bound && res.0.pin == k
    ensures res.0.status == Set <==> PresetOf(p, q).Some?
    ensures res.0.status != Set ==> res.0.status == Err && res.1 == g
    ensures res.1.io == g.io && res.1.bank == g.bank && res.1.regs.idr == g.regs.idr
    ensures !Active(g) ==> res.1 == g
  {
    var w := if ModernGpio(p) then ModernPresetWrites(g, k, q) else F1PresetWrites(g, k, q);
    match w
    case None => (Pin(true, k, Err), g)
    case Some(g') => (Pin(true, k, Set), g')
  }

  /** The mode a preset selects (F0/F3/L0). */
  function PresetMode(q: Preset): bv32
  {
    match q
    case InFloating | InPullUp | InPullDown => ModeIn
    case InAnalog => ModeAin
    case OutPP(_) | OutOD(_) => ModeOut
    case AfPP(_) | AfOD(_) => ModeAlt
  }

  /** The output type a preset selects, if it writes one. */
  function PresetType(q: Preset): Option<bv32>
  {
    match q
    case OutPP(_) | AfPP(_) => Some(OtypePP)
    case OutOD(_) | AfOD(_) => Some(OtypeOD)
    case _ => None
  }

  /** The PUPDR code of a pull resistor. */
  function BiasPupd(b: Bias): bv32
  {
    match b
    case NoBias => PupdNone
    case PullUp => PupdUp
    case PullDown => PupdDown
  }

  /** The pull setting a preset selects, if it writes one. */
  function PresetPupd(q: Preset): Option<bv32>
  {
    match q
    case InFloating => Some(PupdNone)
    case InPullUp => Some(PupdUp)
    case InPullDown => Some(PupdDown)
    case InAnalog => None
    case _ => Some(BiasPupd(q.bias))
  }

  /** The mode field holds `mode`; when `typ` is given, the type field
      holds it and the speed field is low, otherwise OTYPER and OSPEEDR
      are unchanged; when `pupd` is given the pull field holds it,
      otherwise PUPDR is unchanged; no other register changes. */
  predicate FieldsApplied(k: int, mode: bv32, typ: Option<bv32>, pupd: Option<bv32>, before: GpioRegs, after: GpioRegs)
    requires 0 <= k < 16
  {
    FieldIs(before.moder, after.moder, 3, 2 * k, mode) &&
    (if typ.Some?
     then FieldIs(before.otyper, after.otyper, 1, k, typ.value) && FieldIs(before.ospeedr, after.ospeedr, 3, 2 * k, SpeedLow)
     else after.otyper == before.otyper && after.ospeedr == before.ospeedr) &&
    (if pupd.Some? then FieldIs(before.pupdr, after.pupdr, 3, 2 * k, pupd.value) else after.pupdr == before.pupdr) &&
    after == before.(moder := after.moder, otyper := after.otyper, ospeedr := after.ospeedr, pupdr := after.pupdr)
  }

  /** What a preset leaves in the pin's fields on F0/F3/L0: the mode it
      selects; for outputs and alternate functions also its output type
      and low speed; the pull setting it selects, except that analog
      inputs leave PUPDR alone. */
  predicate ModernPresetApplied(q: Preset, k: int, before: GpioRegs, after: GpioRegs)
    requires 0 <= k < 16
  {
    FieldsApplied(k, PresetMode(q), PresetType(q), PresetPupd(q), before, after)
  }

  /** The writes a preset makes: mode, then type and speed, then pull. */
  function Chain(g: Gpio, k: int, mode: bv32, typ: Option<bv32>, pupd: Option<bv32>): Gpio
    requires Active(g) ==> 0 <= k < 16
  {
    var g1 := SetPinMode(g, k, mode);
    var g2 := if typ.Some? then SetPinSpeed(SetPinType(g1, k, typ.value), k, SpeedLow) else g1;
    if pupd.Some? then SetPinPupd(g2, k, pupd.value) else g2
  }

  lemma ChainApplies(g: Gpio, k: int, mode: bv32, typ: Option<bv32>, pupd: Option<bv32>)
    requires Active(g) && 0 <= k < 16
    requires mode < 4 && (typ.Some? ==> typ.value < 2) && (pupd.Some? ==> pupd.value < 4)
    ensures var r := Chain(g, k, mode, typ, pupd);
      r.io == g.io && r.bank == g.bank && FieldsApplied(k, mode, typ, pupd, g.regs, r.regs)
  {
    hide SetField, FieldIs, SetPinMode, SetPinType, SetPinSpeed, SetPinPupd;
    var g1 := SetPinMode(g, k, mode);
    ModeEffect(g, k, mode);
    var g2 := g1;
    if typ.Some? {
      var ga := SetPinType(g1, k, typ.value);
      TypeEffect(g1, k, typ.value);
      SpeedEffect(ga, k, SpeedLow);
      g2 := SetPinSpeed(ga, k, SpeedLow);
    }
    if pupd.Some? {
      PupdEffect(g2, k, pupd.value);
    }
  }

  /** Each case of the F0/F3/L0 `switch` makes the writes of the preset
      the enum value names. */
  lemma ModernPresetIsChain(p: Platform, g: Gpio, k: int, q: int)
    requires ModernGpio(p) && (Active(g) ==> 0 <= k < 16)
    ensures ModernPresetWrites(g, k, q).Some? <==> PresetOf(p, q).Some?
    ensures PresetOf(p, q).Some? ==>
      var pr := PresetOf(p, q).value;
      ModernPresetWrites(g, k, q).value == Chain(g, k, PresetMode(pr), PresetType(pr), PresetPupd(pr))
  {
    hide SetPinMode, SetPinType, SetPinSpeed, SetPinPupd, OnlyModer, OnlyOtyper, OnlyOspeedr, OnlyPupdr;
  }

  /** The F0/F3/L0 preset constructor on an active bank: a known preset
      gives status Set and leaves exactly its fields in the pin's
      registers; an unknown one gives status Err and changes nothing. */
  lemma ModernPresetCorrect(p: Platform, g: Gpio, k: int, q: int)
    requires ModernGpio(p) && Active(g) && 0 <= k < 16
    ensures var (pin, g') := ConstructPin(p, g, k, q);
      pin.bound && pin.pin == k &&
      (pin.status == Set <==> PresetOf(p, q).Some?) &&
      (PresetOf(p, q).None? ==> pin.status == Err && g' == g) &&
      (PresetOf(p, q).Some? ==>
        g'.io == g.io && g'.bank == g.bank && ModernPresetApplied(PresetOf(p, q).value, k, g.regs, g'.regs))
  {
    hide FieldsApplied, Chain, ModernPresetWrites, F1PresetWrites, SetPinMode, SetPinType, SetPinSpeed, SetPinPupd, SetPinCfg;
    ModernPresetIsChain(p, g, k, q);
    if PresetOf(p, q).Some? {
      var pr := PresetOf(p, q).value;
      ChainApplies(g, k, PresetMode(pr), PresetType(pr), PresetPupd(pr));
    }
  }

  /** The F1 configuration nibble of a preset (F1 has only the eight
      presets without a pull resistor). */
  function PresetCfg(q: Preset): bv32
  {
    match q
    case InFloating => CfgInFlt
    case InPullUp | InPullDown => CfgInPupd
    case InAnalog => CfgInAnalog
    case OutPP(_) => CfgOutPP
    case OutOD(_) => CfgOutOD
    case AfPP(_) => CfgAfPP
    case AfOD(_) => CfgAfOD
  }

  /** The ODR level an F1 preset drives: pulled inputs take their pull
      direction from ODR. */
  function PresetOdr(q: Preset): Option<bool>
  {
    match q
    case InPullUp => Some(true)
    case InPullDown => Some(false)
    case _ => None
  }

  /** What a preset leaves on F1: the pin's configuration nibble (in CRL
      for pins 0-7, in CRH at `pin - 8` for pins 8-15) holds the preset's
      code with the rest of that register unchanged; for a pulled input the
      pin's ODR bit is set or cleared, with the other ODR bits kept; no
      other register changes. */
  predicate F1PresetApplied(q: Preset, k: int, before: GpioRegs, after: GpioRegs)
    requires 0 <= k < 16
  {
    CfgNibble(q, k, before.crl, before.crh, after.crl, after.crh) &&
    OdrLevel(q, k, before.odr, after.odr) &&
    after == before.(crl := after.crl, crh := after.crh, odr := after.odr)
  }

  /** The pin's nibble of CRL (pins 0-7) or CRH (pins 8-15) holds the
      preset's code; the other register of the two is unchanged. */
  predicate CfgNibble(q: Preset, k: int, crl: bv32, crh: bv32, crl': bv32, crh': bv32)
    requires 0 <= k < 16
  {
    if k < 8
    then FieldIs(crl, crl', 0xF, 4 * k, PresetCfg(q)) && crh' == crh
    else FieldIs(crh, crh', 0xF, 4 * (k - 8), PresetCfg(q)) && crl' == crl
  }

  /** A pulled input sets or clears the pin's ODR bit, keeping the others;
      every other preset leaves ODR alone. */
  predicate OdrLevel(q: Preset, k: int, odr: bv32, odr': bv32)
    requires 0 <= k < 16
  {
    match PresetOdr(q)
    case None => odr' == odr
    case Some(on) => if on then BitsSet(odr, odr', PinBit(k)) else BitsCleared(odr, odr', PinBit(k))
  }

  /** The F1 preset constructor on an active bank: a known preset gives
      status Set and leaves exactly its configuration; an unknown one gives
      status Err and changes nothing. */
  lemma F1PresetCorrect(p: Platform, g: Gpio, k: int, q: int)
    requires !ModernGpio(p) && Active(g) && 0 <= k < 16
    ensures var (pin, g') := ConstructPin(p, g, k, q);
      pin.bound && pin.pin == k &&
      (pin.status == Set <==> PresetOf(p, q).Some?) &&
      (PresetOf(p, q).None? ==> pin.status == Err && g' == g) &&
      (PresetOf(p, q).Some? ==>
        g'.io == g.io && g'.bank == g.bank && F1PresetApplied(PresetOf(p, q).value, k, g.regs, g'.regs))
  {
    hide F1PresetApplied, ModernPresetWrites, SetPinMode, SetPinType, SetPinSpeed, SetPinPupd, SetPinCfg, PinOn, PinOff;
    if PresetOf(p, q).Some? {
      var pr := PresetOf(p, q).value;
      F1PresetIsCfg(p, g, k, q);
      F1PresetStep(g, k, pr);
    }
  }

  /** Each case of the F1 `switch` writes the preset's nibble, then for a
      pulled input drives the pin's ODR bit. */
  lemma F1PresetIsCfg(p: Platform, g: Gpio, k: int, q: int)
    requires !ModernGpio(p) && (Active(g) ==> 0 <= k < 16) && PresetOf(p, q).Some?
    ensures var pr := PresetOf(p, q).value;
      var g1 := SetPinCfg(g, k, PresetCfg(pr));
      F1PresetWrites(g, k, q) == Some(if pr == InPullUp then PinOn(g1, k) else if pr == InPullDown then PinOff(g1, k) else g1)
  {
    hide SetPinCfg, PinOn, PinOff;
  }

  lemma F1PresetStep(g: Gpio, k: int, pr: Preset)
    requires Active(g) && 0 <= k < 16
    ensures var g1 := SetPinCfg(g, k, PresetCfg(pr));
      var r := if pr == InPullUp then PinOn(g1, k) else if pr == InPullDown then PinOff(g1, k) else g1;
      r.io == g.io && r.bank == g.bank && F1PresetApplied(pr, k, g.regs, r.regs)
  {
    hide CfgNibble, OdrLevel, SetPinCfg, PinOn, PinOff;
    var g1 := SetPinCfg(g, k, PresetCfg(pr));
    F1CfgStep(g, k, pr);
    F1OdrStep(g1, k, pr);
  }

  /** The configuration write of an F1 preset. */
  lemma F1CfgStep(g: Gpio, k: int, pr: Preset)
    requires Active(g) && 0 <= k < 16
    ensures var g1 := SetPinCfg(g, k, PresetCfg(pr));
      g1 == g.(regs := g.regs.(crl := g1.regs.crl, crh := g1.regs.crh)) &&
      CfgNibble(pr, k, g.regs.crl, g.regs.crh, g1.regs.crl, g1.regs.crh)
  {
    hide FieldIs, SetPinCfg;
    CfgEffect(g, k, PresetCfg(pr));
  }

  /** The ODR write of an F1 pulled-input preset. */
  lemma F1OdrStep(g1: Gpio, k: int, pr: Preset)
    requires Active(g1) && 0 <= k < 16
    ensures var r := if pr == InPullUp then PinOn(g1, k) else if pr == InPullDown then PinOff(g1, k) else g1;
      r == WithOdr(g1, r.regs.odr) && OdrLevel(pr, k, g1.regs.odr, r.regs.odr)
  {
    hide PinBit, BitsSet, BitsCleared, SetOdrBits, ClearOdrBits;
    if pr == InPullUp {
      SetOdrEffect(g1, PinBit(k));
    } else if pr == InPullDown {
      ClearOdrEffect(g1, PinBit(k));
    }
  }

  /** On a bank in error the preset constructor writes nothing, and the
      pin's status still says whether the preset was known. */
  lemma PresetOnErrBank(p: Platform, g: Gpio, k: int, q: int)
    requires !Active(g) && 0 <= k < 256
    ensures var (pin, g') := ConstructPin(p, g, k, q);
      g' == g && pin.bound && pin.pin == k && (pin.status == Set <==> PresetOf(p, q).Some?)
  {
    if ModernGpio(p) {
      ModernPresetIsChain(p, g, k, q);
    }
  }

  /** Whether a pin object forwards to its bank. */
  predicate PinLive(pin: Pin)
  {
    pin.status != Err
  }

  /** The pin number is usable for the single-bit operations. */
  predicate BitOk(pin: Pin, g: Gpio)
  {
    PinLive(pin) && Active(g) ==> 0 <= pin.pin < 32
  }

  /** The pin number is usable for the field writers. */
  predicate FieldOk(pin: Pin, g: Gpio)
  {
    PinLive(pin) && Active(g) ==> 0 <= pin.pin < 16
  }

  function On(pin: Pin, g: Gpio): (r: Gpio)
    requires BitOk(pin, g)
    ensures r == WithOdr(g, r.regs.odr)
    ensures !PinLive(pin) || !Active(g) ==> r == g
    ensures PinLive(pin) && Active(g) ==> BitsSet(g.regs.odr, r.regs.odr, PinBit(pin.pin))
  {
    if !PinLive(pin) then g else PinOn(g, pin.pin)
  }

  function Off(pin: Pin, g: Gpio): (r: Gpio)
    requires BitOk(pin, g)
    ensures r == WithOdr(g, r.regs.odr)
    ensures !PinLive(pin) || !Active(g) ==> r == g
    ensures PinLive(pin) && Active(g) ==> BitsCleared(g.regs.odr, r.regs.odr, PinBit(pin.pin))
  {
    if !PinLive(pin) then g else PinOff(g, pin.pin)
  }

  function Toggle(pin: Pin, g: Gpio): (r: Gpio)
    requires BitOk(pin, g)
    ensures r == WithOdr(g, r.regs.odr)
    ensures !PinLive(pin) || !Active(g) ==> r == g
    ensures PinLive(pin) && Active(g) ==> BitsFlipped(g.regs.odr, r.regs.odr, PinBit(pin.pin))
  {
    if !PinLive(pin) then g else PinToggle(g, pin.pin)
  }

  function ReadVia(pin: Pin, g: Gpio): (on: bool)
    requires BitOk(pin, g)
    ensures on <==> PinLive(pin) && Active(g) && AnySet(Read(g), PinBit(pin.pin))
  {
    if !PinLive(pin) then false else ReadPin(g, pin.pin)
  }

  /** `get_status` of a pin object. */
  function PinStatus(pin: Pin): (c: int)
    ensures FromCode(c) == Some(pin.status)
  {
    CodeRoundTrip(pin.status);
    Code(pin.status)
  }

  function SetMode(pin: Pin, g: Gpio, v: bv32): (r: Gpio)
    requires FieldOk(pin, g)
    ensures OnlyModer(g, r)
    ensures !PinLive(pin) || !Active(g) ==> r == g
  {
    if !PinLive(pin) then g else SetPinMode(g, pin.pin, v)
  }

  function SetType(pin: Pin, g: Gpio, v: bv32): (r: Gpio)
    requires FieldOk(pin, g)
    ensures OnlyOtyper(g, r)
    ensures !PinLive(pin) || !Active(g) ==> r == g
  {
    if !PinLive(pin) then g else SetPinType(g, pin.pin, v)
  }

  function SetSpeed(pin: Pin, g: Gpio, v: bv32): (r: Gpio)
    requires FieldOk(pin, g)
    ensures OnlyOspeedr(g, r)
    ensures !PinLive(pin) || !Active(g) ==> r == g
  {
    if !PinLive(pin) then g else SetPinSpeed(g, pin.pin, v)
  }

  function SetPupd(pin: Pin, g: Gpio, v: bv32): (r: Gpio)
    requires FieldOk(pin, g)
    ensures OnlyPupdr(g, r)
    ensures !PinLive(pin) || !Active(g) ==> r == g
  {
    if !PinLive(pin) then g else SetPinPupd(g, pin.pin, v)
  }

  function SetAltFunc(pin: Pin, g: Gpio, v: bv32): (r: Gpio)
    requires FieldOk(pin, g)
    ensures OnlyAfr(g, r)
    ensures !PinLive(pin) || !Active(g) ==> r == g
  {
    if !PinLive(pin) then g else SetPinAf(g, pin.pin, v)
  }

  function SetCfg(pin: Pin, g: Gpio, v: bv32): (r: Gpio)
    requires FieldOk(pin, g)
    ensures OnlyCr(g, r)
    ensures !PinLive(pin) || !Active(g) ==> r == g
  {
    if !PinLive(pin) then g else SetPinCfg(g, pin.pin, v)
  }

  /** A pin object in error leaves its bank alone and reads false. */
  lemma PinObjectGuarded(pin: Pin, g: Gpio)
    requires !PinLive(pin)
    ensures On(pin, g) == g && Off(pin, g) == g && Toggle(pin, g) == g && !ReadVia(pin, g)
  {
  }

  /** A live pin object on an active bank drives its own ODR bit high,
      keeping every other ODR bit and every other register. */
  lemma PinObjectOn(pin: Pin, g: Gpio)
    requires PinLive(pin) && Active(g) && 0 <= pin.pin < 32
    ensures var r := On(pin, g); r == WithOdr(g, r.regs.odr) && BitsSet(g.regs.odr, r.regs.odr, PinBit(pin.pin))
  {
    hide PinBit, BitsSet, SetOdrBits;
    SetOdrEffect(g, PinBit(pin.pin));
  }

  /** ... drives its own ODR bit low. */
  lemma PinObjectOff(pin: Pin, g: Gpio)
    requires PinLive(pin) && Active(g) && 0 <= pin.pin < 32
    ensures var r := Off(pin, g); r == WithOdr(g, r.regs.odr) && BitsCleared(g.regs.odr, r.regs.odr, PinBit(pin.pin))
  {
    hide PinBit, BitsCleared, ClearOdrBits;
    ClearOdrEffect(g, PinBit(pin.pin));
  }

  /** ... flips its own ODR bit; two toggles restore the bank. */
  lemma PinObjectToggle(pin: Pin, g: Gpio)
    requires PinLive(pin) && Active(g) && 0 <= pin.pin < 32
    ensures var r := Toggle(pin, g); r == WithOdr(g, r.regs.odr) && BitsFlipped(g.regs.odr, r.regs.odr, PinBit(pin.pin))
    ensures Toggle(pin, Toggle(pin, g)) == g
  {
    hide PinBit, BitsFlipped, ToggleOdrBits;
    ToggleOdrEffect(g, PinBit(pin.pin));
    ToggleTwice(g, PinBit(pin.pin));
  }

  /** ... and reads its own IDR bit. */
  lemma PinObjectRead(pin: Pin, g: Gpio)
    requires PinLive(pin) && Active(g) && 0 <= pin.pin < 32
    ensures ReadVia(pin, g) <==> AnySet(g.regs.idr, PinBit(pin.pin))
  {
    hide PinBit, AnySet;
  }

  /** A pin object in error leaves its bank alone for every field writer;
      a live one on an active bank writes its own pin's fields. */
  lemma PinObjectFields(pin: Pin, g: Gpio, v: bv32)
    requires FieldOk(pin, g)
    ensures !PinLive(pin) ==>
      SetMode(pin, g, v) == g && SetType(pin, g, v) == g && SetSpeed(pin, g, v) == g &&
      SetPupd(pin, g, v) == g && SetAltFunc(pin, g, v) == g && SetCfg(pin, g, v) == g
    ensures PinLive(pin) && Active(g) && v < 4 ==>
      FieldIs(g.regs.moder, SetMode(pin, g, v).regs.moder, 3, 2 * pin.pin, v) &&
      FieldIs(g.regs.ospeedr, SetSpeed(pin, g, v).regs.ospeedr, 3, 2 * pin.pin, v) &&
      FieldIs(g.regs.pupdr, SetPupd(pin, g, v).regs.pupdr, 3, 2 * pin.pin, v)
  {
    hide SetField, FieldIs;
    if PinLive(pin) && Active(g) && v < 4 {
      ModeEffect(g, pin.pin, v);
      SpeedEffect(g, pin.pin, v);
      PupdEffect(g, pin.pin, v);
    }
  }
}
