/** Shared peripheral model: the lifecycle status every peripheral object
    carries, the build target, and the common I/O base object (`pIO`) whose
    default operations every peripheral inherits unless it overrides them. */
module Core {

  /** Peripheral lifecycle status. The source stores it as a plain `int`
      holding one of the four `pSTATUS_*` codes. */
  datatype Status = Err | Set | On | Run

  /** The numeric `pSTATUS_*` code of a status. */
  function Code(s: Status): (c: int)
    ensures 0 <= c < 4
  {
    match s
    case Err => 0
    case Set => 1
    case On => 2
    case Run => 3
  }

  /** Reads a `pSTATUS_*` code back; codes outside 0..3 have no status. */
  function FromCode(c: int): (s: Option<Status>)
    ensures s.Some? <==> 0 <= c < 4
  {
    if c == 0 then Some(Err)
    else if c == 1 then Some(Set)
    else if c == 2 then Some(On)
    else if c == 3 then Some(Run)
    else None
  }

  datatype Option<T> = None | Some(value: T)

  /** Every status has its own code and decodes back to itself. */
  lemma CodeRoundTrip(s: Status)
    ensures FromCode(Code(s)) == Some(s)
    ensures forall t: Status :: Code(t) == Code(s) ==> t == s
  {
  }

  /** The build target selected by the preprocessor (`STARm_F0`, ...). */
  datatype Platform = F0 | F1 | F3 | L0

  /** Targets that use the MODER/OTYPER/OSPEEDR/PUPDR/AFR pin layout;
      F1 uses the packed CRL/CRH layout instead. */
  predicate ModernGpio(p: Platform)
  {
    p != F1
  }

  /** The two targets for which the I2C and display code is written. */
  type BusPlatform = p: Platform | p == F1 || p == F3 witness F1

  /** Clock-control registers a peripheral may record (`enable_reg`,
      `reset_reg`); `NullReg` is the default null pointer. Addresses are
      vendor values and are kept symbolic. */
  datatype RegRef = NullReg | AhbEnr | AhbRstr | Apb1Enr | Apb1Rstr | Apb2Enr | Apb2Rstr

  /** Bit masks a peripheral may record (`enable_bit`, `reset_bit`);
      `NoBit` is the default 0. */
  datatype GpioPort = PortA | PortB | PortC | PortD | PortE | PortF | PortG | PortH
  datatype RccBit =
    | NoBit
    | GpioEn(port: GpioPort) | GpioRst(port: GpioPort)
    | IopEn(port: GpioPort) | IopRst(port: GpioPort)
    | I2c1En | I2c1Rst

  /** The fields of the `pIO` base object. */
  datatype IoCore = IoCore(status: Status, enableReg: RegRef, resetReg: RegRef,
                           enableBit: RccBit, resetBit: RccBit)

  /** The state of a freshly constructed `pIO`: status Err, null registers
      and zero bits. */
  function DefaultIo(): (io: IoCore)
    ensures io.status == Err && Code(io.status) == 0
    ensures io.enableReg == NullReg && io.resetReg == NullReg
    ensures io.enableBit == NoBit && io.resetBit == NoBit
  {
    IoCore(Err, NullReg, NullReg, NoBit, NoBit)
  }

  /** The base-class virtual operations. Neither GPIO nor I2C overrides
      `clock_en`, `reset` or `disable`, so these are the behaviour of every
      peripheral. */
  datatype IoOp = ReadOp | WriteOp(dat: bv32) | ClockEnOp | ResetOp | DisableOp | GetStatusOp

  /** Outcome of a base-class operation: the object after the call and the
      value it returned (0 for operations returning `void`). */
  datatype IoResult = IoResult(io: IoCore, value: int)

  /** `pIO::read` returns 0, `pIO::get_status` returns the stored status
      code, and the other defaults have no effect. */
  function DefaultOp(io: IoCore, op: IoOp): IoResult
  {
    match op
    case ReadOp => IoResult(io, 0)
    case WriteOp(_) => IoResult(io, 0)
    case ClockEnOp => IoResult(io, 0)
    case ResetOp => IoResult(io, 0)
    case DisableOp => IoResult(io, 0)
    case GetStatusOp => IoResult(io, Code(io.status))
  }

  /** No default operation changes the object, and only `get_status`
      returns anything but 0; what it returns is the code of the stored
      status. */
  lemma DefaultOpsAreInert(io: IoCore, op: IoOp)
    ensures DefaultOp(io, op).io == io
    ensures op.GetStatusOp? ==> FromCode(DefaultOp(io, op).value) == Some(io.status)
    ensures !op.GetStatusOp? ==> DefaultOp(io, op).value == 0
  {
    if op.GetStatusOp? {
      CodeRoundTrip(io.status);
    }
  }

  /** C integer division truncates toward zero (Dafny's `/` is Euclidean). */
  function CDiv(a: int, b: int): (q: int)
    requires b > 0
    ensures a >= 0 ==> 0 <= a - q * b < b
    ensures a < 0 ==> -b < a - q * b <= 0
  {
    if a >= 0 then a / b else -((-a) / b)
  }

  /** The range of the source's 32-bit `int`. */
  const IntMin: int := -0x8000_0000
  const IntMax: int := 0x7FFF_FFFF

  predicate IsInt32(v: int)
  {
    IntMin <= v <= IntMax
  }
}
