/** The register map of the LSM9DS1: the addresses the driver uses, the
    position of each configurable field, the named options whose position in
    their enumeration is the code written to the device, and the fields of the
    FIFO_SRC status register. */
module RegisterMap {
  import opened BitField

  /** The registers the driver reads or writes, with their I2C addresses. */
  datatype Register = CtrlReg1G | OutXLG | CtrlReg6Xl | CtrlReg9 | FifoCtrl | FifoSrc
  {
    function Address(): nat
    {
      match this
      case CtrlReg1G => 0x10
      case OutXLG => 0x18
      case CtrlReg6Xl => 0x20
      case CtrlReg9 => 0x23
      case FifoCtrl => 0x2E
      case FifoSrc => 0x2F
    }
  }

  /** Field positions: right-aligned masks and the offset of their lowest bit. */
  const OdrMask: bv32 := 0x7
  const OdrLsbPos: bv32 := 5
  const AccelerometerScaleMask: bv32 := 0x3
  const AccelerometerScaleLsbPos: bv32 := 3
  const GyroScaleMask: bv32 := 0x3
  const GyroScaleLsbPos: bv32 := 3
  const FifoEnValMask: bv32 := 0x1
  const FifoEnLsbPos: bv32 := 1
  const FifoModeMask: bv32 := 0x7
  const FifoModeLsbPos: bv32 := 5
  const FifoThresholdMask: bv32 := 0x1F
  const FifoThresholdLsbPos: bv32 := 0
  const FifoThresholdMax: int := 31
  const FifoThresholdMin: int := 0
  const FifoOverrunPos: bv32 := 6
  const FifoThresholdStatusPos: bv32 := 7
  const FifoSamplesStoredMask: bv32 := 0x3F

  /** Bytes per FIFO line: gyroscope X, Y, Z then accelerometer X, Y, Z, two bytes each. */
  const BytesPerFifoLine: nat := 12

  /** Gyroscope output data rate (CTRL_REG1_G bits 5-7). */
  datatype Odr = OdrOff | Odr14_9 | Odr59_5 | Odr119 | Odr238 | Odr476 | Odr952

  /** Accelerometer full scale (CTRL_REG6_XL bits 3-4); note 16 g comes second. */
  datatype AccelerometerScale = G2 | G16 | G4 | G8

  /** Gyroscope full scale (CTRL_REG1_G bits 3-4); DpsNa fills the unused code 2. */
  datatype GyroScale = Dps245 | Dps500 | DpsNa | Dps2000

  /** FIFO mode (FIFO_CTRL bits 5-7); Na and Na2 fill the unused codes 2 and 5. */
  datatype FifoMode = Bypass | Fifo | Na | ContinuousThenFifo | BypassThenContinuous | Na2 | Continuous

  /** A named option together with the field it is written to. */
  datatype RegisterValue =
    | OdrValue(odr: Odr)
    | AccelerometerScaleValue(accelerometerScale: AccelerometerScale)
    | GyroScaleValue(gyroScale: GyroScale)
    | FifoModeValue(fifoMode: FifoMode)
  {
    function ValueMask(): bv32
    {
      match this
      case OdrValue(_) => OdrMask
      case AccelerometerScaleValue(_) => AccelerometerScaleMask
      case GyroScaleValue(_) => GyroScaleMask
      case FifoModeValue(_) => FifoModeMask
    }

    function ValueLsbPos(): bv32
    {
      match this
      case OdrValue(_) => OdrLsbPos
      case AccelerometerScaleValue(_) => AccelerometerScaleLsbPos
      case GyroScaleValue(_) => GyroScaleLsbPos
      case FifoModeValue(_) => FifoModeLsbPos
    }

    /** The code written to the device: the option's position in its enumeration. */
    function Ordinal(): bv32
    {
      match this
      case OdrValue(o) =>
        (match o
         case OdrOff => 0 case Odr14_9 => 1 case Odr59_5 => 2 case Odr119 => 3
         case Odr238 => 4 case Odr476 => 5 case Odr952 => 6)
      case AccelerometerScaleValue(s) =>
        (match s case G2 => 0 case G16 => 1 case G4 => 2 case G8 => 3)
      case GyroScaleValue(s) =>
        (match s case Dps245 => 0 case Dps500 => 1 case DpsNa => 2 case Dps2000 => 3)
      case FifoModeValue(m) =>
        (match m
         case Bypass => 0 case Fifo => 1 case Na => 2 case ContinuousThenFifo => 3
         case BypassThenContinuous => 4 case Na2 => 5 case Continuous => 6)
    }
  }

  /** Every option's field lies inside one byte and every code fits its mask,
      so the codec's precondition holds for every option. */
  lemma RegisterValueFits(v: RegisterValue)
    ensures FitsByte(v.ValueMask(), v.ValueLsbPos())
    ensures v.Ordinal() & !v.ValueMask() == 0
  {
    match v
    case OdrValue(_) =>
    case AccelerometerScaleValue(_) =>
    case GyroScaleValue(_) =>
    case FifoModeValue(_) =>
  }

  /** Distinct options of one enumeration are written as distinct codes. */
  lemma OrdinalInjective(v: RegisterValue, w: RegisterValue)
    requires v.OdrValue? == w.OdrValue? && v.AccelerometerScaleValue? == w.AccelerometerScaleValue?
    requires v.GyroScaleValue? == w.GyroScaleValue?
    requires v != w
    ensures v.Ordinal() != w.Ordinal()
  {
  }

  /** The output data rate (bits 5-7) and the gyroscope scale (bits 3-4)
      occupy disjoint bits of CTRL_REG1_G. */
  lemma CtrlReg1GFieldsDisjoint()
    ensures Shl(OdrMask, OdrLsbPos) & Shl(GyroScaleMask, GyroScaleLsbPos) == 0
  {
  }

  /** The FIFO mode (bits 5-7) and the FIFO threshold (bits 0-4) occupy
      disjoint bits of FIFO_CTRL. */
  lemma FifoCtrlFieldsDisjoint()
    ensures Shl(FifoModeMask, FifoModeLsbPos) & Shl(FifoThresholdMask, FifoThresholdLsbPos) == 0
  {
  }

  // ---------------------------------------------------------------------------
  // FIFO_SRC: FTH (bit 7), OVRN (bit 6), FSS (bits 0-5)
  // ---------------------------------------------------------------------------

  /** `FIFO_SAMPLES_STORED_MASK & fifoSRCValue`. */
  function SamplesStored(src: bv8): (n: nat)
    ensures n < 64
  {
    (FifoSamplesStoredMask & (src as bv32)) as int
  }

  /** `(1 << FIFO_OVERRUN_POS) & fifoSRCValue != 0`. */
  predicate Overrun(src: bv8)
  {
    Shl(1, FifoOverrunPos) & (src as bv32) != 0
  }

  /** `(1 << FIFO_THRESHOLD_STATUS_POS) & fifoSRCValue != 0`. */
  predicate ThresholdReached(src: bv8)
  {
    Shl(1, FifoThresholdStatusPos) & (src as bv32) != 0
  }

  /** The status queries as single bits and the low six bits of FIFO_SRC. */
  lemma FifoSrcBits(src: bv8)
    ensures Overrun(src) <==> src & 0x40 != 0
    ensures ThresholdReached(src) <==> src & 0x80 != 0
    ensures SamplesStored(src) == (src & 0x3F) as int
  {
  }

  /** The three status queries read disjoint parts of FIFO_SRC that together
      make up the whole byte. */
  lemma FifoSrcFields(src: bv8)
    ensures src as bv32 == (if ThresholdReached(src) then 0x80 else 0)
                          | (if Overrun(src) then 0x40 else 0)
                          | (FifoSamplesStoredMask & (src as bv32))
  {
  }
}
