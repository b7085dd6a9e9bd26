/** The LSM9DS1 driver object: configuration by read-modify-write of one
    register field, the FIFO_SRC status queries, the FIFO drain that decodes
    bursts into the reading queue, and the queue's `getNext`/`hasNext`. */
module Driver {
  import opened Optional
  import opened BitField
  import opened RegisterMap
  import opened I2c
  import opened Decoder
  import opened ReadingQueue

  // ---------------------------------------------------------------------------
  // The byte a read-modify-write puts on the bus
  // ---------------------------------------------------------------------------

  /** `(byte) mask(current, newData, lsbPos, valueMask)` for the register byte
      `current` that was just read. */
  function FieldWrite(current: bv8, newData: bv32, lsbPos: bv32, valueMask: bv32): bv8
  {
    ByteCast(Mask(current as bv32, newData, lsbPos, valueMask))
  }

  /** A field write reads back as the data written and leaves every other bit
      of the register as it was. */
  lemma FieldWriteEffect(current: bv8, newData: bv32, lsbPos: bv32, valueMask: bv32)
    requires FitsByte(valueMask, lsbPos)
    requires newData & !valueMask == 0
    ensures Extract(FieldWrite(current, newData, lsbPos, valueMask) as bv32, lsbPos, valueMask) == newData
    ensures FieldWrite(current, newData, lsbPos, valueMask) as bv32 & !Shl(valueMask, lsbPos)
            == current as bv32 & !Shl(valueMask, lsbPos)
  {
    FieldWriteIsMask(current, newData, lsbPos, valueMask);
    MaskRoundTrip(current as bv32, newData, lsbPos, valueMask);
    MaskKeepsOtherBits(current as bv32, newData, lsbPos, valueMask);
  }

  /** The `(byte)` cast loses nothing when the field lies in the register byte. */
  lemma FieldWriteIsMask(current: bv8, newData: bv32, lsbPos: bv32, valueMask: bv32)
    requires FitsByte(valueMask, lsbPos)
    requires newData & !valueMask == 0
    ensures FieldWrite(current, newData, lsbPos, valueMask) as bv32 == Mask(current as bv32, newData, lsbPos, valueMask)
  {
    var m := Mask(current as bv32, newData, lsbPos, valueMask);
    MaskStaysInByte(current as bv32, newData, lsbPos, valueMask);
    ByteCastKeepsByte(m);
  }

  /** Writing a named option sets its field to the option's ordinal and keeps
      the rest of the register. */
  lemma OptionWriteEffect(current: bv8, v: RegisterValue)
    ensures Extract(FieldWrite(current, v.Ordinal(), v.ValueLsbPos(), v.ValueMask()) as bv32,
                    v.ValueLsbPos(), v.ValueMask()) == v.Ordinal()
    ensures FieldWrite(current, v.Ordinal(), v.ValueLsbPos(), v.ValueMask()) as bv32 & !Shl(v.ValueMask(), v.ValueLsbPos())
            == current as bv32 & !Shl(v.ValueMask(), v.ValueLsbPos())
  {
    RegisterValueFits(v);
    FieldWriteEffect(current, v.Ordinal(), v.ValueLsbPos(), v.ValueMask());
  }

  /** A write to one field keeps the value of every field disjoint from it. */
  lemma WriteKeepsDisjointField(register: bv8, d1: bv32, p1: bv32, m1: bv32, d2: bv32, p2: bv32, m2: bv32)
    requires FitsByte(m1, p1) && Extract(register as bv32, p1, m1) == d1
    requires FitsByte(m2, p2) && d2 & !m2 == 0
    requires Shl(m1, p1) & Shl(m2, p2) == 0
    ensures Extract(FieldWrite(register, d2, p2, m2) as bv32, p1, m1) == d1
  {
    FieldWriteEffect(register, d2, p2, m2);
    OutsideKeepsField(register as bv32, FieldWrite(register, d2, p2, m2) as bv32, Shl(m2, p2), p1, m1);
  }

  /** The output data rate and the gyroscope scale share CTRL_REG1_G: setting
      the scale after the rate keeps the rate. */
  lemma GyroScaleKeepsOdr(current: bv8, odr: Odr, scale: GyroScale)
    ensures var afterOdr := FieldWrite(current, OdrValue(odr).Ordinal(), OdrLsbPos, OdrMask);
            Extract(FieldWrite(afterOdr, GyroScaleValue(scale).Ordinal(), GyroScaleLsbPos, GyroScaleMask) as bv32,
                    OdrLsbPos, OdrMask) == OdrValue(odr).Ordinal()
  {
    RegisterValueFits(OdrValue(odr));
    RegisterValueFits(GyroScaleValue(scale));
    CtrlReg1GFieldsDisjoint();
    FieldWriteEffect(current, OdrValue(odr).Ordinal(), OdrLsbPos, OdrMask);
    WriteKeepsDisjointField(FieldWrite(current, OdrValue(odr).Ordinal(), OdrLsbPos, OdrMask),
                            OdrValue(odr).Ordinal(), OdrLsbPos, OdrMask,
                            GyroScaleValue(scale).Ordinal(), GyroScaleLsbPos, GyroScaleMask);
  }

  /** The FIFO mode and threshold share FIFO_CTRL: setting the threshold after
      the mode keeps the mode. */
  lemma ThresholdKeepsFifoMode(current: bv8, mode: FifoMode, threshold: int)
    ensures var afterMode := FieldWrite(current, FifoModeValue(mode).Ordinal(), FifoModeLsbPos, FifoModeMask);
            Extract(FieldWrite(afterMode, ClampThreshold(threshold) as bv32, FifoThresholdLsbPos, FifoThresholdMask) as bv32,
                    FifoModeLsbPos, FifoModeMask) == FifoModeValue(mode).Ordinal()
  {
    RegisterValueFits(FifoModeValue(mode));
    FifoCtrlFieldsDisjoint();
    var code := ClampThreshold(threshold) as bv32;
    assert code & !FifoThresholdMask == 0;
    FieldWriteEffect(current, FifoModeValue(mode).Ordinal(), FifoModeLsbPos, FifoModeMask);
    WriteKeepsDisjointField(FieldWrite(current, FifoModeValue(mode).Ordinal(), FifoModeLsbPos, FifoModeMask),
                            FifoModeValue(mode).Ordinal(), FifoModeLsbPos, FifoModeMask,
                            code, FifoThresholdLsbPos, FifoThresholdMask);
  }

  // ---------------------------------------------------------------------------
  // The FIFO threshold
  // ---------------------------------------------------------------------------

  /** The threshold after setFIFOThreshold's two saturating comparisons. */
  function ClampThreshold(threshold: int): (c: int)
    ensures FifoThresholdMin <= c <= FifoThresholdMax
  {
    if threshold > FifoThresholdMax then FifoThresholdMax
    else if threshold < FifoThresholdMin then FifoThresholdMin
    else threshold
  }

  /** Saturation: above the maximum acts as the maximum, below the minimum as
      the minimum, and a threshold in range is kept. */
  lemma ThresholdSaturates(threshold: int)
    ensures threshold > 31 ==> ClampThreshold(threshold) == ClampThreshold(31)
    ensures threshold < 0 ==> ClampThreshold(threshold) == ClampThreshold(0)
    ensures 0 <= threshold <= 31 ==> ClampThreshold(threshold) == threshold
  {
  }

  /** setFIFOThreshold sets bits 0-4 of FIFO_CTRL to the clamped threshold and
      keeps the FIFO mode in bits 5-7. */
  lemma ThresholdWriteEffect(current: bv8, threshold: int)
    ensures var written := FieldWrite(current, ClampThreshold(threshold) as bv32,
                                      FifoThresholdLsbPos, FifoThresholdMask) as bv32;
            written & 0x1F == ClampThreshold(threshold) as bv32
            && written & 0xE0 == current as bv32 & 0xE0
  {
    var code := ClampThreshold(threshold) as bv32;
    FieldWriteEffect(current, code, FifoThresholdLsbPos, FifoThresholdMask);
  }

  // ---------------------------------------------------------------------------
  // What one register read-modify-write does on the bus
  // ---------------------------------------------------------------------------

  /** The outcome of reading register `address`, merging `newData` into the
      field and writing the byte back, for a bus whose transaction log was
      log0 and registers regs0 before, and log1 and regs1 after. A failed read
      ends the operation before the write. */
  ghost predicate ReadModifyWrite(log0: seq<Transaction>, regs0: seq<bv8>, failing: set<nat>,
                                  log1: seq<Transaction>, regs1: seq<bv8>, r: Result<()>,
                                  address: nat, newData: bv32, lsbPos: bv32, valueMask: bv32)
    requires |regs0| == 256 && address < 256
  {
    if |log0| in failing then
      r == IOError && log1 == log0 + [ReadByte(address)] && regs1 == regs0
    else
      var w := FieldWrite(regs0[address], newData, lsbPos, valueMask);
      log1 == log0 + [ReadByte(address), WriteByte(address, w)]
      && if |log0| + 1 in failing then r == IOError && regs1 == regs0
         else r == Ok(()) && regs1 == regs0[address := w]
  }

  // ---------------------------------------------------------------------------
  // The driver
  // ---------------------------------------------------------------------------

  class Lsm9ds1 {
    var i2c: Device
    /** Decoded readings not yet taken by getNext, oldest first. */
    var samples: seq<IMUReading>

    ghost predicate Valid()
      reads this, i2c
    {
      i2c.Valid()
    }

    /** `new LSM9DS1(device)`: no I/O, an empty queue. */
    constructor (device: Device)
      requires device.Valid()
      ensures Valid()
      ensures i2c == device && samples == []
    {
      i2c := device;
      samples := [];
    }

    /** `genericRegisterWrite`: read the register, put the option's ordinal
        into its field, write the byte back. */
    method GenericRegisterWrite(register: Register, value: RegisterValue) returns (r: Result<()>)
      requires Valid()
      modifies i2c`log, i2c`registers
      ensures Valid()
      ensures ReadModifyWrite(old(i2c.log), old(i2c.registers), i2c.failing, i2c.log, i2c.registers, r,
                              register.Address(), value.Ordinal(), value.ValueLsbPos(), value.ValueMask())
    {
      var registerValue := i2c.Read(register.Address());
      if registerValue.IOError? {
        return IOError;
      }
      var result := FieldWrite(registerValue.value, value.Ordinal(), value.ValueLsbPos(), value.ValueMask());
      r := i2c.Write(register.Address(), result);
    }

    /** `setODR`: CTRL_REG1_G bits 5-7. */
    method SetOdr(odr: Odr) returns (r: Result<()>)
      requires Valid()
      modifies i2c`log, i2c`registers
      ensures Valid()
      ensures ReadModifyWrite(old(i2c.log), old(i2c.registers), i2c.failing, i2c.log, i2c.registers, r,
                              0x10, OdrValue(odr).Ordinal(), OdrLsbPos, OdrMask)
    {
      r := GenericRegisterWrite(CtrlReg1G, OdrValue(odr));
    }

    /** `setAccelerometerScale`: CTRL_REG6_XL bits 3-4. */
    method SetAccelerometerScale(scale: AccelerometerScale) returns (r: Result<()>)
      requires Valid()
      modifies i2c`log, i2c`registers
      ensures Valid()
      ensures ReadModifyWrite(old(i2c.log), old(i2c.registers), i2c.failing, i2c.log, i2c.registers, r,
                              0x20, AccelerometerScaleValue(scale).Ordinal(),
                              AccelerometerScaleLsbPos, AccelerometerScaleMask)
    {
      r := GenericRegisterWrite(CtrlReg6Xl, AccelerometerScaleValue(scale));
    }

    /** `setGyroscopeScale`: CTRL_REG1_G bits 3-4. */
    method SetGyroscopeScale(scale: GyroScale) returns (r: Result<()>)
      requires Valid()
      modifies i2c`log, i2c`registers
      ensures Valid()
      ensures ReadModifyWrite(old(i2c.log), old(i2c.registers), i2c.failing, i2c.log, i2c.registers, r,
                              0x10, GyroScaleValue(scale).Ordinal(), GyroScaleLsbPos, GyroScaleMask)
    {
      r := GenericRegisterWrite(CtrlReg1G, GyroScaleValue(scale));
    }

    /** `setFIFOMode`: FIFO_CTRL bits 5-7. */
    method SetFifoMode(mode: FifoMode) returns (r: Result<()>)
      requires Valid()
      modifies i2c`log, i2c`registers
      ensures Valid()
      ensures ReadModifyWrite(old(i2c.log), old(i2c.registers), i2c.failing, i2c.log, i2c.registers, r,
                              0x2E, FifoModeValue(mode).Ordinal(), FifoModeLsbPos, FifoModeMask)
    {
      r := GenericRegisterWrite(FifoCtrl, FifoModeValue(mode));
    }

    /** `setFIFOEnabled`: CTRL_REG9 bit 1 set to 1 or 0. */
    method SetFifoEnabled(enabled: bool) returns (r: Result<()>)
      requires Valid()
      modifies i2c`log, i2c`registers
      ensures Valid()
      ensures ReadModifyWrite(old(i2c.log), old(i2c.registers), i2c.failing, i2c.log, i2c.registers, r,
                              0x23, if enabled then 1 else 0, FifoEnLsbPos, FifoEnValMask)
    {
      var registerValue := i2c.Read(CtrlReg9.Address());
      if registerValue.IOError? {
        return IOError;
      }
      var result := FieldWrite(registerValue.value, if enabled then 1 else 0, FifoEnLsbPos, FifoEnValMask);
      r := i2c.Write(CtrlReg9.Address(), result);
    }

    /** `setFIFOThreshold`: the threshold is saturated to 0..31 and written to
        FIFO_CTRL bits 0-4. */
    method SetFifoThreshold(threshold: int) returns (r: Result<()>)
      requires Valid()
      modifies i2c`log, i2c`registers
      ensures Valid()
      ensures ReadModifyWrite(old(i2c.log), old(i2c.registers), i2c.failing, i2c.log, i2c.registers, r,
                              0x2E, ClampThreshold(threshold) as bv32, FifoThresholdLsbPos, FifoThresholdMask)
    {
      var t := threshold;
      if t > FifoThresholdMax {
        t := FifoThresholdMax;
      }
      if t < FifoThresholdMin {
        t := FifoThresholdMin;
      }
      var registerValue := i2c.Read(FifoCtrl.Address());
      if registerValue.IOError? {
        return IOError;
      }
      var result := FieldWrite(registerValue.value, t as bv32, FifoThresholdLsbPos, FifoThresholdMask);
      r := i2c.Write(FifoCtrl.Address(), result);
    }

    /** `hasFIFOOverrun`: one read of FIFO_SRC, bit 6. */
    method HasFifoOverrun() returns (r: Result<bool>)
      requires Valid()
      modifies i2c`log
      ensures i2c.log == old(i2c.log) + [ReadByte(0x2F)]
      ensures Valid()
      ensures r == if old(i2c.NextFails()) then IOError else Ok(Overrun(i2c.registers[0x2F]))
    {
      var fifoSrcValue := i2c.Read(FifoSrc.Address());
      if fifoSrcValue.IOError? {
        return IOError;
      }
      var masked := Shl(1, FifoOverrunPos) & fifoSrcValue.value as bv32;
      r := Ok(masked != 0);
    }

    /** `isFIFOThresholdReached`: one read of FIFO_SRC, bit 7. */
    method IsFifoThresholdReached() returns (r: Result<bool>)
      requires Valid()
      modifies i2c`log
      ensures i2c.log == old(i2c.log) + [ReadByte(0x2F)]
      ensures Valid()
      ensures r == if old(i2c.NextFails()) then IOError else Ok(ThresholdReached(i2c.registers[0x2F]))
    {
      var fifoSrcValue := i2c.Read(FifoSrc.Address());
      if fifoSrcValue.IOError? {
        return IOError;
      }
      var masked := Shl(1, FifoThresholdStatusPos) & fifoSrcValue.value as bv32;
      r := Ok(masked != 0);
    }

    /** `getSamplesInFIFO`: one read of FIFO_SRC, bits 0-5. */
    method GetSamplesInFifo() returns (r: Result<nat>)
      requires Valid()
      modifies i2c`log
      ensures i2c.log == old(i2c.log) + [ReadByte(0x2F)]
      ensures Valid()
      ensures r == if old(i2c.NextFails()) then IOError else Ok(SamplesStored(i2c.registers[0x2F]))
    {
      var fifoSrcValue := i2c.Read(FifoSrc.Address());
      if fifoSrcValue.IOError? {
        return IOError;
      }
      var masked := FifoSamplesStoredMask & fifoSrcValue.value as bv32;
      r := Ok(masked as int);
    }

    /** `poll`: one drain of the FIFO. */
    method Poll()
      requires Valid()
      modifies this`samples, i2c`log, i2c`fifoStream
      ensures Valid()
      ensures DrainOutcome(old(i2c.log), old(i2c.fifoStream), old(samples), i2c.failing, i2c.registers[0x2F],
                           i2c.log, i2c.fifoStream, samples)
    {
      ReadFromSensor();
    }

    /** `readFromSensor`: read the sample count; when it is not zero, burst
        read twelve bytes per sample from OUT_X_L_G into a zeroed buffer of
        that length and parse the bytes delivered. An IOException ends the
        drain with the queue unchanged. */
    method ReadFromSensor()
      requires Valid()
      modifies this`samples, i2c`log, i2c`fifoStream
      ensures Valid()
      ensures DrainOutcome(old(i2c.log), old(i2c.fifoStream), old(samples), i2c.failing, i2c.registers[0x2F],
                           i2c.log, i2c.fifoStream, samples)
    {
      ghost var log0, stream0, q0 := i2c.log, i2c.fifoStream, samples;
      var samplesInFifo := GetSamplesInFifo();
      if samplesInFifo.IOError? || samplesInFifo.value == 0 {
        DrainStops(log0, stream0, q0, i2c.failing, i2c.registers[0x2F], i2c.log);
        return;
      }
      var dataLength := samplesInFifo.value * BytesPerFifoLine;
      var got := i2c.Burst(OutXLG.Address(), dataLength);
      if got.IOError? {
        DrainBurstFails(log0, stream0, q0, i2c.failing, i2c.registers[0x2F], i2c.log);
        return;
      }
      var data := got.value + seq(dataLength - |got.value|, _ => 0 as bv8);
      ParseReadings(data, |got.value|);
      DrainCompletes(log0, stream0, q0, i2c.failing, i2c.registers[0x2F], i2c.log, got.value, data, samples);
    }

    /** `parseReadings`: append the reading of every whole twelve-byte line
        among the first bytesRead bytes, in order. */
    method ParseReadings(data: seq<bv8>, bytesRead: int)
      requires bytesRead <= |data|
      modifies this`samples
      ensures samples == old(samples) + Readings(data, bytesRead)
    {
      var samplesRead := SamplesRead(bytesRead);
      ghost var lines := WholeLines(bytesRead);
      assert lines == if samplesRead <= 0 then 0 else samplesRead;
      var i := 0;
      while i < samplesRead
        invariant 0 <= i <= lines
        invariant samples == old(samples) + DecodeLines(data, i)
      {
        LineInRange(bytesRead, i);
        var start := i * BytesPerFifoLine;
        var end := (i + 1) * BytesPerFifoLine;
        DecodeLinesStep(data, i);
        var reading := BuildReading(data[start..end]);
        samples := samples + [reading.value];
        i := i + 1;
      }
    }

    /** `getNext`: `pollFirst` on the queue. */
    method GetNext() returns (r: Option<IMUReading>)
      modifies this`samples
      ensures (r, samples) == PollFirst(old(samples))
    {
      if samples == [] {
        return None;
      }
      r := Some(samples[0]);
      samples := samples[1..];
    }

    /** `hasNext`: the queue is not empty. */
    method HasNext() returns (b: bool)
      ensures b <==> samples != []
    {
      b := |samples| != 0;
    }
  }

  /** The drain ends after the count read when that read fails or the count
      is zero. */
  lemma DrainStops(log0: seq<Transaction>, stream0: seq<bv8>, q0: seq<IMUReading>,
                   failing: set<nat>, src: bv8, log1: seq<Transaction>)
    requires |log0| in failing || SamplesStored(src) == 0
    requires log1 == log0 + [ReadByte(0x2F)]
    ensures DrainOutcome(log0, stream0, q0, failing, src, log1, stream0, q0)
  {
  }

  /** The drain ends with nothing queued when the burst read fails. */
  lemma DrainBurstFails(log0: seq<Transaction>, stream0: seq<bv8>, q0: seq<IMUReading>,
                        failing: set<nat>, src: bv8, log1: seq<Transaction>)
    requires |log0| !in failing && SamplesStored(src) != 0 && |log0| + 1 in failing
    requires log1 == log0 + [ReadByte(0x2F)] + [ReadBurst(0x18, SamplesStored(src) * BytesPerFifoLine)]
    ensures DrainOutcome(log0, stream0, q0, failing, src, log1, stream0, q0)
  {
    assert log1 == log0 + [ReadByte(0x2F), ReadBurst(0x18, SamplesStored(src) * 12)];
  }

  /** A completed drain queues the readings of the whole lines delivered: the
      zero padding of the receive buffer decodes to nothing. */
  lemma DrainCompletes(log0: seq<Transaction>, stream0: seq<bv8>, q0: seq<IMUReading>,
                       failing: set<nat>, src: bv8, log1: seq<Transaction>,
                       got: seq<bv8>, data: seq<bv8>, q1: seq<IMUReading>)
    requires |log0| !in failing && SamplesStored(src) != 0 && |log0| + 1 !in failing
    requires log1 == log0 + [ReadByte(0x2F)] + [ReadBurst(0x18, SamplesStored(src) * BytesPerFifoLine)]
    requires got == stream0[..Min(SamplesStored(src) * BytesPerFifoLine, |stream0|)]
    requires data == got + seq(SamplesStored(src) * BytesPerFifoLine - |got|, _ => 0 as bv8)
    requires q1 == q0 + Readings(data, |got|)
    ensures DrainOutcome(log0, stream0, q0, failing, src, log1, stream0[|got|..], q1)
  {
    var n := |got|;
    WholeLinesOfCount(n);
    DecodeLinesPrefix(got, data, n / 12);
    DecodeLinesPrefix(got, stream0, n / 12);
    assert log1 == log0 + [ReadByte(0x2F), ReadBurst(0x18, SamplesStored(src) * 12)];
  }

  /** What readFromSensor does, given the transaction log, the device's
      stream of FIFO bytes and the queue before (log0, stream0, q0) and after
      (log1, stream1, q1), and the FIFO_SRC value src. */
  ghost predicate DrainOutcome(log0: seq<Transaction>, stream0: seq<bv8>, q0: seq<IMUReading>,
                               failing: set<nat>, src: bv8,
                               log1: seq<Transaction>, stream1: seq<bv8>, q1: seq<IMUReading>)
  {
    var count := SamplesStored(src);
    if |log0| in failing || count == 0 then
      log1 == log0 + [ReadByte(0x2F)] && stream1 == stream0 && q1 == q0
    else
      log1 == log0 + [ReadByte(0x2F), ReadBurst(0x18, count * 12)]
      && if |log0| + 1 in failing then stream1 == stream0 && q1 == q0
         else
           var n := Min(count * 12, |stream0|);
           stream1 == stream0[n..] && q1 == q0 + DecodeLines(stream0, n / 12)
  }
}
