# LSM9DS1 IMU driver

A Dafny model of the flight computer's register-level driver for the ST
LSM9DS1 inertial measurement unit (`LSM9DS1.java`), with proofs about it. The
driver does four things, and the model has the same four parts:

- **Bitfield codec** (`BitField.dfy`). `mask` is the read-modify-write combiner.
  It writes a value into a field of a register and keeps the other bits.
  Java `int`s are `bv32`, so the shift distance is taken modulo 32, as Java
  does. The `(byte)` cast on every write is also modelled.
- **Configuration and status** (`RegisterMap.dfy`, `Driver.dfy`).
  - The setters for output data rate, accelerometer scale, gyroscope scale,
    FIFO mode, FIFO enable and FIFO threshold each do one register read, one
    `mask` and one register write.
  - The code written for a named option is its position in its enumeration,
    including the filler slots `DPS_NA`, `NA` and `NA_2`.
  - The three FIFO_SRC queries read one byte and test a bit or the low six
    bits.
- **FIFO drain and decoder** (`Decoder.dfy`, `ShortDecode.dfy`, `Driver.dfy`).
  - `readFromSensor` reads the sample count. It burst-reads twelve bytes per
    sample from OUT_X_L_G (0x18) into a zeroed buffer.
  - `parseReadings` cuts the bytes delivered into whole twelve-byte lines.
  - `buildReading` turns a line into a gyroscope vector (values 0-2) and an
    accelerometer vector (values 3-5).
  - `getData` turns byte pairs into Java shorts through `(short) (char)`, as
    written in the code.
- **Reading queue** (`ReadingQueue.dfy`, `Driver.dfy`). The `samples` deque
  feeds `getNext` (`pollFirst`) and `hasNext`.

The driver is the class `Driver.Lsm9ds1`. Its fields are the device and the
`samples` queue, and its methods change them in place.

The I2C device (`I2c.dfy`) is an abstract register file:
- 256 byte registers;
- a stream of FIFO bytes that burst reads consume, possibly delivering fewer
  bytes than requested;
- a log of every transaction;
- a set of log positions at which a transaction raises an IOException.

With the log, the contracts can say exactly which bus transactions each
operation issues. With the set of failing positions, every fault scenario can
be stated without randomness.

`readFromSensor` catches an IOException and only prints its stack trace. The
model follows the code: the drain ends, and the queue is left as it was.

## Model

| member | source | states |
|---|---|---|
| BitField.Mask | src/org/rocketproplab/marginalstability/flightcomputer/hal/LSM9DS1.java:409-414 | no contract of its own: computes `newData << lsbPos \| (toMask & ~(valueMask << lsbPos))` with Java's mod-32 shift; MaskSetsField, MaskKeepsOtherBits and MaskRoundTrip state what it does |
| BitField.MaskSetsField | src/org/rocketproplab/marginalstability/flightcomputer/hal/LSM9DS1.java:409-414 | the bits of `valueMask << lsbPos` in the result are those of `newData << lsbPos`, for any arguments |
| BitField.MaskKeepsOtherBits | src/org/rocketproplab/marginalstability/flightcomputer/hal/LSM9DS1.java:409-414 | when newData lies within valueMask, every bit outside `valueMask << lsbPos` equals the bit of toMask |
| BitField.MaskRoundTrip | src/org/rocketproplab/marginalstability/flightcomputer/hal/LSM9DS1.java:395-414 | for a field inside one byte and newData within valueMask, `(mask(...) >> lsbPos) & valueMask == newData` |
| BitField.MaskStaysInByte | src/org/rocketproplab/marginalstability/flightcomputer/hal/LSM9DS1.java:409-414 | a field write on a register byte gives a value below 0x100 |
| BitField.MaskUnmaskedDataSpills | src/org/rocketproplab/marginalstability/flightcomputer/hal/LSM9DS1.java:395-414 | newData is not masked: writing 4 into a two-bit field at bit 0 sets bit 2 outside the field and reads back as 0, so the round trip needs its precondition |
| BitField.OutsideKeepsField | src/org/rocketproplab/marginalstability/flightcomputer/hal/LSM9DS1.java:409-414 | two values that agree outside a bit set agree on every field disjoint from it |
| BitField.ByteCastKeepsByte | src/org/rocketproplab/marginalstability/flightcomputer/hal/LSM9DS1.java:391 | the `(byte)` cast keeps every value below 0x100 |
| RegisterMap.Register.Address | src/org/rocketproplab/marginalstability/flightcomputer/hal/LSM9DS1.java:53-119 | no contract of its own: `getAddress()` of the `Registers` constants the driver uses, CTRL_REG1_G 0x10, OUT_X_L_G 0x18, CTRL_REG6_XL 0x20, CTRL_REG9 0x23, FIFO_CTRL 0x2E and FIFO_SRC 0x2F; the ensures of every setter, status query and ReadFromSensor name these literal addresses |
| RegisterMap.RegisterValue.Ordinal | src/org/rocketproplab/marginalstability/flightcomputer/hal/LSM9DS1.java:173-258 | no contract of its own: the position of each option in its Java enum, `value.ordinal()`; RegisterValueFits and OrdinalInjective state its properties |
| RegisterMap.RegisterValue.ValueMask | src/org/rocketproplab/marginalstability/flightcomputer/hal/LSM9DS1.java:183-252 | no contract of its own: `getValueMask()` of each enum, the `*_MASK` constant; RegisterValueFits states that every field lies in one byte |
| RegisterMap.RegisterValue.ValueLsbPos | src/org/rocketproplab/marginalstability/flightcomputer/hal/LSM9DS1.java:187-257 | no contract of its own: `getValueLSBPos()` of each enum, the `*_LSB_POS` constant; RegisterValueFits states that every field lies in one byte |
| RegisterMap.RegisterValueFits | src/org/rocketproplab/marginalstability/flightcomputer/hal/LSM9DS1.java:173-258 | every option's field lies in one byte, and every option's ordinal fits its mask |
| RegisterMap.OrdinalInjective | src/org/rocketproplab/marginalstability/flightcomputer/hal/LSM9DS1.java:173-258 | distinct options of one enumeration, filler slots included, have distinct ordinals |
| RegisterMap.CtrlReg1GFieldsDisjoint | src/org/rocketproplab/marginalstability/flightcomputer/hal/LSM9DS1.java:28-33 | ODR (bits 5-7) and gyroscope scale (bits 3-4) of CTRL_REG1_G are disjoint |
| RegisterMap.FifoCtrlFieldsDisjoint | src/org/rocketproplab/marginalstability/flightcomputer/hal/LSM9DS1.java:36-39 | FIFO mode (bits 5-7) and FIFO threshold (bits 0-4) of FIFO_CTRL are disjoint |
| RegisterMap.SamplesStored | src/org/rocketproplab/marginalstability/flightcomputer/hal/LSM9DS1.java:374-378 | the sample count read from FIFO_SRC is below 64 |
| RegisterMap.Overrun | src/org/rocketproplab/marginalstability/flightcomputer/hal/LSM9DS1.java:349-353 | no contract of its own: `(1 << FIFO_OVERRUN_POS) & fifoSRCValue != 0`; FifoSrcBits states it is bit 6 |
| RegisterMap.ThresholdReached | src/org/rocketproplab/marginalstability/flightcomputer/hal/LSM9DS1.java:362-366 | no contract of its own: `(1 << FIFO_THRESHOLD_STATUS_POS) & fifoSRCValue != 0`; FifoSrcBits states it is bit 7 |
| RegisterMap.FifoSrcBits | src/org/rocketproplab/marginalstability/flightcomputer/hal/LSM9DS1.java:349-378 | overrun holds iff bit 6 is set, threshold-reached iff bit 7 is set, and the sample count is the low six bits |
| RegisterMap.FifoSrcFields | src/org/rocketproplab/marginalstability/flightcomputer/hal/LSM9DS1.java:349-378 | the three queries read disjoint parts of FIFO_SRC that together rebuild the whole byte |
| ShortDecode.Signed16 | src/org/rocketproplab/marginalstability/flightcomputer/hal/LSM9DS1.java:502-505 | the two's-complement value of a 16-bit pattern lies in the short range and is congruent to the pattern modulo 2^16 |
| ShortDecode.ShortBits | src/org/rocketproplab/marginalstability/flightcomputer/hal/LSM9DS1.java:501-503 | no contract of its own: the 16 bits of `(short) (low \| (high << 8))` with `low` and `high` each `(short) (char)` of a byte; ShortBitsLowBelow80 and ShortBitsLowFrom80 state what they are |
| ShortDecode.ShortOf | src/org/rocketproplab/marginalstability/flightcomputer/hal/LSM9DS1.java:502-505 | every value getData stores is in the range of a Java short |
| ShortDecode.ShortBitsLowBelow80 | src/org/rocketproplab/marginalstability/flightcomputer/hal/LSM9DS1.java:502-505 | with low byte below 0x80, the short's bits are the high byte followed by the low byte |
| ShortDecode.ShortBitsLowFrom80 | src/org/rocketproplab/marginalstability/flightcomputer/hal/LSM9DS1.java:502-505 | with low byte 0x80 or more, the sign extension of the low byte fills the upper eight bits, whatever the high byte is |
| ShortDecode.ShortOfValue | src/org/rocketproplab/marginalstability/flightcomputer/hal/LSM9DS1.java:498-507 | a pair (L, H) decodes to signed16(H*256 + L) when L < 0x80, and to L - 256 otherwise |
| ShortDecode.ShortOfIsLittleEndianIff | src/org/rocketproplab/marginalstability/flightcomputer/hal/LSM9DS1.java:491-507 | the decode equals little-endian decoding iff L < 0x80 or H = 0xFF |
| ShortDecode.ShortOfLosesHighByte | src/org/rocketproplab/marginalstability/flightcomputer/hal/LSM9DS1.java:502-505 | the pair (0x80, 0x01), which is 384 little-endian, decodes to -128 |
| ShortDecode.LittleEndianBitsPair | src/org/rocketproplab/marginalstability/flightcomputer/hal/LSM9DS1.java:491-497 | the corrected step, with the low byte zero-extended, gives the high byte followed by the low byte for every pair |
| ShortDecode.LittleEndianShortValue | src/org/rocketproplab/marginalstability/flightcomputer/hal/LSM9DS1.java:491-497 | the corrected step decodes every pair to signed16(H*256 + L) |
| ShortDecode.LittleEndianShortRoundTrip | src/org/rocketproplab/marginalstability/flightcomputer/hal/LSM9DS1.java:491-497 | the corrected short gives back both of its bytes |
| Decoder.Shorts | src/org/rocketproplab/marginalstability/flightcomputer/hal/LSM9DS1.java:498-507 | getData yields `data.length / 2` values; value i decodes bytes 2i and 2i+1, and each is a Java short |
| Decoder.GetData | src/org/rocketproplab/marginalstability/flightcomputer/hal/LSM9DS1.java:498-507 | the loop fills a fresh array whose contents are exactly Shorts(data) |
| Decoder.LittleEndianShorts | src/org/rocketproplab/marginalstability/flightcomputer/hal/LSM9DS1.java:491-497 | the documented little-endian decoding of a buffer: `length / 2` values, each pair decoded little-endian |
| Decoder.ShortsLittleEndianIff | src/org/rocketproplab/marginalstability/flightcomputer/hal/LSM9DS1.java:491-507 | getData agrees with the documented decoding on a buffer iff every pair has L < 0x80 or H = 0xFF |
| Decoder.BuildReading | src/org/rocketproplab/marginalstability/flightcomputer/hal/LSM9DS1.java:475-488 | a reading exists iff the buffer holds at least twelve bytes; with fewer, the array access throws |
| Decoder.BuildReadingLayout | src/org/rocketproplab/marginalstability/flightcomputer/hal/LSM9DS1.java:475-488 | the gyroscope vector comes from bytes 0-5 and the accelerometer vector from bytes 6-11, one pair per component |
| Decoder.BuildReadingInShortRange | src/org/rocketproplab/marginalstability/flightcomputer/hal/LSM9DS1.java:475-488 | every component of a reading is in the short range |
| Decoder.ExampleLine | src/org/rocketproplab/marginalstability/flightcomputer/hal/LSM9DS1.java:475-488 | the line 01 00 02 00 ... 06 00 gives gyroscope (1, 2, 3) and accelerometer (4, 5, 6) |
| Decoder.Line | src/org/rocketproplab/marginalstability/flightcomputer/hal/LSM9DS1.java:460-462 | no contract of its own: `Arrays.copyOfRange(data, i * 12, (i + 1) * 12)`, the bytes of FIFO line i; DecodeLinesStep, LineOfPrefix and LineOfConcat state which bytes it holds |
| Decoder.DecodeLines | src/org/rocketproplab/marginalstability/flightcomputer/hal/LSM9DS1.java:459-465 | k lines give k readings, and reading i is buildReading of bytes [12i, 12i+12) |
| Decoder.SamplesRead | src/org/rocketproplab/marginalstability/flightcomputer/hal/LSM9DS1.java:458 | `bytesRead / BYTES_PER_FIFO_LINE` truncates toward zero: for a count that is not negative, 12r <= bytesRead < 12(r+1); for a negative one, 12(r-1) < bytesRead <= 12r |
| Decoder.WholeLines | src/org/rocketproplab/marginalstability/flightcomputer/hal/LSM9DS1.java:458-459 | the loop count covers only whole lines, and it is 0 when bytesRead is not positive |
| Decoder.LineInRange | src/org/rocketproplab/marginalstability/flightcomputer/hal/LSM9DS1.java:459-463 | every copied range `[i * 12, (i + 1) * 12)` lies within the bytes read |
| Decoder.DecodeLinesStep | src/org/rocketproplab/marginalstability/flightcomputer/hal/LSM9DS1.java:460-464 | the copy of line i decodes to the next reading in order |
| Decoder.DecodeLinesPrefix | src/org/rocketproplab/marginalstability/flightcomputer/hal/LSM9DS1.java:457-466 | bytes after the decoded lines, such as the zeroed tail of the buffer, change no reading |
| Decoder.DecodeLinesAppend | src/org/rocketproplab/marginalstability/flightcomputer/hal/LSM9DS1.java:457-466 | when the first burst holds whole lines, decoding two bursts in turn gives the readings of the concatenated bytes, in order |
| Decoder.FullFifoLines | src/org/rocketproplab/marginalstability/flightcomputer/hal/LSM9DS1.java:429-431 | a full FIFO of 372 bytes gives 31 readings, and a trailing partial line adds none |
| ReadingQueue.PollFirst | src/org/rocketproplab/marginalstability/flightcomputer/hal/LSM9DS1.java:510-512 | `pollFirst` returns null exactly on an empty deque, which it leaves as it is; otherwise it returns the head, and head followed by the new queue is the old queue |
| ReadingQueue.Drain | src/org/rocketproplab/marginalstability/flightcomputer/hal/LSM9DS1.java:510-512 | k successive polls return k results; which readings they are, and what stays queued, is stated by DrainInOrder |
| ReadingQueue.DrainInOrder | src/org/rocketproplab/marginalstability/flightcomputer/hal/LSM9DS1.java:510-512 | k polls return the first k queued readings oldest first, then null, and leave the rest, or an empty queue when k is at least the queue length |
| ReadingQueue.OlderFirst | src/org/rocketproplab/marginalstability/flightcomputer/hal/LSM9DS1.java:457-466 | readings queued before an append are all polled, in order, before any appended reading |
| Driver.FieldWrite | src/org/rocketproplab/marginalstability/flightcomputer/hal/LSM9DS1.java:389-391 | no contract of its own: the byte `(byte) mask(registerValue, value, lsbPos, valueMask)` that every setter writes; FieldWriteIsMask and FieldWriteEffect state what it holds |
| Driver.FieldWriteIsMask | src/org/rocketproplab/marginalstability/flightcomputer/hal/LSM9DS1.java:389-391 | the byte written equals `mask(...)`: the cast loses nothing |
| Driver.FieldWriteEffect | src/org/rocketproplab/marginalstability/flightcomputer/hal/LSM9DS1.java:388-392 | the byte written reads back the new field value, and every other bit is as read |
| Driver.OptionWriteEffect | src/org/rocketproplab/marginalstability/flightcomputer/hal/LSM9DS1.java:388-392 | for every named option, the field holds its ordinal after the write and the rest of the register is kept |
| Driver.WriteKeepsDisjointField | src/org/rocketproplab/marginalstability/flightcomputer/hal/LSM9DS1.java:388-392 | a write to one field keeps the value of every disjoint field |
| Driver.GyroScaleKeepsOdr | src/org/rocketproplab/marginalstability/flightcomputer/hal/LSM9DS1.java:278-300 | setting the gyroscope scale after the data rate keeps the data rate in CTRL_REG1_G |
| Driver.ThresholdKeepsFifoMode | src/org/rocketproplab/marginalstability/flightcomputer/hal/LSM9DS1.java:320-340 | setting the threshold after the FIFO mode keeps the mode in FIFO_CTRL |
| Driver.ClampThreshold | src/org/rocketproplab/marginalstability/flightcomputer/hal/LSM9DS1.java:330-336 | the threshold after the two comparisons lies in 0..31 |
| Driver.ThresholdSaturates | src/org/rocketproplab/marginalstability/flightcomputer/hal/LSM9DS1.java:330-336 | above 31 acts as 31, below 0 acts as 0, and an in-range threshold is kept |
| Driver.ThresholdWriteEffect | src/org/rocketproplab/marginalstability/flightcomputer/hal/LSM9DS1.java:330-340 | the byte written has the clamped threshold in bits 0-4 and FIFO_CTRL's old bits 5-7 |
| Driver.DrainStops | src/org/rocketproplab/marginalstability/flightcomputer/hal/LSM9DS1.java:434-446 | a failed count read or a zero count ends the drain after the count read |
| Driver.DrainBurstFails | src/org/rocketproplab/marginalstability/flightcomputer/hal/LSM9DS1.java:439-446 | a failed burst read ends the drain with nothing queued |
| Driver.DrainCompletes | src/org/rocketproplab/marginalstability/flightcomputer/hal/LSM9DS1.java:439-442 | the padded buffer yields exactly the readings of the whole lines delivered |
| Driver.Lsm9ds1.constructor | src/org/rocketproplab/marginalstability/flightcomputer/hal/LSM9DS1.java:260-271 | the driver keeps the device and starts with an empty queue, with no I/O |
| Driver.Lsm9ds1.GenericRegisterWrite | src/org/rocketproplab/marginalstability/flightcomputer/hal/LSM9DS1.java:388-392 | the bus sees the register read, then the write of `(byte) mask(read, ordinal, lsbPos, mask)`, unless the read failed; the register changes only when the write succeeds |
| Driver.Lsm9ds1.SetOdr | src/org/rocketproplab/marginalstability/flightcomputer/hal/LSM9DS1.java:278-280 | read-modify-write of CTRL_REG1_G (0x10) bits 5-7 with the rate's ordinal |
| Driver.Lsm9ds1.SetAccelerometerScale | src/org/rocketproplab/marginalstability/flightcomputer/hal/LSM9DS1.java:288-290 | read-modify-write of CTRL_REG6_XL (0x20) bits 3-4 with the scale's ordinal |
| Driver.Lsm9ds1.SetGyroscopeScale | src/org/rocketproplab/marginalstability/flightcomputer/hal/LSM9DS1.java:298-300 | read-modify-write of CTRL_REG1_G (0x10) bits 3-4 with the scale's ordinal |
| Driver.Lsm9ds1.SetFifoEnabled | src/org/rocketproplab/marginalstability/flightcomputer/hal/LSM9DS1.java:308-312 | read-modify-write of CTRL_REG9 (0x23) bit 1 with 1 or 0 |
| Driver.Lsm9ds1.SetFifoMode | src/org/rocketproplab/marginalstability/flightcomputer/hal/LSM9DS1.java:320-322 | read-modify-write of FIFO_CTRL (0x2E) bits 5-7 with the mode's ordinal |
| Driver.Lsm9ds1.SetFifoThreshold | src/org/rocketproplab/marginalstability/flightcomputer/hal/LSM9DS1.java:330-340 | read-modify-write of FIFO_CTRL (0x2E) bits 0-4 with the threshold saturated to 0..31 |
| Driver.Lsm9ds1.HasFifoOverrun | src/org/rocketproplab/marginalstability/flightcomputer/hal/LSM9DS1.java:349-353 | one read of FIFO_SRC (0x2F), no write; the overrun bit or the IOException |
| Driver.Lsm9ds1.IsFifoThresholdReached | src/org/rocketproplab/marginalstability/flightcomputer/hal/LSM9DS1.java:362-366 | one read of FIFO_SRC (0x2F), no write; the threshold bit or the IOException |
| Driver.Lsm9ds1.GetSamplesInFifo | src/org/rocketproplab/marginalstability/flightcomputer/hal/LSM9DS1.java:374-378 | one read of FIFO_SRC (0x2F), no write; the sample count or the IOException |
| Driver.Lsm9ds1.Poll | src/org/rocketproplab/marginalstability/flightcomputer/hal/LSM9DS1.java:417-419 | one drain, with the outcome of readFromSensor |
| Driver.Lsm9ds1.ReadFromSensor | src/org/rocketproplab/marginalstability/flightcomputer/hal/LSM9DS1.java:433-447 | on a failed count read or a zero count: no burst read and the queue unchanged; on a failed burst: queue unchanged; otherwise exactly `count * 12` bytes requested from 0x18 and the readings of the whole lines delivered appended in order |
| Driver.Lsm9ds1.ParseReadings | src/org/rocketproplab/marginalstability/flightcomputer/hal/LSM9DS1.java:457-466 | the queue becomes the old queue followed by the readings of the `bytesRead / 12` whole lines, in input order |
| Driver.Lsm9ds1.GetNext | src/org/rocketproplab/marginalstability/flightcomputer/hal/LSM9DS1.java:510-512 | removes and returns the oldest reading, or returns null and leaves the empty queue |
| Driver.Lsm9ds1.HasNext | src/org/rocketproplab/marginalstability/flightcomputer/hal/LSM9DS1.java:515-517 | true iff the queue is not empty |

## Left out

- The pi4j `I2CDevice` (`LSM9DS1.java:260`) is not part of this model.
  It is replaced by the abstract device of `I2c.dfy`.
  - The three-argument `read(data, 0x18, dataLength)` at line 441 is modelled
    as a burst from register 0x18, as the comment at lines 421-432 describes.
  - Whether the library reads the second argument as a register address or
    as a buffer offset is outside this model.
  - A negative or oversized byte count from the library is not modelled.
- `e.printStackTrace()` (lines 443-446) is console output. The model keeps
  only its effect: the drain ends, and nothing is queued.
- `Vector3` and `IMUReading` are not part of this model. A reading is a pair
  of integer triples, built in the order `new IMUReading(accVec, gyroVec)`.
- The `PollingSensor` and `IMU` interfaces, and the scheduler that calls
  `poll`, are left out. The deque's thread safety is left out too: the driver
  is single-threaded.
- Only the six register addresses the driver uses are modelled, not the
  whole `Registers` table (lines 53-103).
- Driver.Lsm9ds1.ParseReadings requires `bytesRead <= |data|`. Java's
  `Arrays.copyOfRange` (line 462) also accepts an end past `data.length` and
  pads the copy with zero bytes: with 24 bytes of data and `bytesRead` 36, it
  would queue an all-zero third reading. readFromSensor always passes a count
  no larger than its buffer, so this case is not modelled.
- Driver.Lsm9ds1.SetFifoThreshold takes an unbounded `int`. The clamp to
  0..31 behaves the same for every 32-bit value, so nothing is lost.
- Driver.Lsm9ds1.ParseReadings takes the buffer as an immutable sequence,
  because the Java array is only read. `Arrays.copyOfRange` is a slice.
- Decoder.BuildReading returns None where `buildReading` would throw
  ArrayIndexOutOfBoundsException on fewer than twelve bytes. parseReadings
  never passes it fewer.

## Findings

| source | as written | input that shows it | evidently intended | confidence | as-written member | corrected member |
|---|---|---|---|---|---|---|
| src/org/rocketproplab/marginalstability/flightcomputer/hal/LSM9DS1.java:502-505 | `(short) (char) data[i * 2]` sign-extends the low byte, and the OR with `high << 8` lets the copied sign bits cover the high byte | the pair (0x80, 0x01) decodes to -128, not 384; every pair with low byte 0x80 or more and high byte other than 0xFF is wrong | little-endian decoding, as the javadoc at lines 491-497 says, e.g. by zero-extending the low byte (`data[i * 2] & 0xFF`) | not executed | ShortDecode.ShortOfLosesHighByte | ShortDecode.LittleEndianShortValue |

The driver model keeps the decode as written, because that is what the
driver stores. ShortDecode.ShortOfIsLittleEndianIff and
Decoder.ShortsLittleEndianIff state exactly where the two decodings agree.
