/** The sample decoder: `getData` turns raw FIFO bytes into shorts, `buildReading`
    turns the six shorts of one FIFO line into a reading, and a burst is cut
    into 12-byte lines of which only whole ones are decoded. */
module Decoder {
  import opened Optional
  import opened ShortDecode
  import opened RegisterMap

  /** A vector of raw sensor counts. */
  datatype Vector3 = Vector3(x: int, y: int, z: int)

  /** One FIFO line: accelerometer vector and gyroscope vector, in the order of
      `new IMUReading(accVec, gyroVec)`. */
  datatype IMUReading = IMUReading(acc: Vector3, gyro: Vector3)

  /** What `getData` returns: one short per pair of bytes, an odd last byte ignored. */
  function Shorts(data: seq<bv8>): (r: seq<int>)
    ensures |r| == |data| / 2
    ensures forall i :: 0 <= i < |r| ==> r[i] == ShortOf(data[2 * i], data[2 * i + 1])
    ensures forall i :: 0 <= i < |r| ==> -0x8000 <= r[i] < 0x8000
  {
    if |data| < 2 then []
    else [ShortOf(data[0], data[1])] + Shorts(data[2..])
  }

  /** `getData`: fills a fresh `int[]` of length `data.length / 2`, pair by pair. */
  method GetData(data: seq<bv8>) returns (results: array<int>)
    ensures fresh(results)
    ensures results[..] == Shorts(data)
  {
    results := new int[|data| / 2];
    var i := 0;
    while i < |data| / 2
      invariant 0 <= i <= |data| / 2
      invariant forall j :: 0 <= j < i ==> results[j] == ShortOf(data[2 * j], data[2 * j + 1])
    {
      results[i] := ShortOf(data[i * 2], data[i * 2 + 1]);
      i := i + 1;
    }
  }

  /** The little-endian decoding the documentation of getData describes,
      using the corrected step for every pair. */
  function LittleEndianShorts(data: seq<bv8>): (r: seq<int>)
    ensures |r| == |data| / 2
    ensures forall i :: 0 <= i < |r| ==> r[i] == LittleEndianShort(data[2 * i], data[2 * i + 1])
  {
    if |data| < 2 then []
    else [LittleEndianShort(data[0], data[1])] + LittleEndianShorts(data[2..])
  }

  /** getData agrees with the little-endian decoding on a buffer exactly when
      every pair has its low byte below 0x80 or its high byte equal to 0xFF. */
  lemma ShortsLittleEndianIff(data: seq<bv8>)
    ensures Shorts(data) == LittleEndianShorts(data)
            <==> forall i :: 0 <= i < |data| / 2 ==> data[2 * i] < 0x80 || data[2 * i + 1] == 0xFF
  {
    var a, b := Shorts(data), LittleEndianShorts(data);
    forall i | 0 <= i < |data| / 2
      ensures a[i] == b[i] <==> data[2 * i] < 0x80 || data[2 * i + 1] == 0xFF
    {
      ShortOfIsLittleEndianIff(data[2 * i], data[2 * i + 1]);
      LittleEndianShortValue(data[2 * i], data[2 * i + 1]);
    }
  }

  /** `buildReading`: values 0-2 form the gyroscope vector and values 3-5 the
      accelerometer vector; fewer than twelve bytes make the array access
      throw, which is None here. */
  function BuildReading(data: seq<bv8>): (r: Option<IMUReading>)
    ensures r.Some? <==> |data| >= 12
  {
    var results := Shorts(data);
    if |results| < 6 then None
    else
      var gyroVec := Vector3(results[0], results[1], results[2]);
      var accVec := Vector3(results[3], results[4], results[5]);
      Some(IMUReading(accVec, gyroVec))
  }

  /** The layout of a FIFO line: gyroscope X, Y, Z in bytes 0-5, accelerometer
      X, Y, Z in bytes 6-11, each a (low, high) pair. */
  lemma BuildReadingLayout(data: seq<bv8>)
    requires |data| >= 12
    ensures BuildReading(data).value.gyro
            == Vector3(ShortOf(data[0], data[1]), ShortOf(data[2], data[3]), ShortOf(data[4], data[5]))
    ensures BuildReading(data).value.acc
            == Vector3(ShortOf(data[6], data[7]), ShortOf(data[8], data[9]), ShortOf(data[10], data[11]))
  {
    var results := Shorts(data);
    assert results[0] == ShortOf(data[0], data[1]);
  }

  /** Every component of a reading is a Java short. */
  lemma BuildReadingInShortRange(data: seq<bv8>)
    requires |data| >= 12
    ensures var r := BuildReading(data).value;
            InShortRange(r.gyro) && InShortRange(r.acc)
  {
    var results := Shorts(data);
    assert forall i :: 0 <= i < 6 ==> -0x8000 <= results[i] < 0x8000;
  }

  predicate InShortRange(v: Vector3)
  {
    -0x8000 <= v.x < 0x8000 && -0x8000 <= v.y < 0x8000 && -0x8000 <= v.z < 0x8000
  }

  /** The FIFO line with index i of a burst. */
  function Line(data: seq<bv8>, i: nat): seq<bv8>
    requires BytesPerFifoLine * (i + 1) <= |data|
  {
    data[BytesPerFifoLine * i..BytesPerFifoLine * (i + 1)]
  }

  /** The reading of line i. */
  function LineReading(data: seq<bv8>, i: nat): IMUReading
    requires BytesPerFifoLine * (i + 1) <= |data|
  {
    BuildReading(Line(data, i)).value
  }

  /** The readings of the first k lines of data, in input order. */
  function DecodeLines(data: seq<bv8>, k: nat): (r: seq<IMUReading>)
    requires BytesPerFifoLine * k <= |data|
    ensures |r| == k
    ensures forall i :: 0 <= i < k ==> r[i] == LineReading(data, i)
  {
    if k == 0 then []
    else DecodeLines(data, k - 1) + [LineReading(data, k - 1)]
  }

  /** One more line: the copy `data[i * 12 .. (i + 1) * 12]` that
      parseReadings takes decodes to the next reading. */
  lemma DecodeLinesStep(data: seq<bv8>, i: nat)
    requires (i + 1) * BytesPerFifoLine <= |data|
    ensures BuildReading(data[i * BytesPerFifoLine..(i + 1) * BytesPerFifoLine]).Some?
    ensures DecodeLines(data, i + 1)
            == DecodeLines(data, i) + [BuildReading(data[i * BytesPerFifoLine..(i + 1) * BytesPerFifoLine]).value]
  {
    assert i * BytesPerFifoLine == BytesPerFifoLine * i;
  }

  /** `bytesRead / BYTES_PER_FIFO_LINE` with Java's division, which truncates
      toward zero. */
  function SamplesRead(bytesRead: int): (r: int)
    ensures bytesRead >= 0 ==> 0 <= r && BytesPerFifoLine * r <= bytesRead < BytesPerFifoLine * (r + 1)
    ensures bytesRead < 0 ==> r <= 0 && BytesPerFifoLine * (r - 1) < bytesRead <= BytesPerFifoLine * r
  {
    if bytesRead >= 0 then bytesRead / BytesPerFifoLine
    else -((-bytesRead) / BytesPerFifoLine)
  }

  /** How many times parseReadings' loop runs: SamplesRead, or none when that
      is not positive. Only whole lines are counted. */
  function WholeLines(bytesRead: int): (k: nat)
    ensures BytesPerFifoLine * k <= bytesRead || (k == 0 && bytesRead <= 0)
    ensures bytesRead >= 0 ==> bytesRead < BytesPerFifoLine * (k + 1)
  {
    if SamplesRead(bytesRead) <= 0 then 0 else SamplesRead(bytesRead)
  }

  /** For a byte count that is not negative, the loop count is plain division. */
  lemma WholeLinesOfCount(n: nat)
    ensures WholeLines(n) == n / BytesPerFifoLine
  {
  }

  /** Every line parseReadings' loop visits lies within the bytes read. */
  lemma LineInRange(bytesRead: int, i: nat)
    requires i < WholeLines(bytesRead)
    ensures 0 <= i * BytesPerFifoLine <= (i + 1) * BytesPerFifoLine <= bytesRead
  {
    var k := WholeLines(bytesRead);
    assert (i + 1) * 12 <= k * 12;
  }

  /** The readings parseReadings appends for `bytesRead` valid bytes of data. */
  function Readings(data: seq<bv8>, bytesRead: int): seq<IMUReading>
    requires bytesRead <= |data|
  {
    DecodeLines(data, WholeLines(bytesRead))
  }

  /** Only the bytes of the decoded lines matter: bytes after them, such as the
      unfilled tail of the receive buffer, change nothing. */
  lemma DecodeLinesPrefix(data: seq<bv8>, longer: seq<bv8>, k: nat)
    requires BytesPerFifoLine * k <= |data| <= |longer|
    requires data == longer[..|data|]
    ensures DecodeLines(longer, k) == DecodeLines(data, k)
  {
    var l := DecodeLines(longer, k);
    var r := DecodeLines(data, k);
    forall i | 0 <= i < k
      ensures l[i] == r[i]
    {
      LineOfPrefix(data, longer, i);
    }
  }

  lemma LineOfPrefix(data: seq<bv8>, longer: seq<bv8>, i: nat)
    requires 12 * (i + 1) <= |data| <= |longer|
    requires data == longer[..|data|]
    ensures Line(longer, i) == Line(data, i)
  {
    assert longer[12 * i..12 * (i + 1)] == data[12 * i..12 * (i + 1)];
  }

  /** Where the lines of a concatenation come from, when the first part is a
      whole number of lines. */
  lemma LineOfConcat(a: seq<bv8>, b: seq<bv8>, k: nat, i: nat)
    requires |a| == 12 * k
    requires 12 * (i + 1) <= |a| + |b|
    ensures i < k ==> Line(a + b, i) == Line(a, i)
    ensures k <= i ==> Line(a + b, i) == Line(b, i - k)
  {
    if i < k {
      assert (a + b)[12 * i..12 * (i + 1)] == a[12 * i..12 * (i + 1)];
    } else {
      assert 12 * i - |a| == 12 * (i - k);
      assert (a + b)[12 * i..12 * (i + 1)] == b[12 * (i - k)..12 * (i - k + 1)];
    }
  }

  /** Decoding two bursts one after the other gives the readings of the
      concatenated bytes, in order. */
  lemma DecodeLinesAppend(a: seq<bv8>, b: seq<bv8>, k: nat, m: nat)
    requires |a| == BytesPerFifoLine * k
    requires BytesPerFifoLine * m <= |b|
    ensures DecodeLines(a + b, k + m) == DecodeLines(a, k) + DecodeLines(b, m)
  {
    var l := DecodeLines(a + b, k + m);
    var r := DecodeLines(a, k) + DecodeLines(b, m);
    forall i | 0 <= i < k + m
      ensures l[i] == r[i]
    {
      LineOfConcat(a, b, k, i);
    }
  }

  /** The example line 01 00 02 00 ... 06 00 decodes to gyroscope (1, 2, 3)
      and accelerometer (4, 5, 6). */
  lemma ExampleLine()
    ensures BuildReading([1, 0, 2, 0, 3, 0, 4, 0, 5, 0, 6, 0])
            == Some(IMUReading(Vector3(4, 5, 6), Vector3(1, 2, 3)))
  {
    var line: seq<bv8> := [1, 0, 2, 0, 3, 0, 4, 0, 5, 0, 6, 0];
    BuildReadingLayout(line);
    ShortOfValue(1, 0);
    ShortOfValue(2, 0);
    ShortOfValue(3, 0);
    ShortOfValue(4, 0);
    ShortOfValue(5, 0);
    ShortOfValue(6, 0);
  }

  /** A full FIFO of 31 lines (372 bytes) gives 31 readings, and a stray 373rd
      byte adds none. */
  lemma FullFifoLines(data: seq<bv8>)
    requires |data| == 373
    ensures |Readings(data, 372)| == 31
    ensures Readings(data, 373) == Readings(data, 372)
  {
  }
}
