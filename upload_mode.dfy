/**
 * Initiative-upload mode: the sensor pushes one 9-byte frame every second
 *
 *   FF 04 03 01 [CONC_HI] [CONC_LO] 13 88 [CHK]
 *
 * whose concentration sits in bytes 4 and 5. Only the start byte and the
 * checksum are checked; the gas type, unit, decimal-place and full-range
 * bytes are taken as they come.
 */
module UploadMode {
  import opened Ze15

  /**
   * What an acceptable upload frame looks like, stated without the parser:
   * nine bytes, starting FF, whose bytes 1..8 sum to 0 modulo 256.
   */
  ghost predicate IsUploadFrame(data: seq<Byte>)
  {
    |data| == FrameLength && data[0] == StartByte && Sum(data[1..]) % 256 == 0
  }

  /**
   * The guards of `parse_sensor_data`, in order, each stopping at its own
   * failure: length, then start byte, then checksum; on success the raw
   * concentration in tenths of a ppm.
   */
  function Check(data: seq<Byte>): (r: Verdict)
    ensures |data| != FrameLength ==> r == Rejected(BadLength)
    ensures |data| == FrameLength && data[0] != StartByte ==> r == Rejected(BadStartByte)
    ensures r.Rejected? && r.why.BadChecksum? ==>
              |data| == FrameLength && r.why.received == data[8] && r.why.expected == CalculateChecksum(data)
                && r.why.received != r.why.expected
    ensures (|data| == FrameLength && data[0] == StartByte && data[8] != CalculateChecksum(data))
              ==> r == Rejected(BadChecksum(data[8], CalculateChecksum(data)))
    ensures r.Accepted? <==> |data| == FrameLength && data[0] == StartByte && data[8] == CalculateChecksum(data)
    ensures r.Accepted? ==> |data| == FrameLength && r.reading / 256 == data[4] && r.reading % 256 == data[5]
  {
    if |data| != FrameLength then Rejected(BadLength)
    else if data[0] != StartByte then Rejected(BadStartByte)
    else if data[8] != CalculateChecksum(data) then Rejected(BadChecksum(data[8], CalculateChecksum(data)))
    else Accepted(Reading(data[4], data[5]))
  }

  /**
   * `parse_sensor_data`: the reading in tenths of a ppm, or `None`. It gives
   * a reading exactly for acceptable frames, and that reading is bytes 4..5
   * read as a big-endian 16-bit count.
   */
  function ParseSensorData(data: seq<Byte>): (r: Option<nat>)
    ensures r.Some? <==> IsUploadFrame(data)
    ensures r.Some? ==> r.value == data[4] as int * 256 + data[5] && r.value < 65536
  {
    if |data| != FrameLength then None
    else
      ChecksumMatchesIffSumZero(data);
      match Check(data)
      case Accepted(reading) => Some(reading)
      case Rejected(_) => None
  }

  /**
   * The upload program's own copy of `calculate_checksum`, restated over its
   * literal slice `data[1:8]` of a 9-byte frame: the checksum completes the
   * sum of bytes 1..7 to 0 modulo 256, and byte 8 matches it exactly when
   * bytes 1..8 sum to 0 modulo 256. It repeats, for this program, what
   * `CalculateChecksum` and `ChecksumMatchesIffSumZero` state for the shared
   * definition.
   */
  lemma ChecksumCompletesFrame(data: seq<Byte>)
    requires |data| == FrameLength
    ensures (Sum(data[1..8]) + CalculateChecksum(data)) % 256 == 0
    ensures data[8] == CalculateChecksum(data) <==> Sum(data[1..]) % 256 == 0
  {
    assert data[1..8] == Window(data);
    ChecksumMatchesIffSumZero(data);
  }

  /** A checksum failure never yields a reading, whatever the other bytes hold. */
  lemma ChecksumFailureRejected(data: seq<Byte>)
    requires |data| == FrameLength && data[0] == StartByte
    requires data[8] != CalculateChecksum(data)
    ensures Check(data) == Rejected(BadChecksum(data[8], CalculateChecksum(data)))
    ensures ParseSensorData(data) == None
  {
  }

  /**
   * Changing any one of bytes 1..7 of an accepted frame, without
   * recomputing byte 8, makes the parser return `None`.
   */
  lemma SingleByteCorruptionRejected(data: seq<Byte>, i: nat, v: Byte)
    requires ParseSensorData(data).Some?
    requires 1 <= i <= 7 && v != data[i]
    ensures ParseSensorData(data[i := v]) == None
  {
    ChecksumDetectsChange(data, i, v);
    assert data[i := v][8] == data[8];
  }

  /**
   * Bytes 1, 2, 3, 6 and 7 are not checked: an accepted frame with any of
   * them replaced, and its checksum recomputed, is accepted with the same
   * reading.
   */
  lemma UncheckedBytesIgnored(data: seq<Byte>, i: nat, v: Byte)
    requires ParseSensorData(data).Some?
    requires i in {1, 2, 3, 6, 7}
    ensures ParseSensorData(Seal(data[i := v][..8])) == ParseSensorData(data)
  {
  }

  /** Builds the frame a sensor pushes for a reading, with the given bytes 1..3 and 6..7. */
  function Frame(reading: nat, info: seq<Byte>, range: seq<Byte>): (frame: seq<Byte>)
    requires reading < 65536 && |info| == 3 && |range| == 2
    ensures |frame| == FrameLength && frame[0] == StartByte
    ensures frame[1..4] == info && frame[6..8] == range
  {
    Seal([StartByte] + info + [reading / 256, reading % 256] + range)
  }

  /**
   * Every reading survives the trip through a sealed frame and back, whatever
   * bytes 1..3 and 6..7 hold.
   */
  lemma FrameRoundTrip(reading: nat, info: seq<Byte>, range: seq<Byte>)
    requires reading < 65536 && |info| == 3 && |range| == 2
    ensures ParseSensorData(Frame(reading, info, range)) == Some(reading)
  {
  }

  /** The frame FF 04 03 01 00 32 13 88 2B decodes to 50 tenths, 5.0 ppm. */
  lemma ExampleFrame()
    ensures ParseSensorData([0xFF, 0x04, 0x03, 0x01, 0x00, 0x32, 0x13, 0x88, 0x2B]) == Some(50)
  {
    var frame: seq<Byte> := [0xFF, 0x04, 0x03, 0x01, 0x00, 0x32, 0x13, 0x88, 0x2B];
    var window: seq<Byte> := [0x04, 0x03, 0x01, 0x00, 0x32, 0x13, 0x88];
    assert Window(frame) == window;
    assert Sum(window) == 213;
    assert CalculateChecksum(frame) == 0x2B;
    assert Check(frame) == Accepted(50);
  }

  /** The same frame with its checksum byte raised by one gives no reading. */
  lemma ExampleCorruptedFrame()
    ensures Check([0xFF, 0x04, 0x03, 0x01, 0x00, 0x32, 0x13, 0x88, 0x2C]) == Rejected(BadChecksum(0x2C, 0x2B))
    ensures ParseSensorData([0xFF, 0x04, 0x03, 0x01, 0x00, 0x32, 0x13, 0x88, 0x2C]) == None
  {
    var frame: seq<Byte> := [0xFF, 0x04, 0x03, 0x01, 0x00, 0x32, 0x13, 0x88, 0x2C];
    assert Window(frame) == [0x04, 0x03, 0x01, 0x00, 0x32, 0x13, 0x88];
  }
}
