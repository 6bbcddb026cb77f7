/**
 * Q&A mode: the host sends the fixed inquiry command and the sensor answers
 * with one 9-byte frame
 *
 *   FF 86 [CONC_HI] [CONC_LO] 00 00 [RANGE_HI] [RANGE_LO] [CHK]
 *
 * whose concentration sits in bytes 2 and 3.
 */
module QaMode {
  import opened Ze15

  /** The command byte that marks a Q&A response. */
  const ResponseCommand: Byte := 0x86

  /** `INQUIRY_COMMAND`: the request for one reading, checksum byte included. */
  const InquiryCommand: seq<Byte> := [0xFF, 0x01, 0x86, 0x00, 0x00, 0x00, 0x00, 0x00, 0x79]

  /** The inquiry command is a well-formed frame: its last byte is the checksum of its bytes 1..7. */
  lemma InquiryCommandChecksum()
    ensures |InquiryCommand| == FrameLength
    ensures InquiryCommand[8] == CalculateChecksum(InquiryCommand)
    ensures Sum(InquiryCommand[1..]) % 256 == 0
  {
    assert Window(InquiryCommand) == [0x01, 0x86, 0x00, 0x00, 0x00, 0x00, 0x00];
    ChecksumMatchesIffSumZero(InquiryCommand);
  }

  /**
   * What a correct response looks like, stated without the parser: nine bytes,
   * starting FF 86, whose bytes 1..8 sum to 0 modulo 256.
   */
  ghost predicate IsResponse(data: seq<Byte>)
  {
    |data| == FrameLength && data[..2] == [StartByte, ResponseCommand] && Sum(data[1..]) % 256 == 0
  }

  /**
   * The guards of `parse_sensor_data`, in order, each stopping at its own
   * failure: length, then start and command bytes, then checksum; on success
   * the raw concentration in tenths of a ppm.
   */
  function Check(data: seq<Byte>): (r: Verdict)
    ensures |data| != FrameLength ==> r == Rejected(BadLength)
    ensures |data| == FrameLength && (data[0] != StartByte || data[1] != ResponseCommand) ==> r == Rejected(BadHeader)
    ensures r.Rejected? && r.why.BadChecksum? ==>
              |data| == FrameLength && r.why.received == data[8] && r.why.expected == CalculateChecksum(data)
                && r.why.received != r.why.expected
    ensures (|data| == FrameLength && data[0] == StartByte && data[1] == ResponseCommand && data[8] != CalculateChecksum(data))
              ==> r == Rejected(BadChecksum(data[8], CalculateChecksum(data)))
    ensures r.Accepted? <==>
              |data| == FrameLength && data[0] == StartByte && data[1] == ResponseCommand && data[8] == CalculateChecksum(data)
    ensures r.Accepted? ==> |data| == FrameLength && r.reading / 256 == data[2] && r.reading % 256 == data[3]
  {
    if |data| != FrameLength then Rejected(BadLength)
    else if data[0] != StartByte || data[1] != ResponseCommand then Rejected(BadHeader)
    else if data[8] != CalculateChecksum(data) then Rejected(BadChecksum(data[8], CalculateChecksum(data)))
    else Accepted(Reading(data[2], data[3]))
  }

  /**
   * `parse_sensor_data`: the reading in tenths of a ppm, or `None`. It gives
   * a reading exactly for correct responses, and that reading is bytes 2..3
   * read as a big-endian 16-bit count.
   */
  function ParseSensorData(data: seq<Byte>): (r: Option<nat>)
    ensures r.Some? <==> IsResponse(data)
    ensures r.Some? ==> r.value == data[2] as int * 256 + data[3] && r.value < 65536
  {
    if |data| != FrameLength then None
    else
      ChecksumMatchesIffSumZero(data);
      match Check(data)
      case Accepted(reading) => Some(reading)
      case Rejected(_) => None
  }

  /** A checksum failure never yields a reading, whatever the other bytes hold. */
  lemma ChecksumFailureRejected(data: seq<Byte>)
    requires |data| == FrameLength && data[0] == StartByte && data[1] == ResponseCommand
    requires data[8] != CalculateChecksum(data)
    ensures Check(data) == Rejected(BadChecksum(data[8], CalculateChecksum(data)))
    ensures ParseSensorData(data) == None
  {
  }

  /**
   * Changing any one of bytes 1..7 of an accepted response, without
   * recomputing byte 8, makes the parser return `None`.
   */
  lemma SingleByteCorruptionRejected(data: seq<Byte>, i: nat, v: Byte)
    requires ParseSensorData(data).Some?
    requires 1 <= i <= 7 && v != data[i]
    ensures ParseSensorData(data[i := v]) == None
  {
    ChecksumDetectsChange(data, i, v);
    assert data[i := v][8] == data[8];
  }

  /** Builds the response a sensor sends for a reading, with the given bytes 4..7. */
  function Response(reading: nat, tail: seq<Byte>): (frame: seq<Byte>)
    requires reading < 65536 && |tail| == 4
    ensures |frame| == FrameLength && frame[0] == StartByte && frame[1] == ResponseCommand
    ensures frame[4..8] == tail
  {
    Seal([StartByte, ResponseCommand, reading / 256, reading % 256] + tail)
  }

  /** Every reading survives the trip through a sealed response and back. */
  lemma ResponseRoundTrip(reading: nat, tail: seq<Byte>)
    requires reading < 65536 && |tail| == 4
    ensures ParseSensorData(Response(reading, tail)) == Some(reading)
  {
  }

  /** The response FF 86 00 32 00 00 13 88 AD decodes to 50 tenths, 5.0 ppm. */
  lemma ExampleResponse()
    ensures ParseSensorData([0xFF, 0x86, 0x00, 0x32, 0x00, 0x00, 0x13, 0x88, 0xAD]) == Some(50)
  {
    var frame: seq<Byte> := [0xFF, 0x86, 0x00, 0x32, 0x00, 0x00, 0x13, 0x88, 0xAD];
    var window: seq<Byte> := [0x86, 0x00, 0x32, 0x00, 0x00, 0x13, 0x88];
    assert Window(frame) == window;
    assert Sum(window) == 339;
    assert CalculateChecksum(frame) == 0xAD;
    assert Check(frame) == Accepted(50);
  }
}
