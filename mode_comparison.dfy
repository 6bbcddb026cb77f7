/**
 * How the two operating modes' parsers relate: Q&A mode checks one header
 * byte more than initiative-upload mode and reads the concentration from
 * different offsets.
 */
module ModeComparison {
  import opened Ze15
  import QaMode
  import UploadMode

  /**
   * Q&A mode is the stricter validator: every frame it accepts the
   * initiative-upload parser accepts too, and conversely a frame that
   * initiative-upload mode accepts passes Q&A validation exactly when its
   * byte 1 is 0x86.
   */
  lemma QaAcceptsUploadFramesWithCommandByte(data: seq<Byte>)
    ensures QaMode.ParseSensorData(data).Some? ==> UploadMode.ParseSensorData(data).Some?
    ensures UploadMode.ParseSensorData(data).Some? ==>
              (QaMode.ParseSensorData(data).Some? <==> data[1] == QaMode.ResponseCommand)
  {
  }

  /** An upload frame whose byte 1 is not 0x86 fails Q&A validation at the header guard. */
  lemma UploadFrameFailsQaHeader(data: seq<Byte>)
    requires UploadMode.ParseSensorData(data).Some?
    requires data[1] != QaMode.ResponseCommand
    ensures QaMode.Check(data) == Rejected(BadHeader)
  {
  }

  /** A 9-byte frame that does not start with 0xFF fails both modes at their header guards. */
  lemma MissingStartByteFailsBoth(data: seq<Byte>)
    requires |data| == FrameLength && data[0] != StartByte
    ensures UploadMode.Check(data) == Rejected(BadStartByte)
    ensures QaMode.Check(data) == Rejected(BadHeader)
  {
  }
}
