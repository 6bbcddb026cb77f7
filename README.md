# ZE15-CO frame decoder

A model of the frame decoder of a CircuitPython test program for the ZE15-CO
carbon-monoxide sensor. The sensor talks over a UART in 9-byte frames; the
program exists in two variants, one per operating mode of the sensor:

- **Q&A mode** (`QA-Mode/code.py`): the host sends the fixed inquiry command
  `FF 01 86 00 00 00 00 00 79` and the sensor answers with
  `FF 86 [HI] [LO] 00 00 [RANGE_HI] [RANGE_LO] [CHK]`.
- **Initiative-upload mode** (`Initiative-Upload-Mode/code.py`): the sensor
  pushes `FF 04 03 01 [HI] [LO] 13 88 [CHK]` every second.

Both variants define the same `calculate_checksum` (the two's complement of
the sum of bytes 1..7, masked to eight bits) and a `parse_sensor_data` that
checks, in order, the length (9), the header (`FF 86` in Q&A mode, `FF` alone
in upload mode) and the checksum (byte 8), and then returns
`(HI * 256 + LO) * 0.1` ppm, or `None` on the first failed check.

Files:

- `ze15.dfy`, module `Ze15`: bytes, the `Option` and `Verdict` results, the
  checksum (`CalculateChecksum`, written out from Python's `sum`, `data[1:8]`,
  `~` and `& 0xFF`) and what is proved of it: it is the unique byte that brings
  bytes 1..7 to 0 modulo 256, it equals the 8-bit "complement and add one", and
  it changes whenever any one of bytes 1..7 changes. The checksum appears in
  both source files identically; it is defined once here.
- `qa_mode.dfy`, module `QaMode`: the inquiry command and the Q&A parser.
- `upload_mode.dfy`, module `UploadMode`: the initiative-upload parser.
- `mode_comparison.dfy`, module `ModeComparison`: how the two parsers'
  acceptance relates.

Each parser is modelled as `Check`, the chain of guards returning either the
raw reading or the first guard that failed (the three kinds the source's
messages name: bad length, bad header or start byte, checksum mismatch with
the received and expected bytes), and `ParseSensorData`, which returns what
the Python function returns: `Some(reading)` or `None`. A reading is the
integer count `HI * 256 + LO` of tenths of a ppm; the source's multiplication
by 0.1 is not modelled. Each parser is also characterised without reference
to its own code: it returns a reading exactly for the frames of length 9,
with the right header, whose bytes 1..8 sum to 0 modulo 256
(`QaMode.IsResponse`, `UploadMode.IsUploadFrame`).

Neither parser enforces the "fixed" bytes its docstring lists (reserved
bytes 4..5 and full range bytes 6..7 in Q&A mode; gas type, unit, decimal
places and full range in upload mode): the model keeps that permissiveness,
and `UploadMode.UncheckedBytesIgnored` and the round-trip lemmas state it.

## Model

| member | source | states |
|---|---|---|
| Ze15.Sum | QA-Mode/code.py:32 | Python's `sum` of bytes; never more than 255 per byte |
| Ze15.Window | QA-Mode/code.py:32 | the slice `data[1:8]`: bytes 1..7, shortened and never failing on short input |
| Ze15.BitNot | QA-Mode/code.py:33 | Python's `~` on an unbounded integer complements its low eight bits |
| Ze15.Mask8 | QA-Mode/code.py:33 | `& 0xFF` on any integer keeps a byte congruent to it modulo 256 |
| Ze15.CalculateChecksum | QA-Mode/code.py:20-34 | the checksum is a byte, and bytes 1..7 plus the checksum sum to 0 modulo 256 |
| Ze15.ChecksumUnique | QA-Mode/code.py:20-34 | the checksum is the only byte that brings the sum of bytes 1..7 to 0 modulo 256 |
| Ze15.ChecksumIsEightBitNegation | QA-Mode/code.py:24-28 | the checksum equals the documented recipe on an 8-bit register: for the register holding the low byte of the sum, its complement plus one (wrapping at 256) |
| Ze15.ChecksumDetectsChange | QA-Mode/code.py:32-33 | changing any single byte among bytes 1..7 of a frame (any sequence of at least 8 bytes) changes the checksum |
| Ze15.ChecksumIgnoresEnds | Initiative-Upload-Mode/code.py:28 | bytes 0 and 8 of a frame never influence the checksum |
| Ze15.ChecksumMatchesIffSumZero | QA-Mode/code.py:74-77 | byte 8 equals the checksum exactly when bytes 1..8 sum to 0 modulo 256 |
| Ze15.Reading | QA-Mode/code.py:84-93 | `high * 256 + low` is a 16-bit count whose high and low bytes are the two inputs |
| QaMode.InquiryCommandChecksum | QA-Mode/code.py:18 | the inquiry command has 9 bytes and its byte 8 (0x79) is the checksum of its bytes 1..7 |
| QaMode.Check | QA-Mode/code.py:63-93 | a length other than 9 fails first; then a header other than FF 86; then a checksum mismatch, reporting received and expected bytes; a frame is accepted exactly when it passes all three; an accepted frame's reading has bytes 2 and 3 as its high and low bytes |
| QaMode.ParseSensorData | QA-Mode/code.py:36-98 | a reading is returned exactly when the frame has length 9, starts FF 86 and its bytes 1..8 sum to 0 modulo 256; the reading is `data[2] * 256 + data[3]`, below 65536 |
| QaMode.ChecksumFailureRejected | QA-Mode/code.py:73-79 | a frame with the right length and header but a wrong checksum fails at the checksum guard and gives no reading |
| QaMode.SingleByteCorruptionRejected | QA-Mode/code.py:74-79 | changing any one of bytes 1..7 of an accepted response without recomputing byte 8 makes the parser return None |
| QaMode.ResponseRoundTrip | QA-Mode/code.py:40-57 | every 16-bit reading placed in bytes 2..3 of a sealed response, with any bytes 4..7, is returned unchanged |
| QaMode.ExampleResponse | QA-Mode/code.py:84-93 | FF 86 00 32 00 00 13 88 AD decodes to 50 tenths of a ppm |
| UploadMode.Check | Initiative-Upload-Mode/code.py:54-84 | a length other than 9 fails first; then a start byte other than FF; then a checksum mismatch, reporting received and expected bytes; a frame is accepted exactly when it passes all three; an accepted frame's reading has bytes 4 and 5 as its high and low bytes |
| UploadMode.ParseSensorData | Initiative-Upload-Mode/code.py:32-89 | a reading is returned exactly when the frame has length 9, starts FF and its bytes 1..8 sum to 0 modulo 256; the reading is `data[4] * 256 + data[5]`, below 65536 |
| UploadMode.ChecksumCompletesFrame | Initiative-Upload-Mode/code.py:16-30 | this program's copy of the checksum, over the literal slice `data[1:8]`: bytes 1..7 plus the checksum sum to 0 modulo 256, and byte 8 matches exactly when bytes 1..8 do |
| UploadMode.ChecksumFailureRejected | Initiative-Upload-Mode/code.py:64-70 | a frame with the right length and start byte but a wrong checksum fails at the checksum guard and gives no reading |
| UploadMode.SingleByteCorruptionRejected | Initiative-Upload-Mode/code.py:64-70 | changing any one of bytes 1..7 of an accepted frame without recomputing byte 8 makes the parser return None |
| UploadMode.UncheckedBytesIgnored | Initiative-Upload-Mode/code.py:36-62 | replacing byte 1, 2, 3, 6 or 7 of an accepted frame and recomputing the checksum leaves the result unchanged: the documented fixed values are not enforced |
| UploadMode.FrameRoundTrip | Initiative-Upload-Mode/code.py:36-48 | every 16-bit reading placed in bytes 4..5 of a sealed frame, with any bytes 1..3 and 6..7, is returned unchanged |
| UploadMode.ExampleFrame | Initiative-Upload-Mode/code.py:74-84 | FF 04 03 01 00 32 13 88 2B decodes to 50 tenths of a ppm |
| UploadMode.ExampleCorruptedFrame | Initiative-Upload-Mode/code.py:64-70 | the same frame with checksum byte 2C fails the checksum guard (received 2C, expected 2B) and gives no reading |
| ModeComparison.QaAcceptsUploadFramesWithCommandByte | Initiative-Upload-Mode/code.py:59-62 | every frame the Q&A parser accepts the upload parser accepts too; a frame the upload parser accepts passes the Q&A parser exactly when its byte 1 is 0x86 |
| ModeComparison.UploadFrameFailsQaHeader | QA-Mode/code.py:68-71 | a frame the upload parser accepts whose byte 1 is not 0x86 fails Q&A validation at the header guard |
| ModeComparison.MissingStartByteFailsBoth | Initiative-Upload-Mode/code.py:59-62 | a 9-byte frame that does not start with FF fails both parsers at their header guards |

## Left out

- The UART set-up, `uart.write`, `uart.in_waiting` and `uart.read`: hardware I/O through CircuitPython's `busio` and `board` modules, which are not part of this model.
- The endless main loops and their `time.sleep` calls: scheduling and timing, not decoding.
- Every `print` of the parsers and loops: logging only. The model keeps what those messages distinguish, as the `Rejection` in `Check`'s result.
- The multiplication by 0.1 and the `:.1f` formatting: floating point. Readings are the integer count of tenths of a ppm.
- Python's duck typing: `parse_sensor_data` accepts anything with `len` and indexing; the model takes a sequence of bytes (0..255), which is what `uart.read` returns.
- Repeated calls: the Dafny functions are deterministic, so validating one frame twice gives the same result without a separate statement.
