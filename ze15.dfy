/**
 * Definitions shared by both operating modes of the ZE15-CO carbon-monoxide
 * sensor's 9-byte UART frame: bytes, the result types of the frame parsers,
 * and the checksum that both modes compute identically over bytes 1..7.
 */
module Ze15 {

  /** One element of a Python `bytes` object. */
  type Byte = x: int | 0 <= x < 256

  /** The value the parsers return: a reading, or Python's `None`. */
  datatype Option<+T> = None | Some(value: T)

  /** Why a frame was refused; the parsers report each kind with its own message. */
  datatype Rejection =
    | BadLength                                    // `len(data) != 9`
    | BadStartByte                                 // initiative-upload mode: byte 0 is not 0xFF
    | BadHeader                                    // Q&A mode: bytes 0, 1 are not 0xFF 0x86
    | BadChecksum(received: Byte, expected: Byte)  // byte 8 differs from the computed checksum

  /** The outcome of a parser's chain of guards: the raw reading, or the first guard that failed. */
  datatype Verdict = Accepted(reading: nat) | Rejected(why: Rejection)

  /** Frame length of both modes. */
  const FrameLength := 9
  /** Start byte of every frame. */
  const StartByte: Byte := 0xFF

  /** Python's `sum` over a sequence of bytes: the sum of all its elements. */
  function Sum(s: seq<Byte>): (r: nat)
    ensures r <= 255 * |s|
  {
    if s == [] then 0 else s[0] + Sum(s[1..])
  }

  /**
   * Python's slice `data[1:8]`: bytes 1 through 7, cut short (never an error)
   * when the sequence has fewer than 8 elements.
   */
  function Window(data: seq<Byte>): (r: seq<Byte>)
    ensures |data| >= 8 ==> |r| == 7
    ensures |data| < 8 ==> |r| == if |data| == 0 then 0 else |data| - 1
    ensures forall k :: 0 <= k < |r| ==> r[k] == data[k + 1]
  {
    if |data| <= 1 then []
    else if |data| <= 8 then data[1..]
    else data[1..8]
  }

  /**
   * Python's `~x` on an unbounded integer, `-x - 1`: in two's complement it
   * complements every bit, so in particular the low eight.
   */
  function BitNot(x: int): (r: int)
    ensures r % 256 == 255 - x % 256
  {
    -x - 1
  }

  /**
   * Python's `x & 0xFF` on an unbounded integer, negative ones included
   * (Python treats them as infinite two's complement): the low eight bits,
   * which is `x` modulo 256 rounded toward minus infinity.
   */
  function Mask8(x: int): (r: Byte)
    ensures (x - r) % 256 == 0
  {
    x % 256
  }

  /**
   * `calculate_checksum`: the two's complement of the sum of bytes 1..7,
   * kept to eight bits. Adding it to those bytes gives 0 modulo 256.
   */
  function CalculateChecksum(data: seq<Byte>): (r: Byte)
    ensures (Sum(Window(data)) + r) % 256 == 0
  {
    var s := Sum(Window(data));
    NegationCompletes(s);
    Mask8(BitNot(s) + 1)
  }

  /** The masked two's complement of a number brings it to a multiple of 256. */
  lemma NegationCompletes(s: int)
    ensures (s + Mask8(BitNot(s) + 1)) % 256 == 0
  {
    var q := (-s) / 256;
    assert Mask8(BitNot(s) + 1) == -s - 256 * q;
    assert s + Mask8(BitNot(s) + 1) == 256 * -q;
  }

  /**
   * The checksum is the only byte that completes the sum of bytes 1..7 to a
   * multiple of 256, so `data[8] == CalculateChecksum(data)` says exactly that
   * bytes 1..8 of a frame sum to 0 modulo 256.
   */
  lemma ChecksumUnique(data: seq<Byte>, c: Byte)
    ensures (Sum(Window(data)) + c) % 256 == 0 <==> c == CalculateChecksum(data)
  {
  }

  /** Two numbers that are both multiples of 256 and less than 256 apart are equal. */
  lemma ModDifference(a: int, b: int)
    requires a % 256 == 0 && b % 256 == 0
    requires -256 < a - b < 256
    ensures a == b
  {
  }

  /**
   * The documented recipe on an eight-bit register: whatever register holds
   * the low byte of the sum, complementing it and adding one (wrapping
   * around at 256) gives the checksum.
   */
  lemma ChecksumIsEightBitNegation(data: seq<Byte>, low: bv8)
    requires low as int == Sum(Window(data)) % 256
    ensures CalculateChecksum(data) == ((!low) + 1) as int
  {
    NegationInEightBits(low);
    NegatedModulo(Sum(Window(data)));
  }

  lemma NegatedModulo(s: int)
    ensures Mask8(BitNot(s) + 1) == (256 - s % 256) % 256
  {
  }

  /** Complement-and-add-one on eight bits is negation modulo 256. */
  lemma NegationInEightBits(b: bv8)
    ensures ((!b) + 1) as int == (256 - b as int) % 256
  {
  }

  /** Replacing one element changes a sum by exactly the difference. */
  lemma {:induction false} SumUpdate(s: seq<Byte>, i: nat, v: Byte)
    requires i < |s|
    ensures Sum(s[i := v]) == Sum(s) - s[i] + v
  {
    if i == 0 {
      assert s[i := v][1..] == s[1..];
    } else {
      SumUpdate(s[1..], i - 1, v);
      assert s[i := v][1..] == s[1..][i - 1 := v];
    }
  }

  /**
   * Single-byte error detection: changing any one of bytes 1..7 of a frame
   * (or of any sequence of at least 8 bytes) to a different value changes
   * its checksum.
   */
  lemma ChecksumDetectsChange(data: seq<Byte>, i: nat, v: Byte)
    requires |data| >= 8 && 1 <= i <= 7 && v != data[i]
    ensures CalculateChecksum(data[i := v]) != CalculateChecksum(data)
  {
    var w := Window(data);
    assert Window(data[i := v]) == w[i - 1 := v];
    SumUpdate(w, i - 1, v);
    var s, s' := Sum(w), Sum(w[i - 1 := v]);
    if CalculateChecksum(data[i := v]) == CalculateChecksum(data) {
      var k := CalculateChecksum(data);
      ModDifference(s + k, s' + k);
      assert false;
    }
  }

  /** The checksum reads bytes 1..7 only: bytes 0 and 8 never influence it. */
  lemma ChecksumIgnoresEnds(data: seq<Byte>, i: nat, v: Byte)
    requires |data| == FrameLength && (i == 0 || i == 8)
    ensures CalculateChecksum(data[i := v]) == CalculateChecksum(data)
  {
  }

  /** The sum of bytes 1..8 of a frame is the sum of bytes 1..7 plus byte 8. */
  lemma {:induction false} SumAppend(s: seq<Byte>, b: Byte)
    ensures Sum(s + [b]) == Sum(s) + b
  {
    if s != [] {
      assert (s + [b])[1..] == s[1..] + [b];
      SumAppend(s[1..], b);
    }
  }

  /**
   * A 9-byte frame carries the right checksum exactly when its bytes 1..8
   * sum to 0 modulo 256.
   */
  lemma ChecksumMatchesIffSumZero(data: seq<Byte>)
    requires |data| == FrameLength
    ensures data[8] == CalculateChecksum(data) <==> Sum(data[1..]) % 256 == 0
  {
    assert data[1..] == Window(data) + [data[8]];
    SumAppend(Window(data), data[8]);
    ChecksumUnique(data, data[8]);
  }

  /**
   * The raw concentration `high * 256 + low`, in tenths of a ppm: a 16-bit
   * count whose high and low bytes are the two frame bytes.
   */
  function Reading(high: Byte, low: Byte): (r: nat)
    ensures r < 65536 && r / 256 == high && r % 256 == low
  {
    high * 256 + low
  }

  /** Appends the checksum of bytes 1..7 to the first eight bytes of a frame. */
  function Seal(body: seq<Byte>): (frame: seq<Byte>)
    requires |body| == FrameLength - 1
    ensures |frame| == FrameLength && frame[..8] == body
    ensures frame[8] == CalculateChecksum(frame)
  {
    var frame := body + [CalculateChecksum(body)];
    assert Window(frame) == Window(body);
    frame
  }
}
