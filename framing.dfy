/**
 The wire format of one frame (`RemoteConnection.kt`): a 4-byte length, high
 byte first as `DataOutputStream.writeInt` writes it, then that many payload
 bytes. These functions say what a whole `writeData` puts on the stream and
 what a whole `readData` takes off it; the class in module Transport runs the
 chunked loops and is proved to agree with them.
 */
module Framing {
  import opened Base

  /** Size bound of a command frame. */
  const MAX_CMD_SIZE: int := 1024
  /** Size bound of a data frame: 100 MiB. */
  const MAX_BINARY_SIZE: int := 100 * 1024 * 1024
  /** Largest chunk handed to one `write` or `read` call. */
  const MAX_BUF_SIZE: int := 8192
  /** The length prefix that announces the end of the stream. */
  const END_OF_STREAM: int := -1

  function Min(a: int, b: int): int {
    if a <= b then a else b
  }

  function Sum(s: seq<nat>): nat
    decreases |s|
  {
    if |s| == 0 then 0 else Sum(s[..|s| - 1]) + s[|s| - 1]
  }

  /** `DataOutputStream.writeInt`: the two's-complement value, most significant byte first. */
  function IntBytes(n: int): (r: seq<Byte>)
    requires IsInt32(n)
    ensures |r| == 4
  {
    var u := if n < 0 then n + 0x1_0000_0000 else n;
    var q1 := u / 256;
    var q2 := q1 / 256;
    [q2 / 256, q2 % 256, q1 % 256, u % 256]
  }

  /** `DataInputStream.readInt` of four bytes. */
  function BytesInt(b0: Byte, b1: Byte, b2: Byte, b3: Byte): (n: int)
    ensures IsInt32(n)
  {
    var u := ((b0 * 256 + b1) * 256 + b2) * 256 + b3;
    if u >= 0x8000_0000 then u - 0x1_0000_0000 else u
  }

  /** `readInt` undoes `writeInt`. */
  lemma IntBytesRoundTrip(n: int)
    requires IsInt32(n)
    ensures var b := IntBytes(n); BytesInt(b[0], b[1], b[2], b[3]) == n
  {
  }

  lemma DivStep(x: int, b: int)
    requires x >= 0 && 0 <= b < 256
    ensures (x * 256 + b) / 256 == x && (x * 256 + b) % 256 == b
  {
  }

  /** `writeInt` undoes `readInt`: any four bytes are the encoding of the value they denote. */
  lemma BytesIntRoundTrip(b: seq<Byte>)
    requires |b| == 4
    ensures IntBytes(BytesInt(b[0], b[1], b[2], b[3])) == b
  {
    var b0: int := b[0];
    var x2: int := b0 * 256 + b[1];
    var x1: int := x2 * 256 + b[2];
    var u: int := x1 * 256 + b[3];
    DivStep(x1, b[3]);
    DivStep(x2, b[2]);
    DivStep(b[0], b[1]);
    var n := BytesInt(b[0], b[1], b[2], b[3]);
    assert (if n < 0 then n + 0x1_0000_0000 else n) == u;
  }

  /** The bytes `writeData` emits for a payload. */
  function Frame(data: seq<Byte>): seq<Byte>
    requires |data| <= INT_MAX
  {
    IntBytes(|data|) + data
  }

  /** Unchecked exceptions that leave `writeData` / `readData`: they are not the caught `IOException`. */
  datatype Fault =
    | TooBig(size: int, max: int)     // the failed `assert(size < maxDataSize)`
    | NegativeSize(size: int)          // `ByteArray(size)` with a size below -1
    | IndexOutOfBounds(offset: int)    // `read(bytes, index, len)` with a negative index

  /** What `readData` gives its caller: the payload, `null`, or an exception. */
  datatype ReadOutcome = Data(payload: seq<Byte>) | Null | Fatal(fault: Fault)

  /** A read's outcome and the input that is still unread afterwards. */
  datatype Reading = Reading(outcome: ReadOutcome, rest: seq<Byte>)

  function LengthOf(input: seq<Byte>): int
    requires |input| >= 4
  {
    BytesInt(input[0], input[1], input[2], input[3])
  }

  /**
   The input announces a payload within the bounds, but the stream ends before
   all of it arrives.
   */
  predicate Truncated(input: seq<Byte>, maxDataSize: int) {
    |input| >= 4 && 0 <= LengthOf(input) < maxDataSize && |input| - 4 < LengthOf(input)
  }

  /**
   One `readData(input, maxDataSize)` over a stream whose remaining bytes are
   `input` (the peer's side ends after them). An end of stream inside the
   length prefix is an `EOFException`, hence `null`; so is an end of stream
   inside the payload (see ReadFrameAsWritten for what the code does there).
   */
  function ReadFrame(input: seq<Byte>, maxDataSize: int): (r: Reading)
    ensures r.outcome.Data? ==> |r.outcome.payload| < maxDataSize
    ensures r.outcome.Data? ==> IsInt32(|r.outcome.payload|) && input == IntBytes(|r.outcome.payload|) + r.outcome.payload + r.rest
    ensures r.outcome.Null? <==> |input| < 4 || LengthOf(input) == END_OF_STREAM || Truncated(input, maxDataSize)
  {
    if |input| < 4 then Reading(Null, [])
    else
      var size := LengthOf(input);
      var after := input[4..];
      assert input == IntBytes(size) + after by {
        BytesIntRoundTrip(input[..4]);
      }
      if size == END_OF_STREAM then Reading(Null, after)
      else if size >= maxDataSize then Reading(Fatal(TooBig(size, maxDataSize)), after)
      else if size < 0 then Reading(Fatal(NegativeSize(size)), after)
      else if |after| < size then Reading(Null, [])
      else
        assert after == after[..size] + after[size..];
        Reading(Data(after[..size]), after[size..])
  }

  /**
   `readData` as written: `input.read` returns -1 at the end of the stream and
   the loop adds it to `index`, so a truncated payload walks `index` down to -1
   and the next `read(bytes, -1, len)` throws `IndexOutOfBoundsException`.
   */
  function ReadFrameAsWritten(input: seq<Byte>, maxDataSize: int): (r: Reading)
    ensures r.outcome.Null? <==> |input| < 4 || LengthOf(input) == END_OF_STREAM
  {
    if Truncated(input, maxDataSize) then Reading(Fatal(IndexOutOfBounds(-1)), [])
    else ReadFrame(input, maxDataSize)
  }

  /** Frame round trip: reading what writeData wrote gives back the same payload and leaves the rest. */
  lemma FrameRoundTrip(data: seq<Byte>, maxDataSize: int, rest: seq<Byte>)
    requires |data| < maxDataSize <= MAX_BINARY_SIZE
    ensures ReadFrame(Frame(data) + rest, maxDataSize) == Reading(Data(data), rest)
  {
    var input := Frame(data) + rest;
    IntBytesRoundTrip(|data|);
    assert input[..4] == IntBytes(|data|);
    assert input[4..] == data + rest;
    assert (data + rest)[..|data|] == data && (data + rest)[|data|..] == rest;
  }

  /** The end-of-stream prefix reads as `null` and consumes only the prefix. */
  lemma EndOfStreamIsNull(maxDataSize: int, rest: seq<Byte>)
    ensures ReadFrame(IntBytes(END_OF_STREAM) + rest, maxDataSize) == Reading(Null, rest)
  {
    var input := IntBytes(END_OF_STREAM) + rest;
    assert input[4..] == rest;
  }

  /** A frame that announces a size at or above the bound is a fault, on read as on write. */
  lemma OversizedIsFatal(input: seq<Byte>, maxDataSize: int)
    requires maxDataSize >= 0 && |input| >= 4 && LengthOf(input) >= maxDataSize
    ensures ReadFrame(input, maxDataSize).outcome == Fatal(TooBig(LengthOf(input), maxDataSize))
  {
  }

  /** A negative length other than `-1` is the fault `ByteArray(size)` throws, after the four bytes of the length. */
  lemma NegativeSizeIsFatal(input: seq<Byte>, maxDataSize: int)
    requires maxDataSize >= 0 && |input| >= 4 && LengthOf(input) < END_OF_STREAM
    ensures ReadFrame(input, maxDataSize) == Reading(Fatal(NegativeSize(LengthOf(input))), input[4..])
  {
  }

  /** The two readings agree on every input that is not truncated. */
  lemma AsWrittenAgreesUntruncated(input: seq<Byte>, maxDataSize: int)
    requires !Truncated(input, maxDataSize)
    ensures ReadFrameAsWritten(input, maxDataSize) == ReadFrame(input, maxDataSize)
  {
  }

  /**
   The discrepancy on a concrete stream: a frame announcing 8 bytes, of which
   only 3 arrive before the peer closes.
   */
  lemma TruncatedFrameFaults()
    ensures ReadFrameAsWritten(IntBytes(8) + [1, 2, 3], MAX_CMD_SIZE).outcome == Fatal(IndexOutOfBounds(-1))
    ensures ReadFrame(IntBytes(8) + [1, 2, 3], MAX_CMD_SIZE) == Reading(Null, [])
  {
    var input := IntBytes(8) + [1, 2, 3];
    IntBytesRoundTrip(8);
    assert input[..4] == IntBytes(8);
    assert LengthOf(input) == 8;
    assert Truncated(input, MAX_CMD_SIZE);
  }
}
