/**
 `RemoteConnectionImpl`: one end of a socket, carrying command frames and data
 frames. The socket is modelled by the bytes the peer has sent and this end
 has not read yet (`incoming`; the peer's side ends after them) and the bytes
 this end has written (`outgoing`). A write on a closed socket is the
 `IOException` the code catches; the peer's delivery granularity is
 `readChunk`, the most bytes one `read` call returns.
 */
module Transport {
  import opened Base
  import opened Framing
  import Codec
  import Utf8

  /** What `writeData` ends with: `true`, `false` (an `IOException`), or an unchecked exception. */
  datatype WriteOutcome = Written | Failed | WriteFatal(fault: Fault)

  /** After the length prefix: either `readData` is over, or a payload of `size` bytes follows. */
  datatype Header = Done(outcome: ReadOutcome) | Payload(size: nat)

  /** What `receiveCommand` does with the frame it reads. */
  datatype CmdReceipt =
    | Delivered(cmd: Codec.Cmd)     // `onResult(cmd)` runs once
    | Unknown(line: string)         // logged as an unknown command; nothing delivered
    | Closed                        // `readData` gave null: the connection is closed
    | CmdFault(fault: Fault)        // an exception leaves `receiveCommand`

  /** What `receiveData` does with the frame it reads. */
  datatype DataReceipt =
    | Received(bytes: seq<Byte>)    // `onResult(bytes)` runs once
    | DataClosed                    // `readData` gave null: the connection is closed
    | DataFault(fault: Fault)

  /** The receipt `receiveCommand` makes of a `readData` outcome. */
  function CommandReceipt(o: ReadOutcome): (r: CmdReceipt)
    ensures o.Data? ==> (r.Delivered? <==> Codec.Parse(Utf8.Decode(o.payload)).Some?)
    ensures r.Delivered? ==> o.Data? && Codec.Parse(Utf8.Decode(o.payload)) == Some(r.cmd)
    ensures r.Closed? <==> o.Null?
  {
    match o
    case Data(bytes) =>
      var line := Utf8.Decode(bytes);
      (match Codec.Parse(line)
       case None => Unknown(line)
       case Some(cmd) => Delivered(cmd))
    case Null => Closed
    case Fatal(f) => CmdFault(f)
  }

  /** The receipt `receiveData` makes of a `readData` outcome. */
  function DataReceiptOf(o: ReadOutcome): (r: DataReceipt)
    ensures r.Received? <==> o.Data?
    ensures r.Received? ==> r.bytes == o.payload
    ensures r.DataClosed? <==> o.Null?
  {
    match o
    case Data(bytes) => Received(bytes)
    case Null => DataClosed
    case Fatal(f) => DataFault(f)
  }

  /** The bytes `sendCommand` hands to `writeData`. */
  function CommandBytes(c: Codec.Cmd): seq<Byte> {
    Utf8.Encode(Codec.AsString(c))
  }

  /** A command that survives the wire: no space inside an argument, and its text under MAX_CMD_SIZE. */
  predicate Sendable(c: Codec.Cmd) {
    && (forall i :: 0 <= i < |c.args| ==> Codec.SEP !in c.args[i])
    && |CommandBytes(c)| < MAX_CMD_SIZE
  }

  /** More arguments never make a command's bytes shorter. */
  lemma {:induction false} CommandBytesGrow(t: Codec.CmdType, args: seq<string>, extra: seq<string>)
    ensures |CommandBytes(Codec.Cmd(t, args))| <= |CommandBytes(Codec.Cmd(t, args + extra))|
    decreases |extra|
  {
    if |extra| == 0 {
      assert args + extra == args;
    } else {
      var init, x := extra[..|extra| - 1], extra[|extra| - 1];
      CommandBytesGrow(t, args, init);
      assert args + extra == (args + init) + [x];
      var line := Codec.AsString(Codec.Cmd(t, args + init));
      Codec.AsStringAppend(t, args + init, x);
      assert line + [Codec.SEP] + x == line + ([Codec.SEP] + x);
      Utf8.EncodeAppend(line, [Codec.SEP] + x);
    }
  }

  /** A command without arguments is just its name, which always fits. */
  lemma NoArgsSendable(t: Codec.CmdType)
    ensures Sendable(Codec.Cmd(t, []))
  {
    Codec.AsStringNoArgs(t);
    Utf8.EncodeLength(Codec.Name(t));
  }

  /**
   A command sent as a frame reaches the other end's `onResult` unchanged,
   provided its args hold no space and its text fits the command bound.
   */
  lemma CommandFrameRoundTrip(c: Codec.Cmd, rest: seq<Byte>)
    requires Sendable(c)
    ensures var r := ReadFrame(Frame(CommandBytes(c)) + rest, MAX_CMD_SIZE);
            CommandReceipt(r.outcome) == Delivered(c) && r.rest == rest
  {
    FrameRoundTrip(CommandBytes(c), MAX_CMD_SIZE, rest);
    Utf8.DecodeEncode(Codec.AsString(c));
    Codec.RoundTrip(c);
  }

  /** A data frame reaches the other end's `onResult` byte for byte. */
  lemma DataFrameRoundTrip(data: seq<Byte>, rest: seq<Byte>)
    requires |data| < MAX_BINARY_SIZE
    ensures var r := ReadFrame(Frame(data) + rest, MAX_BINARY_SIZE);
            DataReceiptOf(r.outcome) == Received(data) && r.rest == rest
  {
    FrameRoundTrip(data, MAX_BINARY_SIZE, rest);
  }

  class RemoteConnection {
    var socketClosed: bool
    var isClosing: bool
    var incoming: seq<Byte>
    var outgoing: seq<Byte>
    const readChunk: nat
    /** How many times `onClose()` has run. */
    ghost var closeNotifications: nat
    /** Sizes of the `write` / `read` calls made by the last `writeData` / `readData`. */
    ghost var chunks: seq<nat>

    ghost predicate Valid()
      reads this
    {
      && readChunk >= 1
      && !isClosing
      && closeNotifications == (if socketClosed then 1 else 0)
    }

    constructor (peerBytes: seq<Byte>, readChunk: nat)
      requires readChunk >= 1
      ensures Valid()
      ensures !socketClosed && incoming == peerBytes && outgoing == [] && this.readChunk == readChunk
    {
      socketClosed := false;
      isClosing := false;
      incoming := peerBytes;
      outgoing := [];
      this.readChunk := readChunk;
      closeNotifications := 0;
      chunks := [];
    }

    /**
     `close()`: only the first effective call closes the socket and runs
     `onClose`; every later call finds the socket closed and does nothing.
     */
    method Close() returns (fired: bool)
      requires Valid()
      modifies this
      ensures Valid()
      ensures fired == !old(socketClosed)
      ensures socketClosed && closeNotifications == 1
      ensures old(socketClosed) ==> unchanged(this)
      ensures incoming == old(incoming) && outgoing == old(outgoing) && chunks == old(chunks)
    {
      fired := false;
      if !socketClosed && !isClosing {
        isClosing := true;
        socketClosed := true;
        closeNotifications := closeNotifications + 1;
        fired := true;
        isClosing := false;
      }
    }

    /**
     `writeData`: the bound check, the 4-byte length, then the payload in
     chunks of at most `min(8192, size)` bytes.
     */
    method WriteData(data: seq<Byte>, maxDataSize: int) returns (r: WriteOutcome)
      requires Valid() && maxDataSize <= INT_MAX
      modifies this
      ensures Valid()
      ensures r == if |data| >= maxDataSize then WriteFatal(TooBig(|data|, maxDataSize))
                   else if old(socketClosed) then Failed
                   else Written
      ensures outgoing == if r.Written? then old(outgoing) + Frame(data) else old(outgoing)
      ensures r.Written? ==> Sum(chunks) == |data| && (|chunks| == 0 <==> |data| == 0)
      ensures r.Written? ==> forall k :: 0 <= k < |chunks| ==> 0 < chunks[k] <= Min(MAX_BUF_SIZE, |data|)
      ensures socketClosed == old(socketClosed) && incoming == old(incoming)
      ensures closeNotifications == old(closeNotifications)
    {
      var size := |data|;
      if size >= maxDataSize {
        return WriteFatal(TooBig(size, maxDataSize));
      }
      if socketClosed {
        return Failed;
      }
      outgoing := outgoing + IntBytes(size);
      var index := 0;
      var bufSize := Min(MAX_BUF_SIZE, size);
      chunks := [];
      while index < size
        invariant 0 <= index <= size
        invariant Valid() && socketClosed == old(socketClosed) && incoming == old(incoming)
        invariant closeNotifications == old(closeNotifications)
        invariant outgoing == old(outgoing) + IntBytes(size) + data[..index]
        invariant Sum(chunks) == index
        invariant |chunks| == 0 <==> index == 0
        invariant forall k :: 0 <= k < |chunks| ==> 0 < chunks[k] <= bufSize
      {
        var len := Min(bufSize, size - index);
        outgoing := outgoing + data[index..index + len];
        assert data[..index] + data[index..index + len] == data[..index + len];
        ghost var prev := chunks;
        chunks := chunks + [len];
        assert chunks[..|chunks| - 1] == prev;
        index := index + len;
      }
      assert data[..index] == data;
      return Written;
    }

    /**
     `input.read(b, off, len)`: at least one and at most `len` bytes (and at
     most what the peer delivers at once), or -1 when the peer's side has ended.
     */
    method Read(b: array<Byte>, off: nat, len: nat) returns (n: int)
      requires Valid() && 0 < len && off + len <= b.Length
      modifies this`incoming, b
      ensures |old(incoming)| == 0 <==> n == -1
      ensures n == -1 ==> incoming == old(incoming) && b[..] == old(b[..])
      ensures n != -1 ==> 1 <= n <= Min(Min(len, readChunk), |old(incoming)|)
      ensures n != -1 ==> incoming == old(incoming)[n..]
      ensures n != -1 ==> b[..] == old(b[..])[..off] + old(incoming)[..n] + old(b[..])[off + n..]
    {
      if |incoming| == 0 {
        return -1;
      }
      var most := Min(Min(len, readChunk), |incoming|);
      assert 1 <= most <= len && most <= |incoming|;
      n :| 1 <= n <= most;
      forall k | 0 <= k < n {
        b[off + k] := incoming[k];
      }
      assert b[..] == old(b[..])[..off] + incoming[..n] + old(b[..])[off + n..];
      incoming := incoming[n..];
    }

    /**
     The part of `readData` before the payload loop: `readInt`, the
     end-of-stream value, the bound `assert` and `ByteArray(size)`.
     */
    method ReadHeader(maxDataSize: int) returns (h: Header)
      requires Valid()
      modifies this`incoming
      ensures Valid()
      ensures old(socketClosed) ==> h == Done(Null) && incoming == old(incoming)
      ensures h.Done? ==> !h.outcome.Data?
      ensures !old(socketClosed) && h.Done? ==>
                !Truncated(old(incoming), maxDataSize) && Reading(h.outcome, incoming) == ReadFrame(old(incoming), maxDataSize)
      ensures h.Payload? ==> !old(socketClosed) && |old(incoming)| >= 4 && h.size == LengthOf(old(incoming))
      ensures h.Payload? ==> 0 <= h.size < maxDataSize && incoming == old(incoming)[4..]
    {
      if socketClosed {
        return Done(Null);
      }
      if |incoming| < 4 {
        incoming := [];
        return Done(Null);
      }
      var size := LengthOf(incoming);
      incoming := incoming[4..];
      if size == END_OF_STREAM {
        return Done(Null);
      }
      if size >= maxDataSize {
        return Done(Fatal(TooBig(size, maxDataSize)));
      }
      if size < 0 {
        return Done(Fatal(NegativeSize(size)));
      }
      return Payload(size);
    }

    /**
     The payload loop of `readData`, reading into `ByteArray(size)` at most
     `min(size, MAX_BUF_SIZE)` bytes per `read`; `None` when the stream ends
     first.
     */
    method ReadPayload(size: nat) returns (payload: Option<seq<Byte>>)
      requires Valid() && !socketClosed
      modifies this`incoming, this`chunks
      ensures Valid()
      ensures payload.None? <==> |old(incoming)| < size
      ensures payload.None? ==> incoming == []
      ensures payload.Some? ==> payload.value == old(incoming)[..size] && incoming == old(incoming)[size..]
      ensures payload.Some? ==> Sum(chunks) == size
      ensures payload.Some? ==> forall k :: 0 <= k < |chunks| ==> 0 < chunks[k] <= Min(Min(MAX_BUF_SIZE, size), readChunk)
    {
      var bytes := new Byte[size];
      var bufSize := Min(size, MAX_BUF_SIZE);
      var index := 0;
      ghost var start := incoming;
      chunks := [];
      while index < size
        invariant 0 <= index <= size && index <= |start|
        invariant Valid() && !socketClosed
        invariant incoming == start[index..]
        invariant bytes[..index] == start[..index]
        invariant Sum(chunks) == index
        invariant forall k :: 0 <= k < |chunks| ==> 0 < chunks[k] <= Min(bufSize, readChunk)
      {
        var len := Min(bufSize, size - index);
        var bytesRead := Read(bytes, index, len);
        if bytesRead < 0 {
          return None;
        }
        ghost var prev := chunks;
        chunks := chunks + [bytesRead];
        assert chunks[..|chunks| - 1] == prev;
        assert bytes[..index + bytesRead] == start[..index + bytesRead] by {
          assert bytes[..index + bytesRead] == bytes[..][..index + bytesRead];
        }
        index := index + bytesRead;
      }
      assert bytes[..] == bytes[..index];
      return Some(bytes[..]);
    }

    /**
     `readData` with the end of the stream inside the payload read as an
     `EOFException`, hence `null`, like an end of stream inside the length.
     */
    method ReadData(maxDataSize: int) returns (r: ReadOutcome)
      requires Valid()
      modifies this`incoming, this`chunks
      ensures Valid()
      ensures old(socketClosed) ==> r == Null && incoming == old(incoming)
      ensures !old(socketClosed) ==> Reading(r, incoming) == ReadFrame(old(incoming), maxDataSize)
      ensures r.Data? ==> Sum(chunks) == |r.payload|
      ensures r.Data? ==> forall k :: 0 <= k < |chunks| ==> 0 < chunks[k] <= Min(Min(MAX_BUF_SIZE, |r.payload|), readChunk)
    {
      var header := ReadHeader(maxDataSize);
      if header.Done? {
        return header.outcome;
      }
      var payload := ReadPayload(header.size);
      if payload.None? {
        return Null;
      }
      return Data(payload.value);
    }

    /**
     `readData` as the code has it: a -1 from `read` is added to `index`, so
     a payload cut short by the end of the stream ends in
     `IndexOutOfBoundsException` instead of `null`.
     */
    method ReadDataAsWritten(maxDataSize: int) returns (r: ReadOutcome)
      requires Valid()
      modifies this`incoming, this`chunks
      ensures Valid()
      ensures old(socketClosed) ==> r == Null && incoming == old(incoming)
      ensures !old(socketClosed) ==> Reading(r, incoming) == ReadFrameAsWritten(old(incoming), maxDataSize)
    {
      var header := ReadHeader(maxDataSize);
      if header.Done? {
        return header.outcome;
      }
      var size := header.size;
      var bytes := new Byte[size];
      var bufSize := Min(size, MAX_BUF_SIZE);
      var index := 0;
      ghost var start := incoming;
      ghost var filled := 0;
      ghost var eofs := 0;
      while index < size
        invariant -1 <= index <= size
        invariant 0 <= filled <= size && filled <= |start|
        invariant index == filled - eofs
        invariant eofs >= 0 && (eofs > 0 ==> incoming == [] && filled < size)
        invariant Valid() && socketClosed == old(socketClosed)
        invariant incoming == start[filled..]
        invariant bytes[..filled] == start[..filled]
        decreases |incoming|, index + 1
      {
        if index < 0 {
          return Fatal(IndexOutOfBounds(index));
        }
        var len := Min(bufSize, size - index);
        var bytesRead := Read(bytes, index, len);
        if bytesRead < 0 {
          eofs := eofs + 1;
        } else {
          assert bytes[..filled + bytesRead] == start[..filled + bytesRead] by {
            assert bytes[..filled + bytesRead] == bytes[..][..filled + bytesRead];
          }
          filled := filled + bytesRead;
        }
        index := index + bytesRead;
      }
      assert bytes[..] == bytes[..filled];
      return Data(bytes[..]);
    }

    /** `sendCommand`: the command's text, UTF-8 encoded, as one frame under the command bound. */
    method SendCommand(command: Codec.Cmd) returns (r: WriteOutcome)
      requires Valid()
      modifies this
      ensures Valid()
      ensures var data := CommandBytes(command);
              && r == (if |data| >= MAX_CMD_SIZE then WriteFatal(TooBig(|data|, MAX_CMD_SIZE))
                       else if old(socketClosed) then Failed else Written)
              && outgoing == if r.Written? then old(outgoing) + Frame(data) else old(outgoing)
      ensures socketClosed == old(socketClosed) && incoming == old(incoming)
      ensures closeNotifications == old(closeNotifications)
    {
      var commandStr := Codec.AsString(command);
      var data := Utf8.Encode(commandStr);
      r := WriteData(data, MAX_CMD_SIZE);
    }

    /** `sendData`: the bytes as one frame under the data bound. */
    method SendData(data: seq<Byte>) returns (r: WriteOutcome)
      requires Valid()
      modifies this
      ensures Valid()
      ensures r == (if |data| >= MAX_BINARY_SIZE then WriteFatal(TooBig(|data|, MAX_BINARY_SIZE))
                    else if old(socketClosed) then Failed else Written)
      ensures outgoing == if r.Written? then old(outgoing) + Frame(data) else old(outgoing)
      ensures socketClosed == old(socketClosed) && incoming == old(incoming)
      ensures closeNotifications == old(closeNotifications)
    {
      r := WriteData(data, MAX_BINARY_SIZE);
    }

    /**
     `receiveCommand`: a decodable line is delivered, an undecodable one is
     only logged and the connection stays open, and a `null` from `readData`
     closes the connection without delivering anything.
     */
    method ReceiveCommand() returns (r: CmdReceipt)
      requires Valid()
      modifies this
      ensures Valid()
      ensures old(socketClosed) ==> r == Closed && incoming == old(incoming)
      ensures !old(socketClosed) ==>
                var reading := ReadFrame(old(incoming), MAX_CMD_SIZE);
                r == CommandReceipt(reading.outcome) && incoming == reading.rest
      ensures socketClosed == (old(socketClosed) || r.Closed?)
      ensures outgoing == old(outgoing)
    {
      var data := ReadData(MAX_CMD_SIZE);
      match data
      case Data(bytes) =>
        var line := Utf8.Decode(bytes);
        var cmd := Codec.FromString(line);
        if cmd.None? {
          r := Unknown(line);
        } else {
          r := Delivered(cmd.value);
        }
      case Null =>
        var fired := Close();
        r := Closed;
      case Fatal(f) =>
        r := CmdFault(f);
    }

    /** `receiveData`: the frame's bytes are delivered, or a `null` closes the connection. */
    method ReceiveData() returns (r: DataReceipt)
      requires Valid()
      modifies this
      ensures Valid()
      ensures old(socketClosed) ==> r == DataClosed && incoming == old(incoming)
      ensures !old(socketClosed) ==>
                var reading := ReadFrame(old(incoming), MAX_BINARY_SIZE);
                r == DataReceiptOf(reading.outcome) && incoming == reading.rest
      ensures socketClosed == (old(socketClosed) || r.DataClosed?)
      ensures outgoing == old(outgoing)
    {
      var data := ReadData(MAX_BINARY_SIZE);
      match data
      case Data(bytes) =>
        r := Received(bytes);
      case Null =>
        var fired := Close();
        r := DataClosed;
      case Fatal(f) =>
        r := DataFault(f);
    }
  }
}
