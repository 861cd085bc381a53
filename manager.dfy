/**
 The IDE side (`PreviewManager.kt`): it starts the worker process, adopts the
 connection that attaches, hands out the latest frame request one at a time
 and delivers the frame that answers it. Every `@Synchronized` method is one
 atomic step on the class; the threads that call them in a loop, the server
 socket and the process are outside the model, and what the code asks of them
 (a new socket's bytes, whether the process is alive, its port) is passed in.
 */
module Manager {
  import opened Base
  import opened Framing
  import Codec
  import Utf8
  import Decimal
  import Transport

  /** The worker's entry point, the class `ProcessBuilder` runs. */
  const HOST_MAIN_CLASS: string := "org.jetbrains.compose.desktop.ui.tooling.preview.rpc.PreviewHostKt"

  /** A frame request; `onResult` names the callback that receives the pixels. */
  datatype FrameRequest = FrameRequest(
    classpath: string,
    previewFqName: string,
    width: Int32,
    height: Int32,
    onResult: nat)

  /** The command line of the worker process: `java -cp serverClasspath PreviewHostKt port`. */
  function LaunchCommand(java: string, serverClasspath: string, port: nat): (r: seq<string>)
    requires IsInt32(port)
    ensures |r| == 5 && r[0] == java && r[1] == "-cp" && r[2] == serverClasspath && r[3] == HOST_MAIN_CLASS
    ensures Decimal.ToInt(r[4]) == Some(port as int)
  {
    Decimal.IntRoundTrip(port);
    [java, "-cp", serverClasspath, HOST_MAIN_CLASS, Decimal.IntToString(port)]
  }

  /** The command that announces the classpath. */
  const CLASSPATH_COMMAND: Codec.Cmd := Codec.Cmd(Codec.PREVIEW_CLASSPATH, [])

  /** `FRAME_REQUEST fqName width height`, the numbers in decimal. */
  function RequestCommand(r: FrameRequest): Codec.Cmd {
    Codec.Cmd(Codec.FRAME_REQUEST, [r.previewFqName, Decimal.IntToString(r.width), Decimal.IntToString(r.height)])
  }

  /** The request's words: the name as given, then each number as a single word that reads back as that number. */
  lemma RequestCommandWords(r: FrameRequest)
    ensures var c := RequestCommand(r);
            && c.kind == Codec.FRAME_REQUEST && |c.args| == 3 && c.args[0] == r.previewFqName
            && Decimal.ToInt(c.args[1]) == Some(r.width as int) && Decimal.ToInt(c.args[2]) == Some(r.height as int)
            && Codec.SEP !in c.args[1] && Codec.SEP !in c.args[2]
  {
    Decimal.IntRoundTrip(r.width);
    Decimal.IntRoundTrip(r.height);
    Decimal.IntToStringHasNoSpace(r.width);
    Decimal.IntToStringHasNoSpace(r.height);
  }

  /** A message `sendRequest` hands to the connection: a command, or raw data. */
  datatype Message = Command(cmd: Codec.Cmd) | Payload(bytes: seq<Byte>)

  /** The bytes `writeData` gets for a message, and the bound its `assert` checks. */
  function MessageBytes(m: Message): seq<Byte> {
    match m
    case Command(c) => Transport.CommandBytes(c)
    case Payload(b) => b
  }

  function MessageBound(m: Message): nat {
    if m.Command? then MAX_CMD_SIZE else MAX_BINARY_SIZE
  }

  /** The three messages of a dispatch, in the order they are sent. */
  function RequestMessages(r: FrameRequest): seq<Message> {
    [Command(CLASSPATH_COMMAND), Payload(Utf8.Encode(r.classpath)), Command(RequestCommand(r))]
  }

  /**
   What a run of sends puts on the wire, and the `assert` of `writeData`
   that stops it, if one does. The bound is checked before any byte is
   written, so an oversized message throws even on a closed socket; on a
   closed socket every write fails silently.
   */
  datatype Dispatch = Dispatch(sent: seq<Byte>, fault: Option<Fault>)

  /** One send in front of the sends that follow it: it throws, or it writes its frame and the rest follows. */
  function Prepend(m: Message, open: bool, later: Dispatch): (d: Dispatch)
    ensures d.fault.None? <==> |MessageBytes(m)| < MessageBound(m) && later.fault.None?
  {
    var data := MessageBytes(m);
    if |data| >= MessageBound(m) then Dispatch([], Some(TooBig(|data|, MessageBound(m))))
    else Dispatch((if open then Frame(data) else []) + later.sent, later.fault)
  }

  function Transmit(ms: seq<Message>, open: bool): (d: Dispatch)
    ensures d.fault.None? <==> forall i :: 0 <= i < |ms| ==> |MessageBytes(ms[i])| < MessageBound(ms[i])
    ensures !open ==> d.sent == []
    decreases |ms|
  {
    if |ms| == 0 then Dispatch([], None)
    else
      var later := Transmit(ms[1..], open);
      assert forall i :: 1 <= i < |ms| ==> ms[i] == ms[1..][i - 1];
      Prepend(ms[0], open, later)
  }

  /** A run of three sends, written out. */
  lemma TransmitThree(a: Message, b: Message, c: Message, open: bool)
    ensures Transmit([a, b, c], open)
            == Prepend(a, open, Prepend(b, open, Prepend(c, open, Dispatch([], None))))
  {
    var none := Dispatch([], None);
    assert [c][1..] == [];
    assert Transmit([c], open) == Prepend(c, open, none);
    assert [b, c][1..] == [c];
    assert Transmit([b, c], open) == Prepend(b, open, Transmit([c], open));
    assert [a, b, c][1..] == [b, c];
    assert Transmit([a, b, c], open) == Prepend(a, open, Transmit([b, c], open));
  }

  /** What `sendRequest` did. */
  datatype SendOutcome =
    | Idle                    // nothing pending, or a request already in flight
    | Sent                    // the three messages were handed to the connection
    | SendFault(fault: Fault) // an `assert` threw, which ends the sender thread

  /** Why `receiveResponse` threw, which ends the receiver thread. */
  datatype Failure =
    | MissingArg              // `cmd.args[i]` past the end of the list
    | NotANumber              // `toInt()` failed
    | UnexpectedFrame         // "Unexpected frame"
    | TransportFault(fault: Fault)

  /** What one `receiveResponse` did. */
  datatype Response =
    | Ignored                                  // an unknown line, or a command other than FRAME
    | Rendered(onResult: nat, frame: seq<Byte>)   // `requested.onResult(bytes)`
    | Dropped                                  // a frame with nothing in flight
    | ConnectionClosed                         // a `null` read closed the connection
    | Threw(failure: Failure)

  /** The response, the in-flight slot afterwards and the bytes left on the connection. */
  datatype Reaction = Reaction(response: Response, inFlight: Option<FrameRequest>, rest: seq<Byte>)

  /** The bytes of a FRAME, after its command, read by `receiveData`. */
  function Deliver(inFlight: Option<FrameRequest>, width: int, height: int, input: seq<Byte>): (r: Reaction)
    ensures r.inFlight.Some? ==> r.inFlight == inFlight
    ensures r.response.Rendered? ==>
              && inFlight.Some? && r.response.onResult == inFlight.value.onResult
              && inFlight.value.width == width && inFlight.value.height == height
    ensures r.response.Dropped? ==> inFlight.None?
  {
    var d := ReadFrame(input, MAX_BINARY_SIZE);
    match Transport.DataReceiptOf(d.outcome)
    case DataClosed => Reaction(ConnectionClosed, inFlight, d.rest)
    case DataFault(f) => Reaction(Threw(TransportFault(f)), inFlight, d.rest)
    case Received(bytes) =>
      if inFlight.None? then Reaction(Dropped, None, d.rest)
      else if inFlight.value.width == width && inFlight.value.height == height then
        Reaction(Rendered(inFlight.value.onResult, bytes), None, d.rest)
      else Reaction(Threw(UnexpectedFrame), None, d.rest)
  }

  /**
   One `receiveResponse` over the bytes still to come from the worker: only
   FRAME is acted on, its two numbers are parsed before its data is read,
   and the data then answers the request in flight, if any.
   */
  function Respond(inFlight: Option<FrameRequest>, input: seq<Byte>): (r: Reaction)
    ensures r.inFlight.Some? ==> r.inFlight == inFlight
    ensures r.response.Rendered? ==> inFlight.Some? && r.response.onResult == inFlight.value.onResult
    ensures r.response.Ignored? ==> r.inFlight == inFlight
  {
    var first := ReadFrame(input, MAX_CMD_SIZE);
    match Transport.CommandReceipt(first.outcome)
    case Closed => Reaction(ConnectionClosed, inFlight, first.rest)
    case CmdFault(f) => Reaction(Threw(TransportFault(f)), inFlight, first.rest)
    case Unknown(_) => Reaction(Ignored, inFlight, first.rest)
    case Delivered(cmd) =>
      if cmd.kind != Codec.FRAME then Reaction(Ignored, inFlight, first.rest)
      else if |cmd.args| < 1 then Reaction(Threw(MissingArg), inFlight, first.rest)
      else
        var width := Decimal.ToInt(cmd.args[0]);
        if width.None? then Reaction(Threw(NotANumber), inFlight, first.rest)
        else if |cmd.args| < 2 then Reaction(Threw(MissingArg), inFlight, first.rest)
        else
          var height := Decimal.ToInt(cmd.args[1]);
          if height.None? then Reaction(Threw(NotANumber), inFlight, first.rest)
          else Deliver(inFlight, width.value, height.value, first.rest)
  }

  /** What `acceptConnection` did with a new socket. */
  datatype AcceptOutcome =
    | Adopted                 // the first command was ATTACH
    | Refused                 // another command: the new connection is closed
    | Unanswered              // an unknown line: the connection is neither adopted nor closed
    | Vanished                // the socket ended at once, which closes it
    | AcceptFault(fault: Fault)

  /** How `acceptConnection` answers the first `receiveCommand` of a new socket. */
  function AcceptOf(receipt: Transport.CmdReceipt): (r: AcceptOutcome)
    ensures r.Adopted? <==> receipt.Delivered? && receipt.cmd.kind == Codec.ATTACH
  {
    match receipt
    case Delivered(cmd) => if cmd.kind == Codec.ATTACH then Adopted else Refused
    case Unknown(_) => Unanswered
    case Closed => Vanished
    case CmdFault(f) => AcceptFault(f)
  }

  /** The FRAME a worker answers with, the two numbers in decimal. */
  function FrameCommand(width: int, height: int): Codec.Cmd {
    Codec.Cmd(Codec.FRAME, [Decimal.IntToString(width), Decimal.IntToString(height)])
  }

  /** Any FRAME of two `Int`s fits on the wire: at most 31 characters of ASCII. */
  lemma FrameCommandSendable(width: int, height: int)
    requires IsInt32(width) && IsInt32(height)
    ensures Transport.Sendable(FrameCommand(width, height))
  {
    var ws, hs := Decimal.IntToString(width), Decimal.IntToString(height);
    var words := ["FRAME", ws, hs];
    assert [Codec.Name(Codec.FRAME)] + [ws, hs] == words;
    assert words[1..] == [ws, hs] && [ws, hs][1..] == [hs];
    assert Codec.Join([ws, hs], Codec.SEP) == ws + [Codec.SEP] + hs;
    assert Codec.AsString(FrameCommand(width, height)) == "FRAME" + [Codec.SEP] + (ws + [Codec.SEP] + hs);
    Decimal.IntToStringLength(width);
    Decimal.IntToStringLength(height);
    Decimal.IntToStringHasNoSpace(width);
    Decimal.IntToStringHasNoSpace(height);
    Utf8.EncodeLength(Codec.AsString(FrameCommand(width, height)));
  }

  /**
   A FRAME of two numbers, then its data: the request in flight is answered
   when its sizes match and refused with "Unexpected frame" when they do not,
   the data is dropped when nothing is in flight, and in every case the slot
   ends empty and exactly the two frames are consumed.
   */
  lemma RespondToFrame(inFlight: Option<FrameRequest>, width: int, height: int, pixels: seq<Byte>, rest: seq<Byte>)
    requires IsInt32(width) && IsInt32(height) && |pixels| < MAX_BINARY_SIZE
    ensures (FrameCommandSendable(width, height);
             var input := Frame(Transport.CommandBytes(FrameCommand(width, height))) + Frame(pixels) + rest;
             Respond(inFlight, input)
               == Reaction(if inFlight.None? then Dropped
                           else if inFlight.value.width == width && inFlight.value.height == height
                           then Rendered(inFlight.value.onResult, pixels)
                           else Threw(UnexpectedFrame),
                           None, rest))
  {
    FrameCommandSendable(width, height);
    var c := FrameCommand(width, height);
    ConcatAssoc(Frame(Transport.CommandBytes(c)), Frame(pixels), rest);
    Transport.CommandFrameRoundTrip(c, Frame(pixels) + rest);
    Decimal.IntRoundTrip(width);
    Decimal.IntRoundTrip(height);
    Transport.DataFrameRoundTrip(pixels, rest);
  }

  /** Every sendable command other than FRAME is ignored and leaves the in-flight slot alone. */
  lemma RespondIgnores(inFlight: Option<FrameRequest>, c: Codec.Cmd, rest: seq<Byte>)
    requires Transport.Sendable(c) && c.kind != Codec.FRAME
    ensures Respond(inFlight, Frame(Transport.CommandBytes(c)) + rest) == Reaction(Ignored, inFlight, rest)
  {
    Transport.CommandFrameRoundTrip(c, rest);
  }

  /**
   A FRAME whose data never arrives closes the connection and keeps the
   request in flight: only a FRAME's data empties that slot.
   */
  lemma FrameWithoutData(inFlight: Option<FrameRequest>, width: int, height: int)
    requires IsInt32(width) && IsInt32(height)
    ensures (FrameCommandSendable(width, height);
             Respond(inFlight, Frame(Transport.CommandBytes(FrameCommand(width, height))))
               == Reaction(ConnectionClosed, inFlight, []))
  {
    FrameCommandSendable(width, height);
    var c := FrameCommand(width, height);
    Transport.CommandFrameRoundTrip(c, []);
    assert Frame(Transport.CommandBytes(c)) + [] == Frame(Transport.CommandBytes(c));
    Decimal.IntRoundTrip(width);
    Decimal.IntRoundTrip(height);
  }

  /**
   A dispatch over an open connection goes through exactly when the
   classpath bytes fit the data bound and the FRAME_REQUEST fits the command
   bound, and then it is the three frames in order: PREVIEW_CLASSPATH, the
   classpath's UTF-8 bytes, FRAME_REQUEST.
   */
  lemma RequestDispatch(r: FrameRequest)
    ensures var d := Transmit(RequestMessages(r), true);
            && (d.fault.None? <==> |Utf8.Encode(r.classpath)| < MAX_BINARY_SIZE
                                   && |Transport.CommandBytes(RequestCommand(r))| < MAX_CMD_SIZE)
            && (d.fault.None? ==>
                  (Transport.NoArgsSendable(Codec.PREVIEW_CLASSPATH);
                   d.sent == Frame(Transport.CommandBytes(CLASSPATH_COMMAND)) + Frame(Utf8.Encode(r.classpath))
                             + Frame(Transport.CommandBytes(RequestCommand(r)))))
  {
    Transport.NoArgsSendable(Codec.PREVIEW_CLASSPATH);
    var a, b, c := Command(CLASSPATH_COMMAND), Payload(Utf8.Encode(r.classpath)), Command(RequestCommand(r));
    TransmitThree(a, b, c, true);
    var d := Transmit(RequestMessages(r), true);
    if d.fault.None? {
      var fa, fb, fc := Frame(MessageBytes(a)), Frame(MessageBytes(b)), Frame(MessageBytes(c));
      assert d.sent == fa + (fb + (fc + []));
      assert fc + [] == fc;
      ConcatAssoc(fa, fb, fc);
    }
  }

  /**
   A classpath too large for a data frame: the PREVIEW_CLASSPATH command is
   already on the wire when the `assert` of the data send throws, and the
   FRAME_REQUEST is never sent.
   */
  lemma OversizedClasspath(r: FrameRequest)
    requires |Utf8.Encode(r.classpath)| >= MAX_BINARY_SIZE
    ensures (Transport.NoArgsSendable(Codec.PREVIEW_CLASSPATH);
             Transmit(RequestMessages(r), true)
               == Dispatch(Frame(Transport.CommandBytes(CLASSPATH_COMMAND)),
                           Some(TooBig(|Utf8.Encode(r.classpath)|, MAX_BINARY_SIZE))))
  {
    Transport.NoArgsSendable(Codec.PREVIEW_CLASSPATH);
    var a, b, c := Command(CLASSPATH_COMMAND), Payload(Utf8.Encode(r.classpath)), Command(RequestCommand(r));
    TransmitThree(a, b, c, true);
    assert Frame(MessageBytes(a)) + [] == Frame(MessageBytes(a));
  }

  class PreviewManager {
    /** `serverSocket.localPort`. */
    const port: nat
    var connection: Transport.RemoteConnection?
    var previewProcess: Option<nat>
    var connectionNumber: nat
    var isAlive: bool
    var serverOpen: bool
    var request: Option<FrameRequest>
    var inProgressRequest: Option<FrameRequest>
    /** Command lines of the processes started, in order; a process is its index here. */
    var launches: seq<seq<string>>
    /** Processes `destroyForcibly` was called on, in order. */
    ghost var destroyed: seq<nat>

    /**
     The connection slot only ever holds an open connection, since closing a
     connection runs its `onClose`, which empties the slot.
     */
    ghost predicate Valid()
      reads this, connection
    {
      && IsInt32(port)
      && (connection != null ==> connection.Valid() && !connection.socketClosed)
    }

    constructor (port: nat)
      requires IsInt32(port)
      ensures Valid() && this.port == port
      ensures connection == null && previewProcess.None? && connectionNumber == 0
      ensures isAlive && serverOpen && request.None? && inProgressRequest.None?
      ensures launches == [] && destroyed == []
    {
      this.port := port;
      connection := null;
      previewProcess := None;
      connectionNumber := 0;
      isAlive := true;
      serverOpen := true;
      request := None;
      inProgressRequest := None;
      launches := [];
      destroyed := [];
    }

    /**
     `requestPreview`: a worker is started only when there is no connection
     and no live process; the new request always takes the pending slot, so
     a request not yet sent is dropped without its callback ever running.
     `processAlive` is the answer `previewProcess.isAlive` gives.
     */
    method RequestPreview(java: string, serverClasspath: string, classpath: string, previewFqName: string,
                          width: Int32, height: Int32, onResult: nat, processAlive: bool)
      requires Valid()
      modifies this`previewProcess, this`launches, this`request
      ensures Valid()
      ensures request == Some(FrameRequest(classpath, previewFqName, width, height, onResult))
      ensures var spawn := old(connection) == null && (old(previewProcess).None? || !processAlive);
              && (spawn ==> previewProcess == Some(|old(launches)|)
                            && launches == old(launches) + [LaunchCommand(java, serverClasspath, port)])
              && (!spawn ==> previewProcess == old(previewProcess) && launches == old(launches))
    {
      if connection == null && (previewProcess.None? || !processAlive) {
        previewProcess := Some(|launches|);
        launches := launches + [LaunchCommand(java, serverClasspath, port)];
      }
      request := Some(FrameRequest(classpath, previewFqName, width, height, onResult));
    }

    /**
     `sendRequest(remote)`: with a request pending and none in flight, the
     pending one moves to the in-flight slot and its three messages go to
     `remote`; otherwise nothing happens. `remote` need not be the current
     connection: a sender thread keeps its own.
     */
    method SendRequest(remote: Transport.RemoteConnection) returns (r: SendOutcome)
      requires Valid() && remote.Valid()
      modifies this`request, this`inProgressRequest, remote
      ensures Valid() && remote.Valid()
      ensures var go := old(request).Some? && old(inProgressRequest).None?;
              && (go ==> request.None? && inProgressRequest == old(request))
              && (!go ==> request == old(request) && inProgressRequest == old(inProgressRequest)
                          && r == Idle && remote.outgoing == old(remote.outgoing))
              && (go ==> var d := Transmit(RequestMessages(old(request).value), !old(remote.socketClosed));
                         && remote.outgoing == old(remote.outgoing) + d.sent
                         && r == if d.fault.Some? then SendFault(d.fault.value) else Sent)
      ensures remote.socketClosed == old(remote.socketClosed) && remote.incoming == old(remote.incoming)
    {
      var pending := request;
      if pending.None? || inProgressRequest.Some? {
        return Idle;
      }
      request := None;
      inProgressRequest := pending;
      ghost var current := connection;
      assert this as object != remote as object;
      r := SendMessages(remote, pending.value);
      assert current != null ==> current.Valid() && !current.socketClosed by {
        if current != null && current != remote {
          assert current.socketClosed == old(current.socketClosed);
        }
      }
    }

    /** The three sends of a dispatch, in order; a throwing `assert` ends them. */
    method SendMessages(remote: Transport.RemoteConnection, req: FrameRequest) returns (r: SendOutcome)
      requires remote.Valid()
      modifies remote
      ensures remote.Valid()
      ensures var d := Transmit(RequestMessages(req), !old(remote.socketClosed));
              && remote.outgoing == old(remote.outgoing) + d.sent
              && r == if d.fault.Some? then SendFault(d.fault.value) else Sent
      ensures remote.socketClosed == old(remote.socketClosed) && remote.incoming == old(remote.incoming)
    {
      ghost var open := !remote.socketClosed;
      ghost var start := remote.outgoing;
      ghost var last := Prepend(Command(RequestCommand(req)), open, Dispatch([], None));
      ghost var middle := Prepend(Payload(Utf8.Encode(req.classpath)), open, last);
      TransmitThree(Command(CLASSPATH_COMMAND), Payload(Utf8.Encode(req.classpath)), Command(RequestCommand(req)), open);
      Transport.NoArgsSendable(Codec.PREVIEW_CLASSPATH);
      var w1 := remote.SendCommand(CLASSPATH_COMMAND);
      ghost var first := if open then Frame(Transport.CommandBytes(CLASSPATH_COMMAND)) else [];
      assert remote.outgoing == start + first;
      var classpath := Utf8.Encode(req.classpath);
      var w2 := remote.SendData(classpath);
      if w2.WriteFatal? {
        assert first + middle.sent == first;
        return SendFault(w2.fault);
      }
      ghost var second := if open then Frame(classpath) else [];
      assert middle.sent == second + last.sent;
      ConcatAssoc(start, first, second);
      var w3 := remote.SendCommand(RequestCommand(req));
      if w3.WriteFatal? {
        assert second + last.sent == second;
        return SendFault(w3.fault);
      }
      ghost var third := if open then Frame(Transport.CommandBytes(RequestCommand(req))) else [];
      assert last.sent == third + [] == third;
      ConcatAssoc(start + first, second, third);
      ConcatAssoc(start, first, second + third);
      return Sent;
    }

    /**
     `receiveResponse(remote)`. A `null` read closes `remote`, and its
     `onClose` empties the connection slot, whichever connection the slot
     holds.
     */
    method ReceiveResponse(remote: Transport.RemoteConnection) returns (r: Response)
      requires Valid() && remote.Valid()
      modifies this`inProgressRequest, this`connection, remote
      ensures Valid() && remote.Valid()
      ensures old(remote.socketClosed) ==>
                r == ConnectionClosed && inProgressRequest == old(inProgressRequest)
                && remote.incoming == old(remote.incoming) && connection == old(connection)
      ensures !old(remote.socketClosed) ==>
                var x := Respond(old(inProgressRequest), old(remote.incoming));
                && r == x.response && inProgressRequest == x.inFlight && remote.incoming == x.rest
                && remote.socketClosed == r.ConnectionClosed?
                && connection == if r.ConnectionClosed? then null else old(connection)
      ensures remote.outgoing == old(remote.outgoing)
    {
      var wasOpen := !remote.socketClosed;
      var received := remote.ReceiveCommand();
      match received {
        case Closed =>
          if wasOpen {
            connection := null;
          }
          return ConnectionClosed;
        case CmdFault(f) =>
          return Threw(TransportFault(f));
        case Unknown(_) =>
          return Ignored;
        case Delivered(cmd) =>
          if cmd.kind != Codec.FRAME {
            return Ignored;
          }
          if |cmd.args| < 1 {
            return Threw(MissingArg);
          }
          var width := Decimal.ToInt(cmd.args[0]);
          if width.None? {
            return Threw(NotANumber);
          }
          if |cmd.args| < 2 {
            return Threw(MissingArg);
          }
          var height := Decimal.ToInt(cmd.args[1]);
          if height.None? {
            return Threw(NotANumber);
          }
          r := ReceiveFrame(remote, width.value, height.value);
      }
    }

    /** The `receiveData` of a FRAME whose numbers parsed. */
    method ReceiveFrame(remote: Transport.RemoteConnection, width: int, height: int) returns (r: Response)
      requires Valid() && remote.Valid() && !remote.socketClosed
      modifies this`inProgressRequest, this`connection, remote
      ensures Valid() && remote.Valid()
      ensures var x := Deliver(old(inProgressRequest), width, height, old(remote.incoming));
              && r == x.response && inProgressRequest == x.inFlight && remote.incoming == x.rest
              && remote.socketClosed == r.ConnectionClosed?
              && connection == if r.ConnectionClosed? then null else old(connection)
      ensures remote.outgoing == old(remote.outgoing)
    {
      var data := remote.ReceiveData();
      match data {
        case DataClosed =>
          connection := null;
          return ConnectionClosed;
        case DataFault(f) =>
          return Threw(TransportFault(f));
        case Received(bytes) =>
          var requested := inProgressRequest;
          if requested.None? {
            return Dropped;
          }
          inProgressRequest := None;
          if requested.value.width == width && requested.value.height == height {
            return Rendered(requested.value.onResult, bytes);
          }
          return Threw(UnexpectedFrame);
      }
    }

    /**
     `acceptConnection(socket)`: the current connection is closed (its
     `onClose` empties the slot), the counter goes up, and the new connection,
     over the bytes `peer` its socket will deliver, is adopted only if its
     first command is ATTACH.
     */
    method AcceptConnection(peer: seq<Byte>, readChunk: nat) returns (c: Transport.RemoteConnection, r: AcceptOutcome)
      requires Valid() && readChunk >= 1
      modifies this`connection, this`connectionNumber, connection
      ensures Valid() && fresh(c) && c.Valid()
      ensures connectionNumber == old(connectionNumber) + 1
      ensures old(connection) != null ==> old(connection).socketClosed
      ensures var first := ReadFrame(peer, MAX_CMD_SIZE);
              && r == AcceptOf(Transport.CommandReceipt(first.outcome))
              && c.incoming == first.rest && c.outgoing == []
              && (connection == if r.Adopted? then c else null)
              && (c.socketClosed <==> r.Refused? || r.Vanished?)
    {
      if connection != null {
        var fired := connection.Close();
        connection := null;
      }
      connectionNumber := connectionNumber + 1;
      c := new Transport.RemoteConnection(peer, readChunk);
      var received := c.ReceiveCommand();
      r := AcceptOf(received);
      match received {
        case Delivered(cmd) =>
          if cmd.kind == Codec.ATTACH {
            connection := c;
          } else {
            var fired := c.Close();
            connection := null;
          }
        case Closed =>
          connection := null;
        case Unknown(_) =>
        case CmdFault(_) =>
      }
    }

    /**
     `close()`: the accept loop stops, the server socket and the current
     connection close, and the worker process, if any, is destroyed.
     */
    method Close()
      requires Valid()
      modifies this`isAlive, this`serverOpen, this`connection, this`destroyed, connection
      ensures Valid()
      ensures !isAlive && !serverOpen && connection == null
      ensures old(connection) != null ==> old(connection).socketClosed
      ensures destroyed == old(destroyed) + (if previewProcess.Some? then [previewProcess.value] else [])
    {
      isAlive := false;
      serverOpen := false;
      if connection != null {
        var fired := connection.Close();
        connection := null;
      }
      if previewProcess.Some? {
        destroyed := destroyed + [previewProcess.value];
      }
    }
  }
}
