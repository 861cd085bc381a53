/**
 The worker (`PreviewHost.kt`): it attaches to the host process, then serves
 one command after another until the connection ends or anything throws,
 which ends the process (`exitProcess(0)` in `onClose` and in the `catch`).
 Class loading and the reflective call of the render entry point are
 abstracted by `Env`.
 */
module Host {
  import opened Base
  import opened Framing
  import Codec
  import Utf8
  import Decimal
  import Transport

  /** A `URLClassLoader` over the given classpath entries, in order. */
  datatype ClassLoader = ClassLoader(entries: seq<string>)

  /**
   The collaborators the worker reaches through the class loader:
   `File.pathSeparator`; whether `loadClass(PREVIEW_FACADE_CLASS_NAME)` and
   `getMethod("render", …)` succeed for a loader; and the value of
   `render(fqName, width, height)`, `None` when the call throws.
   */
  datatype Env = Env(
    pathSeparator: char,
    resolve: ClassLoader -> bool,
    invoke: (ClassLoader, string, int, int) -> Option<seq<Byte>>)

  /** Why a throwable ended the serving loop. */
  datatype Error =
    | TransportFault(fault: Fault)
    | NoClasspath             // "A frame is requested before preview classpath is configured"
    | MissingArgs             // `request.args[i]` past the end of the list
    | NoRenderEntry           // `loadClass` / `getMethod` failed
    | NotANumber              // `width.toInt()` / `height.toInt()` failed
    | RenderFailed            // `renderMethod.invoke` threw
    | Unexpected(kind: Codec.CmdType)   // "Unexpected command"

  /** How the process ends: through `onClose`, or through the `catch (e: Throwable)`. */
  datatype Exit = OnClose | Throwable(error: Error)

  /** One pass of the `while (true)` loop; `closed` lists the loaders it closed. */
  datatype StepResult =
    | Continue(loader: Option<ClassLoader>, sent: seq<Byte>, rest: seq<Byte>, closed: seq<ClassLoader>)
    | Stop(exit: Exit, sent: seq<Byte>, rest: seq<Byte>, closed: seq<ClassLoader>)

  /** The whole run of the loop, from a loader state over the bytes still to come from the host. */
  datatype SessionResult = SessionResult(exit: Exit, sent: seq<Byte>, loader: Option<ClassLoader>, closed: seq<ClassLoader>)

  /** The loader a PREVIEW_CLASSPATH payload installs: one entry per piece between separators. */
  function LoaderFor(env: Env, bytes: seq<Byte>): ClassLoader {
    ClassLoader(Codec.Split(Utf8.Decode(bytes), env.pathSeparator))
  }

  /** The FRAME reply: the width and height exactly as they arrived. */
  function FrameReply(width: string, height: string): Codec.Cmd {
    Codec.Cmd(Codec.FRAME, [width, height])
  }

  /** What the code does with one delivered command; `input` is what follows it on the stream. */
  function Dispatch(env: Env, loader: Option<ClassLoader>, cmd: Codec.Cmd, input: seq<Byte>): (r: StepResult)
    ensures r.Continue? ==> |r.rest| <= |input|
  {
    match cmd.kind
    case PREVIEW_CLASSPATH =>
      var closed := if loader.Some? then [loader.value] else [];
      var d := ReadFrame(input, MAX_BINARY_SIZE);
      (match Transport.DataReceiptOf(d.outcome)
       case Received(bytes) => Continue(Some(LoaderFor(env, bytes)), [], d.rest, closed)
       case DataClosed => Stop(OnClose, [], d.rest, closed)
       case DataFault(f) => Stop(Throwable(TransportFault(f)), [], d.rest, closed))
    case FRAME_REQUEST =>
      if loader.None? then Stop(Throwable(NoClasspath), [], input, [])
      else if |cmd.args| < 3 then Stop(Throwable(MissingArgs), [], input, [])
      else if !env.resolve(loader.value) then Stop(Throwable(NoRenderEntry), [], input, [])
      else
        var width, height := Decimal.ToInt(cmd.args[1]), Decimal.ToInt(cmd.args[2]);
        if width.None? || height.None? then Stop(Throwable(NotANumber), [], input, [])
        else
          var pixels := env.invoke(loader.value, cmd.args[0], width.value, height.value);
          if pixels.None? then Stop(Throwable(RenderFailed), [], input, [])
          else
            var reply := Transport.CommandBytes(FrameReply(cmd.args[1], cmd.args[2]));
            if |reply| >= MAX_CMD_SIZE then
              Stop(Throwable(TransportFault(TooBig(|reply|, MAX_CMD_SIZE))), [], input, [])
            else if |pixels.value| >= MAX_BINARY_SIZE then
              Stop(Throwable(TransportFault(TooBig(|pixels.value|, MAX_BINARY_SIZE))), Frame(reply), input, [])
            else Continue(loader, Frame(reply) + Frame(pixels.value), input, [])
    case ATTACH => Stop(Throwable(Unexpected(cmd.kind)), [], input, [])
    case FRAME => Stop(Throwable(Unexpected(cmd.kind)), [], input, [])
  }

  /** One pass of the loop: `receiveCommand`, then the dispatch on the command's type. */
  function Step(env: Env, loader: Option<ClassLoader>, input: seq<Byte>): (r: StepResult)
    ensures r.Continue? ==> |r.rest| < |input|
  {
    var first := ReadFrame(input, MAX_CMD_SIZE);
    match Transport.CommandReceipt(first.outcome)
    case Closed => Stop(OnClose, [], first.rest, [])
    case CmdFault(f) => Stop(Throwable(TransportFault(f)), [], first.rest, [])
    case Unknown(_) => Continue(loader, [], first.rest, [])
    case Delivered(cmd) => Dispatch(env, loader, cmd, first.rest)
  }

  /** The loop run to its end: it stops for good at the first throwable or close. */
  function Session(env: Env, loader: Option<ClassLoader>, input: seq<Byte>): SessionResult
    decreases |input|
  {
    match Step(env, loader, input)
    case Continue(l, s, rest, c) =>
      var r := Session(env, l, rest);
      SessionResult(r.exit, s + r.sent, r.loader, c + r.closed)
    case Stop(e, s, _, c) => SessionResult(e, s, loader, c)
  }

  lemma SessionContinues(env: Env, loader: Option<ClassLoader>, input: seq<Byte>, st: StepResult)
    requires st == Step(env, loader, input) && st.Continue?
    ensures var r := Session(env, st.loader, st.rest);
            Session(env, loader, input) == SessionResult(r.exit, st.sent + r.sent, r.loader, st.closed + r.closed)
  {
  }

  /** A pass that sends nothing leaves the rest of the session to decide everything but the loaders it closed. */
  lemma SessionAfterSilentStep(env: Env, loader: Option<ClassLoader>, input: seq<Byte>,
                               l: Option<ClassLoader>, rest: seq<Byte>, closed: seq<ClassLoader>)
    requires Step(env, loader, input) == Continue(l, [], rest, closed)
    ensures var r := Session(env, l, rest);
            Session(env, loader, input) == SessionResult(r.exit, r.sent, r.loader, closed + r.closed)
  {
    var r := Session(env, l, rest);
    SessionContinues(env, loader, input, Step(env, loader, input));
    assert [] + r.sent == r.sent;
  }

  lemma SessionStops(env: Env, loader: Option<ClassLoader>, input: seq<Byte>, st: StepResult)
    requires st == Step(env, loader, input) && st.Stop?
    ensures Session(env, loader, input) == SessionResult(st.exit, st.sent, loader, st.closed)
  {
  }

  /** One pass never drops an installed loader, and sends bytes only from a FRAME_REQUEST served by one. */
  lemma StepLoader(env: Env, loader: Option<ClassLoader>, input: seq<Byte>)
    ensures var st := Step(env, loader, input);
            && (st.Continue? && loader.Some? ==> st.loader.Some?)
            && (|st.sent| > 0 ==> loader.Some? && (st.Continue? ==> st.loader == loader))
  {
  }

  /**
   Over a whole session: once a classpath is installed there is always a
   loader, and a session that sent anything (a FRAME) ends with a loader.
   */
  lemma {:induction false} SessionKeepsLoader(env: Env, loader: Option<ClassLoader>, input: seq<Byte>)
    ensures var r := Session(env, loader, input);
            && (loader.Some? ==> r.loader.Some?)
            && (|r.sent| > 0 ==> r.loader.Some?)
    decreases |input|
  {
    var st := Step(env, loader, input);
    StepLoader(env, loader, input);
    if st.Continue? {
      SessionContinues(env, loader, input, st);
      SessionKeepsLoader(env, st.loader, st.rest);
    } else {
      SessionStops(env, loader, input, st);
    }
  }

  /** The frame bytes of a command. */
  function CommandFrame(c: Codec.Cmd): seq<Byte>
    requires |Transport.CommandBytes(c)| <= INT_MAX
  {
    Frame(Transport.CommandBytes(c))
  }

  lemma AttachBytes()
    ensures Transport.CommandBytes(Codec.Cmd(Codec.ATTACH, [])) == [65, 84, 84, 65, 67, 72]
  {
    assert Codec.AsString(Codec.Cmd(Codec.ATTACH, [])) == "ATTACH";
  }

  /** A sendable command on the stream is handed to `when (request.type)` as it was sent. */
  lemma StepDelivers(env: Env, loader: Option<ClassLoader>, c: Codec.Cmd, rest: seq<Byte>)
    requires Transport.Sendable(c)
    ensures Step(env, loader, CommandFrame(c) + rest) == Dispatch(env, loader, c, rest)
  {
    Transport.CommandFrameRoundTrip(c, rest);
  }

  /** Once the host's side ends, the next `receiveCommand` closes, and `onClose` ends the process. */
  lemma EndOfInputCloses(env: Env, loader: Option<ClassLoader>)
    ensures Session(env, loader, []) == SessionResult(OnClose, [], loader, [])
  {
  }

  /** A line that names no command is logged and skipped: the session goes on as if it were not there. */
  lemma UnknownIsSkipped(env: Env, loader: Option<ClassLoader>, line: seq<Byte>, rest: seq<Byte>)
    requires |line| < MAX_CMD_SIZE && Codec.Parse(Utf8.Decode(line)).None?
    ensures Session(env, loader, Frame(line) + rest) == Session(env, loader, rest)
  {
    FrameRoundTrip(line, MAX_CMD_SIZE, rest);
    var st := Step(env, loader, Frame(line) + rest);
    assert st == Continue(loader, [], rest, []);
    SessionContinues(env, loader, Frame(line) + rest, st);
  }

  /** "A frame is requested before preview classpath is configured". */
  lemma FrameRequestBeforeClasspath(env: Env, args: seq<string>, rest: seq<Byte>)
    requires Transport.Sendable(Codec.Cmd(Codec.FRAME_REQUEST, args))
    ensures Session(env, None, CommandFrame(Codec.Cmd(Codec.FRAME_REQUEST, args)) + rest)
              == SessionResult(Throwable(NoClasspath), [], None, [])
  {
    var input := CommandFrame(Codec.Cmd(Codec.FRAME_REQUEST, args)) + rest;
    StepDelivers(env, None, Codec.Cmd(Codec.FRAME_REQUEST, args), rest);
    SessionStops(env, None, input, Step(env, None, input));
  }

  /** ATTACH and FRAME are the host's commands: the worker throws on either. */
  lemma UnexpectedCommand(env: Env, loader: Option<ClassLoader>, c: Codec.Cmd, rest: seq<Byte>)
    requires Transport.Sendable(c) && (c.kind == Codec.ATTACH || c.kind == Codec.FRAME)
    ensures Session(env, loader, CommandFrame(c) + rest)
              == SessionResult(Throwable(Unexpected(c.kind)), [], loader, [])
  {
    var input := CommandFrame(c) + rest;
    StepDelivers(env, loader, c, rest);
    SessionStops(env, loader, input, Step(env, loader, input));
  }

  /** PREVIEW_CLASSPATH reads one data frame and installs a loader over its text. */
  lemma ClasspathDispatch(env: Env, loader: Option<ClassLoader>, data: seq<Byte>, rest: seq<Byte>)
    requires |data| < MAX_BINARY_SIZE
    ensures Dispatch(env, loader, Codec.Cmd(Codec.PREVIEW_CLASSPATH, []), Frame(data) + rest)
              == Continue(Some(LoaderFor(env, data)), [], rest, if loader.Some? then [loader.value] else [])
  {
    Transport.DataFrameRoundTrip(data, rest);
  }

  /**
   PREVIEW_CLASSPATH followed by the classpath's bytes closes the current
   loader and installs one over the classpath's pieces; the session goes on
   from there.
   */
  lemma ClasspathInstallsLoader(env: Env, loader: Option<ClassLoader>, classpath: string, rest: seq<Byte>)
    requires |Utf8.Encode(classpath)| < MAX_BINARY_SIZE
    ensures (Transport.NoArgsSendable(Codec.PREVIEW_CLASSPATH);
             var input := CommandFrame(Codec.Cmd(Codec.PREVIEW_CLASSPATH, [])) + Frame(Utf8.Encode(classpath)) + rest;
             var r := Session(env, Some(ClassLoader(Codec.Split(classpath, env.pathSeparator))), rest);
             Session(env, loader, input)
               == SessionResult(r.exit, r.sent, r.loader, (if loader.Some? then [loader.value] else []) + r.closed))
  {
    Transport.NoArgsSendable(Codec.PREVIEW_CLASSPATH);
    ClasspathStep(env, loader, classpath, rest);
    SessionAfterSilentStep(env, loader, CommandFrame(Codec.Cmd(Codec.PREVIEW_CLASSPATH, [])) + Frame(Utf8.Encode(classpath)) + rest,
                           Some(ClassLoader(Codec.Split(classpath, env.pathSeparator))), rest,
                           if loader.Some? then [loader.value] else []);
  }

  /** The pass of the loop that reads PREVIEW_CLASSPATH and the classpath after it. */
  lemma ClasspathStep(env: Env, loader: Option<ClassLoader>, classpath: string, rest: seq<Byte>)
    requires |Utf8.Encode(classpath)| < MAX_BINARY_SIZE
    ensures (Transport.NoArgsSendable(Codec.PREVIEW_CLASSPATH);
             Step(env, loader, CommandFrame(Codec.Cmd(Codec.PREVIEW_CLASSPATH, [])) + Frame(Utf8.Encode(classpath)) + rest)
               == Continue(Some(ClassLoader(Codec.Split(classpath, env.pathSeparator))), [], rest,
                           if loader.Some? then [loader.value] else []))
  {
    Transport.NoArgsSendable(Codec.PREVIEW_CLASSPATH);
    var c := Codec.Cmd(Codec.PREVIEW_CLASSPATH, []);
    var data := Utf8.Encode(classpath);
    ConcatAssoc(CommandFrame(c), Frame(data), rest);
    StepDelivers(env, loader, c, Frame(data) + rest);
    ClasspathDispatch(env, loader, data, rest);
    Utf8.DecodeEncode(classpath);
  }

  /**
   The loader's entries are the pieces of the decoded payload: joined back with
   the separator they give the payload's text, and there is one more of them
   than there are separators.
   */
  lemma LoaderForEntries(env: Env, bytes: seq<Byte>)
    ensures var entries := LoaderFor(env, bytes).entries;
            && Codec.Join(entries, env.pathSeparator) == Utf8.Decode(bytes)
            && |entries| == multiset(Utf8.Decode(bytes))[env.pathSeparator] + 1
  {
    Codec.JoinSplit(Utf8.Decode(bytes), env.pathSeparator);
    Codec.SplitCount(Utf8.Decode(bytes), env.pathSeparator);
  }

  /** The same, for the bytes of a classpath. */
  lemma LoaderEntries(env: Env, classpath: string)
    ensures var entries := LoaderFor(env, Utf8.Encode(classpath)).entries;
            && Codec.Join(entries, env.pathSeparator) == classpath
            && |entries| == multiset(classpath)[env.pathSeparator] + 1
  {
    Utf8.DecodeEncode(classpath);
    LoaderForEntries(env, Utf8.Encode(classpath));
  }

  /** The FRAME reply is shorter than the FRAME_REQUEST it answers, so it fits wherever the request did. */
  lemma ReplyShorter(fqName: string, width: string, height: string)
    ensures |Transport.CommandBytes(FrameReply(width, height))|
              < |Transport.CommandBytes(Codec.Cmd(Codec.FRAME_REQUEST, [fqName, width, height]))|
  {
    var tail := [Codec.SEP] + Codec.Join([width, height], Codec.SEP);
    var head := "FRAME_REQUEST" + [Codec.SEP] + fqName;
    assert Codec.AsString(FrameReply(width, height)) == "FRAME" + tail;
    assert Codec.AsString(Codec.Cmd(Codec.FRAME_REQUEST, [fqName, width, height])) == head + tail by {
      var words := ["FRAME_REQUEST", fqName, width, height];
      assert [Codec.Name(Codec.FRAME_REQUEST)] + [fqName, width, height] == words;
      assert words[1..] == [fqName, width, height] && words[1..][1..] == [width, height];
      assert Codec.Join(words, Codec.SEP) == "FRAME_REQUEST" + [Codec.SEP] + Codec.Join(words[1..], Codec.SEP);
      assert Codec.Join(words[1..], Codec.SEP) == fqName + [Codec.SEP] + Codec.Join([width, height], Codec.SEP);
    }
    Utf8.EncodeAppend("FRAME", tail);
    Utf8.EncodeAppend(head, tail);
    Utf8.EncodeLength("FRAME");
    Utf8.EncodeLength(head);
  }

  /**
   A FRAME_REQUEST with a usable loader: `render` is called with the name and
   the values `toInt` gives the two number texts, and the reply is FRAME with
   those two texts exactly as they arrived, followed by the pixels; a text
   such as "007" or "+5" is echoed as it stands. Arguments after the third
   are ignored.
   */
  lemma FrameRequestEchoes(env: Env, l: ClassLoader, fqName: string, ws: string, hs: string, extra: seq<string>,
                           width: int, height: int, pixels: seq<Byte>, rest: seq<Byte>)
    requires Codec.SEP !in fqName && Codec.SEP !in ws && Codec.SEP !in hs
    requires forall i :: 0 <= i < |extra| ==> Codec.SEP !in extra[i]
    requires Decimal.ToInt(ws) == Some(width) && Decimal.ToInt(hs) == Some(height)
    requires |Transport.CommandBytes(Codec.Cmd(Codec.FRAME_REQUEST, [fqName, ws, hs] + extra))| < MAX_CMD_SIZE
    requires env.resolve(l) && env.invoke(l, fqName, width, height) == Some(pixels)
    requires |pixels| < MAX_BINARY_SIZE
    ensures var reply := Transport.CommandBytes(FrameReply(ws, hs));
            && |reply| < MAX_CMD_SIZE
            && Step(env, Some(l), CommandFrame(Codec.Cmd(Codec.FRAME_REQUEST, [fqName, ws, hs] + extra)) + rest)
                 == Continue(Some(l), Frame(reply) + Frame(pixels), rest, [])
  {
    var args := [fqName, ws, hs] + extra;
    var c := Codec.Cmd(Codec.FRAME_REQUEST, args);
    ReplyShorter(fqName, ws, hs);
    Transport.CommandBytesGrow(Codec.FRAME_REQUEST, [fqName, ws, hs], extra);
    assert args[0] == fqName && args[1] == ws && args[2] == hs;
    assert forall i :: 0 <= i < |args| ==> Codec.SEP !in args[i] by {
      forall i | 0 <= i < |args|
        ensures Codec.SEP !in args[i]
      {
        if i >= 3 {
          assert args[i] == extra[i - 3];
        }
      }
    }
    StepDelivers(env, Some(l), c, rest);
  }

  /** The same for the number texts the manager sends: `toString` of the two `Int`s. */
  lemma FrameRequestRenders(env: Env, l: ClassLoader, fqName: string, width: int, height: int,
                            pixels: seq<Byte>, rest: seq<Byte>)
    requires Codec.SEP !in fqName && IsInt32(width) && IsInt32(height)
    requires |Transport.CommandBytes(Codec.Cmd(Codec.FRAME_REQUEST,
               [fqName, Decimal.IntToString(width), Decimal.IntToString(height)]))| < MAX_CMD_SIZE
    requires env.resolve(l) && env.invoke(l, fqName, width, height) == Some(pixels)
    requires |pixels| < MAX_BINARY_SIZE
    ensures var ws, hs := Decimal.IntToString(width), Decimal.IntToString(height);
            var reply := Transport.CommandBytes(FrameReply(ws, hs));
            && |reply| < MAX_CMD_SIZE
            && Step(env, Some(l), CommandFrame(Codec.Cmd(Codec.FRAME_REQUEST, [fqName, ws, hs])) + rest)
                 == Continue(Some(l), Frame(reply) + Frame(pixels), rest, [])
  {
    var ws, hs := Decimal.IntToString(width), Decimal.IntToString(height);
    Decimal.IntToStringHasNoSpace(width);
    Decimal.IntToStringHasNoSpace(height);
    Decimal.IntRoundTrip(width);
    Decimal.IntRoundTrip(height);
    assert [fqName, ws, hs] + [] == [fqName, ws, hs];
    FrameRequestEchoes(env, l, fqName, ws, hs, [], width, height, pixels, rest);
  }

  /**
   A whole session as the manager drives it: the classpath, one frame request,
   then the host goes away. The worker answers with one FRAME and its pixels,
   keeps the loader it built, and ends through `onClose`.
   */
  lemma OneFrameSession(env: Env, classpath: string, fqName: string, width: int, height: int, pixels: seq<Byte>)
    requires |Utf8.Encode(classpath)| < MAX_BINARY_SIZE
    requires Codec.SEP !in fqName && IsInt32(width) && IsInt32(height)
    requires |Transport.CommandBytes(Codec.Cmd(Codec.FRAME_REQUEST,
               [fqName, Decimal.IntToString(width), Decimal.IntToString(height)]))| < MAX_CMD_SIZE
    requires var l := ClassLoader(Codec.Split(classpath, env.pathSeparator));
             env.resolve(l) && env.invoke(l, fqName, width, height) == Some(pixels)
    requires |pixels| < MAX_BINARY_SIZE
    ensures (Transport.NoArgsSendable(Codec.PREVIEW_CLASSPATH);
             var ws, hs := Decimal.IntToString(width), Decimal.IntToString(height);
             var request := Codec.Cmd(Codec.FRAME_REQUEST, [fqName, ws, hs]);
             var input := CommandFrame(Codec.Cmd(Codec.PREVIEW_CLASSPATH, [])) + Frame(Utf8.Encode(classpath))
                          + CommandFrame(request);
             ReplyShorter(fqName, ws, hs);
             Session(env, None, input)
               == SessionResult(OnClose, CommandFrame(FrameReply(ws, hs)) + Frame(pixels),
                                Some(ClassLoader(Codec.Split(classpath, env.pathSeparator))), []))
  {
    Transport.NoArgsSendable(Codec.PREVIEW_CLASSPATH);
    var ws, hs := Decimal.IntToString(width), Decimal.IntToString(height);
    var request := Codec.Cmd(Codec.FRAME_REQUEST, [fqName, ws, hs]);
    var l := ClassLoader(Codec.Split(classpath, env.pathSeparator));
    ClasspathInstallsLoader(env, None, classpath, CommandFrame(request));
    FrameRequestRenders(env, l, fqName, width, height, pixels, []);
    assert CommandFrame(request) + [] == CommandFrame(request);
    SessionContinues(env, Some(l), CommandFrame(request), Step(env, Some(l), CommandFrame(request)));
    EndOfInputCloses(env, Some(l));
    assert CommandFrame(FrameReply(ws, hs)) + Frame(pixels) + [] == CommandFrame(FrameReply(ws, hs)) + Frame(pixels);
  }

  class PreviewHost {
    const remote: Transport.RemoteConnection
    const env: Env
    var previewClassLoader: Option<ClassLoader>
    /** Loaders closed by `previewClassLoader?.close()`, in order. */
    ghost var closedLoaders: seq<ClassLoader>
    /** How the process ended, once it has. */
    var exit: Option<Exit>

    ghost predicate Valid()
      reads this, remote
    {
      remote.Valid()
    }

    constructor (remote: Transport.RemoteConnection, env: Env)
      requires remote.Valid()
      ensures Valid() && this.remote == remote && this.env == env
      ensures previewClassLoader.None? && closedLoaders == [] && exit.None?
    {
      this.remote := remote;
      this.env := env;
      previewClassLoader := None;
      closedLoaders := [];
      exit := None;
    }

    /** One pass of the `while (true)` loop of the worker thread. */
    method ServeOne() returns (stop: Option<Exit>)
      requires Valid() && !remote.socketClosed
      modifies this, remote
      ensures Valid()
      ensures var s := Step(env, old(previewClassLoader), old(remote.incoming));
              && remote.outgoing == old(remote.outgoing) + s.sent
              && remote.incoming == s.rest
              && closedLoaders == old(closedLoaders) + s.closed
              && (s.Continue? <==> stop.None?)
              && (s.Continue? ==> previewClassLoader == s.loader && !remote.socketClosed)
              && (s.Stop? ==> stop == Some(s.exit) && previewClassLoader == old(previewClassLoader))
      ensures exit == old(exit)
    {
      var received := remote.ReceiveCommand();
      match received {
        case Closed =>
          stop := Some(OnClose);
        case CmdFault(f) =>
          stop := Some(Throwable(TransportFault(f)));
        case Unknown(_) =>
          stop := None;
        case Delivered(request) =>
          stop := Execute(request);
      }
    }

    /**
     One pass of the loop, stated as what it leaves of the whole session: the
     bytes it sent and the loaders it closed, and either the session's end or
     the session that remains.
     */
    method ServeStep() returns (stop: Option<Exit>, ghost sent: seq<Byte>, ghost closed: seq<ClassLoader>)
      requires Valid() && !remote.socketClosed
      modifies this, remote
      ensures Valid()
      ensures remote.outgoing == old(remote.outgoing) + sent
      ensures closedLoaders == old(closedLoaders) + closed
      ensures stop.None? ==> !remote.socketClosed && |remote.incoming| < |old(remote.incoming)|
      ensures stop.None? ==>
                var r := Session(env, previewClassLoader, remote.incoming);
                Session(env, old(previewClassLoader), old(remote.incoming))
                  == SessionResult(r.exit, sent + r.sent, r.loader, closed + r.closed)
      ensures stop.Some? ==>
                Session(env, old(previewClassLoader), old(remote.incoming))
                  == SessionResult(stop.value, sent, previewClassLoader, closed)
      ensures exit == old(exit)
    {
      ghost var loader0, input0 := previewClassLoader, remote.incoming;
      ghost var st := Step(env, loader0, input0);
      stop := ServeOne();
      sent, closed := st.sent, st.closed;
      if st.Continue? {
        SessionContinues(env, loader0, input0, st);
      } else {
        SessionStops(env, loader0, input0, st);
      }
    }

    /** The `when (request.type)` of the loop, for a command `receiveCommand` delivered. */
    method Execute(request: Codec.Cmd) returns (stop: Option<Exit>)
      requires Valid() && !remote.socketClosed
      modifies this, remote
      ensures Valid()
      ensures var s := Dispatch(env, old(previewClassLoader), request, old(remote.incoming));
              && remote.outgoing == old(remote.outgoing) + s.sent
              && remote.incoming == s.rest
              && closedLoaders == old(closedLoaders) + s.closed
              && (s.Continue? <==> stop.None?)
              && (s.Continue? ==> previewClassLoader == s.loader && !remote.socketClosed)
              && (s.Stop? ==> stop == Some(s.exit) && previewClassLoader == old(previewClassLoader))
      ensures exit == old(exit)
    {
      match request.kind {
        case PREVIEW_CLASSPATH =>
          if previewClassLoader.Some? {
            closedLoaders := closedLoaders + [previewClassLoader.value];
          }
          var data := remote.ReceiveData();
          match data {
            case Received(bytes) =>
              var classpath := Codec.Split(Utf8.Decode(bytes), env.pathSeparator);
              previewClassLoader := Some(ClassLoader(classpath));
              return None;
            case DataClosed =>
              return Some(OnClose);
            case DataFault(f) =>
              return Some(Throwable(TransportFault(f)));
          }
        case FRAME_REQUEST =>
          stop := ExecuteFrameRequest(request);
        case ATTACH =>
          return Some(Throwable(Unexpected(request.kind)));
        case FRAME =>
          return Some(Throwable(Unexpected(request.kind)));
      }
    }

    /** The FRAME_REQUEST branch of the `when`: render with the current loader and send the FRAME reply and its pixels. */
    method ExecuteFrameRequest(request: Codec.Cmd) returns (stop: Option<Exit>)
      requires Valid() && !remote.socketClosed && request.kind == Codec.FRAME_REQUEST
      modifies this, remote
      ensures Valid()
      ensures var s := Dispatch(env, old(previewClassLoader), request, old(remote.incoming));
              && remote.outgoing == old(remote.outgoing) + s.sent
              && remote.incoming == s.rest
              && closedLoaders == old(closedLoaders) + s.closed
              && (s.Continue? <==> stop.None?)
              && (s.Continue? ==> previewClassLoader == s.loader && !remote.socketClosed)
              && (s.Stop? ==> stop == Some(s.exit) && previewClassLoader == old(previewClassLoader))
      ensures exit == old(exit)
    {
      if previewClassLoader.None? {
        return Some(Throwable(NoClasspath));
      }
      var classLoader := previewClassLoader.value;
      if |request.args| < 3 {
        return Some(Throwable(MissingArgs));
      }
      var fqName, width, height := request.args[0], request.args[1], request.args[2];
      if !env.resolve(classLoader) {
        return Some(Throwable(NoRenderEntry));
      }
      var w, h := Decimal.ToInt(width), Decimal.ToInt(height);
      if w.None? || h.None? {
        return Some(Throwable(NotANumber));
      }
      var pixels := env.invoke(classLoader, fqName, w.value, h.value);
      if pixels.None? {
        return Some(Throwable(RenderFailed));
      }
      stop := SendFrame(width, height, pixels.value);
    }

    /** `sendCommand` of the FRAME reply, then `sendData` of the pixels; either write can be too big. */
    method SendFrame(width: string, height: string, pixels: seq<Byte>) returns (stop: Option<Exit>)
      requires remote.Valid() && !remote.socketClosed
      modifies remote
      ensures remote.Valid() && !remote.socketClosed && remote.incoming == old(remote.incoming)
      ensures var reply := Transport.CommandBytes(FrameReply(width, height));
              if |reply| >= MAX_CMD_SIZE then
                stop == Some(Throwable(TransportFault(TooBig(|reply|, MAX_CMD_SIZE))))
                && remote.outgoing == old(remote.outgoing)
              else if |pixels| >= MAX_BINARY_SIZE then
                stop == Some(Throwable(TransportFault(TooBig(|pixels|, MAX_BINARY_SIZE))))
                && remote.outgoing == old(remote.outgoing) + Frame(reply)
              else
                stop == None && remote.outgoing == old(remote.outgoing) + (Frame(reply) + Frame(pixels))
    {
      ghost var start := remote.outgoing;
      ghost var reply := Transport.CommandBytes(FrameReply(width, height));
      var response := FrameReply(width, height);
      var sentCommand := remote.SendCommand(response);
      if sentCommand.WriteFatal? {
        return Some(Throwable(TransportFault(sentCommand.fault)));
      }
      assert remote.outgoing == start + Frame(reply);
      var sentData := remote.SendData(pixels);
      if sentData.WriteFatal? {
        return Some(Throwable(TransportFault(sentData.fault)));
      }
      ConcatAssoc(start, Frame(reply), Frame(pixels));
      return None;
    }

    /**
     The worker thread: send ATTACH before anything is received, then serve
     commands until the loop ends; it does not resume after that.
     */
    method Serve() returns (e: Exit)
      requires Valid() && !remote.socketClosed && exit.None?
      modifies this, remote
      ensures Valid()
      ensures var s := Session(env, old(previewClassLoader), old(remote.incoming));
              && e == s.exit && exit == Some(e)
              && remote.outgoing == old(remote.outgoing) + CommandFrame(Codec.Cmd(Codec.ATTACH, [])) + s.sent
              && previewClassLoader == s.loader
              && closedLoaders == old(closedLoaders) + s.closed
    {
      AttachBytes();
      var attached := remote.SendCommand(Codec.Cmd(Codec.ATTACH, []));
      e := ServeLoop();
    }

    /** The `while (true)` loop, run until the process ends. */
    method ServeLoop() returns (e: Exit)
      requires Valid() && !remote.socketClosed && exit.None?
      modifies this, remote
      ensures Valid()
      ensures var s := Session(env, old(previewClassLoader), old(remote.incoming));
              && e == s.exit && exit == Some(e)
              && remote.outgoing == old(remote.outgoing) + s.sent
              && previewClassLoader == s.loader
              && closedLoaders == old(closedLoaders) + s.closed
    {
      ghost var spec := Session(env, previewClassLoader, remote.incoming);
      ghost var base := remote.outgoing;
      ghost var closedBase := closedLoaders;
      ghost var sent: seq<Byte> := [];
      ghost var closed: seq<ClassLoader> := [];
      while exit.None?
        invariant Valid()
        invariant remote.outgoing == base + sent
        invariant closedLoaders == closedBase + closed
        invariant exit.None? ==> !remote.socketClosed
        invariant exit.None? ==>
                    var r := Session(env, previewClassLoader, remote.incoming);
                    spec == SessionResult(r.exit, sent + r.sent, r.loader, closed + r.closed)
        invariant exit.Some? ==> spec == SessionResult(exit.value, sent, previewClassLoader, closed)
        decreases if exit.None? then |remote.incoming| + 1 else 0
      {
        var stop, stepSent, stepClosed := ServeStep();
        ghost var r := Session(env, previewClassLoader, remote.incoming);
        ConcatAssoc(base, sent, stepSent);
        ConcatAssoc(closedBase, closed, stepClosed);
        ConcatAssoc(sent, stepSent, r.sent);
        ConcatAssoc(closed, stepClosed, r.closed);
        sent := sent + stepSent;
        closed := closed + stepClosed;
        exit := stop;
      }
      return exit.value;
    }
  }
}
