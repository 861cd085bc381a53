/**
 The two sides together: what the manager sends for a request drives the
 worker to its reply, and the manager reads that reply as the answer to the
 request.
 */
module Protocol {
  import opened Base
  import opened Framing
  import Codec
  import Utf8
  import Transport
  import Host
  import Manager

  /** The worker's first message makes the manager adopt its connection, and nothing past it is consumed. */
  lemma AttachAdopts(rest: seq<Byte>)
    ensures (Transport.NoArgsSendable(Codec.ATTACH);
             var first := ReadFrame(Host.CommandFrame(Codec.Cmd(Codec.ATTACH, [])) + rest, MAX_CMD_SIZE);
             Manager.AcceptOf(Transport.CommandReceipt(first.outcome)) == Manager.Adopted && first.rest == rest)
  {
    Transport.NoArgsSendable(Codec.ATTACH);
    Transport.CommandFrameRoundTrip(Codec.Cmd(Codec.ATTACH, []), rest);
  }

  /**
   One request end to end: the manager's three frames make the worker install
   the classpath and render once; everything the worker writes, ATTACH first,
   makes the manager adopt the connection and then hand the pixels to the
   request's callback, which empties the in-flight slot.
   */
  lemma RequestAnswered(env: Host.Env, r: Manager.FrameRequest, pixels: seq<Byte>)
    requires |Utf8.Encode(r.classpath)| < MAX_BINARY_SIZE
    requires Codec.SEP !in r.previewFqName
    requires |Transport.CommandBytes(Manager.RequestCommand(r))| < MAX_CMD_SIZE
    requires var l := Host.ClassLoader(Codec.Split(r.classpath, env.pathSeparator));
             env.resolve(l) && env.invoke(l, r.previewFqName, r.width, r.height) == Some(pixels)
    requires |pixels| < MAX_BINARY_SIZE
    ensures (Transport.NoArgsSendable(Codec.ATTACH);
             var d := Manager.Transmit(Manager.RequestMessages(r), true);
             var s := Host.Session(env, None, d.sent);
             var first := ReadFrame(Host.CommandFrame(Codec.Cmd(Codec.ATTACH, [])) + s.sent, MAX_CMD_SIZE);
             && d.fault.None?
             && s.exit == Host.OnClose
             && s.loader == Some(Host.ClassLoader(Codec.Split(r.classpath, env.pathSeparator)))
             && Manager.AcceptOf(Transport.CommandReceipt(first.outcome)) == Manager.Adopted
             && Manager.Respond(Some(r), first.rest) == Manager.Reaction(Manager.Rendered(r.onResult, pixels), None, []))
  {
    Transport.NoArgsSendable(Codec.ATTACH);
    var sent := DispatchReachesHost(env, r);
    Host.OneFrameSession(env, r.classpath, r.previewFqName, r.width, r.height, pixels);
    Manager.FrameCommandSendable(r.width, r.height);
    var reply := Frame(Transport.CommandBytes(Manager.FrameCommand(r.width, r.height))) + Frame(pixels);
    assert Host.Session(env, None, sent).sent == reply;
    ReplyAnswers(r, pixels);
  }

  /** The manager's dispatch is the input `OneFrameSession` runs the worker on. */
  lemma DispatchReachesHost(env: Host.Env, r: Manager.FrameRequest) returns (sent: seq<Byte>)
    requires |Utf8.Encode(r.classpath)| < MAX_BINARY_SIZE
    requires |Transport.CommandBytes(Manager.RequestCommand(r))| < MAX_CMD_SIZE
    ensures Manager.Transmit(Manager.RequestMessages(r), true) == Manager.Dispatch(sent, None)
    ensures (Transport.NoArgsSendable(Codec.PREVIEW_CLASSPATH);
             sent == Host.CommandFrame(Codec.Cmd(Codec.PREVIEW_CLASSPATH, [])) + Frame(Utf8.Encode(r.classpath))
                     + Host.CommandFrame(Manager.RequestCommand(r)))
  {
    Manager.RequestDispatch(r);
    sent := Manager.Transmit(Manager.RequestMessages(r), true).sent;
  }

  /** The worker's output, ATTACH first, read by the manager: adopt, then render. */
  lemma ReplyAnswers(r: Manager.FrameRequest, pixels: seq<Byte>)
    requires |pixels| < MAX_BINARY_SIZE
    ensures (Transport.NoArgsSendable(Codec.ATTACH);
             Manager.FrameCommandSendable(r.width, r.height);
             var reply := Frame(Transport.CommandBytes(Manager.FrameCommand(r.width, r.height))) + Frame(pixels);
             var first := ReadFrame(Host.CommandFrame(Codec.Cmd(Codec.ATTACH, [])) + reply, MAX_CMD_SIZE);
             && Manager.AcceptOf(Transport.CommandReceipt(first.outcome)) == Manager.Adopted
             && Manager.Respond(Some(r), first.rest) == Manager.Reaction(Manager.Rendered(r.onResult, pixels), None, []))
  {
    Manager.FrameCommandSendable(r.width, r.height);
    Manager.RespondToFrame(Some(r), r.width, r.height, pixels, []);
    var reply := Frame(Transport.CommandBytes(Manager.FrameCommand(r.width, r.height))) + Frame(pixels);
    assert reply + [] == reply;
    AttachAdopts(reply);
  }
}
