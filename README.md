# Preview RPC, modelled in Dafny

The Compose desktop preview runs a worker JVM (`PreviewHost`) and an IDE-side
manager (`PreviewManager`), connected by a socket. This project models the
protocol core of `gradle-plugins/preview-rpc/src/main/kotlin/org/jetbrains/compose/desktop/ui/tooling/preview/rpc`:

- the command codec (`Cmd`, `CmdType`, `asString`, `fromString`, the
  `typeByName` lookup and the `nextOrNull` iterator helper);
- `RemoteConnectionImpl`: length-prefixed frames written and read in chunks
  of at most 8192 bytes, a 1024-byte bound for commands, a 100 MiB bound for
  data, `-1` as the end-of-stream length, an idempotent `close`;
- `PreviewManager`: the pending slot, the in-flight slot, the connection slot,
  the process and the connection counter, one method per `@Synchronized` step;
- `PreviewHost`: ATTACH first, then the command loop with its class loader state.

| file | module | models |
|---|---|---|
| base.dfy | `Base` | `null` as `Option`, bytes, the JVM `Int` range |
| utils.dfy | `Utils` | `Iterator.nextOrNull`, on the sequence the iterator still holds |
| cmd.dfy | `Codec` | the command vocabulary, the space-joined line and its parser |
| utf8.dfy | `Utf8` | `toByteArray(UTF_8)` and `toString(UTF_8)` |
| decimal.dfy | `Decimal` | `Int.toString()` and `String.toInt()` |
| framing.dfy | `Framing` | what one `writeData` emits and one `readData` consumes, as functions |
| connection.dfy | `Transport` | `RemoteConnectionImpl` as a class over the bytes still to read and the bytes written |
| host.dfy | `Host` | the worker's dispatch as functions, and `PreviewHost` as a class whose loop is proved against them |
| manager.dfy | `Manager` | `PreviewManager` as a class, with its dispatch and its replies as functions |
| protocol.dfy | `Protocol` | the two sides together: one request, end to end |

The socket of a connection is two byte sequences: `incoming`, what the peer
has sent and this end has not read yet (the peer's side ends after it), and
`outgoing`, what this end has written. The stateful operations are methods
whose `ensures` tie the new state to a specification function of the old
one. `RemoteConnection.ReadData` equals `Framing.ReadFrame`,
`PreviewHost.ServeLoop` equals `Host.Session`, `PreviewManager.SendRequest`
equals `Manager.Transmit` and `PreviewManager.ReceiveResponse` equals
`Manager.Respond`. The properties are lemmas about those functions.

The callbacks are results here. `onResult` of `receiveCommand` and
`receiveData` is the receipt the method returns. `onClose` is counted in
`closeNotifications`, and in the manager it is the assignment of `null` to the
connection slot. `FrameRequest.onResult` is a callback number, and calling it is
the `Rendered` response. Class loading and the reflective `render` call are
`Host.Env`: a "does this loader resolve the render entry point" predicate and
an uninterpreted render function. Whether the worker process is alive, the
server socket's port and the bytes a new socket delivers are parameters.

The in-flight slot of the manager is emptied only by the data of a FRAME
(`Manager.FrameWithoutData`, `PreviewManager.ReceiveResponse`).
`acceptConnection` does not touch it, so a worker that dies with a request in
flight leaves that slot full, and `sendRequest` sends nothing on the next
connection.

Where the description of the protocol and the code differ, the model follows
the code in these three cases:

- A length prefix below `-1` does not close the connection. `ByteArray(size)`
  throws, which is the fault `NegativeSize`.
- A zero length is an empty payload, delivered like any other.
- The size checks are `assert`s, which run only with `-ea`. They are
  modelled as enabled. A failed check is the unchecked fault `TooBig`, thrown
  before any byte is written, even on a closed socket.

The read of a payload that the stream cuts short is the one place where the
model does not follow the code: the connection reads it with the corrected
loop, and the code's own loop is modelled beside it (see "## Findings").

## Model

| member | source | states |
|---|---|---|
| Utils.NextOrNull | gradle-plugins/preview-rpc/src/main/kotlin/org/jetbrains/compose/desktop/ui/tooling/preview/rpc/utils.kt:13-14 | `null` exactly when the iterator is exhausted, and then nothing is consumed; otherwise the next element, and the iterator advances by exactly one |
| Codec.TypeByName | gradle-plugins/preview-rpc/src/main/kotlin/org/jetbrains/compose/desktop/ui/tooling/preview/rpc/Cmd.kt:22-23 | a type is found exactly when the word is one of the four names, compared case-sensitively, and the type found has that name |
| Codec.Split | gradle-plugins/preview-rpc/src/main/kotlin/org/jetbrains/compose/desktop/ui/tooling/preview/rpc/Cmd.kt:26 | a split is never empty, and no piece holds the separator |
| Codec.FromString | gradle-plugins/preview-rpc/src/main/kotlin/org/jetbrains/compose/desktop/ui/tooling/preview/rpc/Cmd.kt:25-34 | the loop that moves the remaining words into the argument list returns exactly what `Parse` specifies |
| Codec.NameHasNoSpace | gradle-plugins/preview-rpc/src/main/kotlin/org/jetbrains/compose/desktop/ui/tooling/preview/rpc/Cmd.kt:8-13 | no command name contains a space |
| Codec.SplitWord | gradle-plugins/preview-rpc/src/main/kotlin/org/jetbrains/compose/desktop/ui/tooling/preview/rpc/Cmd.kt:26 | a word without the separator splits into itself alone |
| Codec.SplitPrefix | gradle-plugins/preview-rpc/src/main/kotlin/org/jetbrains/compose/desktop/ui/tooling/preview/rpc/Cmd.kt:26 | a separator-free word, then the separator: the split starts with that word, followed by the split of the rest |
| Codec.SplitJoin | gradle-plugins/preview-rpc/src/main/kotlin/org/jetbrains/compose/desktop/ui/tooling/preview/rpc/Cmd.kt:18-26 | splitting the join of separator-free words gives back the words, in order |
| Codec.JoinSplit | gradle-plugins/preview-rpc/src/main/kotlin/org/jetbrains/compose/desktop/ui/tooling/preview/rpc/Cmd.kt:18-26 | joining the pieces of a split gives back the string |
| Codec.SplitCount | gradle-plugins/preview-rpc/src/main/kotlin/org/jetbrains/compose/desktop/ui/tooling/preview/rpc/Cmd.kt:26 | a split has one more piece than the string has separators |
| Codec.JoinCount | gradle-plugins/preview-rpc/src/main/kotlin/org/jetbrains/compose/desktop/ui/tooling/preview/rpc/Cmd.kt:18-19 | a joined line holds the separators between its words and every separator inside a word |
| Codec.AsStringNoArgs | gradle-plugins/preview-rpc/src/main/kotlin/org/jetbrains/compose/desktop/ui/tooling/preview/rpc/Cmd.kt:18-19 | a command without arguments is written as its type name alone |
| Codec.AsStringAppend | gradle-plugins/preview-rpc/src/main/kotlin/org/jetbrains/compose/desktop/ui/tooling/preview/rpc/Cmd.kt:18-19 | one more argument adds a space and the argument to the line, with no quoting |
| Codec.JoinSnoc | gradle-plugins/preview-rpc/src/main/kotlin/org/jetbrains/compose/desktop/ui/tooling/preview/rpc/Cmd.kt:18-19 | joining one more word appends the separator and the word |
| Codec.AsString | gradle-plugins/preview-rpc/src/main/kotlin/org/jetbrains/compose/desktop/ui/tooling/preview/rpc/Cmd.kt:18-19 | the line starts with the type name, written exactly as the enum constant is named |
| Codec.Parse | gradle-plugins/preview-rpc/src/main/kotlin/org/jetbrains/compose/desktop/ui/tooling/preview/rpc/Cmd.kt:25-34 | `fromString` is `null` exactly when the first space-separated token is none of the four names; otherwise the command has the type that token names and the remaining tokens, verbatim, in order and empty ones included, as its arguments |
| Codec.ParseEmpty | gradle-plugins/preview-rpc/src/main/kotlin/org/jetbrains/compose/desktop/ui/tooling/preview/rpc/Cmd.kt:26-28 | the empty line parses to `null`: its one empty token names no type |
| Codec.RoundTrip | gradle-plugins/preview-rpc/src/main/kotlin/org/jetbrains/compose/desktop/ui/tooling/preview/rpc/Cmd.kt:18-34 | when no argument holds a space, parsing the line of a command gives back the same type and the same arguments |
| Codec.RoundTripNoArgs | gradle-plugins/preview-rpc/src/main/kotlin/org/jetbrains/compose/desktop/ui/tooling/preview/rpc/Cmd.kt:18-34 | a type name alone parses to that type with an empty argument list |
| Codec.LossyArgs | gradle-plugins/preview-rpc/src/main/kotlin/org/jetbrains/compose/desktop/ui/tooling/preview/rpc/Cmd.kt:18-34 | when an argument holds a space, the line parses to the same type with strictly more arguments than were written |
| Utf8.EncodeChar | gradle-plugins/preview-rpc/src/main/kotlin/org/jetbrains/compose/desktop/ui/tooling/preview/rpc/RemoteConnection.kt:42 | each character takes one to four bytes |
| Utf8.DecodeOneEncodeChar | gradle-plugins/preview-rpc/src/main/kotlin/org/jetbrains/compose/desktop/ui/tooling/preview/rpc/RemoteConnection.kt:42-55 | the bytes of one character, followed by anything, decode to that character and consume exactly its bytes |
| Utf8.DecodeEncode | gradle-plugins/preview-rpc/src/main/kotlin/org/jetbrains/compose/desktop/ui/tooling/preview/rpc/RemoteConnection.kt:42-55 | decoding the UTF-8 bytes of any string gives the string back |
| Utf8.EncodeAppend | gradle-plugins/preview-rpc/src/main/kotlin/org/jetbrains/compose/desktop/ui/tooling/preview/rpc/RemoteConnection.kt:42 | the bytes of a concatenation are the concatenation of the bytes |
| Utf8.EncodeLength | gradle-plugins/preview-rpc/src/main/kotlin/org/jetbrains/compose/desktop/ui/tooling/preview/rpc/RemoteConnection.kt:42 | `toByteArray()` of a string of n characters gives between n and 4n bytes |
| Utf8.Decode | gradle-plugins/preview-rpc/src/main/kotlin/org/jetbrains/compose/desktop/ui/tooling/preview/rpc/RemoteConnection.kt:55 | `toString(Charsets.UTF_8)` gives at most one character per byte |
| Decimal.ToInt | gradle-plugins/preview-rpc/src/main/kotlin/org/jetbrains/compose/desktop/ui/tooling/preview/rpc/PreviewHost.kt:61 | every number `toInt` accepts lies in the `Int` range |
| Decimal.NatToStringDigits | gradle-plugins/preview-rpc/src/main/kotlin/org/jetbrains/compose/desktop/ui/tooling/preview/rpc/PreviewManager.kt:122 | the decimal text of a number is a non-empty run of digits whose value is the number |
| Decimal.IntRoundTrip | gradle-plugins/preview-rpc/src/main/kotlin/org/jetbrains/compose/desktop/ui/tooling/preview/rpc/PreviewManager.kt:122 | `toInt` undoes `toString` on every `Int`, negative ones included |
| Decimal.IntToStringHasNoSpace | gradle-plugins/preview-rpc/src/main/kotlin/org/jetbrains/compose/desktop/ui/tooling/preview/rpc/PreviewManager.kt:122 | the text of a number holds no space, so it travels as one argument |
| Decimal.NatToStringLength | gradle-plugins/preview-rpc/src/main/kotlin/org/jetbrains/compose/desktop/ui/tooling/preview/rpc/PreviewManager.kt:122 | a number below 10^k takes at most k + 1 digits |
| Decimal.IntToStringLength | gradle-plugins/preview-rpc/src/main/kotlin/org/jetbrains/compose/desktop/ui/tooling/preview/rpc/PreviewManager.kt:122 | the text of an `Int` is at most twelve characters long |
| Decimal.IntToString | gradle-plugins/preview-rpc/src/main/kotlin/org/jetbrains/compose/desktop/ui/tooling/preview/rpc/PreviewManager.kt:122 | the text of a number is never empty, starts with `-` exactly when the number is negative, and is otherwise made of digits |
| Framing.IntBytes | gradle-plugins/preview-rpc/src/main/kotlin/org/jetbrains/compose/desktop/ui/tooling/preview/rpc/RemoteConnection.kt:84 | `writeInt` emits four bytes |
| Framing.BytesInt | gradle-plugins/preview-rpc/src/main/kotlin/org/jetbrains/compose/desktop/ui/tooling/preview/rpc/RemoteConnection.kt:100 | `readInt` of any four bytes is an `Int` |
| Framing.IntBytesRoundTrip | gradle-plugins/preview-rpc/src/main/kotlin/org/jetbrains/compose/desktop/ui/tooling/preview/rpc/RemoteConnection.kt:84-100 | `readInt` gives back what `writeInt` wrote, for every `Int` |
| Framing.BytesIntRoundTrip | gradle-plugins/preview-rpc/src/main/kotlin/org/jetbrains/compose/desktop/ui/tooling/preview/rpc/RemoteConnection.kt:84-100 | any four bytes are the `writeInt` of the value `readInt` reads from them |
| Framing.ReadFrame | gradle-plugins/preview-rpc/src/main/kotlin/org/jetbrains/compose/desktop/ui/tooling/preview/rpc/RemoteConnection.kt:98-118 | a payload is below the bound, and the input is exactly its length, the payload and the rest; `null` exactly when the stream ends inside the length, the length is `-1`, or the stream ends inside an in-bound payload |
| Framing.ReadFrameAsWritten | gradle-plugins/preview-rpc/src/main/kotlin/org/jetbrains/compose/desktop/ui/tooling/preview/rpc/RemoteConnection.kt:98-118 | as the code has it, `null` only when the stream ends inside the length or the length is `-1` |
| Framing.FrameRoundTrip | gradle-plugins/preview-rpc/src/main/kotlin/org/jetbrains/compose/desktop/ui/tooling/preview/rpc/RemoteConnection.kt:80-118 | reading what `writeData` wrote gives back the same bytes and leaves what follows unread |
| Framing.EndOfStreamIsNull | gradle-plugins/preview-rpc/src/main/kotlin/org/jetbrains/compose/desktop/ui/tooling/preview/rpc/RemoteConnection.kt:100-102 | a `-1` length reads as `null` and consumes only the four bytes of the length |
| Framing.OversizedIsFatal | gradle-plugins/preview-rpc/src/main/kotlin/org/jetbrains/compose/desktop/ui/tooling/preview/rpc/RemoteConnection.kt:104 | a length at or above the bound is the `TooBig` fault on read, with that size |
| Framing.NegativeSizeIsFatal | gradle-plugins/preview-rpc/src/main/kotlin/org/jetbrains/compose/desktop/ui/tooling/preview/rpc/RemoteConnection.kt:104-106 | a length below `-1` is the `NegativeSize` fault that `ByteArray(size)` throws, after the four bytes of the length |
| Framing.AsWrittenAgreesUntruncated | gradle-plugins/preview-rpc/src/main/kotlin/org/jetbrains/compose/desktop/ui/tooling/preview/rpc/RemoteConnection.kt:109-113 | the code's read and the corrected read agree on every input whose payload is complete |
| Framing.TruncatedFrameFaults | gradle-plugins/preview-rpc/src/main/kotlin/org/jetbrains/compose/desktop/ui/tooling/preview/rpc/RemoteConnection.kt:109-113 | eight bytes announced and three delivered: the code's read faults at index -1, the corrected read is `null` |
| Transport.CommandReceipt | gradle-plugins/preview-rpc/src/main/kotlin/org/jetbrains/compose/desktop/ui/tooling/preview/rpc/RemoteConnection.kt:53-67 | a frame is delivered exactly when its text parses, and then as the parsed command; `null` becomes a close |
| Transport.DataReceiptOf | gradle-plugins/preview-rpc/src/main/kotlin/org/jetbrains/compose/desktop/ui/tooling/preview/rpc/RemoteConnection.kt:69-78 | a data frame is delivered exactly when one was read, and byte for byte; `null` becomes a close and nothing else does |
| Transport.CommandBytesGrow | gradle-plugins/preview-rpc/src/main/kotlin/org/jetbrains/compose/desktop/ui/tooling/preview/rpc/Cmd.kt:18-19 | more arguments never make a command's UTF-8 line shorter |
| Transport.NoArgsSendable | gradle-plugins/preview-rpc/src/main/kotlin/org/jetbrains/compose/desktop/ui/tooling/preview/rpc/RemoteConnection.kt:39-45 | a command without arguments always fits the command bound |
| Transport.CommandFrameRoundTrip | gradle-plugins/preview-rpc/src/main/kotlin/org/jetbrains/compose/desktop/ui/tooling/preview/rpc/RemoteConnection.kt:39-67 | a command with space-free arguments and a text under the bound reaches the other side's `onResult` unchanged, and nothing after it is consumed |
| Transport.DataFrameRoundTrip | gradle-plugins/preview-rpc/src/main/kotlin/org/jetbrains/compose/desktop/ui/tooling/preview/rpc/RemoteConnection.kt:47-78 | data under the bound reaches the other side's `onResult` byte for byte |
| Transport.RemoteConnection.constructor | gradle-plugins/preview-rpc/src/main/kotlin/org/jetbrains/compose/desktop/ui/tooling/preview/rpc/RemoteConnection.kt:19-26 | a new connection is open, not closing, has nothing written, and will read the peer's bytes |
| Transport.RemoteConnection.Close | gradle-plugins/preview-rpc/src/main/kotlin/org/jetbrains/compose/desktop/ui/tooling/preview/rpc/RemoteConnection.kt:28-37 | the first call closes the socket and runs `onClose` once; later calls change nothing |
| Transport.RemoteConnection.WriteData | gradle-plugins/preview-rpc/src/main/kotlin/org/jetbrains/compose/desktop/ui/tooling/preview/rpc/RemoteConnection.kt:80-96 | an oversized payload throws before anything is written; a closed socket gives `false`; otherwise the four-byte length and then every byte once, in order, in chunks of at most `min(8192, size)`, with no chunk for an empty payload |
| Transport.RemoteConnection.Read | gradle-plugins/preview-rpc/src/main/kotlin/org/jetbrains/compose/desktop/ui/tooling/preview/rpc/RemoteConnection.kt:111 | `read` gives -1 exactly at the end of the stream, and otherwise copies into the array at `off` the next bytes of the stream, any count from one to `len` (bounded by what the peer delivers at once), and nothing else |
| Transport.RemoteConnection.ReadHeader | gradle-plugins/preview-rpc/src/main/kotlin/org/jetbrains/compose/desktop/ui/tooling/preview/rpc/RemoteConnection.kt:98-107 | the length, the `-1` case, the bound check and the negative size, as `ReadFrame` says |
| Transport.RemoteConnection.ReadPayload | gradle-plugins/preview-rpc/src/main/kotlin/org/jetbrains/compose/desktop/ui/tooling/preview/rpc/RemoteConnection.kt:106-114 | the loop fills the array with exactly the next `size` bytes, in chunks of at most `min(size, 8192)`, or reports the end of the stream |
| Transport.RemoteConnection.ReadData | gradle-plugins/preview-rpc/src/main/kotlin/org/jetbrains/compose/desktop/ui/tooling/preview/rpc/RemoteConnection.kt:98-118 | the read is exactly `Framing.ReadFrame` over the unread bytes; a closed socket gives `null` |
| Transport.RemoteConnection.ReadDataAsWritten | gradle-plugins/preview-rpc/src/main/kotlin/org/jetbrains/compose/desktop/ui/tooling/preview/rpc/RemoteConnection.kt:98-118 | the loop as written is exactly `Framing.ReadFrameAsWritten` |
| Transport.RemoteConnection.SendCommand | gradle-plugins/preview-rpc/src/main/kotlin/org/jetbrains/compose/desktop/ui/tooling/preview/rpc/RemoteConnection.kt:39-45 | the command's UTF-8 line is written as one frame under the command bound |
| Transport.RemoteConnection.SendData | gradle-plugins/preview-rpc/src/main/kotlin/org/jetbrains/compose/desktop/ui/tooling/preview/rpc/RemoteConnection.kt:47-51 | the bytes are written as one frame under the data bound |
| Transport.RemoteConnection.ReceiveCommand | gradle-plugins/preview-rpc/src/main/kotlin/org/jetbrains/compose/desktop/ui/tooling/preview/rpc/RemoteConnection.kt:53-67 | one frame is read; a parsed line is delivered, an unparsed one only logged with the connection left open, and `null` closes the connection |
| Transport.RemoteConnection.ReceiveData | gradle-plugins/preview-rpc/src/main/kotlin/org/jetbrains/compose/desktop/ui/tooling/preview/rpc/RemoteConnection.kt:69-78 | one frame is read and delivered, or `null` closes the connection |
| Host.Dispatch | gradle-plugins/preview-rpc/src/main/kotlin/org/jetbrains/compose/desktop/ui/tooling/preview/rpc/PreviewHost.kt:36-70 | a command that lets the loop go on never makes the unread input longer |
| Host.Step | gradle-plugins/preview-rpc/src/main/kotlin/org/jetbrains/compose/desktop/ui/tooling/preview/rpc/PreviewHost.kt:35-71 | a pass that lets the loop go on consumes at least one byte |
| Host.StepLoader | gradle-plugins/preview-rpc/src/main/kotlin/org/jetbrains/compose/desktop/ui/tooling/preview/rpc/PreviewHost.kt:35-71 | a pass never drops an installed loader, and a pass that writes anything ran with a loader and kept it |
| Host.SessionKeepsLoader | gradle-plugins/preview-rpc/src/main/kotlin/org/jetbrains/compose/desktop/ui/tooling/preview/rpc/PreviewHost.kt:34-72 | over the whole loop: once a classpath is installed there is always a loader, and a session that wrote anything ends with one |
| Host.AttachBytes | gradle-plugins/preview-rpc/src/main/kotlin/org/jetbrains/compose/desktop/ui/tooling/preview/rpc/PreviewHost.kt:33 | the first frame the worker sends carries the six bytes of `ATTACH` |
| Host.StepDelivers | gradle-plugins/preview-rpc/src/main/kotlin/org/jetbrains/compose/desktop/ui/tooling/preview/rpc/PreviewHost.kt:35-36 | a sendable command on the stream is dispatched as it was sent |
| Host.EndOfInputCloses | gradle-plugins/preview-rpc/src/main/kotlin/org/jetbrains/compose/desktop/ui/tooling/preview/rpc/PreviewHost.kt:19-35 | when the host's side ends, the loop ends through `onClose`, having sent nothing |
| Host.UnknownIsSkipped | gradle-plugins/preview-rpc/src/main/kotlin/org/jetbrains/compose/desktop/ui/tooling/preview/rpc/RemoteConnection.kt:56-63 | a line that names no command changes nothing: the session goes on as if it were not there |
| Host.FrameRequestBeforeClasspath | gradle-plugins/preview-rpc/src/main/kotlin/org/jetbrains/compose/desktop/ui/tooling/preview/rpc/PreviewHost.kt:46-48 | a FRAME_REQUEST before any classpath ends the worker with that error, having sent nothing |
| Host.UnexpectedCommand | gradle-plugins/preview-rpc/src/main/kotlin/org/jetbrains/compose/desktop/ui/tooling/preview/rpc/PreviewHost.kt:67-69 | ATTACH or FRAME sent to the worker ends it with "Unexpected command", keeping the loader |
| Host.ClasspathDispatch | gradle-plugins/preview-rpc/src/main/kotlin/org/jetbrains/compose/desktop/ui/tooling/preview/rpc/PreviewHost.kt:37-44 | PREVIEW_CLASSPATH closes the current loader and installs one over the next data frame's text |
| Host.ClasspathStep | gradle-plugins/preview-rpc/src/main/kotlin/org/jetbrains/compose/desktop/ui/tooling/preview/rpc/PreviewHost.kt:37-44 | one pass over PREVIEW_CLASSPATH and the classpath's bytes sends nothing, closes the old loader, installs the loader over the classpath's pieces and consumes exactly those two frames |
| Host.ClasspathInstallsLoader | gradle-plugins/preview-rpc/src/main/kotlin/org/jetbrains/compose/desktop/ui/tooling/preview/rpc/PreviewHost.kt:37-44 | PREVIEW_CLASSPATH followed by a classpath's bytes: the old loader is closed, the loader over the classpath's pieces is installed, and the session goes on from there |
| Host.LoaderForEntries | gradle-plugins/preview-rpc/src/main/kotlin/org/jetbrains/compose/desktop/ui/tooling/preview/rpc/PreviewHost.kt:41-43 | the loader's entries joined with the path separator give the decoded payload, and there is one more entry than the payload has separators |
| Host.LoaderEntries | gradle-plugins/preview-rpc/src/main/kotlin/org/jetbrains/compose/desktop/ui/tooling/preview/rpc/PreviewHost.kt:40-43 | for a payload that is the UTF-8 of a classpath, the same holds of the classpath itself |
| Host.ReplyShorter | gradle-plugins/preview-rpc/src/main/kotlin/org/jetbrains/compose/desktop/ui/tooling/preview/rpc/PreviewHost.kt:63-64 | the FRAME reply is shorter than the FRAME_REQUEST it answers, so it fits wherever the request fitted |
| Host.FrameRequestEchoes | gradle-plugins/preview-rpc/src/main/kotlin/org/jetbrains/compose/desktop/ui/tooling/preview/rpc/PreviewHost.kt:46-66 | a FRAME_REQUEST whose width and height are any texts `toInt` accepts renders the named preview at the parsed size and replies with FRAME carrying those two texts exactly as received, followed by exactly one data frame of pixels; any arguments after the third are ignored |
| Host.FrameRequestRenders | gradle-plugins/preview-rpc/src/main/kotlin/org/jetbrains/compose/desktop/ui/tooling/preview/rpc/PreviewHost.kt:46-66 | the same for the request the manager writes, whose width and height are `toString` of two `Int`s |
| Host.OneFrameSession | gradle-plugins/preview-rpc/src/main/kotlin/org/jetbrains/compose/desktop/ui/tooling/preview/rpc/PreviewHost.kt:30-78 | the classpath, one request, then the end of the stream: the worker sends one reply with its pixels, keeps the loader and ends through `onClose` |
| Host.PreviewHost.constructor | gradle-plugins/preview-rpc/src/main/kotlin/org/jetbrains/compose/desktop/ui/tooling/preview/rpc/PreviewHost.kt:26-28 | a new worker has no loader and has not ended |
| Host.PreviewHost.ServeOne | gradle-plugins/preview-rpc/src/main/kotlin/org/jetbrains/compose/desktop/ui/tooling/preview/rpc/PreviewHost.kt:35-71 | one pass of the loop does exactly what `Step` specifies to the stream, the loader and the closed loaders |
| Host.PreviewHost.ServeStep | gradle-plugins/preview-rpc/src/main/kotlin/org/jetbrains/compose/desktop/ui/tooling/preview/rpc/PreviewHost.kt:34-72 | one pass leaves the session's end, or the session that remains, as `Session` specifies |
| Host.PreviewHost.Execute | gradle-plugins/preview-rpc/src/main/kotlin/org/jetbrains/compose/desktop/ui/tooling/preview/rpc/PreviewHost.kt:36-70 | the `when` over the command type does exactly what `Dispatch` specifies |
| Host.PreviewHost.ExecuteFrameRequest | gradle-plugins/preview-rpc/src/main/kotlin/org/jetbrains/compose/desktop/ui/tooling/preview/rpc/PreviewHost.kt:46-66 | the FRAME_REQUEST branch does exactly what `Dispatch` specifies for it, error cases included |
| Host.PreviewHost.SendFrame | gradle-plugins/preview-rpc/src/main/kotlin/org/jetbrains/compose/desktop/ui/tooling/preview/rpc/PreviewHost.kt:63-65 | the FRAME reply and then the pixels are written, each as one frame, and the first size check that fails ends the branch with `TooBig`, leaving the reply on the wire if it was the pixels that failed |
| Host.PreviewHost.Serve | gradle-plugins/preview-rpc/src/main/kotlin/org/jetbrains/compose/desktop/ui/tooling/preview/rpc/PreviewHost.kt:31-78 | ATTACH is written before anything is read, then the whole session runs as `Session` specifies, and the loop does not resume after it ends |
| Host.PreviewHost.ServeLoop | gradle-plugins/preview-rpc/src/main/kotlin/org/jetbrains/compose/desktop/ui/tooling/preview/rpc/PreviewHost.kt:34-76 | the loop runs until it ends and leaves exactly the output, loader and closed loaders of `Session` |
| Manager.LaunchCommand | gradle-plugins/preview-rpc/src/main/kotlin/org/jetbrains/compose/desktop/ui/tooling/preview/rpc/PreviewManager.kt:98-103 | the worker's command line is `java -cp serverClasspath PreviewHostKt port`, and the port argument reads back as the port |
| Manager.Prepend | gradle-plugins/preview-rpc/src/main/kotlin/org/jetbrains/compose/desktop/ui/tooling/preview/rpc/PreviewManager.kt:119-123 | a send in front of others goes through exactly when its bytes fit its bound and the later sends go through |
| Manager.Transmit | gradle-plugins/preview-rpc/src/main/kotlin/org/jetbrains/compose/desktop/ui/tooling/preview/rpc/PreviewManager.kt:119-123 | a run of sends goes through exactly when every message fits its bound; on a closed socket nothing reaches the wire |
| Manager.TransmitThree | gradle-plugins/preview-rpc/src/main/kotlin/org/jetbrains/compose/desktop/ui/tooling/preview/rpc/PreviewManager.kt:119-123 | a run of three sends is the first, then the second, then the third |
| Manager.Deliver | gradle-plugins/preview-rpc/src/main/kotlin/org/jetbrains/compose/desktop/ui/tooling/preview/rpc/PreviewManager.kt:133-143 | the in-flight slot is only ever emptied; pixels go to the request in flight, and only when the sizes match; data with nothing in flight is dropped |
| Manager.Respond | gradle-plugins/preview-rpc/src/main/kotlin/org/jetbrains/compose/desktop/ui/tooling/preview/rpc/PreviewManager.kt:128-147 | only the in-flight request's callback can receive pixels, and an ignored command leaves the slot alone |
| Manager.AcceptOf | gradle-plugins/preview-rpc/src/main/kotlin/org/jetbrains/compose/desktop/ui/tooling/preview/rpc/PreviewManager.kt:60-76 | a new connection is adopted exactly when its first command is ATTACH |
| Manager.FrameCommandSendable | gradle-plugins/preview-rpc/src/main/kotlin/org/jetbrains/compose/desktop/ui/tooling/preview/rpc/PreviewHost.kt:63-64 | a FRAME of any two `Int`s fits the command bound and its arguments hold no space |
| Manager.RespondToFrame | gradle-plugins/preview-rpc/src/main/kotlin/org/jetbrains/compose/desktop/ui/tooling/preview/rpc/PreviewManager.kt:130-143 | a FRAME and its data: matching sizes call the in-flight callback, a mismatch is "Unexpected frame", nothing in flight drops the data; the slot ends empty and exactly the two frames are consumed |
| Manager.RespondIgnores | gradle-plugins/preview-rpc/src/main/kotlin/org/jetbrains/compose/desktop/ui/tooling/preview/rpc/PreviewManager.kt:129-130 | every sendable command other than FRAME is ignored and leaves the slot alone |
| Manager.FrameWithoutData | gradle-plugins/preview-rpc/src/main/kotlin/org/jetbrains/compose/desktop/ui/tooling/preview/rpc/PreviewManager.kt:133-143 | a FRAME whose data never arrives closes the connection and keeps the request in flight |
| Manager.RequestDispatch | gradle-plugins/preview-rpc/src/main/kotlin/org/jetbrains/compose/desktop/ui/tooling/preview/rpc/PreviewManager.kt:119-123 | a dispatch goes through exactly when the classpath bytes and the FRAME_REQUEST fit their bounds, and then it is the PREVIEW_CLASSPATH frame, the classpath's UTF-8 bytes and the FRAME_REQUEST frame, in that order |
| Manager.OversizedClasspath | gradle-plugins/preview-rpc/src/main/kotlin/org/jetbrains/compose/desktop/ui/tooling/preview/rpc/PreviewManager.kt:119-120 | an oversized classpath leaves PREVIEW_CLASSPATH on the wire without its data, and FRAME_REQUEST is never sent |
| Manager.RequestCommandWords | gradle-plugins/preview-rpc/src/main/kotlin/org/jetbrains/compose/desktop/ui/tooling/preview/rpc/PreviewManager.kt:121-123 | FRAME_REQUEST carries the preview name as given, then the width and height each as one space-free word that `toInt` reads back as that number |
| Manager.PreviewManager.constructor | gradle-plugins/preview-rpc/src/main/kotlin/org/jetbrains/compose/desktop/ui/tooling/preview/rpc/PreviewManager.kt:14-40 | a new manager has no connection, no process, no request in either slot and a zero counter |
| Manager.PreviewManager.RequestPreview | gradle-plugins/preview-rpc/src/main/kotlin/org/jetbrains/compose/desktop/ui/tooling/preview/rpc/PreviewManager.kt:87-110 | a worker is started exactly when there is no connection and no live process; the new request always replaces the pending one |
| Manager.PreviewManager.SendRequest | gradle-plugins/preview-rpc/src/main/kotlin/org/jetbrains/compose/desktop/ui/tooling/preview/rpc/PreviewManager.kt:112-125 | only with a request pending and none in flight does the pending one move to the in-flight slot and its three messages go out; otherwise neither slot changes and nothing is sent, so an in-flight request is never overwritten |
| Manager.PreviewManager.SendMessages | gradle-plugins/preview-rpc/src/main/kotlin/org/jetbrains/compose/desktop/ui/tooling/preview/rpc/PreviewManager.kt:119-123 | the three sends put exactly what `Transmit` specifies on the connection |
| Manager.PreviewManager.ReceiveResponse | gradle-plugins/preview-rpc/src/main/kotlin/org/jetbrains/compose/desktop/ui/tooling/preview/rpc/PreviewManager.kt:127-147 | one response has exactly the effect `Respond` specifies on the slot and the stream; a close empties the connection slot |
| Manager.PreviewManager.ReceiveFrame | gradle-plugins/preview-rpc/src/main/kotlin/org/jetbrains/compose/desktop/ui/tooling/preview/rpc/PreviewManager.kt:133-144 | the data of a FRAME has exactly the effect `Deliver` specifies |
| Manager.PreviewManager.AcceptConnection | gradle-plugins/preview-rpc/src/main/kotlin/org/jetbrains/compose/desktop/ui/tooling/preview/rpc/PreviewManager.kt:49-77 | the old connection is closed, the counter goes up by one on every accept, and the new connection is adopted exactly when its first command is ATTACH; it is closed when its first command is another type or the stream ends before or inside the length, and left open on an unknown line or a fault; a first frame the stream cuts short inside its payload is closed in the model only (see Left out) |
| Manager.PreviewManager.Close | gradle-plugins/preview-rpc/src/main/kotlin/org/jetbrains/compose/desktop/ui/tooling/preview/rpc/PreviewManager.kt:79-85 | the manager stops, the connection closes and the process, if any, is destroyed |
| Protocol.AttachAdopts | gradle-plugins/preview-rpc/src/main/kotlin/org/jetbrains/compose/desktop/ui/tooling/preview/rpc/PreviewManager.kt:60-62 | the worker's first message makes the manager adopt its connection |
| Protocol.DispatchReachesHost | gradle-plugins/preview-rpc/src/main/kotlin/org/jetbrains/compose/desktop/ui/tooling/preview/rpc/PreviewManager.kt:119-123 | the manager's dispatch is the input on which the worker installs the classpath and serves the request |
| Protocol.ReplyAnswers | gradle-plugins/preview-rpc/src/main/kotlin/org/jetbrains/compose/desktop/ui/tooling/preview/rpc/PreviewManager.kt:127-143 | everything the worker writes, ATTACH first, makes the manager adopt the connection and then hand the pixels to the request's callback |
| Protocol.RequestAnswered | gradle-plugins/preview-rpc/src/main/kotlin/org/jetbrains/compose/desktop/ui/tooling/preview/rpc/PreviewManager.kt:112-147 | one request end to end: the dispatch goes through, the worker renders once and ends when the stream ends, and its reply reaches the request's callback and empties the in-flight slot |

## Left out

- Threads: the accept loop, the sender and receiver threads, `AtomicBoolean` and `@Synchronized`. Each synchronized method is one atomic step, and the loops that call them are not modelled. On handover only `senderThread` is interrupted (gradle-plugins/preview-rpc/src/main/kotlin/org/jetbrains/compose/desktop/ui/tooling/preview/rpc/PreviewManager.kt:52); the interrupt, and the old receiver thread that goes on over its closed connection, are outside the model.
- Sockets: only a locally closed socket makes a write fail, and a read past the peer's last byte is the end of the stream. Network failures, and the partial frame a peer reset in the middle of a write would leave, are not modelled.
- `ServerSocket`, `accept`, `localhost` and the `IOException` caught by the accept loop. The port and the bytes each new socket delivers are parameters.
- `ProcessBuilder`, `isAlive`, `destroyForcibly` and the output redirection. The launched command lines (`launches`) and the destroyed processes (`destroyed`) are logs.
- `URLClassLoader`, `File.toURI`, `loadClass`, `getMethod`, `invoke` and the `as ByteArray` cast are `Host.Env`. A failing `loadClass` and a failing `getMethod` are one error.
- `main`, `exitProcess` and the `Socket` connection of the worker. The end of the process is the `Exit` value the loop returns.
- The logger and the printed stack traces.
- The vararg `Cmd` constructor. Dafny has no varargs, and `Codec.Cmd(t, [a, b])` stands for both constructors.
- Kotlin strings are UTF-16. Dafny strings are sequences of Unicode scalar values, so unpaired surrogates cannot occur.
- Utf8.Decode: a malformed sequence is replaced one byte at a time. The JDK decoder replaces each maximal malformed subpart, so the number of replacement characters can differ on malformed input.
- Decimal.ToInt: its own contract states only the range; its agreement with `toString` is Decimal.IntRoundTrip. It accepts only the ASCII digits. Kotlin's `toInt` also accepts the other Unicode decimal digits.
- Host.Dispatch: its own contract states only that the input does not grow; what each command does is stated by the lemmas on it and by Host.PreviewHost.Execute.
- Host.Step: its own contract states only progress; its meaning is given by Host.StepDelivers, Host.UnknownIsSkipped, Host.StepLoader and Host.PreviewHost.ServeOne.
- Framing.IntBytes: its own contract states only the width; the encoding is pinned by Framing.IntBytesRoundTrip and Framing.BytesIntRoundTrip.
- Utf8.EncodeChar: its own contract states only the length; the encoding is pinned by Utf8.DecodeOneEncodeChar.
- Transport.RemoteConnection.WriteData: an `IOException` comes only from a socket this end has closed, never from the middle of a write.
- Transport.RemoteConnection.Read: the count it returns is chosen freely between one and `len`, under a per-connection ceiling `readChunk`; every contract above it holds for any such choice. Which count a real socket returns is not modelled.
- Manager.PreviewManager.AcceptConnection: the new socket's bytes are fixed when it is accepted, so the model cannot interleave them with the manager's own sends.
- Manager.PreviewManager.AcceptConnection: reads the first frame with the corrected loop. On a first frame the stream cuts short inside its payload the model returns `Vanished` with the new socket closed; the code's `receiveCommand` throws `IndexOutOfBoundsException`, the new connection is never closed, and the exception passes the accept loop's `catch (e: IOException)` (gradle-plugins/preview-rpc/src/main/kotlin/org/jetbrains/compose/desktop/ui/tooling/preview/rpc/PreviewManager.kt:29-34), so that thread ends and no later worker is accepted. A `TooBig` or `NegativeSize` fault on the first frame escapes the same way: the model returns a fault and leaves the socket open, as the code does, but the end of the accept thread is not modelled because the accept loop is not.
- Transport.RemoteConnection.ReceiveCommand: reads with the corrected loop. On a line the stream cuts short the code throws `IndexOutOfBoundsException` and leaves the connection open, the model reads `null` and closes it. Above it, Host.Session then ends through `OnClose` where the code ends through the `Throwable` handler, and Manager.PreviewManager.ReceiveResponse empties the connection slot where the code's receiver thread dies with the slot still set.
- Transport.RemoteConnection.ReceiveData: reads with the corrected loop, with the same effect on a payload the stream cuts short: the connection is closed instead of left open. The classpath read of Host.Session then ends through `OnClose` instead of `Throwable`, and Manager.PreviewManager.ReceiveFrame empties the connection slot where the code's receiver thread dies with the slot still set.
- Manager.PreviewManager.Valid: does not relate `previewProcess` to `launches`; no contract relies on that link.
- Host.PreviewHost.Serve: starts on an open connection, and the worker's sends never fail because of its own socket.

## Findings

| source | as written | input that shows it | evidently intended | confidence | as-written member | corrected member |
|---|---|---|---|---|---|---|
| gradle-plugins/preview-rpc/src/main/kotlin/org/jetbrains/compose/desktop/ui/tooling/preview/rpc/RemoteConnection.kt:109-113 | `index += bytesRead` adds the `-1` that `read` returns at the end of the stream, so the loop never reads `null` at a stream that ends inside the payload. On a JDK whose socket stream checks the array bounds first (the `NioSocketImpl` of JDK 13 and later) the `read` at a negative offset throws `IndexOutOfBoundsException`, which the `IOException` handler does not catch; this is the outcome modelled. On the older `SocketInputStream` (JDK 8 and 11) the ended stream returns -1 again and `index` keeps falling, so the loop never ends | a frame that announces 8 bytes and delivers 3 before the stream ends (`IntBytes(8) + [1, 2, 3]`) | an end of stream inside the payload reads as `null`, like an end of stream inside the length, and closes the connection | not executed | Transport.RemoteConnection.ReadDataAsWritten, Framing.TruncatedFrameFaults | Transport.RemoteConnection.ReadData, Framing.ReadFrame |
