# Usb2Snes client engine, modelled in Dafny

Dotnet2Snes is a .NET client for the Usb2Snes protocol. The client talks over a WebSocket to a
server that fronts an SNES device (an SD2SNES cartridge or an emulator). This project models the
client engine, the class `Usb2Snes` with its `Command` message type:

- the connection life cycle: `Connect`, `Disconnect` and the `CheckConnection` guard;
- each protocol operation: it builds a JSON command, sends it as a text frame and, for queries,
  takes a reply from the response queue (and, for `GetAddress`/`GetFile`, a payload from the
  data queue);
- the receive loop, which sorts incoming frames into those two queues;
- the command's wire form: Json.NET's serialisation with null lists omitted, then UTF-8.

Modules, each a file:

| file | module | what it holds |
|---|---|---|
| wrappers.dfy | `Wrappers` | `Option` (a C# null), `Result` (a thrown exception), `Error` (the exception kinds that escape) |
| utf8.dfy | `Utf8` | bytes, UTF-8 encoding of scalar values, a decoder, and the round trip between them |
| json.dfy | `Json` | Json.NET's default string escaping, string arrays, a decoder for both, and the round trips |
| decimal.dfy | `Decimal` | `Int32.ToString()` for operands, and a reader that recovers the value |
| opcode.dfy | `OpCode` | the `OpCodes` enum, `Command`, `ToJson`, `ToBytes`, and the peer's reading of them |
| connection.dfy | `Connection` | the connection fields (`State`, `_ws`, `_cts`) as pure transitions, and lemmas over runs of events |
| router.dfy | `Router` | the receive loop and `ResponseReceived` as a fold over frames, the loop as written, and a reference routing |
| listing.dfy | `Listing` | the loop in `List` that splits `Results` into file types and file names |
| client.dfy | `Client` | the class `Usb2Snes`, whose methods update its fields in place |

How the environment is represented:

- The socket is an outbox: a sequence of `Message` values, one for each `SendAsync` or
  `CloseOutputAsync` call, in order. `Client.Wire` gives the frame each message puts on the wire.
- `ReceiveLoop` takes the frames the server delivers as a parameter, `inbox`.
- The two `BufferBlock`s are the sequence fields `responses` and `data`.
- The `SemaphoreSlim` is the flag `locked`. It is held during an operation and free between operations; the send and receive helpers require it held, as every caller holds it around them.
- `Deserialize<Response>` is the parameter `parse`. `None` means the deserializer threw.
- The outcome of `ConnectAsync` is the parameter `attempt`: `Accepted` or `Refused`. A
  `ClientWebSocket` whose `ConnectAsync` fails disposes itself, so the `CloseAsync` in the handler
  at lines 75-79 always throws after a refused handshake.
- The cancellation token is the parameter `waitsBeforeCancel`. A request's k-th queue wait
  (counting from 0) gets an item exactly when k < `waitsBeforeCancel` and the queue is non-empty.
  Otherwise the wait ends in `TaskCanceledException`, which the operation turns into its default
  result.

The code differs from what its names suggest:

- No operation sets `SNES_ATTACHED`. `Attach` sets `SNES_CONNECTED`
  (src/Dotnet2Snes/Usb2Snes/Usb2Snes.cs:148), and every command's guard requires
  `SNES_CONNECTED` (lines 616-623). `Connection.NeverAttached` proves that no run from a new client
  reaches `SNES_ATTACHED`.
- `Disconnect` does not reset `State` (lines 85-107). After a disconnect the guard fails only
  because the socket is gone.

## Model

| member | source | states |
|---|---|---|
| OpCode.OpName | src/Dotnet2Snes/Usb2Snes/OpCode.cs:37-68 | each opcode's `ToString("g")` name reads back as that opcode, so distinct opcodes have distinct names on the wire |
| OpCode.NewCommand | src/Dotnet2Snes/Usb2Snes/OpCode.cs:12-19 | a new command has space "SNES", an opcode string naming the given opcode, and the given flags and operands unchanged |
| OpCode.ParseOptionalEmitted | src/Dotnet2Snes/Usb2Snes/OpCode.cs:21-28 | with NullValueHandling.Ignore a null list leaves no key, and a non-null list is written under its key and reads back with its elements in order |
| OpCode.FromToJson | src/Dotnet2Snes/Usb2Snes/OpCode.cs:21-28 | the serialised command reads back as the same command: opcode, space, and each list present exactly when it was non-null |
| OpCode.FromToBytes | src/Dotnet2Snes/Usb2Snes/OpCode.cs:30-34 | the UTF-8 bytes of the JSON decode to the command that was built |
| OpCode.AsciiBytes | src/Dotnet2Snes/Usb2Snes/OpCode.cs:30-34 | when every field is ASCII, the byte array is exactly as long as the JSON text |
| OpCode.ToJsonAscii | src/Dotnet2Snes/Usb2Snes/OpCode.cs:21-28 | a command with ASCII fields serialises to ASCII text |
| Json.ParseEscaped | src/Dotnet2Snes/Usb2Snes/OpCode.cs:27 | a string body escaped as Json.NET does reads back as the original string, and the closing quote, not an escaped one, ends it |
| Json.ParseQuoted | src/Dotnet2Snes/Usb2Snes/OpCode.cs:27 | a quoted string value reads back as the original string, with the rest of the text untouched |
| Json.ParseEmitted | src/Dotnet2Snes/Usb2Snes/OpCode.cs:27 | a serialised `List<string>` reads back as the same elements in the same order |
| Json.UnescapeEscaped | src/Dotnet2Snes/Usb2Snes/OpCode.cs:27 | every character the serializer escapes (quote, backslash, the named controls, the other controls as `\u00xx`, U+0085, U+2028, U+2029) un-escapes to itself |
| Json.EscapeAscii | src/Dotnet2Snes/Usb2Snes/OpCode.cs:27 | escaping keeps ASCII text ASCII |
| Utf8.EncodeChar | src/Dotnet2Snes/Usb2Snes/OpCode.cs:33 | each character takes one to four bytes, and exactly one when it is ASCII |
| Utf8.DecodeEncode | src/Dotnet2Snes/Usb2Snes/OpCode.cs:33 | decoding the UTF-8 bytes gives back the text |
| Utf8.AsciiLength | src/Dotnet2Snes/Usb2Snes/OpCode.cs:33 | the byte count equals the character count exactly when the text is ASCII, and ASCII text maps byte for byte |
| Decimal.ParseDecimalOf | src/Dotnet2Snes/Usb2Snes/Usb2Snes.cs:317-318 | an operand written with `Int32.ToString()` reads back as the same integer, negative values included |
| Decimal.ParseDigitsOf | src/Dotnet2Snes/Usb2Snes/Usb2Snes.cs:347 | the digits of a length are all decimal digits and read back as the length |
| OpCode.ToJson | src/Dotnet2Snes/Usb2Snes/OpCode.cs:21-28 | the serialised command is a JSON object whose first key is Opcode; its full reading is OpCode.FromToJson |
| OpCode.ToBytes | src/Dotnet2Snes/Usb2Snes/OpCode.cs:30-34 | the UTF-8 bytes number between one and four per character of the JSON text, and start with the byte of `{` |
| Json.EscapeChar | src/Dotnet2Snes/Usb2Snes/OpCode.cs:27 | a character is written as is exactly when it is not a quote, a backslash, a control below U+0020, U+0085, U+2028 or U+2029; otherwise it becomes a backslash escape |
| Json.Escape | src/Dotnet2Snes/Usb2Snes/OpCode.cs:27 | the escaped body is between one and six characters per input character |
| Json.EscapeCharNoControl | src/Dotnet2Snes/Usb2Snes/OpCode.cs:27 | an escaped character never holds a raw control character: every control becomes an escape sequence |
| Json.EscapeNoControl | src/Dotnet2Snes/Usb2Snes/OpCode.cs:27 | the escaped body of any text holds no raw control character |
| Json.EmitList | src/Dotnet2Snes/Usb2Snes/OpCode.cs:27 | a string array is written between `[` and `]`, and is `[]` exactly for the empty list |
| Utf8.Encode | src/Dotnet2Snes/Usb2Snes/OpCode.cs:33 | the text takes between one and four bytes per character |
| Decimal.Decimal | src/Dotnet2Snes/Usb2Snes/Usb2Snes.cs:317-318 | `Int32.ToString()` text is non-empty and starts with '-' exactly for a negative value; every other character is a digit; a non-negative value starts with a digit, a negative one has at least one digit after the '-', not '0'; the text starts with '0' only for zero itself, which is "0" |
| Connection.ConnectStepFixed | src/Dotnet2Snes/Usb2Snes/Usb2Snes.cs:54-83 | the corrected Connect (a fresh token source, and a refused handshake reverting instead of closing the disposed socket) always leaves a live token source, keeps the reachability invariant, and leaves the client ready exactly when it was ready or an accepted handshake to a valid port replaced a socket that was not open |
| Connection.DisconnectStep | src/Dotnet2Snes/Usb2Snes/Usb2Snes.cs:85-107 | Disconnect never changes State; on success the socket is gone and, if there was one, the token source too; it fails only with NullReferenceException on a null `_cts`; it keeps the reachability invariant |
| Connection.AttachStep | src/Dotnet2Snes/Usb2Snes/Usb2Snes.cs:133-155 | Attach never makes State SNES_ATTACHED, does not change readiness, and leaves the socket and token source alone |
| Connection.PeerCloseStep | src/Dotnet2Snes/Usb2Snes/Usb2Snes.cs:573-576 | after the peer's close frame the client fails the guard, with State and token source unchanged and the socket still present if it was |
| Router.Dispatch | src/Dotnet2Snes/Usb2Snes/Usb2Snes.cs:588-614 | a message only ever appends to the queues, at most one item; a binary message goes unchanged to the data queue, and a text message never touches it |
| Router.Step | src/Dotnet2Snes/Usb2Snes/Usb2Snes.cs:560-579 | after a close nothing changes; a frame stops the loop exactly when it is a close frame; the queues only grow, and only at a final non-close frame |
| Router.Run | src/Dotnet2Snes/Usb2Snes/Usb2Snes.cs:552-586 | over any inbox the queues only grow, by at most one item per frame, and a stopped loop stays stopped |
| Router.RunAsWritten | src/Dotnet2Snes/Usb2Snes/Usb2Snes.cs:560-579 | the loop as written only appends to the queues, and drains the inbox only when every frame in it is final |
| Connection.ConnectStep | src/Dotnet2Snes/Usb2Snes/Usb2Snes.cs:54-83 | Connect as written, including the null `_cts` dereferenced at lines 67 and 78 and the cleanup that throws after a refused handshake; it leaves the client ready exactly when it was already ready, or an accepted handshake to a valid port with a live token source replaced a socket that was not open |
| Connection.ConnectWhenOpen | src/Dotnet2Snes/Usb2Snes/Usb2Snes.cs:56-58 | Connect on an open socket changes nothing and succeeds |
| Connection.ConnectOutcomes | src/Dotnet2Snes/Usb2Snes/Usb2Snes.cs:62-82 | with a valid port and a live token source, an accepted handshake leaves a connected client with an open socket; a refused one throws from the cleanup and leaves State at SNES_CONNECTING with the dead socket in place, failing the guard |
| Connection.RefusedConnectNeverReverts | src/Dotnet2Snes/Usb2Snes/Usb2Snes.cs:64-82 | as written, a refused handshake on a valid port never reaches SNES_DISCONNECTED: State stays SNES_CONNECTING, the socket stays, and Connect fails with the cleanup's exception, or NullReferenceException without a token source |
| Connection.RefusedConnectFixed | src/Dotnet2Snes/Usb2Snes/Usb2Snes.cs:73-82 | corrected, a refused handshake on a valid port always ends in SNES_DISCONNECTED with no socket, a live token source and no exception |
| Connection.DisconnectDisables | src/Dotnet2Snes/Usb2Snes/Usb2Snes.cs:85-107 | Disconnect is a no-op without a socket, never changes State, and (unless `_cts` is already gone) leaves a client that fails the guard |
| Connection.RunReachable | src/Dotnet2Snes/Usb2Snes/Usb2Snes.cs:54-155 | every run of Connect, Disconnect, Attach and peer closes keeps State off SNES_ATTACHED, and keeps an open socket only with SNES_CONNECTED and a live token source |
| Connection.NeverAttached | src/Dotnet2Snes/Usb2Snes/Usb2Snes.cs:148 | no sequence of operations reaches SNES_ATTACHED |
| Connection.TokenLossIsPermanent | src/Dotnet2Snes/Usb2Snes/Usb2Snes.cs:105-106 | once `_cts` is nulled, no later event restores it and the guard never passes again |
| Connection.NoReconnectAfterDisconnect | src/Dotnet2Snes/Usb2Snes/Usb2Snes.cs:54-107 | as written, connect, then disconnect, and no later run of events ever passes the guard |
| Connection.ReconnectFixed | src/Dotnet2Snes/Usb2Snes/Usb2Snes.cs:54-83 | with a fresh token source, a successful connect to a valid port passes the guard whatever happened before |
| Client.Usb2Snes.constructor | src/Dotnet2Snes/Usb2Snes/Usb2Snes.cs:41-50 | a new client is disconnected, has no socket, has a live token source, has empty queues and a free gate, and uses the given port (8080 by default) |
| Client.Usb2Snes.Connect | src/Dotnet2Snes/Usb2Snes/Usb2Snes.cs:54-83 | the new connection fields and the result are the corrected Connect transition, refused handshakes reverting to SNES_DISCONNECTED included, and the class invariant is kept |
| Client.Usb2Snes.Disconnect | src/Dotnet2Snes/Usb2Snes/Usb2Snes.cs:85-107 | the new connection fields and the result are the Disconnect transition, and a close frame is sent exactly when the socket was open and `_cts` live |
| Client.Usb2Snes.CheckConnection | src/Dotnet2Snes/Usb2Snes/Usb2Snes.cs:616-623 | passes exactly when State is SNES_CONNECTED and the socket is open, and otherwise fails with "Not currently connected." |
| Client.CommandMessageDecodes | src/Dotnet2Snes/Usb2Snes/Usb2Snes.cs:115-121 | every command an operation sends reaches the server as a text frame that decodes to the opcode's name, space "SNES", no Flags key and exactly the operands given |
| Client.WireDecodes | src/Dotnet2Snes/Usb2Snes/Usb2Snes.cs:116-121 | under the class invariant, every text frame in the outbox decodes to a client command |
| Client.Usb2Snes.GetDeviceList | src/Dotnet2Snes/Usb2Snes/Usb2Snes.cs:109-131 | not connected: fails and sends nothing. Connected: sends DeviceList, then returns the first reply's Results (a null reply is a NullReferenceException), or an empty list when cancelled |
| Client.Usb2Snes.Attach | src/Dotnet2Snes/Usb2Snes/Usb2Snes.cs:133-155 | sends Attach with the device name when connected; State ends at SNES_CONNECTED, never SNES_ATTACHED |
| Client.Usb2Snes.AppVersion | src/Dotnet2Snes/Usb2Snes/Usb2Snes.cs:157-179 | sends AppVersion; returns the first result or null for an empty list, fails on a null reply or null Results, and returns "" when cancelled |
| Client.Usb2Snes.Name | src/Dotnet2Snes/Usb2Snes/Usb2Snes.cs:181-201 | sends Name with the operand "Dotnet2SnesClient" when connected, and otherwise fails and sends nothing |
| Client.Usb2Snes.Info | src/Dotnet2Snes/Usb2Snes/Usb2Snes.cs:203-225 | as GetDeviceList, with the Info opcode |
| Client.Usb2Snes.Boot | src/Dotnet2Snes/Usb2Snes/Usb2Snes.cs:227-247 | sends Boot with the ROM path when connected, and otherwise fails and sends nothing |
| Client.Usb2Snes.Menu | src/Dotnet2Snes/Usb2Snes/Usb2Snes.cs:249-268 | sends Menu without operands when connected |
| Client.Usb2Snes.Reset | src/Dotnet2Snes/Usb2Snes/Usb2Snes.cs:270-289 | sends Reset without operands when connected |
| Client.Usb2Snes.Binary | src/Dotnet2Snes/Usb2Snes/Usb2Snes.cs:292-296 | always fails: not connected when the guard fails, otherwise not implemented |
| Client.Usb2Snes.Stream | src/Dotnet2Snes/Usb2Snes/Usb2Snes.cs:298-302 | always fails: not connected when the guard fails, otherwise not implemented |
| Client.Usb2Snes.Fence | src/Dotnet2Snes/Usb2Snes/Usb2Snes.cs:304-308 | always fails: not connected when the guard fails, otherwise not implemented |
| Client.Usb2Snes.GetAddress | src/Dotnet2Snes/Usb2Snes/Usb2Snes.cs:311-338 | sends GetAddress with the offset and size in decimal; consumes one reply, then returns the next data payload, or null, having consumed only what arrived before cancellation |
| Client.Usb2Snes.ReplyThenData | src/Dotnet2Snes/Usb2Snes/Usb2Snes.cs:327-333 | the two waits of GetAddress and GetFile: a reply, then a payload, with the cancellation cases |
| Client.Usb2Snes.PutAddress | src/Dotnet2Snes/Usb2Snes/Usb2Snes.cs:340-368 | sends PutAddress with the offset and the payload length in decimal, then the payload as one binary frame |
| Client.Usb2Snes.PutIps | src/Dotnet2Snes/Usb2Snes/Usb2Snes.cs:370-397 | sends PutIPS with the patch name and length, then the patch as one binary frame |
| Client.Usb2Snes.GetFile | src/Dotnet2Snes/Usb2Snes/Usb2Snes.cs:399-423 | sends GetFile with the path; consumes one reply, then returns the next data payload, or null on cancellation |
| Client.Usb2Snes.PutFile | src/Dotnet2Snes/Usb2Snes/Usb2Snes.cs:425-452 | sends PutFile with the path and file length, then the file as one binary frame |
| Client.Usb2Snes.List | src/Dotnet2Snes/Usb2Snes/Usb2Snes.cs:454-484 | sends List with the path. On a reply with an even count, returns types and names of equal length that interleave back to the Results. Fails on an odd count, a null reply or null Results. Returns (null, null) when cancelled |
| Listing.SplitPairs | src/Dotnet2Snes/Usb2Snes/Usb2Snes.cs:470-477 | succeeds exactly on an even count; then the k-th type is Results[2k] and the k-th name is Results[2k+1]; an odd count fails with the out-of-range index |
| Client.Usb2Snes.Remove | src/Dotnet2Snes/Usb2Snes/Usb2Snes.cs:486-506 | sends Remove with the path when connected |
| Client.Usb2Snes.Rename | src/Dotnet2Snes/Usb2Snes/Usb2Snes.cs:508-528 | sends Rename with the path and the new name, in that order, when connected |
| Client.Usb2Snes.MakeDir | src/Dotnet2Snes/Usb2Snes/Usb2Snes.cs:530-550 | sends MakeDir with the path when connected |
| Client.Usb2Snes.ResponseReceived | src/Dotnet2Snes/Usb2Snes/Usb2Snes.cs:588-614 | the new queues are the dispatch of the message: binary to the data queue, parsed text to the response queue, unparsable text dropped |
| Client.Usb2Snes.ReceiveLoop | src/Dotnet2Snes/Usb2Snes/Usb2Snes.cs:552-586 | the queues after the loop are the corrected routing of the inbox, the loop reports whether a close frame ended it, and after a close the socket is no longer open |
| Router.DispatchOne | src/Dotnet2Snes/Usb2Snes/Usb2Snes.cs:588-614 | a binary message lands unchanged at the back of the data queue, a parsed text message at the back of the response queue, and one that fails to parse changes nothing |
| Router.RouteWhole | src/Dotnet2Snes/Usb2Snes/Usb2Snes.cs:552-614 | for complete frames, the queues grow by exactly the binary payloads and the parsed replies, each in arrival order, up to the first close |
| Router.CloseStops | src/Dotnet2Snes/Usb2Snes/Usb2Snes.cs:573-576 | a close frame ends the loop: no frame after it is routed |
| Router.Reassembly | src/Dotnet2Snes/Usb2Snes/Usb2Snes.cs:562-572 | a message delivered in fragments is routed exactly as its concatenated bytes in one final frame |
| Router.AsWrittenWhole | src/Dotnet2Snes/Usb2Snes/Usb2Snes.cs:560-579 | on complete frames the loop as written never spins and routes exactly as the corrected loop does |
| Router.FragmentedReplyStalls | src/Dotnet2Snes/Usb2Snes/Usb2Snes.cs:567-572 | as written, a binary reply in two fragments stalls the loop so that neither it nor any later frame is routed, while the corrected loop delivers the joined payload |

## Left out

- The three-argument constructor (src/Dotnet2Snes/Usb2Snes/Usb2Snes.cs:16-22) is not modelled.
  It leaves `_ws`, the queues, the gate and the token source null. Every operation on such a
  client therefore fails with "Not currently connected." from `CheckConnection` (lines 616-621)
  before it reaches the gate. `Connect` can never open the socket: `_cts.Token` throws a
  NullReferenceException at line 67, and again in the handler at line 78.
- `Connect` where `ConnectAsync` succeeds but `Task.Factory.StartNew` (lines 68-69) then fails is
  not modelled. That needs an already cancelled `_cts`, and the only cancel (`CancelAfter` in
  `Disconnect`) is followed by disposing and nulling the source, unless those close calls throw
  (see the line on `Disconnect`'s close calls below). If `StartNew` did fail, the handler would
  close an open socket, sending a 1011 close frame, before reverting.
- `Dispose` (line 52) is not modelled separately. It is `Disconnect().Wait()`, and its model is
  `Client.Usb2Snes.Disconnect`.
- Concurrency is not modelled. The gate is a flag held for the whole operation, operations run
  one at a time, and semaphore fairness between concurrent callers is not represented.
- `Connect` starts the receive loop with `Task.Factory.StartNew` (lines 68-69). In the model,
  `ReceiveLoop` is a separate method called with the frames that arrive.
- Timing is not modelled. This covers `CancelAfter(2 s)` in `Disconnect`, how long
  `CloseAsync` waits for the peer's close, and the loop's own `IsCancellationRequested` check.
  Cancellation is treated as an outcome of each queue wait (`waitsBeforeCancel`).
- `SendAsync` is assumed to complete, and so are `Disconnect`'s `CloseOutputAsync` and `CloseAsync`
  (lines 89-101). If either throws on an aborted connection, `_ws` and `_cts` stay in place and
  the pending `CancelAfter` fires later; the model does not capture that. A cancellation raised inside `SendAsync` is not modelled,
  and neither is a `WebSocketException` from `ReceiveAsync` on a broken socket.
- `Client.Usb2Snes.ReceiveLoop` does not model the 8192-byte receive buffer. The inbox gives each
  frame's payload whole. The buffer only decides where a long message splits into fragments,
  and `Router.Reassembly` covers every split.
- `Deserialize<Response>` is a parameter. Json.NET's parser is not modelled.
- The Flags list is not modelled in any operation's contract, because every operation passes
  null flags. `OpCode.FromToJson` covers non-null flags.
- `Decimal.Decimal`: operands follow `Int32.ToString()` in the invariant culture. A culture whose
  negative sign is not '-' is not modelled.
- Strings are sequences of Unicode scalar values. A C# string holding a lone surrogate cannot be
  represented, and neither can its UTF-8 replacement character.
- `Client.Usb2Snes.GetAddress` returns the payload without checking that its length matches the
  requested size (the TODO at lines 329-330). The model does not add that check.
- Null reference arguments are not modelled, because the model's strings and byte sequences
  cannot be null. A null string argument (`Attach(null)`, `Boot(null)`, `GetFile(null)`,
  `Remove(null)`, `Rename(p, null)` and the like) puts a null item in the operand list, which
  Json.NET writes as `"Operands":[null]`: `NullValueHandling.Ignore` applies to properties, not
  to list items. A null array passed to `PutAddress`, `PutIps` or `PutFile` throws a
  NullReferenceException at `data.Length` (lines 347, 377, 432). That happens inside the gate,
  before anything is sent, and the `finally` releases the gate.
- src/Dotnet2Snes/Dotnet2Snes.cs and src/Console2Snes/Program.cs are not part of this model.

## Findings

| source | as written | input that shows it | evidently intended | confidence | as-written member | corrected member |
|---|---|---|---|---|---|---|
| src/Dotnet2Snes/Usb2Snes/Usb2Snes.cs:567-572 | the inner `while (!rcvResult.EndOfMessage)` never calls `ReceiveAsync` again, so `rcvResult` never changes and the loop never routes another frame: it spins re-writing the same buffer, and for a non-empty fragment dies after about 2 GiB with an exception (the MemoryStream is too long, or memory runs out) that `catch (TaskCanceledException)` does not catch | a reply in two frames, `Frame(Binary, first, false)` then `Frame(Binary, second, true)`, as any GetAddress or GetFile payload longer than 8192 bytes arrives | receive the next fragment inside the inner loop, append it, and dispatch the whole message at its final fragment | not executed | Router.RunAsWritten, Router.FragmentedReplyStalls | Router.Run, Router.Reassembly, Client.Usb2Snes.ReceiveLoop |
| src/Dotnet2Snes/Usb2Snes/Usb2Snes.cs:105-106 | `Disconnect` disposes and nulls `_cts`, and `Connect` never creates a new one, yet dereferences it at lines 67 and 78 | Connect (accepted), Disconnect, then Connect (accepted): the second Connect throws NullReferenceException and the client can never pass the guard again | Connect creates a fresh CancellationTokenSource when the old one is gone | not executed | Connection.ConnectStep, Connection.NoReconnectAfterDisconnect | Connection.ConnectStepFixed, Connection.ReconnectFixed, Client.Usb2Snes.Connect |
| src/Dotnet2Snes/Usb2Snes/Usb2Snes.cs:73-82 | after `ConnectAsync` fails, the `ClientWebSocket` has disposed itself, so the handler's `CloseAsync` throws out of the catch and lines 80-81 never run: Connect throws, State stays SNES_CONNECTING and the dead socket is kept | Connect (refused), from a new client on a valid port, as when no server listens on that port | a failed connect reverts to SNES_DISCONNECTED with no socket, as lines 80-81 attempt, without closing a socket that is not open | not executed | Connection.ConnectStep, Connection.ConnectOutcomes, Connection.RefusedConnectNeverReverts | Connection.ConnectStepFixed, Connection.RefusedConnectFixed, Client.Usb2Snes.Connect |
