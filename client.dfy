/** The Usb2Snes client engine. The web socket is abstracted to an outbox (the messages given to
    SendAsync and CloseOutputAsync, in order, whose frames are `Wire`) and to the inbox of
    frames handed to ReceiveLoop; the two BufferBlocks are the
    sequences `responses` and `data`; the SemaphoreSlim is the flag `locked`. */
module Client {
  import opened Wrappers
  import Utf8
  import Decimal
  import OpCode
  import Router
  import Listing
  import opened Connection

  newtype int32 = x: int | -0x8000_0000 <= x < 0x8000_0000

  /** The client name the Name command announces. */
  const ClientName: string := "Dotnet2SnesClient"

  /** One SendAsync or CloseOutputAsync call, recorded as the value handed to it. */
  datatype Message =
    | CommandText(command: OpCode.Command)  // SendAsync(command.ToBytes(), Text, endOfMessage: true)
    | BinaryData(payload: seq<Utf8.byte>)   // SendAsync(data, Binary, endOfMessage: true)
    | CloseNormal                           // CloseOutputAsync(NormalClosure, "")

  /** The frame a message puts on the socket; a close frame carries status code 1000 and no reason. */
  function Wire(m: Message): Router.Frame {
    match m
    case CommandText(c) => Router.Frame(Router.Text, OpCode.ToBytes(c), true)
    case BinaryData(payload) => Router.Frame(Router.Binary, payload, true)
    case CloseNormal => Router.Frame(Router.Close, [0x03, 0xE8], true)
  }

  /** The command every operation builds: the opcode, null flags, and its operands. */
  function CommandMessage(op: OpCode.OpCodes, operands: Option<seq<string>>): Message {
    CommandText(OpCode.NewCommand(op, None, operands))
  }

  /** A command of space SNES without Flags, naming one of the opcodes. */
  predicate IsClientCommand(c: OpCode.Command) {
    c.space == "SNES" && c.flags.None? && OpCode.OpCodeNamed(c.opcode).Some?
  }

  predicate WellFormedOutbox(outbox: seq<Message>) {
    forall i :: 0 <= i < |outbox| && outbox[i].CommandText? ==> IsClientCommand(outbox[i].command)
  }

  lemma WellFormedAppend(outbox: seq<Message>, m: Message)
    requires WellFormedOutbox(outbox)
    requires m.CommandText? ==> IsClientCommand(m.command)
    ensures WellFormedOutbox(outbox + [m])
  {
    forall i | 0 <= i < |outbox + [m]| && (outbox + [m])[i].CommandText?
      ensures IsClientCommand((outbox + [m])[i].command)
    {
      if i < |outbox| {
        assert (outbox + [m])[i] == outbox[i];
      }
    }
  }

  /** Every command the client sends is a client command, and the peer decodes its text frame
      to the opcode's name, the space "SNES", no Flags key and exactly the operands given. */
  lemma CommandMessageDecodes(op: OpCode.OpCodes, operands: Option<seq<string>>)
    ensures IsClientCommand(CommandMessage(op, operands).command)
    ensures Wire(CommandMessage(op, operands)).kind == Router.Text
    ensures OpCode.FromBytes(Wire(CommandMessage(op, operands)).payload)
            == Some(OpCode.Command(OpCode.OpName(op), "SNES", None, operands))
  {
    OpCode.FromToBytes(OpCode.NewCommand(op, None, operands));
  }

  /** Whatever an outbox holds, each text frame on the wire decodes to a client command. */
  lemma WireDecodes(outbox: seq<Message>, i: nat)
    requires WellFormedOutbox(outbox) && i < |outbox| && Wire(outbox[i]).kind == Router.Text
    ensures exists c :: OpCode.FromBytes(Wire(outbox[i]).payload) == Some(c) && IsClientCommand(c)
  {
    OpCode.FromToBytes(outbox[i].command);
  }

  /** Whether the wait numbered `wait` of a request (0 for the first) gets an item: the token
      has not yet been cancelled and the queue holds one. An empty queue is only ever left by
      cancellation. */
  predicate Arrives<T>(wait: nat, waitsBeforeCancel: nat, queue: seq<T>) {
    wait < waitsBeforeCancel && queue != []
  }

  /** `r.Results` of a dequeued reply. */
  function ResultsOf(reply: Router.Reply): Result<Option<seq<string>>> {
    match reply
    case NullReply => Err(NullReference)
    case Reply(results) => Ok(results)
  }

  /** `r.Results.FirstOrDefault()` of a dequeued reply. */
  function FirstResultOf(reply: Router.Reply): Result<Option<string>> {
    match reply
    case NullReply => Err(NullReference)
    case Reply(None) => Err(ArgumentNull)
    case Reply(Some(results)) => Ok(if results == [] then None else Some(results[0]))
  }

  /** What List returns for a dequeued reply: the split of its Results into equally long types
      and names that interleave back to the Results. */
  predicate ListedAs(reply: Router.Reply, r: Result<Option<(seq<string>, seq<string>)>>) {
    match reply
    case NullReply => r == Err(NullReference)
    case Reply(None) => r == Err(NullReference)
    case Reply(Some(results)) =>
      if |results| % 2 == 1 then r == Err(ArgumentOutOfRange)
      else r.Ok? && r.value.Some? && |r.value.value.0| == |r.value.value.1|
           && Listing.Interleave(r.value.value.0, r.value.value.1) == results
  }

  /** The queue effect of GetAddress and GetFile: one reply, then one payload, which is the
      result; cancellation at either wait returns null, having consumed what came before it. */
  predicate DrainedReplyThenData(waitsBeforeCancel: nat, responses: seq<Router.Reply>, data: seq<seq<Utf8.byte>>,
                                 responses': seq<Router.Reply>, data': seq<seq<Utf8.byte>>,
                                 r: Result<Option<seq<Utf8.byte>>>)
  {
    if !Arrives(0, waitsBeforeCancel, responses) then
      r == Ok(None) && responses' == responses && data' == data
    else if !Arrives(1, waitsBeforeCancel, data) then
      r == Ok(None) && responses' == responses[1..] && data' == data
    else
      r == Ok(Some(data[0])) && responses' == responses[1..] && data' == data[1..]
  }

  class Usb2Snes {
    var state: State
    var isSd2Snes: bool
    var port: int32
    var ws: Socket
    var hasCts: bool
    var outbox: seq<Message>
    var responses: seq<Router.Reply>
    var data: seq<seq<Utf8.byte>>
    var locked: bool

    function Conn(): Link
      reads this
    {
      Link(state, ws, hasCts)
    }

    predicate Ready()
      reads this
    {
      Connection.Ready(Conn())
    }

    /** Between operations the request gate is free, every text frame sent is a client command,
        and the connection fields are in a state reachable from a fresh client: never
        SNES_ATTACHED, and an open socket only with SNES_CONNECTED and a live token source. */
    ghost predicate Valid()
      reads this
    {
      !locked && WellFormedOutbox(outbox) && Reachable(Conn())
    }

    constructor (port: int32 := 8080)
      ensures Valid()
      ensures Conn() == Initial && this.port == port && !isSd2Snes
      ensures outbox == [] && responses == [] && data == []
    {
      state := Disconnected;
      this.port := port;
      isSd2Snes := false;
      ws := NoSocket;
      hasCts := true;
      outbox := [];
      responses := [];
      data := [];
      locked := false;
    }

    /** Connect, with a disposed token source replaced by a fresh one first, and a refused
        handshake reverting to SNES_DISCONNECTED. */
    method Connect(attempt: Attempt) returns (r: Result<()>)
      requires Valid()
      modifies this`state, this`ws, this`hasCts
      ensures Valid()
      ensures (Conn(), r) == ConnectStepFixed(old(Conn()), port as int, attempt)
    {
      if !hasCts {
        hasCts := true;
      }
      if ws == Socket(true) {
        return Ok(());
      }
      ws := Socket(false);
      if !ValidPort(port as int) {
        return Err(InvalidUri);
      }
      state := Connecting;
      match attempt
      case Accepted =>
        ws := Socket(true);
        state := Connected;
        r := Ok(());
      case Refused =>
        ws := NoSocket;
        state := Disconnected;
        r := Ok(());
    }

    method Disconnect() returns (r: Result<()>)
      requires Valid()
      modifies this`ws, this`hasCts, this`outbox
      ensures Valid()
      ensures (Conn(), r) == DisconnectStep(old(Conn()))
      ensures outbox == old(outbox) + (if DisconnectSendsClose(old(Conn())) then [CloseNormal] else [])
    {
      if ws == NoSocket {
        return Ok(());
      }
      if ws.open {
        if !hasCts {
          return Err(NullReference);
        }
        outbox := outbox + [CloseNormal];
      }
      ws := NoSocket;
      if !hasCts {
        return Err(NullReference);
      }
      hasCts := false;
      r := Ok(());
    }

    method CheckConnection() returns (r: Result<()>)
      ensures r == if state == Connected && ws == Socket(true) then Ok(()) else Err(NotConnected)
    {
      if state != Connected || ws != Socket(true) {
        return Err(NotConnected);
      }
      r := Ok(());
    }

    // ---- the request cycle's pieces ----

    method SendCommand(op: OpCode.OpCodes, operands: Option<seq<string>>)
      requires locked && WellFormedOutbox(outbox)
      modifies this`outbox
      ensures outbox == old(outbox) + [CommandMessage(op, operands)]
      ensures WellFormedOutbox(outbox)
    {
      CommandMessageDecodes(op, operands);
      WellFormedAppend(outbox, CommandMessage(op, operands));
      outbox := outbox + [CommandMessage(op, operands)];
    }

    method SendBinary(payload: seq<Utf8.byte>)
      requires locked && WellFormedOutbox(outbox)
      modifies this`outbox
      ensures outbox == old(outbox) + [BinaryData(payload)]
      ensures WellFormedOutbox(outbox)
    {
      WellFormedAppend(outbox, BinaryData(payload));
      outbox := outbox + [BinaryData(payload)];
    }

    method ReceiveResponse(wait: nat, waitsBeforeCancel: nat) returns (got: bool, reply: Router.Reply)
      requires locked
      modifies this`responses
      ensures got == Arrives(wait, waitsBeforeCancel, old(responses))
      ensures got ==> reply == old(responses)[0] && responses == old(responses)[1..]
      ensures !got ==> responses == old(responses)
    {
      got := Arrives(wait, waitsBeforeCancel, responses);
      reply := Router.NullReply;
      if got {
        reply := responses[0];
        responses := responses[1..];
      }
    }

    method ReceiveData(wait: nat, waitsBeforeCancel: nat) returns (got: bool, item: seq<Utf8.byte>)
      requires locked
      modifies this`data
      ensures got == Arrives(wait, waitsBeforeCancel, old(data))
      ensures got ==> item == old(data)[0] && data == old(data)[1..]
      ensures !got ==> data == old(data)
    {
      got := Arrives(wait, waitsBeforeCancel, data);
      item := [];
      if got {
        item := data[0];
        data := data[1..];
      }
    }

    /** The commands that send one text frame and wait for nothing. */
    method SendOnly(op: OpCode.OpCodes, operands: Option<seq<string>>) returns (r: Result<()>)
      requires Valid()
      modifies this`outbox, this`locked
      ensures Valid() && r == (if old(Ready()) then Ok(()) else Err(NotConnected))
      ensures outbox == old(outbox) + (if old(Ready()) then [CommandMessage(op, operands)] else [])
    {
      r := CheckConnection();
      if r.Err? {
        return;
      }
      locked := true;
      SendCommand(op, operands);
      locked := false;
    }

    /** The commands that send a text frame and then the payload as one binary frame. */
    method SendWithPayload(op: OpCode.OpCodes, first: string, payload: seq<Utf8.byte>) returns (r: Result<()>)
      requires Valid()
      modifies this`outbox, this`locked
      ensures Valid() && r == (if old(Ready()) then Ok(()) else Err(NotConnected))
      ensures outbox == old(outbox) +
        (if old(Ready()) then [CommandMessage(op, Some([first, Decimal.Decimal(|payload|)])), BinaryData(payload)] else [])
    {
      r := CheckConnection();
      if r.Err? {
        return;
      }
      locked := true;
      SendCommand(op, Some([first, Decimal.Decimal(|payload|)]));
      SendBinary(payload);
      locked := false;
    }

    // ---- the operations ----

    method GetDeviceList(waitsBeforeCancel: nat) returns (r: Result<Option<seq<string>>>)
      requires Valid()
      modifies this`outbox, this`responses, this`locked
      ensures Valid()
      ensures !old(Ready()) ==> r == Err(NotConnected) && outbox == old(outbox) && responses == old(responses)
      ensures old(Ready()) ==> outbox == old(outbox) + [CommandMessage(OpCode.DeviceList, None)]
      ensures old(Ready()) && Arrives(0, waitsBeforeCancel, old(responses)) ==>
        responses == old(responses)[1..] && r == ResultsOf(old(responses)[0])
      ensures old(Ready()) && !Arrives(0, waitsBeforeCancel, old(responses)) ==>
        responses == old(responses) && r == Ok(Some([]))
    {
      var guard := CheckConnection();
      if guard.Err? {
        return Err(guard.error);
      }
      locked := true;
      SendCommand(OpCode.DeviceList, None);
      var got, reply := ReceiveResponse(0, waitsBeforeCancel);
      r := if got then ResultsOf(reply) else Ok(Some([]));
      locked := false;
    }

    method Info(waitsBeforeCancel: nat) returns (r: Result<Option<seq<string>>>)
      requires Valid()
      modifies this`outbox, this`responses, this`locked
      ensures Valid()
      ensures !old(Ready()) ==> r == Err(NotConnected) && outbox == old(outbox) && responses == old(responses)
      ensures old(Ready()) ==> outbox == old(outbox) + [CommandMessage(OpCode.Info, None)]
      ensures old(Ready()) && Arrives(0, waitsBeforeCancel, old(responses)) ==>
        responses == old(responses)[1..] && r == ResultsOf(old(responses)[0])
      ensures old(Ready()) && !Arrives(0, waitsBeforeCancel, old(responses)) ==>
        responses == old(responses) && r == Ok(Some([]))
    {
      var guard := CheckConnection();
      if guard.Err? {
        return Err(guard.error);
      }
      locked := true;
      SendCommand(OpCode.Info, None);
      var got, reply := ReceiveResponse(0, waitsBeforeCancel);
      r := if got then ResultsOf(reply) else Ok(Some([]));
      locked := false;
    }

    method AppVersion(waitsBeforeCancel: nat) returns (r: Result<Option<string>>)
      requires Valid()
      modifies this`outbox, this`responses, this`locked
      ensures Valid()
      ensures !old(Ready()) ==> r == Err(NotConnected) && outbox == old(outbox) && responses == old(responses)
      ensures old(Ready()) ==> outbox == old(outbox) + [CommandMessage(OpCode.AppVersion, None)]
      ensures old(Ready()) && Arrives(0, waitsBeforeCancel, old(responses)) ==>
        responses == old(responses)[1..] && r == FirstResultOf(old(responses)[0])
      ensures old(Ready()) && !Arrives(0, waitsBeforeCancel, old(responses)) ==>
        responses == old(responses) && r == Ok(Some(""))
    {
      var guard := CheckConnection();
      if guard.Err? {
        return Err(guard.error);
      }
      locked := true;
      SendCommand(OpCode.AppVersion, None);
      var got, reply := ReceiveResponse(0, waitsBeforeCancel);
      r := if got then FirstResultOf(reply) else Ok(Some(""));
      locked := false;
    }

    /** Sends the Attach command; State stays SNES_CONNECTED and no reply is awaited. */
    method Attach(device: string) returns (r: Result<()>)
      requires Valid()
      modifies this`outbox, this`locked, this`state
      ensures Valid() && r == (if old(Ready()) then Ok(()) else Err(NotConnected))
      ensures outbox == old(outbox) + (if old(Ready()) then [CommandMessage(OpCode.Attach, Some([device]))] else [])
      ensures Conn() == AttachStep(old(Conn()))
    {
      r := CheckConnection();
      if r.Err? {
        return;
      }
      locked := true;
      SendCommand(OpCode.Attach, Some([device]));
      state := Connected;
      locked := false;
    }

    method Name() returns (r: Result<()>)
      requires Valid()
      modifies this`outbox, this`locked
      ensures Valid() && r == (if old(Ready()) then Ok(()) else Err(NotConnected))
      ensures outbox == old(outbox) + (if old(Ready()) then [CommandMessage(OpCode.Name, Some([ClientName]))] else [])
    {
      r := SendOnly(OpCode.Name, Some([ClientName]));
    }

    method Boot(romPath: string) returns (r: Result<()>)
      requires Valid()
      modifies this`outbox, this`locked
      ensures Valid() && r == (if old(Ready()) then Ok(()) else Err(NotConnected))
      ensures outbox == old(outbox) + (if old(Ready()) then [CommandMessage(OpCode.Boot, Some([romPath]))] else [])
    {
      r := SendOnly(OpCode.Boot, Some([romPath]));
    }

    method Menu() returns (r: Result<()>)
      requires Valid()
      modifies this`outbox, this`locked
      ensures Valid() && r == (if old(Ready()) then Ok(()) else Err(NotConnected))
      ensures outbox == old(outbox) + (if old(Ready()) then [CommandMessage(OpCode.Menu, None)] else [])
    {
      r := SendOnly(OpCode.Menu, None);
    }

    method Reset() returns (r: Result<()>)
      requires Valid()
      modifies this`outbox, this`locked
      ensures Valid() && r == (if old(Ready()) then Ok(()) else Err(NotConnected))
      ensures outbox == old(outbox) + (if old(Ready()) then [CommandMessage(OpCode.Reset, None)] else [])
    {
      r := SendOnly(OpCode.Reset, None);
    }

    /** Binary, Stream and Fence fail as not implemented, but only once the guard has passed. */
    method Binary() returns (r: Result<()>)
      ensures r.Err? && (r.error == NotImplemented <==> state == Connected && ws == Socket(true))
      ensures r.error != NotImplemented ==> r.error == NotConnected
    {
      r := CheckConnection();
      if r.Ok? {
        r := Err(NotImplemented);
      }
    }

    method Stream() returns (r: Result<()>)
      ensures r.Err? && (r.error == NotImplemented <==> state == Connected && ws == Socket(true))
      ensures r.error != NotImplemented ==> r.error == NotConnected
    {
      r := CheckConnection();
      if r.Ok? {
        r := Err(NotImplemented);
      }
    }

    method Fence() returns (r: Result<()>)
      ensures r.Err? && (r.error == NotImplemented <==> state == Connected && ws == Socket(true))
      ensures r.error != NotImplemented ==> r.error == NotConnected
    {
      r := CheckConnection();
      if r.Ok? {
        r := Err(NotImplemented);
      }
    }

    method GetAddress(offset: int32, size: int32, waitsBeforeCancel: nat) returns (r: Result<Option<seq<Utf8.byte>>>)
      requires Valid()
      modifies this`outbox, this`responses, this`data, this`locked
      ensures Valid()
      ensures !old(Ready()) ==> r == Err(NotConnected) && outbox == old(outbox)
                                && responses == old(responses) && data == old(data)
      ensures old(Ready()) ==>
        outbox == old(outbox) + [CommandMessage(OpCode.GetAddress, Some([Decimal.Decimal(offset as int), Decimal.Decimal(size as int)]))]
      ensures old(Ready()) ==> DrainedReplyThenData(waitsBeforeCancel, old(responses), old(data), responses, data, r)
    {
      var guard := CheckConnection();
      if guard.Err? {
        return Err(guard.error);
      }
      locked := true;
      SendCommand(OpCode.GetAddress, Some([Decimal.Decimal(offset as int), Decimal.Decimal(size as int)]));
      r := ReplyThenData(waitsBeforeCancel);
      locked := false;
    }

    method GetFile(filepath: string, waitsBeforeCancel: nat) returns (r: Result<Option<seq<Utf8.byte>>>)
      requires Valid()
      modifies this`outbox, this`responses, this`data, this`locked
      ensures Valid()
      ensures !old(Ready()) ==> r == Err(NotConnected) && outbox == old(outbox)
                                && responses == old(responses) && data == old(data)
      ensures old(Ready()) ==> outbox == old(outbox) + [CommandMessage(OpCode.GetFile, Some([filepath]))]
      ensures old(Ready()) ==> DrainedReplyThenData(waitsBeforeCancel, old(responses), old(data), responses, data, r)
    {
      var guard := CheckConnection();
      if guard.Err? {
        return Err(guard.error);
      }
      locked := true;
      SendCommand(OpCode.GetFile, Some([filepath]));
      r := ReplyThenData(waitsBeforeCancel);
      locked := false;
    }

    method ReplyThenData(waitsBeforeCancel: nat) returns (r: Result<Option<seq<Utf8.byte>>>)
      requires locked
      modifies this`responses, this`data
      ensures DrainedReplyThenData(waitsBeforeCancel, old(responses), old(data), responses, data, r)
    {
      var got, reply := ReceiveResponse(0, waitsBeforeCancel);
      if !got {
        return Ok(None);
      }
      var gotData, item := ReceiveData(1, waitsBeforeCancel);
      r := if gotData then Ok(Some(item)) else Ok(None);
    }

    method PutAddress(offset: int32, payload: seq<Utf8.byte>) returns (r: Result<()>)
      requires Valid()
      modifies this`outbox, this`locked
      ensures Valid() && r == (if old(Ready()) then Ok(()) else Err(NotConnected))
      ensures outbox == old(outbox) + (if old(Ready()) then
        [CommandMessage(OpCode.PutAddress, Some([Decimal.Decimal(offset as int), Decimal.Decimal(|payload|)])),
         BinaryData(payload)] else [])
    {
      r := SendWithPayload(OpCode.PutAddress, Decimal.Decimal(offset as int), payload);
    }

    method PutIps(name: string, payload: seq<Utf8.byte>) returns (r: Result<()>)
      requires Valid()
      modifies this`outbox, this`locked
      ensures Valid() && r == (if old(Ready()) then Ok(()) else Err(NotConnected))
      ensures outbox == old(outbox) + (if old(Ready()) then
        [CommandMessage(OpCode.PutIPS, Some([name, Decimal.Decimal(|payload|)])), BinaryData(payload)] else [])
    {
      r := SendWithPayload(OpCode.PutIPS, name, payload);
    }

    method PutFile(filepath: string, file: seq<Utf8.byte>) returns (r: Result<()>)
      requires Valid()
      modifies this`outbox, this`locked
      ensures Valid() && r == (if old(Ready()) then Ok(()) else Err(NotConnected))
      ensures outbox == old(outbox) + (if old(Ready()) then
        [CommandMessage(OpCode.PutFile, Some([filepath, Decimal.Decimal(|file|)])), BinaryData(file)] else [])
    {
      r := SendWithPayload(OpCode.PutFile, filepath, file);
    }

    method List(dirpath: string, waitsBeforeCancel: nat) returns (r: Result<Option<(seq<string>, seq<string>)>>)
      requires Valid()
      modifies this`outbox, this`responses, this`locked
      ensures Valid()
      ensures !old(Ready()) ==> r == Err(NotConnected) && outbox == old(outbox) && responses == old(responses)
      ensures old(Ready()) ==> outbox == old(outbox) + [CommandMessage(OpCode.List, Some([dirpath]))]
      ensures old(Ready()) && Arrives(0, waitsBeforeCancel, old(responses)) ==>
        responses == old(responses)[1..] && ListedAs(old(responses)[0], r)
      ensures old(Ready()) && !Arrives(0, waitsBeforeCancel, old(responses)) ==>
        responses == old(responses) && r == Ok(None)
    {
      var guard := CheckConnection();
      if guard.Err? {
        return Err(guard.error);
      }
      locked := true;
      SendCommand(OpCode.List, Some([dirpath]));
      var got, reply := ReceiveResponse(0, waitsBeforeCancel);
      if !got {
        r := Ok(None);
      } else if reply.NullReply? || reply.results.None? {
        r := Err(NullReference);
      } else {
        var split := SplitPairsOf(reply.results.value);
        r := split;
      }
      locked := false;
    }

    method SplitPairsOf(results: seq<string>) returns (r: Result<Option<(seq<string>, seq<string>)>>)
      ensures ListedAs(Router.Reply(Some(results)), r)
    {
      var split := Listing.SplitPairs(results);
      r := if split.Ok? then Ok(Some(split.value)) else Err(split.error);
    }

    method Remove(filepath: string) returns (r: Result<()>)
      requires Valid()
      modifies this`outbox, this`locked
      ensures Valid() && r == (if old(Ready()) then Ok(()) else Err(NotConnected))
      ensures outbox == old(outbox) + (if old(Ready()) then [CommandMessage(OpCode.Remove, Some([filepath]))] else [])
    {
      r := SendOnly(OpCode.Remove, Some([filepath]));
    }

    method Rename(filepath: string, newfilename: string) returns (r: Result<()>)
      requires Valid()
      modifies this`outbox, this`locked
      ensures Valid() && r == (if old(Ready()) then Ok(()) else Err(NotConnected))
      ensures outbox == old(outbox) +
        (if old(Ready()) then [CommandMessage(OpCode.Rename, Some([filepath, newfilename]))] else [])
    {
      r := SendOnly(OpCode.Rename, Some([filepath, newfilename]));
    }

    method MakeDir(filepath: string) returns (r: Result<()>)
      requires Valid()
      modifies this`outbox, this`locked
      ensures Valid() && r == (if old(Ready()) then Ok(()) else Err(NotConnected))
      ensures outbox == old(outbox) + (if old(Ready()) then [CommandMessage(OpCode.MakeDir, Some([filepath]))] else [])
    {
      r := SendOnly(OpCode.MakeDir, Some([filepath]));
    }

    // ---- the frame router ----

    /** ResponseReceived: a binary message goes to the data queue, a text message that parses to
        the response queue, and one that does not parse is dropped. */
    method ResponseReceived(message: seq<Utf8.byte>, isBinary: bool, parse: seq<Utf8.byte> -> Option<Router.Reply>)
      modifies this`responses, this`data
      ensures Router.Queues(responses, data)
              == Router.Dispatch(Router.Queues(old(responses), old(data)), isBinary, message, parse)
    {
      if isBinary {
        data := data + [message];
      } else {
        var parsed := parse(message);
        if parsed.Some? {
          responses := responses + [parsed.value];
        }
      }
    }

    /** ReceiveLoop over the frames the socket delivers, assembling fragmented messages; it stops
        at a close frame, after which the socket is no longer open, or when the frames run out. */
    method ReceiveLoop(inbox: seq<Router.Frame>, parse: seq<Utf8.byte> -> Option<Router.Reply>) returns (closed: bool)
      requires Valid()
      modifies this`responses, this`data, this`ws
      ensures Valid()
      ensures Router.Queues(responses, data)
              == Router.Run(Router.Start(Router.Queues(old(responses), old(data))), inbox, parse).queues
      ensures closed == Router.Run(Router.Start(Router.Queues(old(responses), old(data))), inbox, parse).stopped
      ensures Conn() == if closed then PeerCloseStep(old(Conn())) else old(Conn())
    {
      ghost var start := Router.Start(Router.Queues(responses, data));
      var pending: seq<Utf8.byte> := [];
      closed := false;
      var i := 0;
      while i < |inbox| && !closed
        invariant 0 <= i <= |inbox|
        invariant Router.Run(start, inbox[..i], parse) == Router.Loop(Router.Queues(responses, data), pending, closed)
        invariant ws == old(ws)
      {
        var f := inbox[i];
        assert inbox[..i + 1][..i] == inbox[..i];
        if f.kind == Router.Close {
          closed := true;
        } else if !f.endOfMessage {
          pending := pending + f.payload;
        } else {
          var message := pending + f.payload;
          pending := [];
          ResponseReceived(message, f.kind == Router.Binary, parse);
        }
        i := i + 1;
      }
      if closed {
        Router.RunAppend(start, inbox[..i], inbox[i..], parse);
        Router.RunStopped(Router.Run(start, inbox[..i], parse), inbox[i..], parse);
        assert inbox[..i] + inbox[i..] == inbox;
        if ws.Socket? {
          ws := Socket(false);
        }
      } else {
        assert inbox[..i] == inbox;
      }
    }
  }
}
