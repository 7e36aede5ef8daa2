/** The frame router of Usb2Snes (ReceiveLoop and ResponseReceived) as functions on the two
    queues: binary messages go to the data queue, text messages that parse go to the response
    queue, text that fails to parse is dropped, and a close frame stops the loop. */
module Router {
  import opened Wrappers
  import Utf8

  datatype MessageType = Text | Binary | Close

  /** One frame as ReceiveAsync reports it (or as SendAsync is given it). */
  datatype Frame = Frame(kind: MessageType, payload: seq<Utf8.byte>, endOfMessage: bool)

  /** A deserialized Response: null, or an object whose Results list may itself be null. */
  datatype Reply = NullReply | Reply(results: Option<seq<string>>)

  datatype Queues = Queues(responses: seq<Reply>, data: seq<seq<Utf8.byte>>)

  /** ResponseReceived: `parse` stands for Deserialize<Response>, None when it throws. */
  function Dispatch(q: Queues, isBinary: bool, message: seq<Utf8.byte>,
                    parse: seq<Utf8.byte> -> Option<Reply>): (r: Queues)
    ensures q.responses <= r.responses && q.data <= r.data
    ensures |r.responses| + |r.data| <= |q.responses| + |q.data| + 1
    ensures isBinary ==> r.responses == q.responses && r.data == q.data + [message]
    ensures !isBinary ==> r.data == q.data
  {
    if isBinary then q.(data := q.data + [message])
    else match parse(message)
      case None => q
      case Some(r) => q.(responses := q.responses + [r])
  }

  /** The loop's state: the queues, the bytes of the message being assembled, and whether a
      close frame has ended the loop. */
  datatype Loop = Loop(queues: Queues, pending: seq<Utf8.byte>, stopped: bool)

  /** One frame of the corrected loop: continuation fragments are accumulated and the complete
      message is dispatched when its final fragment arrives. */
  function Step(s: Loop, f: Frame, parse: seq<Utf8.byte> -> Option<Reply>): (r: Loop)
    ensures s.stopped ==> r == s
    ensures r.stopped <==> s.stopped || f.kind == Close
    ensures s.queues.responses <= r.queues.responses && s.queues.data <= r.queues.data
    ensures r.queues != s.queues ==> f.endOfMessage && f.kind != Close
  {
    if s.stopped then s
    else if f.kind == Close then s.(stopped := true)
    else if !f.endOfMessage then s.(pending := s.pending + f.payload)
    else Loop(Dispatch(s.queues, f.kind == Binary, s.pending + f.payload, parse), [], false)
  }

  function Run(s: Loop, inbox: seq<Frame>, parse: seq<Utf8.byte> -> Option<Reply>): (r: Loop)
    ensures s.queues.responses <= r.queues.responses && s.queues.data <= r.queues.data
    ensures s.stopped ==> r.stopped
    ensures |r.queues.responses| + |r.queues.data| <= |s.queues.responses| + |s.queues.data| + |inbox|
    decreases |inbox|
  {
    if inbox == [] then s
    else Step(Run(s, inbox[..|inbox| - 1], parse), inbox[|inbox| - 1], parse)
  }

  function Start(q: Queues): Loop {
    Loop(q, [], false)
  }

  // ---- the reference: complete frames, routed in arrival order until a close ----

  predicate Whole(inbox: seq<Frame>) {
    forall i :: 0 <= i < |inbox| ==> inbox[i].endOfMessage
  }

  function Payloads(inbox: seq<Frame>): seq<seq<Utf8.byte>> {
    if inbox == [] || inbox[0].kind == Close then []
    else (if inbox[0].kind == Binary then [inbox[0].payload] else []) + Payloads(inbox[1..])
  }

  function Replies(inbox: seq<Frame>, parse: seq<Utf8.byte> -> Option<Reply>): seq<Reply> {
    if inbox == [] || inbox[0].kind == Close then []
    else
      (if inbox[0].kind == Text && parse(inbox[0].payload).Some? then [parse(inbox[0].payload).value] else [])
      + Replies(inbox[1..], parse)
  }

  // ---- properties of the corrected loop ----

  lemma {:induction false} RunAppend(s: Loop, a: seq<Frame>, b: seq<Frame>, parse: seq<Utf8.byte> -> Option<Reply>)
    ensures Run(s, a + b, parse) == Run(Run(s, a, parse), b, parse)
    decreases |b|
  {
    if b == [] {
      assert a + b == a;
    } else {
      var ab := a + b;
      assert ab[..|ab| - 1] == a + b[..|b| - 1];
      assert ab[|ab| - 1] == b[|b| - 1];
      RunAppend(s, a, b[..|b| - 1], parse);
    }
  }

  lemma {:induction false} RunStopped(s: Loop, inbox: seq<Frame>, parse: seq<Utf8.byte> -> Option<Reply>)
    requires s.stopped
    ensures Run(s, inbox, parse) == s
    decreases |inbox|
  {
    if inbox != [] {
      RunStopped(s, inbox[..|inbox| - 1], parse);
    }
  }

  lemma RunCons(s: Loop, f: Frame, rest: seq<Frame>, parse: seq<Utf8.byte> -> Option<Reply>)
    ensures Run(s, [f] + rest, parse) == Run(Step(s, f, parse), rest, parse)
  {
    RunAppend(s, [f], rest, parse);
    assert [f][..0] == [];
  }

  /** For complete frames the queues grow by exactly the binary payloads and the parsed
      replies, each in arrival order; frames after a close are never dispatched. */
  lemma {:induction false} RouteWhole(q: Queues, inbox: seq<Frame>, parse: seq<Utf8.byte> -> Option<Reply>)
    requires Whole(inbox)
    ensures Run(Start(q), inbox, parse).queues
            == Queues(q.responses + Replies(inbox, parse), q.data + Payloads(inbox))
    decreases |inbox|, 1
  {
    if inbox != [] {
      var f := inbox[0];
      var rest := inbox[1..];
      assert inbox == [f] + rest;
      RunCons(Start(q), f, rest, parse);
      assert Whole(rest) by {
        forall i | 0 <= i < |rest| ensures rest[i].endOfMessage { assert rest[i] == inbox[i + 1]; }
      }
      if f.kind == Close {
        RunStopped(Step(Start(q), f, parse), rest, parse);
      } else {
        RouteWholeCons(q, f, rest, parse);
      }
    }
  }

  lemma {:induction false} RouteWholeCons(q: Queues, f: Frame, rest: seq<Frame>, parse: seq<Utf8.byte> -> Option<Reply>)
    requires f.endOfMessage && f.kind != Close && Whole(rest)
    ensures Run(Step(Start(q), f, parse), rest, parse).queues
            == Queues(q.responses + Replies([f] + rest, parse), q.data + Payloads([f] + rest))
    decreases |rest| + 1, 0
  {
    assert ([f] + rest)[0] == f && ([f] + rest)[1..] == rest;
    assert [] + f.payload == f.payload;
    var q' := Dispatch(q, f.kind == Binary, f.payload, parse);
    assert Step(Start(q), f, parse) == Start(q');
    RouteWhole(q', rest, parse);
    ReferenceCons(q, f, rest, parse);
  }

  /** The reference routing of `[f] + rest` is that of `rest` after dispatching `f`. */
  lemma ReferenceCons(q: Queues, f: Frame, rest: seq<Frame>, parse: seq<Utf8.byte> -> Option<Reply>)
    requires f.kind != Close
    ensures var q' := Dispatch(q, f.kind == Binary, f.payload, parse);
      Queues(q.responses + Replies([f] + rest, parse), q.data + Payloads([f] + rest))
      == Queues(q'.responses + Replies(rest, parse), q'.data + Payloads(rest))
  {
    var inbox := [f] + rest;
    assert inbox[0] == f && inbox[1..] == rest;
    if f.kind == Binary {
      assert Replies(inbox, parse) == Replies(rest, parse);
      assert Payloads(inbox) == [f.payload] + Payloads(rest);
      assert q.data + [f.payload] + Payloads(rest) == q.data + ([f.payload] + Payloads(rest));
    } else {
      assert Payloads(inbox) == Payloads(rest);
      if parse(f.payload).Some? {
        var r := parse(f.payload).value;
        assert Replies(inbox, parse) == [r] + Replies(rest, parse);
        assert q.responses + [r] + Replies(rest, parse) == q.responses + ([r] + Replies(rest, parse));
      } else {
        assert Replies(inbox, parse) == Replies(rest, parse);
      }
    }
  }

  /** A binary frame lands unchanged at the back of the data queue; a text frame that parses
      at the back of the response queue; one that does not parse changes nothing. */
  lemma DispatchOne(q: Queues, f: Frame, parse: seq<Utf8.byte> -> Option<Reply>)
    requires f.endOfMessage && f.kind != Close
    ensures f.kind == Binary ==> Run(Start(q), [f], parse).queues == q.(data := q.data + [f.payload])
    ensures f.kind == Text && parse(f.payload).None? ==> Run(Start(q), [f], parse).queues == q
    ensures f.kind == Text && parse(f.payload).Some? ==>
      Run(Start(q), [f], parse).queues == q.(responses := q.responses + [parse(f.payload).value])
  {
    assert [f][..0] == [];
    assert [] + f.payload == f.payload;
  }

  /** Nothing after a close frame is dispatched. */
  lemma CloseStops(q: Queues, before: seq<Frame>, after: seq<Frame>, parse: seq<Utf8.byte> -> Option<Reply>)
    requires !Run(Start(q), before, parse).stopped
    ensures Run(Start(q), before + [Frame(Close, [], true)] + after, parse).queues
            == Run(Start(q), before, parse).queues
    ensures Run(Start(q), before + [Frame(Close, [], true)] + after, parse).stopped
  {
    var c := [Frame(Close, [], true)];
    RunAppend(Start(q), before + c, after, parse);
    RunAppend(Start(q), before, c, parse);
    assert c[..0] == [];
    RunStopped(Run(Start(q), before + c, parse), after, parse);
  }

  function Flatten(parts: seq<seq<Utf8.byte>>): seq<Utf8.byte> {
    if parts == [] then [] else parts[0] + Flatten(parts[1..])
  }

  /** A message sent as `parts` followed by a final fragment `last`. */
  function Fragmented(kind: MessageType, parts: seq<seq<Utf8.byte>>, last: seq<Utf8.byte>): seq<Frame> {
    Continuations(kind, parts) + [Frame(kind, last, true)]
  }

  function Continuations(kind: MessageType, parts: seq<seq<Utf8.byte>>): seq<Frame> {
    if parts == [] then [] else [Frame(kind, parts[0], false)] + Continuations(kind, parts[1..])
  }

  lemma {:induction false} RunContinuations(s: Loop, kind: MessageType, parts: seq<seq<Utf8.byte>>,
                                            parse: seq<Utf8.byte> -> Option<Reply>)
    requires kind != Close && !s.stopped
    ensures Run(s, Continuations(kind, parts), parse) == s.(pending := s.pending + Flatten(parts))
    decreases |parts|
  {
    if parts == [] {
      assert s.pending + [] == s.pending;
    } else {
      RunCons(s, Frame(kind, parts[0], false), Continuations(kind, parts[1..]), parse);
      var s' := s.(pending := s.pending + parts[0]);
      RunContinuations(s', kind, parts[1..], parse);
      assert s.pending + parts[0] + Flatten(parts[1..]) == s.pending + (parts[0] + Flatten(parts[1..]));
    }
  }

  /** A message delivered in several fragments is routed exactly as the same bytes delivered in
      one final frame. */
  lemma Reassembly(q: Queues, kind: MessageType, parts: seq<seq<Utf8.byte>>, last: seq<Utf8.byte>,
                   parse: seq<Utf8.byte> -> Option<Reply>)
    requires kind != Close
    ensures Run(Start(q), Fragmented(kind, parts, last), parse)
            == Run(Start(q), [Frame(kind, Flatten(parts) + last, true)], parse)
  {
    RunAppend(Start(q), Continuations(kind, parts), [Frame(kind, last, true)], parse);
    RunContinuations(Start(q), kind, parts, parse);
    assert [] + Flatten(parts) == Flatten(parts);
    assert [Frame(kind, last, true)][..0] == [];
    assert [Frame(kind, Flatten(parts) + last, true)][..0] == [];
    assert [] + (Flatten(parts) + last) == Flatten(parts) + last;
  }

  // ---- the loop as written ----

  datatype LoopEnd = Drained | PeerClosed | Stalled

  /** ReceiveLoop as written: the inner `while (!rcvResult.EndOfMessage)` never calls
      ReceiveAsync again, so at a non-final fragment the loop stalls and never routes another
      frame. It spins re-writing the same bytes; for a non-empty fragment the MemoryStream
      outgrows its int length after about 2 GiB and the receive loop dies with an exception that the
      `catch (TaskCanceledException)` does not catch. Only an empty fragment spins for ever. */
  function RunAsWritten(q: Queues, inbox: seq<Frame>, parse: seq<Utf8.byte> -> Option<Reply>): (r: (Queues, LoopEnd))
    ensures q.responses <= r.0.responses && q.data <= r.0.data
    ensures r.1 == Drained ==> Whole(inbox)
    decreases |inbox|
  {
    if inbox == [] then (q, Drained)
    else
      var f := inbox[0];
      if !f.endOfMessage then (q, Stalled)
      else if f.kind == Close then (q, PeerClosed)
      else RunAsWritten(Dispatch(q, f.kind == Binary, f.payload, parse), inbox[1..], parse)
  }

  /** On complete frames the loop as written and the corrected loop route identically. */
  lemma AsWrittenWhole(q: Queues, inbox: seq<Frame>, parse: seq<Utf8.byte> -> Option<Reply>)
    requires Whole(inbox)
    ensures RunAsWritten(q, inbox, parse).1 != Stalled
    ensures RunAsWritten(q, inbox, parse).0 == Run(Start(q), inbox, parse).queues
  {
    AsWrittenReference(q, inbox, parse);
    RouteWhole(q, inbox, parse);
  }

  lemma {:induction false} AsWrittenReference(q: Queues, inbox: seq<Frame>, parse: seq<Utf8.byte> -> Option<Reply>)
    requires Whole(inbox)
    ensures RunAsWritten(q, inbox, parse).1 != Stalled
    ensures RunAsWritten(q, inbox, parse).0 == Queues(q.responses + Replies(inbox, parse), q.data + Payloads(inbox))
    decreases |inbox|
  {
    if inbox == [] || inbox[0].kind == Close {
      assert q.responses + [] == q.responses && q.data + [] == q.data;
    } else {
      var f := inbox[0];
      var rest := inbox[1..];
      assert f.endOfMessage;
      assert Whole(rest) by {
        forall i | 0 <= i < |rest| ensures rest[i].endOfMessage { assert rest[i] == inbox[i + 1]; }
      }
      var q' := Dispatch(q, f.kind == Binary, f.payload, parse);
      AsWrittenReference(q', rest, parse);
      assert inbox == [f] + rest;
      ReferenceCons(q, f, rest, parse);
    }
  }

  /** The discrepancy: a binary reply split in two fragments (as any payload beyond the 8192-byte
      receive buffer is) stalls the loop as written, so neither it nor any later frame is
      routed, while the corrected loop delivers the whole payload. */
  lemma FragmentedReplyStalls(q: Queues, first: seq<Utf8.byte>, second: seq<Utf8.byte>,
                             parse: seq<Utf8.byte> -> Option<Reply>)
    ensures RunAsWritten(q, Fragmented(Binary, [first], second), parse) == (q, Stalled)
    ensures Run(Start(q), Fragmented(Binary, [first], second), parse).queues
            == q.(data := q.data + [first + second])
  {
    assert Continuations(Binary, [first]) == [Frame(Binary, first, false)] by {
      assert [first][1..] == [];
    }
    assert Flatten([first]) == first by {
      assert [first][1..] == [];
      assert first + [] == first;
    }
    Reassembly(q, Binary, [first], second, parse);
    DispatchOne(q, Frame(Binary, first + second, true), parse);
  }
}
