/** The connection manager of Usb2Snes as pure transitions on its three connection fields:
    State, the web socket (_ws: absent, or present and open or not) and the cancellation token
    source (_cts: present or disposed and nulled). The class in client.dfy is specified by them. */
module Connection {
  import opened Wrappers

  datatype State = Disconnected | Connecting | Connected | Attached

  datatype Socket = NoSocket | Socket(open: bool)

  datatype Link = Link(state: State, ws: Socket, hasCts: bool)

  /** How the environment answers ConnectAsync: the handshake succeeds, or it fails. A
      ClientWebSocket whose ConnectAsync fails disposes itself, so any later CloseAsync on it
      throws. */
  datatype Attempt = Accepted | Refused

  /** The fresh client of the one-argument constructor. */
  const Initial: Link := Link(Disconnected, NoSocket, true)

  /** The CheckConnection guard: every command needs State == SNES_CONNECTED and an open socket. */
  predicate Ready(l: Link) {
    l.state == Connected && l.ws == Socket(true)
  }

  /** "ws://localhost:" + Port is a valid address exactly for ports 0 to 65535. */
  predicate ValidPort(port: int) {
    0 <= port <= 65535
  }

  /** Connect exactly as written. */
  function ConnectStep(l: Link, port: int, attempt: Attempt): (r: (Link, Result<()>))
    ensures Ready(r.0) <==> Ready(l) || (l.ws != Socket(true) && ValidPort(port) && l.hasCts && attempt == Accepted)
    ensures r.0.hasCts == l.hasCts
  {
    if l.ws == Socket(true) then (l, Ok(()))
    else
      // a socket that is not open is disposed; a new, unopened one takes its place
      var l1 := l.(ws := Socket(false));
      if !ValidPort(port) then (l1, Err(InvalidUri))
      else
        var l2 := l1.(state := Connecting);
        if !l2.hasCts then
          // ConnectAsync(uri, _cts.Token) and the CloseAsync(.., _cts.Token) of the handler
          // both dereference the nulled token source
          (l2, Err(NullReference))
        else match attempt
          case Accepted => (l2.(ws := Socket(true), state := Connected), Ok(()))
          // the handler's CloseAsync on the disposed socket throws out of the catch, so
          // lines 80-81 never run: State stays SNES_CONNECTING and the dead socket stays
          case Refused => (l2, Err(CloseFailed))
  }

  /** Connect with both corrections: a disposed token source is first replaced by a fresh one,
      and a refused handshake reverts to SNES_DISCONNECTED with no socket, as lines 80-81
      intend, instead of closing the socket ConnectAsync has already disposed. */
  function ConnectStepFixed(l: Link, port: int, attempt: Attempt): (r: (Link, Result<()>))
    ensures Ready(r.0) <==> Ready(l) || (l.ws != Socket(true) && ValidPort(port) && attempt == Accepted)
    ensures r.0.hasCts
    ensures Reachable(l) ==> Reachable(r.0)
  {
    var r := ConnectStep(l.(hasCts := true), port, attempt);
    if r.1 == Err(CloseFailed) then (Link(Disconnected, NoSocket, true), Ok(())) else r
  }

  /** Disconnect: a no-op without a socket; otherwise it closes an open socket (sending a close
      frame), disposes and nulls the socket, then disposes and nulls the token source. State is
      left as it was. */
  function DisconnectStep(l: Link): (r: (Link, Result<()>))
    ensures r.0.state == l.state
    ensures r.1.Ok? ==> r.0.ws == NoSocket && (l.ws != NoSocket ==> !r.0.hasCts)
    ensures r.1.Err? ==> r.1.error == NullReference && !l.hasCts
    ensures Reachable(l) ==> Reachable(r.0)
  {
    if l.ws == NoSocket then (l, Ok(()))
    else if l.ws.open && !l.hasCts then (l, Err(NullReference))  // _cts.CancelAfter on null
    else
      var l1 := l.(ws := NoSocket);
      if !l.hasCts then (l1, Err(NullReference))                   // _cts.Dispose on null
      else (l1.(hasCts := false), Ok(()))
  }

  /** Whether Disconnect sends a close frame (CloseOutputAsync) before tearing down. */
  predicate DisconnectSendsClose(l: Link) {
    l.ws == Socket(true) && l.hasCts
  }

  /** Attach leaves State at SNES_CONNECTED; it never becomes SNES_ATTACHED. */
  function AttachStep(l: Link): (r: Link)
    ensures r.state != Attached || r == l
    ensures Ready(r) <==> Ready(l)
    ensures r.ws == l.ws && r.hasCts == l.hasCts
  {
    if Ready(l) then l.(state := Connected) else l
  }

  /** The receive loop reading a close frame: the socket is no longer open. */
  function PeerCloseStep(l: Link): (r: Link)
    ensures !Ready(r) && r.state == l.state && r.hasCts == l.hasCts
    ensures r.ws == NoSocket <==> l.ws == NoSocket
    ensures Reachable(l) ==> Reachable(r)
  {
    if l.ws.Socket? then l.(ws := Socket(false)) else l
  }

  // ---- single-step properties ----

  lemma ConnectWhenOpen(l: Link, port: int, attempt: Attempt)
    requires l.ws == Socket(true)
    ensures ConnectStep(l, port, attempt) == (l, Ok(()))
    ensures ConnectStepFixed(l, port, attempt).0 == l.(hasCts := true)
  {
  }

  /** As written, with a valid port and a live token source: an accepted handshake passes the
      guard; a refused one throws from the cleanup and leaves State at SNES_CONNECTING with the
      dead socket still in place. */
  lemma ConnectOutcomes(l: Link, port: int, attempt: Attempt)
    requires l.ws != Socket(true) && ValidPort(port) && l.hasCts
    ensures attempt == Accepted ==> ConnectStep(l, port, attempt) == (Link(Connected, Socket(true), true), Ok(()))
    ensures attempt == Refused ==>
      ConnectStep(l, port, attempt) == (Link(Connecting, Socket(false), true), Err(CloseFailed))
    ensures attempt == Refused ==> !Ready(ConnectStep(l, port, attempt).0)
  {
  }

  /** Corrected: a refused handshake on a valid port always ends disconnected, with no socket, a
      live token source and no exception, whatever the client held before. */
  lemma RefusedConnectFixed(l: Link, port: int)
    requires l.ws != Socket(true) && ValidPort(port)
    ensures ConnectStepFixed(l, port, Refused) == (Link(Disconnected, NoSocket, true), Ok(()))
  {
  }

  /** As written, no refused handshake ever reaches SNES_DISCONNECTED: whatever the client held,
      a refused Connect that gets past the address either fails with the cleanup's exception or,
      without a token source, with NullReferenceException, and it never reverts. */
  lemma RefusedConnectNeverReverts(l: Link, port: int)
    requires l.ws != Socket(true) && ValidPort(port)
    ensures ConnectStep(l, port, Refused).0.state == Connecting
    ensures ConnectStep(l, port, Refused).0.ws == Socket(false)
    ensures ConnectStep(l, port, Refused).1 == if l.hasCts then Err(CloseFailed) else Err(NullReference)
  {
  }

  lemma DisconnectDisables(l: Link)
    ensures l.ws == NoSocket ==> DisconnectStep(l) == (l, Ok(()))
    ensures l.ws != Socket(true) || l.hasCts ==> !Ready(DisconnectStep(l).0)
    ensures DisconnectStep(l).0.state == l.state
  {
  }

  // ---- runs of events ----

  datatype Event =
    | ConnectEvent(port: int, attempt: Attempt)
    | DisconnectEvent
    | AttachEvent
    | PeerCloseEvent

  function Apply(l: Link, e: Event, fixed: bool): Link {
    match e
    case ConnectEvent(port, attempt) =>
      if fixed then ConnectStepFixed(l, port, attempt).0 else ConnectStep(l, port, attempt).0
    case DisconnectEvent => DisconnectStep(l).0
    case AttachEvent => AttachStep(l)
    case PeerCloseEvent => PeerCloseStep(l)
  }

  function Run(l: Link, events: seq<Event>, fixed: bool): Link
    decreases |events|
  {
    if events == [] then l else Run(Apply(l, events[0], fixed), events[1..], fixed)
  }

  /** What holds of every link reachable from Initial, with either Connect. */
  predicate Reachable(l: Link) {
    && l.state != Attached
    && (l.ws == Socket(true) ==> l.state == Connected && l.hasCts)
  }

  /** No sequence of operations ever reaches SNES_ATTACHED, and an open socket always comes
      with State == SNES_CONNECTED and a live token source. */
  lemma {:induction false} RunReachable(l: Link, events: seq<Event>, fixed: bool)
    requires Reachable(l)
    ensures Reachable(Run(l, events, fixed))
    decreases |events|
  {
    if events != [] {
      RunReachable(Apply(l, events[0], fixed), events[1..], fixed);
    }
  }

  lemma NeverAttached(events: seq<Event>, fixed: bool)
    ensures Run(Initial, events, fixed).state != Attached
  {
    RunReachable(Initial, events, fixed);
  }

  /** As written: once Disconnect has nulled the token source, no later event brings it back
      and the connection guard never passes again. */
  lemma {:induction false} TokenLossIsPermanent(l: Link, events: seq<Event>)
    requires !l.hasCts && l.ws != Socket(true)
    ensures !Run(l, events, false).hasCts && !Ready(Run(l, events, false))
    decreases |events|
  {
    if events != [] {
      TokenLossIsPermanent(Apply(l, events[0], false), events[1..]);
    }
  }

  /** As written: connect, disconnect, and no further run of events ever passes the guard. */
  lemma NoReconnectAfterDisconnect(port: int, later: seq<Event>)
    requires ValidPort(port)
    ensures Ready(Run(Initial, [ConnectEvent(port, Accepted)], false))
    ensures !Ready(Run(Initial, [ConnectEvent(port, Accepted), DisconnectEvent] + later, false))
  {
    var evs := [ConnectEvent(port, Accepted), DisconnectEvent];
    var l := Run(Initial, evs, false);
    var l1 := Apply(Initial, evs[0], false);
    assert l1 == Link(Connected, Socket(true), true);
    assert evs[1..] == [DisconnectEvent] && [DisconnectEvent][1..] == [];
    assert l == Run(l1, [DisconnectEvent], false);
    assert Run(l1, [DisconnectEvent], false) == Run(Apply(l1, DisconnectEvent, false), [], false);
    assert l == Link(Connected, NoSocket, false);
    RunAppend(Initial, [ConnectEvent(port, Accepted), DisconnectEvent], later, false);
    TokenLossIsPermanent(l, later);
  }

  lemma {:induction false} RunAppend(l: Link, a: seq<Event>, b: seq<Event>, fixed: bool)
    ensures Run(l, a + b, fixed) == Run(Run(l, a, fixed), b, fixed)
    decreases |a|
  {
    if a == [] {
      assert a + b == b;
    } else {
      assert (a + b)[0] == a[0] && (a + b)[1..] == a[1..] + b;
      RunAppend(Apply(l, a[0], fixed), a[1..], b, fixed);
    }
  }

  /** Corrected: whatever happened before, a successful connection attempt to a valid port
      passes the guard afterwards. */
  lemma ReconnectFixed(events: seq<Event>, port: int)
    requires ValidPort(port)
    ensures Ready(Run(Initial, events + [ConnectEvent(port, Accepted)], true))
  {
    RunReachable(Initial, events, true);
    RunAppend(Initial, events, [ConnectEvent(port, Accepted)], true);
  }
}
