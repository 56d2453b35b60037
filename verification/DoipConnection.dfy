/**
  A DoIP connection, as the three nodes serve it: routing activation, and diagnostic
  messages for the dispatcher.

  The nodes agree on what they answer and differ in what they do when they cannot.
 */
module DoipConnection {

  import opened Bytes
  import opened Wrappers
  import opened DoipFraming
  import opened DoipSender
  import OtaSession
  import Uds

  const ROUTING_ACTIVATION_REQ: bv16 := 0x0005
  const ROUTING_ACTIVATION_RESP: bv16 := 0x0006
  const DIAGNOSTIC_MESSAGE: bv16 := 0x8001
  const DIAGNOSTIC_MESSAGE_ACK: bv16 := 0x8002

  const NODE_ADDRESS: bytes := [0x0E, 0x01]
  const ROUTING_ACTIVATED: byte := 0x10
  const ACK_POSITIVE: byte := 0x00

  /** A connection, and the state `S` of the request handler behind it. */
  datatype Conn<S> = Conn(server: S, routing: bool, open: bool, out: Out)

  function RoutingResponse(payload: bytes): Frame
    requires |payload| >= 2
  {
    Frame(ROUTING_ACTIVATION_RESP, payload[..2] + NODE_ADDRESS + [ROUTING_ACTIVATED, 0, 0, 0, 0])
  }

  function Ack(source: bytes): Frame {
    Frame(DIAGNOSTIC_MESSAGE_ACK, NODE_ADDRESS + source + [ACK_POSITIVE])
  }

  function Response(source: bytes, uds: bytes): Frame {
    Frame(DIAGNOSTIC_MESSAGE, NODE_ADDRESS + source + uds)
  }

  /** The longest UDS response that a node sends. */
  predicate ResponseFits(node: NodeKind, uds: bytes) {
    match node
    case Linux => |uds| + 4 < 0x1_0000_0000
    case Zephyr => |uds| <= 516
    case BareMetal => |uds| <= 508
  }

  /** The bare-metal node keeps its routing flag beyond the connection, and lowers it here. */
  function Closed<S>(node: NodeKind, c: Conn<S>): Conn<S> {
    c.(open := false, routing := c.routing && node != BareMetal)
  }

  /** A short request closes the connection, except on the Zephyr node. */
  function Activated<S>(node: NodeKind, c: Conn<S>, payload: bytes): Conn<S> {
    if |payload| < 7 then (if node == Zephyr then c else Closed(node, c))
    else
      var (out, ok) := SendFrame(node, c.out, RoutingResponse(payload));
      if ok then c.(routing := true, out := out) else Closed(node, c.(out := out))
  }

  /** A diagnostic message that is too short, or for another node, is dropped. */
  predicate Addressed(payload: bytes) {
    |payload| >= 5 && payload[2..4] == NODE_ADDRESS
  }

  /** The embedded nodes close when a send fails; the Linux node goes on. */
  function AfterSend<S>(node: NodeKind, c: Conn<S>, sent: (Out, bool)): Conn<S> {
    if sent.1 || node == Linux then c.(out := sent.0) else Closed(node, c.(out := sent.0))
  }

  function Answered<S>(node: NodeKind, c: Conn<S>, source: bytes, resp: bytes): Conn<S> {
    if node != Linux && !ResponseFits(node, resp) then (if node == BareMetal then c else Closed(node, c))
    else AfterSend(node, c, SendFrame(node, c.out, Response(source, resp)))
  }

  function Diagnosed<S>(node: NodeKind, c: Conn<S>, payload: bytes, handle: (S, bytes) -> (S, bytes)): Conn<S> {
    if !Addressed(payload) then c
    else
      var source := payload[..2];
      var acked := SendFrame(node, c.out, Ack(source));
      if !acked.1 then AfterSend(node, c, acked)
      else
        var (server, resp) := handle(c.server, payload[4..]);
        Answered(node, c.(server := server, out := acked.0), source, resp)
  }

  function Handled<S>(node: NodeKind, c: Conn<S>, f: Frame, handle: (S, bytes) -> (S, bytes)): Conn<S> {
    if f.kind == ROUTING_ACTIVATION_REQ then Activated(node, c, f.payload)
    else if f.kind == DIAGNOSTIC_MESSAGE && c.routing then Diagnosed(node, c, f.payload, handle)
    else c
  }

  function HandledAll<S>(node: NodeKind, c: Conn<S>, frames: seq<Frame>, handle: (S, bytes) -> (S, bytes)): Conn<S>
    decreases |frames|
  {
    if frames == [] || !c.open then c else HandledAll(node, Handled(node, c, frames[0], handle), frames[1..], handle)
  }

  lemma {:induction false} HandledAllConcat<S>(node: NodeKind, c: Conn<S>, a: seq<Frame>, b: seq<Frame>,
      handle: (S, bytes) -> (S, bytes))
    ensures HandledAll(node, c, a + b, handle) == HandledAll(node, HandledAll(node, c, a, handle), b, handle)
    decreases |a|
  {
    hide Handled;
    if a == [] {
      assert a + b == b;
    } else if c.open {
      assert (a + b)[1..] == a[1..] + b;
      HandledAllConcat(node, Handled(node, c, a[0], handle), a[1..], b, handle);
    }
  }

  lemma ShortMessageDropped<S>(node: NodeKind, c: Conn<S>, payload: bytes, handle: (S, bytes) -> (S, bytes))
    requires |payload| < 5
    ensures Diagnosed(node, c, payload, handle) == c
  {
  }

  // ---------------------------------------------------------------------------------
  // The dispatcher behind it
  // ---------------------------------------------------------------------------------

  /** The diagnostic dispatcher, with the answers of the file system to its next requests. */
  datatype Station = Station(node: Uds.Node, ios: seq<OtaSession.Io>)

  function NextIo(ios: seq<OtaSession.Io>): OtaSession.Io {
    if ios == [] then OtaSession.ALL_OK else ios[0]
  }

  function RestIo(ios: seq<OtaSession.Io>): seq<OtaSession.Io> {
    if ios == [] then [] else ios[1..]
  }

  /** A node has at most five faults; the function also answers for impossible ones. */
  function Dispatch(ecuId: bytes, st: Station, req: bytes): (Station, bytes) {
    if |st.node.lamps.faults| >= 256 then (st, [])
    else
      var (node, resp) := Uds.Respond(st.node, ecuId, OtaSession.Step(req, NextIo(st.ios)));
      (Station(node, RestIo(st.ios)), resp)
  }

  function Dispatcher(ecuId: bytes): (Station, bytes) -> (Station, bytes) {
    (st: Station, req: bytes) => Dispatch(ecuId, st, req)
  }

  function Max(node: NodeKind): nat {
    if node == Linux then LINUX_MAX_PAYLOAD else EMBEDDED_MAX_PAYLOAD
  }

  // ---------------------------------------------------------------------------------
  // The connection loops
  // ---------------------------------------------------------------------------------

  class DoipServer {
    const handler: Uds.UdsRequestHandler

    constructor (handler: Uds.UdsRequestHandler)
      ensures this.handler == handler
    {
      this.handler := handler;
    }

    ghost predicate Valid()
      reads handler.functionManager, handler.functionManager.Repr, handler.otaSessionManager,
            handler.otaSessionManager.disk
    {
      handler.Valid()
    }

    ghost function View(ios: seq<OtaSession.Io>, routing: bool, open: bool, out: Out): Conn<Station>
      reads handler.functionManager, handler.otaSessionManager, handler.otaSessionManager.disk
    {
      Conn(Station(handler.View(), ios), routing, open, out)
    }

    /** One connection of the Linux node; `ios` are the answers of the file system. */
    method HandleConnection(socket: Socket, out: Sender, ios: seq<OtaSession.Io>)
      requires Valid()
      modifies socket, out, handler.functionManager.Repr, handler.otaSessionManager, handler.otaSessionManager.disk
      ensures Valid()
      ensures var frames := Drain(old(socket.Stream()), LINUX_MAX_PAYLOAD).frames;
              var end := HandledAll(Linux, old(View(ios, false, true, out.View())), frames, Dispatcher(handler.ecuId));
              handler.View() == end.server.node && out.View() == end.out
    {
      hide Parse, Drain, Flatten, Handled, Dispatch, Dispatcher, Uds.Respond, SendFrame;
      var routingActivated, left := false, ios;
      ghost var frames := Drain(socket.Stream(), LINUX_MAX_PAYLOAD).frames;
      ghost var h := Dispatcher(handler.ecuId);
      ghost var start := View(ios, false, true, out.View());
      while true
        invariant Valid()
        invariant HandledAll(Linux, start, frames, h)
               == HandledAll(Linux, View(left, routingActivated, true, out.View()),
                             Drain(socket.Stream(), LINUX_MAX_PAYLOAD).frames, h)
        decreases |socket.Stream()|
      {
        DrainStep(socket.Stream(), LINUX_MAX_PAYLOAD);
        var frame := ReadFrame(socket, LINUX_MAX_PAYLOAD);
        if frame.None? {
          return;
        }
        var open;
        open, routingActivated, left := HandleFrame(frame.value, out, routingActivated, left);
        if !open {
          return;
        }
      }
    }

    /** The switch on the payload type. */
    method HandleFrame(f: Frame, out: Sender, routing: bool, ios: seq<OtaSession.Io>)
      returns (open: bool, routing': bool, ios': seq<OtaSession.Io>)
      requires Valid()
      modifies out, handler.functionManager.Repr, handler.otaSessionManager, handler.otaSessionManager.disk
      ensures Valid()
      ensures View(ios', routing', open, out.View())
           == Handled(Linux, old(View(ios, routing, true, out.View())), f, Dispatcher(handler.ecuId))
    {
      hide Diagnosed, Activated;
      open, routing', ios' := true, routing, ios;
      if f.kind == ROUTING_ACTIVATION_REQ {
        open, routing' := HandleRoutingActivation(f.payload, out, routing, ios);
      } else if f.kind == DIAGNOSTIC_MESSAGE {
        if routing {
          ios' := HandleDiagnosticMessage(f.payload, out, ios);
        }
      }
    }

    method HandleRoutingActivation(payload: bytes, out: Sender, routing: bool, ghost ios: seq<OtaSession.Io>)
      returns (open: bool, routing': bool)
      requires Valid()
      modifies out
      ensures Valid()
      ensures View(ios, routing', open, out.View())
           == Activated(Linux, old(View(ios, routing, true, out.View())), payload)
    {
      hide BuildFrame, Push;
      if |payload| < 7 {
        return false, routing;
      }
      open := out.SendAll(BuildFrame(RoutingResponse(payload)));
      routing' := routing || open;
    }

    method HandleDiagnosticMessage(payload: bytes, out: Sender, ios: seq<OtaSession.Io>)
      returns (ios': seq<OtaSession.Io>)
      requires Valid()
      modifies out, handler.functionManager.Repr, handler.otaSessionManager, handler.otaSessionManager.disk
      ensures Valid()
      ensures View(ios', true, true, out.View())
           == Diagnosed(Linux, old(View(ios, true, true, out.View())), payload, Dispatcher(handler.ecuId))
    {
      hide BuildFrame, Push, Uds.Respond, Ack, Response;
      ios' := ios;
      if |payload| < 5 {
        return;
      }
      var source := payload[..2];
      if payload[2..4] != NODE_ADDRESS {
        return;
      }
      var ok := out.SendAll(BuildFrame(Ack(source)));
      if !ok {
        return;
      }
      var response := handler.HandleRequest(payload[4..], NextIo(ios));
      ios' := RestIo(ios);
      var _ := out.SendAll(BuildFrame(Response(source, response)));
    }

    // The Zephyr node.

    /** One connection of the Zephyr node. */
    method HandleDoipConnection(socket: Socket, out: Sender, ios: seq<OtaSession.Io>)
      requires Valid()
      modifies socket, out, handler.functionManager.Repr, handler.otaSessionManager, handler.otaSessionManager.disk
      ensures Valid()
      ensures var frames := Drain(old(socket.Stream()), EMBEDDED_MAX_PAYLOAD).frames;
              var end := HandledAll(Zephyr, old(View(ios, false, true, out.View())), frames, Dispatcher(handler.ecuId));
              handler.View() == end.server.node && out.View() == end.out
    {
      hide Parse, Drain, Flatten, Handled, Dispatch, Dispatcher, Uds.Respond, SendFrame;
      var routingActive, left := false, ios;
      ghost var frames := Drain(socket.Stream(), EMBEDDED_MAX_PAYLOAD).frames;
      ghost var h := Dispatcher(handler.ecuId);
      ghost var start := View(ios, false, true, out.View());
      while true
        invariant Valid()
        invariant HandledAll(Zephyr, start, frames, h)
               == HandledAll(Zephyr, View(left, routingActive, true, out.View()),
                             Drain(socket.Stream(), EMBEDDED_MAX_PAYLOAD).frames, h)
        decreases |socket.Stream()|
      {
        DrainStep(socket.Stream(), EMBEDDED_MAX_PAYLOAD);
        var frame := ReadFrame(socket, EMBEDDED_MAX_PAYLOAD);
        if frame.None? {
          return;
        }
        var open;
        open, routingActive, left := HandleDoipFrame(frame.value, out, routingActive, left);
        if !open {
          return;
        }
      }
    }

    /** The body of that loop. */
    method HandleDoipFrame(f: Frame, out: Sender, routing: bool, ios: seq<OtaSession.Io>)
      returns (open: bool, routing': bool, ios': seq<OtaSession.Io>)
      requires Valid()
      modifies out, handler.functionManager.Repr, handler.otaSessionManager, handler.otaSessionManager.disk
      ensures Valid()
      ensures View(ios', routing', open, out.View())
           == Handled(Zephyr, old(View(ios, routing, true, out.View())), f, Dispatcher(handler.ecuId))
    {
      hide Diagnosed, SendPieces, RoutingResponse;
      open, routing', ios' := true, routing, ios;
      if f.kind == ROUTING_ACTIVATION_REQ && |f.payload| >= 7 {
        open := out.SendDoipFrame(RoutingResponse(f.payload));
        routing' := routing || open;
      } else if f.kind == DIAGNOSTIC_MESSAGE && routing && |f.payload| >= 5 {
        open, ios' := HandleDoipMessage(f.payload, out, ios);
      } else if f.kind == DIAGNOSTIC_MESSAGE && routing {
        ShortMessageDropped(Zephyr, View(ios, routing, true, out.View()), f.payload, Dispatcher(handler.ecuId));
      }
    }

    method HandleDoipMessage(payload: bytes, out: Sender, ios: seq<OtaSession.Io>)
      returns (open: bool, ios': seq<OtaSession.Io>)
      requires Valid() && |payload| >= 5
      modifies out, handler.functionManager.Repr, handler.otaSessionManager, handler.otaSessionManager.disk
      ensures Valid()
      ensures View(ios', true, open, out.View())
           == Diagnosed(Zephyr, old(View(ios, true, true, out.View())), payload, Dispatcher(handler.ecuId))
    {
      hide SendPieces, Uds.Respond, Ack, Response;
      ios' := ios;
      var source := payload[..2];
      if payload[2..4] != NODE_ADDRESS {
        return true, ios;
      }
      open := out.SendDoipFrame(Ack(source));
      if !open {
        return;
      }
      var response := handler.HandleRequest(payload[4..], NextIo(ios));
      ios' := RestIo(ios);
      if |response| > 516 {
        return false, ios';
      }
      open := out.SendDoipFrame(Response(source, response));
    }
  }
}
