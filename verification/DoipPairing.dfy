/**
  How the requests of a client and the responses of a node pair up across a DoIP
  connection, on each of the three nodes.
 */
module DoipPairing {

  import opened Bytes
  import opened Wrappers
  import opened DoipFraming
  import opened DoipSender
  import opened DoipConnection
  import opened DoipBareMetal
  import opened DoipClient
  import OtaSession

  // ---------------------------------------------------------------------------------
  // Before routing is active
  // ---------------------------------------------------------------------------------

  /** A routing activation request of full length, whose response goes out. */
  predicate Activates<S>(node: NodeKind, c: Conn<S>, f: Frame) {
    && f.kind == ROUTING_ACTIVATION_REQ && |f.payload| >= 7
    && SendFrame(node, c.out, RoutingResponse(f.payload)).1
  }

  /** Frame `i` is the one that makes routing active, and nothing was dispatched before it. */
  ghost predicate ActivatedAt<S>(node: NodeKind, c: Conn<S>, frames: seq<Frame>, i: nat,
      handle: (S, bytes) -> (S, bytes)) {
    && i < |frames|
    && var b := HandledAll(node, c, frames[..i], handle);
       b.open && !b.routing && b.server == c.server && Activates(node, b, frames[i])
  }

  lemma {:induction false} RoutingRisesIff<S>(node: NodeKind, c: Conn<S>, f: Frame, handle: (S, bytes) -> (S, bytes))
    requires !c.routing
    ensures var c' := Handled(node, c, f, handle);
            && c'.server == c.server
            && (c'.routing <==> Activates(node, c, f))
            && (f.kind != ROUTING_ACTIVATION_REQ ==> c' == c)
  {
    hide SendFrame, RoutingResponse;
  }

  lemma {:induction false} LastHandled<S>(node: NodeKind, c: Conn<S>, frames: seq<Frame>,
      handle: (S, bytes) -> (S, bytes))
    requires frames != []
    ensures var n := |frames| - 1;
            var b := HandledAll(node, c, frames[..n], handle);
            HandledAll(node, c, frames, handle) == if b.open then Handled(node, b, frames[n], handle) else b
  {
    hide Handled;
    var n := |frames| - 1;
    assert frames == frames[..n] + [frames[n]];
    HandledAllConcat(node, c, frames[..n], [frames[n]], handle);
    var b := HandledAll(node, c, frames[..n], handle);
    if b.open {
      OneFrame(node, b, frames[n], handle);
    }
  }

  lemma {:induction false} OneFrame<S>(node: NodeKind, c: Conn<S>, f: Frame, handle: (S, bytes) -> (S, bytes))
    requires c.open
    ensures HandledAll(node, c, [f], handle) == Handled(node, c, f, handle)
  {
    hide Handled;
    assert [f][1..] == [];
    assert HandledAll(node, Handled(node, c, f, handle), [f][1..], handle) == Handled(node, c, f, handle);
  }

  /**
    Nothing is dispatched before routing is active, and it becomes active only by an
    activation request of full length whose response was sent; attempts that fail leave
    the handler alone.  On the two nodes that read with blocking calls, routing is active
    in the end exactly if there was such a request.
   */
  lemma {:induction false} NoDispatchBeforeActivation<S>(node: NodeKind, c: Conn<S>, frames: seq<Frame>,
      handle: (S, bytes) -> (S, bytes))
    requires !c.routing
    ensures var e := HandledAll(node, c, frames, handle);
            && (e.server != c.server || e.routing ==> exists i: nat :: ActivatedAt(node, c, frames, i, handle))
            && (node != BareMetal ==> (e.routing <==> exists i: nat :: ActivatedAt(node, c, frames, i, handle)))
            && ((forall f | f in frames :: f.kind != ROUTING_ACTIVATION_REQ) ==> e == c)
    decreases |frames|
  {
    hide Handled, HandledAll, SendFrame, RoutingResponse;
    if frames == [] {
      assert HandledAll(node, c, frames, handle) == c by {
        NoFrames(node, c, handle);
      }
    } else {
      var n := |frames| - 1;
      var init := frames[..n];
      var b := HandledAll(node, c, init, handle);
      NoDispatchBeforeActivation(node, c, init, handle);
      LastHandled(node, c, frames, handle);
      forall i: nat | i < n
        ensures ActivatedAt(node, c, init, i, handle) <==> ActivatedAt(node, c, frames, i, handle)
      {
        assert init[..i] == frames[..i];
      }
      assert frames[n] in frames && forall f | f in init :: f in frames;
      assert ActivatedAt(node, c, frames, n, handle) <==>
          b.open && !b.routing && b.server == c.server && Activates(node, b, frames[n]);
      if i: nat :| ActivatedAt(node, c, init, i, handle) {
        assert ActivatedAt(node, c, frames, i, handle) && init[i] in init;
        if node != BareMetal {
          RoutingStays(node, b, frames[n], handle);
        }
      } else {
        RoutingRisesIff(node, b, frames[n], handle);
      }
    }
  }

  lemma NoFrames<S>(node: NodeKind, c: Conn<S>, handle: (S, bytes) -> (S, bytes))
    ensures HandledAll(node, c, [], handle) == c
  {
  }

  lemma RoutingStays<S>(node: NodeKind, c: Conn<S>, f: Frame, handle: (S, bytes) -> (S, bytes))
    requires c.routing && node != BareMetal
    ensures Handled(node, c, f, handle).routing
  {
    hide SendFrame, RoutingResponse;
  }

  // ---------------------------------------------------------------------------------
  // One request
  // ---------------------------------------------------------------------------------

  /**
    Each accepted request is dispatched once and yields exactly one ack and then, if it is
    not too long, one response, with the addresses swapped.
   */
  lemma {:induction false} AckThenResponse<S>(node: NodeKind, c: Conn<S>, f: Frame, handle: (S, bytes) -> (S, bytes))
    requires f.kind == DIAGNOSTIC_MESSAGE && c.open && Ready(node, c.out)
    ensures var c' := Handled(node, c, f, handle);
            && Ready(node, c'.out) && c'.routing == c.routing
            && if c.routing && Addressed(f.payload) then
                 var source := f.payload[..2];
                 var (server, resp) := handle(c.server, f.payload[4..]);
                 var fits := node == Linux || ResponseFits(node, resp);
                 && c'.server == server
                 && c'.open == (fits || node == BareMetal)
                 && c'.out.wire == c.out.wire + BuildFrame(Ack(source))
                                   + if fits then BuildFrame(Response(source, resp)) else []
               else c' == c
  {
    hide BuildFrame, SendFrame, Ready;
    if c.routing && Addressed(f.payload) {
      var source := f.payload[..2];
      FrameGoesOut(node, c.out, Ack(source));
      var acked := SendFrame(node, c.out, Ack(source)).0;
      FrameGoesOut(node, acked, Response(source, handle(c.server, f.payload[4..]).1));
      assert acked.wire + [] == acked.wire;
    }
  }

  lemma {:induction false} BuiltFrameIsNext(f: Frame, tail: bytes)
    requires |f.payload| < 0x1_0000_0000
    ensures NextFrame(BuildFrame(f) + tail) == Some((f, tail))
  {
    BuiltFrameParses(f, tail, |f.payload|);
    hide U32At, U16, U32, Hi, Lo, Header;
  }

  lemma EmptyHasNoFrame()
    ensures NextFrame([]) == None
  {
  }

  /** What the node writes for one request. */
  function Reply(resp: bytes): bytes {
    BuildFrame(Ack(TESTER_ADDRESS)) + BuildFrame(Response(TESTER_ADDRESS, resp))
  }

  /** The client skips the ack, returns the response, and leaves what follows. */
  lemma {:induction false} ClientReadsResponse(resp: bytes, tail: bytes)
    requires |resp| + 4 < 0x1_0000_0000
    ensures AwaitResponse(Reply(resp) + tail) == (Some(resp), tail)
  {
    hide BuildFrame, NextFrame;
    var ack, response := BuildFrame(Ack(TESTER_ADDRESS)), Response(TESTER_ADDRESS, resp);
    assert Reply(resp) + tail == ack + (BuildFrame(response) + tail);
    BuiltFrameIsNext(Ack(TESTER_ADDRESS), BuildFrame(response) + tail);
    BuiltFrameIsNext(response, tail);
    assert response.payload[4..] == resp;
  }

  /** An ack alone leaves the client waiting. */
  lemma {:induction false} AckIsNoAnswer(source: bytes)
    requires |source| == 2
    ensures AwaitResponse(BuildFrame(Ack(source))) == (None, [])
  {
    hide BuildFrame, NextFrame;
    BuiltFrameIsNext(Ack(source), []);
    assert BuildFrame(Ack(source)) + [] == BuildFrame(Ack(source));
    EmptyHasNoFrame();
  }

  /**
    Client and node: the connection, the bytes that the node holds and has not cut, and
    how much of what the node wrote the client has read.
   */
  datatype Link<S> = Link(conn: Conn<S>, held: bytes, read: nat)

  /** What the node wrote and the client has not read. */
  function Unread<S>(l: Link<S>): bytes {
    if l.read <= |l.conn.out.wire| then l.conn.out.wire[l.read..] else []
  }

  /** Nothing is held on either side. */
  predicate Clean<S>(l: Link<S>) {
    l.held == [] && l.read == |l.conn.out.wire|
  }

  /** The node after more bytes arrived: it goes on with those it holds. */
  function Fed<S>(node: NodeKind, l: Link<S>, stream: bytes, handle: (S, bytes) -> (S, bytes)): Link<S> {
    if !l.conn.open || (node == BareMetal && |l.held| > RX_BUF_SIZE) then l
    else if node == BareMetal then
      var s := Received(Rx(l.held, |l.held|, l.conn, []), stream, handle);
      l.(conn := s.conn, held := s.buf)
    else
      var d := Drain(l.held + stream, Max(node));
      var conn := HandledAll(node, l.conn, d.frames, handle);
      l.(conn := if d.broken then conn.(open := false) else conn, held := d.rest)
  }

  /** One `send_uds`: the client reads on from where it stopped. */
  function Exchange<S>(node: NodeKind, l: Link<S>, req: bytes,
      handle: (S, bytes) -> (S, bytes)): (Link<S>, Option<bytes>) {
    var l' := Fed(node, l, BuildFrame(UdsMessage(req)), handle);
    var (answer, unread) := AwaitResponse(Unread(l'));
    (l'.(read := if l'.read <= |l'.conn.out.wire| then |l'.conn.out.wire| - |unread| else l'.read), answer)
  }

  /** The longest payload that a node takes. */
  function Cap(node: NodeKind): nat {
    match node
    case Linux => LINUX_MAX_PAYLOAD
    case Zephyr => EMBEDDED_MAX_PAYLOAD
    case BareMetal => RX_BUF_SIZE - HEADER_SIZE
  }

  /** A request that the node takes, and that is not empty. */
  predicate Carried(node: NodeKind, req: bytes) {
    1 <= |req| <= Cap(node) - 4
  }

  /** A connection that serves requests. */
  predicate Serving<S>(node: NodeKind, c: Conn<S>) {
    c.open && c.routing && Ready(node, c.out)
  }

  lemma {:induction false} CutByReader(f: Frame, limit: nat)
    requires |f.payload| < 0x1_0000_0000 && limit < 0x1_0000_0000
    ensures Drain(BuildFrame(f), limit)
         == if |f.payload| <= limit then Drained([f], [], false) else Drained([], [], true)
  {
    hide Parse, Header;
    var buf := BuildFrame(f);
    assert buf + [] == buf;
    if |f.payload| <= limit {
      BuiltFrameParses(f, [], limit);
      EmptyNeedsMore(limit);
    } else {
      TooLongIsBroken(f, buf, limit);
    }
  }

  /** A message that arrives at a node that holds nothing. */
  lemma {:induction false} RequestReachesNode<S>(node: NodeKind, l: Link<S>, req: bytes,
      handle: (S, bytes) -> (S, bytes))
    requires l.held == [] && Serving(node, l.conn) && |req| + 4 < 0x1_0000_0000
    ensures var l' := Fed(node, l, BuildFrame(UdsMessage(req)), handle);
            && l'.read == l.read
            && (if |req| <= Cap(node) - 4 then
                  l'.conn == Handled(node, l.conn, UdsMessage(req), handle) && l'.held == []
                else l'.conn.out == l.conn.out && l'.conn.server == l.conn.server
                     && (l'.conn.open <==> |req| <= Max(node) - 4))
  {
    var f := UdsMessage(req);
    AckThenResponse(node, l.conn, f, handle);
    hide BuildFrame, Drain, Handled, ReceivedAll, Received, Parse, Ready;
    OneFrame(node, l.conn, f, handle);
    NoFrames(node, l.conn, handle);
    assert [] + BuildFrame(f) == BuildFrame(f);
    match node
    case Linux => CutByReader(f, LINUX_MAX_PAYLOAD);
    case Zephyr => CutByReader(f, EMBEDDED_MAX_PAYLOAD);
    case BareMetal =>
      OneSegment(l.conn, BuildFrame(f), handle);
      LoneFrame(l.conn, f, handle);
  }

  lemma EmptyRequestIsDropped<S>(node: NodeKind, c: Conn<S>, handle: (S, bytes) -> (S, bytes))
    ensures Handled(node, c, UdsMessage([]), handle) == c
  {
    hide SendFrame;
  }

  /** What a request that the node takes adds to the wire. */
  lemma {:induction false} RequestIsServed<S>(node: NodeKind, c: Conn<S>, req: bytes, handle: (S, bytes) -> (S, bytes))
    requires Serving(node, c) && Carried(node, req)
    requires node == Linux ==> ResponseFits(node, handle(c.server, req).1)
    ensures var c' := Handled(node, c, UdsMessage(req), handle);
            var (server, resp) := handle(c.server, req);
            && c'.server == server && c'.routing && Ready(node, c'.out)
            && c'.open == (ResponseFits(node, resp) || node == BareMetal)
            && c'.out.wire == c.out.wire
                              + if ResponseFits(node, resp) then Reply(resp) else BuildFrame(Ack(TESTER_ADDRESS))
  {
    var f := UdsMessage(req);
    AckThenResponse(node, c, f, handle);
    assert f.payload[..2] == TESTER_ADDRESS && f.payload[2..4] == NODE_ADDRESS && f.payload[4..] == req;
    OnTheWire(c.out.wire, handle(c.server, req).1);
    hide Handled, BuildFrame, Ready, Reply, Ack, Response;
  }

  lemma {:induction false} OnTheWire(wire: bytes, resp: bytes)
    ensures wire + BuildFrame(Ack(TESTER_ADDRESS)) + BuildFrame(Response(TESTER_ADDRESS, resp)) == wire + Reply(resp)
    ensures wire + BuildFrame(Ack(TESTER_ADDRESS)) + [] == wire + BuildFrame(Ack(TESTER_ADDRESS))
  {
    hide BuildFrame;
  }

  /** What the node wrote since is what is unread, if nothing was before. */
  lemma {:induction false} FreshIsUnread<S>(l: Link<S>, l': Link<S>, written: bytes)
    requires l'.read == l.read <= |l.conn.out.wire| && l'.conn.out.wire == l.conn.out.wire + written
    ensures Unread(l') == Unread(l) + written && l'.read <= |l'.conn.out.wire|
  {
  }

  /** Reading takes bytes off the front of what is unread. */
  lemma {:induction false} ReadingOn<S>(l: Link<S>, unread: bytes, seen: bytes)
    requires l.read <= |l.conn.out.wire| && Unread(l) == seen + unread
    ensures Unread(l.(read := |l.conn.out.wire| - |unread|)) == unread
  {
    var wire := l.conn.out.wire;
    assert wire[|wire| - |unread|..] == Unread(l)[|seen|..];
  }

  /** A request that the node takes, with an answer that fits. */
  lemma {:induction false} AnsweredExchange<S>(node: NodeKind, l: Link<S>, req: bytes, handle: (S, bytes) -> (S, bytes))
    requires Clean(l) && Serving(node, l.conn) && Carried(node, req)
    requires ResponseFits(node, handle(l.conn.server, req).1)
    ensures var (l', answer) := Exchange(node, l, req, handle);
            && answer == Some(handle(l.conn.server, req).1) && Clean(l')
            && l'.conn == Handled(node, l.conn, UdsMessage(req), handle)
  {
    var resp := handle(l.conn.server, req).1;
    var l' := Fed(node, l, BuildFrame(UdsMessage(req)), handle);
    RequestReachesNode(node, l, req, handle);
    RequestIsServed(node, l.conn, req, handle);
    CleanHasNothing(l);
    hide Fed, BuildFrame, AwaitResponse, Handled, Ready, Reply, Unread, ResponseFits, Carried, UdsMessage, Cap,
      Exchange;
    FreshIsUnread(l, l', Reply(resp));
    NothingBefore(Reply(resp));
    ClientReadsResponse(resp, []);
    ReadToTheEnd(node, l, req, handle);
  }

  /** A client that reads everything leaves nothing over. */
  lemma {:induction false} ReadToTheEnd<S>(node: NodeKind, l: Link<S>, req: bytes, handle: (S, bytes) -> (S, bytes))
    ensures var l' := Fed(node, l, BuildFrame(UdsMessage(req)), handle);
            var (answer, unread) := AwaitResponse(Unread(l'));
            unread == [] && l'.read <= |l'.conn.out.wire| ==>
              && Exchange(node, l, req, handle) == (l'.(read := |l'.conn.out.wire|), answer)
              && (l'.held == [] ==> Clean(Exchange(node, l, req, handle).0))
  {
    hide Fed, BuildFrame, AwaitResponse, Unread;
  }

  /** A request that the node takes, with an answer that is too long. */
  lemma {:induction false} UnansweredExchange<S>(node: NodeKind, l: Link<S>, req: bytes,
      handle: (S, bytes) -> (S, bytes))
    requires Clean(l) && Serving(node, l.conn) && Carried(node, req) && node != Linux
    requires !ResponseFits(node, handle(l.conn.server, req).1)
    ensures var (l', answer) := Exchange(node, l, req, handle);
            && answer == None && Clean(l')
            && l'.conn == Handled(node, l.conn, UdsMessage(req), handle)
  {
    var ack := BuildFrame(Ack(TESTER_ADDRESS));
    var l' := Fed(node, l, BuildFrame(UdsMessage(req)), handle);
    RequestReachesNode(node, l, req, handle);
    RequestIsServed(node, l.conn, req, handle);
    CleanHasNothing(l);
    hide Fed, BuildFrame, AwaitResponse, Handled, Ready, Unread, Ack;
    FreshIsUnread(l, l', ack);
    NothingBefore(ack);
    AckIsNoAnswer(TESTER_ADDRESS);
  }

  /** A request that the node does not take. */
  lemma {:induction false} RefusedExchange<S>(node: NodeKind, l: Link<S>, req: bytes, handle: (S, bytes) -> (S, bytes))
    requires Clean(l) && Serving(node, l.conn) && !Carried(node, req) && |req| + 4 < 0x1_0000_0000
    ensures var (l', answer) := Exchange(node, l, req, handle);
            answer == None && l'.conn.server == l.conn.server && (l'.conn.open <==> |req| <= Max(node) - 4)
  {
    EmptyIsNoAnswer();
    RequestReachesNode(node, l, req, handle);
    if req == [] {
      EmptyRequestIsDropped(node, l.conn, handle);
    }
    CleanStays(l, Fed(node, l, BuildFrame(UdsMessage(req)), handle));
    hide Fed, BuildFrame, AwaitResponse, Handled, Ready, Unread;
  }

  /**
    On an activated connection whose sends succeed, and on which nothing was left over, the
    client gets the handler's answer exactly when the node takes the request and the answer
    is not too long for it; and then again nothing is left over.  An empty request is
    dropped; one that is too long closes the connection, unless it just fits the bare-metal
    node's length check and stalls; and an answer that is too long was dispatched all the
    same.
   */
  lemma {:induction false} ExchangeAnswersIff<S>(node: NodeKind, l: Link<S>, req: bytes,
      handle: (S, bytes) -> (S, bytes))
    requires Clean(l) && Serving(node, l.conn) && |req| + 4 < 0x1_0000_0000
    requires node == Linux ==> ResponseFits(node, handle(l.conn.server, req).1)
    ensures var (l', answer) := Exchange(node, l, req, handle);
            var (server, resp) := handle(l.conn.server, req);
            && (answer.Some? <==> Carried(node, req) && ResponseFits(node, resp))
            && (answer.Some? ==> answer == Some(resp) && Clean(l') && Serving(node, l'.conn))
            && (Carried(node, req) ==> Clean(l') && l'.conn == Handled(node, l.conn, UdsMessage(req), handle))
            && l'.conn.server == (if Carried(node, req) then server else l.conn.server)
            && (!Carried(node, req) ==> (l'.conn.open <==> |req| <= Max(node) - 4))
  {
    hide Exchange, Handled, Ready;
    var resp := handle(l.conn.server, req).1;
    if !Carried(node, req) {
      RefusedExchange(node, l, req, handle);
    } else {
      RequestIsServed(node, l.conn, req, handle);
      if ResponseFits(node, resp) {
        AnsweredExchange(node, l, req, handle);
      } else {
        UnansweredExchange(node, l, req, handle);
      }
    }
  }

  lemma CleanHasNothing<S>(l: Link<S>)
    requires Clean(l)
    ensures Unread(l) == []
  {
  }

  lemma CleanStays<S>(l: Link<S>, l': Link<S>)
    requires Clean(l) && l'.read == l.read && l'.conn.out == l.conn.out
    ensures Unread(l') == []
  {
  }

  lemma NothingBefore(s: bytes)
    ensures [] + s == s && s + [] == s
  {
  }

  lemma EmptyIsNoAnswer()
    ensures AwaitResponse([]) == (None, [])
  {
  }

  /**
    The order matters: a reply that was left over is taken for the answer to the next
    request, and everything after it is one request late.
   */
  lemma {:induction false} StaleReplyIsTaken<S>(node: NodeKind, l: Link<S>, stale: bytes, req: bytes,
      handle: (S, bytes) -> (S, bytes))
    requires Unread(l) == Reply(stale) && l.held == [] && Serving(node, l.conn)
    requires |stale| + 4 < 0x1_0000_0000 && Carried(node, req) && ResponseFits(node, handle(l.conn.server, req).1)
    ensures var (l', answer) := Exchange(node, l, req, handle);
            answer == Some(stale) && Unread(l') == Reply(handle(l.conn.server, req).1)
  {
    RequestReachesNode(node, l, req, handle);
    RequestIsServed(node, l.conn, req, handle);
    assert l.read <= |l.conn.out.wire| by {
      ReplyIsSomething(stale);
    }
    hide Fed, BuildFrame, AwaitResponse, Handled, Ready, Reply, Unread;
    var resp := handle(l.conn.server, req).1;
    var l' := Fed(node, l, BuildFrame(UdsMessage(req)), handle);
    FreshIsUnread(l, l', Reply(resp));
    ClientReadsResponse(stale, Reply(resp));
    ReadingOn(l', Reply(resp), Reply(stale));
  }

  lemma ReplyIsSomething(resp: bytes)
    ensures Reply(resp) != []
  {
    hide Header;
  }

  // ---------------------------------------------------------------------------------
  // Many requests
  // ---------------------------------------------------------------------------------

  function Conversation<S>(node: NodeKind, l: Link<S>, reqs: seq<bytes>, handle: (S, bytes) -> (S, bytes)):
    (Link<S>, seq<Option<bytes>>)
    decreases |reqs|
  {
    if reqs == [] then (l, [])
    else
      var (l', answer) := Exchange(node, l, reqs[0], handle);
      var (l'', answers) := Conversation(node, l', reqs[1..], handle);
      (l'', [answer] + answers)
  }

  /** The handler alone, without a connection in between. */
  function Direct<S>(s: S, reqs: seq<bytes>, handle: (S, bytes) -> (S, bytes)): (r: (S, seq<Option<bytes>>))
    ensures |r.1| == |reqs|
    decreases |reqs|
  {
    if reqs == [] then (s, [])
    else
      var (s', resp) := handle(s, reqs[0]);
      var (s'', answers) := Direct(s', reqs[1..], handle);
      (s'', [Some(resp)] + answers)
  }

  /** The node takes every request and can send the answer to each. */
  predicate AllFit<S>(node: NodeKind, s: S, reqs: seq<bytes>, handle: (S, bytes) -> (S, bytes))
    decreases |reqs|
  {
    reqs != [] ==>
      var (s', resp) := handle(s, reqs[0]);
      Carried(node, reqs[0]) && ResponseFits(node, resp) && AllFit(node, s', reqs[1..], handle)
  }

  lemma MessagesFirst(reqs: seq<bytes>)
    requires reqs != []
    ensures Messages(reqs)[0] == UdsMessage(reqs[0]) && Messages(reqs)[1..] == Messages(reqs[1..])
  {
  }

  /**
    Pairing: the k-th `send_uds` returns the handler's answer to the k-th request, nothing
    is left over, and the connection is the one that the messages alone lead to.
   */
  lemma {:induction false} RequestsPairWithResponses<S>(node: NodeKind, l: Link<S>, reqs: seq<bytes>,
      handle: (S, bytes) -> (S, bytes))
    requires Clean(l) && Serving(node, l.conn) && AllFit(node, l.conn.server, reqs, handle)
    ensures var (l', answers) := Conversation(node, l, reqs, handle);
            && (l'.conn.server, answers) == Direct(l.conn.server, reqs, handle)
            && Clean(l') && Serving(node, l'.conn)
            && l'.conn == HandledAll(node, l.conn, Messages(reqs), handle)
    decreases |reqs|
  {
    hide Exchange, Ready, ResponseFits, Handled;
    if reqs == [] {
      NoFrames(node, l.conn, handle);
    } else {
      MessagesFirst(reqs);
      ExchangeAnswersIff(node, l, reqs[0], handle);
      RequestsPairWithResponses(node, Exchange(node, l, reqs[0], handle).0, reqs[1..], handle);
    }
  }

  // ---------------------------------------------------------------------------------
  // Whole streams
  // ---------------------------------------------------------------------------------

  /** What the handler's answers look like on the wire. */
  function Replies<S>(s: S, reqs: seq<bytes>, handle: (S, bytes) -> (S, bytes)): bytes
    decreases |reqs|
  {
    if reqs == [] then []
    else
      var (s', resp) := handle(s, reqs[0]);
      Reply(resp) + Replies(s', reqs[1..], handle)
  }

  /** What a node writes over a run of messages. */
  lemma {:induction false} MessagesWriteReplies<S>(node: NodeKind, c: Conn<S>, reqs: seq<bytes>,
      handle: (S, bytes) -> (S, bytes))
    requires Serving(node, c) && AllFit(node, c.server, reqs, handle)
    ensures var e := HandledAll(node, c, Messages(reqs), handle);
            && e.out.wire == c.out.wire + Replies(c.server, reqs, handle)
            && e.server == Direct(c.server, reqs, handle).0 && Serving(node, e)
    decreases |reqs|
  {
    hide Handled, Ready, Reply, ResponseFits;
    if reqs == [] {
      NoFrames(node, c, handle);
      NothingBefore(c.out.wire);
    } else {
      MessagesFirst(reqs);
      RequestIsServed(node, c, reqs[0], handle);
      var c' := Handled(node, c, UdsMessage(reqs[0]), handle);
      MessagesWriteReplies(node, c', reqs[1..], handle);
      var (s', resp) := handle(c.server, reqs[0]);
      assert (c.out.wire + Reply(resp)) + Replies(s', reqs[1..], handle)
          == c.out.wire + (Reply(resp) + Replies(s', reqs[1..], handle));
    }
  }

  /** The client reads the answers, in order, off the replies, and nothing is left. */
  lemma {:induction false} RepliesAreRead<S>(node: NodeKind, s: S, reqs: seq<bytes>, handle: (S, bytes) -> (S, bytes))
    requires AllFit(node, s, reqs, handle)
    ensures AwaitAll(Replies(s, reqs, handle), |reqs|) == (Direct(s, reqs, handle).1, [])
    decreases |reqs|
  {
    hide Reply, AwaitResponse, AwaitAll;
    if reqs == [] {
      AwaitNone([]);
    } else {
      var (s', resp) := handle(s, reqs[0]);
      var tail := Replies(s', reqs[1..], handle);
      ClientReadsResponse(resp, tail);
      AwaitFirst(Reply(resp) + tail, |reqs|);
      RepliesAreRead(node, s', reqs[1..], handle);
    }
  }

  /** A node that reads a whole stream, in whatever segments it comes. */
  function Served<S>(node: NodeKind, c: Conn<S>, segments: seq<bytes>, handle: (S, bytes) -> (S, bytes)): Conn<S> {
    if node == BareMetal then ReceivedAll(Empty(c), segments, handle).conn
    else HandledAll(node, c, Drain(Flatten(segments), Max(node)).frames, handle)
  }

  /** Well-formed frames that close nothing are all handled, on each node and in each cut. */
  lemma {:induction false} ServedIsHandled<S>(node: NodeKind, c: Conn<S>, frames: seq<Frame>, segments: seq<bytes>,
      handle: (S, bytes) -> (S, bytes))
    requires c.open && Ready(node, c.out) && Flatten(segments) == BuildAll(frames)
    requires forall f | f in frames :: |f.payload| <= Cap(node) && !ShortActivation(f)
    requires node == BareMetal ==> Fits(Empty(c), segments, handle)
    ensures Served(node, c, segments, handle) == HandledAll(node, c, frames, handle)
  {
    hide Handled, Ready, ReceivedAll, Fits, HandledAll, Survives;
    DrainBuildAll(frames, Max(node));
    if node == BareMetal {
      SurvivesWhenSendsSucceed(c, frames, handle);
      SegmentationIndependence(c, frames, segments, EMBEDDED_MAX_PAYLOAD, handle);
    }
  }

  /** The frames of a client's session. */
  function SessionFrames(reqs: seq<bytes>): seq<Frame> {
    [ROUTING_REQUEST] + Messages(reqs)
  }

  lemma {:induction false} FittingRequestsAreCarried<S>(node: NodeKind, s: S, reqs: seq<bytes>,
      handle: (S, bytes) -> (S, bytes))
    requires AllFit(node, s, reqs, handle)
    ensures forall req | req in reqs :: Carried(node, req)
    decreases |reqs|
  {
    if reqs == [] {
    } else {
      FittingRequestsAreCarried(node, handle(s, reqs[0]).0, reqs[1..], handle);
    }
  }

  lemma SessionFits(node: NodeKind, reqs: seq<bytes>)
    requires forall req | req in reqs :: Carried(node, req)
    ensures forall f | f in SessionFrames(reqs) :: |f.payload| <= Cap(node) && !ShortActivation(f)
  {
    forall f | f in SessionFrames(reqs)
      ensures |f.payload| <= Cap(node) && !ShortActivation(f)
    {
      if f != ROUTING_REQUEST {
        var i :| 0 <= i < |reqs| && f == Messages(reqs)[i];
        assert reqs[i] in reqs;
      }
    }
  }

  lemma {:induction false} ActivationSucceeds<S>(node: NodeKind, c: Conn<S>, handle: (S, bytes) -> (S, bytes))
    requires c.open && Ready(node, c.out)
    ensures var c' := Handled(node, c, ROUTING_REQUEST, handle);
            && Serving(node, c') && c'.server == c.server
            && c'.out.wire == c.out.wire + BuildFrame(RoutingResponse(ROUTING_REQUEST.payload))
  {
    FrameGoesOut(node, c.out, RoutingResponse(ROUTING_REQUEST.payload));
    hide SendFrame, BuildFrame, RoutingResponse, Ready;
  }

  lemma {:induction false} ActivationIsRead(tail: bytes)
    ensures AwaitActivation(BuildFrame(RoutingResponse(ROUTING_REQUEST.payload)) + tail) == (true, tail)
  {
    BuiltFrameIsNext(RoutingResponse(ROUTING_REQUEST.payload), tail);
    hide BuildFrame, NextFrame;
  }

  /**
    A whole session over one stream: from accept, on each node, with sends that succeed and
    in any segments, the client's activation succeeds, and reading on from there gives the
    handler's answers in the order of the requests and leaves nothing.
   */
  lemma {:induction false} WholeSessionPairs<S>(node: NodeKind, server: S, out: Out, reqs: seq<bytes>,
      segments: seq<bytes>, handle: (S, bytes) -> (S, bytes))
    requires out.wire == [] && Ready(node, out) && AllFit(node, server, reqs, handle)
    requires Flatten(segments) == BuildAll(SessionFrames(reqs))
    requires node == BareMetal ==> Fits(Empty(Conn(server, false, true, out)), segments, handle)
    ensures var e := Served(node, Conn(server, false, true, out), segments, handle);
            var (on, rest) := AwaitActivation(e.out.wire);
            && on && AwaitAll(rest, |reqs|) == (Direct(server, reqs, handle).1, [])
            && e.server == Direct(server, reqs, handle).0 && Serving(node, e)
  {
    var c := Conn(server, false, true, out);
    var frames := SessionFrames(reqs);
    FittingRequestsAreCarried(node, server, reqs, handle);
    SessionFits(node, reqs);
    hide Handled, Ready, AllFit, Fits, Served, AwaitActivation, AwaitAll, Replies, Direct, BuildFrame, Messages,
      RoutingResponse;
    ServedIsHandled(node, c, frames, segments, handle);
    HandledAllConcat(node, c, [ROUTING_REQUEST], Messages(reqs), handle);
    OneFrame(node, c, ROUTING_REQUEST, handle);
    hide HandledAll;
    ActivationSucceeds(node, c, handle);
    var c' := Handled(node, c, ROUTING_REQUEST, handle);
    MessagesWriteReplies(node, c', reqs, handle);
    NothingBefore(BuildFrame(RoutingResponse(ROUTING_REQUEST.payload)));
    ActivationIsRead(Replies(server, reqs, handle));
    RepliesAreRead(node, server, reqs, handle);
  }

  /**
    The loops themselves: the Linux node serves the stream that the client sends, the
    client reads what the node wrote, and each request gets its answer.
   */
  method Talk(server: DoipServer, toNode: Socket, fromNode: Sender, client: Sender, ios: seq<OtaSession.Io>,
      reqs: seq<bytes>)
    returns (ok: bool, responses: seq<bytes>)
    requires server.Valid() && client != fromNode
    requires fromNode.wire == [] && Healthy(fromNode.View()) && client.wire == [] && Healthy(client.View())
    requires toNode.Stream() == BuildAll(SessionFrames(reqs))
    requires AllFit(Linux, Station(server.handler.View(), ios), reqs, Dispatcher(server.handler.ecuId))
    modifies toNode, fromNode, client, server.handler.functionManager.Repr, server.handler.otaSessionManager,
             server.handler.otaSessionManager.disk
    ensures var (st, answers) :=
              Direct(old(Station(server.handler.View(), ios)), reqs, Dispatcher(server.handler.ecuId));
            && ok && |responses| == |reqs| && (forall i | 0 <= i < |reqs| :: answers[i] == Some(responses[i]))
            && server.handler.View() == st.node
    ensures client.wire == old(toNode.Stream())
  {
    hide HandledAll, Handled, AllFit, Direct, Healthy, AwaitAll, AwaitActivation, Messages, Dispatcher, Push,
      BuildFrame, Drain, Serving, Flatten;
    ghost var handle := Dispatcher(server.handler.ecuId);
    ghost var st := Station(server.handler.View(), ios);
    SessionOnLinux(st, fromNode.View(), reqs, toNode.Stream(), handle);
    server.HandleConnection(toNode, fromNode, ios);
    var replies := new Socket([fromNode.wire]);
    OneSegmentIsStream(fromNode.wire);
    PushWhole(client.View(), BuildFrame(ROUTING_REQUEST));
    ok := ActivateRouting(client, replies);
    ok, responses := SendAllUds(client, replies, reqs);
    DirectAnswersAll(st, reqs, handle);
    SessionStream(reqs);
  }

  lemma {:induction false} SessionOnLinux<S>(server: S, out: Out, reqs: seq<bytes>, stream: bytes,
      handle: (S, bytes) -> (S, bytes))
    requires out.wire == [] && Healthy(out) && AllFit(Linux, server, reqs, handle)
    requires stream == BuildAll(SessionFrames(reqs))
    ensures var e := HandledAll(Linux, Conn(server, false, true, out), Drain(stream, LINUX_MAX_PAYLOAD).frames, handle);
            var (on, rest) := AwaitActivation(e.out.wire);
            && on && AwaitAll(rest, |reqs|) == (Direct(server, reqs, handle).1, [])
            && e.server == Direct(server, reqs, handle).0
  {
    OneSegmentIsStream(stream);
    hide AllFit, Direct, AwaitAll, AwaitActivation, HandledAll, Drain, Flatten, Healthy;
    WholeSessionPairs(Linux, server, out, reqs, [stream], handle);
  }

  lemma OneSegmentIsStream(s: bytes)
    ensures Flatten([s]) == s
  {
    assert [s][1..] == [];
    assert Flatten([s]) == s + Flatten([s][1..]);
  }

  lemma {:induction false} DirectAnswersAll<S>(s: S, reqs: seq<bytes>, handle: (S, bytes) -> (S, bytes))
    ensures AllAnswered(Direct(s, reqs, handle).1)
    decreases |reqs|
  {
    if reqs == [] {
    } else {
      DirectAnswersAll(handle(s, reqs[0]).0, reqs[1..], handle);
    }
  }

  lemma SessionStream(reqs: seq<bytes>)
    ensures [] + BuildFrame(ROUTING_REQUEST) + BuildAll(Messages(reqs)) == BuildAll(SessionFrames(reqs))
  {
    hide BuildFrame;
    assert SessionFrames(reqs)[1..] == Messages(reqs);
    NothingBefore(BuildFrame(ROUTING_REQUEST));
  }
}
