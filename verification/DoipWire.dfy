/**
  The bytes of a DoIP connection: which frames are cut from a stream, what the three nodes
  append to the wire for a frame, and what the client makes of a stream of replies.
 */
module DoipWire {

  import opened Bytes
  import opened Wrappers
  import opened DoipFraming
  import opened DoipSender
  import opened DoipConnection
  import opened DoipClient
  import opened DoipPairing

  // ---------------------------------------------------------------------------------
  // Frames
  // ---------------------------------------------------------------------------------

  lemma FrameBytes(f: Frame)
    ensures BuildFrame(f) == [0xFD, 0x02, Hi(f.kind), Lo(f.kind)] + U32(|f.payload|) + f.payload
  {
  }

  /**
    When exactly a node cuts a frame: the first byte is the version, the announced length is
    within the limit, and all of it is there.  The second byte is not looked at.
   */
  lemma CutIff(buf: bytes, limit: nat)
    ensures var p := Parse(buf, limit);
            && (p == More <==>
                  |buf| < 8 || (buf[0] == 0xFD && U32At(buf, 4) <= limit && |buf| < 8 + U32At(buf, 4)))
            && (p == Broken <==> |buf| >= 8 && (buf[0] != 0xFD || U32At(buf, 4) > limit))
            && (p.Whole? ==>
                  && p.frame.kind >> 8 == buf[2] as bv16 && p.frame.kind & 0xFF == buf[3] as bv16
                  && |p.frame.payload| == U32At(buf, 4)
                  && buf == buf[..8] + p.frame.payload + p.rest)
  {
    if |buf| >= 8 {
      U16Halves(buf[2], buf[3]);
      hide U16, U32At;
      var n := U32At(buf, 4);
      if |buf| >= 8 + n {
        assert buf == buf[..8] + buf[8..8 + n] + buf[8 + n..];
      }
    }
  }

  /** The client takes a frame whatever its version bytes and however long it is. */
  lemma ClientCutIff(stream: bytes)
    ensures var r := NextFrame(stream);
            && (r.Some? <==> |stream| >= 8 && |stream| >= 8 + U32At(stream, 4))
            && (r.Some? ==>
                  var (f, rest) := r.value;
                  && f.kind >> 8 == stream[2] as bv16 && f.kind & 0xFF == stream[3] as bv16
                  && stream == stream[..8] + f.payload + rest && |f.payload| == U32At(stream, 4))
  {
    if |stream| >= 8 {
      U16Halves(stream[2], stream[3]);
      hide U16, U32At;
      var n := U32At(stream, 4);
      if |stream| >= 8 + n {
        assert stream == stream[..8] + stream[8..8 + n] + stream[8 + n..];
      }
    }
  }

  // ---------------------------------------------------------------------------------
  // What the nodes write
  // ---------------------------------------------------------------------------------

  /** A diagnostic message that is long enough and for this node. */
  predicate ForThisNode(payload: bytes) {
    |payload| >= 5 && payload[2] == 0x0E && payload[3] == 0x01
  }

  /** Whether a node of this kind sends a response of `n` bytes. */
  predicate Sendable(node: NodeKind, n: nat) {
    match node
    case Linux => true
    case Zephyr => n <= 516
    case BareMetal => n <= 508
  }

  lemma AddressedIff(payload: bytes)
    ensures Addressed(payload) <==> ForThisNode(payload)
  {
    if |payload| >= 5 {
      assert payload[2..4] == [payload[2], payload[3]];
    }
  }

  /** The ack of a request: back from the address it was for to the one it came from, and zero. */
  function AckBytes(payload: bytes): bytes
    requires |payload| >= 4
  {
    [0xFD, 0x02, 0x80, 0x02, 0x00, 0x00, 0x00, 0x05] + payload[2..4] + payload[..2] + [0x00]
  }

  /** The response to it, with the addresses swapped likewise. */
  function ResponseBytes(payload: bytes, resp: bytes): bytes
    requires |payload| >= 4
  {
    [0xFD, 0x02, 0x80, 0x01] + U32(4 + |resp|) + payload[2..4] + payload[..2] + resp
  }

  lemma AckIsBytes(payload: bytes)
    requires ForThisNode(payload)
    ensures BuildFrame(Ack(payload[..2])) == AckBytes(payload)
  {
    assert payload[2..4] == [0x0E, 0x01];
    KindBytes();
    SmallLength(5);
    hide U32, Hi, Lo;
  }

  lemma ResponseIsBytes(payload: bytes, resp: bytes)
    requires ForThisNode(payload)
    ensures BuildFrame(Response(payload[..2], resp)) == ResponseBytes(payload, resp)
  {
    assert payload[2..4] == [0x0E, 0x01];
    assert |Response(payload[..2], resp).payload| == 4 + |resp|;
    KindBytes();
    hide U32, Hi, Lo;
  }

  lemma KindBytes()
    ensures Hi(DIAGNOSTIC_MESSAGE) == 0x80 && Lo(DIAGNOSTIC_MESSAGE) == 0x01
    ensures Hi(DIAGNOSTIC_MESSAGE_ACK) == 0x80 && Lo(DIAGNOSTIC_MESSAGE_ACK) == 0x02
    ensures Hi(ROUTING_ACTIVATION_REQ) == 0x00 && Lo(ROUTING_ACTIVATION_REQ) == 0x05
    ensures Hi(ROUTING_ACTIVATION_RESP) == 0x00 && Lo(ROUTING_ACTIVATION_RESP) == 0x06
  {
  }

  lemma SmallLength(n: nat)
    requires n < 256
    ensures U32(n) == [0, 0, 0, ByteOf(n)]
  {
    Zero();
    hide ByteOf;
    assert n / 256 == 0 && n % 256 == n;
    hide *;
    UnfoldU32(n);
  }

  lemma UnfoldU32(n: nat)
    ensures U32(n) == [ByteOf(n / 256 / 256 / 256 % 256), ByteOf(n / 256 / 256 % 256), ByteOf(n / 256 % 256),
                       ByteOf(n % 256)]
  {
    hide ByteOf;
  }

  lemma Zero()
    ensures ByteOf(0) == 0
  {
  }

  /**
    What a node appends for a diagnostic message, byte for byte, if its sends succeed: for a
    message to this node on an activated connection, the ack and then the response, if that
    is not too long; for any other, nothing, and nothing is dispatched.
   */
  lemma {:induction false} MessageBytes<S>(node: NodeKind, c: Conn<S>, f: Frame, handle: (S, bytes) -> (S, bytes))
    requires f.kind == 0x8001 && c.open && Ready(node, c.out)
    ensures var c' := Handled(node, c, f, handle);
            if c.routing && ForThisNode(f.payload) then
              var (server, resp) := handle(c.server, f.payload[4..]);
              && c'.server == server
              && c'.out.wire == c.out.wire + AckBytes(f.payload)
                                + (if Sendable(node, |resp|) then ResponseBytes(f.payload, resp) else [])
              && (c'.open <==> Sendable(node, |resp|) || node == BareMetal)
            else c' == c
  {
    AddressedIff(f.payload);
    AckThenResponse(node, c, f, handle);
    hide Handled, Ready, BuildFrame, AckBytes, ResponseBytes, Addressed;
    if c.routing && ForThisNode(f.payload) {
      AckIsBytes(f.payload);
      ResponseIsBytes(f.payload, handle(c.server, f.payload[4..]).1);
    }
  }

  /** If the ack cannot be sent, nothing is dispatched, and the embedded nodes close. */
  lemma {:induction false} UnsentAckStops<S>(node: NodeKind, c: Conn<S>, f: Frame, handle: (S, bytes) -> (S, bytes))
    requires f.kind == 0x8001 && c.open && c.routing && ForThisNode(f.payload)
    requires !SendFrame(node, c.out, Frame(0x8002, f.payload[2..4] + f.payload[..2] + [0x00])).1
    ensures var c' := Handled(node, c, f, handle);
            c'.server == c.server && (c'.open <==> node == Linux) && (c'.routing <==> node != BareMetal)
  {
    AddressedIff(f.payload);
    assert f.payload[2..4] == [0x0E, 0x01];
    hide SendFrame;
  }

  /**
    What a node appends for a routing activation request, byte for byte, if its sends
    succeed; a short one closes the connection, except on the Zephyr node.
   */
  lemma {:induction false} ActivationBytes<S>(node: NodeKind, c: Conn<S>, f: Frame, handle: (S, bytes) -> (S, bytes))
    requires f.kind == 0x0005 && c.open && Ready(node, c.out)
    ensures var c' := Handled(node, c, f, handle);
            && c'.server == c.server
            && (if |f.payload| >= 7 then
                  && c'.routing && c'.open
                  && c'.out.wire == c.out.wire + [0xFD, 0x02, 0x00, 0x06, 0x00, 0x00, 0x00, 0x09] + f.payload[..2]
                                    + [0x0E, 0x01, 0x10, 0x00, 0x00, 0x00, 0x00]
                else c'.out == c.out && (c'.open <==> node == Zephyr))
  {
    if |f.payload| >= 7 {
      FrameGoesOut(node, c.out, RoutingResponse(f.payload));
      ActivationIsBytes(f.payload);
      var frame := [0xFD, 0x02, 0x00, 0x06, 0x00, 0x00, 0x00, 0x09] + f.payload[..2]
                   + [0x0E, 0x01, 0x10, 0x00, 0x00, 0x00, 0x00];
      hide SendFrame, Ready, BuildFrame, RoutingResponse;
      assert c.out.wire + frame
          == c.out.wire + [0xFD, 0x02, 0x00, 0x06, 0x00, 0x00, 0x00, 0x09] + f.payload[..2]
             + [0x0E, 0x01, 0x10, 0x00, 0x00, 0x00, 0x00];
    }
  }

  lemma ActivationIsBytes(payload: bytes)
    requires |payload| >= 7
    ensures BuildFrame(RoutingResponse(payload))
         == [0xFD, 0x02, 0x00, 0x06, 0x00, 0x00, 0x00, 0x09] + payload[..2] + [0x0E, 0x01, 0x10, 0x00, 0x00, 0x00, 0x00]
  {
    KindBytes();
    SmallLength(9);
    hide U32, Hi, Lo;
  }

  /** Frames of every other kind change nothing, and diagnostic messages need an active routing. */
  lemma OtherFramesDoNothing<S>(node: NodeKind, c: Conn<S>, f: Frame, handle: (S, bytes) -> (S, bytes))
    requires f.kind != 0x0005 && (f.kind != 0x8001 || !c.routing)
    ensures Handled(node, c, f, handle) == c
  {
  }

  // ---------------------------------------------------------------------------------
  // The client
  // ---------------------------------------------------------------------------------

  /** What the client writes, byte for byte. */
  lemma ClientBytes(req: bytes)
    ensures BuildFrame(UdsMessage(req))
         == [0xFD, 0x02, 0x80, 0x01] + U32(4 + |req|) + [0x0E, 0x00, 0x0E, 0x01] + req
    ensures BuildFrame(ROUTING_REQUEST)
         == [0xFD, 0x02, 0x00, 0x05, 0x00, 0x00, 0x00, 0x07, 0x0E, 0x00, 0x00, 0x00, 0x00, 0x00, 0x00]
  {
    KindBytes();
    SmallLength(7);
    assert |UdsMessage(req).payload| == 4 + |req|;
    hide U32, Hi, Lo;
  }

  /** Any acks, of whatever contents. */
  predicate OnlyAcks(frames: seq<Frame>) {
    forall f | f in frames :: f.kind == 0x8002 && |f.payload| < 0x1_0000_0000
  }

  /** Behind any acks, a diagnostic message of at least four bytes is the response. */
  lemma {:induction false} ResponseBehindAcks(acks: seq<Frame>, f: Frame, tail: bytes)
    requires OnlyAcks(acks) && f.kind != 0x8002 && |f.payload| < 0x1_0000_0000
    ensures AwaitResponse(BuildAll(acks) + BuildFrame(f) + tail)
         == (if f.kind == 0x8001 && |f.payload| >= 4 then Some(f.payload[4..]) else None, tail)
    decreases |acks|
  {
    hide BuildFrame, NextFrame;
    if acks == [] {
      assert BuildAll(acks) + BuildFrame(f) + tail == BuildFrame(f) + tail;
      BuiltFrameIsNext(f, tail);
    } else {
      var rest := BuildAll(acks[1..]) + BuildFrame(f) + tail;
      assert BuildAll(acks) + BuildFrame(f) + tail == BuildFrame(acks[0]) + rest;
      assert acks[0] in acks && forall a | a in acks[1..] :: a in acks;
      BuiltFrameIsNext(acks[0], rest);
      ResponseBehindAcks(acks[1..], f, tail);
    }
  }

  /** Activation succeeds exactly by a 0x0006 frame whose fifth byte is 0x10. */
  lemma {:induction false} ActivationIff(f: Frame, tail: bytes)
    requires |f.payload| < 0x1_0000_0000
    ensures var (on, rest) := AwaitActivation(BuildFrame(f) + tail);
            && (on <==> f.kind == 0x0006 && |f.payload| >= 5 && f.payload[4] == 0x10)
            && rest == tail
  {
    hide BuildFrame, NextFrame;
    BuiltFrameIsNext(f, tail);
  }

  // ---------------------------------------------------------------------------------
  // Sends that fall short
  // ---------------------------------------------------------------------------------

  /** Whatever `send` does, what is on the wire is what was, and a prefix; all of it on success. */
  ghost predicate Sent(o: Out, o': Out, data: bytes, ok: bool) {
    exists n | 0 <= n <= |data| :: o'.wire == o.wire + data[..n] && (ok ==> n == |data|)
  }

  lemma {:induction false} PushIsPrefix(o: Out, data: bytes)
    ensures var (o', ok) := Push(o, data); Sent(o, o', data, ok)
    decreases |o.plan|
  {
    PushStep(o, data);
    if data == [] {
      assert o.wire + data[..0] == o.wire;
    } else if o.plan == [] {
      assert data[..|data|] == data;
    } else if o.plan[0] <= 0 {
      assert o.wire + data[..0] == o.wire;
    } else {
      var n := if o.plan[0] < |data| then o.plan[0] else |data|;
      var o1 := Out(o.plan[1..], o.wire + data[..n]);
      PushIsPrefix(o1, data[n..]);
      MoreSent(o, o1, Push(o1, data[n..]).0, data, n, Push(o1, data[n..]).1);
    }
  }

  lemma MoreSent(o: Out, o1: Out, o2: Out, data: bytes, n: nat, ok: bool)
    requires n <= |data| && o1.wire == o.wire + data[..n] && Sent(o1, o2, data[n..], ok)
    ensures Sent(o, o2, data, ok)
  {
    var m :| 0 <= m <= |data[n..]| && o2.wire == o1.wire + data[n..][..m] && (ok ==> m == |data[n..]|);
    hide *;
    Joined(data, n, m);
    Associative(o.wire, data[..n], data[n..][..m]);
    FoundPrefix(o, o2, data, n + m, ok);
  }

  lemma FoundPrefix(o: Out, o': Out, data: bytes, n: nat, ok: bool)
    requires n <= |data| && o'.wire == o.wire + data[..n] && (ok ==> n == |data|)
    ensures Sent(o, o', data, ok)
  {
  }

  lemma Joined(data: bytes, n: nat, m: nat)
    requires n + m <= |data|
    ensures data[..n] + data[n..][..m] == data[..n + m]
  {
  }

  lemma Associative(x: bytes, y: bytes, z: bytes)
    ensures (x + y) + z == x + (y + z)
  {
  }

  /** On the embedded nodes too, and there a send that falls short is a failure. */
  lemma {:induction false} FrameIsPrefix(node: NodeKind, o: Out, f: Frame)
    ensures var (o', ok) := SendFrame(node, o, f); Sent(o, o', BuildFrame(f), ok)
  {
    if node == Linux {
      PushIsPrefix(o, BuildFrame(f));
    } else {
      var header := Header(f);
      OnceIsPrefix(node, o, header);
      hide Header, SendOnce;
      var (o1, ok1) := SendOnce(node, o, header);
      if !ok1 || f.payload == [] {
        FirstPiece(o, o1, header, f.payload, ok1);
      } else {
        OnceIsPrefix(node, o1, f.payload);
        var (o2, ok2) := SendOnce(node, o1, f.payload);
        BothPieces(o, o1, o2, header, f.payload, ok2);
      }
    }
  }

  lemma FirstPiece(o: Out, o1: Out, header: bytes, payload: bytes, ok: bool)
    requires Sent(o, o1, header, ok) && (ok ==> payload == [])
    ensures Sent(o, o1, header + payload, ok)
  {
    var n :| 0 <= n <= |header| && o1.wire == o.wire + header[..n] && (ok ==> n == |header|);
    assert (header + payload)[..n] == header[..n];
  }

  lemma BothPieces(o: Out, o1: Out, o2: Out, header: bytes, payload: bytes, ok: bool)
    requires Sent(o, o1, header, true) && Sent(o1, o2, payload, ok)
    ensures Sent(o, o2, header + payload, ok)
  {
    var n :| 0 <= n <= |payload| && o2.wire == o1.wire + payload[..n] && (ok ==> n == |payload|);
    assert header[..|header|] == header;
    assert (header + payload)[..|header| + n] == header + payload[..n];
    assert o2.wire == o.wire + (header + payload[..n]);
  }

  lemma OnceIsPrefix(node: NodeKind, o: Out, data: bytes)
    ensures var (o', ok) := SendOnce(node, o, data); Sent(o, o', data, ok)
    ensures o.plan != [] && o.plan[0] < |data| ==> !SendOnce(node, o, data).1
    ensures o.plan != [] && o.plan[0] < |data| && node == BareMetal ==> SendOnce(node, o, data).0.wire == o.wire
  {
    assert data[..|data|] == data && o.wire + data[..0] == o.wire;
  }

  // ---------------------------------------------------------------------------------
  // One exchange, in numbers
  // ---------------------------------------------------------------------------------

  /** The longest request that a node of this kind takes. */
  function LongestRequest(node: NodeKind): nat {
    match node
    case Linux => 65532
    case Zephyr => 1020
    case BareMetal => 1012
  }

  /** When exactly a request is answered, by its length and that of the answer. */
  lemma {:induction false} AnsweredIff<S>(node: NodeKind, l: Link<S>, req: bytes, handle: (S, bytes) -> (S, bytes))
    requires Clean(l) && Serving(node, l.conn) && |req| + 4 < 0x1_0000_0000
    requires |handle(l.conn.server, req).1| + 4 < 0x1_0000_0000
    ensures Exchange(node, l, req, handle).1.Some? <==>
              1 <= |req| <= LongestRequest(node) && Sendable(node, |handle(l.conn.server, req).1|)
  {
    ExchangeAnswersIff(node, l, req, handle);
    hide Exchange, Clean, Serving, Handled, Ready;
  }

  // ---------------------------------------------------------------------------------
  // Connections whose sends fail
  // ---------------------------------------------------------------------------------

  /** An activation whose response cannot be sent closes the connection and activates nothing. */
  lemma {:induction false} UnsentActivationCloses<S>(node: NodeKind, c: Conn<S>, f: Frame,
      handle: (S, bytes) -> (S, bytes))
    requires f.kind == 0x0005 && c.open && |f.payload| >= 7
    requires !SendFrame(node, c.out, Frame(0x0006, f.payload[..2] + [0x0E, 0x01, 0x10, 0, 0, 0, 0])).1
    ensures var c' := Handled(node, c, f, handle);
            !c'.open && c'.server == c.server && (c'.routing <==> c.routing && node != BareMetal)
  {
    assert RoutingResponse(f.payload) == Frame(0x0006, f.payload[..2] + [0x0E, 0x01, 0x10, 0, 0, 0, 0]);
    hide SendFrame, RoutingResponse;
  }

  /** A response that cannot be sent was dispatched all the same; only the Linux node goes on. */
  lemma {:induction false} UnsentResponseCloses<S>(node: NodeKind, c: Conn<S>, f: Frame,
      handle: (S, bytes) -> (S, bytes))
    requires f.kind == 0x8001 && c.open && c.routing && ForThisNode(f.payload)
    requires var (out, acked) := SendFrame(node, c.out, Frame(0x8002, f.payload[2..4] + f.payload[..2] + [0x00]));
             var resp := handle(c.server, f.payload[4..]).1;
             acked && Sendable(node, |resp|)
             && !SendFrame(node, out, Frame(0x8001, f.payload[2..4] + f.payload[..2] + resp)).1
    ensures var c' := Handled(node, c, f, handle);
            && c'.server == handle(c.server, f.payload[4..]).0
            && (c'.open <==> node == Linux) && (c'.routing <==> node != BareMetal)
  {
    AddressedIff(f.payload);
    assert f.payload[2..4] == [0x0E, 0x01];
    var resp := handle(c.server, f.payload[4..]).1;
    assert Response(f.payload[..2], resp) == Frame(0x8001, f.payload[2..4] + f.payload[..2] + resp);
    assert Ack(f.payload[..2]) == Frame(0x8002, f.payload[2..4] + f.payload[..2] + [0x00]);
    hide SendFrame, Ack, Response, Addressed;
  }
}
