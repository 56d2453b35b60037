/**
  The DoIP server of the bare-metal node: a receive buffer that callbacks fill, and that is
  emptied in place while handlers run.

  A handler may close the connection, which sets the length of the buffer to zero while a
  frame is still to be taken off it.  The length is an unsigned 32-bit number, so taking
  the frame off then leaves it far beyond the buffer.  The model stops at that point,
  because what the node does next is not defined.
 */
module DoipBareMetal {

  import opened Bytes
  import opened DoipFraming
  import opened DoipSender
  import opened DoipConnection
  import OtaSession
  import Uds

  // ---------------------------------------------------------------------------------
  // The server as a value
  // ---------------------------------------------------------------------------------

  /**
    The first `length` bytes of the buffer, or nothing if it has no such bytes; the value
    of the length field; the connection; and the frames handed to the handlers so far.
   */
  datatype Rx<S> = Rx(buf: bytes, length: nat, conn: Conn<S>, delivered: seq<Frame>)

  /** Unsigned 32-bit subtraction. */
  function Difference32(a: nat, b: nat): nat
    requires a < 0x1_0000_0000 && b < 0x1_0000_0000
  {
    if a >= b then a - b else a + 0x1_0000_0000 - b
  }

  /** Whether the length field still describes the buffer. */
  predicate InBounds<S>(s: Rx<S>) {
    s.length <= RX_BUF_SIZE
  }

  predicate Sized<S>(s: Rx<S>) {
    s.length == |s.buf| <= RX_BUF_SIZE
  }

  /** A server whose connection was just accepted. */
  function Accepted<S>(server: S, out: Out): Rx<S> {
    Rx([], 0, Conn(server, false, true, out), [])
  }

  /** `ProcessFrames`. */
  function Processed<S>(s: Rx<S>, handle: (S, bytes) -> (S, bytes)): (s': Rx<S>)
    requires Sized(s)
    ensures InBounds(s') ==> Sized(s')
    decreases |s.buf|
  {
    match Parse(s.buf, EMBEDDED_MAX_PAYLOAD)
    case More => s
    case Broken => Rx([], 0, Closed(BareMetal, s.conn), s.delivered)
    case Whole(f, rest) =>
      var conn := Handled(BareMetal, s.conn, f, handle);
      var length := Difference32(if conn.open then s.length else 0, HEADER_SIZE + |f.payload|);
      var s' := Rx(if conn.open then rest else [], length, conn, s.delivered + [f]);
      if InBounds(s') then Processed(s', handle) else s'
  }

  /** What of a segment fits into the buffer; the rest is dropped. */
  function Fitting(buf: bytes, seg: bytes): bytes
    requires |buf| <= RX_BUF_SIZE
  {
    if |seg| <= RX_BUF_SIZE - |buf| then seg else seg[..RX_BUF_SIZE - |buf|]
  }

  /** `RecvCallback`; a closed connection has none any more. */
  function Received<S>(s: Rx<S>, seg: bytes, handle: (S, bytes) -> (S, bytes)): (s': Rx<S>)
    requires s.conn.open ==> Sized(s)
    ensures s'.conn.open ==> Sized(s')
  {
    if !s.conn.open then s
    else
      var buf := s.buf + Fitting(s.buf, seg);
      OpenMeansInBounds(s.(buf := buf, length := |buf|), handle);
      Processed(s.(buf := buf, length := |buf|), handle)
  }

  lemma {:induction false} OpenMeansInBounds<S>(s: Rx<S>, handle: (S, bytes) -> (S, bytes))
    requires Sized(s)
    ensures Processed(s, handle).conn.open ==> InBounds(Processed(s, handle))
    decreases |s.buf|
  {
    var p := Parse(s.buf, EMBEDDED_MAX_PAYLOAD);
    assert p.Whole? ==> |p.rest| == |s.buf| - HEADER_SIZE - |p.frame.payload|;
    hide Handled, Parse;
    if !p.Whole? {
    } else {
      var conn := Handled(BareMetal, s.conn, p.frame, handle);
      if conn.open {
        OpenMeansInBounds(Rx(p.rest, |p.rest|, conn, s.delivered + [p.frame]), handle);
      }
    }
  }

  // ---------------------------------------------------------------------------------
  // The class
  // ---------------------------------------------------------------------------------

  class DoipTcpServer {
    const handler: Uds.UdsRequestHandler
    const out: Sender
    const rxBuf: array<byte>
    var rxLen: nat
    var connOpen: bool
    var routingActive: bool
    /** The answers of the file system to the next requests. */
    var ios: seq<OtaSession.Io>
    /** The frames handed to the handlers. */
    ghost var delivered: seq<Frame>

    ghost predicate Valid()
      reads this, handler.functionManager, handler.functionManager.Repr, handler.otaSessionManager,
            handler.otaSessionManager.disk
    {
      && handler.Valid()
      && this as object !in handler.functionManager.Repr
      && out as object !in handler.functionManager.Repr
      && rxBuf as object !in handler.functionManager.Repr
      && rxBuf.Length == RX_BUF_SIZE
      && (connOpen ==> rxLen <= RX_BUF_SIZE)
    }

    ghost function Connection(): Conn<Station>
      reads this, out, handler.functionManager, handler.otaSessionManager, handler.otaSessionManager.disk
    {
      Conn(Station(handler.View(), ios), routingActive, connOpen, out.View())
    }

    ghost function View(): Rx<Station>
      reads this, rxBuf, out, handler.functionManager, handler.otaSessionManager, handler.otaSessionManager.disk
    {
      Rx(if rxLen <= rxBuf.Length then rxBuf[..rxLen] else [], rxLen, Connection(), delivered)
    }

    /** A server whose connection was just accepted. */
    constructor (handler: Uds.UdsRequestHandler, out: Sender, ios: seq<OtaSession.Io>)
      requires handler.Valid() && out as object !in handler.functionManager.Repr
      ensures this.handler == handler && this.out == out && Valid() && fresh(rxBuf)
      ensures View() == Accepted(Station(handler.View(), ios), out.View())
    {
      this.handler, this.out, this.ios := handler, out, ios;
      rxBuf := new byte[RX_BUF_SIZE];
      rxLen, connOpen, routingActive, delivered := 0, true, false, [];
    }

    method CloseConn()
      modifies this`rxLen, this`connOpen, this`routingActive
      ensures rxLen == 0 && Connection() == Closed(BareMetal, old(Connection()))
    {
      rxLen, connOpen, routingActive := 0, false, false;
    }

    method RecvCallback(segment: bytes)
      requires Valid()
      modifies this, rxBuf, out, handler.functionManager.Repr, handler.otaSessionManager,
               handler.otaSessionManager.disk
      ensures Valid() && View() == Received(old(View()), segment, Dispatcher(handler.ecuId))
    {
      hide Processed, Uds.UdsRequestHandler.Valid;
      if !connOpen {
        return;
      }
      ghost var before := rxBuf[..rxLen];
      var space := RX_BUF_SIZE - rxLen;
      var copyLen := if |segment| <= space then |segment| else space;
      forall i | 0 <= i < copyLen {
        rxBuf[rxLen + i] := segment[i];
      }
      assert rxBuf[..rxLen + copyLen] == before + Fitting(before, segment);
      rxLen := rxLen + copyLen;
      ProcessFrames();
    }

    method ProcessFrames()
      requires Valid() && connOpen
      modifies this, rxBuf, out, handler.functionManager.Repr, handler.otaSessionManager,
               handler.otaSessionManager.disk
      ensures Valid() && View() == Processed(old(View()), Dispatcher(handler.ecuId))
    {
      hide Processed, Parse, Dispatcher, Handled;
      ghost var h := Dispatcher(handler.ecuId);
      ghost var end := Processed(View(), h);
      while rxLen >= HEADER_SIZE
        invariant Valid() && connOpen
        invariant Processed(View(), h) == end
        decreases rxLen
      {
        ProcessedStep(View(), h);
        var more := ProcessFrame();
        if !more {
          return;
        }
      }
      ShortNeedsMore(View().buf);
      ProcessedStep(View(), h);
    }

    /** One turn of that loop; `more` says whether it goes on. */
    method ProcessFrame() returns (more: bool)
      requires Valid() && connOpen && rxLen >= HEADER_SIZE
      modifies this, rxBuf, out, handler.functionManager.Repr, handler.otaSessionManager,
               handler.otaSessionManager.disk
      ensures Valid() && (more ==> connOpen && rxLen < old(rxLen))
      ensures var s := old(View());
              match Parse(s.buf, EMBEDDED_MAX_PAYLOAD)
              case More => !more && View() == s
              case Broken => !more && View() == Rx([], 0, Closed(BareMetal, s.conn), s.delivered)
              case Whole(f, rest) =>
                var conn := Handled(BareMetal, s.conn, f, Dispatcher(handler.ecuId));
                && more == conn.open
                && View() == if more then Rx(rest, |rest|, conn, s.delivered + [f])
                             else Rx([], Difference32(0, HEADER_SIZE + |f.payload|), conn, s.delivered + [f])
    {
      hide U32At, Handled, Dispatcher, Uds.UdsRequestHandler.Valid;
      if rxBuf[0] != PROTOCOL_VERSION {
        CloseConn();
        return false;
      }
      var plen := U32At(rxBuf[..rxLen], 4);
      if plen > EMBEDDED_MAX_PAYLOAD {
        CloseConn();
        return false;
      }
      if rxLen < HEADER_SIZE + plen {
        return false;
      }
      SliceOfPrefix(rxBuf[..], rxLen, HEADER_SIZE + plen);
      HandleFrame(U16(rxBuf[2], rxBuf[3]), rxBuf[HEADER_SIZE..HEADER_SIZE + plen]);
      MoveDown(HEADER_SIZE + plen);
      more := rxLen <= RX_BUF_SIZE;
    }

    /** The `memmove` that takes a frame of `n` bytes off the front, as far as it is defined. */
    method MoveDown(n: nat)
      requires rxBuf.Length == RX_BUF_SIZE && rxLen <= RX_BUF_SIZE && n <= HEADER_SIZE + EMBEDDED_MAX_PAYLOAD
      modifies this`rxLen, rxBuf
      ensures rxLen == Difference32(old(rxLen), n)
      ensures n <= old(rxLen) ==> rxBuf[..rxLen] == old(rxBuf[n..rxLen])
    {
      if n <= rxLen {
        forall i | 0 <= i < rxLen - n {
          rxBuf[i] := rxBuf[i + n];
        }
      }
      rxLen := Difference32(rxLen, n);
    }

    method HandleFrame(kind: bv16, payload: bytes)
      requires Valid() && connOpen
      modifies this, out, handler.functionManager.Repr, handler.otaSessionManager, handler.otaSessionManager.disk
      ensures Valid() && rxLen == (if connOpen then old(rxLen) else 0)
      ensures delivered == old(delivered) + [Frame(kind, payload)]
      ensures Connection() == Handled(BareMetal, old(Connection()), Frame(kind, payload), Dispatcher(handler.ecuId))
    {
      hide Activated, Diagnosed;
      delivered := delivered + [Frame(kind, payload)];
      if kind == ROUTING_ACTIVATION_REQ {
        HandleRoutingActivation(payload);
      } else if kind == DIAGNOSTIC_MESSAGE {
        if routingActive {
          HandleDiagnosticMessage(payload);
        }
      }
    }

    method HandleRoutingActivation(payload: bytes)
      requires Valid() && connOpen
      modifies this`rxLen, this`connOpen, this`routingActive, out
      ensures Valid() && rxLen == (if connOpen then old(rxLen) else 0)
      ensures Connection() == Activated(BareMetal, old(Connection()), payload)
    {
      hide RoutingResponse;
      if |payload| < 7 {
        CloseConn();
        return;
      }
      var ok := SendFrame(RoutingResponse(payload));
      if ok {
        routingActive := true;
      }
    }

    method HandleDiagnosticMessage(payload: bytes)
      requires Valid() && connOpen
      modifies this`rxLen, this`connOpen, this`routingActive, this`ios, out, handler.functionManager.Repr,
               handler.otaSessionManager, handler.otaSessionManager.disk
      ensures Valid() && rxLen == (if connOpen then old(rxLen) else 0)
      ensures Connection() == Diagnosed(BareMetal, old(Connection()), payload, Dispatcher(handler.ecuId))
    {
      hide Ack, Response, Uds.Respond, SendPieces;
      if |payload| < 5 {
        return;
      }
      var source := payload[..2];
      if payload[2..4] != NODE_ADDRESS {
        return;
      }
      var ok := SendFrame(Ack(source));
      if !ok {
        return;
      }
      var response := handler.HandleRequest(payload[4..], NextIo(ios));
      ios := RestIo(ios);
      if |response| > 508 {
        return;
      }
      var _ := SendFrame(Response(source, response));
    }

    /** Header and payload in two writes; a failed write closes the connection. */
    method SendFrame(f: Frame) returns (ok: bool)
      requires connOpen
      modifies this`rxLen, this`connOpen, this`routingActive, out
      ensures var sent := SendPieces(BareMetal, old(out.View()), f);
              && ok == sent.1 && Connection() == AfterSend(BareMetal, old(Connection()), sent)
      ensures rxLen == (if connOpen then old(rxLen) else 0)
    {
      hide Header, SendOnce;
      ok := out.TcpWrite(Header(f));
      if !ok {
        CloseConn();
        return;
      }
      if |f.payload| > 0 {
        ok := out.TcpWrite(f.payload);
        if !ok {
          CloseConn();
        }
      }
    }
  }

  lemma {:induction false} ProcessedStep<S>(s: Rx<S>, handle: (S, bytes) -> (S, bytes))
    requires Sized(s)
    ensures match Parse(s.buf, EMBEDDED_MAX_PAYLOAD)
            case More => Processed(s, handle) == s
            case Broken => Processed(s, handle) == Rx([], 0, Closed(BareMetal, s.conn), s.delivered)
            case Whole(f, rest) =>
              var conn := Handled(BareMetal, s.conn, f, handle);
              Processed(s, handle)
              == if conn.open then Processed(Rx(rest, |rest|, conn, s.delivered + [f]), handle)
                 else Rx([], Difference32(0, HEADER_SIZE + |f.payload|), conn, s.delivered + [f])
  {
    hide Handled;
  }

  lemma SliceOfPrefix(whole: bytes, n: nat, end: nat)
    requires HEADER_SIZE <= end <= n <= |whole|
    ensures whole[..n][HEADER_SIZE..end] == whole[HEADER_SIZE..end] && whole[..n][end..] == whole[end..n]
  {
  }

  lemma ShortNeedsMore(buf: bytes)
    requires |buf| < HEADER_SIZE
    ensures Parse(buf, EMBEDDED_MAX_PAYLOAD) == More
  {
  }

  // ---------------------------------------------------------------------------------
  // When the length stays within the buffer
  // ---------------------------------------------------------------------------------

  /** A routing activation request that is too short to be one. */
  predicate ShortActivation(f: Frame) {
    f.kind == ROUTING_ACTIVATION_REQ && |f.payload| < 7
  }

  /** Whether something that frame `f` makes the node send cannot be sent. */
  predicate SendFails<S>(c: Conn<S>, f: Frame, handle: (S, bytes) -> (S, bytes)) {
    if f.kind == ROUTING_ACTIVATION_REQ then
      |f.payload| >= 7 && !SendFrame(BareMetal, c.out, RoutingResponse(f.payload)).1
    else if f.kind == DIAGNOSTIC_MESSAGE && c.routing && Addressed(f.payload) then
      var source := f.payload[..2];
      var (acked, ok) := SendFrame(BareMetal, c.out, Ack(source));
      var resp := handle(c.server, f.payload[4..]).1;
      !ok || (ResponseFits(BareMetal, resp) && !SendFrame(BareMetal, acked, Response(source, resp)).1)
    else false
  }

  lemma StaysOpenIff<S>(c: Conn<S>, f: Frame, handle: (S, bytes) -> (S, bytes))
    requires c.open
    ensures Handled(BareMetal, c, f, handle).open <==> !ShortActivation(f) && !SendFails(c, f, handle)
  {
    hide SendFrame, Ack, Response, RoutingResponse;
  }

  /** No handler closes the connection while `frames` are handled in order. */
  predicate Survives<S>(c: Conn<S>, frames: seq<Frame>, handle: (S, bytes) -> (S, bytes))
    decreases |frames|
  {
    frames != [] ==>
      var c' := Handled(BareMetal, c, frames[0], handle);
      c'.open && Survives(c', frames[1..], handle)
  }

  /** The connection as frame `i` finds it. */
  function Before<S>(c: Conn<S>, frames: seq<Frame>, i: nat, handle: (S, bytes) -> (S, bytes)): Conn<S>
    requires i <= |frames|
  {
    if i == 0 then c else Handled(BareMetal, Before(c, frames, i - 1, handle), frames[i - 1], handle)
  }

  lemma {:induction false} BeforeTail<S>(c: Conn<S>, frames: seq<Frame>, i: nat, handle: (S, bytes) -> (S, bytes))
    requires 0 < i <= |frames|
    ensures Before(c, frames, i, handle) == Before(Handled(BareMetal, c, frames[0], handle), frames[1..], i - 1, handle)
  {
    hide Handled;
    if i == 1 {
    } else {
      BeforeTail(c, frames, i - 1, handle);
    }
  }

  /** In terms of the frames: none is a short activation, and none needs a send that fails. */
  lemma {:induction false} SurvivesIff<S>(c: Conn<S>, frames: seq<Frame>, handle: (S, bytes) -> (S, bytes))
    requires c.open
    ensures Survives(c, frames, handle) <==>
              forall i | 0 <= i < |frames| ::
                !ShortActivation(frames[i]) && !SendFails(Before(c, frames, i, handle), frames[i], handle)
    decreases |frames|
  {
    hide Handled, SendFails, ShortActivation;
    if frames == [] {
    } else {
      var c' := Handled(BareMetal, c, frames[0], handle);
      StaysOpenIff(c, frames[0], handle);
      assert Before(c, frames, 0, handle) == c;
      forall i | 0 < i <= |frames|
        ensures Before(c, frames, i, handle) == Before(c', frames[1..], i - 1, handle)
      {
        BeforeTail(c, frames, i, handle);
      }
      if c'.open {
        SurvivesIff(c', frames[1..], handle);
        assert forall i | 0 < i < |frames| :: frames[i] == frames[1..][i - 1];
        assert forall i | 0 <= i < |frames| - 1 :: frames[1..][i] == frames[i + 1];
      }
    }
  }

  /** If every send succeeds, only short activations are left. */
  lemma {:induction false} SurvivesWhenSendsSucceed<S>(c: Conn<S>, frames: seq<Frame>, handle: (S, bytes) -> (S, bytes))
    requires c.open && Ready(BareMetal, c.out)
    ensures Survives(c, frames, handle) <==> forall f | f in frames :: !ShortActivation(f)
    decreases |frames|
  {
    hide Handled, ShortActivation;
    if frames == [] {
    } else {
      StaysOpenIff(c, frames[0], handle);
      ReadyStays(c, frames[0], handle);
      var c' := Handled(BareMetal, c, frames[0], handle);
      if c'.open {
        SurvivesWhenSendsSucceed(c', frames[1..], handle);
        assert forall f :: f in frames <==> f == frames[0] || f in frames[1..];
      } else {
        assert frames[0] in frames;
      }
    }
  }

  lemma {:induction false} ReadyStays<S>(c: Conn<S>, f: Frame, handle: (S, bytes) -> (S, bytes))
    requires Ready(BareMetal, c.out)
    ensures Ready(BareMetal, Handled(BareMetal, c, f, handle).out) && !SendFails(c, f, handle)
  {
    hide Header, Ack, Response, RoutingResponse;
  }

  /** The server once the frames of `d` were cut off and handled. */
  function AllHandled<S>(conn: Conn<S>, delivered: seq<Frame>, d: Drained, handle: (S, bytes) -> (S, bytes)): Rx<S> {
    var conn' := HandledAll(BareMetal, conn, d.frames, handle);
    if d.broken then Rx([], 0, Closed(BareMetal, conn'), delivered + d.frames)
    else Rx(d.rest, |d.rest|, conn', delivered + d.frames)
  }

  lemma {:induction false} FirstHandled<S>(conn: Conn<S>, delivered: seq<Frame>, f: Frame, d: Drained,
      handle: (S, bytes) -> (S, bytes))
    requires conn.open
    ensures var conn' := Handled(BareMetal, conn, f, handle);
            var all := Drained([f] + d.frames, d.rest, d.broken);
            && AllHandled(conn, delivered, all, handle) == AllHandled(conn', delivered + [f], d, handle)
            && (Survives(conn, all.frames, handle) <==> conn'.open && Survives(conn', d.frames, handle))
  {
    hide Handled;
    assert ([f] + d.frames)[1..] == d.frames;
    assert delivered + ([f] + d.frames) == (delivered + [f]) + d.frames;
  }

  /**
    Taking frames off the buffer keeps the length within it exactly when no handler closes
    the connection; and then the loop handles, in order, the frames of the buffer.
   */
  lemma {:induction false} ProcessedIsHandled<S>(s: Rx<S>, handle: (S, bytes) -> (S, bytes))
    requires Sized(s) && s.conn.open
    ensures var d := Drain(s.buf, EMBEDDED_MAX_PAYLOAD);
            && (InBounds(Processed(s, handle)) <==> Survives(s.conn, d.frames, handle))
            && (Survives(s.conn, d.frames, handle) ==>
                  Processed(s, handle) == AllHandled(s.conn, s.delivered, d, handle))
    decreases |s.buf|
  {
    var p := Parse(s.buf, EMBEDDED_MAX_PAYLOAD);
    assert p.Whole? ==>
        |p.rest| == |s.buf| - HEADER_SIZE - |p.frame.payload| && |p.frame.payload| <= EMBEDDED_MAX_PAYLOAD;
    DrainStep(s.buf, EMBEDDED_MAX_PAYLOAD);
    ProcessedStep(s, handle);
    hide Handled, Parse, Processed, Drain;
    if p.Whole? {
      hide AllHandled, Survives;
      FirstHandled(s.conn, s.delivered, p.frame, Drain(p.rest, EMBEDDED_MAX_PAYLOAD), handle);
      var conn := Handled(BareMetal, s.conn, p.frame, handle);
      if conn.open {
        ProcessedIsHandled(Rx(p.rest, |p.rest|, conn, s.delivered + [p.frame]), handle);
      }
    } else {
      assert s.delivered + [] == s.delivered;
    }
  }

  // ---------------------------------------------------------------------------------
  // Segmentation
  // ---------------------------------------------------------------------------------

  function ReceivedAll<S>(s: Rx<S>, segments: seq<bytes>, handle: (S, bytes) -> (S, bytes)): Rx<S>
    requires s.conn.open ==> Sized(s)
    decreases |segments|
  {
    if segments == [] then s else ReceivedAll(Received(s, segments[0], handle), segments[1..], handle)
  }

  /** Every segment that is still received finds room in the buffer when it arrives. */
  predicate Fits<S>(s: Rx<S>, segments: seq<bytes>, handle: (S, bytes) -> (S, bytes))
    requires s.conn.open ==> Sized(s)
    decreases |segments|
  {
    segments != [] && s.conn.open ==>
      |segments[0]| <= RX_BUF_SIZE - |s.buf| && Fits(Received(s, segments[0], handle), segments[1..], handle)
  }

  lemma {:induction false} ClosedStays<S>(s: Rx<S>, segments: seq<bytes>, handle: (S, bytes) -> (S, bytes))
    requires !s.conn.open
    ensures ReceivedAll(s, segments, handle) == s
    decreases |segments|
  {
    if segments == [] {
    } else {
      ClosedStays(s, segments[1..], handle);
    }
  }

  lemma {:induction false} SurvivesConcat<S>(c: Conn<S>, a: seq<Frame>, b: seq<Frame>, handle: (S, bytes) -> (S, bytes))
    requires c.open
    ensures Survives(c, a, handle) ==> HandledAll(BareMetal, c, a, handle).open
    ensures Survives(c, a + b, handle) <==>
              Survives(c, a, handle) && Survives(HandledAll(BareMetal, c, a, handle), b, handle)
    decreases |a|
  {
    hide Handled;
    if a == [] {
      assert a + b == b;
    } else {
      assert (a + b)[1..] == a[1..] + b;
      var c' := Handled(BareMetal, c, a[0], handle);
      if c'.open {
        SurvivesConcat(c', a[1..], b, handle);
      }
    }
  }

  lemma {:induction false} AllHandledConcat<S>(c: Conn<S>, delivered: seq<Frame>, d: Drained, e: Drained,
      handle: (S, bytes) -> (S, bytes))
    ensures AllHandled(c, delivered, Drained(d.frames + e.frames, e.rest, e.broken), handle)
         == AllHandled(HandledAll(BareMetal, c, d.frames, handle), delivered + d.frames, e, handle)
  {
    HandledAllConcat(BareMetal, c, d.frames, e.frames, handle);
    hide HandledAll;
    assert delivered + (d.frames + e.frames) == (delivered + d.frames) + e.frames;
  }

  /**
    For every stream and every cut whose segments fit: the length stays within the buffer
    exactly when no handler closes the connection over the frames of the stream; and then
    the frames are handled in order, as if the stream had come at once.
   */
  lemma {:induction false} ReceivedAllIsHandled<S>(s: Rx<S>, segments: seq<bytes>, handle: (S, bytes) -> (S, bytes))
    requires Sized(s) && s.conn.open && Parse(s.buf, EMBEDDED_MAX_PAYLOAD) == More
    requires Fits(s, segments, handle)
    ensures var d := Drain(s.buf + Flatten(segments), EMBEDDED_MAX_PAYLOAD);
            var end := ReceivedAll(s, segments, handle);
            && (InBounds(end) <==> Survives(s.conn, d.frames, handle))
            && (Survives(s.conn, d.frames, handle) ==> end == AllHandled(s.conn, s.delivered, d, handle))
    decreases |segments|
  {
    hide Parse, Drain, Processed, AllHandled, Survives, Handled, HandledAll;
    if segments == [] {
      assert s.buf + [] == s.buf;
      NothingHandled(s, handle);
    } else {
      var first := s.buf + segments[0];
      var tail := Flatten(segments[1..]);
      var d := Drain(first, EMBEDDED_MAX_PAYLOAD);
      assert s.buf + Flatten(segments) == first + tail;
      DrainConcat(first, tail, EMBEDDED_MAX_PAYLOAD);
      var s0 := s.(buf := first, length := |first|);
      var s1 := Received(s, segments[0], handle);
      assert s1 == Processed(s0, handle);
      ProcessedIsHandled(s0, handle);
      OpenMeansInBounds(s0, handle);
      if s1.conn.open {
        SegmentStep(s, s1, d, tail, segments[1..], handle);
        RestNeedsMore(first, EMBEDDED_MAX_PAYLOAD);
        ReceivedAllIsHandled(s1, segments[1..], handle);
      } else {
        ClosedStays(s1, segments[1..], handle);
        ClosedSegment(s, s1, d, tail, handle);
      }
    }
  }

  lemma {:induction false} NothingHandled<S>(s: Rx<S>, handle: (S, bytes) -> (S, bytes))
    requires Sized(s) && s.conn.open && Parse(s.buf, EMBEDDED_MAX_PAYLOAD) == More
    ensures var d := Drain(s.buf, EMBEDDED_MAX_PAYLOAD);
            Survives(s.conn, d.frames, handle) && AllHandled(s.conn, s.delivered, d, handle) == s
  {
    hide Parse, Handled;
    assert s.delivered + [] == s.delivered;
  }

  /** A segment that leaves the connection open. */
  lemma {:induction false} SegmentStep<S>(s: Rx<S>, s1: Rx<S>, d: Drained, tail: bytes, segments: seq<bytes>,
      handle: (S, bytes) -> (S, bytes))
    requires s.conn.open && s1.conn.open && InBounds(s1)
    requires InBounds(s1) <==> Survives(s.conn, d.frames, handle)
    requires Survives(s.conn, d.frames, handle) ==> s1 == AllHandled(s.conn, s.delivered, d, handle)
    ensures !d.broken && s1.buf == d.rest && Survives(s.conn, d.frames, handle)
    ensures var e := Drain(d.rest + tail, EMBEDDED_MAX_PAYLOAD);
            && (Survives(s.conn, d.frames + e.frames, handle) <==> Survives(s1.conn, e.frames, handle))
            && AllHandled(s.conn, s.delivered, Drained(d.frames + e.frames, e.rest, e.broken), handle)
            == AllHandled(s1.conn, s1.delivered, e, handle)
  {
    var e := Drain(d.rest + tail, EMBEDDED_MAX_PAYLOAD);
    SurvivesConcat(s.conn, d.frames, e.frames, handle);
    AllHandledConcat(s.conn, s.delivered, d, e, handle);
    hide Drain, HandledAll, Survives;
  }

  /** A segment after which the connection is closed. */
  lemma {:induction false} ClosedSegment<S>(s: Rx<S>, s1: Rx<S>, d: Drained, tail: bytes,
      handle: (S, bytes) -> (S, bytes))
    requires s.conn.open && !s1.conn.open
    requires InBounds(s1) <==> Survives(s.conn, d.frames, handle)
    requires Survives(s.conn, d.frames, handle) ==> s1 == AllHandled(s.conn, s.delivered, d, handle)
    ensures var e := Drain(d.rest + tail, EMBEDDED_MAX_PAYLOAD);
            var all := if d.broken then d else Drained(d.frames + e.frames, e.rest, e.broken);
            && (InBounds(s1) <==> Survives(s.conn, all.frames, handle))
            && (Survives(s.conn, all.frames, handle) ==> s1 == AllHandled(s.conn, s.delivered, all, handle))
  {
    var e := Drain(d.rest + tail, EMBEDDED_MAX_PAYLOAD);
    SurvivesConcat(s.conn, d.frames, e.frames, handle);
    hide Drain, HandledAll, Survives;
  }

  // ---------------------------------------------------------------------------------
  // What follows for a connection from its start
  // ---------------------------------------------------------------------------------

  /** An empty buffer on an open connection. */
  function Empty<S>(conn: Conn<S>): Rx<S> {
    Rx([], 0, conn, [])
  }

  /**
    When exactly the length stays within the buffer, in terms of the frames cut from the
    stream: none is a routing activation request of fewer than 7 bytes, and none makes the
    node send something that cannot be sent.
   */
  lemma {:induction false} LengthStaysInBoundsIff<S>(conn: Conn<S>, segments: seq<bytes>,
      handle: (S, bytes) -> (S, bytes))
    requires conn.open && Fits(Empty(conn), segments, handle)
    ensures var frames := Drain(Flatten(segments), EMBEDDED_MAX_PAYLOAD).frames;
            InBounds(ReceivedAll(Empty(conn), segments, handle)) <==>
              forall i | 0 <= i < |frames| ::
                !ShortActivation(frames[i]) && !SendFails(Before(conn, frames, i, handle), frames[i], handle)
  {
    ShortNeedsMore([]);
    assert [] + Flatten(segments) == Flatten(segments);
    ReceivedAllIsHandled(Empty(conn), segments, handle);
    SurvivesIff(conn, Drain(Flatten(segments), EMBEDDED_MAX_PAYLOAD).frames, handle);
    hide ReceivedAll, Drain, Flatten, Survives, SendFails, Before, Fits, AllHandled;
  }

  /** A routing activation request without payload leaves the length 8 short of 2^32. */
  lemma {:induction false} ShortActivationUnderflows<S>(conn: Conn<S>, handle: (S, bytes) -> (S, bytes))
    requires conn.open
    ensures var end := ReceivedAll(Empty(conn), [BuildFrame(Frame(ROUTING_ACTIVATION_REQ, []))], handle);
            end.length == 0x1_0000_0000 - 8 && !InBounds(end) && !end.conn.open
  {
    var f := Frame(ROUTING_ACTIVATION_REQ, []);
    var buf := BuildFrame(f);
    var s := Rx(buf, |buf|, conn, []);
    assert buf + [] == buf && |buf| == 8;
    assert Empty(conn).buf + Fitting(Empty(conn).buf, buf) == buf;
    hide BuildFrame, Parse, Processed, ReceivedAll, Handled, Fitting;
    BuiltFrameParses(f, [], EMBEDDED_MAX_PAYLOAD);
    StaysOpenIff(conn, f, handle);
    ProcessedStep(s, handle);
    assert Received(Empty(conn), buf, handle) == Processed(s, handle);
    hide Received;
    OneSegment(conn, buf, handle);
  }

  lemma {:induction false} OneSegment<S>(conn: Conn<S>, buf: bytes, handle: (S, bytes) -> (S, bytes))
    requires conn.open
    ensures Flatten([buf]) == buf
    ensures ReceivedAll(Empty(conn), [buf], handle) == Received(Empty(conn), buf, handle)
    ensures |buf| <= RX_BUF_SIZE ==> Fits(Empty(conn), [buf], handle)
  {
    hide Received;
    assert [buf][1..] == [];
    assert Flatten([buf]) == buf + Flatten([buf][1..]);
    var s' := Received(Empty(conn), buf, handle);
    assert ReceivedAll(Empty(conn), [buf], handle) == ReceivedAll(s', [buf][1..], handle);
    assert Fits(s', [buf][1..], handle);
  }

  /**
    Segmentation independence: however a stream of well-formed frames is cut, as long as
    each segment fits and no handler closes the connection, the buffer hands the handlers
    the frames that the blocking reader delivers, and is empty in the end.
   */
  lemma {:induction false} SegmentationIndependence<S>(conn: Conn<S>, frames: seq<Frame>, segments: seq<bytes>,
      limit: nat, handle: (S, bytes) -> (S, bytes))
    requires EMBEDDED_MAX_PAYLOAD <= limit < 0x1_0000_0000
    requires forall f | f in frames :: |f.payload| <= EMBEDDED_MAX_PAYLOAD
    requires conn.open && Flatten(segments) == BuildAll(frames) && Fits(Empty(conn), segments, handle)
    requires Survives(conn, frames, handle)
    ensures ReceivedAll(Empty(conn), segments, handle)
         == Rx([], 0, HandledAll(BareMetal, conn, frames, handle), frames)
    ensures Drain(Flatten(segments), limit) == Drained(frames, [], false)
  {
    ShortNeedsMore([]);
    assert [] + Flatten(segments) == Flatten(segments);
    DrainBuildAll(frames, EMBEDDED_MAX_PAYLOAD);
    DrainBuildAll(frames, limit);
    ReceivedAllIsHandled(Empty(conn), segments, handle);
    hide ReceivedAll, Drain, Flatten, BuildAll, Survives, Fits, HandledAll;
    assert [] + frames == frames;
  }

  lemma {:induction false} PrefixNeedsMore(f: Frame, stream: bytes, n: nat)
    requires |f.payload| <= EMBEDDED_MAX_PAYLOAD && n < HEADER_SIZE + |f.payload|
    requires BuildFrame(f) <= stream && n <= |stream|
    ensures Parse(stream[..n], EMBEDDED_MAX_PAYLOAD) == More
  {
    hide U32, U32At, Header;
    if n >= HEADER_SIZE {
      assert Header(f) <= stream[..n];
      HeaderAnnounces(f, stream[..n]);
    }
  }

  /** The buffer after `count` bytes of a stream arrived whose first frame is too large for it. */
  lemma {:induction false} StallsFrom<S>(conn: Conn<S>, f: Frame, stream: bytes, count: nat, segments: seq<bytes>,
      handle: (S, bytes) -> (S, bytes))
    requires conn.open
    requires RX_BUF_SIZE < HEADER_SIZE + |f.payload| && |f.payload| <= EMBEDDED_MAX_PAYLOAD
    requires BuildFrame(f) <= stream && count <= |stream| && stream[count..] == Flatten(segments)
    ensures var held := if count <= RX_BUF_SIZE then count else RX_BUF_SIZE;
            var end := ReceivedAll(Rx(stream[..held], held, conn, []), segments, handle);
            end.conn == conn && end.delivered == [] && |end.buf| == end.length
            && end.buf == stream[..if |stream| <= RX_BUF_SIZE then |stream| else RX_BUF_SIZE]
    decreases |segments|
  {
    hide Parse, BuildFrame, Processed;
    if segments == [] {
    } else {
      var held := if count <= RX_BUF_SIZE then count else RX_BUF_SIZE;
      var next := count + |segments[0]|;
      var held' := if next <= RX_BUF_SIZE then next else RX_BUF_SIZE;
      assert stream[next..] == stream[count..][|segments[0]|..] == Flatten(segments[1..]);
      assert segments[0] == stream[count..next];
      assert stream[..held] + Fitting(stream[..held], segments[0]) == stream[..held'];
      PrefixNeedsMore(f, stream, held');
      ProcessedStep(Rx(stream[..held'], held', conn, []), handle);
      StallsFrom(conn, f, stream, next, segments[1..], handle);
    }
  }

  /**
    A frame whose payload passes the length check but which exceeds the buffer is never
    delivered, and neither is anything after it, however the stream is cut.
   */
  lemma {:induction false} LargeFrameStalls<S>(conn: Conn<S>, f: Frame, stream: bytes, segments: seq<bytes>,
      handle: (S, bytes) -> (S, bytes))
    requires conn.open && RX_BUF_SIZE - HEADER_SIZE < |f.payload| <= EMBEDDED_MAX_PAYLOAD
    requires BuildFrame(f) <= stream && stream == Flatten(segments)
    ensures var end := ReceivedAll(Empty(conn), segments, handle); end.conn == conn && end.delivered == []
  {
    hide BuildFrame, Flatten, ReceivedAll;
    assert stream[0..] == stream && stream[..0] == [];
    StallsFrom(conn, f, stream, 0, segments, handle);
  }

  /** What begins with the header of a frame beyond the length check is refused. */
  lemma {:induction false} TooLongIsBroken(f: Frame, buf: bytes, limit: nat)
    requires limit < |f.payload| < 0x1_0000_0000 && Header(f) <= buf
    ensures Parse(buf, limit) == Broken
  {
    hide Header, U32At;
    HeaderAnnounces(f, buf);
  }

  /** A frame that comes alone is handled exactly up to 1016 bytes; beyond 1024 it closes. */
  lemma {:induction false} LoneFrame<S>(conn: Conn<S>, f: Frame, handle: (S, bytes) -> (S, bytes))
    requires conn.open && |f.payload| < 0x1_0000_0000 && Handled(BareMetal, conn, f, handle).open
    ensures var end := ReceivedAll(Empty(conn), [BuildFrame(f)], handle);
            if |f.payload| <= RX_BUF_SIZE - HEADER_SIZE then end == Rx([], 0, Handled(BareMetal, conn, f, handle), [f])
            else if |f.payload| <= EMBEDDED_MAX_PAYLOAD then
              end == Rx(BuildFrame(f)[..RX_BUF_SIZE], RX_BUF_SIZE, conn, [])
            else end == Rx([], 0, Closed(BareMetal, conn), [])
  {
    hide Parse, Header, Processed, Handled, ReceivedAll, Fits;
    var buf := BuildFrame(f);
    OneSegment(conn, buf, handle);
    assert Empty(conn).buf + buf == buf && buf[..0] == [];
    if |f.payload| <= RX_BUF_SIZE - HEADER_SIZE {
      assert [f][1..] == [];
      assert BuildAll([f]) == buf + BuildAll([f][1..]) == buf;
      SegmentationIndependence(conn, [f], [buf], EMBEDDED_MAX_PAYLOAD, handle);
    } else if |f.payload| <= EMBEDDED_MAX_PAYLOAD {
      assert buf[0..] == buf && buf[..0] == [];
      StallsFrom(conn, f, buf, 0, [buf], handle);
    } else {
      assert Empty(conn).buf + Fitting([], buf) == buf[..RX_BUF_SIZE];
      TooLongIsBroken(f, buf[..RX_BUF_SIZE], EMBEDDED_MAX_PAYLOAD);
      ProcessedStep(Rx(buf[..RX_BUF_SIZE], RX_BUF_SIZE, conn, []), handle);
    }
  }
}
