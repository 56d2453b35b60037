/**
  The client's half of a DoIP connection.
 */
module DoipClient {

  import opened Bytes
  import opened Wrappers
  import opened DoipFraming
  import opened DoipSender
  import opened DoipConnection

  const TESTER_ADDRESS: bytes := [0x0E, 0x00]

  /** `_recv_doip_frame`: the client checks neither version nor length. */
  function NextFrame(stream: bytes): (r: Option<(Frame, bytes)>)
    ensures r.Some? ==> |r.value.1| < |stream|
  {
    if |stream| < HEADER_SIZE then None
    else
      var length := U32At(stream, 4);
      if |stream| < HEADER_SIZE + length then None
      else Some((Frame(U16(stream[2], stream[3]), stream[HEADER_SIZE..HEADER_SIZE + length]),
                 stream[HEADER_SIZE + length..]))
  }

  /**
    The reading half of `send_uds`, and what it leaves unread; `None` is an exception, or
    the wait for more.
   */
  function AwaitResponse(stream: bytes): (r: (Option<bytes>, bytes))
    ensures |r.1| <= |stream|
    decreases |stream|
  {
    match NextFrame(stream)
    case None => (None, stream)
    case Some((f, rest)) =>
      if f.kind == DIAGNOSTIC_MESSAGE_ACK then AwaitResponse(rest)
      else if f.kind == DIAGNOSTIC_MESSAGE && |f.payload| >= 4 then (Some(f.payload[4..]), rest)
      else (None, rest)
  }

  function UdsMessage(uds: bytes): Frame {
    Frame(DIAGNOSTIC_MESSAGE, TESTER_ADDRESS + NODE_ADDRESS + uds)
  }

  method RecvDoipFrame(socket: Socket) returns (frame: Option<Frame>)
    modifies socket
    ensures match NextFrame(old(socket.Stream()))
            case None => frame == None
            case Some((f, rest)) => frame == Some(f) && socket.Stream() == rest
  {
    hide U32At, Flatten;
    ghost var stream := socket.Stream();
    var ok, header := socket.RecvFull(HEADER_SIZE);
    if !ok {
      return None;
    }
    SameLength(stream, header);
    var length := U32At(header, 4);
    var payload;
    ok, payload := socket.RecvFull(length);
    if !ok {
      return None;
    }
    assert payload == stream[HEADER_SIZE..HEADER_SIZE + length];
    return Some(Frame(U16(header[2], header[3]), payload));
  }

  /** `send_uds`: one request out, and its response in, however the replies are cut. */
  method SendUds(out: Sender, replies: Socket, uds: bytes) returns (sent: bool, response: Option<bytes>)
    modifies out, replies
    ensures (out.View(), sent) == Push(old(out.View()), BuildFrame(UdsMessage(uds)))
    ensures response == if sent then AwaitResponse(old(replies.Stream())).0 else None
    ensures sent && response.Some? ==> replies.Stream() == AwaitResponse(old(replies.Stream())).1
  {
    hide NextFrame, Flatten, Push, BuildFrame;
    sent := out.SendAll(BuildFrame(UdsMessage(uds)));
    if !sent {
      return false, None;
    }
    while true
      invariant AwaitResponse(replies.Stream()) == AwaitResponse(old(replies.Stream()))
      invariant out.View() == Push(old(out.View()), BuildFrame(UdsMessage(uds))).0
      decreases |replies.Stream()|
    {
      var frame := RecvDoipFrame(replies);
      if frame.None? {
        return true, None;
      }
      if frame.value.kind != DIAGNOSTIC_MESSAGE_ACK {
        if frame.value.kind == DIAGNOSTIC_MESSAGE && |frame.value.payload| >= 4 {
          return true, Some(frame.value.payload[4..]);
        }
        return true, None;
      }
    }
  }

  // ---------------------------------------------------------------------------------
  // A session
  // ---------------------------------------------------------------------------------

  const ROUTING_REQUEST := Frame(ROUTING_ACTIVATION_REQ, TESTER_ADDRESS + [0, 0, 0, 0, 0])

  /** The reading half of `activate_routing`. */
  function AwaitActivation(stream: bytes): (bool, bytes) {
    match NextFrame(stream)
    case None => (false, stream)
    case Some((f, rest)) =>
      (f.kind == ROUTING_ACTIVATION_RESP && |f.payload| >= 5 && f.payload[4] == ROUTING_ACTIVATED, rest)
  }

  /** `activate_routing`. */
  method ActivateRouting(out: Sender, replies: Socket) returns (ok: bool)
    modifies out, replies
    ensures var (o, sent) := Push(old(out.View()), BuildFrame(ROUTING_REQUEST));
            var (on, rest) := AwaitActivation(old(replies.Stream()));
            out.View() == o && ok == (sent && on) && (ok ==> replies.Stream() == rest)
  {
    hide NextFrame, Push, BuildFrame, Flatten;
    var sent := out.SendAll(BuildFrame(ROUTING_REQUEST));
    if !sent {
      return false;
    }
    var frame := RecvDoipFrame(replies);
    if frame.None? {
      return false;
    }
    var f := frame.value;
    return f.kind == ROUTING_ACTIVATION_RESP && |f.payload| >= 5 && f.payload[4] == ROUTING_ACTIVATED;
  }

  /** `n` responses, one after the other, and what they leave unread. */
  function AwaitAll(stream: bytes, n: nat): (r: (seq<Option<bytes>>, bytes))
    ensures |r.0| == n
    decreases n
  {
    if n == 0 then ([], stream)
    else
      var (answer, rest) := AwaitResponse(stream);
      var (answers, left) := AwaitAll(rest, n - 1);
      ([answer] + answers, left)
  }

  function Messages(reqs: seq<bytes>): (frames: seq<Frame>)
    ensures |frames| == |reqs|
  {
    seq(|reqs|, i requires 0 <= i < |reqs| => UdsMessage(reqs[i]))
  }

  ghost predicate AllAnswered(answers: seq<Option<bytes>>) {
    forall a | a in answers :: a.Some?
  }

  /** The requests of a session, each sent when the one before it was answered. */
  method SendAllUds(out: Sender, replies: Socket, reqs: seq<bytes>) returns (ok: bool, responses: seq<bytes>)
    requires Healthy(out.View())
    modifies out, replies
    ensures var (answers, left) := AwaitAll(old(replies.Stream()), |reqs|);
            && (ok <==> AllAnswered(answers))
            && (ok ==> && |responses| == |reqs| && replies.Stream() == left
                       && (forall i | 0 <= i < |reqs| :: answers[i] == Some(responses[i]))
                       && out.wire == old(out.wire) + BuildAll(Messages(reqs)))
  {
    hide AwaitResponse, AwaitAll, BuildFrame, BuildAll, Messages, Push, Healthy;
    responses := [];
    ghost var start := replies.Stream();
    ghost var answers := AwaitAll(start, |reqs|).0;
    NothingSent(reqs, old(out.wire));
    for i := 0 to |reqs|
      invariant |responses| == i && Healthy(out.View())
      invariant forall k | 0 <= k < i :: answers[k] == Some(responses[k])
      invariant answers[i..] == AwaitAll(replies.Stream(), |reqs| - i).0
      invariant AwaitAll(start, |reqs|).1 == AwaitAll(replies.Stream(), |reqs| - i).1
      invariant out.wire == old(out.wire) + BuildAll(Messages(reqs[..i]))
    {
      PushWhole(out.View(), BuildFrame(UdsMessage(reqs[i])));
      ghost var before := replies.Stream();
      AwaitFirst(before, |reqs| - i);
      var sent, response := SendUds(out, replies, reqs[i]);
      assert answers[i] == answers[i..][0] == response;
      assert answers[i + 1..] == answers[i..][1..];
      if response.None? {
        assert answers[i] in answers;
        return false, [];
      }
      OneMore(reqs, i);
      responses := responses + [response.value];
    }
    assert reqs[..|reqs|] == reqs;
    AwaitNone(replies.Stream());
    return true, responses;
  }

  lemma NothingSent(reqs: seq<bytes>, wire: bytes)
    ensures wire == wire + BuildAll(Messages(reqs[..0]))
  {
  }

  lemma AwaitNone(stream: bytes)
    ensures AwaitAll(stream, 0) == ([], stream)
  {
  }

  lemma AwaitFirst(stream: bytes, n: nat)
    requires n > 0
    ensures var (answer, rest) := AwaitResponse(stream);
            AwaitAll(stream, n) == ([answer] + AwaitAll(rest, n - 1).0, AwaitAll(rest, n - 1).1)
  {
    hide AwaitResponse;
  }

  lemma {:induction false} BuildAllAppend(frames: seq<Frame>, last: Frame)
    ensures BuildAll(frames + [last]) == BuildAll(frames) + BuildFrame(last)
  {
    hide BuildFrame;
    if frames == [] {
      assert frames + [last] == [last];
      assert BuildAll([last]) == BuildFrame(last) + BuildAll([last][1..]);
    } else {
      assert (frames + [last])[1..] == frames[1..] + [last];
      BuildAllAppend(frames[1..], last);
    }
  }

  lemma OneMore(reqs: seq<bytes>, i: nat)
    requires i < |reqs|
    ensures BuildAll(Messages(reqs[..i + 1])) == BuildAll(Messages(reqs[..i])) + BuildFrame(UdsMessage(reqs[i]))
  {
    hide BuildFrame, BuildAll;
    assert Messages(reqs[..i + 1]) == Messages(reqs[..i]) + [UdsMessage(reqs[i])];
    BuildAllAppend(Messages(reqs[..i]), UdsMessage(reqs[i]));
  }
}
