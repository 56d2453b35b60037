/**
  Frames of the generic DoIP header of ISO 13400-2, and two ways of cutting them out of a
  byte stream: in one go, and with a reader that blocks for header and payload.
 */
module DoipFraming {

  import opened Bytes
  import opened Wrappers

  const PROTOCOL_VERSION: byte := 0xFD
  const INVERSE_VERSION: byte := 0x02
  const HEADER_SIZE: nat := 8

  /** The caps on the payload length: the Linux node, and the two embedded nodes. */
  const LINUX_MAX_PAYLOAD: nat := 65536
  const EMBEDDED_MAX_PAYLOAD: nat := 1024

  /** The receive buffer of the bare-metal node. */
  const RX_BUF_SIZE: nat := 1024

  datatype Frame = Frame(kind: bv16, payload: bytes)

  function Header(f: Frame): (header: bytes)
    ensures |header| == HEADER_SIZE
  {
    [PROTOCOL_VERSION, INVERSE_VERSION, Hi(f.kind), Lo(f.kind)] + U32(|f.payload|)
  }

  function BuildFrame(f: Frame): bytes {
    Header(f) + f.payload
  }

  function BuildAll(frames: seq<Frame>): bytes {
    if frames == [] then [] else BuildFrame(frames[0]) + BuildAll(frames[1..])
  }

  // ---------------------------------------------------------------------------------
  // Cutting a stream
  // ---------------------------------------------------------------------------------

  datatype Parsed = More | Broken | Whole(frame: Frame, rest: bytes)

  /** The first frame of a buffer, if it is there in full. */
  function Parse(buf: bytes, limit: nat): (p: Parsed)
    ensures p.Whole? ==> |p.rest| < |buf|
  {
    if |buf| < HEADER_SIZE then More
    else if buf[0] != PROTOCOL_VERSION then Broken
    else
      var plen := U32At(buf, 4);
      if plen > limit then Broken
      else if |buf| < HEADER_SIZE + plen then More
      else Whole(Frame(U16(buf[2], buf[3]), buf[HEADER_SIZE..HEADER_SIZE + plen]), buf[HEADER_SIZE + plen..])
  }

  datatype Drained = Drained(frames: seq<Frame>, rest: bytes, broken: bool)

  function Drain(buf: bytes, limit: nat): (d: Drained)
    ensures |d.rest| <= |buf|
    decreases |buf|
  {
    match Parse(buf, limit)
    case More => Drained([], buf, false)
    case Broken => Drained([], [], true)
    case Whole(frame, rest) =>
      var d := Drain(rest, limit);
      d.(frames := [frame] + d.frames)
  }

  lemma {:induction false} DrainStep(buf: bytes, limit: nat)
    ensures match Parse(buf, limit)
            case More => Drain(buf, limit) == Drained([], buf, false)
            case Broken => Drain(buf, limit) == Drained([], [], true)
            case Whole(frame, rest) =>
              var d := Drain(rest, limit); Drain(buf, limit) == Drained([frame] + d.frames, d.rest, d.broken)
  {
    hide Parse;
  }

  lemma ParseExtends(a: bytes, b: bytes, limit: nat)
    ensures match Parse(a, limit)
            case More => true
            case Broken => Parse(a + b, limit) == Broken
            case Whole(frame, rest) => Parse(a + b, limit) == Whole(frame, rest + b)
  {
    hide U32, Weigh;
    if |a| >= HEADER_SIZE {
      assert U32At(a, 4) == U32At(a + b, 4);
      hide U32At;
    }
  }

  /** What was cut out already stays; the rest goes on with what follows. */
  lemma {:induction false} DrainConcat(a: bytes, b: bytes, limit: nat)
    ensures var d := Drain(a, limit);
            if d.broken then Drain(a + b, limit) == d
            else
              var e := Drain(d.rest + b, limit);
              Drain(a + b, limit) == Drained(d.frames + e.frames, e.rest, e.broken)
    decreases |a|
  {
    hide Parse, Drain;
    ParseExtends(a, b, limit);
    DrainStep(a, limit);
    DrainStep(a + b, limit);
    var p := Parse(a, limit);
    if !p.Whole? {
    } else {
      DrainConcat(p.rest, b, limit);
      var d := Drain(p.rest, limit);
      var e := Drain(d.rest + b, limit);
      assert [p.frame] + (d.frames + e.frames) == ([p.frame] + d.frames) + e.frames;
    }
  }

  lemma BuiltFrameParses(f: Frame, tail: bytes, limit: nat)
    requires |f.payload| <= limit < 0x1_0000_0000
    ensures Parse(BuildFrame(f) + tail, limit) == Whole(f, tail)
  {
    U32RoundTrip(|f.payload|);
    Wrap32Small(|f.payload|);
    U16RoundTrip(f.kind);
    var size := U32(|f.payload|);
    var buf := BuildFrame(f) + tail;
    assert buf[4] == size[0] && buf[5] == size[1] && buf[6] == size[2] && buf[7] == size[3];
    assert U32At(buf, 4) == U32At(size, 0);
    assert buf[2] == Hi(f.kind) && buf[3] == Lo(f.kind);
    hide U32, U32At, Wrap32, U16, Hi, Lo;
    assert buf[HEADER_SIZE..HEADER_SIZE + |f.payload|] == f.payload;
    assert buf[HEADER_SIZE + |f.payload|..] == tail;
  }

  lemma Wrap32Small(n: nat)
    requires n < 0x1_0000_0000
    ensures Wrap32(n) == n
  {
  }

  /** Round trip: well-formed frames come out of the stream that they make up. */
  lemma {:induction false} DrainBuildAll(frames: seq<Frame>, limit: nat)
    requires limit < 0x1_0000_0000
    requires forall f | f in frames :: |f.payload| <= limit
    ensures Drain(BuildAll(frames), limit) == Drained(frames, [], false)
    decreases |frames|
  {
    hide Parse, BuildFrame;
    if frames == [] {
      EmptyNeedsMore(limit);
    } else {
      BuiltFrameParses(frames[0], BuildAll(frames[1..]), limit);
      DrainBuildAll(frames[1..], limit);
    }
  }

  lemma EmptyNeedsMore(limit: nat)
    ensures Parse([], limit) == More
  {
  }

  lemma {:induction false} RestNeedsMore(buf: bytes, limit: nat)
    requires !Drain(buf, limit).broken
    ensures Parse(Drain(buf, limit).rest, limit) == More
    decreases |buf|
  {
    hide Parse;
    var p := Parse(buf, limit);
    if !p.Whole? {
    } else {
      RestNeedsMore(p.rest, limit);
    }
  }

  /** Whatever begins with the header of a frame announces its payload. */
  lemma {:induction false} HeaderAnnounces(f: Frame, buf: bytes)
    requires |f.payload| < 0x1_0000_0000 && Header(f) <= buf
    ensures buf[0] == PROTOCOL_VERSION && U32At(buf, 4) == |f.payload|
  {
    U32RoundTrip(|f.payload|);
    Wrap32Small(|f.payload|);
    var size := U32(|f.payload|);
    assert buf[4] == size[0] && buf[5] == size[1] && buf[6] == size[2] && buf[7] == size[3];
    assert U32At(buf, 4) == U32At(size, 0);
    hide U32, U32At, Wrap32;
  }

  // ---------------------------------------------------------------------------------
  // The blocking reader
  // ---------------------------------------------------------------------------------

  /** A connection whose peer has sent `segments` and then closed. */
  class Socket {
    var segments: seq<bytes>

    constructor (segments: seq<bytes>)
      ensures this.segments == segments
    {
      this.segments := segments;
    }

    ghost function Stream(): bytes
      reads this
    {
      Flatten(segments)
    }

    /** `recv`: at most `n` bytes, and never across a segment; nothing at the end. */
    method Recv(n: nat) returns (chunk: bytes)
      requires n > 0
      modifies this
      ensures |chunk| <= n && old(Stream()) == chunk + Stream()
      ensures chunk == [] <==> old(Stream()) == []
    {
      while segments != [] && segments[0] == []
        invariant Stream() == old(Stream())
        decreases |segments|
      {
        segments := segments[1..];
      }
      if segments == [] {
        return [];
      }
      var first := segments[0];
      if |first| <= n {
        segments := segments[1..];
        return first;
      }
      chunk := first[..n];
      assert ([first[n..]] + segments[1..])[1..] == segments[1..];
      assert first == chunk + first[n..];
      segments := [first[n..]] + segments[1..];
    }

    /** `RecvFull`, and `RecvExact` on the Zephyr node. */
    method RecvFull(n: nat) returns (ok: bool, buf: bytes)
      modifies this
      ensures ok <==> |old(Stream())| >= n
      ensures ok ==> buf == old(Stream())[..n] && Stream() == old(Stream())[n..]
    {
      buf := [];
      while |buf| < n
        invariant |buf| <= n
        invariant old(Stream()) == buf + Stream()
        decreases n - |buf|
      {
        var chunk := Recv(n - |buf|);
        if chunk == [] {
          return false, buf;
        }
        buf := buf + chunk;
      }
      return true, buf;
    }
  }

  /** One turn of the read loop: header, checks, payload. */
  method ReadFrame(socket: Socket, limit: nat) returns (frame: Option<Frame>)
    modifies socket
    ensures match Parse(old(socket.Stream()), limit)
            case Whole(f, rest) => frame == Some(f) && socket.Stream() == rest
            case _ => frame == None
  {
    hide U32At, Flatten;
    ghost var stream := socket.Stream();
    var ok, hdr := socket.RecvFull(HEADER_SIZE);
    if !ok {
      return None;
    }
    SameLength(stream, hdr);
    if hdr[0] != PROTOCOL_VERSION {
      return None;
    }
    var plen := U32At(hdr, 4);
    if plen > limit {
      return None;
    }
    var payload;
    ok, payload := socket.RecvFull(plen);
    if !ok {
      return None;
    }
    assert payload == stream[HEADER_SIZE..HEADER_SIZE + plen];
    return Some(Frame(U16(hdr[2], hdr[3]), payload));
  }

  lemma SameLength(stream: bytes, hdr: bytes)
    requires |stream| >= HEADER_SIZE && hdr == stream[..HEADER_SIZE]
    ensures U32At(hdr, 4) == U32At(stream, 4)
  {
  }

  /** The blocking reader on a whole connection. */
  method ReadFrames(socket: Socket, limit: nat) returns (frames: seq<Frame>)
    modifies socket
    ensures frames == Drain(old(socket.Stream()), limit).frames
  {
    hide Parse, Flatten, Drain;
    frames := [];
    ghost var all := Drain(socket.Stream(), limit).frames;
    while true
      invariant all == frames + Drain(socket.Stream(), limit).frames
      decreases |socket.Stream()|
    {
      DrainStep(socket.Stream(), limit);
      var frame := ReadFrame(socket, limit);
      if frame.None? {
        return;
      }
      assert frames + ([frame.value] + Drain(socket.Stream(), limit).frames)
          == (frames + [frame.value]) + Drain(socket.Stream(), limit).frames;
      frames := frames + [frame.value];
    }
  }
}
