/**
  The whole way of a firmware image: the client's requests, framed, across a connection,
  through the dispatcher and the session, into the validated image.
 */
module OtaOverDoip {

  import opened Bytes
  import opened Wrappers
  import opened Crc32
  import opened OtaSession
  import opened OtaClient
  import opened DoipConnection
  import opened DoipPairing
  import opened DoipSender
  import DoipBareMetal
  import DoipClient
  import DoipFraming
  import Uds

  // ---------------------------------------------------------------------------------
  // The answers fit every node
  // ---------------------------------------------------------------------------------

  /** The services that a transfer uses; their answers are short. */
  predicate OtaService(req: bytes) {
    req != [] && req[0] in {Uds.SID_SESSION_CONTROL, SID_REQUEST_DOWNLOAD, SID_TRANSFER_DATA, SID_REQUEST_TRANSFER_EXIT}
  }

  lemma {:induction false} SessionAnswerIsShort(s: Session, step: Step)
    ensures |Serve(s, step).1| <= 4
  {
    hide U32At, Fold, Wrap32, Succ, CarriedCrc, Xor;
  }

  lemma {:induction false} AnswerIsShort(n: Uds.Node, ecuId: bytes, step: Step)
    requires |n.lamps.faults| < 256 && OtaService(step.req)
    ensures |Uds.Respond(n, ecuId, step).1| <= 6
  {
    SessionAnswerIsShort(n.ota, step);
    hide Serve;
  }

  lemma {:induction false} DispatcherFits(node: NodeKind, st: Station, ecuId: bytes, reqs: seq<bytes>)
    requires forall req | req in reqs :: Carried(node, req) && OtaService(req)
    ensures AllFit(node, st, reqs, Dispatcher(ecuId))
    decreases |reqs|
  {
    hide Uds.Respond, OtaService, Carried;
    if reqs == [] {
    } else {
      assert reqs[0] in reqs && forall req | req in reqs[1..] :: req in reqs;
      if |st.node.lamps.faults| < 256 {
        AnswerIsShort(st.node, ecuId, Step(reqs[0], NextIo(st.ios)));
      }
      DispatcherFits(node, Dispatcher(ecuId)(st, reqs[0]).0, ecuId, reqs[1..]);
    }
  }

  // ---------------------------------------------------------------------------------
  // The requests of a transfer
  // ---------------------------------------------------------------------------------

  /** The block requests from the `n`-th on, counting from zero. */
  function BlockRequests(blocks: seq<bytes>, n: nat): (reqs: seq<bytes>)
    ensures |reqs| == |blocks|
    decreases |blocks|
  {
    if blocks == [] then []
    else [TransferRequest(CounterAfter(1, n), blocks[0])] + BlockRequests(blocks[1..], n + 1)
  }

  function TransferRequests(firmware: bytes): seq<bytes> {
    [ENTER_EXTENDED_SESSION, DownloadRequest(|firmware|)]
    + BlockRequests(SplitBlocks(firmware, BLOCK_SIZE), 0)
    + [ExitRequest(Checksum(firmware))]
  }

  /** Every answer is positive for the service that its request named. */
  ghost predicate AllPositive(reqs: seq<bytes>, answers: seq<Option<bytes>>) {
    && |answers| == |reqs|
    && forall i | 0 <= i < |reqs| ::
         reqs[i] != [] && answers[i].Some? && CheckPositive(answers[i].value, reqs[i][0])
  }

  lemma AllPositiveConcat(reqs: seq<bytes>, answers: seq<Option<bytes>>, more: seq<bytes>,
      moreAnswers: seq<Option<bytes>>)
    requires AllPositive(reqs, answers) && AllPositive(more, moreAnswers)
    ensures AllPositive(reqs + more, answers + moreAnswers)
  {
    hide CheckPositive;
  }

  lemma AllPositiveCons(req: bytes, resp: bytes, reqs: seq<bytes>, answers: seq<Option<bytes>>)
    requires req != [] && CheckPositive(resp, req[0]) && AllPositive(reqs, answers)
    ensures AllPositive([req] + reqs, [Some(resp)] + answers)
  {
    hide CheckPositive;
  }

  lemma {:induction false} DirectConcat<S>(s: S, a: seq<bytes>, b: seq<bytes>, handle: (S, bytes) -> (S, bytes))
    ensures var (s', first) := Direct(s, a, handle);
            var (s'', second) := Direct(s', b, handle);
            Direct(s, a + b, handle) == (s'', first + second)
    decreases |a|
  {
    if a == [] {
      assert a + b == b;
      var first, second := Direct(s, a, handle).1, Direct(s, b, handle).1;
      assert first + second == second;
    } else {
      assert (a + b)[1..] == a[1..] + b;
      var (s1, resp) := handle(s, a[0]);
      DirectConcat(s1, a[1..], b, handle);
      var (s2, first) := Direct(s1, a[1..], handle);
      var second := Direct(s2, b, handle).1;
      assert [Some(resp)] + (first + second) == ([Some(resp)] + first) + second;
    }
  }

  lemma DirectOne<S>(s: S, req: bytes, handle: (S, bytes) -> (S, bytes))
    ensures Direct(s, [req], handle) == (handle(s, req).0, [Some(handle(s, req).1)])
  {
    assert [req][1..] == [];
    var (s', resp) := handle(s, req);
    assert Direct(s', [], handle) == (s', []);
    assert [Some(resp)] + [] == [Some(resp)];
  }

  // ---------------------------------------------------------------------------------
  // What the dispatcher makes of them
  // ---------------------------------------------------------------------------------

  /** A node with a session, no fault on record out of the ordinary, and I/O that succeeds. */
  function Node(n: Uds.Node, s: Session): Station {
    Station(n.(ota := s), [])
  }

  lemma {:induction false} BlockAccepted(n: Uds.Node, ecuId: bytes, s: Session, h: History, block: bytes)
    returns (s': Session)
    requires |n.lamps.faults| < 256 && s.state == Active && Consistent(s, h) && 1 <= |block| <= BLOCK_SIZE
    ensures s'.state == Active && Consistent(s', h.(blocks := h.blocks + [block]))
    ensures var (st, resp) := Dispatcher(ecuId)(Node(n, s), TransferRequest(CounterAfter(1, |h.blocks|), block));
            st == Node(n, s') && CheckPositive(resp, SID_TRANSFER_DATA)
  {
    hide Consistent, Uds.Respond, Transfer, CounterAfter;
    s' := Transfer(s, TransferRequest(CounterAfter(1, |h.blocks|), block), ALL_OK).0;
    NextBlock(s, h, block, ALL_OK);
    TransferAnswer(n.(ota := s), ecuId, CounterAfter(1, |h.blocks|), block, ALL_OK);
  }

  lemma {:induction false} BlocksAccepted(n: Uds.Node, ecuId: bytes, s: Session, h: History, blocks: seq<bytes>)
    returns (s': Session)
    requires |n.lamps.faults| < 256 && s.state == Active && Consistent(s, h)
    requires forall b | b in blocks :: 1 <= |b| <= BLOCK_SIZE
    ensures s'.state == Active && Consistent(s', h.(blocks := h.blocks + blocks))
    ensures var reqs := BlockRequests(blocks, |h.blocks|);
            var (st, answers) := Direct(Node(n, s), reqs, Dispatcher(ecuId));
            st == Node(n, s') && AllPositive(reqs, answers)
    decreases |blocks|
  {
    hide Consistent, Dispatcher, CounterAfter, CheckPositive, AllPositive;
    assert AllPositive([], []) by {
      NothingIsAllPositive();
    }
    if blocks == [] {
      s' := s;
      assert h.blocks + blocks == h.blocks;
    } else {
      var h1 := h.(blocks := h.blocks + [blocks[0]]);
      var s1 := BlockAccepted(n, ecuId, s, h, blocks[0]);
      s' := BlocksAccepted(n, ecuId, s1, h1, blocks[1..]);
      assert h1.blocks + blocks[1..] == h.blocks + blocks;
      var req := TransferRequest(CounterAfter(1, |h.blocks|), blocks[0]);
      var rest := BlockRequests(blocks[1..], |h1.blocks|);
      AllPositiveCons(req, Dispatcher(ecuId)(Node(n, s), req).1, rest, Direct(Node(n, s1), rest, Dispatcher(ecuId)).1);
    }
  }

  lemma NothingIsAllPositive()
    ensures AllPositive([], [])
  {
  }

  /**
    The requests of a transfer, given to the dispatcher one after the other, are all
    answered positively, and leave the firmware as the validated image.
   */
  lemma {:induction false} TransferSucceeds(n: Uds.Node, ecuId: bytes, firmware: bytes)
    requires |n.lamps.faults| < 256 && n.ota.state != Active && SizeAccepted(|firmware|)
    ensures var reqs := TransferRequests(firmware);
            var (st, answers) := Direct(Station(n, []), reqs, Dispatcher(ecuId));
            && AllPositive(reqs, answers)
            && st.node.ota.state == Complete && st.node.ota.validated == Some(firmware)
            && st.node.lamps == n.lamps
  {
    hide Consistent, Uds.Respond, Download, Exit, SizeAccepted, DownloadRequest, ExitRequest, Checksum, Wrap32,
      SplitBlocks, Direct, AllPositive, Dispatcher, BlockRequests, CheckPositive, Flatten;
    var handle := Dispatcher(ecuId);
    var size := |firmware|;
    var blocks := SplitBlocks(firmware, BLOCK_SIZE);
    var exit := ExitRequest(Checksum(firmware));

    ExtendedSessionAnswer(n, ecuId, ALL_OK);
    FreshSession(n.ota, size, ALL_OK);
    DownloadAnswer(n, ecuId, size, ALL_OK);
    var (s1, accepted) := Download(n.ota, DownloadRequest(size), ALL_OK);
    SplitIsExact(firmware, BLOCK_SIZE);
    var h := History(Wrap32(size), [], n.ota.validated);
    var s2 := BlocksAccepted(n, ecuId, s1, h, blocks);
    assert [] + blocks == blocks;
    LastRequest(s2, h.(blocks := blocks), firmware, ALL_OK);
    OpeningSucceeds(n, ecuId, firmware, s1, accepted);
    ClosingSucceeds(n, ecuId, s2, Checksum(firmware));
    Sequenced(Station(n, []), Node(n, s1), Node(n, s2), [ENTER_EXTENDED_SESSION, DownloadRequest(size)],
              BlockRequests(blocks, 0), [exit], handle);
  }

  /** Three phases, one after the other. */
  lemma {:induction false} Sequenced<S>(s0: S, s1: S, s2: S, a: seq<bytes>, b: seq<bytes>, c: seq<bytes>,
      handle: (S, bytes) -> (S, bytes))
    requires Direct(s0, a, handle).0 == s1 && AllPositive(a, Direct(s0, a, handle).1)
    requires Direct(s1, b, handle).0 == s2 && AllPositive(b, Direct(s1, b, handle).1)
    requires AllPositive(c, Direct(s2, c, handle).1)
    ensures Direct(s0, a + b + c, handle).0 == Direct(s2, c, handle).0
    ensures AllPositive(a + b + c, Direct(s0, a + b + c, handle).1)
  {
    hide Direct, AllPositive;
    DirectConcat(s0, a, b, handle);
    DirectConcat(s0, a + b, c, handle);
    AllPositiveConcat(a, Direct(s0, a, handle).1, b, Direct(s1, b, handle).1);
    AllPositiveConcat(a + b, Direct(s0, a + b, handle).1, c, Direct(s2, c, handle).1);
  }

  lemma {:induction false} ClosingSucceeds(n: Uds.Node, ecuId: bytes, s: Session, crc: bv32)
    requires |n.lamps.faults| < 256
    requires CheckPositive(Exit(s, ExitRequest(crc), ALL_OK).1, SID_REQUEST_TRANSFER_EXIT)
    ensures var (st, answers) := Direct(Node(n, s), [ExitRequest(crc)], Dispatcher(ecuId));
            st == Node(n, Exit(s, ExitRequest(crc), ALL_OK).0) && AllPositive([ExitRequest(crc)], answers)
  {
    ExitAnswer(n.(ota := s), ecuId, crc, ALL_OK);
    FirstByteOfExit(crc);
    hide Uds.Respond, Exit, ExitRequest;
    DirectOne(Node(n, s), ExitRequest(crc), Dispatcher(ecuId));
  }

  lemma {:induction false} OpeningSucceeds(n: Uds.Node, ecuId: bytes, firmware: bytes, s1: Session, accepted: bytes)
    requires |n.lamps.faults| < 256
    requires Uds.Respond(n, ecuId, Step(ENTER_EXTENDED_SESSION, ALL_OK)) == (n, [0x50, 0x03, 0x00, 0x19, 0x01, 0xF4])
    requires Uds.Respond(n, ecuId, Step(DownloadRequest(|firmware|), ALL_OK)) == (n.(ota := s1), accepted)
    requires CheckPositive(accepted, SID_REQUEST_DOWNLOAD)
    ensures var reqs := [ENTER_EXTENDED_SESSION, DownloadRequest(|firmware|)];
            var (st, answers) := Direct(Station(n, []), reqs, Dispatcher(ecuId));
            st == Node(n, s1) && AllPositive(reqs, answers)
  {
    hide Uds.Respond, U32;
    var handle := Dispatcher(ecuId);
    var reqs := [ENTER_EXTENDED_SESSION, DownloadRequest(|firmware|)];
    assert reqs == [reqs[0]] + [reqs[1]];
    DirectConcat(Station(n, []), [reqs[0]], [reqs[1]], handle);
    DirectOne(Station(n, []), reqs[0], handle);
    DirectOne(Station(n, []), reqs[1], handle);
  }

  // ---------------------------------------------------------------------------------
  // Across the connection
  // ---------------------------------------------------------------------------------

  lemma {:induction false} BlockRequestsCarried(node: NodeKind, blocks: seq<bytes>, n: nat)
    requires forall b | b in blocks :: 1 <= |b| <= BLOCK_SIZE
    ensures forall req | req in BlockRequests(blocks, n) :: Carried(node, req) && OtaService(req)
    decreases |blocks|
  {
    if blocks == [] {
    } else {
      BlockRequestsCarried(node, blocks[1..], n + 1);
    }
  }

  lemma {:induction false} TransferRequestsCarried(node: NodeKind, firmware: bytes)
    ensures forall req | req in TransferRequests(firmware) :: Carried(node, req) && OtaService(req)
  {
    SplitIsExact(firmware, BLOCK_SIZE);
    BlockRequestsCarried(node, SplitBlocks(firmware, BLOCK_SIZE), 0);
    FirstByteOfExit(Checksum(firmware));
    hide BlockRequests, SplitBlocks, U32, Checksum;
  }

  /**
    End to end over a connection of any of the three nodes, with the file session behind it:
    if no session is open and the size is accepted, the transfer gets only positive answers
    from `send_uds`, and leaves the validated image equal to the firmware.
   */
  lemma {:induction false} TransferOverConnection(node: NodeKind, l: Link<Station>, ecuId: bytes, firmware: bytes)
    requires Clean(l) && Serving(node, l.conn) && l.conn.server.ios == []
    requires |l.conn.server.node.lamps.faults| < 256 && l.conn.server.node.ota.state != Active
    requires SizeAccepted(|firmware|)
    ensures var reqs := TransferRequests(firmware);
            var (l', answers) := Conversation(node, l, reqs, Dispatcher(ecuId));
            && AllPositive(reqs, answers) && Clean(l')
            && l'.conn.server.node.ota.state == Complete && l'.conn.server.node.ota.validated == Some(firmware)
  {
    var reqs := TransferRequests(firmware);
    TransferRequestsCarried(node, firmware);
    hide Conversation, Direct, Dispatcher, AllPositive, SizeAccepted, TransferRequests, Serving, AllFit, Clean;
    DispatcherFits(node, l.conn.server, ecuId, reqs);
    RequestsPairWithResponses(node, l, reqs, Dispatcher(ecuId));
    TransferSucceeds(l.conn.server.node, ecuId, firmware);
  }

  /** And from accept on, over one stream in any segments, with the activation before it. */
  lemma {:induction false} TransferOverStream(node: NodeKind, n: Uds.Node, out: Out, ecuId: bytes, firmware: bytes,
      segments: seq<bytes>)
    requires |n.lamps.faults| < 256 && n.ota.state != Active && SizeAccepted(|firmware|)
    requires out.wire == [] && Ready(node, out)
    requires Flatten(segments) == DoipFraming.BuildAll(SessionFrames(TransferRequests(firmware)))
    requires node == BareMetal ==>
               DoipBareMetal.Fits(DoipBareMetal.Empty(Conn(Station(n, []), false, true, out)), segments,
                                  Dispatcher(ecuId))
    ensures var reqs := TransferRequests(firmware);
            var e := Served(node, Conn(Station(n, []), false, true, out), segments, Dispatcher(ecuId));
            var (on, rest) := DoipClient.AwaitActivation(e.out.wire);
            && on && AllPositive(reqs, DoipClient.AwaitAll(rest, |reqs|).0)
            && e.server.node.ota.state == Complete && e.server.node.ota.validated == Some(firmware)
  {
    var reqs := TransferRequests(firmware);
    TransferRequestsCarried(node, firmware);
    hide Direct, Dispatcher, AllPositive, SizeAccepted, TransferRequests, Serving, AllFit, Served, SessionFrames;
    DispatcherFits(node, Station(n, []), ecuId, reqs);
    WholeSessionPairs(node, Station(n, []), out, reqs, segments, Dispatcher(ecuId));
    TransferSucceeds(n, ecuId, firmware);
  }
}
