/**
  The Zephyr node as a whole: the diagnostic dispatcher with the flash session behind a
  DoIP connection.

  It gives the same answers, byte for byte, as with the file session; so what is proved of
  a firmware transfer over a connection carries over to the flash slot and the upgrade flag.
 */
module DoipFlash {

  import opened Bytes
  import opened Wrappers
  import opened DoipFraming
  import opened DoipSender
  import opened DoipConnection
  import opened DoipPairing
  import opened OtaZephyr
  import OtaSession
  import OtaClient
  import OtaOverDoip
  import DoipClient
  import FunctionManager
  import Uds

  datatype FlashNode = FlashNode(lamps: FunctionManager.Lamps, ota: FlashSession)

  /** The dispatcher, with the return codes of its next requests. */
  datatype FlashStation = FlashStation(node: FlashNode, ios: seq<FlashIo>)

  function NextFlashIo(ios: seq<FlashIo>): FlashIo {
    if ios == [] then FLASH_OK else ios[0]
  }

  /** What the other services see of a session: whether it is active. */
  function Seen(z: FlashSession): OtaSession.Session {
    OtaSession.Session(z.state, z.expectedSize, z.receivedSize, z.nextBlockSeq, z.runningCrc, z.areaOpen, None, None)
  }

  predicate FlashService(req: bytes) {
    req != [] && req[0] in {OtaSession.SID_REQUEST_DOWNLOAD, OtaSession.SID_TRANSFER_DATA,
                            OtaSession.SID_REQUEST_TRANSFER_EXIT}
  }

  /**
    One request: the OTA services go to the flash session; the others are the same code as
    on the Linux node, and see no more of the session than that.
   */
  function FlashRespond(n: FlashNode, ecuId: bytes, step: FlashStep): (FlashNode, bytes)
    requires |n.lamps.faults| < 256
  {
    if FlashService(step.req) then
      var (z, resp) := FlashServe(n.ota, step);
      (n.(ota := z), resp)
    else
      var (m, resp) := Uds.Respond(Uds.Node(n.lamps, Seen(n.ota)), ecuId, FileStep(step));
      (n.(lamps := m.lamps), resp)
  }

  function FlashDispatch(ecuId: bytes, st: FlashStation, req: bytes): (FlashStation, bytes) {
    if |st.node.lamps.faults| >= 256 then (st, [])
    else
      var (node, resp) := FlashRespond(st.node, ecuId, FlashStep(req, NextFlashIo(st.ios)));
      (FlashStation(node, if st.ios == [] then [] else st.ios[1..]), resp)
  }

  function FlashDispatcher(ecuId: bytes): (FlashStation, bytes) -> (FlashStation, bytes) {
    (st: FlashStation, req: bytes) => FlashDispatch(ecuId, st, req)
  }

  // ---------------------------------------------------------------------------------
  // Twins: a flash station and a file station
  // ---------------------------------------------------------------------------------

  function FileIos(ios: seq<FlashIo>): (fs: seq<OtaSession.Io>)
    ensures |fs| == |ios|
  {
    seq(|ios|, i requires 0 <= i < |ios| => FileIo(ios[i]))
  }

  /** What a completed transfer left in the slot is what it left as the validated image. */
  predicate Promoted(z: FlashSession, s: OtaSession.Session) {
    s.state == OtaSession.Complete ==> z.upgradePending && s.validated == Some(z.stream.InFlash())
  }

  ghost predicate Twins(a: FlashStation, b: Station) {
    && a.node.lamps == b.node.lamps && FileIos(a.ios) == b.ios
    && Corresponds(a.node.ota, b.node.ota) && Promoted(a.node.ota, b.node.ota)
  }

  /** A request that a completed session survives leaves it as it is. */
  lemma {:induction false} CompleteStays(z: FlashSession, s: OtaSession.Session, step: FlashStep)
    requires Corresponds(z, s) && z.state == OtaSession.Complete
    ensures var z', s' := FlashServe(z, step).0, OtaSession.Serve(s, FileStep(step)).0;
            && (z'.state == s'.state == OtaSession.Active || z'.state == s'.state == OtaSession.Complete)
            && z'.upgradePending == z.upgradePending
            && (z'.state == OtaSession.Complete ==>
                  s'.validated == s.validated && z'.stream == z.stream)
  {
    hide U32At, Hi, Lo, Wrap32, OtaSession.CarriedCrc, Crc32.Fold;
  }

  /** The state becomes complete only by an accepted 0x37. */
  lemma {:induction false} CompleteOnlyByExit(s: OtaSession.Session, step: OtaSession.Step)
    requires s.state != OtaSession.Complete && OtaSession.Serve(s, step).0.state == OtaSession.Complete
    ensures step.req != [] && step.req[0] == OtaSession.SID_REQUEST_TRANSFER_EXIT
    ensures OtaSession.Positive(OtaSession.Serve(s, step).1, OtaSession.SID_REQUEST_TRANSFER_EXIT)
  {
    hide U32At, Hi, Lo, Wrap32, OtaSession.CarriedCrc, Crc32.Fold;
  }

  lemma {:induction false} ServeKeepsPromoted(z: FlashSession, s: OtaSession.Session, step: FlashStep)
    requires Corresponds(z, s) && Promoted(z, s)
    ensures Promoted(FlashServe(z, step).0, OtaSession.Serve(s, FileStep(step)).0)
  {
    ServeLockstep(z, s, step);
    if z.state == OtaSession.Complete {
      hide FlashServe, OtaSession.Serve;
      CompleteStays(z, s, step);
    } else if OtaSession.Serve(s, FileStep(step)).0.state == OtaSession.Complete {
      CompleteOnlyByExit(s, FileStep(step));
      ExitLockstep(z, s, step.req, step.io);
      hide FlashExit, OtaSession.Exit;
    }
  }

  lemma {:induction false} RespondLockstep(a: FlashNode, b: Uds.Node, ecuId: bytes, step: FlashStep)
    requires a.lamps == b.lamps && |a.lamps.faults| < 256
    requires Corresponds(a.ota, b.ota) && Promoted(a.ota, b.ota)
    ensures var (a', x) := FlashRespond(a, ecuId, step);
            var (b', y) := Uds.Respond(b, ecuId, FileStep(step));
            x == y && a'.lamps == b'.lamps && Corresponds(a'.ota, b'.ota) && Promoted(a'.ota, b'.ota)
  {
    hide FlashServe, OtaSession.Serve, Promoted, Uds.SessionControl, Uds.ClearDiagnostic, Uds.RoutineControl,
      Uds.ReadDtc;
    if FlashService(step.req) {
      ServeLockstep(a.ota, b.ota, step);
      ServeKeepsPromoted(a.ota, b.ota, step);
    }
  }

  lemma {:induction false} DispatchLockstep(a: FlashStation, b: Station, ecuId: bytes, req: bytes)
    requires Twins(a, b)
    ensures FlashDispatcher(ecuId)(a, req).1 == Dispatcher(ecuId)(b, req).1
    ensures Twins(FlashDispatcher(ecuId)(a, req).0, Dispatcher(ecuId)(b, req).0)
  {
    hide FlashRespond, Uds.Respond, Corresponds, Promoted;
    if |a.node.lamps.faults| < 256 {
      var step := FlashStep(req, NextFlashIo(a.ios));
      assert FileStep(step) == OtaSession.Step(req, NextIo(b.ios));
      RespondLockstep(a.node, b.node, ecuId, step);
      if a.ios != [] {
        assert FileIos(a.ios[1..]) == FileIos(a.ios)[1..];
      }
    }
  }

  // ---------------------------------------------------------------------------------
  // Whole connections
  // ---------------------------------------------------------------------------------

  /** The same connection, seen from outside, with twins behind it. */
  ghost predicate TwinConns(a: Conn<FlashStation>, b: Conn<Station>) {
    Twins(a.server, b.server) && a.routing == b.routing && a.open == b.open && a.out == b.out
  }

  lemma {:induction false} HandledLockstep(node: NodeKind, a: Conn<FlashStation>, b: Conn<Station>, f: Frame,
      ecuId: bytes)
    requires TwinConns(a, b)
    ensures TwinConns(Handled(node, a, f, FlashDispatcher(ecuId)), Handled(node, b, f, Dispatcher(ecuId)))
  {
    hide Twins, SendFrame, Dispatcher, FlashDispatcher, Ack, Response, RoutingResponse, ResponseFits;
    if f.kind == DIAGNOSTIC_MESSAGE && Addressed(f.payload) {
      DispatchLockstep(a.server, b.server, ecuId, f.payload[4..]);
    }
  }

  /**
    Whatever frames come in, and whatever fails, a connection with the flash session behind
    it sends the same bytes as one with the file session.
   */
  lemma {:induction false} ConnectionsInLockstep(node: NodeKind, a: Conn<FlashStation>, b: Conn<Station>,
      frames: seq<Frame>, ecuId: bytes)
    requires TwinConns(a, b)
    ensures TwinConns(HandledAll(node, a, frames, FlashDispatcher(ecuId)),
                      HandledAll(node, b, frames, Dispatcher(ecuId)))
    decreases |frames|
  {
    hide Handled, Twins, Dispatcher, FlashDispatcher;
    if frames == [] || !a.open {
    } else {
      HandledLockstep(node, a, b, frames[0], ecuId);
      ConnectionsInLockstep(node, Handled(node, a, frames[0], FlashDispatcher(ecuId)),
                            Handled(node, b, frames[0], Dispatcher(ecuId)), frames[1..], ecuId);
    }
  }

  /**
    End to end into the flash: from accept on, over one stream in any segments, a transfer to
    the Zephyr node gets only positive answers, and leaves the firmware in the slot with the
    upgrade flag set.
   */
  lemma {:induction false} FlashTransferOverStream(n: FlashNode, out: Out, ecuId: bytes, firmware: bytes,
      segments: seq<bytes>)
    requires |n.lamps.faults| < 256 && OtaClient.SizeAccepted(|firmware|)
    requires n.ota.state != OtaSession.Active && !n.ota.areaOpen
    requires n.ota.state == OtaSession.Complete ==> n.ota.upgradePending
    requires out.wire == [] && Ready(Zephyr, out)
    requires Flatten(segments) == BuildAll(SessionFrames(OtaOverDoip.TransferRequests(firmware)))
    ensures var reqs := OtaOverDoip.TransferRequests(firmware);
            var e := Served(Zephyr, Conn(FlashStation(n, []), false, true, out), segments, FlashDispatcher(ecuId));
            var (on, rest) := DoipClient.AwaitActivation(e.out.wire);
            && on && OtaOverDoip.AllPositive(reqs, DoipClient.AwaitAll(rest, |reqs|).0)
            && e.server.node.ota.state == OtaSession.Complete && e.server.node.ota.upgradePending
            && e.server.node.ota.stream.InFlash() == firmware
  {
    var m := FileTwin(n);
    var a := Conn(FlashStation(n, []), false, true, out);
    var b := Conn(Station(m, []), false, true, out);
    TwinsAtStart(n);
    hide *;
    OtaOverDoip.TransferOverStream(Zephyr, m, out, ecuId, firmware, segments);
    ServedInLockstep(a, b, segments, ecuId);
    TwinsComplete(Served(Zephyr, a, segments, FlashDispatcher(ecuId)), Served(Zephyr, b, segments, Dispatcher(ecuId)));
  }

  /** A file station that a flash station is the twin of. */
  function FileTwin(n: FlashNode): (m: Uds.Node)
    ensures m.lamps == n.lamps && m.ota.state == n.ota.state
  {
    Uds.Node(n.lamps, Seen(n.ota).(validated := Some(n.ota.stream.InFlash())))
  }

  lemma TwinsAtStart(n: FlashNode)
    requires n.ota.state != OtaSession.Active && !n.ota.areaOpen
    requires n.ota.state == OtaSession.Complete ==> n.ota.upgradePending
    ensures Twins(FlashStation(n, []), Station(FileTwin(n), []))
  {
  }

  lemma ServedInLockstep(a: Conn<FlashStation>, b: Conn<Station>, segments: seq<bytes>, ecuId: bytes)
    requires TwinConns(a, b)
    ensures TwinConns(Served(Zephyr, a, segments, FlashDispatcher(ecuId)),
                      Served(Zephyr, b, segments, Dispatcher(ecuId)))
  {
    ConnectionsInLockstep(Zephyr, a, b, Drain(Flatten(segments), Max(Zephyr)).frames, ecuId);
    hide TwinConns, HandledAll, Dispatcher, FlashDispatcher;
  }

  lemma TwinsComplete(a: Conn<FlashStation>, b: Conn<Station>)
    requires TwinConns(a, b) && b.server.node.ota.state == OtaSession.Complete
    ensures a.out == b.out && a.server.node.ota.state == OtaSession.Complete && a.server.node.ota.upgradePending
    ensures b.server.node.ota.validated == Some(a.server.node.ota.stream.InFlash())
  {
  }
}
