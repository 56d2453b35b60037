/**
  The read-out side of the Python diagnostic client, and the round trip from the requests
  that inject and clear faults to the lists that the client prints.
 */
module UdsClient {

  import opened Bytes
  import opened LampTypes
  import opened Faults
  import opened FunctionManager
  import opened Uds
  import OtaSession

  // ---------------------------------------------------------------------------------
  // The decode loops
  // ---------------------------------------------------------------------------------

  /** The codes among the first `n` of a DID payload whose two bytes are present. */
  function CodesIn(data: bytes, n: nat): seq<FaultCode> {
    if n == 0 then []
    else if 2 * n < |data| then CodesIn(data, n - 1) + [U16(data[2 * n - 1], data[2 * n])]
    else CodesIn(data, n - 1)
  }

  /** The bytes from `start` on, none if there are fewer. */
  function From(resp: bytes, start: nat): bytes {
    if start <= |resp| then resp[start..] else []
  }

  /** `read_fault_codes` on a positive 0x22 response, however short. */
  method ReadFaultCodes(resp: bytes) returns (codes: seq<FaultCode>)
    ensures codes == if |resp| <= 3 then [] else CodesIn(resp[3..], resp[3] as nat)
  {
    var data := From(resp, 3);
    codes := [];
    if data == [] {
      return;
    }
    var count := data[0] as nat;
    for i := 0 to count
      invariant codes == CodesIn(data, i)
    {
      var offset := 1 + i * 2;
      if offset + 1 < |data| {
        codes := codes + [U16(data[offset], data[offset + 1])];
      }
    }
  }

  /** A DTC record: a 24-bit code and its status. */
  datatype Dtc = Dtc(high: byte, code: FaultCode, status: byte)

  function RecordsIn(data: bytes, n: nat): (records: seq<Dtc>)
    requires 4 * n <= |data|
    ensures |records| == n
  {
    if n == 0 then []
    else
      RecordsIn(data, n - 1) + [Dtc(data[4 * n - 4], U16(data[4 * n - 3], data[4 * n - 2]), data[4 * n - 1])]
  }

  /** `read_dtc_information` on a positive 0x19 response, however short. */
  method ReadDtcInformation(resp: bytes) returns (records: seq<Dtc>)
    ensures records == if |resp| <= 3 then [] else RecordsIn(resp[3..], (|resp| - 3) / 4)
  {
    var data := From(resp, 3);
    records := [];
    var offset := 0;
    ghost var n := 0;
    while offset + 3 < |data|
      invariant offset == 4 * n <= |data|
      invariant records == RecordsIn(data, n)
    {
      records := records
        + [Dtc(data[offset], U16(data[offset + 1], data[offset + 2]), data[offset + 3])];
      offset := offset + 4;
      n := n + 1;
    }
  }

  // ---------------------------------------------------------------------------------
  // Decoding what the node encodes
  // ---------------------------------------------------------------------------------

  lemma {:induction false} EncodeCodesSize(codes: seq<FaultCode>)
    ensures |EncodeCodes(codes)| == 2 * |codes|
  {
    if codes == [] {
    } else {
      EncodeCodesSize(codes[..|codes| - 1]);
    }
  }

  /** The loop only looks at the bytes it has counted up to. */
  lemma {:induction false} CodesInPrefix(data: bytes, more: bytes, n: nat)
    requires 2 * n < |data|
    ensures CodesIn(data + more, n) == CodesIn(data, n)
  {
    if n == 0 {
    } else {
      CodesInPrefix(data, more, n - 1);
    }
  }

  lemma {:induction false} CodesRoundTrip(count: byte, codes: seq<FaultCode>)
    ensures CodesIn([count] + EncodeCodes(codes), |codes|) == codes
  {
    if codes == [] {
    } else {
      var n := |codes| - 1;
      var head := [count] + EncodeCodes(codes[..n]);
      var tail := [Hi(codes[n]), Lo(codes[n])];
      EncodeCodesSize(codes[..n]);
      CodesRoundTrip(count, codes[..n]);
      assert [count] + EncodeCodes(codes) == head + tail;
      CodesInPrefix(head, tail, n);
      U16RoundTrip(codes[n]);
      assert (head + tail)[2 * n + 1] == tail[0] && (head + tail)[2 * n + 2] == tail[1];
    }
  }

  lemma {:induction false} EncodeDtcsSize(codes: seq<FaultCode>, status: byte)
    ensures |EncodeDtcs(codes, status)| == 4 * |codes|
  {
    if codes == [] {
    } else {
      EncodeDtcsSize(codes[..|codes| - 1], status);
    }
  }

  lemma {:induction false} RecordsInPrefix(data: bytes, more: bytes, n: nat)
    requires 4 * n <= |data|
    ensures RecordsIn(data + more, n) == RecordsIn(data, n)
  {
    if n == 0 {
    } else {
      RecordsInPrefix(data, more, n - 1);
    }
  }

  function RecordsOf(codes: seq<FaultCode>, status: byte): seq<Dtc> {
    seq(|codes|, i requires 0 <= i < |codes| => Dtc(0x00, codes[i], status))
  }

  lemma {:induction false} RecordsRoundTrip(codes: seq<FaultCode>, status: byte)
    ensures |EncodeDtcs(codes, status)| == 4 * |codes|
    ensures RecordsIn(EncodeDtcs(codes, status), |codes|) == RecordsOf(codes, status)
  {
    EncodeDtcsSize(codes, status);
    if codes == [] {
    } else {
      var n := |codes| - 1;
      var head := EncodeDtcs(codes[..n], status);
      var tail := [0x00, Hi(codes[n]), Lo(codes[n]), status];
      RecordsRoundTrip(codes[..n], status);
      RecordsInPrefix(head, tail, n);
      U16RoundTrip(codes[n]);
    }
  }

  // ---------------------------------------------------------------------------------
  // From requests to read-out
  // ---------------------------------------------------------------------------------

  /** What a request and its response say happened to the fault table. */
  function Observed(req: bytes, resp: bytes): seq<FaultOp> {
    if |req| >= 4 && resp != [] && req[0] == SID_ROUTINE_CONTROL && resp[0] == 0x71 then
      var f := RoutineIdToLampFunction(U16(req[2], req[3]));
      [if req[1] == 0x01 then FaultOp.Inject(f) else FaultOp.Clear(f)]
    else if req != [] && resp != [] && req[0] == SID_CLEAR_DIAGNOSTIC && resp[0] == 0x54 then [FaultOp.ClearAll]
    else []
  }

  /** The node after serving `steps` in order, and the fault operations seen on the wire. */
  function ServeAll(n: Node, ecuId: bytes, steps: seq<OtaSession.Step>): (r: (Node, seq<FaultOp>))
    requires Distinct(n.lamps.faults)
    ensures Distinct(r.0.lamps.faults) && |r.0.lamps.faults| <= 5
    decreases |steps|
  {
    Pigeonhole(n.lamps.faults);
    if steps == [] then (n, [])
    else
      var k := |steps| - 1;
      var (before, seen) := ServeAll(n, ecuId, steps[..k]);
      var (after, resp) := Respond(before, ecuId, steps[k]);
      RespondPerforms(before, ecuId, steps[k]);
      Pigeonhole(after.lamps.faults);
      (after, seen + Observed(steps[k].req, resp))
  }

  /** The fault table moves exactly by the operation that the wire shows. */
  lemma RespondPerforms(n: Node, ecuId: bytes, step: OtaSession.Step)
    requires Distinct(n.lamps.faults) && |n.lamps.faults| <= 5
    ensures var (after, resp) := Respond(n, ecuId, step);
            var seen := Observed(step.req, resp);
            && Distinct(after.lamps.faults)
            && (seen == [] ==> after.lamps == n.lamps)
            && (seen != [] ==> |seen| == 1 && after.lamps.faults == Faults.Perform(n.lamps.faults, seen[0]))
  {
    hide OtaSession.Serve, ReadByIdentifier, ReadDtc, SessionControl, Distinct, Without, WithInjected, U16;
    var req := step.req;
    if |req| >= 4 && req[0] == SID_ROUTINE_CONTROL {
      var f := RoutineIdToLampFunction(U16(req[2], req[3]));
      WithoutMembers(n.lamps.faults, f);
      InjectedStaysDistinct(n.lamps.faults, f);
    }
    NoFaultsAreDistinct();
  }

  lemma NoFaultsAreDistinct()
    ensures Distinct([])
  {
  }

  lemma InjectedStaysDistinct(order: seq<LampFunction>, f: LampFunction)
    requires Distinct(order)
    ensures Distinct(WithInjected(order, f))
  {
  }

  lemma {:induction false} TableFollowsTheWire(n: Node, ecuId: bytes, steps: seq<OtaSession.Step>)
    requires n.lamps.faults == []
    ensures var (after, seen) := ServeAll(n, ecuId, steps); after.lamps.faults == Faults.PerformAll(seen)
    decreases |steps|
  {
    hide Respond, Observed;
    if steps == [] {
    } else {
      var k := |steps| - 1;
      TableFollowsTheWire(n, ecuId, steps[..k]);
      var (before, seen) := ServeAll(n, ecuId, steps[..k]);
      RespondPerforms(before, ecuId, steps[k]);
      var op := Observed(steps[k].req, Respond(before, ecuId, steps[k]).1);
      if op == [] {
        assert seen + op == seen;
      } else {
        assert (seen + op)[..|seen|] == seen;
      }
    }
  }

  /** Requests for the two read-outs, as the client sends them. */
  const READ_FAULTS: bytes := [SID_READ_BY_IDENTIFIER, 0xF1, 0x03]
  const READ_DTCS: bytes := [SID_READ_DTC, 0x02, 0x09]

  /**
    Diagnostic round trip: after any requests, both read-outs decode to the codes that
    were injected and not cleared since, oldest first.
   */
  lemma DiagnosticRoundTrip(n: Node, ecuId: bytes, steps: seq<OtaSession.Step>, io: OtaSession.Io)
    returns (since: seq<nat>)
    requires n.lamps.faults == []
    ensures var (after, seen) := ServeAll(n, ecuId, steps);
            var order := after.lamps.faults;
            var faults := Respond(after, ecuId, OtaSession.Step(READ_FAULTS, io)).1;
            var dtcs := Respond(after, ecuId, OtaSession.Step(READ_DTCS, io)).1;
            && Chronicles(seen, order, since)
            && |faults| > 3 && CodesIn(faults[3..], faults[3] as nat) == Codes(order)
            && |dtcs| >= 3 && RecordsIn(dtcs[3..], (|dtcs| - 3) / 4) == RecordsOf(Codes(order), DTC_STATUS_ACTIVE)
  {
    var (after, seen) := ServeAll(n, ecuId, steps);
    var order := after.lamps.faults;
    TableFollowsTheWire(n, ecuId, steps);
    since := FaultTableChronicle(seen);
    ReadFaultsAnswer(after, ecuId, io);
    ReadDtcsAnswer(after, ecuId, io);
  }

  lemma ReadFaultsAnswer(n: Node, ecuId: bytes, io: OtaSession.Io)
    requires |n.lamps.faults| <= 5
    ensures var resp := Respond(n, ecuId, OtaSession.Step(READ_FAULTS, io)).1;
            |resp| > 3 && CodesIn(resp[3..], resp[3] as nat) == Codes(n.lamps.faults)
  {
    var order := n.lamps.faults;
    var resp := Respond(n, ecuId, OtaSession.Step(READ_FAULTS, io)).1;
    assert U16(0xF1, 0x03) == DID_ACTIVE_FAULTS;
    assert resp == [0x62, 0xF1, 0x03] + EncodeActiveFaults(order);
    CodesRoundTrip(ByteOf(|order|), Codes(order));
    assert resp[3..] == EncodeActiveFaults(order);
  }

  lemma ReadDtcsAnswer(n: Node, ecuId: bytes, io: OtaSession.Io)
    requires |n.lamps.faults| <= 5
    ensures var resp := Respond(n, ecuId, OtaSession.Step(READ_DTCS, io)).1;
            |resp| >= 3 && RecordsIn(resp[3..], (|resp| - 3) / 4) == RecordsOf(Codes(n.lamps.faults), DTC_STATUS_ACTIVE)
  {
    var codes := Codes(n.lamps.faults);
    var resp := Respond(n, ecuId, OtaSession.Step(READ_DTCS, io)).1;
    assert resp == [0x59, 0x02, 0x09] + EncodeDtcs(codes, DTC_STATUS_ACTIVE);
    RecordsRoundTrip(codes, DTC_STATUS_ACTIVE);
    assert resp[3..] == EncodeDtcs(codes, DTC_STATUS_ACTIVE);
  }
}
