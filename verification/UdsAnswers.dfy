/**
  What the diagnostic dispatcher answers, byte for byte, and the fault read-out in terms of
  the identifiers that travel on the wire.
 */
module UdsAnswers {

  import opened Bytes
  import opened LampTypes
  import opened Faults
  import opened FunctionManager
  import opened Uds
  import opened UdsClient
  import OtaSession

  // ---------------------------------------------------------------------------------
  // Identifiers
  // ---------------------------------------------------------------------------------

  /** Routine identifiers and fault codes are the same five numbers, one for each lamp. */
  lemma CodeIsIdentifier(f: LampFunction, id: bv16)
    ensures FaultCodeOf(LeftIndicator) == 0xB001 && FaultCodeOf(RightIndicator) == 0xB002
    ensures FaultCodeOf(HazardLamp) == 0xB003 && FaultCodeOf(ParkLamp) == 0xB004 && FaultCodeOf(HeadLamp) == 0xB005
    ensures Known(RoutineIdToLampFunction(id)) <==> 0xB001 <= id <= 0xB005
    ensures !Known(RoutineIdToLampFunction(id)) <==> RoutineIdToLampFunction(id) == UnknownFunction
    ensures Known(f) ==> (RoutineIdToLampFunction(id) == f <==> FaultCodeOf(f) == id)
  {
  }

  // ---------------------------------------------------------------------------------
  // One answer
  // ---------------------------------------------------------------------------------

  /** What `Respond` does for a request that is not for the OTA session. */
  function Answer(n: Node, ecuId: bytes, req: bytes): (Node, bytes)
    requires |n.lamps.faults| < 256
  {
    Respond(n, ecuId, OtaSession.Step(req, OtaSession.ALL_OK))
  }

  lemma IoDoesNotMatter(n: Node, ecuId: bytes, req: bytes, io: OtaSession.Io)
    requires |n.lamps.faults| < 256 && (req == [] || req[0] !in {0x34, 0x36, 0x37})
    ensures Respond(n, ecuId, OtaSession.Step(req, io)) == Answer(n, ecuId, req)
    ensures Respond(n, ecuId, OtaSession.Step(req, io)).0.ota == n.ota
  {
    hide SessionControl, ReadByIdentifier, ClearDiagnostic, RoutineControl, ReadDtc, OtaSession.Serve;
  }

  /** Routine control: when it is accepted, the refusals, and the response. */
  lemma RoutineAnswer(n: Node, ecuId: bytes, req: bytes)
    requires |n.lamps.faults| < 256 && req != [] && req[0] == 0x31
    ensures var (after, resp) := Answer(n, ecuId, req);
            if |req| < 4 then after == n && resp == [0x7F, 0x31, 0x31]
            else if req[1] != 1 && req[1] != 2 then after == n && resp == [0x7F, 0x31, 0x12]
            else if !(0xB001 <= U16(req[2], req[3]) <= 0xB005) then after == n && resp == [0x7F, 0x31, 0x31]
            else resp == [0x71, req[1], req[2], req[3]]
  {
    if |req| >= 4 {
      CodeIsIdentifier(UnknownFunction, U16(req[2], req[3]));
    }
    hide InjectFaultInto, ClearFaultIn, RoutineIdToLampFunction, U16;
  }

  lemma RoutineReaches(n: Node, ecuId: bytes, req: bytes)
    requires |n.lamps.faults| < 256 && |req| >= 4 && req[0] == 0x31 && (req[1] == 1 || req[1] == 2)
    requires Known(RoutineIdToLampFunction(U16(req[2], req[3])))
    ensures var f := RoutineIdToLampFunction(U16(req[2], req[3]));
            Answer(n, ecuId, req).0.lamps
            == if req[1] == 1 then InjectFaultInto(n.lamps, f) else ClearFaultIn(n.lamps, f)
  {
    hide U16, InjectFaultInto, ClearFaultIn, RoutineIdToLampFunction;
  }

  /**
    What an accepted routine does: identifier 0xB001 is for the left indicator, and so on up
    to 0xB005 for the head lamp.  A start faults and darkens that lamp, a stop clears its
    fault, and everything else is as before.
   */
  lemma RoutineActs(n: Node, ecuId: bytes, req: bytes, k: nat, g: LampFunction)
    requires Interlocked(n.lamps) && Distinct(n.lamps.faults) && |n.lamps.faults| < 256 && Known(g)
    requires |req| >= 4 && req[0] == 0x31 && (req[1] == 1 || req[1] == 2) && k < 5
    requires U16(req[2], req[3]) == [0xB001, 0xB002, 0xB003, 0xB004, 0xB005][k]
    ensures var l, l' := n.lamps, Answer(n, ecuId, req).0.lamps;
            var f := [LeftIndicator, RightIndicator, HazardLamp, ParkLamp, HeadLamp][k];
            && (g != f ==> l'.Get(g) == l.Get(g))
            && (req[1] == 1 ==> f in l'.faults && !l'.IsOn(f))
            && (req[1] == 2 ==> f !in l'.faults && l'.Get(f) == l.Get(f))
            && (forall h | h != f :: h in l'.faults <==> h in l.faults)
  {
    var f := [LeftIndicator, RightIndicator, HazardLamp, ParkLamp, HeadLamp][k];
    assert RoutineIdToLampFunction(U16(req[2], req[3])) == f;
    hide U16, InjectFaultInto, ClearFaultIn, Interlocked, Distinct, RoutineIdToLampFunction, Respond;
    assert Answer(n, ecuId, req).0.lamps
        == if req[1] == 1 then InjectFaultInto(n.lamps, f) else ClearFaultIn(n.lamps, f) by {
      RoutineReaches(n, ecuId, req);
    }
    hide Answer, Lamps.Get;
    InjectOutcome(n.lamps, f, g);
    InjectOutcome(n.lamps, f, f);
    ClearOutcome(n.lamps, f, g);
    ClearOutcome(n.lamps, f, f);
  }

  /** Clear: the full group and only that, which clears every fault and leaves the lamps. */
  lemma ClearAnswer(n: Node, ecuId: bytes, req: bytes, g: LampFunction)
    requires |n.lamps.faults| < 256 && req != [] && req[0] == 0x14 && Known(g)
    ensures var (after, resp) := Answer(n, ecuId, req);
            && after.lamps.Get(g) == n.lamps.Get(g)
            && (if |req| >= 4 && req[1..4] == [0xFF, 0xFF, 0xFF] then resp == [0x54] && after.lamps.faults == []
                else resp == [0x7F, 0x14, 0x31] && after == n)
  {
  }

  /** Session control: the two sessions, with bit 7 ignored, and their timing. */
  lemma SessionAnswer(n: Node, ecuId: bytes, req: bytes)
    requires |n.lamps.faults| < 256 && req != [] && req[0] == 0x10
    ensures var (after, resp) := Answer(n, ecuId, req);
            && after == n
            && (if |req| < 2 then resp == [0x7F, 0x10, 0x31]
                else if req[1] in {0x01, 0x81} then resp == [0x50, 0x01, 0x00, 0x19, 0x01, 0xF4]
                else if req[1] in {0x03, 0x83} then resp == [0x50, 0x03, 0x00, 0x19, 0x01, 0xF4]
                else resp == [0x7F, 0x10, 0x12])
  {
  }

  /** What a lamp's state reads as. */
  function StateCode(o: OutputState): byte {
    match o
    case Off => 1
    case On => 2
    case UnknownState => 0
    case OutOfRangeState => 0xFF
  }

  /** Read by identifier: the lamp states in their order, the health, the ECU, and the refusals. */
  lemma ReadAnswer(n: Node, ecuId: bytes, req: bytes)
    requires |n.lamps.faults| < 256 && req != [] && req[0] == 0x22
    ensures var (after, resp) := Answer(n, ecuId, req);
            && after == n
            && (|req| < 3 ==> resp == [0x7F, 0x22, 0x31])
            && (|req| >= 3 && req[1] == 0xF1 && req[2] == 0x90 ==> resp == [0x62, 0xF1, 0x90] + ecuId)
            && (|req| >= 3 && req[1] == 0xF1 && req[2] == 0x01 ==>
                  resp == [0x62, 0xF1, 0x01, StateCode(n.lamps.left.outputState), StateCode(n.lamps.right.outputState),
                           StateCode(n.lamps.hazard.outputState), StateCode(n.lamps.park.outputState),
                           StateCode(n.lamps.head.outputState)])
            && (|req| >= 3 && req[1] == 0xF1 && req[2] == 0x02 ==>
                  && |resp| == 6 && resp[..3] == [0x62, 0xF1, 0x02]
                  && (resp[3] == 0x04 <==> n.ota.state == OtaSession.Active)
                  && (resp[3] == 0x03 <==> n.ota.state != OtaSession.Active && n.lamps.faults != [])
                  && (resp[3] == 0x01 <==> n.ota.state != OtaSession.Active && n.lamps.faults == [])
                  && resp[4] == (if n.lamps.faults == [] then 0x03 else 0x07)
                  && resp[5] as nat == |n.lamps.faults|)
            && (|req| >= 3 && (req[1] != 0xF1 || req[2] !in {0x90, 0x01, 0x02, 0x03}) ==> resp == [0x7F, 0x22, 0x31])
  {
    if |req| >= 3 {
      IdentifierBytes(req[1], req[2]);
    }
    hide EncodeActiveFaults, U16, ByteOf;
  }

  lemma IdentifierBytes(hi: byte, lo: byte)
    ensures U16(hi, lo) == 0xF190 <==> hi == 0xF1 && lo == 0x90
    ensures U16(hi, lo) == 0xF101 <==> hi == 0xF1 && lo == 0x01
    ensures U16(hi, lo) == 0xF102 <==> hi == 0xF1 && lo == 0x02
    ensures U16(hi, lo) == 0xF103 <==> hi == 0xF1 && lo == 0x03
  {
  }

  /** Read DTCs: the supported ones are all five with the confirmed status; and the refusals. */
  lemma DtcAnswer(n: Node, ecuId: bytes, req: bytes, j: nat)
    requires |n.lamps.faults| < 256 && req != [] && req[0] == 0x19 && j < 5
    ensures var (after, resp) := Answer(n, ecuId, req);
            && after == n
            && (|req| < 2 ==> resp == [0x7F, 0x19, 0x31])
            && (|req| >= 2 && req[1] == 0x0A ==>
                  && |resp| == 23 && resp[..3] == [0x59, 0x0A, 0x09]
                  && RecordsIn(resp[3..], 5)[j] == Dtc(0x00, [0xB001, 0xB002, 0xB003, 0xB004, 0xB005][j], 0x08))
            && (|req| >= 2 && req[1] == 0x02 ==> |resp| >= 3 && resp[..3] == [0x59, 0x02, 0x09])
            && (|req| >= 2 && req[1] != 0x02 && req[1] != 0x0A ==> resp == [0x7F, 0x19, 0x12])
  {
    var codes := Codes(ALL_FUNCTIONS);
    assert codes == [0xB001, 0xB002, 0xB003, 0xB004, 0xB005];
    RecordsRoundTrip(codes, 0x08);
    hide EncodeDtcs, Codes, RecordsIn;
    var encoded := EncodeDtcs(codes, 0x08);
    assert ([0x59, 0x0A, 0x09] + encoded)[3..] == encoded;
    assert RecordsIn(encoded, 5) == RecordsOf(codes, 0x08);
    if |req| >= 2 && req[1] == 0x0A {
      assert Answer(n, ecuId, req).1 == [0x59, 0x0A, 0x09] + encoded;
    }
  }

  /** A service that the node does not have, and no service at all. */
  lemma UnknownAnswer(n: Node, ecuId: bytes, req: bytes)
    requires |n.lamps.faults| < 256
    requires req == [] || req[0] !in {0x10, 0x14, 0x19, 0x22, 0x31, 0x34, 0x36, 0x37}
    ensures Answer(n, ecuId, req) == (n, [0x7F, if req == [] then 0x00 else req[0], 0x11])
  {
  }

  // ---------------------------------------------------------------------------------
  // The read-out by identifiers
  // ---------------------------------------------------------------------------------

  /** What a request and its positive response say, in the bytes of the wire. */
  datatype WireOp = StartRoutine(id: bv16) | StopRoutine(id: bv16) | ClearGroup

  function Heard(req: bytes, resp: bytes): seq<WireOp> {
    if |req| >= 4 && resp != [] && req[0] == 0x31 && resp[0] == 0x71 then
      [if req[1] == 1 then StartRoutine(U16(req[2], req[3])) else StopRoutine(U16(req[2], req[3]))]
    else if req != [] && resp != [] && req[0] == 0x14 && resp[0] == 0x54 then [ClearGroup]
    else []
  }

  function HeardAll(n: Node, ecuId: bytes, steps: seq<OtaSession.Step>): (wire: seq<WireOp>)
    requires Distinct(n.lamps.faults)
    decreases |steps|
  {
    if steps == [] then []
    else
      var k := |steps| - 1;
      var before := ServeAll(n, ecuId, steps[..k]).0;
      HeardAll(n, ecuId, steps[..k]) + Heard(steps[k].req, Respond(before, ecuId, steps[k]).1)
  }

  /** The two views of an operation. */
  predicate SameOp(w: WireOp, op: FaultOp) {
    match w
    case StartRoutine(id) => op.Inject? && Known(op.f) && FaultCodeOf(op.f) == id
    case StopRoutine(id) => op.Clear? && Known(op.f) && FaultCodeOf(op.f) == id
    case ClearGroup => op.ClearAll?
  }

  ghost predicate SameOps(wire: seq<WireOp>, ops: seq<FaultOp>) {
    |wire| == |ops| && forall i | 0 <= i < |wire| :: SameOp(wire[i], ops[i])
  }

  lemma {:induction false} HeardIsObserved(n: Node, ecuId: bytes, step: OtaSession.Step)
    requires |n.lamps.faults| < 256
    ensures var resp := Respond(n, ecuId, step).1; SameOps(Heard(step.req, resp), Observed(step.req, resp))
  {
    var req, resp := step.req, Respond(n, ecuId, step).1;
    if |req| >= 4 && req[0] == 0x31 {
      RoutineAnswer(n, ecuId, req);
      IoDoesNotMatter(n, ecuId, req, step.io);
      var id := U16(req[2], req[3]);
      CodeIsIdentifier(RoutineIdToLampFunction(id), id);
    }
    hide Respond, U16, RoutineIdToLampFunction, FaultCodeOf;
  }

  lemma {:induction false} HeardAllIsObserved(n: Node, ecuId: bytes, steps: seq<OtaSession.Step>)
    requires Distinct(n.lamps.faults)
    ensures SameOps(HeardAll(n, ecuId, steps), ServeAll(n, ecuId, steps).1)
    decreases |steps|
  {
    hide Respond, Heard, Observed, SameOp, Distinct;
    if steps == [] {
    } else {
      var k := |steps| - 1;
      HeardAllIsObserved(n, ecuId, steps[..k]);
      HeardIsObserved(ServeAll(n, ecuId, steps[..k]).0, ecuId, steps[k]);
    }
  }

  /** Identifier `id` was started at `i`, and neither stopped nor cleared since. */
  ghost predicate StartedAt(wire: seq<WireOp>, id: bv16, i: nat) {
    && i < |wire| && wire[i] == StartRoutine(id)
    && (forall k | i < k < |wire| :: wire[k] != StopRoutine(id) && wire[k] != ClearGroup)
  }

  /** The first such start, if it stands. */
  ghost predicate StartedSince(wire: seq<WireOp>, id: bv16, i: nat) {
    StartedAt(wire, id, i) && forall k | 0 <= k < i :: !StartedAt(wire, id, k)
  }

  /** The identifiers that were started and neither stopped nor cleared since, oldest first. */
  ghost predicate StandingIds(wire: seq<WireOp>, ids: seq<bv16>, since: seq<nat>) {
    && |since| == |ids|
    && (forall j | 0 <= j < |ids| :: StartedSince(wire, ids[j], since[j]))
    && (forall j, k | 0 <= j < k < |ids| :: since[j] < since[k])
    && (forall id, i: nat | StartedAt(wire, id, i) :: id in ids)
  }

  lemma StartedMeansStands(wire: seq<WireOp>, ops: seq<FaultOp>, f: LampFunction, i: nat)
    requires SameOps(wire, ops) && Known(f)
    ensures StartedAt(wire, FaultCodeOf(f), i) <==> StandsFrom(ops, f, i)
  {
    forall k | 0 <= k < |ops|
      ensures wire[k] == StartRoutine(FaultCodeOf(f)) <==> ops[k] == FaultOp.Inject(f)
      ensures wire[k] == StopRoutine(FaultCodeOf(f)) <==> ops[k] == FaultOp.Clear(f)
      ensures wire[k] == ClearGroup <==> ops[k] == FaultOp.ClearAll
    {
      assert SameOp(wire[k], ops[k]);
      if !ops[k].ClearAll? {
        if FaultCodeOf(ops[k].f) == FaultCodeOf(f) {
          CodesDistinct(f, ops[k].f);
        }
      }
    }
  }

  lemma ChronicleInIds(wire: seq<WireOp>, ops: seq<FaultOp>, order: seq<LampFunction>, since: seq<nat>)
    requires SameOps(wire, ops) && Chronicles(ops, order, since)
    ensures StandingIds(wire, Codes(order), since)
  {
    hide StandsFrom, StartedAt, SameOps, FaultCodeOf;
    forall j | 0 <= j < |order|
      ensures StartedSince(wire, Codes(order)[j], since[j])
    {
      assert Since(ops, order[j], since[j]) && Known(order[j]);
      forall k: nat
        ensures StartedAt(wire, FaultCodeOf(order[j]), k) <==> StandsFrom(ops, order[j], k)
      {
        StartedMeansStands(wire, ops, order[j], k);
      }
    }
    forall id, i: nat | StartedAt(wire, id, i)
      ensures id in Codes(order)
    {
      var f := StarterOf(wire, ops, id, i);
      StartedMeansStands(wire, ops, f, i);
      assert f in order;
      var j :| 0 <= j < |order| && order[j] == f;
      assert Codes(order)[j] == id;
    }
  }

  lemma StarterOf(wire: seq<WireOp>, ops: seq<FaultOp>, id: bv16, i: nat) returns (f: LampFunction)
    requires SameOps(wire, ops) && StartedAt(wire, id, i)
    ensures Known(f) && FaultCodeOf(f) == id
  {
    assert SameOp(wire[i], ops[i]);
    f := ops[i].f;
  }

  /**
    Diagnostic round trip, from wire to wire: after any requests, both read-outs decode to
    the identifiers of the routines that were started, and neither stopped nor cleared
    since, oldest first.
   */
  lemma ReadOutIsStarted(n: Node, ecuId: bytes, steps: seq<OtaSession.Step>, io: OtaSession.Io)
    returns (ids: seq<bv16>, since: seq<nat>)
    requires n.lamps.faults == []
    ensures var after := ServeAll(n, ecuId, steps).0;
            var faults := Respond(after, ecuId, OtaSession.Step([0x22, 0xF1, 0x03], io)).1;
            var dtcs := Respond(after, ecuId, OtaSession.Step([0x19, 0x02, 0x09], io)).1;
            && StandingIds(HeardAll(n, ecuId, steps), ids, since)
            && |faults| > 3 && CodesIn(faults[3..], faults[3] as nat) == ids
            && |dtcs| >= 3 && |RecordsIn(dtcs[3..], (|dtcs| - 3) / 4)| == |ids|
            && (forall j | 0 <= j < |ids| :: RecordsIn(dtcs[3..], (|dtcs| - 3) / 4)[j] == Dtc(0x00, ids[j], 0x09))
  {
    hide Respond, HeardAll, ServeAll, CodesIn, RecordsIn, Codes, StandingIds, SameOps, Chronicles;
    since := DiagnosticRoundTrip(n, ecuId, steps, io);
    var (after, seen) := ServeAll(n, ecuId, steps);
    ids := Codes(after.lamps.faults);
    HeardAllIsObserved(n, ecuId, steps);
    ChronicleInIds(HeardAll(n, ecuId, steps), seen, after.lamps.faults, since);
    assert READ_FAULTS == [0x22, 0xF1, 0x03] && READ_DTCS == [0x19, 0x02, 0x09];
  }
}
