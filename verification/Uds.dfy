/**
  The diagnostic dispatcher of the node and the two read-out loops of the Python client.

  Services as named in ISO 14229-1: 0x10 session control, 0x14 clear, 0x19 read DTCs,
  0x22 read by identifier, 0x31 routine control, and the three OTA services.
 */
module Uds {

  import opened Bytes
  import opened LampTypes
  import opened Faults
  import opened FunctionManager
  import opened SomeIp
  import OtaSession

  const SID_SESSION_CONTROL: byte := 0x10
  const SID_CLEAR_DIAGNOSTIC: byte := 0x14
  const SID_READ_DTC: byte := 0x19
  const SID_READ_BY_IDENTIFIER: byte := 0x22
  const SID_ROUTINE_CONTROL: byte := 0x31

  const NRC_SERVICE_NOT_SUPPORTED: byte := 0x11
  const NRC_SUB_FUNCTION_NOT_SUPPORTED: byte := 0x12
  const NRC_REQUEST_OUT_OF_RANGE: byte := 0x31

  const DID_ECU_IDENTIFICATION: bv16 := 0xF190
  const DID_LAMP_STATUS: bv16 := 0xF101
  const DID_NODE_HEALTH: bv16 := 0xF102
  const DID_ACTIVE_FAULTS: bv16 := 0xF103

  const DTC_SUB_BY_STATUS_MASK: byte := 0x02
  const DTC_SUB_SUPPORTED: byte := 0x0A
  const DTC_STATUS_ACTIVE: byte := 0x09
  const DTC_STATUS_CONFIRMED: byte := 0x08

  /** What the dispatcher serves: the lamp store and the OTA session. */
  datatype Node = Node(lamps: Lamps, ota: OtaSession.Session)

  function Negative(sid: byte, nrc: byte): bytes {
    OtaSession.Negative(sid, nrc)
  }

  // ---------------------------------------------------------------------------------
  // Encoders
  // ---------------------------------------------------------------------------------

  function EncodeCodes(codes: seq<FaultCode>): bytes {
    if codes == [] then []
    else
      var n := |codes| - 1;
      EncodeCodes(codes[..n]) + [Hi(codes[n]), Lo(codes[n])]
  }

  /** The active-fault DID: a count, then two bytes a code. */
  function EncodeActiveFaults(order: seq<LampFunction>): bytes
    requires |order| < 256
  {
    [ByteOf(|order|)] + EncodeCodes(Codes(order))
  }

  /** DTC records: three bytes of code, one of status. */
  function EncodeDtcs(codes: seq<FaultCode>, status: byte): bytes {
    if codes == [] then []
    else
      var n := |codes| - 1;
      EncodeDtcs(codes[..n], status) + [0x00, Hi(codes[n]), Lo(codes[n]), status]
  }

  function EncodeLampStatus(l: Lamps): bytes {
    [StateByte(l.left.outputState), StateByte(l.right.outputState), StateByte(l.hazard.outputState),
     StateByte(l.park.outputState), StateByte(l.head.outputState)]
  }

  function EncodeNodeHealth(n: Node): bytes
    requires |n.lamps.faults| < 256
  {
    [if n.ota.state == OtaSession.Active then 0x04 else if n.lamps.faults != [] then 0x03 else 0x01,
     if n.lamps.faults != [] then 0x07 else 0x03,
     ByteOf(|n.lamps.faults|)]
  }

  // ---------------------------------------------------------------------------------
  // The services
  // ---------------------------------------------------------------------------------

  function SessionControl(req: bytes): bytes {
    if |req| < 2 then Negative(SID_SESSION_CONTROL, NRC_REQUEST_OUT_OF_RANGE)
    else
      var session := req[1] & 0x7F;
      if session != 0x01 && session != 0x03 then Negative(SID_SESSION_CONTROL, NRC_SUB_FUNCTION_NOT_SUPPORTED)
      else [0x50, session, 0x00, 0x19, 0x01, 0xF4]
  }

  function ReadByIdentifier(n: Node, ecuId: bytes, req: bytes): bytes
    requires |n.lamps.faults| < 256
  {
    if |req| < 3 then Negative(SID_READ_BY_IDENTIFIER, NRC_REQUEST_OUT_OF_RANGE)
    else
      var did := U16(req[1], req[2]);
      var head := [0x62, req[1], req[2]];
      if did == DID_ECU_IDENTIFICATION then head + ecuId
      else if did == DID_LAMP_STATUS then head + EncodeLampStatus(n.lamps)
      else if did == DID_NODE_HEALTH then head + EncodeNodeHealth(n)
      else if did == DID_ACTIVE_FAULTS then head + EncodeActiveFaults(n.lamps.faults)
      else Negative(SID_READ_BY_IDENTIFIER, NRC_REQUEST_OUT_OF_RANGE)
  }

  function ClearDiagnostic(l: Lamps, req: bytes): (Lamps, bytes) {
    if |req| < 4 || req[1] != 0xFF || req[2] != 0xFF || req[3] != 0xFF then
      (l, Negative(SID_CLEAR_DIAGNOSTIC, NRC_REQUEST_OUT_OF_RANGE))
    else (ClearAllFaultsIn(l), [0x54])
  }

  /** Routine identifiers mirror the fault codes. */
  function RoutineIdToLampFunction(id: bv16): LampFunction {
    if id == 0xB001 then LeftIndicator
    else if id == 0xB002 then RightIndicator
    else if id == 0xB003 then HazardLamp
    else if id == 0xB004 then ParkLamp
    else if id == 0xB005 then HeadLamp
    else UnknownFunction
  }

  function RoutineControl(l: Lamps, req: bytes): (Lamps, bytes) {
    if |req| < 4 then (l, Negative(SID_ROUTINE_CONTROL, NRC_REQUEST_OUT_OF_RANGE))
    else if req[1] != 0x01 && req[1] != 0x02 then (l, Negative(SID_ROUTINE_CONTROL, NRC_SUB_FUNCTION_NOT_SUPPORTED))
    else
      var f := RoutineIdToLampFunction(U16(req[2], req[3]));
      if f == UnknownFunction then (l, Negative(SID_ROUTINE_CONTROL, NRC_REQUEST_OUT_OF_RANGE))
      else (if req[1] == 0x01 then InjectFaultInto(l, f) else ClearFaultIn(l, f), [0x71, req[1], req[2], req[3]])
  }

  function ReadDtc(l: Lamps, req: bytes): bytes {
    if |req| < 2 then Negative(SID_READ_DTC, NRC_REQUEST_OUT_OF_RANGE)
    else if req[1] == DTC_SUB_BY_STATUS_MASK then
      [0x59, req[1], 0x09] + EncodeDtcs(Codes(l.faults), DTC_STATUS_ACTIVE)
    else if req[1] == DTC_SUB_SUPPORTED then
      [0x59, req[1], 0x09] + EncodeDtcs(Codes(ALL_FUNCTIONS), DTC_STATUS_CONFIRMED)
    else Negative(SID_READ_DTC, NRC_SUB_FUNCTION_NOT_SUPPORTED)
  }

  /** `HandleRequest`: dispatch on the first byte. */
  function Respond(n: Node, ecuId: bytes, step: OtaSession.Step): (Node, bytes)
    requires |n.lamps.faults| < 256
  {
    var req := step.req;
    if req == [] then (n, Negative(0x00, NRC_SERVICE_NOT_SUPPORTED))
    else if req[0] == SID_SESSION_CONTROL then (n, SessionControl(req))
    else if req[0] == SID_READ_BY_IDENTIFIER then (n, ReadByIdentifier(n, ecuId, req))
    else if req[0] == SID_CLEAR_DIAGNOSTIC then
      var (l, resp) := ClearDiagnostic(n.lamps, req);
      (n.(lamps := l), resp)
    else if req[0] == SID_ROUTINE_CONTROL then
      var (l, resp) := RoutineControl(n.lamps, req);
      (n.(lamps := l), resp)
    else if req[0] == SID_READ_DTC then (n, ReadDtc(n.lamps, req))
    else if req[0] == OtaSession.SID_REQUEST_DOWNLOAD || req[0] == OtaSession.SID_TRANSFER_DATA
         || req[0] == OtaSession.SID_REQUEST_TRANSFER_EXIT then
      var (s, resp) := OtaSession.Serve(n.ota, step);
      (n.(ota := s), resp)
    else (n, Negative(req[0], NRC_SERVICE_NOT_SUPPORTED))
  }

  // ---------------------------------------------------------------------------------
  // The class
  // ---------------------------------------------------------------------------------

  class UdsRequestHandler {
    const functionManager: ExteriorLightingFunctionManager
    const otaSessionManager: OtaSession.OtaSessionManager
    const ecuId: bytes

    ghost predicate Valid()
      reads functionManager, functionManager.Repr, otaSessionManager, otaSessionManager.disk
    {
      && functionManager.Valid()
      && otaSessionManager.Valid()
      && |functionManager.lamps.faults| <= 5
    }

    ghost function View(): Node
      reads functionManager, otaSessionManager, otaSessionManager.disk
    {
      Node(functionManager.lamps, otaSessionManager.View())
    }

    constructor (fm: ExteriorLightingFunctionManager, ota: OtaSession.OtaSessionManager, ecuId: bytes)
      requires fm.Valid() && ota.Valid()
      ensures functionManager == fm && otaSessionManager == ota && this.ecuId == ecuId
      ensures Valid()
    {
      functionManager, otaSessionManager, this.ecuId := fm, ota, ecuId;
    }

    method EncodeFaultTable() returns (encoded: bytes)
      requires Valid()
      ensures encoded == EncodeActiveFaults(functionManager.lamps.faults)
    {
      var _, count, codes := functionManager.faultManager.GetFaultStatus();
      encoded := [ByteOf(count)];
      for i := 0 to count
        invariant encoded == [ByteOf(count)] + EncodeCodes(codes[..i])
      {
        assert codes[..i + 1][..i] == codes[..i];
        encoded := encoded + [Hi(codes[i])];
        encoded := encoded + [Lo(codes[i])];
      }
    }

    method EncodeActiveDtcs() returns (encoded: bytes)
      requires Valid()
      ensures encoded == EncodeDtcs(Codes(functionManager.lamps.faults), DTC_STATUS_ACTIVE)
    {
      var _, count, codes := functionManager.faultManager.GetFaultStatus();
      encoded := [];
      for i := 0 to count
        invariant encoded == EncodeDtcs(codes[..i], DTC_STATUS_ACTIVE)
      {
        assert codes[..i + 1][..i] == codes[..i];
        encoded := encoded + [0x00, Hi(codes[i]), Lo(codes[i])];
        encoded := encoded + [DTC_STATUS_ACTIVE];
      }
    }

    method HandleRequest(req: bytes, io: OtaSession.Io) returns (resp: bytes)
      requires Valid()
      modifies functionManager.Repr, otaSessionManager, otaSessionManager.disk
      ensures Valid()
      ensures (View(), resp) == Respond(old(View()), ecuId, OtaSession.Step(req, io))
    {
      if req == [] {
        return Negative(0x00, NRC_SERVICE_NOT_SUPPORTED);
      }
      var sid := req[0];
      if sid == SID_SESSION_CONTROL {
        resp := SessionControl(req);
      } else if sid == SID_READ_BY_IDENTIFIER {
        resp := HandleReadByIdentifier(req);
      } else if sid == SID_CLEAR_DIAGNOSTIC {
        resp := HandleClear(req);
      } else if sid == SID_ROUTINE_CONTROL {
        resp := HandleRoutineControl(req);
      } else if sid == SID_READ_DTC {
        resp := HandleReadDtc(req);
      } else if sid == OtaSession.SID_REQUEST_DOWNLOAD {
        resp := otaSessionManager.HandleRequestDownload(req, io);
      } else if sid == OtaSession.SID_TRANSFER_DATA {
        resp := otaSessionManager.HandleTransferData(req, io);
      } else if sid == OtaSession.SID_REQUEST_TRANSFER_EXIT {
        resp := otaSessionManager.HandleRequestTransferExit(req, io);
      } else {
        resp := Negative(sid, NRC_SERVICE_NOT_SUPPORTED);
      }
    }

    method HandleReadByIdentifier(req: bytes) returns (resp: bytes)
      requires Valid()
      ensures resp == ReadByIdentifier(View(), ecuId, req)
    {
      if |req| < 3 {
        return Negative(SID_READ_BY_IDENTIFIER, NRC_REQUEST_OUT_OF_RANGE);
      }
      resp := [0x62, req[1], req[2]];
      var did := U16(req[1], req[2]);
      if did == DID_ECU_IDENTIFICATION {
        resp := resp + ecuId;
      } else if did == DID_LAMP_STATUS {
        var states: bytes := [];
        for i := 0 to 5
          invariant states == EncodeLampStatus(functionManager.lamps)[..i]
        {
          var _, status := functionManager.GetLampStatus(ALL_FUNCTIONS[i]);
          states := states + [StateByte(status.outputState)];
        }
        resp := resp + states;
      } else if did == DID_NODE_HEALTH {
        var present, count, _ := functionManager.faultManager.GetFaultStatus();
        var active := otaSessionManager.state == OtaSession.Active;
        resp := resp + [if active then 0x04 else if count > 0 then 0x03 else 0x01,
                        if present then 0x07 else 0x03,
                        ByteOf(count)];
      } else if did == DID_ACTIVE_FAULTS {
        var table := EncodeFaultTable();
        resp := resp + table;
      } else {
        resp := Negative(SID_READ_BY_IDENTIFIER, NRC_REQUEST_OUT_OF_RANGE);
      }
    }

    method HandleClear(req: bytes) returns (resp: bytes)
      requires Valid()
      modifies functionManager.Repr
      ensures Valid()
      ensures (functionManager.lamps, resp) == ClearDiagnostic(old(functionManager.lamps), req)
    {
      if |req| < 4 || req[1] != 0xFF || req[2] != 0xFF || req[3] != 0xFF {
        return Negative(SID_CLEAR_DIAGNOSTIC, NRC_REQUEST_OUT_OF_RANGE);
      }
      functionManager.HandleClearAllFaults();
      return [0x54];
    }

    method HandleRoutineControl(req: bytes) returns (resp: bytes)
      requires Valid()
      modifies functionManager.Repr
      ensures Valid()
      ensures (functionManager.lamps, resp) == RoutineControl(old(functionManager.lamps), req)
    {
      if |req| < 4 {
        return Negative(SID_ROUTINE_CONTROL, NRC_REQUEST_OUT_OF_RANGE);
      }
      var subFunction := req[1];
      if subFunction != 0x01 && subFunction != 0x02 {
        return Negative(SID_ROUTINE_CONTROL, NRC_SUB_FUNCTION_NOT_SUPPORTED);
      }
      var f := RoutineIdToLampFunction(U16(req[2], req[3]));
      if f == UnknownFunction {
        return Negative(SID_ROUTINE_CONTROL, NRC_REQUEST_OUT_OF_RANGE);
      }
      if subFunction == 0x01 {
        var _ := functionManager.HandleFaultInjection(f);
      } else {
        var _ := functionManager.HandleFaultClear(f);
      }
      return [0x71, subFunction, req[2], req[3]];
    }

    method HandleReadDtc(req: bytes) returns (resp: bytes)
      requires Valid()
      ensures resp == ReadDtc(functionManager.lamps, req)
    {
      if |req| < 2 {
        return Negative(SID_READ_DTC, NRC_REQUEST_OUT_OF_RANGE);
      }
      resp := [0x59, req[1], 0x09];
      if req[1] == DTC_SUB_BY_STATUS_MASK {
        var table := EncodeActiveDtcs();
        resp := resp + table;
      } else if req[1] == DTC_SUB_SUPPORTED {
        resp := resp + EncodeDtcs(Codes(ALL_FUNCTIONS), DTC_STATUS_CONFIRMED);
      } else {
        resp := Negative(SID_READ_DTC, NRC_SUB_FUNCTION_NOT_SUPPORTED);
      }
    }
  }
}
