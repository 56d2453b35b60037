/**
  The payloads of the lamp messages: one byte an enumeration, two bytes a counter.

  The parser never fails.  A byte beyond the payload reads as zero, and a byte beyond the
  last enumerator is kept as the out-of-range value of its enumeration.
 */
module SomeIp {

  import opened Bytes
  import opened LampTypes

  function FunctionByte(f: LampFunction): byte {
    match f
    case UnknownFunction => 0
    case LeftIndicator => 1
    case RightIndicator => 2
    case HazardLamp => 3
    case ParkLamp => 4
    case HeadLamp => 5
    case OutOfRangeFunction => 0xFF
  }

  function FunctionOf(b: byte): LampFunction {
    if b == 0 then UnknownFunction
    else if b == 1 then LeftIndicator
    else if b == 2 then RightIndicator
    else if b == 3 then HazardLamp
    else if b == 4 then ParkLamp
    else if b == 5 then HeadLamp
    else OutOfRangeFunction
  }

  function ActionByte(a: Action): byte {
    match a
    case NoAction => 0
    case Activate => 1
    case Deactivate => 2
    case Toggle => 3
    case OutOfRangeAction => 0xFF
  }

  function ActionOf(b: byte): Action {
    if b == 0 then NoAction
    else if b == 1 then Activate
    else if b == 2 then Deactivate
    else if b == 3 then Toggle
    else OutOfRangeAction
  }

  function SourceByte(s: Source): byte {
    match s
    case UnknownSource => 0
    case HmiControlPanel => 1
    case DiagnosticConsole => 2
    case CentralZoneController => 3
    case OutOfRangeSource => 0xFF
  }

  function SourceOf(b: byte): Source {
    if b == 0 then UnknownSource
    else if b == 1 then HmiControlPanel
    else if b == 2 then DiagnosticConsole
    else if b == 3 then CentralZoneController
    else OutOfRangeSource
  }

  function StateByte(o: OutputState): byte {
    match o
    case UnknownState => 0
    case Off => 1
    case On => 2
    case OutOfRangeState => 0xFF
  }

  function StateOf(b: byte): OutputState {
    if b == 0 then UnknownState
    else if b == 1 then Off
    else if b == 2 then On
    else OutOfRangeState
  }

  function ReadUint8(payload: bytes, index: nat): byte {
    if index < |payload| then payload[index] else 0
  }

  function ReadUint16(payload: bytes, index: nat): bv16 {
    if index + 1 < |payload| then U16(payload[index], payload[index + 1]) else 0
  }

  function BuildLampCommand(c: LampCommand): bytes {
    [FunctionByte(c.function_), ActionByte(c.action), SourceByte(c.source),
     Hi(c.sequenceCounter), Lo(c.sequenceCounter)]
  }

  function ParseLampCommand(payload: bytes): LampCommand {
    LampCommand(FunctionOf(ReadUint8(payload, 0)), ActionOf(ReadUint8(payload, 1)),
                SourceOf(ReadUint8(payload, 2)), ReadUint16(payload, 3))
  }

  function BuildLampStatus(st: LampStatus): bytes {
    [FunctionByte(st.function_), StateByte(st.outputState), if st.commandApplied then 1 else 0,
     Hi(st.lastSequenceCounter), Lo(st.lastSequenceCounter)]
  }

  function ParseLampStatus(payload: bytes): LampStatus {
    LampStatus(FunctionOf(ReadUint8(payload, 0)), StateOf(ReadUint8(payload, 1)),
               ReadUint8(payload, 2) != 0, ReadUint16(payload, 3))
  }

  datatype FaultAction = UnknownFaultAction | InjectAction | ClearAction | OutOfRangeFaultAction

  datatype FaultCommand = FaultCommand(
    function_: LampFunction, action: FaultAction, source: Source, sequenceCounter: bv16)

  function FaultActionOf(b: byte): FaultAction {
    if b == 0 then UnknownFaultAction
    else if b == 1 then InjectAction
    else if b == 2 then ClearAction
    else OutOfRangeFaultAction
  }

  predicate IsValidFaultCommand(c: FaultCommand) {
    c.function_ != OutOfRangeFunction && c.action != OutOfRangeFaultAction && c.source != OutOfRangeSource
  }

  function ParseFaultCommand(payload: bytes): FaultCommand {
    FaultCommand(FunctionOf(ReadUint8(payload, 0)), FaultActionOf(ReadUint8(payload, 1)),
                 SourceOf(ReadUint8(payload, 2)), ReadUint16(payload, 3))
  }

  lemma LampCommandRoundTrip(c: LampCommand)
    ensures ParseLampCommand(BuildLampCommand(c)) == c
  {
    U16RoundTrip(c.sequenceCounter);
    hide U16, Hi, Lo;
  }

  lemma LampStatusRoundTrip(st: LampStatus)
    ensures ParseLampStatus(BuildLampStatus(st)) == st
  {
    U16RoundTrip(st.lastSequenceCounter);
    hide U16, Hi, Lo;
  }

  // ---------------------------------------------------------------------------------
  // The bytes
  // ---------------------------------------------------------------------------------

  /** The parser, byte for byte: function, action, source, and the counter with its high byte first. */
  lemma LampCommandBytes(payload: bytes)
    requires |payload| >= 5
    ensures var c := ParseLampCommand(payload);
            && (payload[0] == 0 <==> c.function_ == UnknownFunction)
            && (payload[0] == 1 <==> c.function_ == LeftIndicator)
            && (payload[0] == 2 <==> c.function_ == RightIndicator)
            && (payload[0] == 3 <==> c.function_ == HazardLamp)
            && (payload[0] == 4 <==> c.function_ == ParkLamp)
            && (payload[0] == 5 <==> c.function_ == HeadLamp)
            && (payload[1] == 0 <==> c.action == NoAction)
            && (payload[1] == 1 <==> c.action == Activate)
            && (payload[1] == 2 <==> c.action == Deactivate)
            && (payload[1] == 3 <==> c.action == Toggle)
            && (payload[2] == 0 <==> c.source == UnknownSource)
            && (payload[2] == 1 <==> c.source == HmiControlPanel)
            && (payload[2] == 2 <==> c.source == DiagnosticConsole)
            && (payload[2] == 3 <==> c.source == CentralZoneController)
            && c.sequenceCounter >> 8 == payload[3] as bv16 && c.sequenceCounter & 0xFF == payload[4] as bv16
  {
    U16Halves(payload[3], payload[4]);
    hide U16;
  }

  /** A byte that is missing reads as zero. */
  lemma TruncatedCommandBytes(payload: bytes)
    requires |payload| < 5
    ensures var c := ParseLampCommand(payload);
            && c.sequenceCounter == 0
            && (|payload| <= 2 ==> c.source == UnknownSource)
            && (|payload| <= 1 ==> c.action == NoAction)
            && (|payload| == 0 ==> c.function_ == UnknownFunction)
            && (forall more: bytes | |payload| + |more| >= 5 ::
                  var d := ParseLampCommand(payload + more);
                  && (|payload| >= 1 ==> c.function_ == d.function_)
                  && (|payload| >= 2 ==> c.action == d.action)
                  && (|payload| >= 3 ==> c.source == d.source))
  {
  }

  /** A status event, byte for byte: function, output, whether applied, and the counter. */
  lemma LampStatusBytes(st: LampStatus)
    ensures var e := BuildLampStatus(st);
            && |e| == 5
            && (e[0] == 1 <==> st.function_ == LeftIndicator)
            && (e[0] == 2 <==> st.function_ == RightIndicator)
            && (e[0] == 3 <==> st.function_ == HazardLamp)
            && (e[0] == 4 <==> st.function_ == ParkLamp)
            && (e[0] == 5 <==> st.function_ == HeadLamp)
            && (e[1] == 1 <==> st.outputState == Off)
            && (e[1] == 2 <==> st.outputState == On)
            && e[2] == (if st.commandApplied then 1 else 0)
            && st.lastSequenceCounter >> 8 == e[3] as bv16 && st.lastSequenceCounter & 0xFF == e[4] as bv16
  {
    U16RoundTrip(st.lastSequenceCounter);
    U16Halves(Hi(st.lastSequenceCounter), Lo(st.lastSequenceCounter));
    hide U16, Hi, Lo;
  }
}
