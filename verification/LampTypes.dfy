/**
  The value types that commands and status reports are made of.

  The wire carries enumerations as plain bytes, so each enumeration has one more value for
  every byte beyond its last enumerator.
 */
module LampTypes {

  datatype LampFunction =
    | UnknownFunction | LeftIndicator | RightIndicator | HazardLamp | ParkLamp | HeadLamp | OutOfRangeFunction

  datatype Action = NoAction | Activate | Deactivate | Toggle | OutOfRangeAction

  datatype Source = UnknownSource | HmiControlPanel | DiagnosticConsole | CentralZoneController | OutOfRangeSource

  datatype LampCommand = LampCommand(function_: LampFunction, action: Action, source: Source, sequenceCounter: bv16)

  datatype OutputState = UnknownState | Off | On | OutOfRangeState

  datatype LampStatus = LampStatus(
    function_: LampFunction, outputState: OutputState, commandApplied: bool, lastSequenceCounter: bv16)

  /** The five lamps of the node. */
  predicate Known(f: LampFunction) {
    f != UnknownFunction && f != OutOfRangeFunction
  }

  const ALL_FUNCTIONS: seq<LampFunction> := [LeftIndicator, RightIndicator, HazardLamp, ParkLamp, HeadLamp]

  predicate IsIndicator(f: LampFunction) {
    f == LeftIndicator || f == RightIndicator
  }

  function Opposite(f: LampFunction): LampFunction {
    if f == LeftIndicator then RightIndicator else LeftIndicator
  }

  /** Every enumeration is within its range; `NoAction` and `UnknownFunction` are. */
  predicate IsValidLampCommand(c: LampCommand) {
    c.function_ != OutOfRangeFunction && c.action != OutOfRangeAction && c.source != OutOfRangeSource
  }

  /** Array slot of a function; 5 stands for the sentinel beyond the array. */
  function IndexOf(f: LampFunction): (i: nat)
    ensures Known(f) <==> i < 5
    ensures Known(f) ==> ALL_FUNCTIONS[i] == f
  {
    match f
    case LeftIndicator => 0
    case RightIndicator => 1
    case HazardLamp => 2
    case ParkLamp => 3
    case HeadLamp => 4
    case _ => 5
  }

  type FaultCode = bv16

  const NO_FAULT: FaultCode := 0

  function FaultCodeOf(f: LampFunction): FaultCode {
    match f
    case LeftIndicator => 0xB001
    case RightIndicator => 0xB002
    case HazardLamp => 0xB003
    case ParkLamp => 0xB004
    case HeadLamp => 0xB005
    case _ => NO_FAULT
  }
}
