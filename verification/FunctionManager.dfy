/**
  The node's lamp store: the recorded status of the five lamps, and the fault interlock
  that keeps a faulted lamp dark.
 */
module FunctionManager {

  import opened LampTypes
  import opened Faults

  // ---------------------------------------------------------------------------------
  // The store as a value
  // ---------------------------------------------------------------------------------

  datatype Lamps = Lamps(
    left: LampStatus, right: LampStatus, hazard: LampStatus, park: LampStatus, head: LampStatus,
    faults: seq<LampFunction>)
  {
    function Get(f: LampFunction): LampStatus
      requires Known(f)
    {
      match f
      case LeftIndicator => left
      case RightIndicator => right
      case HazardLamp => hazard
      case ParkLamp => park
      case HeadLamp => head
    }

    function Put(f: LampFunction, st: LampStatus): Lamps
      requires Known(f)
    {
      match f
      case LeftIndicator => this.(left := st)
      case RightIndicator => this.(right := st)
      case HazardLamp => this.(hazard := st)
      case ParkLamp => this.(park := st)
      case HeadLamp => this.(head := st)
    }

    predicate IsOn(f: LampFunction) {
      Known(f) && Get(f).outputState == On
    }
  }

  function OffStatus(f: LampFunction): LampStatus {
    LampStatus(f, Off, false, 0)
  }

  function PowerUp(): Lamps {
    Lamps(OffStatus(LeftIndicator), OffStatus(RightIndicator), OffStatus(HazardLamp),
          OffStatus(ParkLamp), OffStatus(HeadLamp), [])
  }

  /** A faulted lamp refuses to be turned on. */
  predicate Refused(l: Lamps, c: LampCommand)
    requires Known(c.function_)
  {
    c.function_ in l.faults &&
    (c.action == Activate || (c.action == Toggle && l.Get(c.function_).outputState == Off))
  }

  function Commanded(action: Action, now: OutputState): OutputState {
    match action
    case Activate => On
    case Deactivate => Off
    case Toggle => if now == On then Off else On
    case _ => now
  }

  predicate ChangesOutput(action: Action) {
    action == Activate || action == Deactivate || action == Toggle
  }

  /** `ApplyCommand`, with its return value. */
  function Apply(l: Lamps, c: LampCommand): (Lamps, bool) {
    if !Known(c.function_) || Refused(l, c) then (l, false)
    else
      var was := l.Get(c.function_);
      (l.Put(c.function_, LampStatus(c.function_, Commanded(c.action, was.outputState), true, c.sequenceCounter)),
       ChangesOutput(c.action))
  }

  function InjectFaultInto(l: Lamps, f: LampFunction): Lamps {
    if !Known(f) then l
    else
      var was := l.Get(f);
      (if was.outputState == On then l.Put(f, was.(outputState := Off, commandApplied := true)) else l)
        .(faults := WithInjected(l.faults, f))
  }

  function ClearFaultIn(l: Lamps, f: LampFunction): Lamps {
    l.(faults := Without(l.faults, f))
  }

  function ClearAllFaultsIn(l: Lamps): Lamps {
    l.(faults := [])
  }

  // ---------------------------------------------------------------------------------
  // The class
  // ---------------------------------------------------------------------------------

  class ExteriorLightingFunctionManager {
    const lampStatuses: array<LampStatus>
    const faultManager: FaultManager
    ghost const Repr: set<object>
    /** The value that the array and the fault table stand for. */
    ghost var lamps: Lamps
    /** The store after each call of `ApplyCommand`, in the order of the calls. */
    ghost var trail: seq<Lamps>

    ghost predicate Valid()
      reads this, Repr
    {
      && Repr == {this, lampStatuses, faultManager, faultManager.faulted, faultManager.activeDtcs}
      && lampStatuses as object != faultManager.faulted
      && lampStatuses as object != faultManager.activeDtcs
      && faultManager.Valid() && lamps.faults == faultManager.order
      && lampStatuses[..] == [lamps.left, lamps.right, lamps.hazard, lamps.park, lamps.head]
    }

    constructor ()
      ensures Valid() && fresh(Repr)
      ensures lamps == PowerUp() && trail == []
    {
      var statuses := new LampStatus[5](i requires 0 <= i < 5 => OffStatus(ALL_FUNCTIONS[i]));
      lampStatuses := statuses;
      var faults := new FaultManager();
      faultManager := faults;
      Repr := {this, statuses, faults, faults.faulted, faults.activeDtcs};
      lamps, trail := PowerUp(), [];
    }

    /** Writes one status; the index is the slot of `f`. */
    method Store(ghost f: LampFunction, index: nat, status: LampStatus)
      requires Valid() && Known(f) && index == IndexOf(f)
      modifies this`lamps, lampStatuses
      ensures Valid() && lamps == old(lamps).Put(f, status)
    {
      lampStatuses[index] := status;
      lamps := lamps.Put(f, status);
    }

    function StatusAt(f: LampFunction, index: nat): (status: LampStatus)
      requires Valid() && Known(f) && index == IndexOf(f)
      reads this, Repr
      ensures status == lamps.Get(f)
    {
      assert lampStatuses[index] == lampStatuses[..][index];
      lampStatuses[index]
    }

    method ApplyCommand(c: LampCommand) returns (applied: bool)
      requires Valid()
      modifies this, lampStatuses
      ensures Valid()
      ensures (lamps, applied) == Apply(old(lamps), c)
      ensures trail == old(trail) + [lamps]
    {
      applied := Execute(c);
      trail := trail + [lamps];
    }

    /** The body of `ApplyCommand`. */
    method Execute(c: LampCommand) returns (applied: bool)
      requires Valid()
      modifies this`lamps, lampStatuses
      ensures Valid()
      ensures (lamps, applied) == Apply(old(lamps), c)
    {
      var index := IndexOf(c.function_);
      if index >= 5 {
        return false;
      }
      var status := StatusAt(c.function_, index);
      if faultManager.IsFaulted(c.function_) {
        if c.action == Activate || (c.action == Toggle && status.outputState == Off) {
          return false;
        }
      }
      status := status.(function_ := c.function_, commandApplied := true, lastSequenceCounter := c.sequenceCounter);
      applied := true;
      match c.action {
        case Activate => status := status.(outputState := On);
        case Deactivate => status := status.(outputState := Off);
        case Toggle => status := status.(outputState := if status.outputState == On then Off else On);
        case _ => applied := false;
      }
      Store(c.function_, index, status);
    }

    method GetLampStatus(f: LampFunction) returns (found: bool, status: LampStatus)
      requires Valid()
      ensures found <==> Known(f)
      ensures found ==> status == lamps.Get(f)
    {
      var index := IndexOf(f);
      if index >= 5 {
        return false, LampStatus(UnknownFunction, UnknownState, false, 0);
      }
      return true, StatusAt(f, index);
    }

    method IsOn(f: LampFunction) returns (on: bool)
      requires Valid()
      ensures on <==> lamps.IsOn(f)
    {
      var found, status := GetLampStatus(f);
      on := found && status.outputState == On;
    }

    method HandleFaultInjection(f: LampFunction) returns (applied: bool)
      requires Valid()
      modifies Repr
      ensures Valid()
      ensures lamps == InjectFaultInto(old(lamps), f) && trail == old(trail)
      ensures applied <==> Known(f)
    {
      hide WithInjected, Distinct;
      var index := IndexOf(f);
      if index >= 5 {
        return false;
      }
      var _ := faultManager.InjectFault(f);
      lamps := lamps.(faults := faultManager.order);
      var status := StatusAt(f, index);
      if status.outputState == On {
        Store(f, index, status.(outputState := Off, commandApplied := true));
      }
      return true;
    }

    method HandleFaultClear(f: LampFunction) returns (applied: bool)
      requires Valid()
      modifies Repr
      ensures Valid()
      ensures lamps == ClearFaultIn(old(lamps), f) && trail == old(trail)
      ensures applied <==> Known(f)
    {
      var index := IndexOf(f);
      if index >= 5 {
        WithoutAbsent(faultManager.order, f);
        return false;
      }
      var _ := faultManager.ClearFault(f);
      lamps := lamps.(faults := faultManager.order);
      return true;
    }

    method HandleClearAllFaults()
      requires Valid()
      modifies Repr
      ensures Valid()
      ensures lamps == ClearAllFaultsIn(old(lamps)) && trail == old(trail)
    {
      faultManager.ClearAllFaults();
      lamps := lamps.(faults := faultManager.order);
    }
  }

  // ---------------------------------------------------------------------------------
  // The interlock
  // ---------------------------------------------------------------------------------

  /** The lamp is off or on, carries its own name, and is dark while it is faulted. */
  predicate Sound(l: Lamps, f: LampFunction)
    requires Known(f)
  {
    && l.Get(f).function_ == f
    && (l.Get(f).outputState == Off || l.Get(f).outputState == On)
    && (f in l.faults ==> l.Get(f).outputState == Off)
  }

  predicate Interlocked(l: Lamps) {
    && Sound(l, LeftIndicator) && Sound(l, RightIndicator) && Sound(l, HazardLamp)
    && Sound(l, ParkLamp) && Sound(l, HeadLamp)
  }

  datatype StoreOp = Command(c: LampCommand) | Inject(f: LampFunction) | Clear(f: LampFunction) | ClearAll

  function Perform(l: Lamps, op: StoreOp): Lamps {
    match op
    case Command(c) => Apply(l, c).0
    case Inject(f) => InjectFaultInto(l, f)
    case Clear(f) => ClearFaultIn(l, f)
    case ClearAll => ClearAllFaultsIn(l)
  }

  function PerformAll(l: Lamps, ops: seq<StoreOp>): Lamps
    decreases |ops|
  {
    if ops == [] then l else PerformAll(Perform(l, ops[0]), ops[1..])
  }

  lemma {:induction false} WithoutIsSubset(order: seq<LampFunction>, f: LampFunction)
    ensures forall g :: g in Without(order, f) ==> g in order
  {
    if order == [] {
    } else {
      WithoutIsSubset(order[1..], f);
    }
  }

  lemma PerformKeepsSound(l: Lamps, op: StoreOp, f: LampFunction)
    requires Known(f) && Sound(l, f)
    ensures Sound(Perform(l, op), f)
  {
    match op
    case Command(c) =>
    case Inject(g) =>
    case Clear(g) => WithoutIsSubset(l.faults, g);
    case ClearAll =>
  }

  lemma PerformKeepsInterlock(l: Lamps, op: StoreOp)
    requires Interlocked(l)
    ensures Interlocked(Perform(l, op))
  {
    hide Sound, Perform;
    PerformKeepsSound(l, op, LeftIndicator);
    PerformKeepsSound(l, op, RightIndicator);
    PerformKeepsSound(l, op, HazardLamp);
    PerformKeepsSound(l, op, ParkLamp);
    PerformKeepsSound(l, op, HeadLamp);
  }

  /** Fault interlock: no interleaving of commands, faults and clears ever lights a faulted lamp. */
  lemma {:induction false} InterlockOverRuns(l: Lamps, ops: seq<StoreOp>)
    requires Interlocked(l)
    ensures Interlocked(PerformAll(l, ops))
    decreases |ops|
  {
    hide Interlocked, Perform;
    if ops == [] {
    } else {
      PerformKeepsInterlock(l, ops[0]);
      InterlockOverRuns(Perform(l, ops[0]), ops[1..]);
    }
  }

  // ---------------------------------------------------------------------------------
  // Effects on what is lit
  // ---------------------------------------------------------------------------------

  /** Whether a lamp is lit after a command for it. */
  predicate LitAfter(action: Action, lit: bool, faulted: bool) {
    match action
    case Activate => !faulted
    case Deactivate => false
    case Toggle => !lit && !faulted
    case _ => lit
  }

  lemma PutShows(l: Lamps, f: LampFunction, st: LampStatus, g: LampFunction)
    requires Known(f) && Known(g)
    ensures l.Put(f, st).IsOn(g) <==> if g == f then st.outputState == On else l.IsOn(g)
    ensures l.Put(f, st).faults == l.faults
  {
  }

  lemma SoundAt(l: Lamps, f: LampFunction)
    requires Interlocked(l) && Known(f)
    ensures Sound(l, f)
  {
  }

  lemma ApplyShows(l: Lamps, c: LampCommand, g: LampFunction)
    requires Interlocked(l) && Known(g)
    ensures var l' := Apply(l, c).0;
            && Interlocked(l') && l'.faults == l.faults
            && (l'.IsOn(g) <==>
                if g == c.function_ then LitAfter(c.action, l.IsOn(g), g in l.faults) else l.IsOn(g))
  {
    PerformKeepsInterlock(l, Command(c));
    hide Interlocked, Lamps.Get, Lamps.Put;
    if Known(c.function_) && !Refused(l, c) {
      var was := l.Get(c.function_);
      SoundAt(l, c.function_);
      var st := LampStatus(c.function_, Commanded(c.action, was.outputState), true, c.sequenceCounter);
      PutShows(l, c.function_, st, g);
    } else if Known(c.function_) {
      SoundAt(l, c.function_);
    }
  }

  /** `ApplyShows` for the three lamps that arbitration looks at. */
  lemma ApplyShowsSignals(l: Lamps, c: LampCommand)
    requires Interlocked(l)
    ensures var l' := Apply(l, c).0;
            && Interlocked(l') && l'.faults == l.faults
            && (forall g | g in {LeftIndicator, RightIndicator, HazardLamp} ::
                  l'.IsOn(g) <==>
                  if g == c.function_ then LitAfter(c.action, l.IsOn(g), g in l.faults) else l.IsOn(g))
  {
    hide Apply, Interlocked, Lamps.IsOn, LitAfter;
    ApplyShows(l, c, LeftIndicator);
    ApplyShows(l, c, RightIndicator);
    ApplyShows(l, c, HazardLamp);
  }

  function Disturb(l: Lamps, op: FaultOp): Lamps {
    match op
    case Inject(f) => InjectFaultInto(l, f)
    case Clear(f) => ClearFaultIn(l, f)
    case ClearAll => ClearAllFaultsIn(l)
  }

  lemma DisturbShows(l: Lamps, op: FaultOp, g: LampFunction)
    requires Interlocked(l) && Known(g)
    ensures var l' := Disturb(l, op);
            && Interlocked(l') && l'.faults == Faults.Perform(l.faults, op)
            && (l'.IsOn(g) <==> l.IsOn(g) && op != FaultOp.Inject(g))
  {
    PerformKeepsInterlock(l, match op case Inject(f) => StoreOp.Inject(f) case Clear(f) => StoreOp.Clear(f)
                                      case ClearAll => StoreOp.ClearAll);
  }

  lemma LitIsHealthy(l: Lamps, f: LampFunction)
    requires Interlocked(l) && l.IsOn(f)
    ensures f !in l.faults
  {
  }

  // ---------------------------------------------------------------------------------
  // Effects on the whole store
  // ---------------------------------------------------------------------------------

  /** A faulted lamp is not to be turned on. */
  predicate Guarded(l: Lamps, c: LampCommand) {
    c.function_ in l.faults && (c.action == Activate || (c.action == Toggle && !l.IsOn(c.function_)))
  }

  /**
    The whole outcome of a command.  A command that the guard lets through is recorded with
    its counter even if it names no action; the flag tells whether it named one.
   */
  lemma ApplyOutcome(l: Lamps, c: LampCommand, g: LampFunction)
    requires Interlocked(l) && Known(g)
    ensures var (l', applied) := Apply(l, c);
            && l'.faults == l.faults
            && (applied <==> Known(c.function_) && !Guarded(l, c) && c.action in {Activate, Deactivate, Toggle})
            && (!Known(c.function_) || Guarded(l, c) ==> l' == l)
            && (g != c.function_ ==> l'.Get(g) == l.Get(g))
            && (g == c.function_ && !Guarded(l, c) ==>
                  && l'.Get(g).function_ == g
                  && l'.Get(g).commandApplied
                  && l'.Get(g).lastSequenceCounter == c.sequenceCounter
                  && l'.Get(g).outputState ==
                     match c.action
                     case Activate => On
                     case Deactivate => Off
                     case Toggle => if l.Get(g).outputState == On then Off else On
                     case _ => l.Get(g).outputState)
  {
    SoundAt(l, g);
  }

  /** The whole outcome of a fault: the lamp is dark, and listed last if it was not listed. */
  lemma InjectOutcome(l: Lamps, f: LampFunction, g: LampFunction)
    requires Interlocked(l) && Known(f) && Known(g)
    ensures var l' := InjectFaultInto(l, f);
            && l'.faults == (if f in l.faults then l.faults else l.faults + [f])
            && (g != f ==> l'.Get(g) == l.Get(g))
            && l'.Get(f).outputState == Off
            && l'.Get(f).lastSequenceCounter == l.Get(f).lastSequenceCounter
            && (l'.Get(f).commandApplied <==> l.Get(f).commandApplied || l.IsOn(f))
  {
    SoundAt(l, f);
  }

  /** The whole outcome of a clear: that fault is gone, the others keep their order. */
  lemma ClearOutcome(l: Lamps, f: LampFunction, g: LampFunction)
    requires Distinct(l.faults) && Known(g)
    ensures var l' := ClearFaultIn(l, f);
            && (forall h :: h in l'.faults <==> h in l.faults && h != f)
            && (f !in l.faults ==> l'.faults == l.faults)
            && (forall i | 0 <= i < |l.faults| && l.faults[i] == f ::
                  l'.faults == l.faults[..i] + l.faults[i + 1..])
            && l'.Get(g) == l.Get(g)
  {
    WithoutMembers(l.faults, f);
    if f in l.faults {
      var i :| 0 <= i < |l.faults| && l.faults[i] == f;
      WithoutAt(l.faults, i);
      assert forall j | 0 <= j < |l.faults| && l.faults[j] == f :: j == i;
    } else {
      WithoutAbsent(l.faults, f);
    }
  }
}
