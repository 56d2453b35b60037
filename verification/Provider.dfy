/**
  The service provider on the node: requests in, lamp status events out.
 */
module Provider {

  import opened Bytes
  import opened LampTypes
  import opened Faults
  import opened FunctionManager
  import opened SomeIp

  datatype Message =
    | SetLampCommand(payload: bytes)
    | GetLampStatus(payload: bytes)
    | InjectFault(payload: bytes)
    | ClearFault(payload: bytes)

  function Event(l: Lamps, f: LampFunction): bytes
    requires Known(f)
  {
    BuildLampStatus(l.Get(f))
  }

  /** The lamp store after one request, and the events it causes. */
  function Serve(l: Lamps, m: Message): (Lamps, seq<bytes>) {
    match m
    case SetLampCommand(payload) =>
      var c := ParseLampCommand(payload);
      var (l', applied) := Apply(l, c);
      (l', if applied && Known(c.function_) then [Event(l', c.function_)] else [])
    case GetLampStatus(payload) =>
      var f := FunctionOf(ReadUint8(payload, 0));
      (l, if Known(f) then [Event(l, f)] else [])
    case InjectFault(payload) =>
      var c := ParseFaultCommand(payload);
      if !IsValidFaultCommand(c) || !Known(c.function_) then (l, [])
      else
        var l' := InjectFaultInto(l, c.function_);
        (l', [Event(l', c.function_)])
    case ClearFault(payload) =>
      var c := ParseFaultCommand(payload);
      (if IsValidFaultCommand(c) then ClearFaultIn(l, c.function_) else l, [])
  }

  function AllEvents(l: Lamps): seq<bytes> {
    [Event(l, LeftIndicator), Event(l, RightIndicator), Event(l, HazardLamp), Event(l, ParkLamp), Event(l, HeadLamp)]
  }

  class ExteriorLightingServiceProvider {
    const functionManager: ExteriorLightingFunctionManager
    var isInitialized: bool
    /** The lamp status events handed to the transport. */
    var events: seq<bytes>

    ghost predicate Valid()
      reads functionManager, functionManager.Repr
    {
      functionManager.Valid()
    }

    constructor (functionManager: ExteriorLightingFunctionManager)
      requires functionManager.Valid()
      ensures this.functionManager == functionManager && Valid()
      ensures !isInitialized && events == []
    {
      this.functionManager := functionManager;
      isInitialized, events := false, [];
    }

    method OnTransportMessageReceived(m: Message)
      requires Valid()
      modifies this`events, functionManager.Repr
      ensures Valid()
      ensures var (l, sent) := if isInitialized then Serve(old(functionManager.lamps), m)
                               else (old(functionManager.lamps), []);
              functionManager.lamps == l && events == old(events) + sent
    {
      hide BuildLampStatus, ParseLampCommand, ParseFaultCommand;
      if !isInitialized {
        return;
      }
      match m {
        case SetLampCommand(payload) => HandleSetLampCommand(payload);
        case GetLampStatus(payload) => HandleGetLampStatus(payload);
        case InjectFault(payload) => HandleInjectFault(payload);
        case ClearFault(payload) => HandleClearFault(payload);
      }
    }

    method PublishLampStatusEvent(st: LampStatus)
      modifies this`events
      ensures events == old(events) + [BuildLampStatus(st)]
    {
      events := events + [BuildLampStatus(st)];
    }

    method HandleSetLampCommand(payload: bytes)
      requires Valid()
      modifies this`events, functionManager.Repr
      ensures Valid()
      ensures var (l, sent) := Serve(old(functionManager.lamps), SetLampCommand(payload));
              functionManager.lamps == l && events == old(events) + sent
    {
      hide BuildLampStatus, ParseLampCommand;
      var c := ParseLampCommand(payload);
      var applied := functionManager.ApplyCommand(c);
      if !applied {
        return;
      }
      var available, st := functionManager.GetLampStatus(c.function_);
      if available {
        PublishLampStatusEvent(st);
      }
    }

    method HandleGetLampStatus(payload: bytes)
      requires Valid()
      modifies this`events
      ensures Valid()
      ensures events == old(events) + Serve(functionManager.lamps, GetLampStatus(payload)).1
    {
      hide BuildLampStatus;
      var f := FunctionOf(ReadUint8(payload, 0));
      var available, st := functionManager.GetLampStatus(f);
      if available {
        PublishLampStatusEvent(st);
      }
    }

    method HandleInjectFault(payload: bytes)
      requires Valid()
      modifies this`events, functionManager.Repr
      ensures Valid()
      ensures var (l, sent) := Serve(old(functionManager.lamps), InjectFault(payload));
              functionManager.lamps == l && events == old(events) + sent
    {
      hide BuildLampStatus, ParseFaultCommand;
      var c := ParseFaultCommand(payload);
      if !IsValidFaultCommand(c) {
        return;
      }
      var applied := functionManager.HandleFaultInjection(c.function_);
      if applied {
        var available, st := functionManager.GetLampStatus(c.function_);
        if available {
          PublishLampStatusEvent(st);
        }
      }
    }

    method HandleClearFault(payload: bytes)
      requires Valid()
      modifies functionManager.Repr
      ensures Valid()
      ensures functionManager.lamps == Serve(old(functionManager.lamps), ClearFault(payload)).0
    {
      hide ParseFaultCommand;
      var c := ParseFaultCommand(payload);
      if !IsValidFaultCommand(c) {
        return;
      }
      var _ := functionManager.HandleFaultClear(c.function_);
    }

    method BroadcastAllLampStatuses()
      requires Valid()
      modifies this`events
      ensures Valid() && events == old(events) + AllEvents(functionManager.lamps)
    {
      hide BuildLampStatus;
      ghost var all := AllEvents(functionManager.lamps);
      for i := 0 to 5
        invariant Valid() && functionManager.lamps == old(functionManager.lamps)
        invariant events == old(events) + all[..i]
      {
        var available, st := functionManager.GetLampStatus(ALL_FUNCTIONS[i]);
        assert all[i] == BuildLampStatus(st);
        if available {
          PublishLampStatusEvent(st);
        }
      }
    }
  }

  // ---------------------------------------------------------------------------------
  // What each request does
  // ---------------------------------------------------------------------------------

  /** The bytes of a fault command that name lamp, action and source are within their ranges. */
  predicate ValidFaultBytes(payload: bytes) {
    && (|payload| >= 1 ==> payload[0] <= 5)
    && (|payload| >= 2 ==> payload[1] <= 2)
    && (|payload| >= 3 ==> payload[2] <= 3)
  }

  lemma FaultBytes(payload: bytes)
    ensures IsValidFaultCommand(ParseFaultCommand(payload)) <==> ValidFaultBytes(payload)
    ensures ParseFaultCommand(payload).function_ == FunctionOf(if payload == [] then 0 else payload[0])
  {
  }

  lemma EventTells(l: Lamps, f: LampFunction)
    requires Known(f)
    ensures ParseLampStatus(Event(l, f)) == l.Get(f)
  {
    LampStatusRoundTrip(l.Get(f));
    hide BuildLampStatus, ParseLampStatus;
  }

  /**
    A fault request over SOME/IP: if it is valid and names a lamp, that lamp is faulted and
    dark, everything else is as before, and one event says so; else nothing happens.
   */
  lemma InjectFaultServed(l: Lamps, payload: bytes, g: LampFunction)
    requires Interlocked(l) && Known(g)
    ensures var (l', events) := Serve(l, InjectFault(payload));
            if payload != [] && 1 <= payload[0] <= 5 && ValidFaultBytes(payload) then
              var f := FunctionOf(payload[0]);
              && l'.faults == (if f in l.faults then l.faults else l.faults + [f])
              && !l'.IsOn(f) && f in l'.faults
              && (g != f ==> l'.Get(g) == l.Get(g))
              && |events| == 1
              && ParseLampStatus(events[0]).function_ == f && ParseLampStatus(events[0]).outputState == Off
            else l' == l && events == []
  {
    FaultBytes(payload);
    if payload != [] && 1 <= payload[0] <= 5 {
      var f := FunctionOf(payload[0]);
      InjectOutcome(l, f, g);
      InjectOutcome(l, f, f);
      PerformKeepsInterlock(l, StoreOp.Inject(f));
      SoundAt(InjectFaultInto(l, f), f);
      EventTells(InjectFaultInto(l, f), f);
    }
    hide ParseFaultCommand, ParseLampStatus, Event, InjectFaultInto, Interlocked, IsValidFaultCommand;
  }

  /** A clear request: that fault is gone, everything else is as before, and nothing is sent. */
  lemma ClearFaultServed(l: Lamps, payload: bytes, g: LampFunction)
    requires Interlocked(l) && Distinct(l.faults) && Known(g)
    ensures var (l', events) := Serve(l, ClearFault(payload));
            && events == [] && l'.Get(g) == l.Get(g)
            && (if payload != [] && 1 <= payload[0] <= 5 && ValidFaultBytes(payload) then
                  forall h :: h in l'.faults <==> h in l.faults && h != FunctionOf(payload[0])
                else l'.faults == l.faults)
  {
    FaultBytes(payload);
    ClearOutcome(l, ParseFaultCommand(payload).function_, g);
    hide ParseFaultCommand, ClearFaultIn, Interlocked, IsValidFaultCommand;
  }

  /** A status request changes nothing and is answered with the status of the lamp asked for. */
  lemma GetLampStatusServed(l: Lamps, payload: bytes)
    ensures var (l', events) := Serve(l, GetLampStatus(payload));
            && l' == l
            && (if payload != [] && 1 <= payload[0] <= 5 then
                  |events| == 1 && ParseLampStatus(events[0]) == l.Get(FunctionOf(payload[0]))
                else events == [])
  {
    if payload != [] && 1 <= payload[0] <= 5 {
      EventTells(l, FunctionOf(payload[0]));
    }
    hide ParseLampStatus, Event;
  }

  /**
    A lamp command is applied to the lamp that it names, and answered with that lamp's new
    status exactly if it was applied.
   */
  lemma SetLampCommandServed(l: Lamps, payload: bytes, g: LampFunction)
    requires Interlocked(l) && Known(g)
    ensures var (l', events) := Serve(l, SetLampCommand(payload));
            var c := ParseLampCommand(payload);
            var applied := Known(c.function_) && !Guarded(l, c) && c.action in {Activate, Deactivate, Toggle};
            && l'.faults == l.faults
            && (g != c.function_ ==> l'.Get(g) == l.Get(g))
            && (applied ==>
                  && |events| == 1 && ParseLampStatus(events[0]) == l'.Get(c.function_)
                  && l'.Get(c.function_).lastSequenceCounter == c.sequenceCounter
                  && (l'.IsOn(c.function_) <==>
                      c.action == Activate || (c.action == Toggle && !l.IsOn(c.function_))))
            && (!applied ==> events == [] && (l'.IsOn(g) <==> l.IsOn(g)))
  {
    var c := ParseLampCommand(payload);
    ApplyOutcome(l, c, g);
    if Known(c.function_) {
      ApplyOutcome(l, c, c.function_);
      EventTells(Apply(l, c).0, c.function_);
    }
    hide Apply, Event, ParseLampStatus, ParseLampCommand, Interlocked;
  }

  /** The broadcast is about the five lamps in their order, and tells the status of each. */
  lemma BroadcastServed(l: Lamps, i: nat)
    requires i < 5 && Interlocked(l)
    ensures |AllEvents(l)| == 5
    ensures ParseLampStatus(AllEvents(l)[i])
         == [l.Get(LeftIndicator), l.Get(RightIndicator), l.Get(HazardLamp), l.Get(ParkLamp), l.Get(HeadLamp)][i]
  {
    EventTells(l, ALL_FUNCTIONS[i]);
    hide Event, ParseLampStatus, Interlocked;
  }
}
