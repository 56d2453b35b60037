/**
  The two implementations of the lighting node's command handler: the bare-metal one and
  the Zephyr one.

  They save and restore the turn signal around hazard in different ways.  Both are proved
  never to light both indicators, and to show the same lamps as each other after every
  stream of valid commands and faults.
 */
module NodeHandlers {

  import opened Bytes
  import opened LampTypes
  import opened Faults
  import opened FunctionManager
  import opened SomeIp
  import Provider

  // ---------------------------------------------------------------------------------
  // Shared pieces
  // ---------------------------------------------------------------------------------

  /**
    The lamp store, what it was after every call of `ApplyCommand` so far, and the lamp
    status events handed to the transport so far.
   */
  datatype Store = Store(lamps: Lamps, trail: seq<Lamps>, events: seq<bytes>)
  {
    function Do(c: LampCommand): Store {
      var l := Apply(lamps, c).0;
      Store(l, trail + [l], events)
    }

    function Set(c: LampCommand, f: LampFunction, action: Action): Store {
      Do(c.(function_ := f, action := action))
    }

    /** The status event for one lamp; there is none for a lamp that the node does not have. */
    function Say(f: LampFunction): (s: Store)
      ensures s.lamps == lamps && s.trail == trail
    {
      if Known(f) then this.(events := events + [Provider.Event(lamps, f)]) else this
    }

    /** The first `n` events of the periodic broadcast. */
    function SayFirst(n: nat): (s: Store)
      requires n <= 5
      ensures s.lamps == lamps && s.trail == trail
    {
      if n == 0 then this else SayFirst(n - 1).Say(ALL_FUNCTIONS[n - 1])
    }

    /** A command that needs no arbitration, with an event if it was applied. */
    function Obey(c: LampCommand): (s: Store)
      ensures s.lamps == Do(c).lamps && s.trail == Do(c).trail
    {
      if Apply(lamps, c).1 then Do(c).Say(c.function_) else Do(c)
    }

    predicate IsOn(f: LampFunction) {
      lamps.IsOn(f)
    }
  }

  /** Both handlers remember this much: the last hazard counter, and an indicator. */
  datatype Handler = Handler(store: Store, lastHazardSequence: bv16, saved: LampFunction)

  function LitIndicator(s: Store): LampFunction {
    if s.IsOn(LeftIndicator) then LeftIndicator
    else if s.IsOn(RightIndicator) then RightIndicator
    else UnknownFunction
  }

  /** A toggle made explicit. */
  function Resolve(s: Store, c: LampCommand): LampCommand {
    if c.action == Toggle then c.(action := if s.IsOn(c.function_) then Deactivate else Activate) else c
  }

  /** Before one indicator goes on, the other goes off. */
  function MakeRoom(s: Store, c: LampCommand): Store {
    if c.action == Activate && s.IsOn(Opposite(c.function_)) then
      s.Set(c, Opposite(c.function_), Deactivate).Say(Opposite(c.function_))
    else s
  }

  predicate Dropped(h: Handler, c: LampCommand) {
    c.sequenceCounter == h.lastHazardSequence || h.store.IsOn(HazardLamp)
  }

  // ---------------------------------------------------------------------------------
  // The bare-metal handler
  // ---------------------------------------------------------------------------------

  function BareHazard(h: Handler, c: LampCommand): Handler {
    if !h.store.IsOn(HazardLamp) then
      var s := h.store.Set(c, HazardLamp, Activate);
      Handler(s.Say(HazardLamp), c.sequenceCounter, LitIndicator(s))
    else
      var s := h.store.Set(c, HazardLamp, Deactivate);
      if h.saved != UnknownFunction then
        Handler(s.Set(c, h.saved, Activate).Set(c, Opposite(h.saved), Deactivate)
                 .Say(h.saved).Say(Opposite(h.saved)).Say(HazardLamp),
                c.sequenceCounter, UnknownFunction)
      else
        Handler(s.Set(c, LeftIndicator, Deactivate).Set(c, RightIndicator, Deactivate)
                 .Say(LeftIndicator).Say(RightIndicator).Say(HazardLamp),
                c.sequenceCounter, h.saved)
  }

  function BareIndicator(h: Handler, c: LampCommand): Handler {
    if Dropped(h, c) then h
    else
      var resolved := Resolve(h.store, c);
      h.(store := MakeRoom(h.store, resolved).Do(resolved).Say(c.function_))
  }

  function BareStep(h: Handler, c: LampCommand): Handler {
    if c.function_ == HazardLamp then BareHazard(h, c)
    else if IsIndicator(c.function_) then BareIndicator(h, c)
    else h.(store := h.store.Obey(c))
  }

  function BareReceive(h: Handler, payload: bytes): Handler {
    BareStep(h, ParseLampCommand(payload))
  }

  class ExteriorLightingNodeHandler {
    const fmgr: ExteriorLightingFunctionManager
    var lastHazardSequence: bv16
    var activeIndicatorBeforeHazard: LampFunction
    /** The lamp status events handed to the transport. */
    var events: seq<bytes>

    ghost predicate Valid()
      reads fmgr, fmgr.Repr
    {
      fmgr.Valid()
    }

    ghost function View(): Handler
      reads this, fmgr
    {
      Handler(Store(fmgr.lamps, fmgr.trail, events), lastHazardSequence, activeIndicatorBeforeHazard)
    }

    constructor (fmgr: ExteriorLightingFunctionManager)
      requires fmgr.Valid()
      ensures this.fmgr == fmgr && Valid()
      ensures View() == Handler(Store(fmgr.lamps, fmgr.trail, []), 0, UnknownFunction)
    {
      this.fmgr := fmgr;
      lastHazardSequence, activeIndicatorBeforeHazard, events := 0, UnknownFunction, [];
    }

    /** `ApplyCommand` on a copy of `c` that is made out to `f`. */
    method Send(c: LampCommand, f: LampFunction, action: Action)
      requires Valid()
      modifies fmgr, fmgr.lampStatuses
      ensures Valid() && View() == old(View()).(store := old(View()).store.Set(c, f, action))
    {
      var _ := fmgr.ApplyCommand(c.(function_ := f, action := action));
    }

    method SendLampStatusEvent(f: LampFunction)
      requires Valid()
      modifies this`events
      ensures Valid() && View() == old(View()).(store := old(View()).store.Say(f))
    {
      hide BuildLampStatus;
      var found, status := fmgr.GetLampStatus(f);
      if found {
        events := events + [BuildLampStatus(status)];
      }
    }

    /** Remembers the indicator that is lit as hazard goes on. */
    method CaptureIndicator()
      requires Valid()
      modifies this
      ensures Valid() && View() == old(View()).(saved := LitIndicator(old(View()).store))
    {
      var left := fmgr.IsOn(LeftIndicator);
      var right := fmgr.IsOn(RightIndicator);
      if left {
        activeIndicatorBeforeHazard := LeftIndicator;
      } else if right {
        activeIndicatorBeforeHazard := RightIndicator;
      } else {
        activeIndicatorBeforeHazard := UnknownFunction;
      }
    }

    method HandleHazard(c: LampCommand)
      requires Valid() && c.function_ == HazardLamp
      modifies this, fmgr, fmgr.lampStatuses
      ensures Valid() && View() == BareHazard(old(View()), c)
    {
      hide Store.Set, Store.Say, Lamps.IsOn, LitIndicator;
      lastHazardSequence := c.sequenceCounter;
      var hazardWasOn := fmgr.IsOn(HazardLamp);
      Send(c, HazardLamp, if hazardWasOn then Deactivate else Activate);
      if !hazardWasOn {
        CaptureIndicator();
        SendLampStatusEvent(HazardLamp);
      } else if activeIndicatorBeforeHazard != UnknownFunction {
        Send(c, activeIndicatorBeforeHazard, Activate);
        var opposite := Opposite(activeIndicatorBeforeHazard);
        Send(c, opposite, Deactivate);
        SendLampStatusEvent(activeIndicatorBeforeHazard);
        SendLampStatusEvent(opposite);
        activeIndicatorBeforeHazard := UnknownFunction;
        SendLampStatusEvent(HazardLamp);
      } else {
        Send(c, LeftIndicator, Deactivate);
        Send(c, RightIndicator, Deactivate);
        SendLampStatusEvent(LeftIndicator);
        SendLampStatusEvent(RightIndicator);
        SendLampStatusEvent(HazardLamp);
      }
    }

    method HandleIndicator(c: LampCommand)
      requires Valid() && IsIndicator(c.function_)
      modifies this, fmgr, fmgr.lampStatuses
      ensures Valid() && View() == BareIndicator(old(View()), c)
    {
      hide Store.Set, Store.Say, Lamps.IsOn;
      if c.sequenceCounter == lastHazardSequence {
        return;
      }
      var hazardOn := fmgr.IsOn(HazardLamp);
      if hazardOn {
        return;
      }
      var resolved := c;
      if c.action == Toggle {
        var on := fmgr.IsOn(c.function_);
        resolved := c.(action := if on then Deactivate else Activate);
      }
      if resolved.action == Activate {
        var opposite := Opposite(c.function_);
        var on := fmgr.IsOn(opposite);
        if on {
          Send(resolved, opposite, Deactivate);
          SendLampStatusEvent(opposite);
        }
      }
      var _ := fmgr.ApplyCommand(resolved);
      SendLampStatusEvent(c.function_);
    }

    method OnTransportMessageReceived(payload: bytes)
      requires Valid()
      modifies this, fmgr, fmgr.lampStatuses
      ensures Valid() && View() == BareReceive(old(View()), payload)
    {
      var c := ParseLampCommand(payload);
      if c.function_ == HazardLamp {
        HandleHazard(c);
      } else if IsIndicator(c.function_) {
        HandleIndicator(c);
      } else {
        var applied := fmgr.ApplyCommand(c);
        if applied {
          SendLampStatusEvent(c.function_);
        }
      }
    }
  }

  // ---------------------------------------------------------------------------------
  // The Zephyr handler
  // ---------------------------------------------------------------------------------

  function ZephyrHazard(h: Handler, c: LampCommand): Handler {
    if !h.store.IsOn(HazardLamp) then
      var s := h.store.Set(c, HazardLamp, Activate);
      Handler(s.Say(HazardLamp), c.sequenceCounter, LitIndicator(s))
    else
      var s := h.store.Set(c, HazardLamp, Deactivate)
                .Set(c, LeftIndicator, Deactivate).Set(c, RightIndicator, Deactivate)
                .Say(HazardLamp).Say(LeftIndicator).Say(RightIndicator);
      if h.saved != UnknownFunction then
        Handler(s.Set(c, h.saved, Activate).Say(h.saved), c.sequenceCounter, UnknownFunction)
      else
        Handler(s, c.sequenceCounter, h.saved)
  }

  function ZephyrIndicator(h: Handler, c: LampCommand): Handler {
    if Dropped(h, c) then h
    else
      var resolved := Resolve(h.store, c);
      h.(store := MakeRoom(h.store, resolved).Do(resolved).Say(c.function_), saved := Registered(h.saved, resolved))
  }

  /** The registry follows the operator's explicit commands. */
  function Registered(saved: LampFunction, c: LampCommand): LampFunction {
    if c.action == Activate then c.function_
    else if c.action == Deactivate && saved == c.function_ then UnknownFunction
    else saved
  }

  function ZephyrStep(h: Handler, c: LampCommand): Handler {
    if c.function_ == HazardLamp then ZephyrHazard(h, c)
    else if IsIndicator(c.function_) then ZephyrIndicator(h, c)
    else h.(store := h.store.Obey(c))
  }

  /** What the Zephyr dispatcher lets through. */
  predicate WellFormed(payload: bytes) {
    |payload| == 5 && IsValidLampCommand(ParseLampCommand(payload))
  }

  function ZephyrReceive(h: Handler, payload: bytes): Handler {
    if WellFormed(payload) then ZephyrStep(h, ParseLampCommand(payload)) else h
  }

  datatype IndicatorInputRegistry = IndicatorInputRegistry(activeIndicator: LampFunction, hazardActive: bool)

  const QUEUE_DEPTH: nat := 8

  /** The queue after one datagram. */
  function Posted(queue: seq<LampCommand>, payload: bytes): seq<LampCommand> {
    if WellFormed(payload) && |queue| < QUEUE_DEPTH then queue + [ParseLampCommand(payload)] else queue
  }

  class ZephyrLightingNode {
    const lampMgr: ExteriorLightingFunctionManager
    var lastHazardSequence: bv16
    var indicatorRegistry: IndicatorInputRegistry
    /** The lamp status events handed to the transport. */
    var events: seq<bytes>
    /** The message queue between the receive thread and the command thread. */
    var commandQueue: seq<LampCommand>

    ghost predicate Valid()
      reads lampMgr, lampMgr.Repr
    {
      lampMgr.Valid()
    }

    ghost function View(): Handler
      reads this, lampMgr
    {
      Handler(Store(lampMgr.lamps, lampMgr.trail, events), lastHazardSequence, indicatorRegistry.activeIndicator)
    }

    constructor (lampMgr: ExteriorLightingFunctionManager)
      requires lampMgr.Valid()
      ensures this.lampMgr == lampMgr && Valid()
      ensures View() == Handler(Store(lampMgr.lamps, lampMgr.trail, []), 0, UnknownFunction) && commandQueue == []
    {
      this.lampMgr := lampMgr;
      lastHazardSequence, indicatorRegistry, events := 0, IndicatorInputRegistry(UnknownFunction, false), [];
      commandQueue := [];
    }

    /** `ApplyCommand` on a copy of `c` that is made out to `f`. */
    method Send(c: LampCommand, f: LampFunction, action: Action)
      requires Valid()
      modifies lampMgr, lampMgr.lampStatuses
      ensures Valid() && View() == old(View()).(store := old(View()).store.Set(c, f, action))
    {
      var _ := lampMgr.ApplyCommand(c.(function_ := f, action := action));
    }

    method SendLampStatusEvent(f: LampFunction)
      requires Valid()
      modifies this`events
      ensures Valid() && View() == old(View()).(store := old(View()).store.Say(f))
    {
      hide BuildLampStatus;
      var found, status := lampMgr.GetLampStatus(f);
      if found {
        events := events + [BuildLampStatus(status)];
      }
    }

    /** Remembers the indicator that is lit as hazard goes on. */
    method CaptureIndicator()
      requires Valid()
      modifies this`indicatorRegistry
      ensures Valid() && View() == old(View()).(saved := LitIndicator(old(View()).store))
    {
      var left := lampMgr.IsOn(LeftIndicator);
      var right := lampMgr.IsOn(RightIndicator);
      if left {
        indicatorRegistry := indicatorRegistry.(activeIndicator := LeftIndicator);
      } else if right {
        indicatorRegistry := indicatorRegistry.(activeIndicator := RightIndicator);
      } else {
        indicatorRegistry := indicatorRegistry.(activeIndicator := UnknownFunction);
      }
    }

    method HandleHazard(c: LampCommand)
      requires Valid() && c.function_ == HazardLamp
      modifies this`lastHazardSequence, this`indicatorRegistry, this`events, lampMgr, lampMgr.lampStatuses
      ensures Valid() && View() == ZephyrHazard(old(View()), c)
    {
      hide Store.Set, Store.Say, Lamps.IsOn, LitIndicator;
      lastHazardSequence := c.sequenceCounter;
      var hazardWasOn := lampMgr.IsOn(HazardLamp);
      Send(c, HazardLamp, if hazardWasOn then Deactivate else Activate);
      if hazardWasOn {
        indicatorRegistry := indicatorRegistry.(hazardActive := false);
        ClearIndicators(c);
        RestoreIndicator(c);
      } else {
        CaptureIndicator();
        indicatorRegistry := indicatorRegistry.(hazardActive := true);
        SendLampStatusEvent(HazardLamp);
      }
    }

    /** The share of `HandleHazard` that brings the remembered indicator back. */
    method RestoreIndicator(c: LampCommand)
      requires Valid()
      modifies this`indicatorRegistry, this`events, lampMgr, lampMgr.lampStatuses
      ensures Valid()
      ensures View() == var h := old(View());
                        if h.saved == UnknownFunction then h
                        else h.(store := h.store.Set(c, h.saved, Activate).Say(h.saved), saved := UnknownFunction)
    {
      hide Store.Set, Store.Say;
      var saved := indicatorRegistry.activeIndicator;
      if saved != UnknownFunction {
        Send(c, saved, Activate);
        SendLampStatusEvent(saved);
        indicatorRegistry := indicatorRegistry.(activeIndicator := UnknownFunction);
      }
    }

    /** The share of `HandleHazard` that turns both indicators off. */
    method ClearIndicators(c: LampCommand)
      requires Valid()
      modifies this`events, lampMgr, lampMgr.lampStatuses
      ensures Valid()
      ensures View() == old(View()).(store := old(View()).store
                  .Set(c, LeftIndicator, Deactivate).Set(c, RightIndicator, Deactivate)
                  .Say(HazardLamp).Say(LeftIndicator).Say(RightIndicator))
    {
      hide Store.Set, Store.Say;
      Send(c, LeftIndicator, Deactivate);
      Send(c, RightIndicator, Deactivate);
      SendLampStatusEvent(HazardLamp);
      SendLampStatusEvent(LeftIndicator);
      SendLampStatusEvent(RightIndicator);
    }

    method HandleIndicator(c: LampCommand)
      requires Valid() && IsIndicator(c.function_)
      modifies this`lastHazardSequence, this`indicatorRegistry, this`events, lampMgr, lampMgr.lampStatuses
      ensures Valid() && View() == ZephyrIndicator(old(View()), c)
    {
      hide Store.Set, Store.Say, Lamps.IsOn, MakeRoom, Registered;
      if c.sequenceCounter == lastHazardSequence {
        return;
      }
      var hazardOn := lampMgr.IsOn(HazardLamp);
      if hazardOn {
        return;
      }
      var resolved := c;
      if c.action == Toggle {
        var on := lampMgr.IsOn(c.function_);
        resolved := c.(action := if on then Deactivate else Activate);
      }
      RegisterIndicator(resolved);
      var _ := lampMgr.ApplyCommand(resolved);
      SendLampStatusEvent(c.function_);
    }

    /** The share of `HandleIndicator` that keeps the registry, and the indicators exclusive. */
    method RegisterIndicator(c: LampCommand)
      requires Valid()
      modifies this`indicatorRegistry, this`events, lampMgr, lampMgr.lampStatuses
      ensures Valid()
      ensures View() == old(View()).(store := MakeRoom(old(View()).store, c),
                                     saved := Registered(old(View()).saved, c))
    {
      hide Store.Set, Store.Say, Lamps.IsOn;
      if c.action == Activate {
        indicatorRegistry := indicatorRegistry.(activeIndicator := c.function_);
        ClearOpposite(c);
      } else if c.action == Deactivate {
        if indicatorRegistry.activeIndicator == c.function_ {
          indicatorRegistry := indicatorRegistry.(activeIndicator := UnknownFunction);
        }
      }
    }

    /** The share of that which turns the opposite indicator off. */
    method ClearOpposite(c: LampCommand)
      requires Valid() && c.action == Activate
      modifies this`events, lampMgr, lampMgr.lampStatuses
      ensures Valid() && View() == old(View()).(store := MakeRoom(old(View()).store, c))
    {
      hide Store.Set, Store.Say, Lamps.IsOn;
      var opposite := Opposite(c.function_);
      var on := lampMgr.IsOn(opposite);
      if on {
        Send(c, opposite, Deactivate);
        SendLampStatusEvent(opposite);
      }
    }

    method ApplyLampCommand(c: LampCommand)
      requires Valid()
      modifies this`lastHazardSequence, this`indicatorRegistry, this`events, lampMgr, lampMgr.lampStatuses
      ensures Valid() && View() == ZephyrStep(old(View()), c)
    {
      if c.function_ == HazardLamp {
        HandleHazard(c);
      } else if c.function_ == LeftIndicator || c.function_ == RightIndicator {
        HandleIndicator(c);
      } else {
        var applied := lampMgr.ApplyCommand(c);
        if applied {
          SendLampStatusEvent(c.function_);
        }
      }
    }

    /** The dispatcher, on the receive thread: it drops the command if the queue is full. */
    method OnTransportMessageReceived(payload: bytes)
      modifies this`commandQueue
      ensures commandQueue == Posted(old(commandQueue), payload)
    {
      if |payload| != 5 {
        return;
      }
      var c := ParseLampCommand(payload);
      if !IsValidLampCommand(c) {
        return;
      }
      if |commandQueue| < QUEUE_DEPTH {
        commandQueue := commandQueue + [c];
      }
    }

    /** One turn of the command thread; on an empty queue it waits. */
    method CmdThread()
      requires Valid()
      modifies this, lampMgr, lampMgr.lampStatuses
      ensures Valid()
      ensures old(commandQueue) == [] ==> View() == old(View()) && commandQueue == []
      ensures old(commandQueue) != [] ==>
                View() == ZephyrStep(old(View()), old(commandQueue)[0]) && commandQueue == old(commandQueue)[1..]
    {
      if commandQueue == [] {
        return;
      }
      var c := commandQueue[0];
      commandQueue := commandQueue[1..];
      ApplyLampCommand(c);
    }

    /** The broadcast that the health thread sends every 200 ms. */
    method BroadcastLampStatuses()
      requires Valid()
      modifies this`events
      ensures Valid() && View() == old(View()).(store := old(View()).store.SayFirst(5))
    {
      hide Store.Say;
      for i := 0 to 5
        invariant Valid() && View() == old(View()).(store := old(View()).store.SayFirst(i))
      {
        SendLampStatusEvent(ALL_FUNCTIONS[i]);
      }
    }
  }
}
