/**
  Controller, node, and the two channels between them, as one system.

  Requests and status events travel in order and without loss.  At any moment the
  controller's cache, overlaid with the events still under way, is what the node shows.
 */
module InFlight {

  import opened Bytes
  import opened LampTypes
  import opened Faults
  import opened FunctionManager
  import opened SomeIp
  import opened Arbitrator
  import opened Controller
  import opened Provider

  datatype System = System(
    ctl: ControllerState, node: Lamps, requests: seq<Message>, events: seq<bytes>, published: set<LampFunction>)

  datatype Step =
    | Initialize(status: ServiceStatus)
    | Request(f: LampFunction, action: Action, source: Source, link: seq<ServiceStatus>)
    | Ask(m: Message)
    | NodeTakes
    | ControllerTakes
    | Broadcast

  function SetMessages(commands: seq<LampCommand>): (ms: seq<Message>)
    ensures |ms| == |commands|
  {
    seq(|commands|, i requires 0 <= i < |commands| => SetLampCommand(BuildLampCommand(commands[i])))
  }

  /** The lamps that a list of events is about. */
  function Subjects(events: seq<bytes>): set<LampFunction> {
    set e | e in events :: ParseLampStatus(e).function_
  }

  /** One turn of the broadcast loop. */
  function Publish(s: System, f: LampFunction): System
    requires Known(f)
  {
    s.(events := s.events + [Event(s.node, f)], published := s.published + {f})
  }

  /** The broadcast sends the five events of the provider. */
  lemma BroadcastSends(s: System)
    ensures Next(s, Broadcast).events == s.events + AllEvents(s.node)
  {
    hide Event;
  }

  function Next(s: System, step: Step): System {
    match step
    case Initialize(status) => s.(ctl := Initialized(s.ctl, status))
    case Request(f, action, source, link) =>
      var (ctl, commands, _) := Send(s.ctl, f, action, source, link);
      s.(ctl := ctl, requests := s.requests + SetMessages(commands))
    case Ask(m) =>
      if m.SetLampCommand? then s else s.(requests := s.requests + [m])
    case NodeTakes =>
      if s.requests == [] then s
      else
        var (node, events) := Serve(s.node, s.requests[0]);
        s.(node := node, requests := s.requests[1..], events := s.events + events,
           published := s.published + Subjects(events))
    case ControllerTakes =>
      if s.events == [] then s
      else s.(ctl := Receive(s.ctl, ParseLampStatus(s.events[0])), events := s.events[1..])
    case Broadcast =>
      Publish(Publish(Publish(Publish(Publish(s, LeftIndicator), RightIndicator), HazardLamp), ParkLamp), HeadLamp)
  }

  function Run(s: System, steps: seq<Step>): System
    decreases |steps|
  {
    if steps == [] then s else Run(Next(s, steps[0]), steps[1..])
  }

  // ---------------------------------------------------------------------------------
  // The cache and what is under way
  // ---------------------------------------------------------------------------------

  /** The cache once all of `events` have arrived. */
  function Overlaid(cache: Cache, events: seq<bytes>): Cache
    decreases |events|
  {
    if events == [] then cache
    else
      var n := |events| - 1;
      Updated(Overlaid(cache, events[..n]), ParseLampStatus(events[n]))
  }

  lemma {:induction false} OverlaidFirst(cache: Cache, events: seq<bytes>)
    requires events != []
    ensures Overlaid(Updated(cache, ParseLampStatus(events[0])), events[1..]) == Overlaid(cache, events)
    decreases |events|
  {
    hide Updated, ParseLampStatus;
    var n := |events| - 1;
    if n == 0 {
      assert events[..0] == [];
    } else {
      assert events[1..][..n - 1] == events[..n][1..];
      OverlaidFirst(cache, events[..n]);
    }
  }

  lemma OverlaidLast(cache: Cache, events: seq<bytes>, e: bytes)
    ensures Overlaid(cache, events + [e]) == Updated(Overlaid(cache, events), ParseLampStatus(e))
  {
    assert (events + [e])[..|events|] == events;
  }

  predicate SendableRequest(m: Message) {
    m.SetLampCommand? ==> IsCommandStructurallyAccepted(ParseLampCommand(m.payload))
  }

  /** Seen from the far end of the event channel, slot `f` is right. */
  predicate SlotAgrees(view: Cache, node: Lamps, published: set<LampFunction>, f: LampFunction)
    requires Known(f)
  {
    if f in published then view[IndexOf(f)] == node.Get(f) else Active(view, f) == node.IsOn(f)
  }

  ghost predicate Consistent(s: System) {
    && s.ctl.cached == s.ctl.arbitration
    && Interlocked(s.node)
    && (forall m | m in s.requests :: SendableRequest(m))
    && (forall f | Known(f) :: SlotAgrees(Overlaid(s.ctl.cached, s.events), s.node, s.published, f))
  }

  function Start(): System {
    System(Controller.PowerUp(), FunctionManager.PowerUp(), [], [], {})
  }

  /** At power-up, and after an attempt to initialise, whatever came of it. */
  lemma StartIsConsistent(status: ServiceStatus)
    ensures Consistent(Start()) && Consistent(Next(Start(), Initialize(status)))
    ensures Next(Start(), Initialize(status)).ctl.initialized <==> status == ServiceStatus.Success
  {
    assert Consistent(Start());
    hide SlotAgrees, Interlocked, Overlaid;
  }

  // ---------------------------------------------------------------------------------
  // Every step
  // ---------------------------------------------------------------------------------

  /** Publishing slot `f` makes it right, whatever it was before. */
  lemma Publishes(view: Cache, node: Lamps, published: set<LampFunction>, f: LampFunction, g: LampFunction)
    requires Known(f) && Known(g) && node.Get(f).function_ == f
    requires g != f ==> SlotAgrees(view, node, published, g)
    ensures SlotAgrees(Updated(view, node.Get(f)), node, published + {f}, g)
  {
  }

  lemma EventSays(l: Lamps, f: LampFunction)
    requires Known(f) && Interlocked(l)
    ensures ParseLampStatus(Event(l, f)) == l.Get(f) && l.Get(f).function_ == f
  {
    LampStatusRoundTrip(l.Get(f));
    hide BuildLampStatus, ParseLampStatus;
  }

  lemma EventPublishes(s: System, node: Lamps, f: LampFunction, g: LampFunction)
    requires Known(f) && Known(g) && Interlocked(node)
    requires g != f ==> SlotAgrees(Overlaid(s.ctl.cached, s.events), node, s.published, g)
    ensures Subjects([Event(node, f)]) == {f}
    ensures SlotAgrees(Overlaid(s.ctl.cached, s.events + [Event(node, f)]), node, s.published + {f}, g)
  {
    hide Event, SlotAgrees, ParseLampStatus, Interlocked, Lamps.Get, Overlaid, Updated;
    EventSays(node, f);
    OverlaidLast(s.ctl.cached, s.events, Event(node, f));
    Publishes(Overlaid(s.ctl.cached, s.events), node, s.published, f, g);
    SubjectOf(Event(node, f));
  }

  lemma SubjectOf(e: bytes)
    ensures Subjects([e]) == {ParseLampStatus(e).function_}
  {
    hide ParseLampStatus;
    assert e in [e];
  }

  /** What a request does to a lamp without an event, if anything, leaves its status alone. */
  lemma ServeChangesOnlyItsSubject(l: Lamps, m: Message, g: LampFunction)
    requires Interlocked(l) && SendableRequest(m) && Known(g)
    ensures var (l', events) := Serve(l, m);
            && Interlocked(l')
            && (if events == [] then l'.Get(g) == l.Get(g)
                else exists f :: Known(f) && events == [Event(l', f)] && (g != f ==> l'.Get(g) == l.Get(g)))
  {
    hide ParseLampCommand, ParseFaultCommand, BuildLampStatus, Interlocked, WithInjected, Without;
    match m
    case SetLampCommand(payload) =>
      PerformKeepsInterlock(l, Command(ParseLampCommand(payload)));
    case GetLampStatus(payload) =>
    case InjectFault(payload) =>
      PerformKeepsInterlock(l, StoreOp.Inject(ParseFaultCommand(payload).function_));
    case ClearFault(payload) =>
      PerformKeepsInterlock(l, StoreOp.Clear(ParseFaultCommand(payload).function_));
  }

  lemma SameStatusAgrees(view: Cache, l: Lamps, l': Lamps, published: set<LampFunction>, g: LampFunction)
    requires Known(g) && l'.Get(g) == l.Get(g) && SlotAgrees(view, l, published, g)
    ensures SlotAgrees(view, l', published, g)
  {
  }

  lemma NodeTakesKeeps(s: System)
    requires Consistent(s) && s.requests != []
    ensures Consistent(Next(s, NodeTakes))
  {
    hide Serve, SlotAgrees, Interlocked, SendableRequest, Event, Lamps.Get, Overlaid;
    var (node, events) := Serve(s.node, s.requests[0]);
    var s' := Next(s, NodeTakes);
    assert SendableRequest(s.requests[0]);
    forall g | Known(g)
      ensures Interlocked(node) && SlotAgrees(Overlaid(s'.ctl.cached, s'.events), node, s'.published, g)
    {
      ServeChangesOnlyItsSubject(s.node, s.requests[0], g);
      assert SlotAgrees(Overlaid(s.ctl.cached, s.events), s.node, s.published, g);
      if events == [] {
        assert s'.events == s.events && s'.published == s.published;
        SameStatusAgrees(Overlaid(s.ctl.cached, s.events), s.node, node, s.published, g);
      } else {
        var f :| Known(f) && events == [Event(node, f)] && (g != f ==> node.Get(g) == s.node.Get(g));
        if g != f {
          SameStatusAgrees(Overlaid(s.ctl.cached, s.events), s.node, node, s.published, g);
        }
        EventPublishes(s, node, f, g);
      }
    }
    assert Known(LeftIndicator);
  }

  lemma RequestKeeps(s: System, step: Step)
    requires Consistent(s) && step.Request?
    ensures Consistent(Next(s, step))
  {
    hide SlotAgrees, Interlocked, Overlaid, ParseLampCommand, BuildLampCommand, ContextOf, NextSequence;
    var (ctl, commands, _) := Send(s.ctl, step.f, step.action, step.source, step.link);
    forall m | m in SetMessages(commands)
      ensures SendableRequest(m)
    {
      var i :| 0 <= i < |commands| && m == SetMessages(commands)[i];
      LampCommandRoundTrip(commands[i]);
    }
  }

  lemma ControllerTakesKeeps(s: System)
    requires Consistent(s) && s.events != []
    ensures Consistent(Next(s, ControllerTakes))
  {
    hide SlotAgrees, Interlocked, Overlaid, ParseLampStatus, Updated;
    OverlaidFirst(s.ctl.cached, s.events);
  }

  // ---------------------------------------------------------------------------------
  // The broadcast
  // ---------------------------------------------------------------------------------

  predicate Right(s: System, g: LampFunction)
    requires Known(g)
  {
    SlotAgrees(Overlaid(s.ctl.cached, s.events), s.node, s.published, g)
  }

  lemma PublishOne(s: System, f: LampFunction, g: LampFunction)
    requires Known(f) && Known(g) && Interlocked(s.node)
    requires g != f ==> Right(s, g)
    ensures Right(Publish(s, f), g)
  {
    hide Event, SlotAgrees, Interlocked, Overlaid;
    EventPublishes(s, s.node, f, g);
  }

  lemma BroadcastMakesRight(s: System, g: LampFunction)
    requires Known(g) && Interlocked(s.node)
    ensures Right(Next(s, Broadcast), g)
  {
    hide Right, Interlocked, Event;
    var s1 := Publish(s, LeftIndicator);
    var s2 := Publish(s1, RightIndicator);
    var s3 := Publish(s2, HazardLamp);
    var s4 := Publish(s3, ParkLamp);
    if g == LeftIndicator {
      PublishOne(s, LeftIndicator, g);
    }
    if g == LeftIndicator || g == RightIndicator {
      PublishOne(s1, RightIndicator, g);
    }
    if g != ParkLamp && g != HeadLamp {
      PublishOne(s2, HazardLamp, g);
    }
    if g != HeadLamp {
      PublishOne(s3, ParkLamp, g);
    }
    PublishOne(s4, HeadLamp, g);
  }

  /**
    A broadcast makes the system consistent from any state in which the two controller
    caches agree, for example after a fault that was injected behind the controller's back.
   */
  lemma BroadcastRestores(s: System)
    requires s.ctl.cached == s.ctl.arbitration && Interlocked(s.node)
    requires forall m | m in s.requests :: SendableRequest(m)
    ensures Consistent(Next(s, Broadcast))
  {
    hide SlotAgrees, Interlocked, Overlaid, Event, SendableRequest;
    forall g | Known(g)
      ensures Right(Next(s, Broadcast), g)
    {
      BroadcastMakesRight(s, g);
    }
  }

  // ---------------------------------------------------------------------------------
  // Every run
  // ---------------------------------------------------------------------------------

  lemma StepKeepsConsistent(s: System, step: Step)
    requires Consistent(s)
    ensures Consistent(Next(s, step))
  {
    match step
    case Initialize(_) => hide SlotAgrees, Interlocked, Overlaid, SendableRequest;
    case Request(_, _, _, _) => RequestKeeps(s, step);
    case Ask(m) => hide SlotAgrees, Interlocked, Overlaid, ParseLampCommand;
    case NodeTakes => if s.requests != [] { NodeTakesKeeps(s); }
    case ControllerTakes => if s.events != [] { ControllerTakesKeeps(s); }
    case Broadcast => BroadcastRestores(s);
  }

  /**
    In-flight consistency: in every reachable state, the controller's cache overlaid with
    the events still under way equals the status on the node for every lamp ever
    published, and agrees on on and off for the rest.
   */
  lemma {:induction false} InFlightConsistency(s: System, steps: seq<Step>)
    requires Consistent(s)
    ensures Consistent(Run(s, steps))
    decreases |steps|
  {
    hide Consistent, Next;
    if steps == [] {
    } else {
      StepKeepsConsistent(s, steps[0]);
      InFlightConsistency(Next(s, steps[0]), steps[1..]);
    }
  }

  function TrueContext(l: Lamps): Context {
    Context(l.IsOn(LeftIndicator), l.IsOn(RightIndicator), l.IsOn(HazardLamp), l.IsOn(ParkLamp), l.IsOn(HeadLamp))
  }

  /** With nothing under way towards the controller, it arbitrates on what the node shows. */
  lemma QuietContextIsTrue(s: System)
    requires Consistent(s) && s.events == []
    ensures ContextOf(s.ctl.arbitration) == TrueContext(s.node)
  {
    hide Interlocked;
    forall f | Known(f)
      ensures Active(s.ctl.arbitration, f) == s.node.IsOn(f)
    {
      assert SlotAgrees(Overlaid(s.ctl.cached, s.events), s.node, s.published, f);
    }
    assert Known(LeftIndicator) && Known(RightIndicator) && Known(HazardLamp) && Known(ParkLamp) && Known(HeadLamp);
  }

  // ---------------------------------------------------------------------------------
  // Faults behind the controller's back
  // ---------------------------------------------------------------------------------

  /** A fault injected over UDS changes the lamp store and publishes nothing. */
  function InjectedOverUds(s: System, f: LampFunction): System {
    s.(node := InjectFaultInto(s.node, f))
  }

  /** A UDS fault injection keeps the cache consistent exactly when the lamp was not lit. */
  lemma UdsInjectionKeepsIff(s: System, f: LampFunction)
    requires Consistent(s) && Known(f)
    ensures Consistent(InjectedOverUds(s, f)) <==> !s.node.IsOn(f)
  {
    var s' := InjectedOverUds(s, f);
    var view := Overlaid(s.ctl.cached, s.events);
    PerformKeepsInterlock(s.node, StoreOp.Inject(f));
    hide Interlocked, WithInjected, Overlaid, SendableRequest;
    assert SlotAgrees(view, s.node, s.published, f);
    if s.node.IsOn(f) {
      assert !SlotAgrees(view, s'.node, s.published, f);
    } else {
      forall g | Known(g)
        ensures SlotAgrees(view, s'.node, s.published, g)
      {
        assert SlotAgrees(view, s.node, s.published, g);
        assert s'.node.Get(g) == s.node.Get(g);
      }
    }
  }

  // ---------------------------------------------------------------------------------
  // Indicator exclusivity, as the controller arranges it
  // ---------------------------------------------------------------------------------

  function ApplyAll(l: Lamps, commands: seq<LampCommand>): Lamps
    decreases |commands|
  {
    if commands == [] then l else ApplyAll(Apply(l, commands[0]).0, commands[1..])
  }

  predicate BothOnlyInHazard(l: Lamps) {
    l.IsOn(LeftIndicator) && l.IsOn(RightIndicator) ==> l.IsOn(HazardLamp)
  }

  /** Hazard is requested, its own lamp is faulted, and neither indicator is. */
  predicate HazardCannotFollow(l: Lamps, c: LampCommand) {
    && IsCommandStructurallyAccepted(c) && c.function_ == HazardLamp && IsActionKnownAndActive(c.action)
    && HazardLamp in l.faults && LeftIndicator !in l.faults && RightIndicator !in l.faults
  }

  lemma ApplyOne(l: Lamps, c: LampCommand)
    ensures ApplyAll(l, [c]) == Apply(l, c).0
  {
    assert [c][1..] == [];
  }

  lemma ApplyTwo(l: Lamps, c: LampCommand, d: LampCommand)
    ensures ApplyAll(l, [c, d]) == Apply(Apply(l, c).0, d).0
  {
    hide Apply;
    assert [c, d][1..] == [d];
    ApplyOne(Apply(l, c).0, d);
  }

  lemma ApplyThree(l: Lamps, c: LampCommand, d: LampCommand, e: LampCommand)
    ensures ApplyAll(l, [c, d, e]) == Apply(Apply(Apply(l, c).0, d).0, e).0
  {
    hide Apply;
    assert [c, d, e][1..] == [d, e];
    ApplyTwo(Apply(l, c).0, d, e);
  }

  /**
    When exactly a whole decision, taken on what the node shows, leaves both indicators on
    only if hazard is on.
   */
  lemma DecisionKeepsExclusiveIff(l: Lamps, c: LampCommand)
    requires Interlocked(l) && BothOnlyInHazard(l)
    ensures var commands := Arbitrate(c, TrueContext(l)).commands;
            BothOnlyInHazard(ApplyAll(l, commands)) <==> !HazardCannotFollow(l, c)
  {
    hide Apply, Interlocked, Lamps.IsOn, ApplyAll;
    var commands := Arbitrate(c, TrueContext(l)).commands;
    if |commands| == 3 {
      var l1 := Apply(l, commands[0]).0;
      var l2 := Apply(l1, commands[1]).0;
      ApplyThree(l, commands[0], commands[1], commands[2]);
      ApplyShowsSignals(l, commands[0]);
      ApplyShowsSignals(l1, commands[1]);
      ApplyShowsSignals(l2, commands[2]);
      if l.IsOn(HazardLamp) {
        LitIsHealthy(l, HazardLamp);
      }
    } else if |commands| == 2 {
      ApplyTwo(l, commands[0], commands[1]);
      ApplyShowsSignals(l, commands[0]);
      ApplyShowsSignals(Apply(l, commands[0]).0, commands[1]);
    } else if |commands| == 1 {
      ApplyOne(l, commands[0]);
      ApplyShowsSignals(l, commands[0]);
    } else {
      ApplyNone(l);
    }
  }

  lemma ApplyNone(l: Lamps)
    ensures ApplyAll(l, []) == l
  {
  }

  /** What the operator means by a request, lamp by lamp. */
  predicate Intended(l: Lamps, c: LampCommand, g: LampFunction) {
    var activating := IsActionKnownAndActive(c.action);
    if c.function_ == HazardLamp then
      if g == HazardLamp || IsIndicator(g) then c.action == Activate || (c.action == Toggle && !l.IsOn(HazardLamp))
      else l.IsOn(g)
    else if IsIndicator(c.function_) && activating && l.IsOn(HazardLamp) then l.IsOn(g)
    else if g == c.function_ then LitAfter(c.action, l.IsOn(g), false)
    else if IsIndicator(c.function_) && activating && g == Opposite(c.function_) then false
    else l.IsOn(g)
  }

  /** Without faults, the decision on a request does to every lamp what was intended. */
  lemma {:induction false} DecisionMeansIntended(l: Lamps, c: LampCommand, g: LampFunction)
    requires Interlocked(l) && BothOnlyInHazard(l) && l.faults == [] && Known(g)
    requires IsCommandStructurallyAccepted(c)
    ensures ApplyAll(l, Arbitrate(c, TrueContext(l)).commands).IsOn(g) <==> Intended(l, c, g)
  {
    hide Apply, Interlocked, Lamps.IsOn, ApplyAll;
    var commands := Arbitrate(c, TrueContext(l)).commands;
    if |commands| == 3 {
      var l1 := Apply(l, commands[0]).0;
      var l2 := Apply(l1, commands[1]).0;
      ApplyThree(l, commands[0], commands[1], commands[2]);
      ApplyShows(l, commands[0], g);
      ApplyShows(l1, commands[1], g);
      ApplyShows(l2, commands[2], g);
    } else if |commands| == 2 {
      ApplyTwo(l, commands[0], commands[1]);
      ApplyShows(l, commands[0], g);
      ApplyShows(Apply(l, commands[0]).0, commands[1], g);
    } else if |commands| == 1 {
      ApplyOne(l, commands[0]);
      ApplyShows(l, commands[0], g);
    } else {
      ApplyNone(l);
    }
  }

  /** When the first `k` commands of a fan-out leave both indicators on and hazard off. */
  predicate FailsMidway(l: Lamps, c: LampCommand, k: nat) {
    && IsCommandStructurallyAccepted(c) && c.function_ == HazardLamp
    && (if ResolveHazardAction(c, TrueContext(l)) == Deactivate then
          k == 1 && l.IsOn(LeftIndicator) && l.IsOn(RightIndicator)
        else
          && HazardLamp in l.faults && LeftIndicator !in l.faults
          && ((k == 2 && l.IsOn(RightIndicator)) || (k == 3 && RightIndicator !in l.faults)))
  }

  /** The same after every part of the decision that may have arrived. */
  lemma {:induction false} PrefixKeepsExclusiveIff(l: Lamps, c: LampCommand, k: nat)
    requires Interlocked(l) && BothOnlyInHazard(l) && k <= |Arbitrate(c, TrueContext(l)).commands|
    ensures var commands := Arbitrate(c, TrueContext(l)).commands;
            BothOnlyInHazard(ApplyAll(l, commands[..k])) <==> !FailsMidway(l, c, k)
  {
    hide Apply, Interlocked, Lamps.IsOn, ApplyAll;
    var commands := Arbitrate(c, TrueContext(l)).commands;
    if l.IsOn(HazardLamp) {
      LitIsHealthy(l, HazardLamp);
    }
    if k == 0 {
      ApplyNone(l);
    } else if k == |commands| {
      assert commands[..k] == commands;
      DecisionKeepsExclusiveIff(l, c);
    } else {
      ApplyShowsSignals(l, commands[0]);
      if k == 1 {
        assert commands[..k] == [commands[0]];
        ApplyOne(l, commands[0]);
      } else {
        assert commands[..k] == [commands[0], commands[1]];
        ApplyTwo(l, commands[0], commands[1]);
        ApplyShowsSignals(Apply(l, commands[0]).0, commands[1]);
      }
    }
  }

  /** Midway through the fan-out of a hazard deactivation it does not hold. */
  lemma MidwayBothOnWithoutHazard()
    ensures exists l: Lamps, c: LampCommand ::
              && Interlocked(l) && BothOnlyInHazard(l)
              && var commands := Arbitrate(c, TrueContext(l)).commands;
                 |commands| == 3 && !BothOnlyInHazard(ApplyAll(l, commands[..1]))
  {
    var on := (f: LampFunction) => LampStatus(f, On, true, 1);
    var l := FunctionManager.PowerUp()
               .(left := on(LeftIndicator), right := on(RightIndicator), hazard := on(HazardLamp));
    var c := LampCommand(HazardLamp, Deactivate, HmiControlPanel, 2);
    var commands := Arbitrate(c, TrueContext(l)).commands;
    ApplyOne(l, commands[0]);
    assert commands[..1] == [commands[0]];
  }

  // Requests that are settled one at a time.

  datatype Round = Round(f: LampFunction, action: Action, source: Source, schedule: seq<Step>)

  predicate Quiet(s: System) {
    s.requests == [] && s.events == []
  }

  function Requested(s: System, r: Round): System {
    Next(s, Request(r.f, r.action, r.source, []))
  }

  function AfterRound(s: System, r: Round): System {
    Run(Requested(s, r), r.schedule)
  }

  /** The schedule only delivers, in any order, and leaves nothing under way. */
  predicate Settles(s: System, r: Round) {
    && (forall step | step in r.schedule :: step == NodeTakes || step == ControllerTakes)
    && Quiet(AfterRound(s, r))
  }

  function AfterRounds(s: System, rounds: seq<Round>): System
    decreases |rounds|
  {
    if rounds == [] then s else AfterRounds(AfterRound(s, rounds[0]), rounds[1..])
  }

  predicate AllSettle(s: System, rounds: seq<Round>)
    decreases |rounds|
  {
    rounds != [] ==> Settles(s, rounds[0]) && AllSettle(AfterRound(s, rounds[0]), rounds[1..])
  }

  /** The node once it has taken all of `ms`. */
  function Served(l: Lamps, ms: seq<Message>): Lamps
    decreases |ms|
  {
    if ms == [] then l else Served(Serve(l, ms[0]).0, ms[1..])
  }

  lemma {:induction false} DeliveryKeepsFuture(s: System, schedule: seq<Step>)
    requires forall step | step in schedule :: step == NodeTakes || step == ControllerTakes
    ensures var s' := Run(s, schedule); Served(s'.node, s'.requests) == Served(s.node, s.requests)
    decreases |schedule|
  {
    hide Serve, Receive, ParseLampStatus, Subjects;
    if schedule == [] {
    } else {
      var s1 := Next(s, schedule[0]);
      assert schedule[0] in schedule && forall step | step in schedule[1..] :: step in schedule;
      assert Served(s1.node, s1.requests) == Served(s.node, s.requests);
      DeliveryKeepsFuture(s1, schedule[1..]);
    }
  }

  lemma {:induction false} ServedAppliesAll(l: Lamps, commands: seq<LampCommand>)
    ensures Served(l, SetMessages(commands)) == ApplyAll(l, commands)
    decreases |commands|
  {
    hide Apply, BuildLampCommand, ParseLampCommand;
    if commands == [] {
    } else {
      LampCommandRoundTrip(commands[0]);
      assert SetMessages(commands)[1..] == SetMessages(commands[1..]);
      ServedAppliesAll(Apply(l, commands[0]).0, commands[1..]);
    }
  }

  /** What a round does to the node: the arbitrated commands, or nothing. */
  lemma RoundApplies(s: System, r: Round)
    requires Consistent(s) && Quiet(s) && Settles(s, r)
    ensures var c := LampCommand(r.f, r.action, r.source, s.ctl.nextSequence);
            var node := AfterRound(s, r).node;
            node == s.node || node == ApplyAll(s.node, Arbitrate(c, TrueContext(s.node)).commands)
  {
    QuietContextIsTrue(s);
    var c := LampCommand(r.f, r.action, r.source, s.ctl.nextSequence);
    var commands := Send(s.ctl, r.f, r.action, r.source, []).1;
    var s1 := Requested(s, r);
    DeliveryKeepsFuture(s1, r.schedule);
    ServedAppliesAll(s.node, commands);
    hide Consistent, Arbitrate, ContextOf, Serve, ApplyAll, Run, SetMessages, TrueContext, NextSequence;
    assert s.requests + SetMessages(commands) == SetMessages(commands);
    if commands != [] {
      var decided := Arbitrate(c, ContextOf(s.ctl.arbitration)).commands;
      SentIsUnique(|decided|, [], |decided|);
      assert commands == decided;
    } else {
      ApplyNone(s.node);
    }
  }

  lemma FaultFreeStays(l: Lamps, c: LampCommand)
    ensures Apply(l, c).0.faults == l.faults
  {
  }

  lemma {:induction false} FaultFreeStaysAll(l: Lamps, commands: seq<LampCommand>)
    ensures ApplyAll(l, commands).faults == l.faults
    decreases |commands|
  {
    hide Apply;
    if commands == [] {
    } else {
      FaultFreeStays(l, commands[0]);
      FaultFreeStaysAll(Apply(l, commands[0]).0, commands[1..]);
    }
  }

  /**
    Controller-side exclusivity: without faults, and with each request settled before the
    next, both indicators are on only if hazard is on.
   */
  lemma {:induction false} ControllerExclusivity(s: System, rounds: seq<Round>)
    requires Consistent(s) && Quiet(s) && s.node.faults == [] && BothOnlyInHazard(s.node)
    requires AllSettle(s, rounds)
    ensures var s' := AfterRounds(s, rounds);
            Consistent(s') && Quiet(s') && s'.node.faults == [] && BothOnlyInHazard(s'.node)
    decreases |rounds|
  {
    hide Consistent, Apply, Arbitrate, BothOnlyInHazard, Run, ApplyAll;
    if rounds == [] {
    } else {
      var r := rounds[0];
      var s1 := AfterRound(s, r);
      StepKeepsConsistent(s, Request(r.f, r.action, r.source, []));
      InFlightConsistency(Requested(s, r), r.schedule);
      RoundApplies(s, r);
      var c := LampCommand(r.f, r.action, r.source, s.ctl.nextSequence);
      InterlockedWhenConsistent(s);
      DecisionKeepsExclusiveIff(s.node, c);
      FaultFreeStaysAll(s.node, Arbitrate(c, TrueContext(s.node)).commands);
      ControllerExclusivity(s1, rounds[1..]);
    }
  }

  lemma InterlockedWhenConsistent(s: System)
    requires Consistent(s)
    ensures Interlocked(s.node)
  {
  }
}
