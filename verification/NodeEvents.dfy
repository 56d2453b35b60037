/**
  What the status events of the two command handlers tell the controller.

  After every command, well-formed or not, the controller's cache overlaid with all events
  that the node has sent agrees with the node on which lamps are lit.
 */
module NodeEvents {

  import opened Bytes
  import opened LampTypes
  import opened Faults
  import opened FunctionManager
  import opened SomeIp
  import opened NodeHandlers
  import opened NodeRuns
  import opened Arbitrator
  import Controller
  import InFlight
  import Provider

  // ---------------------------------------------------------------------------------
  // One lamp
  // ---------------------------------------------------------------------------------

  /** Once all events have arrived, the controller knows whether `g` is lit. */
  predicate Told(cache: Controller.Cache, s: Store, g: LampFunction) {
    Controller.Active(InFlight.Overlaid(cache, s.events), g) <==> s.IsOn(g)
  }

  lemma UpdatedShows(cache: Controller.Cache, st: LampStatus, g: LampFunction)
    requires Known(g)
    ensures Controller.Active(Controller.Updated(cache, st), g) <==>
            if st.function_ == g then st.outputState == On else Controller.Active(cache, g)
  {
  }

  /** An event for `f` makes the controller right about `f`, and changes nothing else. */
  lemma SayTells(cache: Controller.Cache, s: Store, f: LampFunction, g: LampFunction)
    requires Known(g) && Interlocked(s.lamps)
    requires g == f || Told(cache, s, g)
    ensures Told(cache, s.Say(f), g)
  {
    hide Provider.Event, Interlocked, Lamps.Get, InFlight.Overlaid, Controller.Active, Controller.Updated,
      ParseLampStatus;
    if Known(f) {
      InFlight.EventSays(s.lamps, f);
      InFlight.OverlaidLast(cache, s.events, Provider.Event(s.lamps, f));
      UpdatedShows(InFlight.Overlaid(cache, s.events), s.lamps.Get(f), g);
    }
  }

  /** A command for another lamp leaves the controller right about `g`. */
  lemma DoKeepsTold(cache: Controller.Cache, s: Store, c: LampCommand, g: LampFunction)
    requires Known(g) && Interlocked(s.lamps)
    ensures Interlocked(s.Do(c).lamps)
    ensures Told(cache, s, g) && c.function_ != g ==> Told(cache, s.Do(c), g)
  {
    hide Apply, Interlocked, Lamps.IsOn, InFlight.Overlaid, Controller.Active;
    ApplyShows(s.lamps, c, g);
  }

  /** A command that is not reported has not changed what is lit. */
  lemma ObeyTells(cache: Controller.Cache, s: Store, c: LampCommand, g: LampFunction)
    requires Known(g) && Interlocked(s.lamps) && Told(cache, s, g)
    ensures Told(cache, s.Obey(c), g)
  {
    DoKeepsTold(cache, s, c, g);
    if Apply(s.lamps, c).1 {
      hide Told, Store.Do, Apply, Interlocked, Store.Say;
      SayTells(cache, s.Do(c), c.function_, g);
    } else {
      hide Interlocked, InFlight.Overlaid, Controller.Active;
      assert s.Do(c).IsOn(g) == s.IsOn(g);
    }
  }

  // ---------------------------------------------------------------------------------
  // One command
  // ---------------------------------------------------------------------------------

  lemma MakeRoomTells(cache: Controller.Cache, s: Store, c: LampCommand, g: LampFunction)
    requires Known(g) && Interlocked(s.lamps) && Told(cache, s, g)
    ensures Told(cache, MakeRoom(s, c), g) && Interlocked(MakeRoom(s, c).lamps)
  {
    hide Told, Store.Do, Interlocked, Store.Say, Lamps.IsOn;
    var clear := c.(function_ := Opposite(c.function_), action := Deactivate);
    DoKeepsTold(cache, s, clear, g);
    SayTells(cache, s.Do(clear), clear.function_, g);
  }

  lemma IndicatorTells(cache: Controller.Cache, h: Handler, c: LampCommand, g: LampFunction)
    requires Known(g) && Safe(h) && Told(cache, h.store, g) && IsIndicator(c.function_)
    ensures Told(cache, BareIndicator(h, c).store, g) && Told(cache, ZephyrIndicator(h, c).store, g)
  {
    var resolved := Resolve(h.store, c);
    var room := MakeRoom(h.store, resolved);
    hide Told, Store.Do, Interlocked, Store.Say, Lamps.IsOn, MakeRoom;
    MakeRoomTells(cache, h.store, resolved, g);
    DoKeepsTold(cache, room, resolved, g);
    SayTells(cache, room.Do(resolved), c.function_, g);
  }

  /** Three commands and then three events, among them one for each lamp that was commanded. */
  lemma ThreeTell(cache: Controller.Cache, s: Store, a: LampCommand, b: LampCommand, d: LampCommand,
      x: LampFunction, y: LampFunction, z: LampFunction, g: LampFunction)
    requires Known(g) && Interlocked(s.lamps) && Told(cache, s, g)
    requires g == x || g == y || g == z || (g != a.function_ && g != b.function_ && g != d.function_)
    ensures var s' := s.Do(a).Do(b).Do(d).Say(x).Say(y).Say(z);
            Told(cache, s', g) && Interlocked(s'.lamps)
  {
    hide Told, Store.Do, Interlocked, Store.Say;
    DoKeepsTold(cache, s, a, g);
    DoKeepsTold(cache, s.Do(a), b, g);
    DoKeepsTold(cache, s.Do(a).Do(b), d, g);
    var t := s.Do(a).Do(b).Do(d);
    if g != y && g != z {
      SayTells(cache, t, x, g);
    }
    if g != z {
      SayTells(cache, t.Say(x), y, g);
    }
    SayTells(cache, t.Say(x).Say(y), z, g);
  }

  lemma BareHazardTells(cache: Controller.Cache, h: Handler, c: LampCommand, g: LampFunction)
    requires Known(g) && Safe(h) && Told(cache, h.store, g)
    ensures Told(cache, BareHazard(h, c).store, g)
  {
    hide Told, Store.Do, Interlocked, Store.Say, Lamps.IsOn;
    var on := h.store.IsOn(HazardLamp);
    var first := c.(function_ := HazardLamp, action := if on then Deactivate else Activate);
    if !on {
      DoKeepsTold(cache, h.store, first, g);
      SayTells(cache, h.store.Do(first), HazardLamp, g);
    } else if IsIndicator(h.saved) {
      var other := Opposite(h.saved);
      ThreeTell(cache, h.store, first, c.(function_ := h.saved, action := Activate),
                c.(function_ := other, action := Deactivate), h.saved, other, HazardLamp, g);
    } else {
      ThreeTell(cache, h.store, first, c.(function_ := LeftIndicator, action := Deactivate),
                c.(function_ := RightIndicator, action := Deactivate), LeftIndicator, RightIndicator, HazardLamp, g);
    }
  }

  lemma ZephyrHazardTells(cache: Controller.Cache, h: Handler, c: LampCommand, g: LampFunction)
    requires Known(g) && Safe(h) && Told(cache, h.store, g)
    ensures Told(cache, ZephyrHazard(h, c).store, g)
  {
    hide Told, Store.Do, Interlocked, Store.Say, Lamps.IsOn;
    var on := h.store.IsOn(HazardLamp);
    var first := c.(function_ := HazardLamp, action := if on then Deactivate else Activate);
    if !on {
      DoKeepsTold(cache, h.store, first, g);
      SayTells(cache, h.store.Do(first), HazardLamp, g);
    } else {
      ThreeTell(cache, h.store, first, c.(function_ := LeftIndicator, action := Deactivate),
                c.(function_ := RightIndicator, action := Deactivate), HazardLamp, LeftIndicator, RightIndicator, g);
      var s := h.store.Do(first).Set(c, LeftIndicator, Deactivate).Set(c, RightIndicator, Deactivate)
                .Say(HazardLamp).Say(LeftIndicator).Say(RightIndicator);
      var restore := c.(function_ := h.saved, action := Activate);
      DoKeepsTold(cache, s, restore, g);
      SayTells(cache, s.Do(restore), h.saved, g);
    }
  }

  // ---------------------------------------------------------------------------------
  // Every operation, every run
  // ---------------------------------------------------------------------------------

  /** A fault that darkens a lit lamp; the handlers send no event for it. */
  predicate DarkensUnseen(h: Handler, op: NodeOp) {
    op.Fault? && op.op.Inject? && h.store.IsOn(op.op.f)
  }

  /** Once all events have arrived, the controller knows which lamps are lit. */
  ghost predicate Tells(cache: Controller.Cache, h: Handler) {
    forall g | Known(g) :: Told(cache, h.store, g)
  }

  lemma CommandTells(cache: Controller.Cache, h: Handler, payload: bytes)
    requires Safe(h) && Tells(cache, h)
    ensures Tells(cache, BareReceive(h, payload)) && Tells(cache, ZephyrReceive(h, payload))
  {
    var c := ParseLampCommand(payload);
    hide Told, Interlocked, Store.Obey, Lamps.IsOn, ParseLampCommand, BareHazard, ZephyrHazard, BareIndicator,
      ZephyrIndicator, WellFormed;
    forall g | Known(g)
      ensures Told(cache, BareStep(h, c).store, g) && Told(cache, ZephyrStep(h, c).store, g)
    {
      assert Told(cache, h.store, g);
      if c.function_ == HazardLamp {
        BareHazardTells(cache, h, c, g);
        ZephyrHazardTells(cache, h, c, g);
      } else if IsIndicator(c.function_) {
        IndicatorTells(cache, h, c, g);
      } else {
        ObeyTells(cache, h.store, c, g);
      }
    }
  }

  lemma FaultTellsIff(cache: Controller.Cache, h: Handler, op: FaultOp)
    requires Safe(h) && Tells(cache, h)
    ensures Tells(cache, Faulted(h, op)) <==> !DarkensUnseen(h, Fault(op))
  {
    hide Interlocked, Lamps.IsOn, Disturb, Controller.Active, InFlight.Overlaid;
    forall g | Known(g)
      ensures Faulted(h, op).store.IsOn(g) <==> h.store.IsOn(g) && op != FaultOp.Inject(g)
      ensures Told(cache, h.store, g)
    {
      DisturbShows(h.store.lamps, op, g);
    }
    if DarkensUnseen(h, Fault(op)) {
      assert Known(op.f) by { LitIsKnown(h.store, op.f); }
      assert !Told(cache, Faulted(h, op).store, op.f);
    }
  }

  lemma LitIsKnown(s: Store, f: LampFunction)
    requires s.IsOn(f)
    ensures Known(f)
  {
  }

  /**
    Event completeness, one operation: every command, well-formed or not, keeps the
    controller informed on both nodes, and a fault does so exactly if it does not darken a
    lit lamp.
   */
  lemma OpTellsIff(cache: Controller.Cache, h: Handler, op: NodeOp)
    requires Safe(h) && Tells(cache, h)
    ensures Tells(cache, BareOp(h, op)) <==> !DarkensUnseen(h, op)
    ensures Tells(cache, ZephyrOp(h, op)) <==> !DarkensUnseen(h, op)
  {
    hide Safe, Tells, Faulted, BareReceive, ZephyrReceive;
    match op
    case Receive(payload) => CommandTells(cache, h, payload);
    case Fault(fault) => FaultTellsIff(cache, h, fault);
  }

  /** No operation of the run darkens a lit lamp unseen. */
  ghost predicate AllSeen(run: (Handler, seq<NodeOp>) -> Handler, h: Handler, ops: seq<NodeOp>) {
    forall i | 0 <= i < |ops| :: !DarkensUnseen(run(h, ops[..i]), ops[i])
  }

  /**
    Event completeness over every run of the bare-metal node, and the true context that the
    controller arbitrates on once the events have arrived.
   */
  lemma {:induction false} BareRunTells(cache: Controller.Cache, h: Handler, ops: seq<NodeOp>)
    requires Safe(h) && Tells(cache, h) && AllSeen(BareRun, h, ops)
    ensures Tells(cache, BareRun(h, ops))
    ensures var s := BareRun(h, ops).store;
            Controller.ContextOf(InFlight.Overlaid(cache, s.events)) == InFlight.TrueContext(s.lamps)
    decreases |ops|
  {
    hide Safe, BareOp, DarkensUnseen, Told;
    if ops == [] {
      ContextIsTrue(cache, h);
    } else {
      assert BareRun(h, ops[..0]) == h;
      OpTellsIff(cache, h, ops[0]);
      OpSafe(h, ops[0]);
      forall i | 0 <= i < |ops| - 1
        ensures !DarkensUnseen(BareRun(BareOp(h, ops[0]), ops[1..][..i]), ops[1..][i])
      {
        assert ops[..i + 1][1..] == ops[1..][..i];
        assert !DarkensUnseen(BareRun(h, ops[..i + 1]), ops[i + 1]);
      }
      BareRunTells(cache, BareOp(h, ops[0]), ops[1..]);
    }
  }

  /** The same for the Zephyr node. */
  lemma {:induction false} ZephyrRunTells(cache: Controller.Cache, h: Handler, ops: seq<NodeOp>)
    requires Safe(h) && Tells(cache, h) && AllSeen(ZephyrRun, h, ops)
    ensures Tells(cache, ZephyrRun(h, ops))
    ensures var s := ZephyrRun(h, ops).store;
            Controller.ContextOf(InFlight.Overlaid(cache, s.events)) == InFlight.TrueContext(s.lamps)
    decreases |ops|
  {
    hide Safe, ZephyrOp, DarkensUnseen, Told;
    if ops == [] {
      ContextIsTrue(cache, h);
    } else {
      assert ZephyrRun(h, ops[..0]) == h;
      OpTellsIff(cache, h, ops[0]);
      OpSafe(h, ops[0]);
      forall i | 0 <= i < |ops| - 1
        ensures !DarkensUnseen(ZephyrRun(ZephyrOp(h, ops[0]), ops[1..][..i]), ops[1..][i])
      {
        assert ops[..i + 1][1..] == ops[1..][..i];
        assert !DarkensUnseen(ZephyrRun(h, ops[..i + 1]), ops[i + 1]);
      }
      ZephyrRunTells(cache, ZephyrOp(h, ops[0]), ops[1..]);
    }
  }

  lemma ContextIsTrue(cache: Controller.Cache, h: Handler)
    requires Tells(cache, h)
    ensures Controller.ContextOf(InFlight.Overlaid(cache, h.store.events)) == InFlight.TrueContext(h.store.lamps)
  {
    hide InFlight.Overlaid, Controller.Active, Lamps.IsOn;
    assert Told(cache, h.store, LeftIndicator) && Told(cache, h.store, RightIndicator)
        && Told(cache, h.store, HazardLamp) && Told(cache, h.store, ParkLamp) && Told(cache, h.store, HeadLamp);
  }

  /** At power-up the empty cache is right: it takes no lamp for lit. */
  lemma PowerUpTells()
    ensures Tells(Controller.EmptyCache(), Handler(Store(PowerUp(), [], []), 0, UnknownFunction))
  {
  }

  /** From power-up on, a controller that has all events knows which lamps are lit. */
  lemma InformedSincePowerUp(ops: seq<NodeOp>)
    ensures var h, cache := Handler(Store(PowerUp(), [], []), 0, UnknownFunction), Controller.EmptyCache();
            && (AllSeen(BareRun, h, ops) ==> Tells(cache, BareRun(h, ops)))
            && (AllSeen(ZephyrRun, h, ops) ==> Tells(cache, ZephyrRun(h, ops)))
  {
    var h, cache := Handler(Store(PowerUp(), [], []), 0, UnknownFunction), Controller.EmptyCache();
    PowerUpIsSafe();
    PowerUpTells();
    hide *;
    if AllSeen(BareRun, h, ops) {
      BareRunTells(cache, h, ops);
    }
    if AllSeen(ZephyrRun, h, ops) {
      ZephyrRunTells(cache, h, ops);
    }
  }

  // ---------------------------------------------------------------------------------
  // The periodic broadcast
  // ---------------------------------------------------------------------------------

  lemma {:induction false} FirstTell(cache: Controller.Cache, s: Store, n: nat, g: LampFunction)
    requires Interlocked(s.lamps) && Known(g) && IndexOf(g) < n <= 5
    ensures Told(cache, s.SayFirst(n), g)
  {
    hide Told, Interlocked, Store.Say;
    var f := ALL_FUNCTIONS[n - 1];
    if g == f {
      SayTells(cache, s.SayFirst(n - 1), f, g);
    } else {
      FirstTell(cache, s, n - 1, g);
      SayTells(cache, s.SayFirst(n - 1), f, g);
    }
  }

  /** The broadcast informs the controller whatever it missed. */
  lemma BroadcastTells(cache: Controller.Cache, h: Handler)
    requires Interlocked(h.store.lamps)
    ensures Tells(cache, h.(store := h.store.SayFirst(5)))
  {
    hide Told, Interlocked, Store.SayFirst;
    forall g | Known(g)
      ensures Told(cache, h.store.SayFirst(5), g)
    {
      FirstTell(cache, h.store, 5, g);
    }
  }

  // ---------------------------------------------------------------------------------
  // Which events there are
  // ---------------------------------------------------------------------------------

  /** The events from `n` on are about the lamps `fs`, in this order, and tell what `l` shows. */
  ghost predicate Announced(events: seq<bytes>, n: nat, fs: seq<LampFunction>, l: Lamps) {
    && |events| == n + |fs|
    && forall i | 0 <= i < |fs| :: Known(fs[i]) && ParseLampStatus(events[n + i]) == l.Get(fs[i])
  }

  lemma SayAnnounces(s: Store, n: nat, fs: seq<LampFunction>, f: LampFunction)
    requires Announced(s.events, n, fs, s.lamps) && Known(f)
    ensures Announced(s.Say(f).events, n, fs + [f], s.lamps)
  {
    Provider.EventTells(s.lamps, f);
    hide Provider.Event, ParseLampStatus, Lamps.Get;
  }

  lemma NothingAnnounced(s: Store)
    ensures Announced(s.events, |s.events|, [], s.lamps)
  {
  }

  /** The lamps that a command on the bare-metal node is answered with. */
  function Answered(h: Handler, c: LampCommand): seq<LampFunction> {
    var l := h.store.lamps;
    if c.function_ == HazardLamp then
      if !l.IsOn(HazardLamp) then [HazardLamp]
      else if h.saved == RightIndicator then [RightIndicator, LeftIndicator, HazardLamp]
      else [LeftIndicator, RightIndicator, HazardLamp]
    else if c.function_ == LeftIndicator then
      if Ignored(h, c) then []
      else if ActivatesNow(h.store, c) && l.IsOn(RightIndicator) then [RightIndicator, LeftIndicator]
      else [LeftIndicator]
    else if c.function_ == RightIndicator then
      if Ignored(h, c) then []
      else if ActivatesNow(h.store, c) && l.IsOn(LeftIndicator) then [LeftIndicator, RightIndicator]
      else [RightIndicator]
    else if Known(c.function_) && !Guarded(l, c) && c.action in {Activate, Deactivate, Toggle} then [c.function_]
    else []
  }

  lemma ThreeAnnounced(s: Store, x: LampFunction, y: LampFunction, z: LampFunction)
    requires Known(x) && Known(y) && Known(z)
    ensures Announced(s.Say(x).Say(y).Say(z).events, |s.events|, [x, y, z], s.lamps)
  {
    NothingAnnounced(s);
    assert [] + [x] == [x] && [x] + [y] == [x, y] && [x, y] + [z] == [x, y, z];
    hide Announced, Store.Say;
    SayAnnounces(s, |s.events|, [], x);
    SayAnnounces(s.Say(x), |s.events|, [x], y);
    SayAnnounces(s.Say(x).Say(y), |s.events|, [x, y], z);
  }

  lemma OneAnnounced(s: Store, x: LampFunction)
    requires Known(x)
    ensures Announced(s.Say(x).events, |s.events|, [x], s.lamps)
  {
    NothingAnnounced(s);
    hide Announced, Store.Say;
    SayAnnounces(s, |s.events|, [], x);
    assert [] + [x] == [x];
  }

  /**
    The events of one command on the bare-metal node: which lamps they are about, in which
    order, and that each tells the status after the command.
   */
  lemma {:induction false} CommandIsAnswered(h: Handler, c: LampCommand)
    requires Safe(h)
    ensures var s' := BareStep(h, c).store;
            Announced(s'.events, |h.store.events|, Answered(h, c), s'.lamps)
  {
    if c.function_ == HazardLamp {
      HazardIsAnswered(h, c);
    } else if IsIndicator(c.function_) {
      IndicatorIsAnswered(h, c);
    } else {
      SteadyIsAnswered(h, c);
    }
    hide Announced, BareHazard, BareIndicator, Store.Obey;
  }

  lemma {:induction false} HazardIsAnswered(h: Handler, c: LampCommand)
    requires Safe(h) && c.function_ == HazardLamp
    ensures var s' := BareHazard(h, c).store;
            Announced(s'.events, |h.store.events|, Answered(h, c), s'.lamps)
  {
    hide Announced, Store.Say, SafeStore, Apply, Lamps.IsOn;
    var off := h.store.Set(c, HazardLamp, Deactivate);
    if !h.store.IsOn(HazardLamp) {
      OneAnnounced(h.store.Set(c, HazardLamp, Activate), HazardLamp);
    } else if h.saved != UnknownFunction {
      ThreeAnnounced(off.Set(c, h.saved, Activate).Set(c, Opposite(h.saved), Deactivate), h.saved, Opposite(h.saved),
                     HazardLamp);
    } else {
      ThreeAnnounced(off.Set(c, LeftIndicator, Deactivate).Set(c, RightIndicator, Deactivate), LeftIndicator,
                     RightIndicator, HazardLamp);
    }
  }

  lemma {:induction false} SteadyIsAnswered(h: Handler, c: LampCommand)
    requires Safe(h) && c.function_ != HazardLamp && !IsIndicator(c.function_)
    ensures var s' := h.store.Obey(c);
            Announced(s'.events, |h.store.events|, Answered(h, c), s'.lamps)
  {
    ApplyOutcome(h.store.lamps, c, HazardLamp);
    hide Announced, Store.Say, SafeStore, Apply, Lamps.IsOn, Guarded;
    NothingAnnounced(h.store.Do(c));
    if Known(c.function_) {
      OneAnnounced(h.store.Do(c), c.function_);
    }
  }

  lemma {:induction false} IndicatorStores(h: Handler, c: LampCommand)
    requires IsIndicator(c.function_)
    ensures var s, other := h.store, Opposite(c.function_);
            var explicit := Resolve(s, c);
            BareIndicator(h, c).store
            == if Ignored(h, c) then s
               else if ActivatesNow(s, c) && s.lamps.IsOn(other) then
                 s.Do(explicit.(function_ := other, action := Deactivate)).Say(other).Do(explicit).Say(c.function_)
               else s.Do(explicit).Say(c.function_)
    ensures Resolve(h.store, c).function_ == c.function_
  {
    ResolvedActivates(h.store, c);
    hide Store.Say, Store.Do, Lamps.IsOn, Resolve, ActivatesNow;
  }

  lemma ResolvedActivates(s: Store, c: LampCommand)
    ensures Resolve(s, c).action == Activate <==> ActivatesNow(s, c)
    ensures Resolve(s, c).function_ == c.function_
  {
    hide Lamps.IsOn;
  }

  lemma IndicatorAnswers(h: Handler, c: LampCommand)
    requires IsIndicator(c.function_)
    ensures var other := Opposite(c.function_);
            Answered(h, c) == if Ignored(h, c) then []
                              else if ActivatesNow(h.store, c) && h.store.lamps.IsOn(other) then [other, c.function_]
                              else [c.function_]
  {
    hide Lamps.IsOn;
  }

  lemma {:induction false} IndicatorIsAnswered(h: Handler, c: LampCommand)
    requires IsIndicator(c.function_)
    ensures var s' := BareIndicator(h, c).store;
            Announced(s'.events, |h.store.events|, Answered(h, c), s'.lamps)
  {
    IndicatorStores(h, c);
    IndicatorAnswers(h, c);
    hide Announced, Store.Say, Store.Do, Lamps.IsOn, BareIndicator, Answered, Resolve, Ignored, ActivatesNow;
    var resolved := Resolve(h.store, c);
    if Ignored(h, c) {
      NothingAnnounced(h.store);
    } else if ActivatesNow(h.store, c) && h.store.lamps.IsOn(Opposite(c.function_)) {
      TwoAnnounced(h.store, resolved.(function_ := Opposite(c.function_), action := Deactivate), resolved);
    } else {
      OneAnnounced(h.store.Do(resolved), c.function_);
      DoSaysNothing(h.store, resolved);
    }
  }

  lemma DoSaysNothing(s: Store, c: LampCommand)
    ensures s.Do(c).events == s.events
  {
  }

  /** Two commands, each reported at once. */
  lemma {:induction false} TwoAnnounced(s: Store, a: LampCommand, b: LampCommand)
    requires Known(a.function_) && Known(b.function_) && a.function_ != b.function_
    ensures var s' := s.Do(a).Say(a.function_).Do(b).Say(b.function_);
            Announced(s'.events, |s.events|, [a.function_, b.function_], s'.lamps)
  {
    assert [a.function_] + [b.function_] == [a.function_, b.function_];
    OneAnnounced(s.Do(a), a.function_);
    DoKeepsAnnounced(s.Do(a).Say(a.function_), |s.events|, [a.function_], b);
    hide Announced, Store.Say, Apply;
    SayAnnounces(s.Do(a).Say(a.function_).Do(b), |s.events|, [a.function_], b.function_);
  }

  /** A command leaves what was said of other lamps true. */
  lemma DoKeepsAnnounced(s: Store, n: nat, fs: seq<LampFunction>, c: LampCommand)
    requires Announced(s.events, n, fs, s.lamps) && c.function_ !in fs
    ensures Announced(s.Do(c).events, n, fs, s.Do(c).lamps)
  {
    hide ParseLampStatus, Refused;
  }

  /**
    The Zephyr node answers like the bare-metal node, unless hazard goes off: then it reports
    the three signals dark, and last the indicator that came back, if there was one.
   */
  lemma {:induction false} ZephyrIsAnswered(h: Handler, c: LampCommand)
    requires Safe(h)
    ensures var n, s' := |h.store.events|, ZephyrStep(h, c).store;
            if c.function_ == HazardLamp && h.store.lamps.IsOn(HazardLamp) then
              && |s'.events| == n + (if IsIndicator(h.saved) then 4 else 3)
              && ParseLampStatus(s'.events[n]) == s'.lamps.Get(HazardLamp)
              && ParseLampStatus(s'.events[n + 1]).function_ == LeftIndicator
              && ParseLampStatus(s'.events[n + 1]).outputState == Off
              && ParseLampStatus(s'.events[n + 2]).function_ == RightIndicator
              && ParseLampStatus(s'.events[n + 2]).outputState == Off
              && (IsIndicator(h.saved) ==> ParseLampStatus(s'.events[n + 3]) == s'.lamps.Get(h.saved))
            else s' == BareStep(h, c).store
  {
    if c.function_ == HazardLamp && h.store.lamps.IsOn(HazardLamp) {
      var s1 := h.store.Set(c, HazardLamp, Deactivate);
      var s2 := s1.Set(c, LeftIndicator, Deactivate);
      var s3 := s2.Set(c, RightIndicator, Deactivate);
      SignalsDark(h.store, c);
      ThreeAnnounced(s3, HazardLamp, LeftIndicator, RightIndicator);
      var s4 := s3.Say(HazardLamp).Say(LeftIndicator).Say(RightIndicator);
      ReportedDark(s4, |h.store.events|);
      if IsIndicator(h.saved) {
        LastEvent(s4, c.(function_ := h.saved, action := Activate));
      }
      hide Store.Do, Store.Say, Announced, ParseLampStatus, Lamps.Get, Interlocked, Lamps.IsOn;
    } else {
      hide Store.Do, Store.Say, Lamps.IsOn, Store.Obey;
    }
  }

  lemma {:induction false} SignalsDark(s: Store, c: LampCommand)
    requires Interlocked(s.lamps)
    ensures var s' := s.Set(c, HazardLamp, Deactivate).Set(c, LeftIndicator, Deactivate)
                       .Set(c, RightIndicator, Deactivate);
            && Interlocked(s'.lamps) && s'.events == s.events
            && !s'.lamps.IsOn(HazardLamp) && !s'.lamps.IsOn(LeftIndicator) && !s'.lamps.IsOn(RightIndicator)
  {
    var s1 := s.Set(c, HazardLamp, Deactivate);
    var s2 := s1.Set(c, LeftIndicator, Deactivate);
    hide Apply, Interlocked, Lamps.IsOn;
    ApplyShowsSignals(s.lamps, c.(function_ := HazardLamp, action := Deactivate));
    ApplyShowsSignals(s1.lamps, c.(function_ := LeftIndicator, action := Deactivate));
    ApplyShowsSignals(s2.lamps, c.(function_ := RightIndicator, action := Deactivate));
  }

  lemma ReportedDark(s: Store, n: nat)
    requires Interlocked(s.lamps) && Announced(s.events, n, [HazardLamp, LeftIndicator, RightIndicator], s.lamps)
    requires !s.lamps.IsOn(LeftIndicator) && !s.lamps.IsOn(RightIndicator)
    ensures |s.events| == n + 3 && ParseLampStatus(s.events[n]) == s.lamps.Get(HazardLamp)
    ensures ParseLampStatus(s.events[n + 1]).function_ == LeftIndicator
         && ParseLampStatus(s.events[n + 1]).outputState == Off
    ensures ParseLampStatus(s.events[n + 2]).function_ == RightIndicator
         && ParseLampStatus(s.events[n + 2]).outputState == Off
  {
    var fs := [HazardLamp, LeftIndicator, RightIndicator];
    assert ParseLampStatus(s.events[n + 0]) == s.lamps.Get(fs[0]);
    assert ParseLampStatus(s.events[n + 1]) == s.lamps.Get(fs[1]);
    assert ParseLampStatus(s.events[n + 2]) == s.lamps.Get(fs[2]);
    hide ParseLampStatus;
  }

  lemma LastEvent(s: Store, c: LampCommand)
    requires IsIndicator(c.function_)
    ensures var s' := s.Do(c).Say(c.function_);
            && |s'.events| == |s.events| + 1 && s'.events[..|s.events|] == s.events
            && ParseLampStatus(s'.events[|s.events|]) == s'.lamps.Get(c.function_)
            && s'.lamps.Get(HazardLamp) == s.lamps.Get(HazardLamp)
  {
    Provider.EventTells(s.Do(c).lamps, c.function_);
    hide Provider.Event, ParseLampStatus, Refused;
  }
}
