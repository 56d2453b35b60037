/**
  What the two node handlers keep over every run: any payloads, lost, repeated, reordered
  or stale, interleaved with any faults.
 */
module NodeRuns {

  import opened Bytes
  import opened LampTypes
  import opened Faults
  import opened FunctionManager
  import opened SomeIp
  import opened NodeHandlers
  import Arbitrator
  import Controller

  // ---------------------------------------------------------------------------------
  // Runs
  // ---------------------------------------------------------------------------------

  datatype NodeOp = Receive(payload: bytes) | Fault(op: FaultOp)

  function Faulted(h: Handler, op: FaultOp): Handler {
    h.(store := h.store.(lamps := Disturb(h.store.lamps, op)))
  }

  function BareOp(h: Handler, op: NodeOp): Handler {
    match op
    case Receive(payload) => BareReceive(h, payload)
    case Fault(fault) => Faulted(h, fault)
  }

  function ZephyrOp(h: Handler, op: NodeOp): Handler {
    match op
    case Receive(payload) => ZephyrReceive(h, payload)
    case Fault(fault) => Faulted(h, fault)
  }

  function BareRun(h: Handler, ops: seq<NodeOp>): Handler
    decreases |ops|
  {
    if ops == [] then h else BareRun(BareOp(h, ops[0]), ops[1..])
  }

  function ZephyrRun(h: Handler, ops: seq<NodeOp>): Handler
    decreases |ops|
  {
    if ops == [] then h else ZephyrRun(ZephyrOp(h, ops[0]), ops[1..])
  }

  // ---------------------------------------------------------------------------------
  // Indicator exclusivity
  // ---------------------------------------------------------------------------------

  predicate Exclusive(l: Lamps) {
    !(l.IsOn(LeftIndicator) && l.IsOn(RightIndicator))
  }

  predicate SafeStore(s: Store) {
    && Interlocked(s.lamps)
    && Exclusive(s.lamps)
    && (forall l | l in s.trail :: Exclusive(l))
  }

  /**
    The two indicators are never on together, not even between two calls of
    `ApplyCommand`; and while hazard is on, restoring the saved one is harmless.
   */
  predicate Safe(h: Handler) {
    && SafeStore(h.store)
    && (h.saved == UnknownFunction || IsIndicator(h.saved))
    && (h.store.IsOn(HazardLamp) && IsIndicator(h.saved) ==> !h.store.IsOn(Opposite(h.saved)))
  }

  lemma BareHazardSafe(h: Handler, c: LampCommand)
    requires Safe(h)
    ensures Safe(BareHazard(h, c))
  {
    hide Apply, Interlocked, Lamps.IsOn;
    var on := h.store.IsOn(HazardLamp);
    var c1 := c.(function_ := HazardLamp, action := if on then Deactivate else Activate);
    var s := h.store.Do(c1);
    ApplyShowsSignals(h.store.lamps, c1);
    if on {
      var first := if IsIndicator(h.saved) then c.(function_ := h.saved, action := Activate)
                   else c.(function_ := LeftIndicator, action := Deactivate);
      ApplyShowsSignals(s.lamps, first);
      ApplyShowsSignals(s.Do(first).lamps, c.(function_ := Opposite(first.function_), action := Deactivate));
    }
  }

  /** An explicit indicator command, after room was made for it. */
  lemma IndicatorStoreSafe(s: Store, c: LampCommand)
    requires SafeStore(s) && IsIndicator(c.function_) && c.action != Toggle
    ensures var s' := MakeRoom(s, c).Do(c);
            SafeStore(s') && (s'.IsOn(HazardLamp) <==> s.IsOn(HazardLamp))
  {
    hide Apply, Interlocked, Lamps.IsOn;
    ApplyShowsSignals(s.lamps, c.(function_ := Opposite(c.function_), action := Deactivate));
    ApplyShowsSignals(MakeRoom(s, c).lamps, c);
  }

  lemma IndicatorSafe(h: Handler, c: LampCommand)
    requires Safe(h) && IsIndicator(c.function_)
    ensures Safe(BareIndicator(h, c)) && Safe(ZephyrIndicator(h, c))
  {
    var resolved := Resolve(h.store, c);
    IndicatorStoreSafe(h.store, resolved);
    hide SafeStore, MakeRoom, Store.Do, Resolve, Lamps.IsOn;
  }

  lemma SteadySafe(h: Handler, c: LampCommand)
    requires Safe(h) && c.function_ != HazardLamp && !IsIndicator(c.function_)
    ensures Safe(h.(store := h.store.Obey(c)))
  {
    hide Apply, Interlocked, Lamps.IsOn;
    ApplyShowsSignals(h.store.lamps, c);
  }

  lemma ZephyrHazardSafe(h: Handler, c: LampCommand)
    requires Safe(h)
    ensures Safe(ZephyrHazard(h, c))
  {
    hide Apply, Interlocked, Lamps.IsOn;
    var on := h.store.IsOn(HazardLamp);
    var c1 := c.(function_ := HazardLamp, action := if on then Deactivate else Activate);
    ApplyShowsSignals(h.store.lamps, c1);
    if on {
      var s1 := h.store.Do(c1);
      var s2 := s1.Set(c, LeftIndicator, Deactivate);
      var s3 := s2.Set(c, RightIndicator, Deactivate);
      ApplyShowsSignals(s1.lamps, c.(function_ := LeftIndicator, action := Deactivate));
      ApplyShowsSignals(s2.lamps, c.(function_ := RightIndicator, action := Deactivate));
      ApplyShowsSignals(s3.lamps, c.(function_ := h.saved, action := Activate));
    }
  }

  lemma FaultedSafe(h: Handler, op: FaultOp)
    requires Safe(h)
    ensures Safe(Faulted(h, op))
  {
    hide Disturb, Interlocked, Lamps.IsOn;
    DisturbShows(h.store.lamps, op, LeftIndicator);
    DisturbShows(h.store.lamps, op, RightIndicator);
    DisturbShows(h.store.lamps, op, HazardLamp);
  }

  lemma OpSafe(h: Handler, op: NodeOp)
    requires Safe(h)
    ensures Safe(BareOp(h, op)) && Safe(ZephyrOp(h, op))
  {
    hide Safe, BareHazard, BareIndicator, ZephyrHazard, ZephyrIndicator, Faulted, ParseLampCommand;
    match op
    case Fault(fault) => FaultedSafe(h, fault);
    case Receive(payload) =>
      var c := ParseLampCommand(payload);
      if c.function_ == HazardLamp {
        BareHazardSafe(h, c);
        ZephyrHazardSafe(h, c);
      } else if IsIndicator(c.function_) {
        IndicatorSafe(h, c);
      } else {
        SteadySafe(h, c);
      }
  }

  /** Indicator exclusivity, on both nodes, under any payloads and any faults. */
  lemma {:induction false} IndicatorExclusivity(h: Handler, ops: seq<NodeOp>)
    requires Safe(h)
    ensures Safe(BareRun(h, ops)) && Safe(ZephyrRun(h, ops))
    decreases |ops|
  {
    hide Safe, BareOp, ZephyrOp;
    if ops == [] {
    } else {
      OpSafe(h, ops[0]);
      IndicatorExclusivity(BareOp(h, ops[0]), ops[1..]);
      IndicatorExclusivity(ZephyrOp(h, ops[0]), ops[1..]);
    }
  }

  lemma PowerUpIsSafe()
    ensures Safe(Handler(Store(PowerUp(), [], []), 0, UnknownFunction))
  {
  }

  /**
    When exactly a request for an indicator leaves it lit: it also depends on the counter,
    because one that equals the last hazard counter is taken for a companion.
   */
  lemma IndicatorHonouredIff(h: Handler, c: LampCommand)
    requires Safe(h) && IsIndicator(c.function_) && c.action == Activate
    ensures var honoured := !h.store.IsOn(HazardLamp) && c.sequenceCounter != h.lastHazardSequence
                            && c.function_ !in h.store.lamps.faults;
            && (BareStep(h, c).store.IsOn(c.function_) <==> h.store.IsOn(c.function_) || honoured)
            && (ZephyrStep(h, c).store.IsOn(c.function_) <==> h.store.IsOn(c.function_) || honoured)
  {
    hide Apply, Interlocked, Lamps.IsOn;
    ApplyShowsSignals(h.store.lamps, c.(function_ := Opposite(c.function_), action := Deactivate));
    ApplyShowsSignals(MakeRoom(h.store, c).lamps, c);
    if h.store.IsOn(c.function_) {
      LitIsHealthy(h.store.lamps, c.function_);
    }
  }

  // ---------------------------------------------------------------------------------
  // Hazard, on and off
  // ---------------------------------------------------------------------------------

  /** Hazard goes on, unless it is faulted; nothing else changes, and the turn signal is saved. */
  ghost predicate HazardLit(h: Handler, h': Handler) {
    && h'.store.lamps.faults == h.store.lamps.faults
    && (h'.store.IsOn(HazardLamp) <==> HazardLamp !in h.store.lamps.faults)
    && h'.saved == LitIndicator(h.store)
    && (forall g | Known(g) && g != HazardLamp :: h'.store.IsOn(g) <==> h.store.IsOn(g))
  }

  /** Hazard goes off, and the saved turn signal comes back unless it is faulted. */
  ghost predicate HazardCleared(h: Handler, h': Handler) {
    && h'.store.lamps.faults == h.store.lamps.faults
    && !h'.store.IsOn(HazardLamp)
    && (forall g | IsIndicator(g) :: h'.store.IsOn(g) <==> h.saved == g && g !in h.store.lamps.faults)
    && (forall g | g == ParkLamp || g == HeadLamp :: h'.store.IsOn(g) <==> h.store.IsOn(g))
  }

  lemma HazardGoesOn(h: Handler, c: LampCommand)
    requires Safe(h) && !h.store.IsOn(HazardLamp)
    ensures BareHazard(h, c) == ZephyrHazard(h, c) && HazardLit(h, BareHazard(h, c))
  {
    hide Apply, Interlocked, Lamps.IsOn;
    forall g | Known(g)
      ensures BareHazard(h, c).store.IsOn(g) <==>
              if g == HazardLamp then g !in h.store.lamps.faults else h.store.IsOn(g)
    {
      ApplyShows(h.store.lamps, c.(function_ := HazardLamp, action := Activate), g);
    }
    ApplyShows(h.store.lamps, c.(function_ := HazardLamp, action := Activate), HazardLamp);
  }

  lemma BareHazardGoesOff(h: Handler, c: LampCommand)
    requires Safe(h) && h.store.IsOn(HazardLamp)
    ensures HazardCleared(h, BareHazard(h, c))
  {
    hide Apply, Interlocked, Lamps.IsOn;
    var c1 := c.(function_ := HazardLamp, action := Deactivate);
    var c2 := if IsIndicator(h.saved) then c.(function_ := h.saved, action := Activate)
              else c.(function_ := LeftIndicator, action := Deactivate);
    var c3 := c.(function_ := Opposite(c2.function_), action := Deactivate);
    var s1 := h.store.Do(c1);
    var s2 := s1.Do(c2);
    assert BareHazard(h, c).store.lamps == s2.Do(c3).lamps;
    forall g | Known(g)
      ensures s2.Do(c3).IsOn(g) <==>
              if g == HazardLamp then false
              else if IsIndicator(g) then h.saved == g && g !in h.store.lamps.faults
              else h.store.IsOn(g)
      ensures s2.Do(c3).lamps.faults == h.store.lamps.faults
    {
      ApplyShows(h.store.lamps, c1, g);
      ApplyShows(s1.lamps, c2, g);
      ApplyShows(s2.lamps, c3, g);
    }
    assert Known(HazardLamp);
  }

  lemma ZephyrHazardGoesOff(h: Handler, c: LampCommand)
    requires Safe(h) && h.store.IsOn(HazardLamp)
    ensures HazardCleared(h, ZephyrHazard(h, c))
  {
    hide Apply, Interlocked, Lamps.IsOn;
    var c1 := c.(function_ := HazardLamp, action := Deactivate);
    var c2 := c.(function_ := LeftIndicator, action := Deactivate);
    var c3 := c.(function_ := RightIndicator, action := Deactivate);
    var c4 := c.(function_ := h.saved, action := Activate);
    var s1 := h.store.Do(c1);
    var s2 := s1.Do(c2);
    var s3 := s2.Do(c3);
    forall g | Known(g)
      ensures s3.IsOn(g) <==> h.store.IsOn(g) && g != HazardLamp && !IsIndicator(g)
      ensures s3.lamps.faults == h.store.lamps.faults && Interlocked(s3.lamps)
    {
      ApplyShows(h.store.lamps, c1, g);
      ApplyShows(s1.lamps, c2, g);
      ApplyShows(s2.lamps, c3, g);
    }
    assert Known(HazardLamp);
    forall g | Known(g)
      ensures s3.Do(c4).IsOn(g) <==>
              if g == h.saved then g !in h.store.lamps.faults else s3.IsOn(g)
      ensures s3.Do(c4).lamps.faults == h.store.lamps.faults
    {
      ApplyShows(s3.lamps, c4, g);
    }
  }

  // ---------------------------------------------------------------------------------
  // What one command does
  // ---------------------------------------------------------------------------------

  /** What an action does to a lamp that it reaches. */
  predicate ActsOn(action: Action, lit: bool, faulted: bool) {
    match action
    case Activate => !faulted
    case Deactivate => false
    case Toggle => !lit && !faulted
    case NoAction => lit
    case OutOfRangeAction => lit
  }

  /** Whether an indicator command is ignored: a companion of the last hazard command, or hazard is on. */
  predicate Ignored(h: Handler, c: LampCommand) {
    h.store.lamps.IsOn(HazardLamp) || c.sequenceCounter == h.lastHazardSequence
  }

  /** Whether lamp `g` is lit after a command, told from the lamps, the faults and the command. */
  predicate LitAfterCommand(h: Handler, c: LampCommand, g: LampFunction) {
    var lit := h.store.lamps.IsOn(g);
    var faulted := g in h.store.lamps.faults;
    match c.function_
    case HazardLamp =>
      if h.store.lamps.IsOn(HazardLamp) then
        if g == HazardLamp then false else if IsIndicator(g) then g == h.saved && !faulted else lit
      else
        if g == HazardLamp then !faulted else lit
    case LeftIndicator =>
      if Ignored(h, c) then lit
      else if g == LeftIndicator then ActsOn(c.action, lit, faulted)
      else if g == RightIndicator then
        lit && !(c.action == Activate || (c.action == Toggle && !h.store.lamps.IsOn(LeftIndicator)))
      else lit
    case RightIndicator =>
      if Ignored(h, c) then lit
      else if g == RightIndicator then ActsOn(c.action, lit, faulted)
      else if g == LeftIndicator then
        lit && !(c.action == Activate || (c.action == Toggle && !h.store.lamps.IsOn(RightIndicator)))
      else lit
    case _ => if g == c.function_ then ActsOn(c.action, lit, faulted) else lit
  }

  /** An explicit command for an indicator, after room was made for it. */
  lemma {:induction false} ExplicitCommandShows(s: Store, c: LampCommand, g: LampFunction)
    requires SafeStore(s) && IsIndicator(c.function_) && c.action != Toggle && Known(g)
    ensures var s' := MakeRoom(s, c).Do(c);
            && s'.lamps.faults == s.lamps.faults
            && (s'.IsOn(g) <==>
                if g == c.function_ then ActsOn(c.action, s.IsOn(g), g in s.lamps.faults)
                else s.IsOn(g) && !(IsIndicator(g) && c.action == Activate))
  {
    hide Apply, Interlocked, Lamps.IsOn;
    var clear := c.(function_ := Opposite(c.function_), action := Deactivate);
    ApplyShows(s.lamps, clear, g);
    ApplyShows(MakeRoom(s, c).lamps, c, g);
  }

  lemma {:induction false} IndicatorCommandShows(s: Store, c: LampCommand, g: LampFunction)
    requires SafeStore(s) && IsIndicator(c.function_) && Known(g)
    ensures var resolved := Resolve(s, c);
            var s' := MakeRoom(s, resolved).Do(resolved);
            && s'.lamps.faults == s.lamps.faults
            && (s'.IsOn(g) <==>
                if g == c.function_ then ActsOn(c.action, s.IsOn(g), g in s.lamps.faults)
                else s.IsOn(g) && !(IsIndicator(g) && ActivatesNow(s, c)))
  {
    hide MakeRoom, SafeStore, Lamps.IsOn, Store.Do;
    ExplicitCommandShows(s, Resolve(s, c), g);
  }

  /** An activation, or a toggle of a dark lamp. */
  predicate ActivatesNow(s: Store, c: LampCommand) {
    c.action == Activate || (c.action == Toggle && !s.lamps.IsOn(c.function_))
  }

  lemma {:induction false} HazardCommandShows(h: Handler, c: LampCommand, g: LampFunction)
    requires Safe(h) && Known(g) && c.function_ == HazardLamp
    ensures forall h' | h' == BareHazard(h, c) || h' == ZephyrHazard(h, c) ::
              h'.store.lamps.faults == h.store.lamps.faults && (h'.store.IsOn(g) <==> LitAfterCommand(h, c, g))
  {
    hide BareHazard, ZephyrHazard, SafeStore, Lamps.IsOn;
    if h.store.IsOn(HazardLamp) {
      BareHazardGoesOff(h, c);
      ZephyrHazardGoesOff(h, c);
    } else {
      HazardGoesOn(h, c);
    }
    assert h.store.IsOn(g) == h.store.lamps.IsOn(g) && h.store.IsOn(HazardLamp) == h.store.lamps.IsOn(HazardLamp);
  }

  /**
    What one command shows, on both nodes: for each lamp, whether it is lit afterwards; the
    faults stay, and only a hazard command sets the counter that its companions carry.
   */
  lemma {:induction false} CommandShows(h: Handler, c: LampCommand, g: LampFunction)
    requires Safe(h) && Known(g)
    ensures forall h' | h' == BareStep(h, c) || h' == ZephyrStep(h, c) ::
              && h'.store.lamps.faults == h.store.lamps.faults
              && (h'.store.lamps.IsOn(g) <==> LitAfterCommand(h, c, g))
              && h'.lastHazardSequence
                 == (if c.function_ == HazardLamp then c.sequenceCounter else h.lastHazardSequence)
  {
    hide Apply, Interlocked, Lamps.IsOn, MakeRoom, Resolve;
    if c.function_ == HazardLamp {
      HazardCommandShows(h, c, g);
    } else if IsIndicator(c.function_) {
      IndicatorCommandShows(h.store, c, g);
    } else {
      ApplyShows(h.store.lamps, c, g);
    }
  }

  /** A lamp's status is as before, or it was applied and carries the counter `n`. */
  predicate Touched(before: LampStatus, after: LampStatus, n: bv16) {
    after == before || (after.commandApplied && after.lastSequenceCounter == n)
  }

  lemma DoTouches(s: Store, l: Lamps, c: LampCommand, g: LampFunction)
    requires Known(g) && Touched(l.Get(g), s.lamps.Get(g), c.sequenceCounter)
    ensures Touched(l.Get(g), s.Do(c).lamps.Get(g), c.sequenceCounter)
    ensures Touched(l.Get(g), s.Do(c).Say(c.function_).lamps.Get(g), c.sequenceCounter)
  {
    hide Refused;
  }

  /** Whatever a command changes on either node carries the command's own counter. */
  lemma {:induction false} StatusCarriesCounter(h: Handler, c: LampCommand, g: LampFunction)
    requires Known(g)
    ensures forall h' | h' == BareStep(h, c) || h' == ZephyrStep(h, c) ::
              Touched(h.store.lamps.Get(g), h'.store.lamps.Get(g), c.sequenceCounter)
  {
    if c.function_ == HazardLamp {
      BareHazardTouches(h, c, g);
      ZephyrHazardTouches(h, c, g);
      hide BareHazard, ZephyrHazard, Touched;
    } else if IsIndicator(c.function_) {
      IndicatorTouches(h, c, g);
      hide BareIndicator, ZephyrIndicator, Touched;
    } else {
      DoTouches(h.store, h.store.lamps, c, g);
      hide Touched, Store.Do, Lamps.Get;
    }
  }

  lemma {:induction false} SetTouches(s: Store, l: Lamps, c: LampCommand, f: LampFunction, action: Action,
      g: LampFunction)
    requires Known(g) && Touched(l.Get(g), s.lamps.Get(g), c.sequenceCounter)
    ensures Touched(l.Get(g), s.Set(c, f, action).lamps.Get(g), c.sequenceCounter)
  {
    DoTouches(s, l, c.(function_ := f, action := action), g);
    hide Store.Do, Touched, Lamps.Get;
  }

  lemma {:induction false} BareHazardTouches(h: Handler, c: LampCommand, g: LampFunction)
    requires Known(g)
    ensures Touched(h.store.lamps.Get(g), BareHazard(h, c).store.lamps.Get(g), c.sequenceCounter)
  {
    var l := h.store.lamps;
    assert Touched(l.Get(g), l.Get(g), c.sequenceCounter);
    hide Store.Set, Touched, Lamps.Get, Lamps.IsOn;
    var s := h.store.Set(c, HazardLamp, Deactivate);
    var first, action := if h.saved != UnknownFunction then h.saved else LeftIndicator,
                         if h.saved != UnknownFunction then Activate else Deactivate;
    var second := if h.saved != UnknownFunction then Opposite(h.saved) else RightIndicator;
    SetTouches(h.store, l, c, HazardLamp, Activate, g);
    SetTouches(h.store, l, c, HazardLamp, Deactivate, g);
    SetTouches(s, l, c, first, action, g);
    SetTouches(s.Set(c, first, action), l, c, second, Deactivate, g);
  }

  lemma {:induction false} ZephyrHazardTouches(h: Handler, c: LampCommand, g: LampFunction)
    requires Known(g)
    ensures Touched(h.store.lamps.Get(g), ZephyrHazard(h, c).store.lamps.Get(g), c.sequenceCounter)
  {
    var l := h.store.lamps;
    assert Touched(l.Get(g), l.Get(g), c.sequenceCounter);
    hide Store.Set, Touched, Lamps.Get, Lamps.IsOn;
    var s1 := h.store.Set(c, HazardLamp, Deactivate);
    var s2 := s1.Set(c, LeftIndicator, Deactivate);
    var s3 := s2.Set(c, RightIndicator, Deactivate);
    SetTouches(h.store, l, c, HazardLamp, Activate, g);
    SetTouches(h.store, l, c, HazardLamp, Deactivate, g);
    SetTouches(s1, l, c, LeftIndicator, Deactivate, g);
    SetTouches(s2, l, c, RightIndicator, Deactivate, g);
    SetTouches(s3.Say(HazardLamp).Say(LeftIndicator).Say(RightIndicator), l, c, h.saved, Activate, g);
  }

  lemma {:induction false} IndicatorTouches(h: Handler, c: LampCommand, g: LampFunction)
    requires Known(g) && IsIndicator(c.function_)
    ensures Touched(h.store.lamps.Get(g), BareIndicator(h, c).store.lamps.Get(g), c.sequenceCounter)
    ensures Touched(h.store.lamps.Get(g), ZephyrIndicator(h, c).store.lamps.Get(g), c.sequenceCounter)
  {
    var l := h.store.lamps;
    assert Touched(l.Get(g), l.Get(g), c.sequenceCounter);
    var resolved := Resolve(h.store, c);
    assert resolved.sequenceCounter == c.sequenceCounter;
    hide Store.Set, Store.Do, Touched, Lamps.Get, Lamps.IsOn, Resolve, Registered;
    SetTouches(h.store, l, resolved, Opposite(resolved.function_), Deactivate, g);
    DoTouches(MakeRoom(h.store, resolved), l, resolved, g);
  }

  /**
    What an indicator command stands for on the Zephyr node: the registry names the
    indicator that was activated last, until it is deactivated.
   */
  lemma RegistryFollows(h: Handler, c: LampCommand)
    requires IsIndicator(c.function_) && !Ignored(h, c)
    ensures var saved := ZephyrStep(h, c).saved;
            var lit := h.store.lamps.IsOn(c.function_);
            && (c.action == Activate || (c.action == Toggle && !lit) ==> saved == c.function_)
            && (c.action == Deactivate || (c.action == Toggle && lit) ==>
                  saved == if h.saved == c.function_ then UnknownFunction else h.saved)
            && (c.action == NoAction || c.action == OutOfRangeAction ==> saved == h.saved)
            && BareStep(h, c).saved == h.saved
  {
  }

  // ---------------------------------------------------------------------------------
  // Bisimulation
  // ---------------------------------------------------------------------------------

  predicate SameLamps(a: Lamps, b: Lamps) {
    && a.faults == b.faults
    && a.IsOn(LeftIndicator) == b.IsOn(LeftIndicator)
    && a.IsOn(RightIndicator) == b.IsOn(RightIndicator)
    && a.IsOn(HazardLamp) == b.IsOn(HazardLamp)
    && a.IsOn(ParkLamp) == b.IsOn(ParkLamp)
    && a.IsOn(HeadLamp) == b.IsOn(HeadLamp)
  }

  /** Both nodes show the same lamps, and while hazard is on they have saved the same. */
  predicate Tracks(b: Handler, z: Handler) {
    && SameLamps(b.store.lamps, z.store.lamps)
    && b.lastHazardSequence == z.lastHazardSequence
    && (b.store.IsOn(HazardLamp) ==> b.saved == z.saved)
  }

  predicate Related(b: Handler, z: Handler) {
    Safe(b) && Safe(z) && Tracks(b, z)
  }

  lemma SameAfterApply(a: Lamps, b: Lamps, c: LampCommand)
    requires Interlocked(a) && Interlocked(b) && SameLamps(a, b)
    ensures SameLamps(Apply(a, c).0, Apply(b, c).0)
    ensures Interlocked(Apply(a, c).0) && Interlocked(Apply(b, c).0)
  {
    hide Apply, Interlocked, Lamps.IsOn, LitAfter;
    forall g | Known(g)
      ensures Apply(a, c).0.faults == a.faults && Apply(b, c).0.faults == b.faults
      ensures Apply(a, c).0.IsOn(g) == Apply(b, c).0.IsOn(g)
      ensures Interlocked(Apply(a, c).0) && Interlocked(Apply(b, c).0)
    {
      ApplyShows(a, c, g);
      ApplyShows(b, c, g);
    }
    assert Known(LeftIndicator) && Known(RightIndicator) && Known(HazardLamp) && Known(ParkLamp) && Known(HeadLamp);
  }

  lemma SameAfterFault(a: Lamps, b: Lamps, op: FaultOp)
    requires Interlocked(a) && Interlocked(b) && SameLamps(a, b)
    ensures SameLamps(Disturb(a, op), Disturb(b, op))
    ensures Disturb(a, op).IsOn(HazardLamp) ==> a.IsOn(HazardLamp)
  {
    hide Disturb, Interlocked, Lamps.IsOn, Faults.Perform;
    forall g | Known(g)
      ensures Disturb(a, op).faults == Disturb(b, op).faults
      ensures Disturb(a, op).IsOn(g) == Disturb(b, op).IsOn(g)
    {
      DisturbShows(a, op, g);
      DisturbShows(b, op, g);
    }
    DisturbShows(a, op, HazardLamp);
    assert Known(LeftIndicator) && Known(RightIndicator) && Known(HazardLamp) && Known(ParkLamp) && Known(HeadLamp);
  }

  lemma HazardSimulates(b: Handler, z: Handler, c: LampCommand)
    requires Related(b, z)
    ensures Tracks(BareHazard(b, c), ZephyrHazard(z, c))
  {
    assert BareHazard(b, c).lastHazardSequence == ZephyrHazard(z, c).lastHazardSequence;
    hide BareHazard, ZephyrHazard, Lamps.IsOn, SafeStore, HazardLit, HazardCleared;
    if b.store.IsOn(HazardLamp) {
      BareHazardGoesOff(b, c);
      ZephyrHazardGoesOff(z, c);
    } else {
      HazardGoesOn(b, c);
      HazardGoesOn(z, c);
    }
    OutcomesAgree(b, z, BareHazard(b, c), ZephyrHazard(z, c));
  }

  lemma OutcomesAgree(b: Handler, z: Handler, b': Handler, z': Handler)
    requires Related(b, z)
    requires if b.store.IsOn(HazardLamp) then HazardCleared(b, b') && HazardCleared(z, z')
             else HazardLit(b, b') && HazardLit(z, z')
    ensures SameLamps(b'.store.lamps, z'.store.lamps)
    ensures b'.store.IsOn(HazardLamp) ==> b'.saved == z'.saved
  {
    hide Lamps.IsOn, SafeStore;
    assert b'.store.IsOn(LeftIndicator) == z'.store.IsOn(LeftIndicator);
    assert b'.store.IsOn(RightIndicator) == z'.store.IsOn(RightIndicator);
    assert b'.store.IsOn(ParkLamp) == z'.store.IsOn(ParkLamp);
    assert b'.store.IsOn(HeadLamp) == z'.store.IsOn(HeadLamp);
  }

  lemma IndicatorSimulates(b: Handler, z: Handler, c: LampCommand)
    requires Related(b, z) && IsIndicator(c.function_)
    ensures Tracks(BareIndicator(b, c), ZephyrIndicator(z, c))
  {
    var resolved := Resolve(b.store, c);
    assert resolved == Resolve(z.store, c) && Dropped(b, c) == Dropped(z, c);
    IndicatorStoreSafe(b.store, resolved);
    SameAfterRoom(b.store, z.store, resolved);
    hide Apply, Interlocked, Lamps.IsOn, MakeRoom, Resolve, SafeStore, SameLamps;
    SameAfterApply(MakeRoom(b.store, resolved).lamps, MakeRoom(z.store, resolved).lamps, resolved);
  }

  lemma SameAfterRoom(b: Store, z: Store, c: LampCommand)
    requires Interlocked(b.lamps) && Interlocked(z.lamps) && SameLamps(b.lamps, z.lamps)
    ensures SameLamps(MakeRoom(b, c).lamps, MakeRoom(z, c).lamps)
    ensures Interlocked(MakeRoom(b, c).lamps) && Interlocked(MakeRoom(z, c).lamps)
  {
    hide Apply, Interlocked, Lamps.IsOn;
    SameAfterApply(b.lamps, z.lamps, c.(function_ := Opposite(c.function_), action := Deactivate));
  }

  lemma SteadySimulates(b: Handler, z: Handler, c: LampCommand)
    requires Related(b, z) && c.function_ != HazardLamp
    ensures Tracks(b.(store := b.store.Obey(c)), z.(store := z.store.Obey(c)))
  {
    hide Apply, Interlocked, Lamps.IsOn;
    SameAfterApply(b.store.lamps, z.store.lamps, c);
    ApplyShows(b.store.lamps, c, HazardLamp);
  }

  lemma FaultSimulates(b: Handler, z: Handler, op: FaultOp)
    requires Related(b, z)
    ensures Tracks(Faulted(b, op), Faulted(z, op))
  {
    SameAfterFault(b.store.lamps, z.store.lamps, op);
    hide SafeStore, SameLamps, Disturb, Lamps.IsOn;
  }

  lemma OpSimulates(b: Handler, z: Handler, op: NodeOp)
    requires Related(b, z)
    requires op.Receive? ==> WellFormed(op.payload)
    ensures Related(BareOp(b, op), ZephyrOp(z, op))
  {
    OpSafe(b, op);
    OpSafe(z, op);
    hide Safe, Tracks, BareHazard, ZephyrHazard, BareIndicator, ZephyrIndicator, Faulted, ParseLampCommand, Store.Do,
      IsValidLampCommand;
    match op {
      case Fault(fault) => FaultSimulates(b, z, fault);
      case Receive(payload) =>
        var c := ParseLampCommand(payload);
        if c.function_ == HazardLamp {
          HazardSimulates(b, z, c);
        } else if IsIndicator(c.function_) {
          IndicatorSimulates(b, z, c);
        } else {
          SteadySimulates(b, z, c);
        }
    }
  }

  /**
    Bisimulation: for every interleaving of well-formed commands and faults, the two nodes
    show the same five lamps throughout.
   */
  lemma {:induction false} HandlersBisimilar(b: Handler, z: Handler, ops: seq<NodeOp>)
    requires Related(b, z)
    requires forall op | op in ops && op.Receive? :: WellFormed(op.payload)
    ensures Related(BareRun(b, ops), ZephyrRun(z, ops))
    decreases |ops|
  {
    hide Related, BareOp, ZephyrOp, WellFormed;
    if ops == [] {
    } else {
      OpSimulates(b, z, ops[0]);
      HandlersBisimilar(BareOp(b, ops[0]), ZephyrOp(z, ops[0]), ops[1..]);
    }
  }

  /**
    Malformed payloads separate the nodes: a single byte that names the hazard lamp
    toggles hazard on the bare-metal node and is dropped by the Zephyr node.
   */
  lemma MalformedPayloadSeparates()
    ensures var h := Handler(Store(PowerUp(), [], []), 0, UnknownFunction);
            var payload: bytes := [FunctionByte(HazardLamp)];
            BareReceive(h, payload).store.IsOn(HazardLamp) && ZephyrReceive(h, payload) == h
  {
  }

  /** An explicit indicator command that changes nothing that is lit. */
  predicate IndicatorShowsNothing(l: Lamps, c: LampCommand) {
    match c.action
    case Activate => !l.IsOn(Opposite(c.function_)) && (l.IsOn(c.function_) || c.function_ in l.faults)
    case Deactivate => !l.IsOn(c.function_)
    case _ => true
  }

  /** When a command leaves the bare-metal node's lamps as they are, told from state and command. */
  predicate ShowsNothing(h: Handler, c: LampCommand) {
    var l := h.store.lamps;
    if c.function_ == HazardLamp then !l.IsOn(HazardLamp) && HazardLamp in l.faults
    else if IsIndicator(c.function_) then Dropped(h, c) || IndicatorShowsNothing(l, Resolve(h.store, c))
    else !Known(c.function_) || LitAfter(c.action, l.IsOn(c.function_), c.function_ in l.faults) == l.IsOn(c.function_)
  }

  lemma HazardShowsNothingIff(h: Handler, c: LampCommand)
    requires Safe(h) && c.function_ == HazardLamp
    ensures SameLamps(h.store.lamps, BareStep(h, c).store.lamps) <==> ShowsNothing(h, c)
  {
    var h' := BareHazard(h, c);
    if h.store.IsOn(HazardLamp) {
      BareHazardGoesOff(h, c);
    } else {
      HazardGoesOn(h, c);
      assert Known(LeftIndicator) && Known(RightIndicator) && Known(ParkLamp) && Known(HeadLamp);
    }
    hide BareHazard, Lamps.IsOn, SafeStore;
    assert h'.store.IsOn(HazardLamp) == h'.store.lamps.IsOn(HazardLamp);
    if !h.store.IsOn(HazardLamp) {
      assert h'.store.IsOn(LeftIndicator) == h.store.IsOn(LeftIndicator);
      assert h'.store.IsOn(RightIndicator) == h.store.IsOn(RightIndicator);
      assert h'.store.IsOn(ParkLamp) == h.store.IsOn(ParkLamp);
      assert h'.store.IsOn(HeadLamp) == h.store.IsOn(HeadLamp);
    }
  }

  lemma SteadyShowsNothingIff(l: Lamps, c: LampCommand)
    requires Interlocked(l)
    ensures SameLamps(l, Apply(l, c).0) <==>
              || !Known(c.function_)
              || LitAfter(c.action, l.IsOn(c.function_), c.function_ in l.faults) == l.IsOn(c.function_)
  {
    hide Apply, Interlocked, Lamps.IsOn, LitAfter;
    ApplyShows(l, c, LeftIndicator);
    ApplyShows(l, c, RightIndicator);
    ApplyShows(l, c, HazardLamp);
    ApplyShows(l, c, ParkLamp);
    ApplyShows(l, c, HeadLamp);
  }

  lemma IndicatorShowsNothingIff(s: Store, c: LampCommand)
    requires SafeStore(s) && IsIndicator(c.function_) && c.action != Toggle
    ensures SameLamps(s.lamps, MakeRoom(s, c).Do(c).lamps) <==> IndicatorShowsNothing(s.lamps, c)
  {
    hide Apply, Interlocked, Lamps.IsOn;
    var l := s.lamps;
    var clear := c.(function_ := Opposite(c.function_), action := Deactivate);
    var room := MakeRoom(s, c).lamps;
    forall g | Known(g)
      ensures Apply(l, clear).0.IsOn(g) <==> l.IsOn(g) && g != clear.function_
      ensures Apply(l, clear).0.faults == l.faults && Interlocked(Apply(l, clear).0)
    {
      ApplyShows(l, clear, g);
    }
    assert Known(LeftIndicator);
    if l.IsOn(c.function_) {
      LitIsHealthy(l, c.function_);
    }
    SteadyShowsNothingIff(room, c);
    forall g | Known(g)
      ensures Apply(room, c).0.IsOn(g) <==>
              if g == c.function_ then LitAfter(c.action, room.IsOn(g), g in room.faults) else room.IsOn(g)
      ensures Apply(room, c).0.faults == room.faults
    {
      ApplyShows(room, c, g);
    }
    assert Known(RightIndicator) && Known(HazardLamp) && Known(ParkLamp) && Known(HeadLamp);
  }

  /**
    When exactly a malformed payload separates the nodes: the Zephyr node drops it, so they
    go on showing the same lamps exactly if it changes nothing on the bare-metal node.
   */
  lemma MalformedPayloadSeparatesIff(b: Handler, z: Handler, payload: bytes)
    requires Related(b, z) && !WellFormed(payload)
    ensures SameLamps(BareReceive(b, payload).store.lamps, ZephyrReceive(z, payload).store.lamps)
        <==> ShowsNothing(b, ParseLampCommand(payload))
  {
    var c := ParseLampCommand(payload);
    hide ParseLampCommand, Apply, Interlocked, Lamps.IsOn, LitAfter, MakeRoom, BareHazard;
    if c.function_ == HazardLamp {
      HazardShowsNothingIff(b, c);
    } else if IsIndicator(c.function_) {
      IndicatorShowsNothingIff(b.store, Resolve(b.store, c));
    } else {
      SteadyShowsNothingIff(b.store.lamps, c);
    }
  }

  // ---------------------------------------------------------------------------------
  // Turn-signal retention
  // ---------------------------------------------------------------------------------

  predicate IsHazard(payload: bytes) {
    ParseLampCommand(payload).function_ == HazardLamp
  }

  /** Anything but another hazard command or a fault of the hazard lamp. */
  predicate BetweenHazards(op: NodeOp) {
    match op
    case Receive(payload) => !IsHazard(payload)
    case Fault(fault) => fault != FaultOp.Inject(HazardLamp)
  }

  lemma HazardStays(h: Handler, op: NodeOp)
    requires Safe(h) && h.store.IsOn(HazardLamp) && BetweenHazards(op)
    ensures forall h' | h' == BareOp(h, op) || h' == ZephyrOp(h, op) ::
              Safe(h') && h'.store.IsOn(HazardLamp) && h'.saved == h.saved
  {
    OpSafe(h, op);
    hide Apply, Interlocked, Lamps.IsOn, Disturb;
    match op
    case Fault(fault) => DisturbShows(h.store.lamps, fault, HazardLamp);
    case Receive(payload) => ApplyShows(h.store.lamps, ParseLampCommand(payload), HazardLamp);
  }

  lemma {:induction false} HazardStaysOverRun(h: Handler, ops: seq<NodeOp>)
    requires Safe(h) && h.store.IsOn(HazardLamp)
    requires forall op | op in ops :: BetweenHazards(op)
    ensures forall h' | h' == BareRun(h, ops) || h' == ZephyrRun(h, ops) ::
              Safe(h') && h'.store.IsOn(HazardLamp) && h'.saved == h.saved
    decreases |ops|
  {
    hide Safe, BareOp, ZephyrOp, BetweenHazards, Lamps.IsOn;
    if ops == [] {
    } else {
      HazardStays(h, ops[0]);
      HazardStaysOverRun(BareOp(h, ops[0]), ops[1..]);
      HazardStaysOverRun(ZephyrOp(h, ops[0]), ops[1..]);
    }
  }

  /** Both indicators are as they were in `before`, except that a faulted one is dark. */
  predicate Retained(before: Handler, after: Handler) {
    && !after.store.IsOn(HazardLamp)
    && (after.store.IsOn(LeftIndicator) <==>
        before.store.IsOn(LeftIndicator) && LeftIndicator !in after.store.lamps.faults)
    && (after.store.IsOn(RightIndicator) <==>
        before.store.IsOn(RightIndicator) && RightIndicator !in after.store.lamps.faults)
  }

  lemma ClearedMeansRetained(before: Handler, h: Handler, after: Handler)
    requires SafeStore(before.store) && HazardCleared(h, after) && h.saved == LitIndicator(before.store)
    ensures Retained(before, after)
  {
    hide Lamps.IsOn, Interlocked;
  }

  /**
    Turn-signal retention: whatever comes between a hazard command that lights the hazard
    lamp and the next hazard command, the indicators end as they were before.
   */
  lemma TurnSignalRetention(h: Handler, on: bytes, between: seq<NodeOp>, off: bytes)
    requires Safe(h) && !h.store.IsOn(HazardLamp) && HazardLamp !in h.store.lamps.faults
    requires IsHazard(on) && IsHazard(off)
    requires forall op | op in between :: BetweenHazards(op)
    ensures Retained(h, BareReceive(BareRun(BareReceive(h, on), between), off))
    ensures WellFormed(on) && WellFormed(off) ==>
              Retained(h, ZephyrReceive(ZephyrRun(ZephyrReceive(h, on), between), off))
  {
    hide BareHazard, ZephyrHazard, BareRun, ZephyrRun, Lamps.IsOn, ParseLampCommand, IsValidLampCommand, SafeStore,
      HazardCleared, Retained, BetweenHazards;
    var lit := BareReceive(h, on);
    HazardGoesOn(h, ParseLampCommand(on));
    BareHazardSafe(h, ParseLampCommand(on));
    HazardStaysOverRun(lit, between);
    var b, z := BareRun(lit, between), ZephyrRun(lit, between);
    BareHazardGoesOff(b, ParseLampCommand(off));
    ZephyrHazardGoesOff(z, ParseLampCommand(off));
    ClearedMeansRetained(h, b, BareReceive(b, off));
    ClearedMeansRetained(h, z, ZephyrHazard(z, ParseLampCommand(off)));
  }

  // ---------------------------------------------------------------------------------
  // The hazard fan-out
  // ---------------------------------------------------------------------------------

  function Deliveries(commands: seq<LampCommand>): (ops: seq<NodeOp>)
    ensures |ops| == |commands|
  {
    seq(|commands|, i requires 0 <= i < |commands| => Receive(BuildLampCommand(commands[i])))
  }

  lemma CompanionIsInert(h: Handler, c: LampCommand)
    requires IsIndicator(c.function_) && c.sequenceCounter == h.lastHazardSequence
    ensures var op := Receive(BuildLampCommand(c)); BareOp(h, op) == h && ZephyrOp(h, op) == h
  {
    LampCommandRoundTrip(c);
    hide BuildLampCommand, ParseLampCommand;
  }

  /** What the controller lets through of a request for an indicator. */
  predicate IndicatorGoesOut(s: Controller.ControllerState, action: Action, source: Source) {
    && source != OutOfRangeSource && action != NoAction && action != OutOfRangeAction
    && !(Controller.Active(s.arbitration, HazardLamp) && (action == Activate || action == Toggle))
  }

  /**
    The controller's counter wraps to zero, which a node that has not seen a hazard command
    takes for a companion: the commands of the indicator request that carries it, and there
    are some unless the controller turns the request down, are lost on both nodes.
   */
  lemma WrappedCounterIsIgnored(s: Controller.ControllerState, h: Handler, f: LampFunction, action: Action,
      source: Source)
    requires s.initialized && s.nextSequence == 0xFFFF && IsIndicator(f) && h.lastHazardSequence == 0
    ensures var s' := Controller.Send(s, ParkLamp, Toggle, source, []).0;
            var commands := Controller.Send(s', f, action, source, []).1;
            && (commands != [] <==> IndicatorGoesOut(s, action, source))
            && BareRun(h, Deliveries(commands)) == h && ZephyrRun(h, Deliveries(commands)) == h
  {
    var s' := Controller.Send(s, ParkLamp, Toggle, source, []).0;
    assert s'.nextSequence == 0 && s'.initialized && s'.arbitration == s.arbitration by {
      hide Arbitrator.Arbitrate, Controller.ContextOf;
    }
    IndicatorCommands(s', f, action, source);
    hide BareOp, ZephyrOp, BuildLampCommand, Controller.Send, IndicatorGoesOut;
    var commands := Controller.Send(s', f, action, source, []).1;
    forall op | op in Deliveries(commands)
      ensures BareOp(h, op) == h && ZephyrOp(h, op) == h
    {
      var i :| 0 <= i < |commands| && op == Deliveries(commands)[i];
      assert commands[i] in commands;
      CompanionIsInert(h, commands[i]);
    }
    InertTail(h, Deliveries(commands));
    ZephyrInertTail(h, Deliveries(commands));
  }

  lemma IndicatorCommands(s: Controller.ControllerState, f: LampFunction, action: Action, source: Source)
    requires s.initialized && IsIndicator(f)
    ensures var commands := Controller.Send(s, f, action, source, []).1;
            && (commands != [] <==> IndicatorGoesOut(s, action, source))
            && forall c | c in commands :: IsIndicator(c.function_) && c.sequenceCounter == s.nextSequence
  {
    AllGoOut(2);
    AllGoOut(1);
    hide Controller.SentOf;
  }

  lemma AllGoOut(n: nat)
    ensures Controller.SentOf(n, []) == n
  {
    Controller.SentIsUnique(n, [], n);
  }

  lemma {:induction false} InertTail(h: Handler, ops: seq<NodeOp>)
    requires forall op | op in ops :: BareOp(h, op) == h
    ensures BareRun(h, ops) == h
    decreases |ops|
  {
    hide BareOp;
    if ops == [] {
    } else {
      InertTail(h, ops[1..]);
    }
  }

  lemma {:induction false} ZephyrInertTail(h: Handler, ops: seq<NodeOp>)
    requires forall op | op in ops :: ZephyrOp(h, op) == h
    ensures ZephyrRun(h, ops) == h
    decreases |ops|
  {
    hide ZephyrOp;
    if ops == [] {
    } else {
      ZephyrInertTail(h, ops[1..]);
    }
  }

  /** After a hazard command, both nodes remember its counter. */
  lemma HazardSetsCounter(h: Handler, c: LampCommand)
    requires c.function_ == HazardLamp && IsValidLampCommand(c)
    ensures var op := Receive(BuildLampCommand(c));
            BareOp(h, op).lastHazardSequence == ZephyrOp(h, op).lastHazardSequence == c.sequenceCounter
  {
    LampCommandRoundTrip(c);
    assert |BuildLampCommand(c)| == 5;
    hide BuildLampCommand, ParseLampCommand, Store.Set, Lamps.IsOn, LitIndicator;
  }

  /** The three commands of an arbitrated hazard request act as the first one alone. */
  lemma FanoutActsAsOne(h: Handler, c: LampCommand, ctx: Arbitrator.Context)
    requires c.function_ == HazardLamp && Arbitrator.Arbitrate(c, ctx).result == Arbitrator.Accepted
    ensures var ops := Deliveries(Arbitrator.Arbitrate(c, ctx).commands);
            |ops| == 3 && BareRun(h, ops) == BareOp(h, ops[0]) && ZephyrRun(h, ops) == ZephyrOp(h, ops[0])
  {
    var commands := Arbitrator.Arbitrate(c, ctx).commands;
    var ops := Deliveries(commands);
    hide BuildLampCommand, BareOp, ZephyrOp;
    HazardSetsCounter(h, commands[0]);
    forall op | op in ops[1..]
      ensures BareOp(BareOp(h, ops[0]), op) == BareOp(h, ops[0])
      ensures ZephyrOp(ZephyrOp(h, ops[0]), op) == ZephyrOp(h, ops[0])
    {
      var i :| 1 <= i < 3 && op == ops[i];
      CompanionIsInert(BareOp(h, ops[0]), commands[i]);
      CompanionIsInert(ZephyrOp(h, ops[0]), commands[i]);
    }
    InertTail(BareOp(h, ops[0]), ops[1..]);
    ZephyrInertTail(ZephyrOp(h, ops[0]), ops[1..]);
  }
}
