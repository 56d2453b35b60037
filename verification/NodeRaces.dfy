/**
  Diagnostic faults that land inside a command handler of the Zephyr node: the diagnostic
  thread takes no lock, so it may run between any two calls that the command thread makes.

  The handler functions are written out once more, call by call, with a list of faults
  before each call.
 */
module NodeRaces {

  import opened Bytes
  import opened LampTypes
  import opened Faults
  import opened FunctionManager
  import opened SomeIp
  import opened NodeHandlers
  import opened NodeRuns
  import opened NodeQueue

  /** What the diagnostic thread does before each call; nothing beyond the list. */
  type Gaps = seq<seq<FaultOp>>

  function GapAt(gaps: Gaps, k: nat): seq<FaultOp> {
    if k < |gaps| then gaps[k] else []
  }

  function Disturbed(l: Lamps, ops: seq<FaultOp>): Lamps
    decreases |ops|
  {
    if ops == [] then l else Disturbed(Disturb(l, ops[0]), ops[1..])
  }

  /** The store as call `k` of the handler finds it. */
  function Hit(s: Store, gaps: Gaps, k: nat): Store {
    s.(lamps := Disturbed(s.lamps, GapAt(gaps, k)))
  }

  // ---------------------------------------------------------------------------------
  // The handlers, call by call
  // ---------------------------------------------------------------------------------

  function RacedHazardOn(s: Store, c: LampCommand, gaps: Gaps): Handler {
    var s1 := Hit(s, gaps, 0).Set(c, HazardLamp, Activate);
    var s2 := Hit(s1, gaps, 1);
    var s3 := Hit(s2, gaps, 2);
    var saved := if s2.IsOn(LeftIndicator) then LeftIndicator
                 else if s3.IsOn(RightIndicator) then RightIndicator
                 else UnknownFunction;
    Handler(Hit(s3, gaps, 3).Say(HazardLamp), c.sequenceCounter, saved)
  }

  function RacedHazardOff(s: Store, saved: LampFunction, c: LampCommand, gaps: Gaps): Handler {
    var s1 := Hit(s, gaps, 0).Set(c, HazardLamp, Deactivate);
    var s2 := Hit(s1, gaps, 1).Set(c, LeftIndicator, Deactivate);
    var s3 := Hit(s2, gaps, 2).Set(c, RightIndicator, Deactivate);
    var s4 := Hit(s3, gaps, 3).Say(HazardLamp);
    var s5 := Hit(s4, gaps, 4).Say(LeftIndicator);
    var s6 := Hit(s5, gaps, 5).Say(RightIndicator);
    if saved == UnknownFunction then Handler(s6, c.sequenceCounter, saved)
    else
      var s7 := Hit(s6, gaps, 6).Set(c, saved, Activate);
      Handler(Hit(s7, gaps, 7).Say(saved), c.sequenceCounter, UnknownFunction)
  }

  function RacedHazard(h: Handler, c: LampCommand, gaps: Gaps): Handler {
    if h.store.IsOn(HazardLamp) then RacedHazardOff(h.store, h.saved, c, gaps) else RacedHazardOn(h.store, c, gaps)
  }

  /** The opposite indicator is looked at before it is turned off. */
  function RacedRoom(s: Store, c: LampCommand, gaps: Gaps): Store {
    var s1 := Hit(s, gaps, 2);
    if c.action == Activate && s1.IsOn(Opposite(c.function_)) then
      var s2 := Hit(s1, gaps, 3).Set(c, Opposite(c.function_), Deactivate);
      Hit(s2, gaps, 4).Say(Opposite(c.function_))
    else s1
  }

  function RacedIndicator(h: Handler, c: LampCommand, gaps: Gaps): Handler {
    if c.sequenceCounter == h.lastHazardSequence then h
    else
      var s1 := Hit(h.store, gaps, 0);
      if s1.IsOn(HazardLamp) then h.(store := s1)
      else
        var s2 := Hit(s1, gaps, 1);
        var resolved := Resolve(s2, c);
        var s3 := RacedRoom(s2, resolved, gaps);
        var s4 := Hit(s3, gaps, 5).Do(resolved);
        h.(store := Hit(s4, gaps, 6).Say(c.function_), saved := Registered(h.saved, resolved))
  }

  function RacedSteady(s: Store, c: LampCommand, gaps: Gaps): Store {
    var s1 := Hit(s, gaps, 0);
    if Apply(s1.lamps, c).1 then Hit(s1.Do(c), gaps, 1).Say(c.function_) else s1.Do(c)
  }

  /** `ApplyLampCommand` with faults inside. */
  function RacedStep(h: Handler, c: LampCommand, gaps: Gaps): Handler {
    if c.function_ == HazardLamp then RacedHazard(h, c, gaps)
    else if IsIndicator(c.function_) then RacedIndicator(h, c, gaps)
    else h.(store := RacedSteady(h.store, c, gaps))
  }

  lemma NoHit(s: Store, k: nat)
    ensures Hit(s, [], k) == s
  {
  }

  lemma {:induction false} NoRaceInHazardOn(h: Handler, c: LampCommand)
    requires !h.store.IsOn(HazardLamp)
    ensures RacedHazardOn(h.store, c, []) == ZephyrHazard(h, c)
  {
    hide Hit, Store.Set, Store.Say, Lamps.IsOn;
    var s := h.store.Set(c, HazardLamp, Activate);
    NoHit(h.store, 0);
    NoHit(s, 1);
    NoHit(s, 2);
    NoHit(s, 3);
  }

  lemma {:induction false} NoRaceInHazardOff(h: Handler, c: LampCommand)
    requires h.store.IsOn(HazardLamp)
    ensures RacedHazardOff(h.store, h.saved, c, []) == ZephyrHazard(h, c)
  {
    hide Hit, Store.Set, Store.Say, Lamps.IsOn, LitIndicator;
    var s1 := h.store.Set(c, HazardLamp, Deactivate);
    var s2 := s1.Set(c, LeftIndicator, Deactivate);
    var s3 := s2.Set(c, RightIndicator, Deactivate);
    var s4 := s3.Say(HazardLamp);
    var s5 := s4.Say(LeftIndicator);
    var s6 := s5.Say(RightIndicator);
    NoHit(h.store, 0);
    NoHit(s1, 1);
    NoHit(s2, 2);
    NoHit(s3, 3);
    NoHit(s4, 4);
    NoHit(s5, 5);
    NoHit(s6, 6);
    NoHit(s6.Set(c, h.saved, Activate), 7);
  }

  lemma {:induction false} NoRaceInRoom(s: Store, c: LampCommand)
    ensures RacedRoom(s, c, []) == MakeRoom(s, c)
  {
    hide Hit, Store.Set, Store.Say, Lamps.IsOn;
    NoHit(s, 2);
    NoHit(s, 3);
    NoHit(s.Set(c, Opposite(c.function_), Deactivate), 4);
  }

  lemma {:induction false} NoRaceInIndicator(h: Handler, c: LampCommand)
    ensures RacedIndicator(h, c, []) == ZephyrIndicator(h, c)
  {
    hide Hit, Store.Do, Store.Say, Lamps.IsOn, RacedRoom, MakeRoom, Resolve;
    NoHit(h.store, 0);
    NoHit(h.store, 1);
    var resolved := Resolve(h.store, c);
    NoRaceInRoom(h.store, resolved);
    var s := MakeRoom(h.store, resolved);
    NoHit(s, 5);
    NoHit(s.Do(resolved), 6);
  }

  /** Without faults inside, this is the handler. */
  lemma {:induction false} NoRace(h: Handler, c: LampCommand)
    ensures RacedStep(h, c, []) == ZephyrStep(h, c)
  {
    hide Hit, Store.Do, Store.Say, Lamps.IsOn, RacedHazardOn, RacedHazardOff, RacedIndicator, ZephyrHazard,
      ZephyrIndicator, Apply;
    if c.function_ == HazardLamp {
      if h.store.IsOn(HazardLamp) {
        NoRaceInHazardOff(h, c);
      } else {
        NoRaceInHazardOn(h, c);
      }
    } else if IsIndicator(c.function_) {
      NoRaceInIndicator(h, c);
    } else {
      NoHit(h.store, 0);
      NoHit(h.store.Do(c), 1);
    }
  }

  // ---------------------------------------------------------------------------------
  // Exclusivity
  // ---------------------------------------------------------------------------------

  /** Faults keep a store safe and light nothing. */
  lemma {:induction false} DisturbedIsSafe(l: Lamps, ops: seq<FaultOp>)
    requires Interlocked(l) && Exclusive(l)
    ensures var l' := Disturbed(l, ops);
            && Interlocked(l') && Exclusive(l')
            && (forall g | Known(g) :: l'.IsOn(g) ==> l.IsOn(g))
    decreases |ops|
  {
    hide Interlocked, Lamps.IsOn, Disturb;
    if ops == [] {
    } else {
      var l1 := Disturb(l, ops[0]);
      forall g | Known(g)
        ensures Interlocked(l1) && (l1.IsOn(g) ==> l.IsOn(g))
      {
        DisturbShows(l, ops[0], g);
      }
      assert Known(LeftIndicator) && Known(RightIndicator);
      DisturbedIsSafe(l1, ops[1..]);
    }
  }

  lemma HitIsSafe(s: Store, gaps: Gaps, k: nat)
    requires SafeStore(s)
    ensures SafeStore(Hit(s, gaps, k)) && (forall g | Known(g) :: Hit(s, gaps, k).IsOn(g) ==> s.IsOn(g))
  {
    DisturbedIsSafe(s.lamps, GapAt(gaps, k));
    hide Disturbed, Interlocked, Lamps.IsOn;
  }

  /** One call of `ApplyCommand` that lights no indicator beside the other. */
  lemma DoIsSafe(s: Store, c: LampCommand)
    requires SafeStore(s)
    requires IsIndicator(c.function_) && c.action != Deactivate ==>
               c.action != Toggle && (c.action == Activate ==> !s.IsOn(Opposite(c.function_)))
    ensures SafeStore(s.Do(c))
    ensures forall g | g in {LeftIndicator, RightIndicator, HazardLamp} ::
              s.Do(c).IsOn(g) ==> s.IsOn(g) || (g == c.function_ && c.action != Deactivate)
    ensures c.action == Deactivate && c.function_ in {LeftIndicator, RightIndicator, HazardLamp} ==>
              !s.Do(c).IsOn(c.function_)
  {
    hide Apply, Interlocked, Lamps.IsOn;
    ApplyShowsSignals(s.lamps, c);
  }

  predicate Signal(f: LampFunction) {
    IsIndicator(f) || f == HazardLamp
  }

  /** An event changes nothing that `SafeStore` looks at. */
  lemma SayIsSafe(s: Store, f: LampFunction)
    requires SafeStore(s)
    ensures SafeStore(s.Say(f))
  {
    hide Interlocked, Exclusive, Store.Say;
  }

  lemma {:induction false} RacedHazardOnSafe(s: Store, c: LampCommand, gaps: Gaps)
    requires SafeStore(s)
    ensures Safe(RacedHazardOn(s, c, gaps))
  {
    hide SafeStore, Store.Do, Store.Say, Hit, Lamps.IsOn;
    var first := c.(function_ := HazardLamp, action := Activate);
    HitIsSafe(s, gaps, 0);
    DoIsSafe(Hit(s, gaps, 0), first);
    var s1 := Hit(s, gaps, 0).Do(first);
    HitIsSafe(s1, gaps, 1);
    var s2 := Hit(s1, gaps, 1);
    HitIsSafe(s2, gaps, 2);
    var s3 := Hit(s2, gaps, 2);
    HitIsSafe(s3, gaps, 3);
    SayIsSafe(Hit(s3, gaps, 3), HazardLamp);
    NeverBoth(s2);
  }

  lemma NeverBoth(s: Store)
    requires SafeStore(s)
    ensures !(s.IsOn(LeftIndicator) && s.IsOn(RightIndicator))
  {
  }

  /** A lamp that is turned off stays off until it is commanded on. */
  lemma {:induction false} RacedDeactivate(s: Store, c: LampCommand, f: LampFunction, gaps: Gaps, k: nat)
    requires SafeStore(s) && Signal(f)
    ensures var s' := Hit(s, gaps, k).Set(c, f, Deactivate);
            && SafeStore(s') && !s'.IsOn(f)
            && (forall g | Signal(g) :: s'.IsOn(g) ==> s.IsOn(g))
  {
    hide SafeStore, Store.Do, Hit, Lamps.IsOn;
    HitIsSafe(s, gaps, k);
    DoIsSafe(Hit(s, gaps, k), c.(function_ := f, action := Deactivate));
  }

  lemma {:induction false} RacedSay(s: Store, f: LampFunction, gaps: Gaps, k: nat)
    requires SafeStore(s)
    ensures var s' := Hit(s, gaps, k).Say(f);
            SafeStore(s') && (forall g | Signal(g) :: s'.IsOn(g) ==> s.IsOn(g))
  {
    hide SafeStore, Store.Say, Hit, Lamps.IsOn;
    HitIsSafe(s, gaps, k);
    SayIsSafe(Hit(s, gaps, k), f);
  }

  lemma {:induction false} RacedHazardOffSafe(s: Store, saved: LampFunction, c: LampCommand, gaps: Gaps)
    requires SafeStore(s) && (saved == UnknownFunction || IsIndicator(saved))
    ensures Safe(RacedHazardOff(s, saved, c, gaps))
  {
    hide SafeStore, Store.Do, Store.Set, Store.Say, Hit, Lamps.IsOn;
    var s1 := Hit(s, gaps, 0).Set(c, HazardLamp, Deactivate);
    var s2 := Hit(s1, gaps, 1).Set(c, LeftIndicator, Deactivate);
    var s3 := Hit(s2, gaps, 2).Set(c, RightIndicator, Deactivate);
    var s4 := Hit(s3, gaps, 3).Say(HazardLamp);
    var s5 := Hit(s4, gaps, 4).Say(LeftIndicator);
    var s6 := Hit(s5, gaps, 5).Say(RightIndicator);
    RacedDeactivate(s, c, HazardLamp, gaps, 0);
    RacedDeactivate(s1, c, LeftIndicator, gaps, 1);
    RacedDeactivate(s2, c, RightIndicator, gaps, 2);
    RacedSay(s3, HazardLamp, gaps, 3);
    RacedSay(s4, LeftIndicator, gaps, 4);
    RacedSay(s5, RightIndicator, gaps, 5);
    assert !s6.IsOn(LeftIndicator) && !s6.IsOn(RightIndicator) && !s6.IsOn(HazardLamp);
    if saved != UnknownFunction {
      RacedRestore(s6, saved, c, gaps);
    }
  }

  lemma {:induction false} RacedRestore(s: Store, saved: LampFunction, c: LampCommand, gaps: Gaps)
    requires SafeStore(s) && IsIndicator(saved) && !s.IsOn(LeftIndicator) && !s.IsOn(RightIndicator)
    ensures SafeStore(Hit(Hit(s, gaps, 6).Set(c, saved, Activate), gaps, 7).Say(saved))
  {
    hide SafeStore, Store.Do, Store.Say, Hit, Lamps.IsOn;
    HitIsSafe(s, gaps, 6);
    DoIsSafe(Hit(s, gaps, 6), c.(function_ := saved, action := Activate));
    RacedSay(Hit(s, gaps, 6).Set(c, saved, Activate), saved, gaps, 7);
  }

  lemma {:induction false} RacedRoomSafe(s: Store, c: LampCommand, gaps: Gaps)
    requires SafeStore(s) && IsIndicator(c.function_)
    ensures var s' := RacedRoom(s, c, gaps);
            && SafeStore(s') && (forall g | Signal(g) :: s'.IsOn(g) ==> s.IsOn(g))
            && (c.action == Activate ==> !s'.IsOn(Opposite(c.function_)))
  {
    hide SafeStore, Store.Set, Store.Say, Hit, Lamps.IsOn;
    var opposite := Opposite(c.function_);
    var s1 := Hit(s, gaps, 2);
    HitIsSafe(s, gaps, 2);
    if c.action == Activate && s1.IsOn(opposite) {
      RacedDeactivate(s1, c, opposite, gaps, 3);
      RacedSay(Hit(s1, gaps, 3).Set(c, opposite, Deactivate), opposite, gaps, 4);
    }
  }

  lemma {:induction false} RacedIndicatorSafe(h: Handler, c: LampCommand, gaps: Gaps)
    requires Safe(h) && IsIndicator(c.function_)
    ensures Safe(RacedIndicator(h, c, gaps))
  {
    hide SafeStore, Store.Do, Store.Say, Hit, Lamps.IsOn, RacedRoom;
    var s1 := Hit(h.store, gaps, 0);
    HitIsSafe(h.store, gaps, 0);
    if c.sequenceCounter != h.lastHazardSequence && !s1.IsOn(HazardLamp) {
      var s2 := Hit(s1, gaps, 1);
      HitIsSafe(s1, gaps, 1);
      var resolved := Resolve(s2, c);
      RacedRoomSafe(s2, resolved, gaps);
      var s3 := RacedRoom(s2, resolved, gaps);
      HitIsSafe(s3, gaps, 5);
      DoIsSafe(Hit(s3, gaps, 5), resolved);
      RacedSay(Hit(s3, gaps, 5).Do(resolved), c.function_, gaps, 6);
    }
  }

  lemma {:induction false} RacedSteadySafe(h: Handler, c: LampCommand, gaps: Gaps)
    requires Safe(h) && !Signal(c.function_)
    ensures Safe(h.(store := RacedSteady(h.store, c, gaps)))
  {
    hide SafeStore, Store.Do, Store.Say, Hit, Lamps.IsOn, Apply;
    HitIsSafe(h.store, gaps, 0);
    DoIsSafe(Hit(h.store, gaps, 0), c);
    RacedSay(Hit(h.store, gaps, 0).Do(c), c.function_, gaps, 1);
  }

  /** Exclusivity holds through a handler, whatever faults land between its calls. */
  lemma {:induction false} RacedStepSafe(h: Handler, c: LampCommand, gaps: Gaps)
    requires Safe(h)
    ensures Safe(RacedStep(h, c, gaps))
  {
    hide SafeStore, RacedHazardOn, RacedHazardOff, RacedIndicator, RacedSteady, Lamps.IsOn;
    if c.function_ == HazardLamp {
      if h.store.IsOn(HazardLamp) {
        RacedHazardOffSafe(h.store, h.saved, c, gaps);
      } else {
        RacedHazardOnSafe(h.store, c, gaps);
      }
    } else if IsIndicator(c.function_) {
      RacedIndicatorSafe(h, c, gaps);
    } else {
      RacedSteadySafe(h, c, gaps);
    }
  }

  // ---------------------------------------------------------------------------------
  // Three threads
  // ---------------------------------------------------------------------------------

  /** The events of the two threads, where a command is handled with faults inside. */
  datatype RacedEvent = Post(payload: bytes) | TakeAmid(gaps: Gaps) | Between(op: FaultOp)

  function RacedNext(t: Threads, e: RacedEvent): Threads {
    match e
    case Post(payload) => Next(t, Arrive(payload))
    case TakeAmid(gaps) => if t.queue == [] then t else Threads(RacedStep(t.h, t.queue[0], gaps), t.queue[1..])
    case Between(op) => Next(t, Event.Hit(op))
  }

  function RacedRun(t: Threads, events: seq<RacedEvent>): Threads
    decreases |events|
  {
    if events == [] then t else RacedRun(RacedNext(t, events[0]), events[1..])
  }

  lemma {:induction false} RacedNextSafe(t: Threads, e: RacedEvent)
    requires Safe(t.h)
    ensures Safe(RacedNext(t, e).h)
  {
    hide Safe, RacedStep, Faulted, Posted;
    match e
    case Post(payload) =>
    case TakeAmid(gaps) => if t.queue != [] { RacedStepSafe(t.h, t.queue[0], gaps); }
    case Between(op) => FaultedSafe(t.h, op);
  }

  /**
    The indicators stay exclusive under every interleaving of the receive thread, the
    command thread and a diagnostic thread that takes no lock.
   */
  lemma {:induction false} RacedThreadsKeepSafe(t: Threads, events: seq<RacedEvent>)
    requires Safe(t.h)
    ensures Safe(RacedRun(t, events).h)
    decreases |events|
  {
    hide Safe, RacedNext;
    if events == [] {
    } else {
      RacedNextSafe(t, events[0]);
      RacedThreadsKeepSafe(RacedNext(t, events[0]), events[1..]);
    }
  }

  /** The same events with no fault inside a handler. */
  function Unraced(e: RacedEvent): Event {
    match e
    case Post(payload) => Arrive(payload)
    case TakeAmid(_) => Take
    case Between(op) => Event.Hit(op)
  }

  function AllUnraced(events: seq<RacedEvent>): (es: seq<Event>)
    ensures |es| == |events|
  {
    seq(|events|, i requires 0 <= i < |events| => Unraced(events[i]))
  }

  /** Without faults inside handlers these are the two threads. */
  lemma {:induction false} NoRaces(t: Threads, events: seq<RacedEvent>)
    requires forall e | e in events && e.TakeAmid? :: e.gaps == []
    ensures RacedRun(t, events) == Run(t, AllUnraced(events))
    decreases |events|
  {
    hide RacedStep, ZephyrStep, Faulted, Posted;
    if events == [] {
    } else {
      var e := events[0];
      assert e in events && forall d | d in events[1..] :: d in events;
      if e.TakeAmid? && t.queue != [] {
        NoRace(t.h, t.queue[0]);
      }
      assert AllUnraced(events)[1..] == AllUnraced(events[1..]);
      NoRaces(RacedNext(t, e), events[1..]);
    }
  }

  // ---------------------------------------------------------------------------------
  // Inside the lamp store
  // ---------------------------------------------------------------------------------

  /** `ApplyCommand` with faults between its guard and its write. */
  function RacedApply(l: Lamps, c: LampCommand, ops: seq<FaultOp>): Lamps {
    var l1 := Disturbed(l, ops);
    if !Known(c.function_) || Refused(l, c) then l1
    else
      var output := Commanded(c.action, l1.Get(c.function_).outputState);
      l1.Put(c.function_, LampStatus(c.function_, output, true, c.sequenceCounter))
  }

  /** The guard let an activation pass, and the faults then left the lamp faulted. */
  predicate FaultedTooLate(l: Lamps, c: LampCommand, ops: seq<FaultOp>) {
    && Known(c.function_) && !Refused(l, c)
    && (c.action == Activate || c.action == Toggle)
    && c.function_ in Disturbed(l, ops).faults
  }

  lemma {:induction false} DisturbedIsInterlocked(l: Lamps, ops: seq<FaultOp>)
    requires Interlocked(l)
    ensures Interlocked(Disturbed(l, ops))
    decreases |ops|
  {
    hide Interlocked, Disturb;
    if ops == [] {
    } else {
      DisturbShows(l, ops[0], LeftIndicator);
      DisturbedIsInterlocked(Disturb(l, ops[0]), ops[1..]);
    }
  }

  /**
    The fault interlock is not proof against a fault that lands between the guard and the
    write: exactly then a faulted lamp is lit.
   */
  lemma {:induction false} RacedInterlockIff(l: Lamps, c: LampCommand, ops: seq<FaultOp>)
    requires Interlocked(l)
    ensures Interlocked(RacedApply(l, c, ops)) <==> !FaultedTooLate(l, c, ops)
  {
    DisturbedIsInterlocked(l, ops);
    var f, l1 := c.function_, Disturbed(l, ops);
    hide Disturbed, Interlocked, Refused, Lamps.Get, Lamps.Put;
    if Known(f) {
      SoundAt(l1, f);
      PutKeepsInterlock(l1, f, LampStatus(f, Commanded(c.action, l1.Get(f).outputState), true, c.sequenceCounter));
    }
  }

  lemma PutKeepsInterlock(l: Lamps, f: LampFunction, st: LampStatus)
    requires Interlocked(l) && Known(f) && st.function_ == f && (st.outputState == Off || st.outputState == On)
    ensures Interlocked(l.Put(f, st)) <==> (f in l.faults ==> st.outputState == Off)
  {
  }

  lemma RacedInterlockBroken(c: LampCommand)
    requires IsIndicator(c.function_) && c.action == Activate
    ensures var l := RacedApply(PowerUp(), c, [FaultOp.Inject(c.function_)]);
            l.IsOn(c.function_) && c.function_ in l.faults
  {
    var op := FaultOp.Inject(c.function_);
    assert [op][1..] == [];
    assert Disturbed(PowerUp(), [op]) == Disturbed(Disturb(PowerUp(), op), [op][1..]);
  }
}
