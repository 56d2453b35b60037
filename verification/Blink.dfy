/**
  The blink manager: lamp states become pin levels, on a millisecond clock that wraps at
  2^32.  The bare-metal and the Zephyr node run the same logic.
 */
module Blink {

  import opened Bytes
  import opened LampTypes
  import opened FunctionManager
  import NodeHandlers
  import NodeRuns

  const INDICATOR_ON_TIME: nat := 500
  const INDICATOR_OFF_TIME: nat := 500

  /** The values of the millisecond clock. */
  type Clock32 = t: nat | t < 0x1_0000_0000

  function Now(at: nat): (now: Clock32) {
    Wrap32(at)
  }

  /** Unsigned 32-bit subtraction. */
  function Elapsed(now: Clock32, start: Clock32): Clock32 {
    if now >= start then now - start else now + 0x1_0000_0000 - start
  }

  lemma ElapsedIsReal(start: nat, at: nat)
    requires start <= at < start + 0x1_0000_0000
    ensures Elapsed(Now(at), Now(start)) == at - start
  {
  }

  // ---------------------------------------------------------------------------------
  // One lamp
  // ---------------------------------------------------------------------------------

  datatype BlinkState = BlinkState(phaseOn: bool, phaseStart: Clock32, wasActive: bool)

  const INACTIVE := BlinkState(false, 0, false)

  /** The periods are positive; no more about them is used below. */
  function Period(on: bool): (p: nat)
    ensures p > 0
  {
    if on then INDICATOR_ON_TIME else INDICATOR_OFF_TIME
  }

  function Ticked(now: Clock32, st: BlinkState): BlinkState {
    if Elapsed(now, st.phaseStart) >= Period(st.phaseOn) then st.(phaseOn := !st.phaseOn, phaseStart := now) else st
  }

  function Driven(now: Clock32, on: bool, st: BlinkState): BlinkState {
    if !on then INACTIVE
    else if !st.wasActive then BlinkState(true, now, true)
    else Ticked(now, st)
  }

  // ---------------------------------------------------------------------------------
  // All lamps
  // ---------------------------------------------------------------------------------

  datatype Pins = Pins(left: bool, right: bool, hazard: bool, park: bool, head: bool)
  {
    function Level(f: LampFunction): bool {
      match f
      case LeftIndicator => left
      case RightIndicator => right
      case HazardLamp => hazard
      case ParkLamp => park
      case HeadLamp => head
      case _ => false
    }

    function Written(f: LampFunction, level: bool): Pins {
      match f
      case LeftIndicator => this.(left := level)
      case RightIndicator => this.(right := level)
      case HazardLamp => this.(hazard := level)
      case ParkLamp => this.(park := level)
      case HeadLamp => this.(head := level)
      case _ => this
    }
  }

  datatype Blinks = Blinks(left: BlinkState, right: BlinkState, hazard: BlinkState)
  {
    function Of(f: LampFunction): BlinkState {
      if f == LeftIndicator then left else if f == RightIndicator then right else hazard
    }
  }

  const DARK := Blinks(INACTIVE, INACTIVE, INACTIVE)

  /** While hazard is on, the two indicator states rest. */
  function NextBlinks(now: Clock32, l: Lamps, b: Blinks): Blinks {
    var hazard := Driven(now, l.IsOn(HazardLamp), b.hazard);
    if l.IsOn(HazardLamp) then b.(hazard := hazard)
    else Blinks(Driven(now, l.IsOn(LeftIndicator), b.left), Driven(now, l.IsOn(RightIndicator), b.right), hazard)
  }

  /** The levels that follow from the new blink states. */
  function Outputs(l: Lamps, b: Blinks): Pins {
    var phase := b.hazard.phaseOn;
    if l.IsOn(HazardLamp) then Pins(phase, phase, phase, l.IsOn(ParkLamp), l.IsOn(HeadLamp))
    else Pins(b.left.phaseOn, b.right.phaseOn, false, l.IsOn(ParkLamp), l.IsOn(HeadLamp))
  }

  class GpioOutputDriver {
    var pins: Pins

    constructor ()
      ensures pins == Pins(false, false, false, false, false)
    {
      pins := Pins(false, false, false, false, false);
    }

    method WriteLampOutput(f: LampFunction, level: bool)
      modifies this
      ensures pins == old(pins).Written(f, level)
    {
      pins := pins.Written(f, level);
    }
  }

  class BlinkManager {
    const gpio: GpioOutputDriver
    const fmgr: ExteriorLightingFunctionManager
    var leftBlink: BlinkState
    var rightBlink: BlinkState
    var hazardBlink: BlinkState

    ghost function View(): Blinks
      reads this
    {
      Blinks(leftBlink, rightBlink, hazardBlink)
    }

    constructor (gpio: GpioOutputDriver, fmgr: ExteriorLightingFunctionManager)
      ensures this.gpio == gpio && this.fmgr == fmgr && View() == DARK
    {
      this.gpio, this.fmgr := gpio, fmgr;
      leftBlink, rightBlink, hazardBlink := INACTIVE, INACTIVE, INACTIVE;
    }

    method ProcessMainLoop(now: Clock32)
      requires fmgr.Valid() && gpio as object !in fmgr.Repr && this as object !in fmgr.Repr
      modifies this, gpio
      ensures View() == NextBlinks(now, fmgr.lamps, old(View()))
      ensures gpio.pins == Outputs(fmgr.lamps, View())
    {
      hide ExteriorLightingFunctionManager.Valid, Ticked, Driven, Lamps.IsOn;
      DriveSignals(now);
      var parkOn := fmgr.IsOn(ParkLamp);
      gpio.WriteLampOutput(ParkLamp, parkOn);
      var headOn := fmgr.IsOn(HeadLamp);
      gpio.WriteLampOutput(HeadLamp, headOn);
    }

    /** The share of `ProcessMainLoop` that blinks. */
    method DriveSignals(now: Clock32)
      requires fmgr.Valid() && gpio as object !in fmgr.Repr && this as object !in fmgr.Repr
      modifies this, gpio
      ensures View() == NextBlinks(now, fmgr.lamps, old(View()))
      ensures gpio.pins == Outputs(fmgr.lamps, View()).(park := old(gpio.pins.park), head := old(gpio.pins.head))
    {
      hide ExteriorLightingFunctionManager.Valid, Ticked, Lamps.IsOn;
      var hazardOn := fmgr.IsOn(HazardLamp);
      if hazardOn {
        if !hazardBlink.wasActive {
          hazardBlink := BlinkState(true, now, true);
        } else {
          hazardBlink := Tick(now, hazardBlink);
        }
        var phase := hazardBlink.phaseOn;
        gpio.WriteLampOutput(HazardLamp, phase);
        gpio.WriteLampOutput(LeftIndicator, phase);
        gpio.WriteLampOutput(RightIndicator, phase);
      } else {
        hazardBlink := INACTIVE;
        gpio.WriteLampOutput(HazardLamp, false);
        leftBlink := DriveIndicator(now, LeftIndicator, leftBlink);
        rightBlink := DriveIndicator(now, RightIndicator, rightBlink);
      }
    }

    method Tick(now: Clock32, state: BlinkState) returns (next: BlinkState)
      ensures next == Ticked(now, state)
    {
      next := state;
      var period := if state.phaseOn then INDICATOR_ON_TIME else INDICATOR_OFF_TIME;
      if Elapsed(now, state.phaseStart) >= period {
        next := next.(phaseOn := !state.phaseOn, phaseStart := now);
      }
    }

    method DriveIndicator(now: Clock32, f: LampFunction, state: BlinkState) returns (next: BlinkState)
      requires fmgr.Valid() && gpio as object !in fmgr.Repr
      modifies gpio
      ensures next == Driven(now, fmgr.lamps.IsOn(f), state)
      ensures gpio.pins == old(gpio.pins).Written(f, next.phaseOn)
    {
      var on := fmgr.IsOn(f);
      if on {
        if !state.wasActive {
          next := BlinkState(true, now, true);
        } else {
          next := Tick(now, state);
        }
        gpio.WriteLampOutput(f, next.phaseOn);
      } else {
        next := INACTIVE;
        gpio.WriteLampOutput(f, false);
      }
    }
  }

  // ---------------------------------------------------------------------------------
  // What the pins show
  // ---------------------------------------------------------------------------------

  /** A call of the manager: the real time, which never wraps, and the lamps it finds. */
  datatype Moment = Moment(at: nat, lamps: Lamps)

  /** The blink states after each of the moments. */
  function Play(b: Blinks, moments: seq<Moment>): (states: seq<Blinks>)
    ensures |states| == |moments|
  {
    if moments == [] then []
    else
      var n := |moments| - 1;
      var before := Play(b, moments[..n]);
      before + [NextBlinks(Now(moments[n].at), moments[n].lamps, if n == 0 then b else before[n - 1])]
  }

  lemma {:induction false} PlayAt(b: Blinks, moments: seq<Moment>, i: nat)
    requires i < |moments|
    ensures Play(b, moments)[i]
         == NextBlinks(Now(moments[i].at), moments[i].lamps, if i == 0 then b else Play(b, moments)[i - 1])
    decreases |moments|
  {
    hide NextBlinks;
    var n := |moments| - 1;
    if i == n {
    } else {
      PlayAt(b, moments[..n], i);
    }
  }

  /** The pins after each of the moments, from power-up. */
  function PinsAt(moments: seq<Moment>, i: nat): Pins
    requires i < |moments|
  {
    Outputs(moments[i].lamps, Play(DARK, moments)[i])
  }

  /**
    Both indicator pins are high exactly when the hazard pin is, provided the lamp store
    keeps the indicators exclusive.
   */
  lemma {:induction false} PinExclusivity(moments: seq<Moment>, i: nat)
    requires i < |moments| && NodeRuns.Exclusive(moments[i].lamps)
    ensures var pins := PinsAt(moments, i);
            && (pins.left && pins.right <==> pins.hazard)
            && (pins.hazard ==> moments[i].lamps.IsOn(HazardLamp))
  {
    hide Lamps.IsOn, Ticked;
    PlayAt(DARK, moments, i);
  }

  /**
    Park and head pins are steady; during hazard the three others are in phase; and outside
    hazard an indicator pin is high only for a lit indicator.
   */
  lemma {:induction false} PinsFollowLamps(moments: seq<Moment>, i: nat)
    requires i < |moments|
    ensures var l, pins := moments[i].lamps, PinsAt(moments, i);
            && pins.park == l.IsOn(ParkLamp) && pins.head == l.IsOn(HeadLamp)
            && (l.IsOn(HazardLamp) ==> pins.left == pins.right == pins.hazard)
            && (!l.IsOn(HazardLamp) ==>
                  !pins.hazard && (pins.left ==> l.IsOn(LeftIndicator)) && (pins.right ==> l.IsOn(RightIndicator)))
  {
    hide Lamps.IsOn, Ticked;
    PlayAt(DARK, moments, i);
  }

  /** So it is on both nodes, after any payloads and any faults. */
  lemma NodePinExclusivity(h: NodeHandlers.Handler, ops: seq<NodeRuns.NodeOp>, moments: seq<Moment>, i: nat)
    requires NodeRuns.Safe(h) && i < |moments|
    requires moments[i].lamps == NodeRuns.BareRun(h, ops).store.lamps
          || moments[i].lamps == NodeRuns.ZephyrRun(h, ops).store.lamps
    ensures var pins := PinsAt(moments, i); pins.left && pins.right <==> pins.hazard
  {
    NodeRuns.IndicatorExclusivity(h, ops);
    PinExclusivity(moments, i);
  }

  /** Whether the manager blinks `f` for its own sake, outside hazard for an indicator. */
  predicate Drives(l: Lamps, f: LampFunction) {
    l.IsOn(f) && (f == HazardLamp || !l.IsOn(HazardLamp))
  }

  /** Whether the manager sees `f` off, outside hazard. */
  predicate SeesOff(l: Lamps, f: LampFunction) {
    !l.IsOn(f) && !l.IsOn(HazardLamp)
  }

  predicate Blinking(f: LampFunction) {
    IsIndicator(f) || f == HazardLamp
  }

  /** Time does not run backwards, and no gap between two calls exceeds `gap`. */
  ghost predicate Paced(moments: seq<Moment>, gap: nat) {
    forall i | 0 < i < |moments| :: moments[i - 1].at <= moments[i].at <= moments[i - 1].at + gap
  }

  /** `f` turns on at moment `i`, after it was seen off or at power-up. */
  predicate TurnsOn(moments: seq<Moment>, f: LampFunction, i: nat)
    requires i < |moments|
  {
    Drives(moments[i].lamps, f) && (i == 0 || SeesOff(moments[i - 1].lamps, f))
  }

  /** The pin of `f` changes at moment `i`, in the middle of being driven. */
  predicate Toggles(moments: seq<Moment>, f: LampFunction, i: nat)
    requires 0 < i < |moments|
  {
    && Drives(moments[i - 1].lamps, f) && Drives(moments[i].lamps, f)
    && PinsAt(moments, i).Level(f) != PinsAt(moments, i - 1).Level(f)
  }

  predicate PhaseBegins(moments: seq<Moment>, f: LampFunction, i: nat)
    requires i < |moments|
  {
    TurnsOn(moments, f, i) || (i > 0 && Toggles(moments, f, i))
  }

  /** `f` is driven from moment `i` to moment `j`, and its pin does not change after `i` and before `j`. */
  ghost predicate HoldsUntil(moments: seq<Moment>, f: LampFunction, i: nat, j: nat)
    requires i <= j < |moments|
  {
    && (forall k | i <= k <= j :: Drives(moments[k].lamps, f))
    && (forall k | i < k < j :: !Toggles(moments, f, k))
  }

  lemma {:induction false} DrivenLevel(moments: seq<Moment>, f: LampFunction, i: nat)
    requires i < |moments| && Blinking(f) && Drives(moments[i].lamps, f)
    ensures PinsAt(moments, i).Level(f) == Play(DARK, moments)[i].Of(f).phaseOn
    ensures Play(DARK, moments)[i].Of(f)
         == Driven(Now(moments[i].at), true, if i == 0 then INACTIVE else Play(DARK, moments)[i - 1].Of(f))
  {
    hide Lamps.IsOn, Driven;
    PlayAt(DARK, moments, i);
  }

  lemma {:induction false} SeenOff(moments: seq<Moment>, f: LampFunction, i: nat)
    requires i < |moments| && Blinking(f) && SeesOff(moments[i].lamps, f)
    ensures Play(DARK, moments)[i].Of(f) == INACTIVE
  {
    hide Lamps.IsOn, Ticked;
    PlayAt(DARK, moments, i);
  }

  /** A phase that begins at `i` is dated `i`. */
  lemma {:induction false} PhaseIsDated(moments: seq<Moment>, f: LampFunction, i: nat)
    requires i < |moments| && Blinking(f) && PhaseBegins(moments, f, i)
    ensures var st := Play(DARK, moments)[i].Of(f);
            && st.phaseStart == Now(moments[i].at) && st.wasActive
            && st.phaseOn == PinsAt(moments, i).Level(f)
            && (TurnsOn(moments, f, i) ==> st.phaseOn)
  {
    hide Lamps.IsOn, Play, PinsAt, Now;
    DrivenLevel(moments, f, i);
    if i > 0 {
      if SeesOff(moments[i - 1].lamps, f) {
        SeenOff(moments, f, i - 1);
      } else {
        DrivenLevel(moments, f, i - 1);
      }
    }
  }

  /** The state of `f` at moment `i` says that the present phase began at the real time `s`. */
  ghost predicate Dated(moments: seq<Moment>, f: LampFunction, i: nat, s: nat)
    requires i < |moments|
  {
    && Drives(moments[i].lamps, f) && s <= moments[i].at
    && Play(DARK, moments)[i].Of(f) == BlinkState(PinsAt(moments, i).Level(f), Now(s), true)
  }

  /** While the pin holds, the state keeps its date, and the phase is younger than a period. */
  lemma {:induction false} PhaseHolds(moments: seq<Moment>, f: LampFunction, gap: nat, s: nat, i: nat, j: nat)
    requires i <= j < |moments| && Blinking(f) && Dated(moments, f, i, s)
    requires moments[i].at < s + Period(PinsAt(moments, i).Level(f))
    requires Paced(moments, gap) && Period(true) + gap <= 0x1_0000_0000 && Period(false) + gap <= 0x1_0000_0000
    requires HoldsUntil(moments, f, i, j) && (i < j ==> !Toggles(moments, f, j))
    ensures Dated(moments, f, j, s) && PinsAt(moments, j).Level(f) == PinsAt(moments, i).Level(f)
    ensures moments[i].at <= moments[j].at < s + Period(PinsAt(moments, i).Level(f))
    decreases j
  {
    hide Lamps.IsOn, Play, PinsAt, Now, Drives, Period;
    if i == j {
    } else {
      PhaseHolds(moments, f, gap, s, i, j - 1);
      DrivenLevel(moments, f, j);
      ElapsedIsReal(s, moments[j].at);
    }
  }

  /** A phase dated `s` ends a period after `s`, to within one gap. */
  lemma {:induction false} PhaseEnds(moments: seq<Moment>, f: LampFunction, gap: nat, s: nat, i: nat, j: nat)
    requires i < j < |moments| && Blinking(f) && Dated(moments, f, i, s)
    requires moments[i].at < s + Period(PinsAt(moments, i).Level(f))
    requires Paced(moments, gap) && Period(true) + gap <= 0x1_0000_0000 && Period(false) + gap <= 0x1_0000_0000
    requires HoldsUntil(moments, f, i, j)
    ensures var age := moments[j].at - s;
            var period := Period(PinsAt(moments, i).Level(f));
            if Toggles(moments, f, j) then period <= age < period + gap else age < period
  {
    hide Lamps.IsOn, Play, PinsAt, Now, Drives, Period;
    if Toggles(moments, f, j) {
      PhaseHolds(moments, f, gap, s, i, j - 1);
      DrivenLevel(moments, f, j);
      ElapsedIsReal(s, moments[j].at);
    } else {
      PhaseHolds(moments, f, gap, s, i, j);
    }
  }

  /**
    Blink timing across clock wraps: a phase that begins at `i` lasts at least one period,
    and less than one period and one gap; and as long as the pin has not changed, it is
    younger than one period.
   */
  lemma {:induction false} BlinkTiming(moments: seq<Moment>, f: LampFunction, gap: nat, i: nat, j: nat)
    requires i < j < |moments| && Blinking(f) && PhaseBegins(moments, f, i)
    requires Paced(moments, gap) && Period(true) + gap <= 0x1_0000_0000 && Period(false) + gap <= 0x1_0000_0000
    requires HoldsUntil(moments, f, i, j)
    ensures var age := moments[j].at - moments[i].at;
            var period := Period(PinsAt(moments, i).Level(f));
            if Toggles(moments, f, j) then period <= age < period + gap else age < period
  {
    hide Lamps.IsOn, Play, PinsAt, Now, Drives, Period;
    PhaseIsDated(moments, f, i);
    PhaseEnds(moments, f, gap, moments[i].at, i, j);
  }

  /** The first pulse after turning on is a full on pulse. */
  lemma {:induction false} FirstPulseIsFull(moments: seq<Moment>, f: LampFunction, gap: nat, i: nat, j: nat)
    requires i < j < |moments| && Blinking(f) && TurnsOn(moments, f, i)
    requires Paced(moments, gap) && Period(true) + gap <= 0x1_0000_0000 && Period(false) + gap <= 0x1_0000_0000
    requires HoldsUntil(moments, f, i, j)
    ensures PinsAt(moments, i).Level(f)
    ensures !PinsAt(moments, j).Level(f) ==> moments[j].at - moments[i].at >= Period(true)
  {
    hide Lamps.IsOn, Play, PinsAt, Now, Drives, Period;
    PhaseIsDated(moments, f, i);
    if !Toggles(moments, f, j) {
      PhaseHolds(moments, f, gap, moments[i].at, i, j);
    } else {
      BlinkTiming(moments, f, gap, i, j);
    }
  }

  // ---------------------------------------------------------------------------------
  // Phases that hazard interrupts
  // ---------------------------------------------------------------------------------

  /** Hazard is on at every moment after `k` and before `i`, and there is one. */
  ghost predicate HazardBetween(moments: seq<Moment>, k: nat, i: nat)
    requires k < i <= |moments|
  {
    k + 1 < i && forall m | k < m < i :: moments[m].lamps.IsOn(HazardLamp)
  }

  /** The state of an indicator rests for as long as hazard is on. */
  lemma {:induction false} RestsUnderHazard(moments: seq<Moment>, f: LampFunction, k: nat, i: nat)
    requires k < i <= |moments| && IsIndicator(f)
    requires forall m | k < m < i :: moments[m].lamps.IsOn(HazardLamp)
    ensures Play(DARK, moments)[i - 1].Of(f) == Play(DARK, moments)[k].Of(f)
    decreases i
  {
    hide Lamps.IsOn, Play, Driven;
    if k + 1 == i {
    } else {
      RestsUnderHazard(moments, f, k, i - 1);
      PlayAt(DARK, moments, i - 1);
    }
  }

  /**
    An indicator that was in a phase dated `s` when hazard came on, and is driven again from
    moment `i`.  Its clock went on meanwhile, modulo 2^32: if a period had passed on that
    clock, a whole phase of the other level begins; if not, the old phase goes on, and what
    is left of it is all that is seen.
   */
  lemma {:induction false} PhaseAfterHazard(moments: seq<Moment>, f: LampFunction, s: nat, k: nat, i: nat)
    requires k < i < |moments| && IsIndicator(f) && Dated(moments, f, k, s)
    requires HazardBetween(moments, k, i) && Drives(moments[i].lamps, f)
    requires s <= moments[i].at
    ensures var passed := Wrap32(moments[i].at - s);
            var level := PinsAt(moments, k).Level(f);
            var over := passed >= Period(level);
            && PinsAt(moments, i).Level(f) == (if over then !level else level)
            && Dated(moments, f, i, moments[i].at - if over then 0 else passed)
  {
    hide Lamps.IsOn, Play, PinsAt, Drives, Period;
    RestsUnderHazard(moments, f, k, i);
    DrivenLevel(moments, f, i);
    ElapsedWraps(s, moments[i].at);
  }

  lemma ElapsedWraps(start: nat, at: nat)
    requires start <= at
    ensures Elapsed(Now(at), Now(start)) == Wrap32(at - start) <= at - start
    ensures Now(at - Wrap32(at - start)) == Now(start)
  {
  }

  lemma {:induction false} TimePasses(moments: seq<Moment>, gap: nat, k: nat, i: nat)
    requires k <= i < |moments| && Paced(moments, gap)
    ensures moments[k].at <= moments[i].at
    decreases i
  {
    if k == i {
    } else {
      TimePasses(moments, gap, k, i - 1);
    }
  }

  /**
    When the first phase after hazard is shorter than a period: exactly when less than a
    period had passed since it began, and then by as much as had passed.
   */
  lemma {:induction false} ResumedPhase(moments: seq<Moment>, f: LampFunction, gap: nat, s: nat, k: nat, i: nat,
      j: nat)
    requires k < i < j < |moments| && IsIndicator(f) && Dated(moments, f, k, s) && HazardBetween(moments, k, i)
    requires Paced(moments, gap) && Period(true) + gap <= 0x1_0000_0000 && Period(false) + gap <= 0x1_0000_0000
    requires HoldsUntil(moments, f, i, j)
    ensures var passed := Elapsed(Now(moments[i].at), Now(s));
            var level := PinsAt(moments, k).Level(f);
            var rest := if passed < Period(level) then Period(level) - passed else Period(!level);
            var age := moments[j].at - moments[i].at;
            if Toggles(moments, f, j) then rest <= age < rest + gap else age < rest
  {
    hide Lamps.IsOn, Play, PinsAt, Drives, Period, Toggles, Wrap32, Elapsed;
    TimePasses(moments, gap, k, i);
    PhaseAfterHazard(moments, f, s, k, i);
    ElapsedWraps(s, moments[i].at);
    var passed := Wrap32(moments[i].at - s);
    var level := PinsAt(moments, k).Level(f);
    PhaseEnds(moments, f, gap, moments[i].at - if passed >= Period(level) then 0 else passed, i, j);
  }

  /** An indicator that was off before hazard, and is lit after it, starts with a full on pulse. */
  lemma {:induction false} FullPulseAfterHazard(moments: seq<Moment>, f: LampFunction, gap: nat, k: nat, i: nat, j: nat)
    requires k < i < j < |moments| && IsIndicator(f) && SeesOff(moments[k].lamps, f) && HazardBetween(moments, k, i)
    requires Paced(moments, gap) && Period(true) + gap <= 0x1_0000_0000 && Period(false) + gap <= 0x1_0000_0000
    requires HoldsUntil(moments, f, i, j)
    ensures PinsAt(moments, i).Level(f)
    ensures var age := moments[j].at - moments[i].at;
            if Toggles(moments, f, j) then Period(true) <= age < Period(true) + gap else age < Period(true)
  {
    hide Lamps.IsOn, Play, PinsAt, Drives, Period, Toggles;
    RestsUnderHazard(moments, f, k, i);
    SeenOff(moments, f, k);
    DrivenLevel(moments, f, i);
    PhaseEnds(moments, f, gap, moments[i].at, i, j);
  }

  // ---------------------------------------------------------------------------------
  // The rate
  // ---------------------------------------------------------------------------------

  /** In milliseconds: called at least every 20, each phase lasts 500 and less than 520. */
  lemma {:induction false} BlinkRate(moments: seq<Moment>, f: LampFunction, i: nat, j: nat)
    requires i < j < |moments| && Blinking(f) && PhaseBegins(moments, f, i)
    requires Paced(moments, 20) && HoldsUntil(moments, f, i, j) && Toggles(moments, f, j)
    ensures 500 <= moments[j].at - moments[i].at < 520
  {
    BlinkTiming(moments, f, 20, i, j);
    hide Paced, HoldsUntil, Toggles, PhaseBegins, PinsAt;
  }
}
