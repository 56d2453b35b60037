/**
  The controller's requests over every run: what each sends, which counter it carries, and
  what the caller is told.
 */
module ControllerRuns {

  import opened Bytes
  import opened LampTypes
  import opened Arbitrator
  import opened Controller

  // ---------------------------------------------------------------------------------
  // One request
  // ---------------------------------------------------------------------------------

  /** The request passes the checks before arbitration, so that a command is made for it. */
  predicate Passes(s: ControllerState, f: LampFunction, action: Action) {
    s.initialized && f != UnknownFunction && action != NoAction
  }

  /** Arbitration turns it down: a value is out of range, or hazard blocks an indicator. */
  predicate TurnedDown(s: ControllerState, f: LampFunction, action: Action, source: Source) {
    || f == OutOfRangeFunction || action == OutOfRangeAction || source == OutOfRangeSource
    || (IsIndicator(f) && (action == Activate || action == Toggle) && Active(s.arbitration, HazardLamp))
  }

  /** The other indicator has to go off first. */
  predicate NeedsRoom(s: ControllerState, f: LampFunction, action: Action) {
    IsIndicator(f) && (action == Activate || action == Toggle)
    && Active(s.arbitration, if f == LeftIndicator then RightIndicator else LeftIndicator)
  }

  /** The lamps that the commands of a request are for, in order, and what is asked of them. */
  function Asked(s: ControllerState, f: LampFunction, action: Action): seq<(LampFunction, Action)> {
    if f == HazardLamp then
      var resolved := if action != Toggle then action
                      else if Active(s.arbitration, HazardLamp) then Deactivate else Activate;
      [(HazardLamp, resolved), (LeftIndicator, resolved), (RightIndicator, resolved)]
    else if NeedsRoom(s, f, action) then
      [(if f == LeftIndicator then RightIndicator else LeftIndicator, Deactivate), (f, Activate)]
    else [(f, action)]
  }

  /**
    What a request sends while the link is up: nothing if it is turned down, and otherwise
    all that was asked for, each command with the request's source and the one counter.
   */
  lemma RequestSends(s: ControllerState, f: LampFunction, action: Action, source: Source, i: nat)
    ensures var commands := Send(s, f, action, source, []).1;
            && (commands != [] <==> Passes(s, f, action) && !TurnedDown(s, f, action, source))
            && (commands != [] ==> |commands| == |Asked(s, f, action)|)
            && (i < |commands| ==>
                  commands[i] == LampCommand(Asked(s, f, action)[i].0, Asked(s, f, action)[i].1, source,
                                             s.nextSequence))
  {
    var n := |Arbitrate(LampCommand(f, action, source, s.nextSequence), ContextOf(s.arbitration)).commands|;
    SentIsUnique(n, [], n);
    hide SentOf, Active, NextSequence;
  }

  /**
    The answer to a request, and what a link that fails at send `k` lets through: the
    commands before it, and its status for an answer.
   */
  lemma RequestAnswer(s: ControllerState, f: LampFunction, action: Action, source: Source,
      link: seq<ServiceStatus>, k: nat)
    requires k < |link| && link[k] != ServiceStatus.Success
    requires forall i | 0 <= i < k :: link[i] == ServiceStatus.Success
    ensures var (_, commands, answer) := Send(s, f, action, source, link);
            var all := Send(s, f, action, source, []).1;
            && (!s.initialized ==> answer == Uninitialized && commands == [])
            && (s.initialized && !Passes(s, f, action) ==> answer == Invalid && commands == [])
            && (Passes(s, f, action) && TurnedDown(s, f, action, source) ==> answer == Refused && commands == [])
            && (Passes(s, f, action) && !TurnedDown(s, f, action, source) ==>
                  if |all| <= k then answer == Done && commands == all
                  else
                    && commands == all[..k]
                    && (answer == Uninitialized <==> link[k] == ServiceStatus.NotInitialized)
                    && (answer == Unavailable <==> link[k] == ServiceStatus.NotAvailable)
                    && (answer == Invalid <==> link[k] == ServiceStatus.InvalidArgument)
                    && (answer == ServiceError <==> link[k] == ServiceStatus.TransportError))
  {
    var n := |Arbitrate(LampCommand(f, action, source, s.nextSequence), ContextOf(s.arbitration)).commands|;
    SentIsUnique(n, [], n);
    SentIsUnique(n, link, if k < n then k else n);
    hide SentOf, Active, NextSequence;
  }

  // ---------------------------------------------------------------------------------
  // Runs
  // ---------------------------------------------------------------------------------

  datatype Event =
    | Start(status: ServiceStatus)
    | Request(f: LampFunction, action: Action, source: Source, link: seq<ServiceStatus>)
    | Heard(st: LampStatus)

  function Next(s: ControllerState, e: Event): ControllerState {
    match e
    case Start(status) => Initialized(s, status)
    case Request(f, action, source, link) => Send(s, f, action, source, link).0
    case Heard(st) => Receive(s, st)
  }

  function After(s: ControllerState, events: seq<Event>): ControllerState
    decreases |events|
  {
    if events == [] then s else After(Next(s, events[0]), events[1..])
  }

  /** How many requests of a run have a command made for them. */
  function Numbered(s: ControllerState, events: seq<Event>): nat
    decreases |events|
  {
    if events == [] then 0
    else
      var e := events[0];
      (if e.Request? && Passes(s, e.f, e.action) then 1 else 0) + Numbered(Next(s, e), events[1..])
  }

  lemma {:induction false} NumberedAppend(s: ControllerState, events: seq<Event>, e: Event)
    ensures After(s, events + [e]) == Next(After(s, events), e)
    ensures Numbered(s, events + [e])
         == Numbered(s, events) + if e.Request? && Passes(After(s, events), e.f, e.action) then 1 else 0
    decreases |events|
  {
    hide Next, Passes;
    if events == [] {
      assert [e][1..] == [] && [] + [e] == [e];
      assert After(Next(s, e), [e][1..]) == Next(s, e) && Numbered(Next(s, e), [e][1..]) == 0;
    } else {
      assert (events + [e])[1..] == events[1..] + [e];
      NumberedAppend(Next(s, events[0]), events[1..], e);
    }
  }

  /** The counter as a number; it is all that a request changes, and only if it passes the checks. */
  lemma OneRequest(s: ControllerState, e: Event)
    ensures Number16(Next(s, e).nextSequence)
         == (Number16(s.nextSequence) + if e.Request? && Passes(s, e.f, e.action) then 1 else 0) % 0x1_0000
    ensures e.Request? ==> Next(s, e) == s.(nextSequence := Next(s, e).nextSequence)
  {
    hide Number16, Send;
    CountsUp(s.nextSequence);
    if e.Request? {
      OnlyTheCounter(s, e.f, e.action, e.source, e.link);
    }
    assert Number16(s.nextSequence) % 0x1_0000 == Number16(s.nextSequence);
  }

  lemma OnlyTheCounter(s: ControllerState, f: LampFunction, action: Action, source: Source,
      link: seq<ServiceStatus>)
    ensures Send(s, f, action, source, link).0
         == s.(nextSequence := if Passes(s, f, action) then s.nextSequence + 1 else s.nextSequence)
  {
    assert NextSequence(s.nextSequence) == s.nextSequence + 1;
    hide Arbitrate, SentOf, ContextOf, NextSequence, ConvertServiceStatus, Controller.Answer;
    if !Passes(s, f, action) {
      assert s.(nextSequence := s.nextSequence) == s;
    }
  }

  /**
    Numbering: after any run from power-up, the next command is given the number of the
    requests that passed the checks before it, plus one, modulo 2^16.
   */
  lemma {:induction false} RequestsAreNumbered(events: seq<Event>)
    ensures Number16(After(PowerUp(), events).nextSequence) == (1 + Numbered(PowerUp(), events)) % 0x1_0000
    decreases |events|
  {
    NumberOne();
    hide Next, Passes, Number16;
    if events == [] {
    } else {
      var n := |events| - 1;
      var before := events[..n];
      assert events == before + [events[n]];
      RequestsAreNumbered(before);
      NumberedAppend(PowerUp(), before, events[n]);
      OneRequest(After(PowerUp(), before), events[n]);
      Modulo(1 + Numbered(PowerUp(), before));
    }
  }

  lemma Modulo(n: nat)
    ensures (n % 0x1_0000 + 1) % 0x1_0000 == (n + 1) % 0x1_0000
    ensures n % 0x1_0000 % 0x1_0000 == n % 0x1_0000
  {
  }

  /** So every command of the request that follows carries that number. */
  lemma CommandsCarryTheNumber(events: seq<Event>, f: LampFunction, action: Action, source: Source, i: nat)
    ensures var s := After(PowerUp(), events);
            var commands := Send(s, f, action, source, []).1;
            i < |commands| ==>
              Number16(commands[i].sequenceCounter) == (1 + Numbered(PowerUp(), events)) % 0x1_0000
  {
    RequestsAreNumbered(events);
    RequestSends(After(PowerUp(), events), f, action, source, i);
    hide Send, After, Numbered;
  }

  // ---------------------------------------------------------------------------------
  // The cache
  // ---------------------------------------------------------------------------------

  /** The last status heard of lamp `f`; before the first one its state is unknown. */
  function LastHeard(events: seq<Event>, f: LampFunction): LampStatus {
    if events == [] then LampStatus(f, UnknownState, false, 0)
    else
      var n := |events| - 1;
      if events[n].Heard? && events[n].st.function_ == f then events[n].st else LastHeard(events[..n], f)
  }

  lemma {:induction false} AfterLast(s: ControllerState, events: seq<Event>)
    requires events != []
    ensures After(s, events) == Next(After(s, events[..|events| - 1]), events[|events| - 1])
  {
    var n := |events| - 1;
    assert events == events[..n] + [events[n]];
    NumberedAppend(s, events[..n], events[n]);
  }

  lemma OneEventCached(s: ControllerState, e: Event, f: LampFunction)
    requires Known(f)
    ensures var s' := Next(s, e);
            var heard := e.Heard? && e.st.function_ == f;
            && s'.cached[IndexOf(f)] == (if heard then e.st else s.cached[IndexOf(f)])
            && s'.arbitration[IndexOf(f)] == (if heard then e.st else s.arbitration[IndexOf(f)])
  {
    if e.Request? {
      OnlyTheCounter(s, e.f, e.action, e.source, e.link);
    }
    hide Send;
  }

  /** After any run, both caches hold for each lamp what was heard of it last. */
  lemma {:induction false} CachesHoldLastHeard(events: seq<Event>, f: LampFunction)
    requires Known(f)
    ensures After(PowerUp(), events).cached[IndexOf(f)] == LastHeard(events, f)
    ensures After(PowerUp(), events).arbitration[IndexOf(f)] == LastHeard(events, f)
    decreases |events|
  {
    hide Next, After;
    if events == [] {
      assert After(PowerUp(), events) == PowerUp() by {
        AfterNothing(PowerUp());
      }
    } else {
      var n := |events| - 1;
      CachesHoldLastHeard(events[..n], f);
      AfterLast(PowerUp(), events);
      OneEventCached(After(PowerUp(), events[..n]), events[n], f);
    }
  }

  lemma AfterNothing(s: ControllerState)
    ensures After(s, []) == s
  {
  }
}
