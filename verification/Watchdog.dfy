/**
  The controller's watchdog over the lighting node.
 */
module Watchdog {

  const HEARTBEAT_TIMEOUT: nat := 2000

  datatype HealthState = Unknown | Operational | Degraded | Faulted | Unavailable | OutOfRange

  datatype NodeHealthStatus = NodeHealthStatus(
    healthState: HealthState, linkAvailable: bool, serviceAvailable: bool, driverFault: bool, faultCount: bv16)

  predicate IsValidNodeHealthStatus(st: NodeHealthStatus) {
    st.healthState != OutOfRange
  }

  datatype Monitor = Monitor(cached: NodeHealthStatus, sinceUpdate: nat, received: bool)

  const UNHEARD := Monitor(NodeHealthStatus(Unknown, false, false, false, 0), 0, false)

  function Update(m: Monitor, st: NodeHealthStatus): Monitor {
    if IsValidNodeHealthStatus(st) then Monitor(st, 0, true) else m
  }

  function SetService(m: Monitor, available: bool): Monitor {
    var cached := m.cached.(serviceAvailable := available);
    m.(cached := if !available && m.received then cached.(healthState := Unavailable) else cached)
  }

  function Elapse(m: Monitor, ms: nat): Monitor {
    if !m.received then m
    else
      var since := m.sinceUpdate + ms;
      var cached := if since < HEARTBEAT_TIMEOUT then m.cached
                    else m.cached.(healthState := Unavailable, serviceAvailable := false, linkAvailable := false);
      m.(cached := cached, sinceUpdate := since)
  }

  predicate Available(m: Monitor) {
    m.received && m.cached.healthState != Unavailable && m.cached.serviceAvailable && m.cached.linkAvailable
  }

  class NodeHealthMonitor {
    var cachedNodeHealthStatus: NodeHealthStatus
    var timeSinceLastHealthUpdate: nat
    var healthStatusReceived: bool

    ghost function View(): Monitor
      reads this
    {
      Monitor(cachedNodeHealthStatus, timeSinceLastHealthUpdate, healthStatusReceived)
    }

    constructor ()
      ensures View() == UNHEARD
    {
      cachedNodeHealthStatus := NodeHealthStatus(Unknown, false, false, false, 0);
      timeSinceLastHealthUpdate, healthStatusReceived := 0, false;
    }

    method UpdateNodeHealthStatus(st: NodeHealthStatus)
      modifies this
      ensures View() == Update(old(View()), st)
    {
      if !IsValidNodeHealthStatus(st) {
        return;
      }
      cachedNodeHealthStatus := st;
      timeSinceLastHealthUpdate := 0;
      healthStatusReceived := true;
    }

    method SetServiceAvailability(available: bool)
      modifies this
      ensures View() == SetService(old(View()), available)
    {
      cachedNodeHealthStatus := cachedNodeHealthStatus.(serviceAvailable := available);
      if !available && healthStatusReceived {
        cachedNodeHealthStatus := cachedNodeHealthStatus.(healthState := Unavailable);
      }
    }

    method ProcessMainLoop(elapsed: nat)
      modifies this
      ensures View() == Elapse(old(View()), elapsed)
    {
      if !healthStatusReceived {
        return;
      }
      timeSinceLastHealthUpdate := timeSinceLastHealthUpdate + elapsed;
      if timeSinceLastHealthUpdate >= HEARTBEAT_TIMEOUT {
        cachedNodeHealthStatus :=
          cachedNodeHealthStatus.(healthState := Unavailable, serviceAvailable := false, linkAvailable := false);
      }
    }

    method IsNodeAvailable() returns (available: bool)
      ensures available == Available(View())
    {
      return healthStatusReceived && cachedNodeHealthStatus.healthState != Unavailable
          && cachedNodeHealthStatus.serviceAvailable && cachedNodeHealthStatus.linkAvailable;
    }
  }

  // ---------------------------------------------------------------------------------
  // Traces
  // ---------------------------------------------------------------------------------

  datatype Event = Report(st: NodeHealthStatus) | Service(available: bool) | Pass(ms: nat)

  function Observe(m: Monitor, e: Event): Monitor {
    match e
    case Report(st) => Update(m, st)
    case Service(available) => SetService(m, available)
    case Pass(ms) => Elapse(m, ms)
  }

  function After(trace: seq<Event>): Monitor {
    if trace == [] then UNHEARD else Observe(After(trace[..|trace| - 1]), trace[|trace| - 1])
  }

  predicate Accepted(e: Event) {
    e.Report? && IsValidNodeHealthStatus(e.st)
  }

  /** The time that passes in a trace. */
  function TotalTime(trace: seq<Event>): nat {
    if trace == [] then 0
    else
      var e := trace[|trace| - 1];
      TotalTime(trace[..|trace| - 1]) + if e.Pass? then e.ms else 0
  }

  /** Event `i` is the last report that was accepted. */
  ghost predicate LastReport(trace: seq<Event>, i: nat) {
    i < |trace| && Accepted(trace[i]) && forall k | i < k < |trace| :: !Accepted(trace[k])
  }

  ghost predicate Lost(trace: seq<Event>, i: nat) {
    exists k | i < k < |trace| :: trace[k] == Service(false)
  }

  ghost predicate Offered(trace: seq<Event>, i: nat) {
    exists k | i < k < |trace| :: trace[k] == Service(true)
  }

  /** What one report and everything after it say for the node being available. */
  ghost predicate Sustains(trace: seq<Event>, i: nat) {
    && LastReport(trace, i)
    && trace[i].st.healthState != Unavailable
    && trace[i].st.linkAvailable
    && TotalTime(trace[i + 1..]) < HEARTBEAT_TIMEOUT
    && !Lost(trace, i)
    && (trace[i].st.serviceAvailable || Offered(trace, i))
  }

  lemma {:induction false} NothingHeard(trace: seq<Event>)
    requires forall k | 0 <= k < |trace| :: !Accepted(trace[k])
    ensures !After(trace).received && After(trace).sinceUpdate == 0
    ensures After(trace).cached.healthState == Unknown && !After(trace).cached.linkAvailable
    decreases |trace|
  {
    if trace == [] {
    } else {
      NothingHeard(trace[..|trace| - 1]);
    }
  }

  /** The monitor since its last report: a clock, and the report as long as nothing went wrong. */
  ghost predicate Follows(m: Monitor, trace: seq<Event>, i: nat)
    requires LastReport(trace, i)
  {
    var st := trace[i].st;
    && m.received
    && m.sinceUpdate == TotalTime(trace[i + 1..])
    && (if Lost(trace, i) || m.sinceUpdate >= HEARTBEAT_TIMEOUT then m.cached.healthState == Unavailable
        else
          && m.cached.healthState == st.healthState
          && m.cached.linkAvailable == st.linkAvailable
          && m.cached.serviceAvailable == (st.serviceAvailable || Offered(trace, i)))
    && (m.sinceUpdate >= HEARTBEAT_TIMEOUT ==> !m.cached.linkAvailable)
    && m.cached.driverFault == st.driverFault && m.cached.faultCount == st.faultCount
  }

  lemma {:induction false} FollowsLastReport(trace: seq<Event>, i: nat)
    requires LastReport(trace, i)
    ensures Follows(After(trace), trace, i)
    decreases |trace|
  {
    var n := |trace| - 1;
    var e := trace[n];
    var before := trace[..n];
    if i == n {
      assert trace[n + 1..] == [];
    } else {
      FollowsLastReport(before, i);
      assert trace[i + 1..][..n - i - 1] == before[i + 1..];
      assert trace[i + 1..][n - i - 1] == e;
      assert Lost(trace, i) <==> Lost(before, i) || e == Service(false);
      assert Offered(trace, i) <==> Offered(before, i) || e == Service(true);
    }
  }

  lemma {:induction false} FindLastReport(trace: seq<Event>) returns (heard: bool, i: nat)
    ensures heard ==> LastReport(trace, i)
    ensures !heard ==> forall k | 0 <= k < |trace| :: !Accepted(trace[k])
    decreases |trace|
  {
    if trace == [] {
      heard, i := false, 0;
    } else if Accepted(trace[|trace| - 1]) {
      heard, i := true, |trace| - 1;
    } else {
      heard, i := FindLastReport(trace[..|trace| - 1]);
    }
  }

  /**
    Watchdog: the node counts as available exactly when a report was accepted, less than
    the timeout has passed since the last one, that one was not `Unavailable` and had its
    link up, the latest service flag is true, and no loss of service was signalled since.
   */
  lemma WatchdogTrace(trace: seq<Event>)
    ensures Available(After(trace)) <==> exists i: nat :: Sustains(trace, i)
  {
    var heard, i := FindLastReport(trace);
    if heard {
      FollowsLastReport(trace, i);
      assert forall j: nat | LastReport(trace, j) :: j == i;
      assert Available(After(trace)) <==> Sustains(trace, i);
    } else {
      NothingHeard(trace);
    }
  }

  /**
    What the monitor reports of the lamps' faults is what the last accepted report said, and
    after two seconds without one everything else is given up.
   */
  lemma ReportedFaults(trace: seq<Event>, i: nat)
    requires LastReport(trace, i)
    ensures var cached := After(trace).cached;
            && cached.driverFault == trace[i].st.driverFault && cached.faultCount == trace[i].st.faultCount
            && (TotalTime(trace[i + 1..]) >= 2000 ==> cached.healthState == Unavailable && !cached.linkAvailable)
            && (TotalTime(trace[i + 1..]) < 2000 && !Lost(trace, i) ==> cached.healthState == trace[i].st.healthState)
  {
    FollowsLastReport(trace, i);
  }

  /** Only a report whose state is out of range is ignored. */
  lemma AcceptedIff(st: NodeHealthStatus)
    ensures Accepted(Report(st)) <==>
              st.healthState in {Unknown, Operational, Degraded, Faulted, Unavailable}
  {
  }
}
