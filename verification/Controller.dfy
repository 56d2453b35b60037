/**
  The central zone controller: it arbitrates requests against a cache that the node's
  status events feed, and sends what is left of them.
 */
module Controller {

  import opened Bytes
  import opened LampTypes
  import opened Arbitrator

  /** The last reported status of each lamp, by slot. */
  type Cache = c: seq<LampStatus> | |c| == 5 witness seq(5, i => LampStatus(UnknownFunction, UnknownState, false, 0))

  /** Before the first event, a slot knows its lamp and nothing else. */
  function EmptyCache(): Cache {
    seq(5, i requires 0 <= i < 5 => LampStatus(ALL_FUNCTIONS[i], UnknownState, false, 0))
  }

  function Updated(cache: Cache, st: LampStatus): Cache {
    if Known(st.function_) then cache[IndexOf(st.function_) := st] else cache
  }

  predicate Active(cache: Cache, f: LampFunction) {
    Known(f) && cache[IndexOf(f)].outputState == On
  }

  function ContextOf(cache: Cache): Context {
    Context(Active(cache, LeftIndicator), Active(cache, RightIndicator), Active(cache, HazardLamp),
            Active(cache, ParkLamp), Active(cache, HeadLamp))
  }

  class LampStateManager {
    const lampStatusCache: array<LampStatus>

    ghost predicate Valid()
    {
      lampStatusCache.Length == 5
    }

    ghost function View(): Cache
      requires Valid()
      reads lampStatusCache
    {
      lampStatusCache[..]
    }

    constructor ()
      ensures Valid() && fresh(lampStatusCache) && View() == EmptyCache()
    {
      lampStatusCache :=
        new LampStatus[5](i requires 0 <= i < 5 => LampStatus(ALL_FUNCTIONS[i], UnknownState, false, 0));
    }

    method UpdateLampStatus(st: LampStatus) returns (updated: bool)
      requires Valid()
      modifies lampStatusCache
      ensures View() == Updated(old(View()), st) && updated == Known(st.function_)
    {
      if !Known(st.function_) {
        return false;
      }
      lampStatusCache[IndexOf(st.function_)] := st;
      return true;
    }

    method GetArbitrationContext() returns (ctx: Context)
      requires Valid()
      ensures ctx == ContextOf(View())
    {
      return Context(IsFunctionActive(LeftIndicator), IsFunctionActive(RightIndicator),
                     IsFunctionActive(HazardLamp), IsFunctionActive(ParkLamp), IsFunctionActive(HeadLamp));
    }

    predicate IsFunctionActive(f: LampFunction)
      requires Valid()
      reads lampStatusCache
      ensures IsFunctionActive(f) == Active(View(), f)
    {
      Known(f) && lampStatusCache[IndexOf(f)].outputState == On
    }
  }

  // ---------------------------------------------------------------------------------
  // Sending
  // ---------------------------------------------------------------------------------

  datatype ServiceStatus = Success | NotInitialized | NotAvailable | InvalidArgument | TransportError

  datatype ControllerStatus = Done | Uninitialized | Invalid | Refused | Unavailable | ServiceError

  function ConvertServiceStatus(s: ServiceStatus): ControllerStatus {
    match s
    case Success => Done
    case NotInitialized => Uninitialized
    case NotAvailable => Unavailable
    case InvalidArgument => Invalid
    case TransportError => ServiceError
  }

  /** What the service answers to the `i`-th send; `link` lists the answers that matter. */
  function Answer(link: seq<ServiceStatus>, i: nat): ServiceStatus {
    if i < |link| then link[i] else Success
  }

  /** How many of `n` sends go out: the first failure is the last attempt. */
  function SentOf(n: nat, link: seq<ServiceStatus>): (m: nat)
    ensures m <= n
    ensures forall i | 0 <= i < m :: Answer(link, i) == Success
    ensures m < n ==> Answer(link, m) != Success
  {
    if n == 0 then 0
    else
      var m := SentOf(n - 1, link);
      if m == n - 1 && Answer(link, m) == Success then n else m
  }

  lemma SentIsUnique(n: nat, link: seq<ServiceStatus>, m: nat)
    requires m <= n && (forall i | 0 <= i < m :: Answer(link, i) == Success)
    requires m < n ==> Answer(link, m) != Success
    ensures SentOf(n, link) == m
  {
    var k := SentOf(n, link);
    if k < m {
      assert false;
    }
  }

  datatype ControllerState = ControllerState(
    initialized: bool, nextSequence: bv16, cached: Cache, arbitration: Cache)

  function PowerUp(): ControllerState {
    ControllerState(false, 1, EmptyCache(), EmptyCache())
  }

  /** The 16-bit counter wraps to zero. */
  function NextSequence(n: bv16): bv16 {
    n + 1
  }

  /** `SendLampCommand`: the new state, the commands that went out, and the status. */
  function Send(s: ControllerState, f: LampFunction, action: Action, source: Source, link: seq<ServiceStatus>):
    (ControllerState, seq<LampCommand>, ControllerStatus)
  {
    if !s.initialized then (s, [], Uninitialized)
    else if f == UnknownFunction || action == NoAction then (s, [], Invalid)
    else
      var decision := Arbitrate(LampCommand(f, action, source, s.nextSequence), ContextOf(s.arbitration));
      var s' := s.(nextSequence := NextSequence(s.nextSequence));
      if decision.result == Rejected then (s', [], Refused)
      else
        var n := SentOf(|decision.commands|, link);
        (s', decision.commands[..n],
         if n == |decision.commands| then Done else ConvertServiceStatus(Answer(link, n)))
  }

  function Initialized(s: ControllerState, status: ServiceStatus): ControllerState {
    s.(initialized := status == Success)
  }

  function Receive(s: ControllerState, st: LampStatus): ControllerState {
    s.(cached := Updated(s.cached, st), arbitration := Updated(s.arbitration, st))
  }

  /** The service consumer, reduced to the commands that it put on the network. */
  class ServiceConsumer {
    var sent: seq<LampCommand>

    constructor ()
      ensures sent == []
    {
      sent := [];
    }

    method SendLampCommand(c: LampCommand, answer: ServiceStatus) returns (status: ServiceStatus)
      modifies this
      ensures status == answer
      ensures sent == if answer == Success then old(sent) + [c] else old(sent)
    {
      if answer == Success {
        sent := sent + [c];
      }
      return answer;
    }
  }

  /** An observer, reduced to the lamp statuses that it was told. */
  class StatusObserver {
    var told: seq<LampStatus>

    constructor ()
      ensures told == []
    {
      told := [];
    }

    method OnLampStatusReceived(st: LampStatus)
      modifies this
      ensures told == old(told) + [st]
    {
      told := told + [st];
    }
  }

  class CentralZoneController {
    const consumer: ServiceConsumer
    var statusObserver: StatusObserver?
    const lampStateManager: LampStateManager
    const cachedLampStatuses: array<LampStatus>
    var isInitialized: bool
    var nextSequenceCounter: bv16

    ghost predicate Valid()
    {
      && lampStateManager.Valid()
      && cachedLampStatuses.Length == 5
      && cachedLampStatuses != lampStateManager.lampStatusCache
    }

    ghost function View(): ControllerState
      requires Valid()
      reads this, cachedLampStatuses, lampStateManager.lampStatusCache
    {
      ControllerState(isInitialized, nextSequenceCounter, cachedLampStatuses[..], lampStateManager.View())
    }

    constructor (consumer: ServiceConsumer)
      ensures Valid() && this.consumer == consumer && View() == PowerUp() && statusObserver == null
    {
      this.consumer := consumer;
      var manager := new LampStateManager();
      lampStateManager := manager;
      cachedLampStatuses :=
        new LampStatus[5](i requires 0 <= i < 5 => LampStatus(ALL_FUNCTIONS[i], UnknownState, false, 0));
      isInitialized, nextSequenceCounter, statusObserver := false, 1, null;
    }

    /** `status` is what the service consumer answers. */
    method Initialize(status: ServiceStatus) returns (answer: ControllerStatus)
      requires Valid()
      modifies this`isInitialized
      ensures View() == Initialized(old(View()), status) && (answer == Done <==> isInitialized)
    {
      isInitialized := status == Success;
      answer := ConvertServiceStatus(status);
    }

    method SendLampCommand(f: LampFunction, action: Action, source: Source, link: seq<ServiceStatus>)
      returns (status: ControllerStatus)
      requires Valid()
      modifies this`nextSequenceCounter, consumer
      ensures Valid()
      ensures var (s, commands, answer) := Send(old(View()), f, action, source, link);
              View() == s && consumer.sent == old(consumer.sent) + commands && status == answer
    {
      hide Arbitrate, ContextOf, SentOf, NextSequence;
      if !isInitialized {
        return Uninitialized;
      }
      if f == UnknownFunction {
        return Invalid;
      }
      if action == NoAction {
        return Invalid;
      }
      var c := LampCommand(f, action, source, nextSequenceCounter);
      nextSequenceCounter := NextSequence(nextSequenceCounter);
      var ctx := lampStateManager.GetArbitrationContext();
      var decision := Arbitrate(c, ctx);
      if decision.result == Rejected {
        return Refused;
      }
      var answer := SendDecision(decision.commands, link);
      status := ConvertServiceStatus(answer);
    }

    /** The send loop. */
    method SendDecision(commands: seq<LampCommand>, link: seq<ServiceStatus>) returns (status: ServiceStatus)
      modifies consumer
      ensures var n := SentOf(|commands|, link);
              && consumer.sent == old(consumer.sent) + commands[..n]
              && status == if n == |commands| then Success else Answer(link, n)
    {
      status := Success;
      for i := 0 to |commands|
        invariant status == Success
        invariant consumer.sent == old(consumer.sent) + commands[..i]
        invariant forall k | 0 <= k < i :: Answer(link, k) == Success
      {
        status := consumer.SendLampCommand(commands[i], Answer(link, i));
        if status != Success {
          SentIsUnique(|commands|, link, i);
          return;
        }
      }
      SentIsUnique(|commands|, link, |commands|);
    }

    method OnLampStatusReceived(st: LampStatus)
      requires Valid()
      modifies cachedLampStatuses, lampStateManager.lampStatusCache, statusObserver
      ensures View() == Receive(old(View()), st)
      ensures statusObserver != null ==> statusObserver.told == old(statusObserver.told) + [st]
    {
      var index := IndexOf(st.function_);
      if index < cachedLampStatuses.Length {
        cachedLampStatuses[index] := st;
      }
      var _ := lampStateManager.UpdateLampStatus(st);
      if statusObserver != null {
        statusObserver.OnLampStatusReceived(st);
      }
    }
  }
}
