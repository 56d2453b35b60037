/**
  The two threads of the Zephyr node: one receives datagrams and posts commands to a
  bounded queue, the other takes them.  Every interleaving of the two is a run of the
  command handler over the commands that found room, in order.
 */
module NodeQueue {

  import opened Bytes
  import opened LampTypes
  import opened Faults
  import opened FunctionManager
  import opened SomeIp
  import opened NodeHandlers
  import opened NodeRuns

  datatype Threads = Threads(h: Handler, queue: seq<LampCommand>)

  datatype Event = Arrive(payload: bytes) | Take | Hit(op: FaultOp)

  function Next(t: Threads, e: Event): Threads {
    match e
    case Arrive(payload) => t.(queue := Posted(t.queue, payload))
    case Take => if t.queue == [] then t else Threads(ZephyrStep(t.h, t.queue[0]), t.queue[1..])
    case Hit(op) => t.(h := Faulted(t.h, op))
  }

  function Run(t: Threads, events: seq<Event>): Threads
    decreases |events|
  {
    if events == [] then t else Run(Next(t, events[0]), events[1..])
  }

  /** What one event does to the handler, as the operations of a run. */
  function Served(t: Threads, e: Event): seq<NodeOp> {
    match e
    case Arrive(_) => []
    case Take => if t.queue == [] then [] else [Receive(BuildLampCommand(t.queue[0]))]
    case Hit(op) => [Fault(op)]
  }

  function AllServed(t: Threads, events: seq<Event>): seq<NodeOp>
    decreases |events|
  {
    if events == [] then [] else Served(t, events[0]) + AllServed(Next(t, events[0]), events[1..])
  }

  /** The commands that one event posts. */
  function Kept(t: Threads, e: Event): seq<LampCommand> {
    if e.Arrive? && WellFormed(e.payload) && |t.queue| < QUEUE_DEPTH then [ParseLampCommand(e.payload)] else []
  }

  function AllKept(t: Threads, events: seq<Event>): seq<LampCommand>
    decreases |events|
  {
    if events == [] then [] else Kept(t, events[0]) + AllKept(Next(t, events[0]), events[1..])
  }

  /** The commands that one event takes. */
  function Taken(t: Threads, e: Event): seq<LampCommand> {
    if e.Take? && t.queue != [] then [t.queue[0]] else []
  }

  function AllTaken(t: Threads, events: seq<Event>): seq<LampCommand>
    decreases |events|
  {
    if events == [] then [] else Taken(t, events[0]) + AllTaken(Next(t, events[0]), events[1..])
  }

  predicate Sound(t: Threads) {
    |t.queue| <= QUEUE_DEPTH && forall c | c in t.queue :: IsValidLampCommand(c)
  }

  lemma PostedCommandIsWellFormed(c: LampCommand)
    requires IsValidLampCommand(c)
    ensures WellFormed(BuildLampCommand(c)) && ParseLampCommand(BuildLampCommand(c)) == c
  {
    LampCommandRoundTrip(c);
    assert |BuildLampCommand(c)| == 5;
    hide ParseLampCommand, BuildLampCommand;
  }

  lemma NextIsServed(t: Threads, e: Event)
    requires Sound(t)
    ensures Sound(Next(t, e)) && Next(t, e).h == ZephyrRun(t.h, Served(t, e))
    ensures forall op | op in Served(t, e) && op.Receive? :: WellFormed(op.payload)
  {
    hide ZephyrStep, ParseLampCommand, BuildLampCommand, Faulted;
    if e.Take? && t.queue != [] {
      PostedCommandIsWellFormed(t.queue[0]);
      RunOfOne(t.h, Receive(BuildLampCommand(t.queue[0])));
    } else if e.Hit? {
      RunOfOne(t.h, Fault(e.op));
    }
  }

  lemma RunOfOne(h: Handler, op: NodeOp)
    ensures ZephyrRun(h, [op]) == ZephyrOp(h, op)
  {
    assert [op][1..] == [];
  }

  lemma {:induction false} ZephyrRunConcat(h: Handler, a: seq<NodeOp>, b: seq<NodeOp>)
    ensures ZephyrRun(h, a + b) == ZephyrRun(ZephyrRun(h, a), b)
    decreases |a|
  {
    hide ZephyrOp;
    if a == [] {
      assert a + b == b;
    } else {
      assert (a + b)[1..] == a[1..] + b;
      ZephyrRunConcat(ZephyrOp(h, a[0]), a[1..], b);
    }
  }

  /**
    Every interleaving of the two threads, and of faults, leaves the handler as one run over
    well-formed commands does.
   */
  lemma {:induction false} ThreadsRefineRun(t: Threads, events: seq<Event>)
    requires Sound(t)
    ensures Sound(Run(t, events)) && Run(t, events).h == ZephyrRun(t.h, AllServed(t, events))
    ensures forall op | op in AllServed(t, events) && op.Receive? :: WellFormed(op.payload)
    decreases |events|
  {
    assert ZephyrRun(t.h, []) == t.h;
    hide Sound, Next, Served, ZephyrRun, WellFormed;
    if events == [] {
    } else {
      NextIsServed(t, events[0]);
      ThreadsRefineRun(Next(t, events[0]), events[1..]);
      ZephyrRunConcat(t.h, Served(t, events[0]), AllServed(Next(t, events[0]), events[1..]));
    }
  }

  /** The queue neither loses, nor duplicates, nor reorders a command that it has taken in. */
  lemma {:induction false} QueueIsFifo(t: Threads, events: seq<Event>)
    ensures AllTaken(t, events) + Run(t, events).queue == t.queue + AllKept(t, events)
    decreases |events|
  {
    hide Next, Taken, Kept;
    if events == [] {
    } else {
      var e, t' := events[0], Next(t, events[0]);
      QueueIsFifo(t', events[1..]);
      OneEventIsFifo(t, e);
      Balance(Taken(t, e), t'.queue, t.queue, Kept(t, e), AllTaken(t', events[1..]), Run(t', events[1..]).queue,
               AllKept(t', events[1..]));
    }
  }

  /** Two balances make one. */
  lemma Balance<T>(taken: seq<T>, middle: seq<T>, queue: seq<T>, kept: seq<T>, later: seq<T>, left: seq<T>,
      more: seq<T>)
    requires taken + middle == queue + kept && later + left == middle + more
    ensures (taken + later) + left == queue + (kept + more)
  {
    assert (taken + later) + left == taken + (later + left);
    assert taken + (middle + more) == (taken + middle) + more;
  }

  lemma OneEventIsFifo(t: Threads, e: Event)
    ensures Taken(t, e) + Next(t, e).queue == t.queue + Kept(t, e)
  {
    hide WellFormed, ZephyrStep, Faulted, ParseLampCommand;
  }

  function CommandOf(op: NodeOp): seq<LampCommand> {
    if op.Receive? then [ParseLampCommand(op.payload)] else []
  }

  /** The commands among the operations of a run. */
  function CommandsOf(ops: seq<NodeOp>): seq<LampCommand>
    decreases |ops|
  {
    if ops == [] then [] else CommandOf(ops[0]) + CommandsOf(ops[1..])
  }

  lemma {:induction false} CommandsConcat(a: seq<NodeOp>, b: seq<NodeOp>)
    ensures CommandsOf(a + b) == CommandsOf(a) + CommandsOf(b)
    decreases |a|
  {
    hide CommandOf;
    if a == [] {
      assert a + b == b && [] + CommandsOf(b) == CommandsOf(b);
    } else {
      assert (a + b)[0] == a[0] && (a + b)[1..] == a[1..] + b;
      CommandsConcat(a[1..], b);
      Associative(CommandOf(a[0]), CommandsOf(a[1..]), CommandsOf(b));
    }
  }

  lemma Associative<T>(x: seq<T>, y: seq<T>, z: seq<T>)
    ensures x + (y + z) == (x + y) + z
  {
  }

  lemma ServedIsTaken(t: Threads, e: Event)
    requires Sound(t)
    ensures CommandsOf(Served(t, e)) == Taken(t, e)
  {
    hide ParseLampCommand, BuildLampCommand, WellFormed;
    assert CommandsOf([]) == [];
    if e.Take? && t.queue != [] {
      PostedCommandIsWellFormed(t.queue[0]);
      assert Served(t, e)[1..] == [];
    }
  }

  lemma {:induction false} ServedAreTaken(t: Threads, events: seq<Event>)
    requires Sound(t)
    ensures CommandsOf(AllServed(t, events)) == AllTaken(t, events)
    decreases |events|
  {
    hide Sound, Next, Served, Taken;
    if events == [] {
    } else {
      NextIsServed(t, events[0]);
      ServedIsTaken(t, events[0]);
      ServedAreTaken(Next(t, events[0]), events[1..]);
      CommandsConcat(Served(t, events[0]), AllServed(Next(t, events[0]), events[1..]));
    }
  }

  /**
    The two threads refine the command handler: whatever the interleaving, there is a run of
    well-formed commands and faults that ends in the same handler state, and its commands,
    followed by those still queued, are those that found room, in order.
   */
  lemma ThreadsRefineHandler(t: Threads, events: seq<Event>)
    requires Sound(t)
    ensures exists ops: seq<NodeOp> ::
              && (forall op | op in ops && op.Receive? :: WellFormed(op.payload))
              && Run(t, events).h == ZephyrRun(t.h, ops)
              && CommandsOf(ops) + Run(t, events).queue == t.queue + AllKept(t, events)
  {
    hide *;
    ThreadsRefineRun(t, events);
    ServedAreTaken(t, events);
    QueueIsFifo(t, events);
    var ops := AllServed(t, events);
    assert Run(t, events).h == ZephyrRun(t.h, ops);
  }

  /** So the indicators stay exclusive under every interleaving. */
  lemma ThreadsKeepSafe(t: Threads, events: seq<Event>)
    requires Sound(t) && Safe(t.h)
    ensures Safe(Run(t, events).h)
  {
    hide *;
    ThreadsRefineRun(t, events);
    IndicatorExclusivity(t.h, AllServed(t, events));
  }

  // ---------------------------------------------------------------------------------
  // Bursts
  // ---------------------------------------------------------------------------------

  function Arrivals(payloads: seq<bytes>): (events: seq<Event>)
    ensures |events| == |payloads|
  {
    seq(|payloads|, i requires 0 <= i < |payloads| => Arrive(payloads[i]))
  }

  function WellFormedOnes(payloads: seq<bytes>): seq<LampCommand>
    decreases |payloads|
  {
    if payloads == [] then []
    else
      (if WellFormed(payloads[0]) then [ParseLampCommand(payloads[0])] else []) + WellFormedOnes(payloads[1..])
  }

  function FirstOf(n: int, commands: seq<LampCommand>): seq<LampCommand> {
    if n <= 0 then [] else if |commands| <= n then commands else commands[..n]
  }

  /**
    What a burst leaves in the queue while the command thread does not run: the well-formed
    commands, up to the room there is.  Two hazard fan-outs fit into an empty queue.
   */
  lemma {:induction false} BurstFillsQueue(t: Threads, payloads: seq<bytes>)
    requires |t.queue| <= QUEUE_DEPTH
    ensures Run(t, Arrivals(payloads))
         == t.(queue := t.queue + FirstOf(QUEUE_DEPTH - |t.queue|, WellFormedOnes(payloads)))
    decreases |payloads|
  {
    if payloads == [] {
    } else {
      var e := Arrive(payloads[0]);
      assert Arrivals(payloads)[0] == e && Arrivals(payloads)[1..] == Arrivals(payloads[1..]);
      PostedThenRest(t.queue, payloads);
      assert Next(t, e) == t.(queue := Posted(t.queue, payloads[0]));
      hide Posted, FirstOf, WellFormedOnes, Next, Arrivals;
      BurstFillsQueue(Next(t, e), payloads[1..]);
    }
  }

  lemma PostedThenRest(queue: seq<LampCommand>, payloads: seq<bytes>)
    requires |queue| <= QUEUE_DEPTH && payloads != []
    ensures |Posted(queue, payloads[0])| <= QUEUE_DEPTH
    ensures var queue' := Posted(queue, payloads[0]);
            queue' + FirstOf(QUEUE_DEPTH - |queue'|, WellFormedOnes(payloads[1..]))
            == queue + FirstOf(QUEUE_DEPTH - |queue|, WellFormedOnes(payloads))
  {
    var rest := WellFormedOnes(payloads[1..]);
    FirstOfCons(QUEUE_DEPTH - |queue|, payloads);
    var room := QUEUE_DEPTH - |queue|;
    if !WellFormed(payloads[0]) {
      assert Posted(queue, payloads[0]) == queue;
    } else if room == 0 {
      assert Posted(queue, payloads[0]) == queue;
      FirstOfNone(rest);
    } else {
      var c := ParseLampCommand(payloads[0]);
      assert Posted(queue, payloads[0]) == queue + [c];
      hide Posted, FirstOf, WellFormedOnes, WellFormed, ParseLampCommand;
      Regroup(queue, c, FirstOf(room - 1, rest));
    }
  }

  lemma Regroup(queue: seq<LampCommand>, c: LampCommand, rest: seq<LampCommand>)
    ensures (queue + [c]) + rest == queue + ([c] + rest)
  {
  }

  lemma FirstOfCons(room: nat, payloads: seq<bytes>)
    requires payloads != []
    ensures FirstOf(room, WellFormedOnes(payloads))
         == if !WellFormed(payloads[0]) then FirstOf(room, WellFormedOnes(payloads[1..]))
            else if room == 0 then []
            else [ParseLampCommand(payloads[0])] + FirstOf(room - 1, WellFormedOnes(payloads[1..]))
  {
    hide WellFormed, ParseLampCommand;
  }

  lemma FirstOfNone(commands: seq<LampCommand>)
    ensures FirstOf(0, commands) == []
  {
  }

  /** Two hazard fan-outs, and two more datagrams, fit into an empty queue, and no more do. */
  lemma EightFit(t: Threads, payloads: seq<bytes>)
    requires t.queue == [] && (forall p | p in payloads :: WellFormed(p))
    ensures |Run(t, Arrivals(payloads)).queue| == if |payloads| <= 8 then |payloads| else 8
  {
    BurstFillsQueue(t, payloads);
    AllWellFormed(payloads);
    hide Run, Arrivals, WellFormed, WellFormedOnes;
  }

  lemma {:induction false} AllWellFormed(payloads: seq<bytes>)
    requires forall p | p in payloads :: WellFormed(p)
    ensures |WellFormedOnes(payloads)| == |payloads|
    decreases |payloads|
  {
    hide WellFormed, ParseLampCommand;
    if payloads == [] {
    } else {
      assert payloads[0] in payloads && forall p | p in payloads[1..] :: p in payloads;
      AllWellFormed(payloads[1..]);
    }
  }

  /** What the dispatcher lets through, in bytes: five of them, the first three within their ranges. */
  lemma WellFormedIff(payload: bytes)
    ensures WellFormed(payload) <==> |payload| == 5 && payload[0] <= 5 && payload[1] <= 3 && payload[2] <= 3
  {
  }
}
