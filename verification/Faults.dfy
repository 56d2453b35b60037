/**
  The node's fault table: one flag per lamp, and the active fault codes compacted in the
  order in which the faults were injected.
 */
module Faults {

  import opened LampTypes

  // ---------------------------------------------------------------------------------
  // The table as an ordered list
  // ---------------------------------------------------------------------------------

  ghost predicate Distinct(order: seq<LampFunction>) {
    && (forall i | 0 <= i < |order| :: Known(order[i]))
    && (forall i, j | 0 <= i < j < |order| :: order[i] != order[j])
  }

  function Without(order: seq<LampFunction>, f: LampFunction): seq<LampFunction> {
    if order == [] then []
    else if order[0] == f then order[1..]
    else [order[0]] + Without(order[1..], f)
  }

  function WithInjected(order: seq<LampFunction>, f: LampFunction): seq<LampFunction> {
    if !Known(f) || f in order then order else order + [f]
  }

  function Codes(order: seq<LampFunction>): (codes: seq<FaultCode>)
    ensures |codes| == |order|
  {
    seq(|order|, i requires 0 <= i < |order| => FaultCodeOf(order[i]))
  }

  lemma {:induction false} WithoutAt(order: seq<LampFunction>, i: nat)
    requires i < |order| && Distinct(order)
    ensures Without(order, order[i]) == order[..i] + order[i + 1..]
  {
    if i == 0 {
      assert order[..0] + order[1..] == order[1..];
    } else {
      assert Distinct(order[1..]);
      WithoutAt(order[1..], i - 1);
      assert order[..i] + order[i + 1..] == [order[0]] + (order[1..][..i - 1] + order[1..][i..]);
    }
  }

  lemma RemoveAt(order: seq<LampFunction>, i: nat)
    requires i < |order| && Distinct(order)
    ensures var rest := order[..i] + order[i + 1..];
            Distinct(rest) && forall g :: g in rest <==> g in order && g != order[i]
  {
    var rest := order[..i] + order[i + 1..];
    assert forall j | 0 <= j < |rest| :: rest[j] == order[if j < i then j else j + 1];
    forall g | g in order && g != order[i]
      ensures g in rest
    {
      var j :| 0 <= j < |order| && order[j] == g;
      assert rest[if j < i then j else j - 1] == g;
    }
  }

  lemma WithoutMembers(order: seq<LampFunction>, f: LampFunction)
    requires Distinct(order)
    ensures Distinct(Without(order, f))
    ensures forall g :: g in Without(order, f) <==> g in order && g != f
  {
    hide Distinct, Without;
    if f in order {
      var i :| 0 <= i < |order| && order[i] == f;
      WithoutAt(order, i);
      RemoveAt(order, i);
    } else {
      WithoutAbsent(order, f);
    }
  }

  lemma {:induction false} WithoutAbsent(order: seq<LampFunction>, f: LampFunction)
    requires f !in order
    ensures Without(order, f) == order
  {
    if order == [] {
    } else {
      WithoutAbsent(order[1..], f);
    }
  }

  /** Five lamps cannot fill more than five slots. */
  lemma Pigeonhole(order: seq<LampFunction>)
    requires Distinct(order)
    ensures |order| <= 5
  {
    var members := set i | 0 <= i < |order| :: order[i];
    MembersCount(order);
    var all := {LeftIndicator, RightIndicator, HazardLamp, ParkLamp, HeadLamp};
    assert members <= all;
    SubsetSize(members, all);
  }

  lemma {:induction false} MembersCount(order: seq<LampFunction>)
    requires Distinct(order)
    ensures |set i | 0 <= i < |order| :: order[i]| == |order|
  {
    if order == [] {
    } else {
      var n := |order| - 1;
      var init := order[..n];
      MembersCount(init);
      var members := set i | 0 <= i < n :: init[i];
      assert (set i | 0 <= i < |order| :: order[i]) == members + {order[n]};
    }
  }

  lemma {:induction false} SubsetSize<T>(a: set<T>, b: set<T>)
    requires a <= b
    ensures |a| <= |b|
  {
    if a == {} {
    } else {
      var x :| x in a;
      SubsetSize(a - {x}, b - {x});
    }
  }

  lemma CodesDistinct(f: LampFunction, g: LampFunction)
    requires Known(f) && FaultCodeOf(f) == FaultCodeOf(g)
    ensures f == g
  {
  }

  // ---------------------------------------------------------------------------------
  // The class
  // ---------------------------------------------------------------------------------

  datatype FaultManagerStatus = Success | InvalidFunction | AlreadyFaulted | NotFaulted

  class FaultManager {
    const faulted: array<bool>
    const activeDtcs: array<FaultCode>
    var activeFaultCount: nat
    /** The faulted lamps, oldest fault first. */
    ghost var order: seq<LampFunction>

    ghost predicate Valid()
      reads this, faulted, activeDtcs
    {
      && faulted.Length == 5 && activeDtcs.Length == 5 && faulted as object != activeDtcs
      && Distinct(order)
      && activeFaultCount == |order| <= 5
      && activeDtcs[..activeFaultCount] == Codes(order)
      && (forall i | activeFaultCount <= i < 5 :: activeDtcs[i] == NO_FAULT)
      && (forall f | Known(f) :: faulted[IndexOf(f)] <==> f in order)
    }

    constructor ()
      ensures Valid() && order == []
      ensures fresh(faulted) && fresh(activeDtcs)
    {
      faulted := new bool[5](i => false);
      activeDtcs := new FaultCode[5](i => NO_FAULT);
      activeFaultCount := 0;
      order := [];
    }

    method InjectFault(f: LampFunction) returns (status: FaultManagerStatus)
      requires Valid()
      modifies this, faulted, activeDtcs
      ensures Valid()
      ensures order == WithInjected(old(order), f)
      ensures status == if !Known(f) then InvalidFunction
                        else if f in old(order) then AlreadyFaulted else Success
    {
      var index := IndexOf(f);
      if index >= faulted.Length {
        return InvalidFunction;
      }
      if faulted[index] {
        return AlreadyFaulted;
      }
      faulted[index] := true;
      ghost var longer := order + [f];
      assert Distinct(longer);
      Pigeonhole(longer);
      if activeFaultCount < activeDtcs.Length {
        activeDtcs[activeFaultCount] := FaultCodeOf(f);
        activeFaultCount := activeFaultCount + 1;
        order := longer;
      }
      assert activeDtcs[..activeFaultCount] == Codes(order);
      return Success;
    }

    method ClearFault(f: LampFunction) returns (status: FaultManagerStatus)
      requires Valid()
      modifies this, faulted, activeDtcs
      ensures Valid()
      ensures order == Without(old(order), f)
      ensures status == if !Known(f) then InvalidFunction
                        else if f in old(order) then Success else NotFaulted
    {
      var index := IndexOf(f);
      if index >= faulted.Length {
        WithoutAbsent(order, f);
        return InvalidFunction;
      }
      if !faulted[index] {
        WithoutAbsent(order, f);
        return NotFaulted;
      }
      faulted[index] := false;
      RemoveCode(f);
      return Success;
    }

    /** The table is valid but for the flag of `f`, which is already lowered. */
    ghost predicate ValidExcept(f: LampFunction)
      reads this, faulted, activeDtcs
    {
      && faulted.Length == 5 && activeDtcs.Length == 5 && faulted as object != activeDtcs
      && Distinct(order) && f in order
      && activeFaultCount == |order| <= 5
      && activeDtcs[..activeFaultCount] == Codes(order)
      && (forall i | activeFaultCount <= i < 5 :: activeDtcs[i] == NO_FAULT)
      && (forall g | Known(g) :: faulted[IndexOf(g)] <==> g in order && g != f)
    }

    /** The search loop of `ClearFault`. */
    method RemoveCode(f: LampFunction)
      requires ValidExcept(f)
      modifies this, activeDtcs
      ensures Valid() && order == Without(old(order), f)
    {
      var targetCode := FaultCodeOf(f);
      assert order[..|order|] == order;
      var i := 0;
      while i < activeFaultCount
        invariant i <= activeFaultCount
        invariant f !in order[..i]
        invariant ValidExcept(f) && order == old(order)
      {
        assert activeDtcs[i] == activeDtcs[..activeFaultCount][i] == FaultCodeOf(order[i]);
        if activeDtcs[i] == targetCode {
          CodesDistinct(order[i], f);
          RemoveSlot(i);
          return;
        }
        i := i + 1;
      }
      assert false;
    }

    method RemoveSlot(i: nat)
      requires i < |order| && ValidExcept(order[i])
      modifies this, activeDtcs
      ensures Valid() && order == Without(old(order), old(order[i]))
    {
      hide Without, Distinct, IndexOf;
      WithoutAt(order, i);
      RemoveAt(order, i);
      ghost var codes := activeDtcs[..activeFaultCount];
      assert activeDtcs[i + 1..activeFaultCount] == codes[i + 1..];
      ShiftLeft(i);
      order := order[..i] + order[i + 1..];
      assert activeDtcs[..activeFaultCount] == codes[..i] + codes[i + 1..] == Codes(order);
    }

    /** Closes the gap at slot `i`; the last slot in use becomes free. */
    method ShiftLeft(i: nat)
      requires activeDtcs.Length == 5 && i < activeFaultCount <= 5
      modifies this`activeFaultCount, activeDtcs
      ensures activeFaultCount == old(activeFaultCount) - 1
      ensures activeDtcs[..activeFaultCount]
           == old(activeDtcs[..i]) + old(activeDtcs[i + 1..activeFaultCount])
      ensures activeDtcs[activeFaultCount] == NO_FAULT
      ensures forall k | old(activeFaultCount) <= k < 5 :: activeDtcs[k] == old(activeDtcs[k])
    {
      var j := i;
      while j + 1 < activeFaultCount
        invariant i <= j < activeFaultCount == old(activeFaultCount)
        invariant forall k | 0 <= k < i :: activeDtcs[k] == old(activeDtcs[k])
        invariant forall k | i <= k < j :: activeDtcs[k] == old(activeDtcs[k + 1])
        invariant forall k | j < k < 5 :: activeDtcs[k] == old(activeDtcs[k])
      {
        activeDtcs[j] := activeDtcs[j + 1];
        j := j + 1;
      }
      activeDtcs[activeFaultCount - 1] := NO_FAULT;
      activeFaultCount := activeFaultCount - 1;
    }

    method ClearAllFaults()
      requires Valid()
      modifies this, faulted, activeDtcs
      ensures Valid() && order == []
    {
      forall i | 0 <= i < 5 {
        faulted[i] := false;
      }
      forall i | 0 <= i < 5 {
        activeDtcs[i] := NO_FAULT;
      }
      activeFaultCount := 0;
      order := [];
    }

    predicate IsFaulted(f: LampFunction)
      requires Valid()
      reads this, faulted, activeDtcs
      ensures IsFaulted(f) <==> Known(f) && f in order
    {
      var index := IndexOf(f);
      index < faulted.Length && faulted[index]
    }

    /** The snapshot that the diagnostic services encode. */
    method GetFaultStatus() returns (present: bool, count: nat, codes: seq<FaultCode>)
      requires Valid()
      ensures count == |order| <= 5 && (present <==> order != [])
      ensures |codes| == 5 && codes[..count] == Codes(order)
      ensures forall i | count <= i < 5 :: codes[i] == NO_FAULT
    {
      return activeFaultCount > 0, activeFaultCount, activeDtcs[..];
    }
  }

  // ---------------------------------------------------------------------------------
  // Runs
  // ---------------------------------------------------------------------------------

  datatype FaultOp = Inject(f: LampFunction) | Clear(f: LampFunction) | ClearAll

  function Perform(order: seq<LampFunction>, op: FaultOp): seq<LampFunction> {
    match op
    case Inject(f) => WithInjected(order, f)
    case Clear(f) => Without(order, f)
    case ClearAll => []
  }

  function PerformAll(ops: seq<FaultOp>): seq<LampFunction> {
    if ops == [] then [] else Perform(PerformAll(ops[..|ops| - 1]), ops[|ops| - 1])
  }

  /** Whether operation `i` injects `f`, and nothing clears `f` from then on. */
  ghost predicate StandsFrom(ops: seq<FaultOp>, f: LampFunction, i: nat) {
    && i < |ops| && ops[i] == Inject(f) && Known(f)
    && (forall k | i < k < |ops| :: ops[k] != Clear(f) && ops[k] != ClearAll)
  }

  /** The first operation from which the fault of `f` stands. */
  ghost predicate Since(ops: seq<FaultOp>, f: LampFunction, i: nat) {
    StandsFrom(ops, f, i) && forall k | 0 <= k < i :: !StandsFrom(ops, f, k)
  }

  /**
    After any run, the table lists exactly the lamps whose fault was injected and not
    cleared since, and lists them oldest first.
   */
  ghost predicate Chronicles(ops: seq<FaultOp>, order: seq<LampFunction>, since: seq<nat>) {
    && Distinct(order)
    && |since| == |order|
    && (forall j | 0 <= j < |order| :: Since(ops, order[j], since[j]))
    && (forall j, k | 0 <= j < k < |order| :: since[j] < since[k])
    && (forall f, i: nat | StandsFrom(ops, f, i) :: f in order)
  }

  lemma SinceExtends(ops: seq<FaultOp>, op: FaultOp, f: LampFunction, i: nat)
    requires i < |ops|
    ensures StandsFrom(ops + [op], f, i) <==> StandsFrom(ops, f, i) && op != Clear(f) && op != ClearAll
  {
    var longer := ops + [op];
    assert longer[|ops|] == op;
    if StandsFrom(longer, f, i) {
      forall k | i < k < |ops|
        ensures ops[k] != Clear(f) && ops[k] != ClearAll
      {
        assert longer[k] == ops[k];
      }
    }
  }

  lemma SinceKept(ops: seq<FaultOp>, op: FaultOp, f: LampFunction, i: nat)
    requires Since(ops, f, i) && op != Clear(f) && op != ClearAll
    ensures Since(ops + [op], f, i)
  {
    SinceExtends(ops, op, f, i);
    forall k | 0 <= k < i
      ensures !StandsFrom(ops + [op], f, k)
    {
      SinceExtends(ops, op, f, k);
    }
  }

  lemma {:induction false} FaultTableChronicle(ops: seq<FaultOp>) returns (since: seq<nat>)
    ensures Chronicles(ops, PerformAll(ops), since)
    decreases |ops|
  {
    if ops == [] {
      since := [];
    } else {
      var n := |ops| - 1;
      var before := ops[..n];
      var order := PerformAll(before);
      since := FaultTableChronicle(before);
      assert ops == before + [ops[n]];
      since := ChronicleStep(before, ops[n], order, since);
    }
  }

  lemma ChronicleStep(ops: seq<FaultOp>, op: FaultOp, order: seq<LampFunction>, since: seq<nat>)
    returns (since': seq<nat>)
    requires Chronicles(ops, order, since)
    ensures Chronicles(ops + [op], Perform(order, op), since')
  {
    assert |since| == |order|;
    hide Chronicles;
    match op
    case ClearAll =>
      since' := [];
      ClearAllStep(ops);
    case Clear(f) =>
      if f in order {
        var i :| 0 <= i < |order| && order[i] == f;
        since' := since[..i] + since[i + 1..];
        ClearStep(ops, order, since, i);
      } else {
        since' := since;
        NoChangeStep(ops, op, order, since);
        WithoutAbsent(order, f);
      }
    case Inject(f) =>
      if Known(f) && f !in order {
        since' := since + [|ops|];
        InjectStep(ops, f, order, since);
      } else {
        since' := since;
        NoChangeStep(ops, op, order, since);
      }
  }

  lemma ClearAllStep(ops: seq<FaultOp>)
    ensures Chronicles(ops + [ClearAll], [], [])
  {
    forall f, i: nat
      ensures !StandsFrom(ops + [ClearAll], f, i)
    {
      if i < |ops| {
        SinceExtends(ops, ClearAll, f, i);
      }
    }
  }

  /** Operations that concern no listed lamp, or inject one that is listed already. */
  lemma NoChangeStep(ops: seq<FaultOp>, op: FaultOp, order: seq<LampFunction>, since: seq<nat>)
    requires Chronicles(ops, order, since)
    requires (op.Clear? && op.f !in order) || (op.Inject? && (op.f in order || !Known(op.f)))
    ensures Chronicles(ops + [op], order, since)
  {
    hide Distinct, Since;
    forall j | 0 <= j < |order|
      ensures Since(ops + [op], order[j], since[j])
    {
      SinceKept(ops, op, order[j], since[j]);
    }
    forall f, i: nat | StandsFrom(ops + [op], f, i)
      ensures f in order
    {
      if i < |ops| {
        SinceExtends(ops, op, f, i);
      }
    }
  }

  lemma InjectStep(ops: seq<FaultOp>, f: LampFunction, order: seq<LampFunction>, since: seq<nat>)
    requires Chronicles(ops, order, since) && Known(f) && f !in order
    ensures Chronicles(ops + [Inject(f)], order + [f], since + [|ops|])
  {
    var longer := ops + [Inject(f)];
    forall j | 0 <= j < |order|
      ensures Since(longer, order[j], since[j])
    {
      SinceKept(ops, Inject(f), order[j], since[j]);
    }
    forall i: nat | i < |ops|
      ensures !StandsFrom(longer, f, i)
    {
      SinceExtends(ops, Inject(f), f, i);
    }
    assert StandsFrom(longer, f, |ops|);
    forall g, i: nat | StandsFrom(longer, g, i)
      ensures g in order + [f]
    {
      if i < |ops| {
        SinceExtends(ops, Inject(f), g, i);
      }
    }
  }

  lemma ClearStep(ops: seq<FaultOp>, order: seq<LampFunction>, since: seq<nat>, i: nat)
    requires Chronicles(ops, order, since) && i < |order|
    ensures Chronicles(ops + [Clear(order[i])], Without(order, order[i]), since[..i] + since[i + 1..])
  {
    hide Since, Without;
    var op := Clear(order[i]);
    var order', since' := order[..i] + order[i + 1..], since[..i] + since[i + 1..];
    WithoutAt(order, i);
    RemoveAt(order, i);
    forall j | 0 <= j < |order'|
      ensures Since(ops + [op], order'[j], since'[j])
    {
      var k := if j < i then j else j + 1;
      assert order'[j] == order[k] && since'[j] == since[k];
      SinceKept(ops, op, order[k], since[k]);
    }
    forall f, k: nat | StandsFrom(ops + [op], f, k)
      ensures f in order'
    {
      if k < |ops| {
        SinceExtends(ops, op, f, k);
      }
    }
  }
}
