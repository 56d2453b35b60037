/**
  Putting frames on the wire, over a `send` that may take less than it was given.
 */
module DoipSender {

  import opened Bytes
  import opened DoipFraming

  /**
    The outgoing half of a socket: what is on the wire, and how many bytes each of the
    next calls of `send` takes.  A count of zero or less is an error; behind the plan,
    every call takes everything.
   */
  datatype Out = Out(plan: seq<int>, wire: bytes)

  function Push(o: Out, data: bytes): (Out, bool)
    decreases |data|
  {
    if data == [] then (o, true)
    else if o.plan == [] then (o.(wire := o.wire + data), true)
    else if o.plan[0] <= 0 then (o.(plan := o.plan[1..]), false)
    else
      var n := if o.plan[0] < |data| then o.plan[0] else |data|;
      Push(Out(o.plan[1..], o.wire + data[..n]), data[n..])
  }

  lemma {:induction false} PushStep(o: Out, data: bytes)
    ensures Push(o, []) == (o, true)
    ensures data != [] ==>
              if o.plan == [] then Push(o, data) == Push(o.(wire := o.wire + data), [])
              else if o.plan[0] <= 0 then Push(o, data) == (o.(plan := o.plan[1..]), false)
              else
                var n := if o.plan[0] < |data| then o.plan[0] else |data|;
                Push(o, data) == Push(Out(o.plan[1..], o.wire + data[..n]), data[n..])
  {
  }

  predicate Healthy(o: Out) {
    forall p | p in o.plan :: p > 0
  }

  /** Short sends do not matter, only failing ones do. */
  lemma {:induction false} PushWhole(o: Out, data: bytes)
    requires Healthy(o)
    ensures var (o', ok) := Push(o, data); ok && Healthy(o') && o'.wire == o.wire + data
    decreases |data|
  {
    if data == [] {
      assert o.wire + [] == o.wire;
    } else if o.plan != [] {
      assert o.plan[0] in o.plan && forall p | p in o.plan[1..] :: p in o.plan;
      var n := if o.plan[0] < |data| then o.plan[0] else |data|;
      PushWhole(Out(o.plan[1..], o.wire + data[..n]), data[n..]);
      assert data == data[..n] + data[n..];
    }
  }

  // ---------------------------------------------------------------------------------
  // Frames in two pieces
  // ---------------------------------------------------------------------------------

  datatype NodeKind = Linux | Zephyr | BareMetal

  /** One call that has to take everything; `tcp_write` takes all or nothing. */
  function SendOnce(node: NodeKind, o: Out, data: bytes): (Out, bool) {
    if o.plan == [] then (o.(wire := o.wire + data), true)
    else if o.plan[0] <= 0 || (node == BareMetal && o.plan[0] < |data|) then (o.(plan := o.plan[1..]), false)
    else
      var n := if o.plan[0] < |data| then o.plan[0] else |data|;
      (Out(o.plan[1..], o.wire + data[..n]), n == |data|)
  }

  /** The embedded nodes send header and payload apart, and take a short send for a failure. */
  function SendPieces(node: NodeKind, o: Out, f: Frame): (Out, bool) {
    var (o1, ok) := SendOnce(node, o, Header(f));
    if !ok || f.payload == [] then (o1, ok) else SendOnce(node, o1, f.payload)
  }

  // ---------------------------------------------------------------------------------
  // The three nodes
  // ---------------------------------------------------------------------------------

  function SendFrame(node: NodeKind, o: Out, f: Frame): (Out, bool) {
    if node == Linux then Push(o, BuildFrame(f)) else SendPieces(node, o, f)
  }

  /** Whether every frame goes out: short sends hurt the embedded nodes only. */
  predicate Ready(node: NodeKind, o: Out) {
    if node == Linux then Healthy(o) else o.plan == []
  }

  lemma FrameGoesOut(node: NodeKind, o: Out, f: Frame)
    requires Ready(node, o)
    ensures var (o', ok) := SendFrame(node, o, f); ok && Ready(node, o') && o'.wire == o.wire + BuildFrame(f)
  {
    if node == Linux {
      PushWhole(o, BuildFrame(f));
    } else {
      hide Header;
      assert (o.wire + Header(f)) + f.payload == o.wire + BuildFrame(f);
    }
  }

  class Sender {
    var plan: seq<int>
    var wire: bytes

    constructor (plan: seq<int>)
      ensures View() == Out(plan, [])
    {
      this.plan, wire := plan, [];
    }

    ghost function View(): Out
      reads this
    {
      Out(plan, wire)
    }

    /** `send`: the number of bytes taken, or a failure. */
    method Send(data: bytes) returns (taken: int)
      requires data != []
      modifies this
      ensures taken <= |data|
      ensures plan == if old(plan) == [] then [] else old(plan)[1..]
      ensures if old(plan) == [] then taken == |data|
              else if old(plan)[0] <= 0 then taken <= 0
              else taken == if old(plan)[0] < |data| then old(plan)[0] else |data|
      ensures wire == if taken > 0 then old(wire) + data[..taken] else old(wire)
    {
      taken := |data|;
      if plan != [] {
        taken := if plan[0] < |data| then plan[0] else |data|;
        plan := plan[1..];
      }
      if taken > 0 {
        wire := wire + data[..taken];
      }
    }

    method SendAll(data: bytes) returns (ok: bool)
      modifies this
      ensures (View(), ok) == Push(old(View()), data)
    {
      hide Push;
      var sent := 0;
      while sent < |data|
        invariant sent <= |data|
        invariant Push(View(), data[sent..]) == Push(old(View()), data)
      {
        var rest := data[sent..];
        PushStep(View(), rest);
        var s := Send(rest);
        if s <= 0 {
          return false;
        }
        assert rest[s..] == data[sent + s..];
        assert rest[..|rest|] == rest && rest[|rest|..] == [];
        sent := sent + s;
      }
      assert data[sent..] == [];
      PushStep(View(), []);
      return true;
    }

    /** `SendDoipFrame` of the Zephyr node. */
    method SendDoipFrame(f: Frame) returns (ok: bool)
      modifies this
      ensures (View(), ok) == SendPieces(Zephyr, old(View()), f)
    {
      var header := Header(f);
      assert header[..|header|] == header && f.payload[..|f.payload|] == f.payload;
      hide Header;
      var sent := Send(header);
      if sent != HEADER_SIZE {
        return false;
      }
      if |f.payload| > 0 {
        sent := Send(f.payload);
        if sent != |f.payload| {
          return false;
        }
      }
      return true;
    }

    /** `tcp_write`, which queues all of the data or fails. */
    method TcpWrite(data: bytes) returns (ok: bool)
      modifies this
      ensures (View(), ok) == SendOnce(BareMetal, old(View()), data)
    {
      ok := plan == [] || !(plan[0] <= 0 || plan[0] < |data|);
      if plan != [] {
        plan := plan[1..];
      }
      assert data[..|data|] == data;
      if ok {
        wire := wire + data;
      }
    }
  }
}
