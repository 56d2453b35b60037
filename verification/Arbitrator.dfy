/**
  The controller's arbitration of one requested command against what it believes is lit.
 */
module Arbitrator {

  import opened LampTypes

  datatype Context = Context(left: bool, right: bool, hazard: bool, park: bool, head: bool)

  datatype Result = Accepted | Rejected | Modified

  datatype Decision = Decision(result: Result, commands: seq<LampCommand>)

  /** A toggle counts as an activation. */
  predicate IsActionKnownAndActive(a: Action) {
    a == Activate || a == Toggle
  }

  predicate IsCommandStructurallyAccepted(c: LampCommand) {
    IsValidLampCommand(c) && c.function_ != UnknownFunction && c.action != NoAction
  }

  function MakeDerived(c: LampCommand, f: LampFunction, action: Action): LampCommand {
    c.(function_ := f, action := action)
  }

  function ResolveHazardAction(c: LampCommand, ctx: Context): Action {
    if c.action == Toggle then (if ctx.hazard then Deactivate else Activate) else c.action
  }

  function Arbitrate(c: LampCommand, ctx: Context): Decision {
    if !IsCommandStructurallyAccepted(c) then Decision(Rejected, [])
    else if c.function_ == HazardLamp then
      var resolved := ResolveHazardAction(c, ctx);
      Decision(Accepted, [MakeDerived(c, HazardLamp, resolved), MakeDerived(c, LeftIndicator, resolved),
                          MakeDerived(c, RightIndicator, resolved)])
    else if ctx.hazard && IsIndicator(c.function_) && IsActionKnownAndActive(c.action) then
      Decision(Rejected, [])
    else if c.function_ == LeftIndicator && IsActionKnownAndActive(c.action) && ctx.right then
      Decision(Modified, [MakeDerived(c, RightIndicator, Deactivate), c.(action := Activate)])
    else if c.function_ == RightIndicator && IsActionKnownAndActive(c.action) && ctx.left then
      Decision(Modified, [MakeDerived(c, LeftIndicator, Deactivate), c.(action := Activate)])
    else
      Decision(Accepted, [c])
  }

  /**
    What the result says: the commands were modified if room had to be made for an indicator,
    and rejected if there are none.
   */
  lemma ResultTells(c: LampCommand, ctx: Context)
    ensures var d := Arbitrate(c, ctx);
            && (d.result == Rejected <==> d.commands == [])
            && (d.result == Rejected <==>
                  || c.function_ in {UnknownFunction, OutOfRangeFunction}
                  || c.action in {NoAction, OutOfRangeAction}
                  || c.source == OutOfRangeSource
                  || (ctx.hazard && IsIndicator(c.function_) && c.action in {Activate, Toggle}))
            && (d.result == Modified <==> |d.commands| == 2)
            && (d.result == Accepted <==> |d.commands| == 1 || |d.commands| == 3)
            && (|d.commands| == 3 <==> d.result != Rejected && c.function_ == HazardLamp)
  {
  }
}
