/**
 * The two propagation flags of an event and what listeners do to them.
 * A listener may call `stopPropagation` or `stopImmediatePropagation` on the
 * event it receives, or neither; both flags are one-way latches.
 */
module Propagation {

  /** What one registered listener does to the event object it is handed. */
  datatype Action = NoOp | Stop | StopImmediate

  /** `isPropagationStopped` and `isImmediatePropagationStopped`. */
  datatype Flags = Flags(propagationStopped: bool, immediateStopped: bool)

  /** The flags of a newly constructed event. */
  const Fresh := Flags(false, false)

  /** An immediate stop always comes with a propagation stop. */
  predicate Consistent(f: Flags) {
    f.immediateStopped ==> f.propagationStopped
  }

  /** The effect of one listener on the flags. */
  function ApplyAction(f: Flags, a: Action): (r: Flags)
    ensures f.propagationStopped ==> r.propagationStopped
    ensures f.immediateStopped ==> r.immediateStopped
    ensures Consistent(f) ==> Consistent(r)
    ensures a == NoOp ==> r == f
    ensures a == Stop ==> r.propagationStopped && r.immediateStopped == f.immediateStopped
    ensures a == StopImmediate ==> r.propagationStopped && r.immediateStopped
  {
    match a
    case NoOp => f
    case Stop => f.(propagationStopped := true)
    case StopImmediate => Flags(true, true)
  }

  /** The flags after the listeners `acts` have run, in registration order. */
  function ApplyAll(f: Flags, acts: seq<Action>): (r: Flags)
    ensures f.propagationStopped ==> r.propagationStopped
    ensures f.immediateStopped ==> r.immediateStopped
    ensures Consistent(f) ==> Consistent(r)
    decreases |acts|
  {
    if acts == [] then f
    else ApplyAction(ApplyAll(f, acts[..|acts| - 1]), acts[|acts| - 1])
  }

  /** Some listener in `acts` stops propagation (plainly or immediately). */
  predicate HasStopper(acts: seq<Action>) {
    Stop in acts || StopImmediate in acts
  }

  /** Some listener in `acts` stops propagation immediately. */
  predicate HasImmediate(acts: seq<Action>) {
    StopImmediate in acts
  }

  /**
   * Running a list of listeners sets a flag exactly when it was already set
   * or some listener sets it: nothing else raises a flag and nothing lowers one.
   */
  lemma {:induction false} ApplyAllStops(f: Flags, acts: seq<Action>)
    ensures ApplyAll(f, acts).propagationStopped <==> f.propagationStopped || HasStopper(acts)
    ensures ApplyAll(f, acts).immediateStopped <==> f.immediateStopped || HasImmediate(acts)
    decreases |acts|
  {
    if acts != [] {
      var init := acts[..|acts| - 1];
      ApplyAllStops(f, init);
      assert acts == init + [acts[|acts| - 1]];
      assert forall a :: a in acts <==> a in init || a == acts[|acts| - 1];
    }
  }
}
