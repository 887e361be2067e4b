/** The boot machines run on the super-loop engine, so its traces are theirs. */
module BootTrace {
  import opened BootImage
  import opened BootMachine
  import StateMachine

  /** The position of a state in the table of state descriptors. */
  function Number(s: State): (n: nat)
    ensures n < 10
  {
    match s
    case Init => 0
    case SetupPmp => 1
    case SetupPmpComplete => 2
    case ZeroInit => 3
    case Download => 4
    case OpenSbiInit => 5
    case Wait => 6
    case Complete => 7
    case Idle => 8
    case Error => 9
  }

  function Remembered(p: Previous): int {
    match p
    case Nothing => StateMachine.INVALID
    case Was(s) => Number(s)
  }

  /** One call as the engine sees it. */
  ghost function InputOf(img: Image, sys: System, h: nat, o: Oracle, start: nat, end: nat): StateMachine.Input
    requires img.Valid() && sys.Valid() && IsHart(h)
  {
    StateMachine.Input(Number(sys.M(h).state), Number(Hooks(img, sys.M(h), h, o).state), Number(Step(img, sys, h, o).m.state), start, end)
  }

  /** The engine's record belongs to this machine: ten states, and the same one remembered. */
  ghost predicate Matches(e: StateMachine.Machine, m: Machine) {
    e.numStates == 10 && e.prevState == Remembered(m.prev)
  }

  lemma NumberInjective(s: State, t: State)
    ensures Number(s) == Number(t) <==> s == t
  {
  }

  lemma HandleKeepsPrev(img: Image, sys: System, m: Machine, h: nat, current: State, o: Oracle)
    requires img.Valid() && sys.Valid() && IsHart(h)
    ensures Handle(img, sys, m, h, current, o).m.prev == m.prev
  {
  }

  lemma StepKeepsPrev(img: Image, sys: System, h: nat, o: Oracle)
    requires img.Valid() && sys.Valid() && IsHart(h)
    ensures Step(img, sys, h, o).m.prev == Was(Hooks(img, sys.M(h), h, o).state)
    ensures sys.M(h).prev == Was(sys.M(h).state) ==> Hooks(img, sys.M(h), h, o) == sys.M(h)
  {
    HandleKeepsPrev(img, sys, Hooks(img, sys.M(h), h, o), h, sys.M(h).state, o);
    HooksWriteStateIff(img, sys.M(h), h, o);
  }

  /** A step of a boot machine is a call of the engine: the same state is left and remembered, and the
      hooks are faithful exactly if the hand-over does not fail. */
  lemma StepIsRun(img: Image, sys: System, h: nat, o: Oracle, e: StateMachine.Machine, start: nat, end: nat)
    requires img.Valid() && sys.Valid() && IsHart(h) && Matches(e, sys.M(h))
    ensures var i := InputOf(img, sys, h, o, start, end);
            var r := StateMachine.Run(e, i).0;
            && StateMachine.IsValidState(e.numStates, i.found)
            && r.state == Number(Step(img, sys, h, o).m.state) && Matches(r, Step(img, sys, h, o).m)
            && (StateMachine.Faithful(e, i) <==> !HandOverFails(img, sys.M(h), h, o))
  {
    var m := sys.M(h);
    StepKeepsPrev(img, sys, h, o);
    HooksWriteStateIff(img, m, h, o);
    NumberInjective(m.state, Hooks(img, m, h, o).state);
    if m.prev.Was? {
      NumberInjective(m.prev.state, m.state);
    }
  }

  /** The calls to hart h in a run; the clock gives each its two readings. */
  ghost function Inputs(img: Image, sys: System, actions: seq<Action>, h: nat, clock: nat -> nat): seq<StateMachine.Input>
    requires img.Valid() && sys.Valid() && IsHart(h) && forall k :: 0 <= k < |actions| ==> Proper(actions[k])
    decreases |actions|
  {
    if actions == [] then []
    else
      var n := |actions| - 1;
      var a := actions[n];
      var before := Inputs(img, sys, actions[..n], h, clock);
      if a.Call? && a.h == h
      then before + [InputOf(img, RunAll(img, sys, actions[..n]), h, a.o, clock(2 * n), clock(2 * n + 1))]
      else before
  }

  /** No call to hart h in the run has a failing hand-over. */
  ghost predicate HandsOver(img: Image, sys: System, actions: seq<Action>, h: nat)
    requires img.Valid() && sys.Valid() && IsHart(h) && forall k :: 0 <= k < |actions| ==> Proper(actions[k])
    decreases |actions|
  {
    actions != [] ==>
      var n := |actions| - 1;
      HandsOver(img, sys, actions[..n], h)
      && (actions[n].Call? && actions[n].h == h ==> !HandOverFails(img, RunAll(img, sys, actions[..n]).M(h), h, actions[n].o))
  }

  /** The engine's run over these calls, restarts and other harts' steps in between, is the machine's. */
  lemma {:induction false} RunIsEngineRun(
    img: Image, sys: System, actions: seq<Action>, h: nat, clock: nat -> nat, e: StateMachine.Machine)
    requires img.Valid() && sys.Valid() && IsHart(h) && Matches(e, sys.M(h)) && forall k :: 0 <= k < |actions| ==> Proper(actions[k])
    ensures var inputs := Inputs(img, sys, actions, h, clock);
            && StateMachine.AllValid(e, inputs) && Matches(StateMachine.After(e, inputs), RunAll(img, sys, actions).M(h))
            && (StateMachine.FaithfulRun(e, inputs) <==> HandsOver(img, sys, actions, h))
    decreases |actions|
  {
    if actions != [] {
      var n := |actions| - 1;
      var a := actions[n];
      var before, earlier := RunAll(img, sys, actions[..n]), Inputs(img, sys, actions[..n], h, clock);
      RunIsEngineRun(img, sys, actions[..n], h, clock, e);
      if a.Call? && a.h == h {
        var start, end := clock(2 * n), clock(2 * n + 1);
        var i := InputOf(img, before, h, a.o, start, end);
        StepIsRun(img, before, h, a.o, StateMachine.After(e, earlier), start, end);
        assert (earlier + [i])[..|earlier|] == earlier;
      }
    }
  }

  /** For every schedule and all restarts: after a call to hart h the trace of its hooks and handlers is
      well bracketed exactly if no earlier call to it had a failing hand-over. */
  lemma BootTraceBracketedIff(
    img: Image, sys: System, actions: seq<Action>, h: nat, o: Oracle, clock: nat -> nat, e: StateMachine.Machine)
    requires img.Valid() && sys.Valid() && IsHart(h) && sys.M(h).prev == Nothing && Matches(e, sys.M(h))
    requires forall k :: 0 <= k < |actions| ==> Proper(actions[k])
    ensures forall k :: 0 <= k < |actions + [Call(h, o)]| ==> Proper((actions + [Call(h, o)])[k])
    ensures StateMachine.WellBracketed(StateMachine.Trace(e, Inputs(img, sys, actions + [Call(h, o)], h, clock)))
            <==> HandsOver(img, sys, actions, h)
  {
    var all := actions + [Call(h, o)];
    assert all[..|actions|] == actions;
    var earlier := Inputs(img, sys, actions, h, clock);
    var inputs := Inputs(img, sys, all, h, clock);
    RunIsEngineRun(img, sys, actions, h, clock, e);
    RunIsEngineRun(img, sys, all, h, clock, e);
    assert inputs[..|inputs| - 1] == earlier;
    StateMachine.BracketedIffBefore(e, inputs);
  }
}
