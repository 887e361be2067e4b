/** The super-loop engine: one call runs the exit and entry hooks of a state change, then the
    handler of the current state. */
module StateMachine {
  import opened Bits

  const INVALID: int := -1

  /** A point at which the engine calls a hook of a state; an absent hook does nothing there. */
  datatype Event = Exit(state: int) | Entry(state: int) | Handler(state: int)

  datatype Machine = Machine(
    state: int, prevState: int, numStates: nat, executionCount: nat,
    startTime: nat, lastExecutionTime: nat, lastDelta: nat, maxExecutionTime: nat, maxState: int)

  predicate IsValidState(numStates: nat, state: int) {
    0 <= state < numStates
  }

  /** What happens around and during one call: the state found at its start (whoever wrote it), the
      state after the exit and entry hooks, the state the handler leaves, and the clock readings. */
  datatype Input = Input(found: int, afterHooks: int, afterHandler: int, start: nat, end: nat)

  /** The hooks leave the state alone. */
  predicate Quiet(i: Input) {
    i.afterHooks == i.found
  }

  /** One call: the machine afterwards, and the hook points passed. */
  function Run(m: Machine, i: Input): (Machine, seq<Event>) {
    var change := m.prevState != i.found;
    var prev := if change then i.afterHooks else m.prevState;
    var delta := Wrap(i.end - i.start);
    var longest := delta > m.maxExecutionTime;
    (Machine(
       i.afterHandler, prev, m.numStates, Wrap((if change then 0 else m.executionCount) + 1),
       if m.startTime == 0 then i.start else m.startTime, i.start, delta,
       if longest then delta else m.maxExecutionTime,
       if longest then prev else m.maxState),
     (if change && IsValidState(m.numStates, m.prevState) then [Exit(m.prevState)] else [])
     + (if change then [Entry(i.found)] else []) + [Handler(i.found)])
  }

  function After(m: Machine, inputs: seq<Input>): Machine
    decreases |inputs|
  {
    if inputs == [] then m else Run(After(m, inputs[..|inputs| - 1]), inputs[|inputs| - 1]).0
  }

  function Trace(m: Machine, inputs: seq<Input>): seq<Event>
    decreases |inputs|
  {
    if inputs == [] then []
    else
      var before := inputs[..|inputs| - 1];
      Trace(m, before) + Run(After(m, before), inputs[|inputs| - 1]).1
  }

  // ------------------------------------------------------------------------- traces

  /** Entry(s) Handler(s)+ Exit(s) Entry(s') Handler(s')+ .., with s' different from s. */
  ghost predicate WellBracketed(t: seq<Event>) {
    forall i :: 0 <= i < |t| ==> WellPlaced(t, i)
  }

  ghost predicate WellPlaced(t: seq<Event>, i: int)
    requires 0 <= i < |t|
  {
    match t[i]
    case Entry(s) =>
      && (i > 0 ==> t[i - 1].Exit? && t[i - 1].state != s)
      && i + 1 < |t| && t[i + 1] == Handler(s)
    case Handler(s) => i > 0 && (t[i - 1] == Handler(s) || t[i - 1] == Entry(s))
    case Exit(s) => i > 0 && t[i - 1] == Handler(s) && i + 1 < |t| && t[i + 1].Entry?
  }

  /** The machine remembers the state whose handler ran last. */
  ghost predicate Consistent(m: Machine, t: seq<Event>) {
    if t == [] then m.prevState == INVALID
    else IsValidState(m.numStates, m.prevState) && t[|t| - 1] == Handler(m.prevState)
  }

  /** The call runs no hooks, or its hooks leave the state alone. */
  predicate Faithful(m: Machine, i: Input) {
    m.prevState == i.found || Quiet(i)
  }

  /** One more call on a consistent machine keeps the trace well bracketed, whatever its hooks do. */
  lemma StepBracketed(m: Machine, t: seq<Event>, i: Input)
    requires Consistent(m, t) && WellBracketed(t) && IsValidState(m.numStates, i.found)
    ensures WellBracketed(t + Run(m, i).1)
    ensures Faithful(m, i) ==> Consistent(Run(m, i).0, t + Run(m, i).1)
  {
    var u := t + Run(m, i).1;
    forall k | 0 <= k < |u|
      ensures WellPlaced(u, k)
    {
      if k < |t| {
        assert WellPlaced(t, k);
      }
    }
  }

  /** No call of the run has hooks that write the state. */
  ghost predicate FaithfulRun(m: Machine, inputs: seq<Input>)
    decreases |inputs|
  {
    inputs != [] ==>
      var before := inputs[..|inputs| - 1];
      FaithfulRun(m, before) && Faithful(After(m, before), inputs[|inputs| - 1])
  }

  ghost predicate AllValid(m: Machine, inputs: seq<Input>) {
    forall k :: 0 <= k < |inputs| ==> IsValidState(m.numStates, inputs[k].found)
  }

  /** Every run is well bracketed, with the state written from outside between any two calls, if its
      hooks leave the state alone. */
  lemma {:induction false} RunsBracketed(m: Machine, inputs: seq<Input>)
    requires m.prevState == INVALID && AllValid(m, inputs) && FaithfulRun(m, inputs)
    ensures WellBracketed(Trace(m, inputs)) && Consistent(After(m, inputs), Trace(m, inputs))
    ensures After(m, inputs).numStates == m.numStates
    decreases |inputs|
  {
    if inputs != [] {
      var n := |inputs| - 1;
      RunsBracketed(m, inputs[..n]);
      StepBracketed(After(m, inputs[..n]), Trace(m, inputs[..n]), inputs[n]);
    }
  }

  /** A hook that writes the state during a change makes the engine remember a state whose handler has
      not run; whatever state is found next, the next call is then out of place. */
  lemma NoisyHookBreaks(m: Machine, t: seq<Event>, i: Input, next: Input)
    requires Consistent(m, t) && !Faithful(m, i)
    ensures var u := t + Run(m, i).1; !WellBracketed(u + Run(Run(m, i).0, next).1)
  {
    var u := t + Run(m, i).1;
    var e := Run(Run(m, i).0, next).1;
    var v := u + e;
    assert u[|u| - 1] == Handler(i.found);
    assert v[|u|] == e[0] && v[|u| - 1] == Handler(i.found);
    assert !WellPlaced(v, |u|);
  }

  /** A well-bracketed trace is so after every call. */
  lemma PrefixBracketed(t: seq<Event>, e: seq<Event>)
    requires WellBracketed(t + e) && (t == [] || t[|t| - 1].Handler?)
    ensures WellBracketed(t)
  {
    forall k | 0 <= k < |t|
      ensures WellPlaced(t, k)
    {
      assert WellPlaced(t + e, k);
    }
  }

  /** Call k runs no hooks, or its hooks leave the state alone. */
  ghost predicate FaithfulAt(m: Machine, inputs: seq<Input>, k: nat)
    requires k < |inputs|
  {
    Faithful(After(m, inputs[..k]), inputs[k])
  }

  lemma {:induction false} FaithfulRunMeans(m: Machine, inputs: seq<Input>, n: nat)
    requires n <= |inputs|
    ensures FaithfulRun(m, inputs[..n]) <==> forall k: nat :: k < n ==> FaithfulAt(m, inputs, k)
  {
    if n > 0 {
      FaithfulRunMeans(m, inputs, n - 1);
      var before := inputs[..n];
      assert before[..n - 1] == inputs[..n - 1] && before[n - 1] == inputs[n - 1];
      assert FaithfulRun(m, before) <==> FaithfulRun(m, inputs[..n - 1]) && FaithfulAt(m, inputs, n - 1);
    }
  }

  lemma {:induction false} OnlyLastNoisy(m: Machine, inputs: seq<Input>)
    requires m.prevState == INVALID && AllValid(m, inputs) && inputs != [] && WellBracketed(Trace(m, inputs))
    ensures FaithfulRun(m, inputs[..|inputs| - 1])
    decreases |inputs|
  {
    var n := |inputs| - 1;
    var before, last := inputs[..n], inputs[n];
    if before != [] {
      PrefixBracketed(Trace(m, before), Run(After(m, before), last).1);
      OnlyLastNoisy(m, before);
      var start, i := before[..n - 1], before[n - 1];
      RunsBracketed(m, start);
      if !Faithful(After(m, start), i) {
        NoisyHookBreaks(After(m, start), Trace(m, start), i, last);
      }
    }
  }

  /** The last call's hooks may do what they like, those of the earlier ones may not. */
  lemma BracketedIffBefore(m: Machine, inputs: seq<Input>)
    requires m.prevState == INVALID && AllValid(m, inputs) && inputs != []
    ensures WellBracketed(Trace(m, inputs)) <==> FaithfulRun(m, inputs[..|inputs| - 1])
  {
    var n := |inputs| - 1;
    var before := inputs[..n];
    if FaithfulRun(m, before) {
      RunsBracketed(m, before);
      StepBracketed(After(m, before), Trace(m, before), inputs[n]);
    }
    if WellBracketed(Trace(m, inputs)) {
      OnlyLastNoisy(m, inputs);
    }
  }

  /** The trace of a run is well bracketed exactly if no call but the last has hooks that write the
      state, whatever is written to it from outside. */
  lemma BracketedIff(m: Machine, inputs: seq<Input>)
    requires m.prevState == INVALID && AllValid(m, inputs)
    ensures WellBracketed(Trace(m, inputs)) <==>
            forall k: nat :: k < |inputs| - 1 ==> FaithfulAt(m, inputs, k)
  {
    if inputs != [] {
      BracketedIffBefore(m, inputs);
      FaithfulRunMeans(m, inputs, |inputs| - 1);
    }
  }

  /** Handler calls since the last entry. */
  function HandlersSinceEntry(t: seq<Event>): nat
    decreases |t|
  {
    if t == [] || t[|t| - 1].Entry? then 0
    else HandlersSinceEntry(t[..|t| - 1]) + (if t[|t| - 1].Handler? then 1 else 0)
  }

  /** The execution count is the number of handler calls since the last entry, in 64 bits, on every
      run and whatever the hooks do. */
  lemma {:induction false} ExecutionCount(m: Machine, inputs: seq<Input>)
    requires m.executionCount == 0
    ensures After(m, inputs).executionCount == HandlersSinceEntry(Trace(m, inputs)) % U64
    decreases |inputs|
  {
    if inputs != [] {
      var n := |inputs| - 1;
      var m0, t, i := After(m, inputs[..n]), Trace(m, inputs[..n]), inputs[n];
      ExecutionCount(m, inputs[..n]);
      var e := Run(m0, i).1;
      var u := t + e;
      var before := u[..|u| - 1];
      assert HandlersSinceEntry(u) == HandlersSinceEntry(before) + 1;
      if m0.prevState == i.found {
        assert before == t;
        NextCount(HandlersSinceEntry(t));
      } else {
        assert before[|before| - 1] == Entry(i.found);
      }
    }
  }

  lemma NextCount(n: nat)
    ensures (n % U64 + 1) % U64 == (n + 1) % U64
  {
    var q, r := n / U64, n % U64;
    if r + 1 == U64 {
      DivModUnique(n + 1, U64, q + 1, 0);
    } else {
      DivModUnique(n + 1, U64, q, r + 1);
    }
  }

  /** The recorded maximum bounds every call's duration and is one of them (or the initial value). */
  lemma {:induction false} MaximumTime(m: Machine, inputs: seq<Input>)
    ensures var top := After(m, inputs).maxExecutionTime;
            && top >= m.maxExecutionTime
            && (forall k :: 0 <= k < |inputs| ==> Wrap(inputs[k].end - inputs[k].start) <= top)
            && (top == m.maxExecutionTime || exists k :: 0 <= k < |inputs| && Wrap(inputs[k].end - inputs[k].start) == top)
    decreases |inputs|
  {
    if inputs != [] {
      MaximumTime(m, inputs[..|inputs| - 1]);
    }
  }

  function Duration(i: Input): nat {
    Wrap(i.end - i.start)
  }

  /** Call k is the first to take so long. */
  ghost predicate FirstAt(inputs: seq<Input>, k: nat, longest: nat) {
    k < |inputs| && Duration(inputs[k]) == longest && forall j :: 0 <= j < k ==> Duration(inputs[j]) < longest
  }

  lemma StillFirst(inputs: seq<Input>, n: nat, k: nat, longest: nat)
    requires n <= |inputs| && FirstAt(inputs[..n], k, longest)
    ensures FirstAt(inputs, k, longest) && inputs[..k + 1] == inputs[..n][..k + 1]
  {
    forall j | 0 <= j <= k
      ensures inputs[..n][j] == inputs[j]
    {
    }
  }

  /** The state recorded with the maximum is the one remembered after the first call that took so long. */
  lemma {:induction false} MaximumState(m: Machine, inputs: seq<Input>)
    ensures var r := After(m, inputs);
            if r.maxExecutionTime == m.maxExecutionTime then r.maxState == m.maxState
            else exists k: nat :: FirstAt(inputs, k, r.maxExecutionTime) && r.maxState == After(m, inputs[..k + 1]).prevState
    decreases |inputs|
  {
    if inputs != [] {
      var n := |inputs| - 1;
      var before := inputs[..n];
      var longest := After(m, inputs).maxExecutionTime;
      MaximumState(m, before);
      MaximumTime(m, before);
      if longest == After(m, before).maxExecutionTime {
        if longest != m.maxExecutionTime {
          var k: nat :| FirstAt(before, k, longest) && After(m, before).maxState == After(m, before[..k + 1]).prevState;
          StillFirst(inputs, n, k, longest);
        }
      } else {
        assert inputs[..n + 1] == inputs;
        forall j | 0 <= j < n
          ensures Duration(inputs[j]) < longest
        {
          assert before[j] == inputs[j];
        }
        assert FirstAt(inputs, n, longest);
      }
    }
  }

  /** The start time is the first nonzero reading, and what else is recorded belongs to the last call. */
  lemma {:induction false} LastCallRecorded(m: Machine, inputs: seq<Input>)
    requires inputs != []
    ensures var r, last := After(m, inputs), inputs[|inputs| - 1];
            && r.state == last.afterHandler && r.lastExecutionTime == last.start && r.lastDelta == Duration(last)
            && (m.startTime != 0 ==> r.startTime == m.startTime)
            && (m.startTime == 0 ==>
                  if forall k :: 0 <= k < |inputs| ==> inputs[k].start == 0 then r.startTime == 0
                  else exists k :: 0 <= k < |inputs| && r.startTime == inputs[k].start != 0 && forall j :: 0 <= j < k ==> inputs[j].start == 0)
    decreases |inputs|
  {
    var n := |inputs| - 1;
    var before := inputs[..n];
    if before != [] {
      LastCallRecorded(m, before);
      assert forall k :: 0 <= k < n ==> before[k] == inputs[k];
    }
  }

  // ------------------------------------------------------------------------- engine

  class Engine {
    var state: int
    var prevState: int
    const numStates: nat
    var executionCount: nat
    var startTime: nat
    var lastExecutionTime: nat
    var lastDelta: nat
    var maxExecutionTime: nat
    var maxState: int
    ghost var trace: seq<Event>

    constructor (state: int, numStates: nat)
      ensures Model() == Machine(state, INVALID, numStates, 0, 0, 0, 0, 0, 0) && trace == []
    {
      this.state, prevState, this.numStates, executionCount := state, INVALID, numStates, 0;
      startTime, lastExecutionTime, lastDelta, maxExecutionTime, maxState := 0, 0, 0, 0, 0;
      trace := [];
    }

    function Model(): Machine
      reads this
    {
      Machine(state, prevState, numStates, executionCount,
              startTime, lastExecutionTime, lastDelta, maxExecutionTime, maxState)
    }

    /** i.found has been written to the state before the call. */
    method RunStateMachine(i: Input)
      requires IsValidState(numStates, i.found)
      modifies this
      ensures Model() == Run(old(Model()), i).0
      ensures trace == old(trace) + Run(old(Model()), i).1
    {
      state := i.found;
      var prev, current := prevState, state;
      var lastEntry := i.start;
      if startTime == 0 {
        startTime := lastEntry;
      }
      lastExecutionTime := lastEntry;
      ghost var e: seq<Event> := [];
      if prev != current {
        if IsValidState(numStates, prev) {
          e := [Exit(prev)];
        }
        e := e + [Entry(current)];
        state := i.afterHooks;
        executionCount := 0;
        prevState := state;
      }
      trace := trace + (e + [Handler(current)]);
      state := i.afterHandler;
      executionCount := Wrap(executionCount + 1);
      lastDelta := Wrap(i.end - lastEntry);
      if lastDelta > maxExecutionTime {
        maxExecutionTime := lastDelta;
        maxState := prevState;
      }
    }
  }

  /** One round of the super-loop steps every registered machine once. */
  method RunStateMachines(machines: seq<Engine>, inputs: seq<Input>)
    requires |inputs| == |machines| && forall i, j :: 0 <= i < j < |machines| ==> machines[i] != machines[j]
    requires forall k :: 0 <= k < |machines| ==> IsValidState(machines[k].numStates, inputs[k].found)
    modifies machines
    ensures forall k :: 0 <= k < |machines| ==> machines[k].Model() == Run(old(machines[k].Model()), inputs[k]).0
    ensures forall k :: 0 <= k < |machines| ==> machines[k].trace == old(machines[k].trace) + Run(old(machines[k].Model()), inputs[k]).1
  {
    var n := 0;
    while n < |machines|
      invariant 0 <= n <= |machines|
      invariant forall k :: n <= k < |machines| ==> machines[k].Model() == old(machines[k].Model()) && machines[k].trace == old(machines[k].trace)
      invariant forall k :: 0 <= k < n ==> machines[k].Model() == Run(old(machines[k].Model()), inputs[k]).0
      invariant forall k :: 0 <= k < n ==> machines[k].trace == old(machines[k].trace) + Run(old(machines[k].Model()), inputs[k]).1
    {
      machines[n].RunStateMachine(inputs[n]);
      n := n + 1;
    }
  }
}
