/** The four boot state machines as steps over shared memory. */
module BootMachine {
  import opened BootImage

  datatype State =
    | Init | SetupPmp | SetupPmpComplete | ZeroInit | Download
    | OpenSbiInit | Wait | Complete | Idle | Error

  datatype Previous = Nothing | Was(state: State)

  /** One hart's machine, its local data and its bootComplete flag; table positions are indices.
      loaded is history: the machine has finished a download since its last restart. */
  datatype Machine = Machine(
    state: State, prev: Previous, ziChunk: nat, chunk: nat,
    chunkCount: nat, subOffset: nat, nextPeer: nat, ancillary: nat,
    complete: bool, loaded: bool)

  /** The four machines, the memory they share, and whether the completion event has been raised. */
  datatype System = System(machines: seq<Machine>, mem: seq<byte>, event: bool) {
    ghost predicate Valid() {
      |machines| == 4
    }

    function M(h: nat): Machine
      requires Valid() && IsHart(h)
    {
      machines[h - 1]
    }
  }

  /** What the environment answers during one call: start-up triggers, a registered image, DDR not
      ready for a zero-init chunk, message sent or delivered, timeouts, acknowledgements. */
  datatype Oracle = Oracle(
    ready: bool, registered: bool, ddrBlocked: bool, sent: bool, pmpTimeout: bool, timeout: bool,
    acked: bool, delivered: bool, deliveredSelf: bool)

  // ------------------------------------------------------------------------ hooks

  /** Leaving OpenSbiInit messages the hart itself; a failed delivery writes the state. */
  function OnExit(img: Image, m: Machine, h: nat, o: Oracle): Machine
    requires IsHart(h) && |img.harts| == 4
  {
    if m.prev == Was(OpenSbiInit) && img.Hart(h).entryPoint != 0 && !o.deliveredSelf then m.(state := Error) else m
  }

  function OnEntry(img: Image, m: Machine, h: nat, current: State): Machine
    requires IsHart(h) && |img.harts| == 4
  {
    match current
    case ZeroInit => m.(ziChunk := 0)
    case Download =>
      if img.Hart(h).numChunks != 0
      then m.(chunk := img.Hart(h).firstChunk, chunkCount := 0, subOffset := 0)
      else m
    case OpenSbiInit => if img.Hart(h).entryPoint != 0 then m.(nextPeer := 0) else m
    case Complete => m.(complete := true)
    case _ => m
  }

  /** The engine's hooks for a change of state; the state left by the hooks is remembered. */
  function Hooks(img: Image, m: Machine, h: nat, o: Oracle): Machine
    requires IsHart(h) && |img.harts| == 4
  {
    if m.prev == Was(m.state) then m
    else
      var r := OnEntry(img, OnExit(img, m, h, o), h, m.state);
      r.(prev := Was(r.state))
  }

  /** The self-delivery on the way out of the hand-over fails. */
  predicate HandOverFails(img: Image, m: Machine, h: nat, o: Oracle)
    requires IsHart(h) && |img.harts| == 4
  {
    && m.prev == Was(OpenSbiInit) && m.state != OpenSbiInit && m.state != Error
    && img.Hart(h).entryPoint != 0 && !o.deliveredSelf
  }

  /** The hooks leave the state alone except when the hand-over fails; then the machine remembers
      Error, which it has not entered. */
  lemma HooksWriteStateIff(img: Image, m: Machine, h: nat, o: Oracle)
    requires IsHart(h) && |img.harts| == 4
    ensures Hooks(img, m, h, o).state != m.state <==> HandOverFails(img, m, h, o)
    ensures Hooks(img, m, h, o).prev == Was(Hooks(img, m, h, o).state)
  {
  }

  // --------------------------------------------------------------------- handlers

  /** What a handler leaves behind. */
  datatype Effect = Effect(m: Machine, mem: seq<byte>, event: bool)

  function ZiAt(img: Image, j: nat): ZiChunk {
    if j < |img.ziChunks| then img.ziChunks[j] else ZiChunk(0, 0, 0)
  }

  function ChunkAt(img: Image, i: nat): Chunk {
    if i < |img.chunks| then img.chunks[i] else Chunk(0, 0, 0, 0)
  }

  function HandleZeroInit(img: Image, m: Machine, mem: seq<byte>, h: nat, o: Oracle): (Machine, seq<byte>)
  {
    var z := ZiAt(img, m.ziChunk);
    if z.size == 0 then (m.(state := Download), mem)
    else if z.owner != h then (m.(ziChunk := m.ziChunk + 1), mem)
    else if o.ddrBlocked then (m, mem)
    else (m.(ziChunk := m.ziChunk + 1), ZeroBytes(mem, z.execAddr, z.size))
  }

  /** After moving one sub-chunk: on to the next one, or to the next chunk. */
  function Advance(m: Machine, c: Chunk): Machine {
    var r := if c.owner >= ANCILLARY && m.ancillary == 0 then m.(ancillary := c.execAddr) else m;
    if m.subOffset + SUB_CHUNK > c.size
    then r.(subOffset := 0, chunkCount := m.chunkCount + 1, chunk := m.chunk + 1)
    else r.(subOffset := m.subOffset + SUB_CHUNK)
  }

  /** The bytes of chunk c from offset sub on, one sub-chunk of them, in place. */
  function Moved(img: Image, mem: seq<byte>, c: Chunk, sub: nat): seq<byte> {
    CopyBytes(mem, c.execAddr + sub, img.base + c.loadAddr + sub, SUB_CHUNK)
  }

  ghost function HandleDownload(img: Image, m: Machine, mem: seq<byte>, h: nat): (Machine, seq<byte>)
    requires img.Valid() && IsHart(h)
  {
    var c := ChunkAt(img, m.chunk);
    if img.Hart(h).numChunks == 0 then (m.(state := Complete, loaded := true), mem)
    else if m.chunkCount > img.Hart(h).lastChunk || c.size == 0 then (m.(state := OpenSbiInit, loaded := true), mem)
    else if !Mine(img, h, c) then (m.(chunk := m.chunk + 1), mem)
    else (Advance(m, c), Moved(img, mem, c, m.subOffset))
  }

  /** Messages the boot-set peers one per call, then waits; a hart that is not primary stays. */
  function HandleOpenSbiInit(img: Image, m: Machine, h: nat, o: Oracle): Machine
    requires IsHart(h) && |img.harts| == 4
  {
    if !img.Hart(h).Primary() then m
    else if m.nextPeer < 4 then
      var peer := m.nextPeer + 1;
      var failed := peer != h && img.Hart(peer).entryPoint == img.Hart(h).entryPoint && !o.delivered;
      m.(nextPeer := m.nextPeer + 1, state := if failed then Error else m.state)
    else m.(state := Wait)
  }

  /** Where the handlers that touch nothing but the state leave it. */
  function Target(img: Image, m: Machine, h: nat, current: State, o: Oracle): State
    requires IsHart(h) && |img.harts| == 4
  {
    match current
    case Init => if !o.ready then m.state else if o.registered then SetupPmp else Error
    case SetupPmp => if o.sent then SetupPmpComplete else m.state
    case SetupPmpComplete =>
      if o.pmpTimeout then Error
      else if !o.acked then m.state
      else if img.Hart(h).skipAutoboot then Complete
      else ZeroInit
    case Wait =>
      if img.Hart(h).entryPoint == 0 then Complete
      else if o.timeout then Error
      else if o.acked then Complete
      else m.state
    case Error => Complete
    case _ => m.state
  }

  /** The completion event waits for the flags of all four harts. */
  ghost predicate AllComplete(sys: System, m: Machine, h: nat)
    requires sys.Valid() && IsHart(h)
  {
    m.complete && forall g: nat :: IsHart(g) && g != h ==> sys.M(g).complete
  }

  ghost function Handle(img: Image, sys: System, m: Machine, h: nat, current: State, o: Oracle): Effect
    requires img.Valid() && sys.Valid() && IsHart(h)
  {
    match current
    case ZeroInit => var (r, mem) := HandleZeroInit(img, m, sys.mem, h, o); Effect(r, mem, sys.event)
    case Download => var (r, mem) := HandleDownload(img, m, sys.mem, h); Effect(r, mem, sys.event)
    case OpenSbiInit => Effect(HandleOpenSbiInit(img, m, h, o), sys.mem, sys.event)
    case Complete =>
      if AllComplete(sys, m, h) then Effect(m.(state := Idle), sys.mem, true) else Effect(m, sys.mem, sys.event)
    case _ => Effect(m.(state := Target(img, m, h, current, o)), sys.mem, sys.event)
  }

  /** One call of the engine for one hart's machine. */
  ghost function Step(img: Image, sys: System, h: nat, o: Oracle): Effect
    requires img.Valid() && sys.Valid() && IsHart(h)
  {
    Handle(img, sys, Hooks(img, sys.M(h), h, o), h, sys.M(h).state, o)
  }

  // -------------------------------------------------------------------------- runs

  datatype Action = Call(h: nat, o: Oracle) | Restart(h: nat)

  ghost predicate Proper(a: Action) {
    IsHart(a.h)
  }

  /** A restart request moves a machine back to Init unless it is handing over to OpenSBI; what it
      loaded before no longer counts. */
  function Restarted(m: Machine): Machine {
    if m.state == OpenSbiInit then m else m.(state := Init, loaded := false)
  }

  ghost function Act(img: Image, sys: System, a: Action): (r: System)
    requires img.Valid() && sys.Valid() && Proper(a)
    ensures r.Valid()
  {
    match a
    case Call(h, o) => var e := Step(img, sys, h, o); System(sys.machines[h - 1 := e.m], e.mem, e.event)
    case Restart(h) => sys.(machines := sys.machines[h - 1 := Restarted(sys.M(h))])
  }

  ghost function RunAll(img: Image, sys: System, actions: seq<Action>): (r: System)
    requires img.Valid() && sys.Valid() && forall k :: 0 <= k < |actions| ==> Proper(actions[k])
    ensures r.Valid()
    decreases |actions|
  {
    if actions == [] then sys
    else Act(img, RunAll(img, sys, actions[..|actions| - 1]), actions[|actions| - 1])
  }

  lemma {:induction false} RunInParts(img: Image, sys: System, a: seq<Action>, b: seq<Action>)
    requires img.Valid() && sys.Valid()
    requires (forall k :: 0 <= k < |a| ==> Proper(a[k])) && (forall k :: 0 <= k < |b| ==> Proper(b[k]))
    ensures forall k :: 0 <= k < |a + b| ==> Proper((a + b)[k])
    ensures RunAll(img, sys, a + b) == RunAll(img, RunAll(img, sys, a), b)
    decreases |b|
  {
    if b == [] {
      assert a + b == a;
    } else {
      var n := |b| - 1;
      RunInParts(img, sys, a, b[..n]);
      assert (a + b)[..|a + b| - 1] == a + b[..n];
    }
  }

  // ---------------------------------------------------- safety of the completion event

  /** The event has been raised exactly if all four flags are set, and a machine that remembers
      Complete has its flag set. */
  ghost predicate EventSafe(sys: System)
    requires sys.Valid()
  {
    && (sys.event <==> forall g: nat :: IsHart(g) ==> sys.M(g).complete)
    && (forall g: nat :: IsHart(g) ==> Remembers(sys.M(g)))
  }

  predicate Remembers(m: Machine) {
    m.state == Complete && m.prev == Was(Complete) ==> m.complete
  }

  /** Nothing that was raised is lowered. */
  ghost predicate Monotone(before: System, after: System)
    requires before.Valid() && after.Valid()
  {
    (forall g: nat :: IsHart(g) && before.M(g).complete ==> after.M(g).complete) && (before.event ==> after.event)
  }

  /** The hooks set the flag exactly on the way into Complete. */
  lemma HooksSetFlag(img: Image, m: Machine, h: nat, o: Oracle)
    requires IsHart(h) && |img.harts| == 4 && Remembers(m)
    ensures var r := Hooks(img, m, h, o);
            (r.complete <==> m.complete || m.state == Complete) && (r.state == m.state || r.state == Error)
    ensures Hooks(img, m, h, o).prev == Was(Hooks(img, m, h, o).state)
  {
  }

  /** A step of hart h sets its flag exactly if it is found in Complete, and the event together with
      the last flag. */
  ghost predicate FlagStep(sys: System, h: nat, e: Effect)
    requires sys.Valid() && IsHart(h)
  {
    && (e.m.complete <==> sys.M(h).complete || sys.M(h).state == Complete) && Remembers(e.m)
    && (e.event <==> sys.event || (sys.M(h).state == Complete && AllComplete(sys, e.m, h)))
  }

  lemma StepSetsFlag(img: Image, sys: System, h: nat, o: Oracle)
    requires img.Valid() && sys.Valid() && IsHart(h) && Remembers(sys.M(h))
    ensures FlagStep(sys, h, Step(img, sys, h, o))
  {
    HooksSetFlag(img, sys.M(h), h, o);
    HandleKeepsFlag(img, sys, Hooks(img, sys.M(h), h, o), h, sys.M(h).state, o);
  }

  lemma HandleKeepsFlag(img: Image, sys: System, m: Machine, h: nat, current: State, o: Oracle)
    requires img.Valid() && sys.Valid() && IsHart(h) && (m.state == current || m.state == Error) && m.prev == Was(m.state)
    requires current == Complete ==> m.complete
    ensures var e := Handle(img, sys, m, h, current, o);
            && e.m.complete == m.complete && Remembers(e.m)
            && (e.event <==> sys.event || (current == Complete && AllComplete(sys, e.m, h)))
  {
  }

  lemma UpdateSafe(sys: System, h: nat, e: Effect)
    requires sys.Valid() && IsHart(h) && EventSafe(sys) && FlagStep(sys, h, e)
    ensures var r := System(sys.machines[h - 1 := e.m], e.mem, e.event); EventSafe(r) && Monotone(sys, r)
  {
    var r := System(sys.machines[h - 1 := e.m], e.mem, e.event);
    if sys.event {
      assert sys.M(h).complete;
    }
    if forall g: nat :: IsHart(g) ==> r.M(g).complete {
      assert r.M(h) == e.m && AllComplete(r, e.m, h);
      assert forall g: nat :: IsHart(g) && g != h ==> r.M(g) == sys.M(g);
    }
  }

  lemma ActSafe(img: Image, sys: System, a: Action)
    requires img.Valid() && sys.Valid() && Proper(a) && EventSafe(sys)
    ensures EventSafe(Act(img, sys, a)) && Monotone(sys, Act(img, sys, a))
  {
    match a
    case Call(h, o) =>
      StepSetsFlag(img, sys, h, o);
      UpdateSafe(sys, h, Step(img, sys, h, o));
    case Restart(h) =>
  }

  /** Whatever the schedule and the restarts: the event has been raised exactly if all four flags are
      set, and flags never fall. */
  lemma {:induction false} EventIffAllComplete(img: Image, sys: System, actions: seq<Action>)
    requires img.Valid() && sys.Valid() && forall k :: 0 <= k < |actions| ==> Proper(actions[k])
    requires EventSafe(sys)
    ensures EventSafe(RunAll(img, sys, actions)) && Monotone(sys, RunAll(img, sys, actions))
    decreases |actions|
  {
    if actions != [] {
      var n := |actions| - 1;
      EventIffAllComplete(img, sys, actions[..n]);
      ActSafe(img, RunAll(img, sys, actions[..n]), actions[n]);
    }
  }

  /** Action k is a call that finds hart h in Complete. */
  ghost predicate FindsComplete(img: Image, sys: System, actions: seq<Action>, k: nat, h: nat)
    requires img.Valid() && sys.Valid() && k < |actions| && IsHart(h)
    requires forall j :: 0 <= j < |actions| ==> Proper(actions[j])
  {
    actions[k].Call? && actions[k].h == h && RunAll(img, sys, actions[..k]).M(h).state == Complete
  }

  lemma ActFinds(img: Image, sys: System, actions: seq<Action>, k: nat, next: nat, h: nat)
    requires img.Valid() && sys.Valid() && IsHart(h) && next == k + 1 <= |actions|
    requires forall j :: 0 <= j < |actions| ==> Proper(actions[j])
    ensures var m, r := RunAll(img, sys, actions[..k]).M(h), RunAll(img, sys, actions[..next]).M(h);
            Remembers(m) ==> Remembers(r) && (r.complete <==> m.complete || FindsComplete(img, sys, actions, k, h))
  {
    var before, a := RunAll(img, sys, actions[..k]), actions[k];
    assert actions[..next][..k] == actions[..k];
    assert RunAll(img, sys, actions[..next]) == Act(img, before, a);
    if a.Call? && a.h == h && Remembers(before.M(h)) {
      StepSetsFlag(img, before, h, a.o);
    }
  }

  /** A hart's flag is set exactly if some call has found its machine in Complete. */
  lemma {:induction false} CompleteIffFound(img: Image, sys: System, actions: seq<Action>, n: nat, h: nat)
    requires img.Valid() && sys.Valid() && IsHart(h) && Remembers(sys.M(h)) && n <= |actions|
    requires forall k :: 0 <= k < |actions| ==> Proper(actions[k])
    ensures var m := RunAll(img, sys, actions[..n]).M(h);
            && Remembers(m)
            && (m.complete <==> sys.M(h).complete || exists k: nat :: k < n && FindsComplete(img, sys, actions, k, h))
  {
    if n > 0 {
      var last := n - 1;
      CompleteIffFound(img, sys, actions, last, h);
      ActFinds(img, sys, actions, last, n, h);
    }
  }

  /** So the event has been raised exactly if every hart's machine has been found in Complete. */
  lemma EventIffAllFound(img: Image, sys: System, actions: seq<Action>)
    requires img.Valid() && sys.Valid() && forall k :: 0 <= k < |actions| ==> Proper(actions[k])
    requires EventSafe(sys) && forall g: nat :: IsHart(g) ==> !sys.M(g).complete
    ensures RunAll(img, sys, actions).event <==>
            forall g: nat :: IsHart(g) ==> exists k: nat :: k < |actions| && FindsComplete(img, sys, actions, k, g)
  {
    EventIffAllComplete(img, sys, actions);
    assert actions[..|actions|] == actions;
    forall g: nat | IsHart(g)
      ensures RunAll(img, sys, actions).M(g).complete <==> exists k: nat :: k < |actions| && FindsComplete(img, sys, actions, k, g)
    {
      CompleteIffFound(img, sys, actions, |actions|, g);
    }
  }
}
