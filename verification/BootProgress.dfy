/** How many calls a machine needs to finish its download, whatever the other machines do. */
module BootProgress {
  import opened BootImage
  import opened BootMachine
  import opened BootCustom

  /** Everything a machine waits for before and during its download is there, and nothing fails. */
  ghost predicate Cooperative(o: Oracle) {
    o.ready && o.registered && o.sent && !o.pmpTimeout && o.acked && !o.ddrBlocked
  }

  /** Calls to get past the zero-init table from descriptor j on. */
  ghost function ZiCalls(img: Image, j: nat): nat
    decreases |img.ziChunks| - j
  {
    if ZiAt(img, j).size == 0 then 1 else 1 + ZiCalls(img, j + 1)
  }

  /** Sub-chunks moved from offset sub on: one more than the size holds. */
  function SubChunks(size: nat, sub: nat): nat {
    if sub > size then 0 else (size - sub) / SUB_CHUNK + 1
  }

  /** Calls to finish the chunk table from chunk i at offset sub, when k chunks have been downloaded. */
  ghost function ChunkCalls(img: Image, h: nat, i: nat, k: nat, sub: nat): nat
    requires img.Valid() && IsHart(h)
    decreases |img.chunks| - i
  {
    var c := ChunkAt(img, i);
    if k > img.Hart(h).lastChunk || c.size == 0 then 1
    else if Mine(img, h, c) then SubChunks(c.size, sub) + ChunkCalls(img, h, i + 1, k + 1, 0)
    else 1 + ChunkCalls(img, h, i + 1, k, 0)
  }

  ghost function DownloadCalls(img: Image, h: nat): nat
    requires img.Valid() && IsHart(h)
  {
    if img.Hart(h).numChunks == 0 then 1 else ChunkCalls(img, h, img.Hart(h).firstChunk, 0, 0)
  }

  /** The calls a machine on its way still needs until it is loaded. */
  ghost function CallsLeft(img: Image, h: nat, m: Machine): nat
    requires img.Valid() && IsHart(h)
  {
    if m.loaded then 0
    else match m.state
      case ZeroInit => ZiCalls(img, if m.prev == Was(ZeroInit) then m.ziChunk else 0) + DownloadCalls(img, h)
      case Download =>
        if Downloading(img, h, m) then ChunkCalls(img, h, m.chunk, m.chunkCount, m.subOffset) else DownloadCalls(img, h)
      case SetupPmpComplete => 1 + ZiCalls(img, 0) + DownloadCalls(img, h)
      case SetupPmp => 2 + ZiCalls(img, 0) + DownloadCalls(img, h)
      case _ => 3 + ZiCalls(img, 0) + DownloadCalls(img, h)
  }

  /** Inside a chunk the offset has not passed the size. */
  ghost predicate Underway(img: Image, h: nat, m: Machine)
    requires img.Valid() && IsHart(h)
  {
    && OnTheWay(img, h, m) && (Before(m.state) || m.loaded)
    && (Downloading(img, h, m) && m.subOffset > 0 ==> m.subOffset <= ChunkAt(img, m.chunk).size)
  }

  // ---------------------------------------------------------------------- one call

  /** The set-up does not fail in this call. */
  predicate Willing(img: Image, m: Machine, h: nat, o: Oracle)
    requires IsHart(h) && |img.harts| == 4
  {
    o.registered && !o.pmpTimeout && !HandOverFails(img, m, h, o)
  }

  /** What the machine waits for is there: start-up, a sent message, an acknowledgement, DDR. */
  predicate Effective(img: Image, m: Machine, h: nat, o: Oracle)
    requires IsHart(h) && |img.harts| == 4
  {
    match m.state
    case Init => o.ready
    case SetupPmp => o.sent
    case SetupPmpComplete => o.acked
    case ZeroInit =>
      var z := ZiAt(img, if m.prev == Was(ZeroInit) then m.ziChunk else 0);
      z.size == 0 || z.owner != h || !o.ddrBlocked
    case Wait => img.Hart(h).entryPoint == 0 || o.acked
    case _ => true
  }

  /** Restarted or never started, and not yet called. */
  predicate Waiting(m: Machine) {
    m.state == Init && !m.loaded
  }

  ghost predicate Going(img: Image, h: nat, m: Machine)
    requires img.Valid() && IsHart(h)
  {
    Waiting(m) || Underway(img, h, m)
  }

  lemma HooksKeepCalls(img: Image, h: nat, m: Machine, o: Oracle)
    requires img.Valid() && IsHart(h) && Going(img, h, m) && !m.loaded && !HandOverFails(img, m, h, o)
    ensures var r := Hooks(img, m, h, o);
            && Underway(img, h, r) && !r.loaded && r.state == m.state && r.prev == Was(r.state)
            && CallsLeft(img, h, r) == CallsLeft(img, h, m) && Effective(img, r, h, o) == Effective(img, m, h, o)
  {
    if Underway(img, h, m) {
      HooksKeepOutcome(img, h, m, o, []);
    }
  }

  lemma SubChunksStep(size: nat, sub: nat)
    requires sub <= size
    ensures SubChunks(size, sub) == 1 + SubChunks(size, sub + SUB_CHUNK)
  {
    if sub + SUB_CHUNK <= size {
      assert (size - sub) / SUB_CHUNK == (size - sub - SUB_CHUNK) / SUB_CHUNK + 1;
    }
  }

  lemma DownloadTakesOneCall(img: Image, h: nat, m: Machine, mem: seq<byte>)
    requires img.Valid() && IsHart(h) && Underway(img, h, m) && Downloading(img, h, m) && !m.loaded
    ensures var m' := HandleDownload(img, m, mem, h).0;
            Underway(img, h, m') && CallsLeft(img, h, m') == CallsLeft(img, h, m) - 1
  {
    DownloadKeepsOutcome(img, h, m, mem);
    var c := ChunkAt(img, m.chunk);
    if m.chunkCount <= img.Hart(h).lastChunk && c.size != 0 && Mine(img, h, c) {
      SubChunksStep(c.size, m.subOffset);
    }
  }

  lemma ZeroInitTakesOneCall(img: Image, h: nat, m: Machine, mem: seq<byte>, o: Oracle)
    requires img.Valid() && IsHart(h) && Underway(img, h, m) && !m.loaded && Effective(img, m, h, o)
    requires m.state == ZeroInit && m.prev == Was(ZeroInit)
    ensures var m' := HandleZeroInit(img, m, mem, h, o).0;
            Underway(img, h, m') && CallsLeft(img, h, m') == CallsLeft(img, h, m) - 1
  {
  }

  /** An effective call brings the download one call nearer. */
  lemma StepTakesOneCall(img: Image, sys: System, h: nat, o: Oracle)
    requires img.Valid() && sys.Valid() && IsHart(h) && !img.Hart(h).skipAutoboot
    requires Going(img, h, sys.M(h)) && !sys.M(h).loaded && Willing(img, sys.M(h), h, o) && Effective(img, sys.M(h), h, o)
    ensures var m' := Step(img, sys, h, o).m;
            Underway(img, h, m') && CallsLeft(img, h, m') == CallsLeft(img, h, sys.M(h)) - 1
  {
    var m := Hooks(img, sys.M(h), h, o);
    HooksKeepCalls(img, h, sys.M(h), o);
    if m.state == Download && img.Hart(h).numChunks != 0 {
      DownloadTakesOneCall(img, h, m, sys.mem);
    } else if m.state == ZeroInit {
      ZeroInitTakesOneCall(img, h, m, sys.mem, o);
    }
  }

  /** Any other call that does not fail leaves the machine where it is, and memory and event alone. */
  lemma IneffectiveCallWaits(img: Image, sys: System, h: nat, o: Oracle)
    requires img.Valid() && sys.Valid() && IsHart(h) && !Effective(img, sys.M(h), h, o) && Willing(img, sys.M(h), h, o)
    requires sys.M(h).state == Wait ==> !o.timeout
    ensures var m, e := sys.M(h), Step(img, sys, h, o);
            && e.mem == sys.mem && e.event == sys.event
            && e.m.state == m.state && e.m.loaded == m.loaded && e.m.complete == m.complete
            && e.m == Hooks(img, m, h, o)
  {
  }

  lemma WaitingTakesNoCall(img: Image, sys: System, h: nat, o: Oracle)
    requires img.Valid() && sys.Valid() && IsHart(h)
    requires Going(img, h, sys.M(h)) && !sys.M(h).loaded && Willing(img, sys.M(h), h, o) && !Effective(img, sys.M(h), h, o)
    ensures var m' := Step(img, sys, h, o).m;
            Underway(img, h, m') && CallsLeft(img, h, m') == CallsLeft(img, h, sys.M(h))
  {
    IneffectiveCallWaits(img, sys, h, o);
    HooksKeepCalls(img, h, sys.M(h), o);
  }

  lemma LoadedStays(img: Image, sys: System, h: nat, o: Oracle)
    requires img.Valid() && sys.Valid() && IsHart(h) && Underway(img, h, sys.M(h)) && sys.M(h).loaded
    ensures var m' := Step(img, sys, h, o).m; Underway(img, h, m') && m'.loaded
  {
    HooksKeepOutcome(img, h, sys.M(h), o, sys.mem);
    PastHandler(img, sys, h, Hooks(img, sys.M(h), h, o), sys.M(h).state, o);
  }

  // -------------------------------------------------------------------------- runs

  /** The calls that a schedule gives to hart h. */
  ghost function CallsTo(actions: seq<Action>, h: nat): nat
    decreases |actions|
  {
    if actions == [] then 0
    else CallsTo(actions[..|actions| - 1], h) + if actions[|actions| - 1].h == h then 1 else 0
  }

  ghost predicate AllProper(actions: seq<Action>) {
    forall k :: 0 <= k < |actions| ==> Proper(actions[k])
  }

  /** Among these the effective ones. */
  ghost function EffectiveCalls(img: Image, sys: System, actions: seq<Action>, h: nat): nat
    requires img.Valid() && sys.Valid() && IsHart(h) && AllProper(actions)
    decreases |actions|
  {
    if actions == [] then 0
    else
      var n := |actions| - 1;
      var a := actions[n];
      EffectiveCalls(img, sys, actions[..n], h)
      + if a.Call? && a.h == h && Effective(img, RunAll(img, sys, actions[..n]).M(h), h, a.o) then 1 else 0
  }

  /** Hart h is not restarted, and no call to it fails in its set-up before it is loaded. */
  ghost predicate WillingRun(img: Image, sys: System, actions: seq<Action>, h: nat)
    requires img.Valid() && sys.Valid() && IsHart(h) && AllProper(actions)
    decreases |actions|
  {
    actions != [] ==>
      var n := |actions| - 1;
      var a, m := actions[n], RunAll(img, sys, actions[..n]).M(h);
      WillingRun(img, sys, actions[..n], h)
      && (a.h == h ==> a.Call? && (m.loaded || Willing(img, m, h, a.o)))
  }

  lemma ActTakesCalls(img: Image, sys: System, a: Action, h: nat)
    requires img.Valid() && sys.Valid() && IsHart(h) && !img.Hart(h).skipAutoboot && Proper(a)
    requires Going(img, h, sys.M(h)) && (a.h == h ==> a.Call? && (sys.M(h).loaded || Willing(img, sys.M(h), h, a.o)))
    ensures var m, m' := sys.M(h), Act(img, sys, a).M(h);
            && Going(img, h, m')
            && CallsLeft(img, h, m') ==
               (if a.h == h && Effective(img, m, h, a.o) && CallsLeft(img, h, m) > 0 then CallsLeft(img, h, m) - 1 else CallsLeft(img, h, m))
  {
    if a.h == h {
      if sys.M(h).loaded {
        LoadedStays(img, sys, h, a.o);
      } else if Effective(img, sys.M(h), h, a.o) {
        StepTakesOneCall(img, sys, h, a.o);
      } else {
        WaitingTakesNoCall(img, sys, h, a.o);
      }
    }
  }

  lemma NoCallsLeft(img: Image, h: nat, m: Machine)
    requires img.Valid() && IsHart(h) && Going(img, h, m)
    ensures CallsLeft(img, h, m) == 0 <==> m.loaded
  {
  }

  /** The calls that a hart's own tables ask for. */
  ghost function Needed(img: Image, h: nat): nat
    requires img.Valid() && IsHart(h)
  {
    3 + ZiCalls(img, 0) + DownloadCalls(img, h)
  }

  /** In every interleaving, with any restarts of other harts, a hart whose set-up does not fail is
      loaded exactly when its effective calls have reached the number that its own tables ask for. */
  lemma {:induction false} LoadedAfterEffective(img: Image, sys: System, actions: seq<Action>, h: nat)
    requires img.Valid() && sys.Valid() && IsHart(h) && !img.Hart(h).skipAutoboot && Waiting(sys.M(h))
    requires AllProper(actions) && WillingRun(img, sys, actions, h)
    ensures var m, n := RunAll(img, sys, actions).M(h), EffectiveCalls(img, sys, actions, h);
            && Going(img, h, m)
            && CallsLeft(img, h, m) == (if n < Needed(img, h) then Needed(img, h) - n else 0)
            && (m.loaded <==> n >= Needed(img, h))
    decreases |actions|
  {
    if actions != [] {
      var n := |actions| - 1;
      LoadedAfterEffective(img, sys, actions[..n], h);
      ActTakesCalls(img, RunAll(img, sys, actions[..n]), actions[n], h);
    }
    NoCallsLeft(img, h, RunAll(img, sys, actions).M(h));
  }

  lemma {:induction false} CooperativeCalls(img: Image, sys: System, actions: seq<Action>, h: nat)
    requires img.Valid() && sys.Valid() && IsHart(h) && !img.Hart(h).skipAutoboot
    requires Waiting(sys.M(h)) && sys.M(h).prev != Was(OpenSbiInit)
    requires forall k :: 0 <= k < |actions| ==> Proper(actions[k]) && actions[k].Call? && (actions[k].h == h ==> Cooperative(actions[k].o))
    ensures WillingRun(img, sys, actions, h) && EffectiveCalls(img, sys, actions, h) == CallsTo(actions, h)
    ensures Underway(img, h, RunAll(img, sys, actions).M(h))
    decreases |actions|
  {
    if actions != [] {
      var n := |actions| - 1;
      var before := RunAll(img, sys, actions[..n]);
      CooperativeCalls(img, sys, actions[..n], h);
      if actions[n].h == h {
        if before.M(h).loaded {
          LoadedStays(img, before, h, actions[n].o);
        } else {
          StepTakesOneCall(img, before, h, actions[n].o);
        }
      }
    }
  }

  /** In every interleaving in which the calls to hart h are cooperative, it is loaded exactly when it
      has had the calls that its own tables ask for. */
  lemma LoadedAfterExactly(img: Image, sys: System, actions: seq<Action>, h: nat)
    requires img.Valid() && sys.Valid() && IsHart(h) && !img.Hart(h).skipAutoboot
    requires sys.M(h).state == Init && sys.M(h).prev != Was(OpenSbiInit) && !sys.M(h).loaded
    requires forall k :: 0 <= k < |actions| ==> Proper(actions[k]) && actions[k].Call? && (actions[k].h == h ==> Cooperative(actions[k].o))
    ensures var m, needed := RunAll(img, sys, actions).M(h), 3 + ZiCalls(img, 0) + DownloadCalls(img, h);
            && Underway(img, h, m)
            && CallsLeft(img, h, m) == (if CallsTo(actions, h) < needed then needed - CallsTo(actions, h) else 0)
            && (m.loaded <==> CallsTo(actions, h) >= needed)
  {
    CooperativeCalls(img, sys, actions, h);
    LoadedAfterEffective(img, sys, actions, h);
  }
}
