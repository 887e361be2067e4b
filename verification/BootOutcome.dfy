/** What a raised completion event says about each hart's download, and when it can never be raised. */
module BootOutcome {
  import opened BootImage
  import opened BootMachine
  import opened BootMemory
  import opened BootProgress
  import opened BootSets

  /** The hart has nothing to download, or somewhere to start afterwards. */
  ghost predicate CanFinish(img: Image, h: nat)
    requires img.Valid() && IsHart(h)
  {
    img.Hart(h).numChunks == 0 || img.Hart(h).entryPoint != 0
  }

  /** All machines wait for their first boot, and nothing has completed. */
  ghost predicate FirstBoot(sys: System) {
    && Start(sys) && !sys.event
    && (forall h: nat :: IsHart(h) ==> !sys.M(h).complete && sys.M(h).prev != Was(OpenSbiInit))
  }

  ghost predicate AllCalls(actions: seq<Action>) {
    forall k :: 0 <= k < |actions| ==> Proper(actions[k]) && actions[k].Call?
  }

  /** The set-up fails in this call: no image when leaving Init, the message of a hand-over that a
      restart broke off undeliverable while there is nothing to do in Init, or a protection set-up
      timed out. */
  ghost predicate FailsSetup(img: Image, m: Machine, h: nat, o: Oracle)
    requires img.Valid() && IsHart(h)
  {
    match m.state
    case Init => if o.ready then !o.registered else HandOverFails(img, m, h, o)
    case SetupPmpComplete => o.pmpTimeout
    case _ => false
  }

  /** The action restarts hart h; one that is handing over takes no notice. */
  predicate Restarts(a: Action, h: nat, m: Machine) {
    a.Restart? && a.h == h && m.state != OpenSbiInit
  }

  /** Since its last restart some call to hart h has failed in its set-up. */
  ghost predicate SetupFailed(img: Image, sys: System, actions: seq<Action>, h: nat)
    requires img.Valid() && sys.Valid() && IsHart(h) && AllProper(actions)
    decreases |actions|
  {
    actions != [] &&
      var n := |actions| - 1;
      var m := RunAll(img, sys, actions[..n]).M(h);
      !Restarts(actions[n], h, m)
      && (SetupFailed(img, sys, actions[..n], h)
          || (actions[n].Call? && actions[n].h == h && FailsSetup(img, m, h, actions[n].o)))
  }

  /** Hart h has been restarted and not been found in Complete since. */
  ghost predicate Again(img: Image, sys: System, actions: seq<Action>, h: nat)
    requires img.Valid() && sys.Valid() && IsHart(h) && AllProper(actions)
    decreases |actions|
  {
    actions != [] &&
      var n := |actions| - 1;
      var m := RunAll(img, sys, actions[..n]).M(h);
      Restarts(actions[n], h, m)
      || (Again(img, sys, actions[..n], h) && !(actions[n].Call? && actions[n].h == h && m.state == Complete))
  }

  // ------------------------------------------------------------------- the account of one hart

  /** Where a machine can be, given whether its set-up has failed and whether it boots again. */
  ghost predicate Account(img: Image, h: nat, m: Machine, failed: bool, again: bool)
    requires img.Valid() && IsHart(h)
  {
    && (m.prev == Was(OpenSbiInit) ==> m.state == Init || (m.loaded && m.state in {OpenSbiInit, Wait, Error}))
    && (m.loaded ==> !failed && !img.Hart(h).skipAutoboot && Late(m.state) && (m.state == OpenSbiInit || CanFinish(img, h)))
    && (m.state in {OpenSbiInit, Wait} ==> m.loaded)
    && (m.state in {Complete, Error} || (m.complete && !again) ==> m.loaded || failed || img.Hart(h).skipAutoboot)
    && (failed ==> m.state in {Error, Complete, Idle})
    && (img.Hart(h).skipAutoboot ==> m.state !in {ZeroInit, Download})
    && (m.complete && !again ==> m.state in {Complete, Idle})
  }

  lemma HooksAccount(img: Image, h: nat, m: Machine, o: Oracle, failed: bool, again: bool)
    requires img.Valid() && IsHart(h) && Account(img, h, m, failed, again) && m.state != Init
    ensures var r, still := Hooks(img, m, h, o), again && m.state != Complete;
            && Account(img, h, r, failed, still)
            && r.prev == Was(r.state) && (r.state == m.state || (r.state == Error && m.state == Wait))
  {
  }

  lemma HandleAccount(img: Image, sys: System, h: nat, m: Machine, current: State, o: Oracle, failed: bool, again: bool)
    requires img.Valid() && sys.Valid() && IsHart(h) && Account(img, h, m, failed, again) && current != Init
    requires m.prev == Was(m.state) && (m.state == current || (m.state == Error && current == Wait))
    ensures Account(img, h, Handle(img, sys, m, h, current, o).m, failed || FailsSetup(img, m, h, o), again)
  {
  }

  /** From Init on, where a broken hand-over may still have its message to send. */
  lemma InitAccount(img: Image, sys: System, h: nat, o: Oracle, failed: bool, again: bool)
    requires img.Valid() && sys.Valid() && IsHart(h) && Account(img, h, sys.M(h), failed, again) && sys.M(h).state == Init
    ensures Account(img, h, Step(img, sys, h, o).m, failed || FailsSetup(img, sys.M(h), h, o), again)
  {
  }

  lemma CallAccount(img: Image, sys: System, h: nat, o: Oracle, failed: bool, again: bool)
    requires img.Valid() && sys.Valid() && IsHart(h) && Account(img, h, sys.M(h), failed, again)
    ensures Account(img, h, Step(img, sys, h, o).m, failed || FailsSetup(img, sys.M(h), h, o), again && sys.M(h).state != Complete)
  {
    var m := sys.M(h);
    if m.state == Init {
      InitAccount(img, sys, h, o, failed, again);
    } else {
      HooksAccount(img, h, m, o, failed, again);
      HandleAccount(img, sys, h, Hooks(img, m, h, o), m.state, o, failed, again && m.state != Complete);
    }
  }

  lemma {:induction false} RunAccount(img: Image, sys: System, actions: seq<Action>, h: nat)
    requires img.Valid() && FirstBoot(sys) && IsHart(h) && AllProper(actions)
    ensures Account(img, h, RunAll(img, sys, actions).M(h), SetupFailed(img, sys, actions, h), Again(img, sys, actions, h))
    decreases |actions|
  {
    if actions != [] {
      var n := |actions| - 1;
      var before, a := RunAll(img, sys, actions[..n]), actions[n];
      var failed, again := SetupFailed(img, sys, actions[..n], h), Again(img, sys, actions[..n], h);
      RunAccount(img, sys, actions[..n], h);
      if a.Call? && a.h == h {
        CallAccount(img, before, h, a.o, failed, again);
      }
    }
  }

  lemma {:induction false} NeverAgain(img: Image, sys: System, actions: seq<Action>, h: nat)
    requires img.Valid() && sys.Valid() && IsHart(h) && AllCalls(actions)
    ensures !Again(img, sys, actions, h)
    decreases |actions|
  {
    if actions != [] {
      NeverAgain(img, sys, actions[..|actions| - 1], h);
    }
  }

  // ------------------------------------------------------------------------ the event

  /** Whatever the order of calls and restarts and whatever fails: when the completion event has been
      raised, a hart that is not booting again has finished its download exactly if it is not told to
      skip booting and no call since its last restart failed in its set-up; then its memory is in
      place and it can finish. */
  lemma EventMeansLoaded(img: Image, sys: System, actions: seq<Action>, h: nat)
    requires img.Valid() && Disjoint(img) && FirstBoot(sys) && IsHart(h) && AllProper(actions)
    requires RunAll(img, sys, actions).event && !Again(img, sys, actions, h)
    ensures var r := RunAll(img, sys, actions);
            && (r.M(h).loaded <==> !img.Hart(h).skipAutoboot && !SetupFailed(img, sys, actions, h))
            && (r.M(h).loaded ==> AllZeroed(img, h, r.mem) && AllCopied(img, h, sys.mem, r.mem) && CanFinish(img, h))
  {
    FirstBootSafe(sys);
    EventIffAllComplete(img, sys, actions);
    RunAccount(img, sys, actions, h);
    MemoryCorrect(img, sys, actions, h);
  }

  lemma FirstBootSafe(sys: System)
    requires FirstBoot(sys)
    ensures EventSafe(sys)
  {
    assert IsHart(1) && !sys.M(1).complete;
  }

  // -------------------------------------------- the event without a single download

  /** Where the service starts: every machine is idle and has done nothing yet. */
  ghost predicate PowerOn(sys: System) {
    && sys.Valid() && !sys.event
    && forall g: nat :: IsHart(g) ==> sys.M(g).state == Idle && sys.M(g).prev == Nothing && !sys.M(g).complete && !sys.M(g).loaded
  }

  /** An image is registered and messages are sent, but nobody acknowledges the protection set-up. */
  const UNANSWERED := Oracle(true, true, false, true, true, false, false, false, false)

  /** The state after so many calls. */
  function Stage(n: nat): State {
    match n
    case 0 => Init
    case 1 => SetupPmp
    case 2 => SetupPmpComplete
    case 3 => Error
    case _ => Complete
  }

  /** The state remembered by then. */
  function Left(n: nat): Previous {
    if n == 0 then Nothing else Was(Stage(n - 1))
  }

  ghost function Unanswered(h: nat, n: nat): (r: seq<Action>)
    ensures IsHart(h) ==> AllCalls(r)
  {
    if n == 0 then [] else Unanswered(h, n - 1) + [Call(h, UNANSWERED)]
  }

  /** Only this hart's machine has changed, without a download. */
  ghost predicate OnlyMachine(sys: System, r: System, h: nat)
    requires sys.Valid() && r.Valid() && IsHart(h)
  {
    r.mem == sys.mem && r.M(h).loaded == sys.M(h).loaded && forall g: nat :: IsHart(g) && g != h ==> r.M(g) == sys.M(g)
  }

  ghost predicate Reached(r: System, h: nat, n: nat)
    requires r.Valid() && IsHart(h)
  {
    if n == 5 then r.M(h).complete else r.M(h).state == Stage(n) && r.M(h).prev == Left(n)
  }

  lemma NextStage(img: Image, sys: System, h: nat, n: nat)
    requires img.Valid() && sys.Valid() && IsHart(h) && n < 5 && Reached(sys, h, n)
    ensures var r := Act(img, sys, Call(h, UNANSWERED)); OnlyMachine(sys, r, h) && Reached(r, h, n + 1)
  {
  }

  lemma {:induction false} UnansweredStage(img: Image, sys: System, h: nat, n: nat)
    requires img.Valid() && sys.Valid() && IsHart(h) && n <= 5 && sys.M(h).state == Init && sys.M(h).prev == Nothing
    ensures var r := RunAll(img, sys, Unanswered(h, n));
            OnlyMachine(sys, r, h) && Reached(r, h, n)
  {
    if n > 0 {
      var k := n - 1;
      var before, all := Unanswered(h, k), Unanswered(h, n);
      UnansweredStage(img, sys, h, k);
      NextStage(img, RunAll(img, sys, before), h, k);
      assert all[..|all| - 1] == before && all[|all| - 1] == Call(h, UNANSWERED);
      assert RunAll(img, sys, all) == Act(img, RunAll(img, sys, before), Call(h, UNANSWERED));
    }
  }

  /** Five calls to each of the harts 1 to n. */
  ghost function FailedBoots(n: nat): (r: seq<Action>)
    ensures n <= 4 ==> AllCalls(r)
  {
    if n == 0 then [] else FailedBoots(n - 1) + Unanswered(n, 5)
  }

  /** The harts 1 to n have completed and the others are as they were, all without a download. */
  ghost predicate BootedTo(sys: System, r: System, n: nat)
    requires sys.Valid() && r.Valid()
  {
    && r.mem == sys.mem
    && (forall g: nat :: IsHart(g) ==> r.M(g).loaded == sys.M(g).loaded)
    && (forall g: nat :: IsHart(g) ==> if g <= n then r.M(g).complete else r.M(g) == sys.M(g))
  }

  lemma NextBoot(img: Image, sys: System, m: System, n: nat)
    requires img.Valid() && sys.Valid() && m.Valid() && IsHart(n) && BootedTo(sys, m, n - 1)
    requires sys.M(n).state == Init && sys.M(n).prev == Nothing
    ensures BootedTo(sys, RunAll(img, m, Unanswered(n, 5)), n)
  {
    UnansweredStage(img, m, n, 5);
  }

  lemma {:induction false} FailedBootsComplete(img: Image, sys: System, n: nat)
    requires img.Valid() && sys.Valid() && n <= 4
    requires forall g: nat :: IsHart(g) ==> sys.M(g).state == Init && sys.M(g).prev == Nothing
    ensures BootedTo(sys, RunAll(img, sys, FailedBoots(n)), n)
  {
    if n > 0 {
      var before, next := FailedBoots(n - 1), Unanswered(n, 5);
      FailedBootsComplete(img, sys, n - 1);
      NextBoot(img, sys, RunAll(img, sys, before), n);
      RunInParts(img, sys, before, next);
    }
  }

  /** From power-on: one request that restarts all four harts, and set-ups that time out. */
  ghost function Timeouts(): (r: seq<Action>)
    ensures AllProper(r)
  {
    Requests(ALL_HARTS, 4) + FailedBoots(4)
  }

  /** After the boot request: the chosen machines are in Init and the others idle. */
  ghost predicate Requested(r: System, chosen: set<nat>) {
    && r.Valid() && !r.event
    && forall g: nat :: IsHart(g) ==>
         && r.M(g).state == (if g in chosen then Init else Idle)
         && r.M(g).prev == Nothing && !r.M(g).complete && !r.M(g).loaded
  }

  lemma RestartedAreRequested(sys: System, chosen: set<nat>, some: set<nat>)
    requires PowerOn(sys) && forall g: nat :: IsHart(g) ==> (g in some <==> g in chosen)
    ensures Requested(System(RestartedSet(sys.machines, some), sys.mem, sys.event), chosen)
  {
  }

  lemma BootRequest(img: Image, sys: System, chosen: set<nat>, n: nat)
    requires img.Valid() && PowerOn(sys) && n == 4
    ensures var r := RunAll(img, sys, Requests(chosen, n)); Requested(r, chosen) && r.mem == sys.mem
  {
    RequestsRestart(img, sys, chosen, n);
    RestartedAreRequested(sys, chosen, UpTo(chosen, n));
  }

  lemma AllRestarted(img: Image, sys: System, asked: seq<Action>, n: nat)
    requires img.Valid() && PowerOn(sys) && n == 4 && asked == Requests(ALL_HARTS, n)
    ensures var r := RunAll(img, sys, asked);
            r.mem == sys.mem && forall g: nat :: IsHart(g) ==> r.M(g).state == Init && r.M(g).prev == Nothing && !r.M(g).loaded
  {
    BootRequest(img, sys, ALL_HARTS, n);
  }

  lemma PowerOnIsFirst(sys: System)
    requires PowerOn(sys)
    ensures FirstBoot(sys)
  {
  }

  lemma EventOnceAllComplete(img: Image, sys: System, actions: seq<Action>, r: System)
    requires img.Valid() && FirstBoot(sys) && AllProper(actions) && r == RunAll(img, sys, actions)
    requires forall g: nat :: IsHart(g) ==> r.M(g).complete
    ensures r.event
  {
    FirstBootSafe(sys);
    EventIffAllComplete(img, sys, actions);
  }

  lemma {:induction false} AllRequests(harts: set<nat>, n: nat)
    requires n <= 4
    ensures forall a :: a in Requests(harts, n) ==> a.Restart?
  {
    if n > 0 {
      AllRequests(harts, n - 1);
    }
  }

  lemma {:induction false} UnansweredRegistered(h: nat, n: nat)
    ensures forall a :: a in Unanswered(h, n) ==> a == Call(h, UNANSWERED)
  {
    if n > 0 {
      UnansweredRegistered(h, n - 1);
    }
  }

  lemma {:induction false} FailedBootsRegistered(n: nat)
    requires n <= 4
    ensures forall a :: a in FailedBoots(n) ==> a.Call? && a.o.registered
  {
    if n > 0 {
      FailedBootsRegistered(n - 1);
      UnansweredRegistered(n, 5);
    }
  }

  /** An image is registered at every call. */
  ghost predicate RegisteredAlong(actions: seq<Action>) {
    forall a :: a in actions && a.Call? ==> a.o.registered
  }

  lemma TimeoutsRegistered()
    ensures RegisteredAlong(Timeouts())
  {
    AllRequests(ALL_HARTS, 4);
    FailedBootsRegistered(4);
  }

  lemma TimeoutsComplete(img: Image, sys: System, asked: seq<Action>, boots: seq<Action>, n: nat, all: seq<Action>, r: System)
    requires img.Valid() && PowerOn(sys) && n == 4 && asked == Requests(ALL_HARTS, n) && boots == FailedBoots(n)
    requires all == asked + boots && AllProper(all) && r == RunAll(img, sys, all)
    ensures r.mem == sys.mem && forall g: nat :: IsHart(g) ==> r.M(g).complete && !r.M(g).loaded
  {
    AllRestarted(img, sys, asked, n);
    RunInParts(img, sys, asked, boots);
    FailedBootsComplete(img, RunAll(img, sys, asked), n);
  }

  lemma TimeoutsRun(img: Image, sys: System, all: seq<Action>, r: System)
    requires img.Valid() && PowerOn(sys) && all == Timeouts() && AllProper(all) && r == RunAll(img, sys, all)
    ensures r.event && r.mem == sys.mem && forall g: nat :: IsHart(g) ==> !r.M(g).loaded
  {
    TimeoutsComplete(img, sys, Requests(ALL_HARTS, 4), FailedBoots(4), 4, all, r);
    PowerOnIsFirst(sys);
    EventOnceAllComplete(img, sys, all, r);
  }

  /** With an image registered all along, this run raises the event though nothing has been downloaded
      and no byte of memory has changed. */
  lemma EventWithoutDownload(img: Image, sys: System)
    requires img.Valid() && PowerOn(sys)
    ensures RegisteredAlong(Timeouts())
    ensures var r := RunAll(img, sys, Timeouts());
            r.event && r.mem == sys.mem && forall g: nat :: IsHart(g) ==> !r.M(g).loaded
  {
    TimeoutsRegistered();
    TimeoutsRun(img, sys, Timeouts(), RunAll(img, sys, Timeouts()));
  }

  /** If all harts skip their boot no run writes a byte or finishes a download. */
  lemma {:induction false} SkippedWritesNothing(img: Image, sys: System, actions: seq<Action>)
    requires img.Valid() && FirstBoot(sys) && AllProper(actions) && forall g: nat :: IsHart(g) ==> img.Hart(g).skipAutoboot
    ensures RunAll(img, sys, actions).mem == sys.mem
    ensures forall g: nat :: IsHart(g) ==> !RunAll(img, sys, actions).M(g).loaded
    decreases |actions|
  {
    forall g: nat | IsHart(g)
      ensures !RunAll(img, sys, actions).M(g).loaded
    {
      RunAccount(img, sys, actions, g);
    }
    if actions != [] {
      var n := |actions| - 1;
      SkippedWritesNothing(img, sys, actions[..n]);
      RunAccount(img, sys, actions[..n], actions[n].h);
    }
  }

  // ------------------------------------------------------------------- a hart that cannot finish

  /** In OpenSbiInit, not primary, and its flag not set. */
  ghost predicate Stuck(img: Image, sys: System, h: nat)
    requires img.Valid() && sys.Valid() && IsHart(h)
  {
    !img.Hart(h).Primary() && sys.M(h).state == OpenSbiInit && !sys.M(h).complete
  }

  lemma StuckStays(img: Image, sys: System, a: Action, h: nat)
    requires img.Valid() && sys.Valid() && Proper(a) && IsHart(h) && Stuck(img, sys, h)
    ensures Stuck(img, Act(img, sys, a), h)
  {
  }

  /** A stuck hart stays so under all calls and restarts, and the event is not raised. */
  lemma {:induction false} NoEventOnceStuck(img: Image, sys: System, actions: seq<Action>, h: nat)
    requires img.Valid() && sys.Valid() && IsHart(h) && Stuck(img, sys, h) && EventSafe(sys)
    requires forall k :: 0 <= k < |actions| ==> Proper(actions[k])
    ensures Stuck(img, RunAll(img, sys, actions), h) && !RunAll(img, sys, actions).event
    decreases |actions|
  {
    EventIffAllComplete(img, sys, actions);
    if actions != [] {
      var n := |actions| - 1;
      NoEventOnceStuck(img, sys, actions[..n], h);
      StuckStays(img, RunAll(img, sys, actions[..n]), actions[n], h);
    }
  }

  /** Whatever the calls and restarts: a hart with chunks but no entry point is stuck exactly if it has
      finished its download before its flag was ever set. */
  lemma StuckIffLoaded(img: Image, sys: System, actions: seq<Action>, h: nat)
    requires img.Valid() && FirstBoot(sys) && IsHart(h) && AllProper(actions) && !CanFinish(img, h)
    ensures var r := RunAll(img, sys, actions);
            && (Stuck(img, r, h) <==> r.M(h).loaded && !r.M(h).complete)
            && (AllCalls(actions) ==> (Stuck(img, r, h) <==> r.M(h).loaded))
  {
    RunAccount(img, sys, actions, h);
    if AllCalls(actions) {
      NeverAgain(img, sys, actions, h);
    }
  }

  /** So once such a hart has had the cooperative calls that its tables ask for, no calls or restarts
      whatsoever raise the event. */
  lemma NeverAfterDownload(img: Image, sys: System, boot: seq<Action>, later: seq<Action>, h: nat)
    requires img.Valid() && FirstBoot(sys) && IsHart(h) && sys.M(h).state == Init
    requires !CanFinish(img, h) && !img.Hart(h).skipAutoboot
    requires AllCalls(boot) && forall k :: 0 <= k < |boot| && boot[k].h == h ==> Cooperative(boot[k].o)
    requires forall k :: 0 <= k < |later| ==> Proper(later[k])
    requires CallsTo(boot, h) >= 3 + ZiCalls(img, 0) + DownloadCalls(img, h)
    ensures forall k :: 0 <= k < |boot + later| ==> Proper((boot + later)[k])
    ensures Stuck(img, RunAll(img, sys, boot + later), h) && !RunAll(img, sys, boot + later).event
  {
    LoadedAfterExactly(img, sys, boot, h);
    StuckIffLoaded(img, sys, boot, h);
    FirstBootSafe(sys);
    EventIffAllComplete(img, sys, boot);
    RunInParts(img, sys, boot, later);
    NoEventOnceStuck(img, RunAll(img, sys, boot), later, h);
  }
}
