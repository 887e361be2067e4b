/** When exactly the completion event is raised, if nothing fails. */
module BootCompletion {
  import opened BootImage
  import opened BootMachine
  import opened BootCustom
  import opened BootProgress
  import opened BootOutcome
  import opened BootSets

  /** The environment cooperates, and messages are delivered and acknowledged in time. */
  ghost predicate Delivered(o: Oracle) {
    Cooperative(o) && o.delivered && o.deliveredSelf && !o.timeout
  }

  /** Nothing fails in this call, though what the machine waits for may not be there yet. */
  ghost predicate Unfailing(o: Oracle) {
    o.registered && !o.pmpTimeout && !o.timeout && o.delivered && o.deliveredSelf
  }

  /** Calls from the end of the download until the flag is set: four peers, the hand-over, the wait and
      the entry into Complete; or that entry alone. */
  function Tail(img: Image, h: nat): nat
    requires |img.harts| == 4 && IsHart(h)
  {
    if img.Hart(h).numChunks == 0 then 1 else 7
  }

  /** Calls from Init until the flag is set. */
  ghost function FlagCalls(img: Image, h: nat): nat
    requires img.Valid() && IsHart(h)
  {
    if img.Hart(h).skipAutoboot then 4 else 3 + ZiCalls(img, 0) + DownloadCalls(img, h) + Tail(img, h)
  }

  ghost predicate Completes(img: Image, h: nat)
    requires img.Valid() && IsHart(h)
  {
    img.Hart(h).skipAutoboot || CanFinish(img, h)
  }

  /** The calls that a machine still needs until its flag is set. */
  ghost function FlagLeft(img: Image, h: nat, m: Machine): int
    requires img.Valid() && IsHart(h)
  {
    if m.complete then 0
    else match m.state
      case Complete => 1
      case Wait => 2
      case OpenSbiInit => 3 + (if m.prev == Was(OpenSbiInit) then 4 - m.nextPeer else 4)
      case Init => FlagCalls(img, h)
      case SetupPmp => FlagCalls(img, h) - 1
      case SetupPmpComplete => FlagCalls(img, h) - 2
      case _ => CallsLeft(img, h, m) + Tail(img, h)
  }

  ghost predicate OnCourse(img: Image, h: nat, m: Machine)
    requires img.Valid() && IsHart(h)
  {
    && Remembers(m)
    && (if m.complete then m.state in {Complete, Idle} else m.state != Error && m.state != Idle)
    && (m.prev == Was(OpenSbiInit) ==> m.state == OpenSbiInit || m.state == Wait)
    && (m.prev == Was(OpenSbiInit) && m.state == OpenSbiInit ==> m.nextPeer <= 4)
    && (m.state in {OpenSbiInit, Wait} ==> img.Hart(h).numChunks != 0)
    && (img.Hart(h).skipAutoboot ==> m.state !in {ZeroInit, Download, OpenSbiInit, Wait})
    && (Before(m.state) ==> Underway(img, h, m) && !m.loaded)
  }

  /** Past the download, one call nearer. */
  lemma LateCall(img: Image, sys: System, h: nat, o: Oracle)
    requires img.Valid() && sys.Valid() && IsHart(h) && Unfailing(o) && Effective(img, sys.M(h), h, o) && CanFinish(img, h)
    requires OnCourse(img, h, sys.M(h)) && !Before(sys.M(h).state) && !sys.M(h).complete
    ensures var m' := Step(img, sys, h, o).m; OnCourse(img, h, m') && FlagLeft(img, h, m') == FlagLeft(img, h, sys.M(h)) - 1
  {
  }

  /** Before and during the set-up. */
  lemma EarlyCall(img: Image, sys: System, h: nat, o: Oracle)
    requires img.Valid() && sys.Valid() && IsHart(h) && Unfailing(o) && Effective(img, sys.M(h), h, o)
    requires OnCourse(img, h, sys.M(h)) && sys.M(h).state in {Init, SetupPmp, SetupPmpComplete}
    ensures var m' := Step(img, sys, h, o).m; OnCourse(img, h, m') && FlagLeft(img, h, m') == FlagLeft(img, h, sys.M(h)) - 1
  {
  }

  /** What a call that ends a download leaves. */
  lemma DownloadEnds(img: Image, sys: System, h: nat, o: Oracle)
    requires img.Valid() && sys.Valid() && IsHart(h) && Unfailing(o) && Effective(img, sys.M(h), h, o) && OnCourse(img, h, sys.M(h))
    requires sys.M(h).state in {ZeroInit, Download}
    ensures var m' := Step(img, sys, h, o).m;
            && !m'.complete && m'.prev == Was(sys.M(h).state)
            && (if !m'.loaded then m'.state in {ZeroInit, Download}
                else m'.state == if img.Hart(h).numChunks == 0 then Complete else OpenSbiInit)
  {
  }

  lemma LoadingCall(img: Image, sys: System, h: nat, o: Oracle)
    requires img.Valid() && sys.Valid() && IsHart(h) && Unfailing(o) && Effective(img, sys.M(h), h, o)
    requires OnCourse(img, h, sys.M(h)) && sys.M(h).state in {ZeroInit, Download}
    ensures var m' := Step(img, sys, h, o).m; OnCourse(img, h, m') && FlagLeft(img, h, m') == FlagLeft(img, h, sys.M(h)) - 1
  {
    StepTakesOneCall(img, sys, h, o);
    DownloadEnds(img, sys, h, o);
  }

  lemma CompletedCall(img: Image, sys: System, h: nat, o: Oracle)
    requires img.Valid() && sys.Valid() && IsHart(h) && OnCourse(img, h, sys.M(h)) && sys.M(h).complete
    ensures var m' := Step(img, sys, h, o).m; OnCourse(img, h, m') && m'.complete
  {
  }

  /** A machine that skips its boot is past the set-up only in Complete. */
  lemma SkippedCall(img: Image, sys: System, h: nat, o: Oracle)
    requires img.Valid() && sys.Valid() && IsHart(h) && Unfailing(o) && Effective(img, sys.M(h), h, o) && img.Hart(h).skipAutoboot
    requires OnCourse(img, h, sys.M(h)) && !Before(sys.M(h).state) && !sys.M(h).complete
    ensures var m' := Step(img, sys, h, o).m; OnCourse(img, h, m') && FlagLeft(img, h, m') == FlagLeft(img, h, sys.M(h)) - 1
  {
  }

  /** A call that is unsent, unanswered or blocked changes nothing that counts. */
  lemma UnansweredCall(img: Image, sys: System, h: nat, o: Oracle)
    requires img.Valid() && sys.Valid() && IsHart(h) && Unfailing(o) && !Effective(img, sys.M(h), h, o)
    requires OnCourse(img, h, sys.M(h))
    ensures var m' := Step(img, sys, h, o).m; OnCourse(img, h, m') && FlagLeft(img, h, m') == FlagLeft(img, h, sys.M(h))
  {
    IneffectiveCallWaits(img, sys, h, o);
    if sys.M(h).state in {ZeroInit} {
      HooksKeepCalls(img, h, sys.M(h), o);
    }
  }

  lemma ActTakesFlagCall(img: Image, sys: System, a: Action, h: nat)
    requires img.Valid() && sys.Valid() && IsHart(h) && Proper(a) && a.Call? && (a.h == h ==> Unfailing(a.o))
    requires OnCourse(img, h, sys.M(h)) && Completes(img, h)
    ensures var m, m' := sys.M(h), Act(img, sys, a).M(h);
            && OnCourse(img, h, m')
            && FlagLeft(img, h, m') ==
               (if a.h == h && !m.complete && Effective(img, m, h, a.o) then FlagLeft(img, h, m) - 1 else FlagLeft(img, h, m))
  {
    if a.h == h {
      var m := sys.M(h);
      if m.complete {
        CompletedCall(img, sys, h, a.o);
      } else if !Effective(img, m, h, a.o) {
        UnansweredCall(img, sys, h, a.o);
      } else if m.state in {Init, SetupPmp, SetupPmpComplete} {
        EarlyCall(img, sys, h, a.o);
      } else if Before(m.state) {
        LoadingCall(img, sys, h, a.o);
      } else if img.Hart(h).skipAutoboot {
        SkippedCall(img, sys, h, a.o);
      } else {
        LateCall(img, sys, h, a.o);
      }
    }
  }

  lemma NoFlagCallsLeft(img: Image, h: nat, m: Machine)
    requires img.Valid() && IsHart(h) && OnCourse(img, h, m)
    ensures FlagLeft(img, h, m) >= 0 && (FlagLeft(img, h, m) == 0 <==> m.complete)
  {
  }

  ghost predicate DeliveredTo(actions: seq<Action>, h: nat) {
    forall k :: 0 <= k < |actions| && actions[k].Call? && actions[k].h == h ==> Delivered(actions[k].o)
  }

  ghost predicate UnfailingTo(actions: seq<Action>, h: nat) {
    forall k :: 0 <= k < |actions| && actions[k].Call? && actions[k].h == h ==> Unfailing(actions[k].o)
  }

  lemma {:induction false} FlagCountsDown(img: Image, sys: System, actions: seq<Action>, h: nat)
    requires img.Valid() && FirstBoot(sys) && IsHart(h) && sys.M(h).state == Init && Completes(img, h)
    requires AllCalls(actions) && UnfailingTo(actions, h)
    ensures var m, n := RunAll(img, sys, actions).M(h), EffectiveCalls(img, sys, actions, h);
            && OnCourse(img, h, m)
            && FlagLeft(img, h, m) == (if n < FlagCalls(img, h) then FlagCalls(img, h) - n else 0)
    decreases |actions|
  {
    if actions != [] {
      var n := |actions| - 1;
      FlagCountsDown(img, sys, actions[..n], h);
      var before := RunAll(img, sys, actions[..n]);
      NoFlagCallsLeft(img, h, before.M(h));
      ActTakesFlagCall(img, before, actions[n], h);
    }
  }

  lemma {:induction false} NoSetupFails(img: Image, sys: System, actions: seq<Action>, h: nat)
    requires img.Valid() && sys.Valid() && IsHart(h) && AllCalls(actions) && UnfailingTo(actions, h)
    ensures !SetupFailed(img, sys, actions, h)
    decreases |actions|
  {
    if actions != [] {
      NoSetupFails(img, sys, actions[..|actions| - 1], h);
    }
  }

  /** In every interleaving in which no call to hart h fails, its flag is set exactly when it skips its
      boot or can finish, and its effective calls have reached the number that its tables and its
      peers ask for. */
  lemma FlagAfterEffective(img: Image, sys: System, actions: seq<Action>, h: nat)
    requires img.Valid() && FirstBoot(sys) && IsHart(h) && sys.M(h).state == Init
    requires AllCalls(actions) && UnfailingTo(actions, h)
    ensures RunAll(img, sys, actions).M(h).complete
            <==> Completes(img, h) && EffectiveCalls(img, sys, actions, h) >= FlagCalls(img, h)
  {
    var m := RunAll(img, sys, actions).M(h);
    if Completes(img, h) {
      FlagCountsDown(img, sys, actions, h);
      NoFlagCallsLeft(img, h, m);
    } else {
      NoSetupFails(img, sys, actions, h);
      NeverAgain(img, sys, actions, h);
      RunAccount(img, sys, actions, h);
    }
  }

  /** So the event has been raised exactly if this holds for every hart. */
  lemma EventAfterEffective(img: Image, sys: System, actions: seq<Action>)
    requires img.Valid() && FirstBoot(sys) && AllCalls(actions)
    requires forall h: nat :: IsHart(h) ==> sys.M(h).state == Init && UnfailingTo(actions, h)
    ensures RunAll(img, sys, actions).event <==>
            forall h: nat :: IsHart(h) ==> Completes(img, h) && EffectiveCalls(img, sys, actions, h) >= FlagCalls(img, h)
  {
    FirstBootSafe(sys);
    EventIffAllComplete(img, sys, actions);
    forall h: nat | IsHart(h)
      ensures RunAll(img, sys, actions).M(h).complete
              <==> Completes(img, h) && EffectiveCalls(img, sys, actions, h) >= FlagCalls(img, h)
    {
      FlagAfterEffective(img, sys, actions, h);
    }
  }

  lemma {:induction false} DeliveredCalls(img: Image, sys: System, actions: seq<Action>, h: nat)
    requires img.Valid() && sys.Valid() && IsHart(h) && AllCalls(actions) && DeliveredTo(actions, h)
    ensures EffectiveCalls(img, sys, actions, h) == CallsTo(actions, h)
    decreases |actions|
  {
    if actions != [] {
      DeliveredCalls(img, sys, actions[..|actions| - 1], h);
    }
  }

  /** In particular in every interleaving in which the calls to hart h are delivered, when it has had
      that number of calls. */
  lemma FlagAfterExactly(img: Image, sys: System, actions: seq<Action>, h: nat)
    requires img.Valid() && FirstBoot(sys) && IsHart(h) && sys.M(h).state == Init
    requires AllCalls(actions) && DeliveredTo(actions, h)
    ensures RunAll(img, sys, actions).M(h).complete <==> Completes(img, h) && CallsTo(actions, h) >= FlagCalls(img, h)
  {
    FlagAfterEffective(img, sys, actions, h);
    DeliveredCalls(img, sys, actions, h);
  }

  /** In every interleaving of delivered calls the completion event has been raised exactly if every
      hart skips its boot or can finish, and has had its calls. */
  lemma EventAfterExactly(img: Image, sys: System, actions: seq<Action>)
    requires img.Valid() && FirstBoot(sys) && AllCalls(actions)
    requires forall h: nat :: IsHart(h) ==> sys.M(h).state == Init && DeliveredTo(actions, h)
    ensures RunAll(img, sys, actions).event <==>
            forall h: nat :: IsHart(h) ==> Completes(img, h) && CallsTo(actions, h) >= FlagCalls(img, h)
  {
    EventAfterEffective(img, sys, actions);
    forall h: nat | IsHart(h)
      ensures EffectiveCalls(img, sys, actions, h) == CallsTo(actions, h)
    {
      DeliveredCalls(img, sys, actions, h);
    }
  }

  /** If all harts skip their boot, four delivered calls to each raise the event over untouched memory
      and without a download. */
  lemma SkippedEvent(img: Image, sys: System, actions: seq<Action>)
    requires img.Valid() && FirstBoot(sys) && AllCalls(actions)
    requires forall h: nat :: IsHart(h) ==>
               img.Hart(h).skipAutoboot && sys.M(h).state == Init && DeliveredTo(actions, h) && CallsTo(actions, h) >= 4
    ensures var r := RunAll(img, sys, actions);
            r.event && r.mem == sys.mem && forall h: nat :: IsHart(h) ==> !r.M(h).loaded
  {
    EventAfterExactly(img, sys, actions);
    SkippedWritesNothing(img, sys, actions);
  }

  // -------------------------------------------------------------- booting from power-on

  /** Idle, and never yet complete. */
  predicate Untouched(m: Machine) {
    m.state == Idle && m.prev != Was(OpenSbiInit) && !m.complete
  }

  lemma IdleCall(img: Image, sys: System, a: Action, h: nat)
    requires img.Valid() && sys.Valid() && IsHart(h) && Proper(a) && a.Call? && Untouched(sys.M(h))
    ensures Untouched(Act(img, sys, a).M(h))
  {
  }

  /** A machine that is idle and not restarted stays idle. */
  lemma {:induction false} IdleStays(img: Image, sys: System, actions: seq<Action>, h: nat)
    requires img.Valid() && sys.Valid() && IsHart(h) && AllCalls(actions) && Untouched(sys.M(h))
    ensures Untouched(RunAll(img, sys, actions).M(h))
    decreases |actions|
  {
    if actions != [] {
      var n := |actions| - 1;
      IdleStays(img, sys, actions[..n], h);
      IdleCall(img, RunAll(img, sys, actions[..n]), actions[n], h);
    }
  }

  lemma RequestedEventIff(img: Image, sys: System, chosen: set<nat>, calls: seq<Action>)
    requires img.Valid() && Requested(sys, chosen) && chosen <= ALL_HARTS && AllCalls(calls)
    requires forall h: nat :: IsHart(h) ==> DeliveredTo(calls, h)
    ensures RunAll(img, sys, calls).event <==>
            chosen == ALL_HARTS && forall h: nat :: IsHart(h) ==> Completes(img, h) && CallsTo(calls, h) >= FlagCalls(img, h)
  {
    if chosen == ALL_HARTS {
      EventAfterExactly(img, sys, calls);
    } else {
      var g :| g in ALL_HARTS && g !in chosen;
      FirstBootSafe(sys);
      EventIffAllComplete(img, sys, calls);
      IdleStays(img, sys, calls, g);
    }
  }

  /** From power-on: one boot request for all harts, then calls in any order, all delivered.  The event
      is raised exactly if every entry-point class is led by a hart with chunks, every hart skips its
      boot or can finish, and each has had its calls. */
  lemma BootHartsEventIff(img: Image, sys: System, asked: seq<Action>, n: nat, calls: seq<Action>)
    requires img.Valid() && PowerOn(sys) && n == 4 && asked == Requests(ToRestart(img, ALL_HARTS), n) && AllCalls(calls)
    requires forall h: nat :: IsHart(h) ==> DeliveredTo(calls, h)
    ensures AllProper(asked + calls)
    ensures RunAll(img, sys, asked + calls).event <==>
            AllLed(img) && forall h: nat :: IsHart(h) ==> Completes(img, h) && CallsTo(calls, h) >= FlagCalls(img, h)
  {
    var chosen := ToRestart(img, ALL_HARTS);
    BootRequest(img, sys, chosen, n);
    AllRestartedIff(img);
    RequestedEventIff(img, RunAll(img, sys, asked), chosen, calls);
    RunInParts(img, sys, asked, calls);
  }
}
