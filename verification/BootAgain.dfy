/** A restarted hart boots again, whatever it has been through. */
module BootAgain {
  import opened BootImage
  import opened BootMachine
  import opened BootMemory
  import opened BootCustom
  import opened BootProgress

  /** From every state: a hart that is not handing over and does not skip its boot, once restarted, is
      loaded again exactly when its effective calls have reached the number that its tables ask for,
      and then its memory is in place.  In between other harts are called and restarted at will. */
  lemma RestartLoadsAgain(img: Image, sys: System, history: seq<Action>, actions: seq<Action>, h: nat)
    requires img.Valid() && Start(sys) && IsHart(h) && !img.Hart(h).skipAutoboot && AllProper(history) && AllProper(actions)
    requires RunAll(img, sys, history).M(h).state != OpenSbiInit
    requires WillingRun(img, Act(img, RunAll(img, sys, history), Restart(h)), actions, h)
    ensures AllProper(history + [Restart(h)] + actions)
    ensures var before := Act(img, RunAll(img, sys, history), Restart(h));
            RunAll(img, sys, history + [Restart(h)] + actions).M(h).loaded
            <==> EffectiveCalls(img, before, actions, h) >= 3 + ZiCalls(img, 0) + DownloadCalls(img, h)
    ensures var r := RunAll(img, sys, history + [Restart(h)] + actions);
            Disjoint(img) && r.M(h).loaded ==> AllZeroed(img, h, r.mem) && AllCopied(img, h, sys.mem, r.mem)
  {
    var all := history + [Restart(h)];
    assert all[..|all| - 1] == history;
    var before := RunAll(img, sys, all);
    assert before == Act(img, RunAll(img, sys, history), Restart(h));
    LoadedAfterEffective(img, before, actions, h);
    RunInParts(img, sys, all, actions);
    if Disjoint(img) {
      MemoryCorrect(img, sys, all + actions, h);
    }
  }

  /** So do cooperative calls, each of which counts. */
  lemma RestartLoadsAfterExactly(img: Image, sys: System, h: nat, actions: seq<Action>)
    requires img.Valid() && sys.Valid() && IsHart(h) && !img.Hart(h).skipAutoboot && sys.M(h).state != OpenSbiInit
    requires forall k :: 0 <= k < |actions| ==>
               Proper(actions[k]) && actions[k].Call? && (actions[k].h == h ==> Cooperative(actions[k].o) && actions[k].o.deliveredSelf)
    ensures RunAll(img, Act(img, sys, Restart(h)), actions).M(h).loaded
            <==> CallsTo(actions, h) >= 3 + ZiCalls(img, 0) + DownloadCalls(img, h)
  {
    var before := Act(img, sys, Restart(h));
    CallsCount(img, before, h, actions);
    LoadedAfterEffective(img, before, actions, h);
  }

  lemma {:induction false} CallsCount(img: Image, sys: System, h: nat, actions: seq<Action>)
    requires img.Valid() && sys.Valid() && IsHart(h) && !img.Hart(h).skipAutoboot && Waiting(sys.M(h))
    requires forall k :: 0 <= k < |actions| ==>
               Proper(actions[k]) && actions[k].Call? && (actions[k].h == h ==> Cooperative(actions[k].o) && actions[k].o.deliveredSelf)
    ensures WillingRun(img, sys, actions, h) && EffectiveCalls(img, sys, actions, h) == CallsTo(actions, h)
    decreases |actions|
  {
    if actions != [] {
      CallsCount(img, sys, h, actions[..|actions| - 1]);
    }
  }

  /** A hart that is handing over is left alone. */
  lemma HandingOverIgnores(img: Image, sys: System, h: nat)
    requires img.Valid() && sys.Valid() && IsHart(h) && sys.M(h).state == OpenSbiInit
    ensures Act(img, sys, Restart(h)) == sys
  {
    assert sys.machines[h - 1 := sys.machines[h - 1]] == sys.machines;
  }
}
