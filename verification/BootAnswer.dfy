/** A hart completes by an answer or by a failure, and by exactly one of them. */
module BootAnswer {
  import opened BootImage
  import opened BootMachine
  import opened BootMemory
  import opened BootProgress
  import opened BootOutcome

  /** The peer that the next message of the hand-over would go to, counted from 0. */
  function Peer(m: Machine): nat {
    if m.prev == Was(OpenSbiInit) then m.nextPeer else 0
  }

  /** The call sends a message to a boot-set peer. */
  ghost predicate Messages(img: Image, m: Machine, h: nat)
    requires img.Valid() && IsHart(h)
  {
    && img.Hart(h).Primary() && Peer(m) < 4 && Peer(m) + 1 != h
    && SameEntry(img, Peer(m) + 1, h)
  }

  /** The call fails: no image, a message that cannot be delivered, or a timer that has run out.  An
      answer that comes with the failing message of the hand-over itself still counts. */
  ghost predicate Fails(img: Image, m: Machine, h: nat, o: Oracle)
    requires img.Valid() && IsHart(h)
  {
    match m.state
    case Init => if o.ready then !o.registered else HandOverFails(img, m, h, o)
    case SetupPmpComplete => o.pmpTimeout
    case OpenSbiInit => Messages(img, m, h) && !o.delivered
    case Wait => img.Hart(h).entryPoint != 0 && (o.timeout || (HandOverFails(img, m, h, o) && !o.acked))
    case _ => false
  }

  /** The call finds the hart waiting, with an answer and in time. */
  predicate Answers(m: Machine, o: Oracle) {
    m.state == Wait && o.acked && !o.timeout
  }

  /** Since its last restart some call to hart h has failed. */
  ghost predicate Failed(img: Image, sys: System, actions: seq<Action>, h: nat)
    requires img.Valid() && sys.Valid() && IsHart(h) && AllProper(actions)
    decreases |actions|
  {
    actions != [] &&
      var n := |actions| - 1;
      var a, m := actions[n], RunAll(img, sys, actions[..n]).M(h);
      !Restarts(a, h, m) && (Failed(img, sys, actions[..n], h) || (a.Call? && a.h == h && Fails(img, m, h, a.o)))
  }

  /** Since its last restart hart h has been answered. */
  ghost predicate Answered(img: Image, sys: System, actions: seq<Action>, h: nat)
    requires img.Valid() && sys.Valid() && IsHart(h) && AllProper(actions)
    decreases |actions|
  {
    actions != [] &&
      var n := |actions| - 1;
      var a, m := actions[n], RunAll(img, sys, actions[..n]).M(h);
      !Restarts(a, h, m) && (Answered(img, sys, actions[..n], h) || (a.Call? && a.h == h && Answers(m, a.o)))
  }

  // -------------------------------------------------------------------- one call

  /** What is known of a machine between calls. */
  ghost predicate Sane(img: Image, h: nat, m: Machine)
    requires img.Valid() && IsHart(h)
  {
    && (m.prev == Was(OpenSbiInit) ==> m.state in {Init, OpenSbiInit, Wait, Error})
    && (m.state == Wait ==> img.Hart(h).entryPoint != 0) && Remembers(m)
  }

  lemma HandOverErrs(img: Image, sys: System, h: nat, o: Oracle)
    requires img.Valid() && sys.Valid() && IsHart(h) && sys.M(h).state == OpenSbiInit
    ensures Step(img, sys, h, o).m.state == Error <==> Fails(img, sys.M(h), h, o)
  {
  }

  lemma ElsewhereErrs(img: Image, sys: System, h: nat, o: Oracle)
    requires img.Valid() && sys.Valid() && IsHart(h) && Sane(img, h, sys.M(h)) && sys.M(h).state != OpenSbiInit
    ensures Step(img, sys, h, o).m.state == Error <==> Fails(img, sys.M(h), h, o)
  {
  }

  /** The call leaves the machine in Error exactly if it fails, whatever the environment answers. */
  lemma ErrorIffFails(img: Image, sys: System, h: nat, o: Oracle)
    requires img.Valid() && sys.Valid() && IsHart(h) && Sane(img, h, sys.M(h))
    ensures Step(img, sys, h, o).m.state == Error <==> Fails(img, sys.M(h), h, o)
  {
    if sys.M(h).state == OpenSbiInit {
      HandOverErrs(img, sys, h, o);
    } else {
      ElsewhereErrs(img, sys, h, o);
    }
  }

  lemma HooksLead(img: Image, m: Machine, h: nat, o: Oracle)
    requires img.Valid() && IsHart(h) && Sane(img, h, m)
    ensures var r := Hooks(img, m, h, o);
            r.prev == Was(r.state) && (r.state == m.state || (r.state == Error && m.state in {Init, Wait}))
  {
  }

  /** A hart that hands over has chunks and does not skip its boot; one that waits has an entry point. */
  ghost predicate Entitled(img: Image, h: nat, s: State)
    requires img.Valid() && IsHart(h)
  {
    && (s in {OpenSbiInit, Wait} ==> img.Hart(h).numChunks != 0)
    && (s == Wait ==> img.Hart(h).entryPoint != 0)
    && (s in {OpenSbiInit, Wait, ZeroInit, Download} ==> !img.Hart(h).skipAutoboot)
  }

  /** Where a handler leads. */
  ghost predicate Leads(img: Image, h: nat, from: State, to: State)
    requires img.Valid() && IsHart(h)
  {
    && (to == Complete ==> from in {Complete, Error, Wait} || img.Hart(h).skipAutoboot || img.Hart(h).numChunks == 0)
    && (to == Idle ==> from in {Complete, Idle})
    && (from in {Complete, Idle} ==> to in {Complete, Idle})
    && (from == Error ==> to == Complete)
    && (from == OpenSbiInit ==> to in {OpenSbiInit, Wait, Error})
  }

  lemma HandleLeads(img: Image, sys: System, h: nat, m: Machine, current: State, o: Oracle)
    requires img.Valid() && sys.Valid() && IsHart(h) && Entitled(img, h, current)
    requires m.state == current || (m.state == Error && current in {Init, Wait})
    ensures var m' := Handle(img, sys, m, h, current, o).m;
            m'.prev == m.prev && Leads(img, h, current, m'.state)
  {
  }

  lemma HandleEntitles(img: Image, sys: System, h: nat, m: Machine, current: State, o: Oracle)
    requires img.Valid() && sys.Valid() && IsHart(h) && Entitled(img, h, current)
    requires m.state == current || (m.state == Error && current in {Init, Wait})
    ensures Entitled(img, h, Handle(img, sys, m, h, current, o).m.state)
  {
  }

  /** Where a call leads, and what it leaves. */
  lemma StepLeads(img: Image, sys: System, h: nat, o: Oracle)
    requires img.Valid() && sys.Valid() && IsHart(h) && Sane(img, h, sys.M(h)) && Entitled(img, h, sys.M(h).state)
    ensures var m, m' := sys.M(h), Step(img, sys, h, o).m;
            Leads(img, h, m.state, m'.state) && Entitled(img, h, m'.state) && Sane(img, h, m')
  {
    var m := Hooks(img, sys.M(h), h, o);
    HooksLead(img, sys.M(h), h, o);
    HandleLeads(img, sys, h, m, sys.M(h).state, o);
    HandleEntitles(img, sys, h, m, sys.M(h).state, o);
    StepSetsFlag(img, sys, h, o);
  }

  /** From Wait it goes on to Complete exactly if it is answered in time, and otherwise stays or fails. */
  lemma AnswerIff(img: Image, sys: System, h: nat, o: Oracle)
    requires img.Valid() && sys.Valid() && IsHart(h) && Sane(img, h, sys.M(h)) && sys.M(h).state == Wait
    ensures var m' := Step(img, sys, h, o).m;
            && (m'.state == Complete <==> Answers(sys.M(h), o))
            && (m'.state == Wait <==> !Answers(sys.M(h), o) && !Fails(img, sys.M(h), h, o))
  {
  }

  /** A machine found in Complete goes to Idle exactly if all four flags are set, and stays otherwise. */
  lemma IdleIffAllComplete(img: Image, sys: System, h: nat, o: Oracle)
    requires img.Valid() && sys.Valid() && IsHart(h) && sys.M(h).state == Complete && sys.M(h).prev != Was(OpenSbiInit)
    requires Remembers(sys.M(h))
    ensures var r := Act(img, sys, Call(h, o));
            && r.M(h).complete
            && (r.M(h).state == Idle <==> forall g: nat :: IsHart(g) ==> r.M(g).complete)
            && (r.M(h).state == Complete <==> !forall g: nat :: IsHart(g) ==> r.M(g).complete)
  {
    StepSetsFlag(img, sys, h, o);
    var r := Act(img, sys, Call(h, o));
    assert r.M(h) == Step(img, sys, h, o).m;
    assert forall g: nat :: IsHart(g) && g != h ==> r.M(g) == sys.M(g);
  }

  // -------------------------------------------------------------------------- runs

  /** How a machine's state tells of failures and answers since its last restart. */
  ghost predicate Ending(img: Image, h: nat, m: Machine, failed: bool, answered: bool, again: bool)
    requires img.Valid() && IsHart(h)
  {
    && Sane(img, h, m)
    && (failed ==> m.state in {Error, Complete, Idle})
    && (answered ==> m.state in {Complete, Idle} && !failed)
    && (m.state == Error ==> failed)
    && Entitled(img, h, m.state)
    && (m.state == Complete || (m.complete && !again) ==>
          failed || answered || img.Hart(h).skipAutoboot || img.Hart(h).numChunks == 0)
    && (m.complete && !again ==> m.state in {Complete, Idle})
  }

  lemma CallEnding(img: Image, sys: System, h: nat, o: Oracle, failed: bool, answered: bool, again: bool)
    requires img.Valid() && sys.Valid() && IsHart(h) && Ending(img, h, sys.M(h), failed, answered, again)
    ensures var m := sys.M(h);
            Ending(img, h, Step(img, sys, h, o).m, failed || Fails(img, m, h, o), answered || Answers(m, o), again && m.state != Complete)
  {
    ErrorIffFails(img, sys, h, o);
    StepLeads(img, sys, h, o);
    StepSetsFlag(img, sys, h, o);
    if sys.M(h).state == Wait {
      AnswerIff(img, sys, h, o);
    }
  }

  lemma {:induction false} RunEnding(img: Image, sys: System, actions: seq<Action>, h: nat)
    requires img.Valid() && FirstBoot(sys) && IsHart(h) && AllProper(actions)
    ensures Ending(img, h, RunAll(img, sys, actions).M(h),
                   Failed(img, sys, actions, h), Answered(img, sys, actions, h), Again(img, sys, actions, h))
    decreases |actions|
  {
    if actions != [] {
      var n := |actions| - 1;
      var before, a := RunAll(img, sys, actions[..n]), actions[n];
      RunEnding(img, sys, actions[..n], h);
      if a.Call? && a.h == h {
        CallEnding(img, before, h, a.o,
                   Failed(img, sys, actions[..n], h), Answered(img, sys, actions[..n], h), Again(img, sys, actions[..n], h));
      }
    }
  }

  /** In every run of calls and restarts: a hart with chunks that does not skip its boot, once its flag
      has been set since its last restart, was answered in time or had a failed call, and not both. */
  lemma AnsweredUnlessFailed(img: Image, sys: System, actions: seq<Action>, h: nat)
    requires img.Valid() && FirstBoot(sys) && IsHart(h) && AllProper(actions)
    requires img.Hart(h).numChunks != 0 && !img.Hart(h).skipAutoboot
    requires RunAll(img, sys, actions).M(h).complete && !Again(img, sys, actions, h)
    ensures Answered(img, sys, actions, h) <==> !Failed(img, sys, actions, h)
  {
    RunEnding(img, sys, actions, h);
  }

  /** So the event waits for the answers: once it has been raised, this holds for every such hart. */
  lemma EventMeansAnswered(img: Image, sys: System, actions: seq<Action>, h: nat)
    requires img.Valid() && FirstBoot(sys) && IsHart(h) && AllProper(actions)
    requires img.Hart(h).numChunks != 0 && !img.Hart(h).skipAutoboot
    requires RunAll(img, sys, actions).event && !Again(img, sys, actions, h)
    ensures Answered(img, sys, actions, h) <==> !Failed(img, sys, actions, h)
  {
    FirstBootSafe(sys);
    EventIffAllComplete(img, sys, actions);
    AnsweredUnlessFailed(img, sys, actions, h);
  }
}
