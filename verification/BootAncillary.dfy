/** The address of the ancillary data that a machine passes on. */
module BootAncillary {
  import opened BootImage
  import opened BootMachine
  import opened BootCustom
  import opened BootProgress

  /** The address of the first of the given chunks that is ancillary data; one at address 0 does not
      count. */
  ghost function FirstAncillary(img: Image, s: seq<nat>): nat
    decreases |s|
  {
    if s == [] then 0
    else if ChunkAt(img, s[0]).owner >= ANCILLARY && ChunkAt(img, s[0]).execAddr != 0 then ChunkAt(img, s[0]).execAddr
    else FirstAncillary(img, s[1..])
  }

  /** What is recorded, or still to be found in the chunks ahead. */
  ghost function Ahead(img: Image, h: nat, m: Machine): nat
    requires img.Valid() && IsHart(h)
  {
    if m.ancillary != 0 then m.ancillary
    else if m.loaded then 0
    else if Downloading(img, h, m) then FirstAncillary(img, Plan(img, h, m.chunk, m.chunkCount))
    else FirstAncillary(img, Selected(img, h))
  }

  lemma DownloadKeepsAhead(img: Image, h: nat, m: Machine, mem: seq<byte>)
    requires img.Valid() && IsHart(h) && Downloading(img, h, m) && Placed(img, h, m) && !m.loaded
    ensures Ahead(img, h, HandleDownload(img, m, mem, h).0) == Ahead(img, h, m)
  {
    var c := ChunkAt(img, m.chunk);
    if m.chunkCount <= img.Hart(h).lastChunk && c.size != 0 && Mine(img, h, c) {
      var rest := Plan(img, h, m.chunk + 1, m.chunkCount + 1);
      assert Plan(img, h, m.chunk, m.chunkCount) == [m.chunk] + rest;
      assert ([m.chunk] + rest)[1..] == rest;
    }
  }

  lemma HooksKeepAhead(img: Image, h: nat, m: Machine, o: Oracle)
    requires img.Valid() && IsHart(h) && Going(img, h, m) && !m.loaded && !HandOverFails(img, m, h, o)
    ensures Ahead(img, h, Hooks(img, m, h, o)) == Ahead(img, h, m)
  {
  }

  lemma LoadedKeepsAhead(img: Image, sys: System, h: nat, o: Oracle)
    requires img.Valid() && sys.Valid() && IsHart(h) && Underway(img, h, sys.M(h)) && sys.M(h).loaded
    ensures Ahead(img, h, Step(img, sys, h, o).m) == Ahead(img, h, sys.M(h))
  {
    HooksKeepOutcome(img, h, sys.M(h), o, sys.mem);
    PastHandler(img, sys, h, Hooks(img, sys.M(h), h, o), sys.M(h).state, o);
  }

  /** The handlers before the download, and that of a hart without chunks. */
  lemma OtherKeepsAhead(img: Image, sys: System, h: nat, m: Machine, o: Oracle)
    requires img.Valid() && sys.Valid() && IsHart(h) && Before(m.state) && !m.loaded && m.prev == Was(m.state)
    requires !Downloading(img, h, m)
    ensures Ahead(img, h, Handle(img, sys, m, h, m.state, o).m) == Ahead(img, h, m)
  {
  }

  lemma StepKeepsAhead(img: Image, sys: System, h: nat, o: Oracle)
    requires img.Valid() && sys.Valid() && IsHart(h) && Going(img, h, sys.M(h))
    requires sys.M(h).loaded || Willing(img, sys.M(h), h, o)
    ensures Ahead(img, h, Step(img, sys, h, o).m) == Ahead(img, h, sys.M(h))
  {
    if sys.M(h).loaded {
      LoadedKeepsAhead(img, sys, h, o);
    } else {
      var m := Hooks(img, sys.M(h), h, o);
      HooksKeepAhead(img, h, sys.M(h), o);
      HooksKeepCalls(img, h, sys.M(h), o);
      if Downloading(img, h, m) {
        DownloadKeepsAhead(img, h, m, sys.mem);
      } else {
        OtherKeepsAhead(img, sys, h, m, o);
      }
    }
  }

  /** In every interleaving a hart that has recorded no ancillary data before has, once it is loaded,
      recorded the first that it downloads. */
  lemma {:induction false} AncillaryIsFirst(img: Image, sys: System, actions: seq<Action>, h: nat)
    requires img.Valid() && sys.Valid() && IsHart(h) && !img.Hart(h).skipAutoboot && Waiting(sys.M(h)) && sys.M(h).ancillary == 0
    requires AllProper(actions) && WillingRun(img, sys, actions, h)
    ensures var m := RunAll(img, sys, actions).M(h);
            && Going(img, h, m) && Ahead(img, h, m) == FirstAncillary(img, Selected(img, h))
            && (m.loaded ==> m.ancillary == FirstAncillary(img, Selected(img, h)))
    decreases |actions|
  {
    if actions != [] {
      var n := |actions| - 1;
      var before, a := RunAll(img, sys, actions[..n]), actions[n];
      AncillaryIsFirst(img, sys, actions[..n], h);
      ActTakesCalls(img, before, a, h);
      if a.h == h {
        StepKeepsAhead(img, before, h, a.o);
      }
    }
  }
}
