/** The whole download of one hart as one function of memory: what a machine running alone computes,
    and what the straight-loop custom boot computes. */
module BootCustom {
  import opened BootImage
  import opened BootMachine
  import Pmp

  // ------------------------------------------------------------------- whole downloads

  /** The hart's zero-init chunks from descriptor j to the end of the table. */
  function ZeroAll(img: Image, h: nat, mem: seq<byte>, j: nat): seq<byte>
    decreases |img.ziChunks| - j
  {
    var z := ZiAt(img, j);
    if z.size == 0 then mem
    else ZeroAll(img, h, if z.owner == h then ZeroBytes(mem, z.execAddr, z.size) else mem, j + 1)
  }

  /** Sub-chunks of c from offset sub until the offset has passed the size. */
  function MoveRest(img: Image, mem: seq<byte>, c: Chunk, sub: nat): seq<byte>
    decreases c.size + SUB_CHUNK - sub
  {
    var moved := Moved(img, mem, c, sub);
    if sub + SUB_CHUNK > c.size then moved else MoveRest(img, moved, c, sub + SUB_CHUNK)
  }

  function DownloadAll(img: Image, mem: seq<byte>, s: seq<nat>): seq<byte>
    decreases |s|
  {
    if s == [] then mem else DownloadAll(img, MoveRest(img, mem, ChunkAt(img, s[0]), 0), s[1..])
  }

  /** All zero-init chunks first, then all selected chunks in table order. */
  ghost function Whole(img: Image, h: nat, mem: seq<byte>, selected: seq<nat>): seq<byte> {
    DownloadAll(img, ZeroAll(img, h, mem, 0), selected)
  }

  // ------------------------------------------------------------- a machine running alone

  /** Inside a chunk, the chunk is one that is being downloaded. */
  ghost predicate Placed(img: Image, h: nat, m: Machine)
    requires img.Valid() && IsHart(h)
  {
    m.subOffset > 0 ==>
      m.chunk < |img.chunks| && m.chunkCount <= img.Hart(h).lastChunk && img.chunks[m.chunk].size != 0
      && Mine(img, h, img.chunks[m.chunk])
  }

  ghost predicate Downloading(img: Image, h: nat, m: Machine)
    requires img.Valid() && IsHart(h)
  {
    m.state == Download && m.prev == Was(Download) && img.Hart(h).numChunks != 0
  }

  /** What memory will be once a download in progress is finished. */
  ghost function DownloadRest(img: Image, h: nat, m: Machine, mem: seq<byte>): seq<byte>
    requires img.Valid() && IsHart(h)
  {
    if m.subOffset > 0
    then DownloadAll(img, MoveRest(img, mem, ChunkAt(img, m.chunk), m.subOffset), Plan(img, h, m.chunk + 1, m.chunkCount + 1))
    else DownloadAll(img, mem, Plan(img, h, m.chunk, m.chunkCount))
  }

  /** What memory will be once the machine has finished, if nothing else writes it. */
  ghost function Outcome(img: Image, h: nat, m: Machine, mem: seq<byte>): seq<byte>
    requires img.Valid() && IsHart(h)
  {
    if m.loaded then mem
    else match m.state
      case ZeroInit => DownloadAll(img, ZeroAll(img, h, mem, if m.prev == Was(ZeroInit) then m.ziChunk else 0), Selected(img, h))
      case Download => if Downloading(img, h, m) then DownloadRest(img, h, m, mem) else DownloadAll(img, mem, Selected(img, h))
      case _ => Whole(img, h, mem, Selected(img, h))
  }

  predicate Before(s: State) {
    s in {Init, SetupPmp, SetupPmpComplete, ZeroInit, Download}
  }

  /** Not started, under way, or past it. */
  ghost predicate OnTheWay(img: Image, h: nat, m: Machine)
    requires img.Valid() && IsHart(h)
  {
    && (m.prev == Was(OpenSbiInit) ==> !Before(m.state))
    && (Downloading(img, h, m) ==> Placed(img, h, m))
    && (m.loaded ==> !Before(m.state))
  }

  lemma HooksKeepOutcome(img: Image, h: nat, m: Machine, o: Oracle, mem: seq<byte>)
    requires img.Valid() && IsHart(h) && OnTheWay(img, h, m)
    ensures var r := Hooks(img, m, h, o);
            && OnTheWay(img, h, r) && r.prev == Was(r.state) && r.loaded == m.loaded
            && (r.state == m.state || (r.state == Error && !Before(m.state)))
            && (Before(m.state) || m.loaded ==> Outcome(img, h, r, mem) == Outcome(img, h, m, mem))
  {
  }

  lemma ZeroInitKeepsOutcome(img: Image, h: nat, m: Machine, o: Oracle, mem: seq<byte>)
    requires img.Valid() && IsHart(h) && m.state == ZeroInit && m.prev == Was(ZeroInit) && !m.loaded
    ensures var (m', mem') := HandleZeroInit(img, m, mem, h, o); Outcome(img, h, m', mem') == Outcome(img, h, m, mem)
  {
  }

  lemma DownloadKeepsOutcome(img: Image, h: nat, m: Machine, mem: seq<byte>)
    requires img.Valid() && IsHart(h) && Downloading(img, h, m) && Placed(img, h, m) && !m.loaded
    ensures var (m', mem') := HandleDownload(img, m, mem, h);
            Outcome(img, h, m', mem') == Outcome(img, h, m, mem) && OnTheWay(img, h, m')
  {
    var c := ChunkAt(img, m.chunk);
    if m.chunk < |img.chunks| && m.chunkCount <= img.Hart(h).lastChunk && c.size != 0 && Mine(img, h, c) {
      var rest := Plan(img, h, m.chunk + 1, m.chunkCount + 1);
      assert Plan(img, h, m.chunk, m.chunkCount) == [m.chunk] + rest;
      assert ([m.chunk] + rest)[1..] == rest;
    } else {
      assert m.subOffset == 0;
    }
  }

  lemma PastHandler(img: Image, sys: System, h: nat, m: Machine, current: State, o: Oracle)
    requires img.Valid() && sys.Valid() && IsHart(h) && !Before(current) && !Before(m.state)
    ensures var e := Handle(img, sys, m, h, current, o); !Before(e.m.state) && e.mem == sys.mem && e.m.loaded == m.loaded
  {
  }

  lemma EarlyHandler(img: Image, sys: System, h: nat, m: Machine, o: Oracle)
    requires img.Valid() && sys.Valid() && IsHart(h) && m.state in {Init, SetupPmp, SetupPmpComplete}
    requires m.prev == Was(m.state) && !m.loaded
    ensures var e := Handle(img, sys, m, h, m.state, o);
            OnTheWay(img, h, e.m) && !e.m.loaded && (Before(e.m.state) ==> Outcome(img, h, e.m, e.mem) == Outcome(img, h, m, sys.mem))
  {
  }

  /** The machine is on its way to the given final memory, or has reached it, or has failed. */
  ghost predicate Heads(img: Image, h: nat, m: Machine, mem: seq<byte>, final: seq<byte>)
    requires img.Valid() && IsHart(h)
  {
    OnTheWay(img, h, m) && (Before(m.state) || m.loaded ==> Outcome(img, h, m, mem) == final)
  }

  lemma StepHeads(img: Image, sys: System, h: nat, o: Oracle, final: seq<byte>)
    requires img.Valid() && sys.Valid() && IsHart(h) && Heads(img, h, sys.M(h), sys.mem, final)
    ensures var e := Step(img, sys, h, o); Heads(img, h, e.m, e.mem, final)
  {
    var m, current := Hooks(img, sys.M(h), h, o), sys.M(h).state;
    HooksKeepOutcome(img, h, sys.M(h), o, sys.mem);
    if !Before(current) {
      PastHandler(img, sys, h, m, current, o);
    } else if current == ZeroInit {
      ZeroInitKeepsOutcome(img, h, m, o, sys.mem);
    } else if current == Download {
      if img.Hart(h).numChunks != 0 {
        DownloadKeepsOutcome(img, h, m, sys.mem);
      }
    } else {
      EarlyHandler(img, sys, h, m, o);
    }
  }

  /** A machine that is stepped alone leaves, once loaded, exactly the memory of the whole download:
      spreading it over steps changes nothing.  No chunk needs to be disjoint from another here. */
  lemma {:induction false} AloneComputesWhole(img: Image, sys: System, h: nat, actions: seq<Action>)
    requires img.Valid() && sys.Valid() && IsHart(h)
    requires sys.M(h).state == Init && sys.M(h).prev != Was(OpenSbiInit) && !sys.M(h).loaded
    requires forall k :: 0 <= k < |actions| ==> Proper(actions[k]) && actions[k].Call? && actions[k].h == h
    ensures var r := RunAll(img, sys, actions);
            && Heads(img, h, r.M(h), r.mem, Whole(img, h, sys.mem, Selected(img, h)))
            && (r.M(h).loaded ==> r.mem == Whole(img, h, sys.mem, Selected(img, h)))
    decreases |actions|
  {
    if actions != [] {
      var n := |actions| - 1;
      AloneComputesWhole(img, sys, h, actions[..n]);
      StepHeads(img, RunAll(img, sys, actions[..n]), h, actions[n].o, Whole(img, h, sys.mem, Selected(img, h)));
    }
  }

  // ---------------------------------------------------------------------- custom boot

  /** The custom boot compares the whole owner field and does not count chunks. */
  ghost predicate CustomMine(img: Image, h: nat, c: Chunk)
    requires img.Valid() && IsHart(h)
  {
    c.owner == h && Pmp.MayWrite(img.pmp[h], c.execAddr, c.size)
  }

  /** The last hart with chunks of its own, or 0. */
  function CustomTarget(img: Image): nat
    requires |img.harts| == 4
  {
    if img.Hart(4).numChunks != 0 then 4
    else if img.Hart(3).numChunks != 0 then 3
    else if img.Hart(2).numChunks != 0 then 2
    else if img.Hart(1).numChunks != 0 then 1
    else 0
  }

  /** The target has chunks and no higher-numbered hart has; it is 0 exactly if no hart has chunks. */
  lemma TargetIsLast(img: Image)
    requires img.Valid()
    ensures var t := CustomTarget(img);
            && (t == 0 <==> forall g: nat :: IsHart(g) ==> img.Hart(g).numChunks == 0)
            && (t != 0 ==> IsHart(t) && img.Hart(t).numChunks != 0 && forall g: nat :: t < g <= 4 ==> img.Hart(g).numChunks == 0)
  {
  }

  ghost function CustomPlan(img: Image, h: nat, i: nat): seq<nat>
    requires img.Valid() && IsHart(h)
    decreases |img.chunks| - i
  {
    if i >= |img.chunks| || img.chunks[i].size == 0 then []
    else if CustomMine(img, h, img.chunks[i]) then [i] + CustomPlan(img, h, i + 1)
    else CustomPlan(img, h, i + 1)
  }

  /** Of the hart's chunks before the end of the table, exactly those with at most lastChunk of the
      hart's chunks before them are free of the ancillary flag. */
  ghost predicate Agrees(img: Image, h: nat, i: nat, k: nat)
    requires img.Valid() && IsHart(h)
  {
    forall c :: i <= c < |img.chunks| && Mine(img, h, img.chunks[c]) && (forall x :: i <= x <= c ==> img.chunks[x].size != 0) ==>
      (img.chunks[c].owner == h <==> k + MineBetween(img, h, i, c) <= img.Hart(h).lastChunk)
  }

  /** What memory will be when the custom boot has finished, from offset sub of chunk i on. */
  ghost function CustomRest(img: Image, h: nat, mem: seq<byte>, i: nat, sub: nat): seq<byte>
    requires img.Valid() && IsHart(h)
  {
    if sub > 0 then DownloadAll(img, MoveRest(img, mem, ChunkAt(img, i), sub), CustomPlan(img, h, i + 1))
    else DownloadAll(img, mem, CustomPlan(img, h, i))
  }

  lemma CustomMoves(img: Image, h: nat, mem: seq<byte>, i: nat, sub: nat)
    requires img.Valid() && IsHart(h) && i < |img.chunks| && img.chunks[i].size != 0 && CustomMine(img, h, img.chunks[i])
    ensures var c := img.chunks[i];
            CustomRest(img, h, mem, i, sub) ==
            if sub + SUB_CHUNK > c.size then CustomRest(img, h, Moved(img, mem, c, sub), i + 1, 0)
            else CustomRest(img, h, Moved(img, mem, c, sub), i, sub + SUB_CHUNK)
  {
    var rest := CustomPlan(img, h, i + 1);
    assert CustomPlan(img, h, i) == [i] + rest && ([i] + rest)[1..] == rest;
  }

  lemma {:induction false} CustomPlanned(img: Image, h: nat, i: nat, c: nat)
    requires img.Valid() && IsHart(h) && i <= c < |img.chunks|
    ensures c in CustomPlan(img, h, i) <==> CustomMine(img, h, img.chunks[c]) && forall x :: i <= x <= c ==> img.chunks[x].size != 0
    ensures forall d :: d in CustomPlan(img, h, i) ==> i <= d
    decreases |img.chunks| - i
  {
    if img.chunks[i].size != 0 && i + 1 < |img.chunks| {
      CustomPlanned(img, h, i + 1, if i < c then c else i + 1);
    }
  }

  lemma AgreesTail(img: Image, h: nat, i: nat, k: nat)
    requires img.Valid() && IsHart(h) && i < |img.chunks| && img.chunks[i].size != 0 && Agrees(img, h, i, k)
    ensures Agrees(img, h, i + 1, if Mine(img, h, img.chunks[i]) then k + 1 else k)
  {
    forall c | i + 1 <= c < |img.chunks| && Mine(img, h, img.chunks[c]) && forall x :: i + 1 <= x <= c ==> img.chunks[x].size != 0
      ensures img.chunks[c].owner == h <==>
              (if Mine(img, h, img.chunks[i]) then k + 1 else k) + MineBetween(img, h, i + 1, c) <= img.Hart(h).lastChunk
    {
      assert forall x :: i <= x <= c ==> img.chunks[x].size != 0;
    }
  }

  lemma {:induction false} AgreeingPlans(img: Image, h: nat, i: nat, k: nat)
    requires img.Valid() && IsHart(h) && Agrees(img, h, i, k)
    ensures CustomPlan(img, h, i) == Plan(img, h, i, k)
    decreases |img.chunks| - i
  {
    if i < |img.chunks| && img.chunks[i].size != 0 {
      var mine := Mine(img, h, img.chunks[i]);
      assert mine ==> (img.chunks[i].owner == h <==> k + MineBetween(img, h, i, i) <= img.Hart(h).lastChunk);
      AgreesTail(img, h, i, k);
      AgreeingPlans(img, h, i + 1, if mine then k + 1 else k);
    }
  }

  /** The custom boot and a machine select the same chunks exactly under that condition. */
  lemma SelectionsAgree(img: Image, h: nat, i: nat, k: nat)
    requires img.Valid() && IsHart(h)
    ensures CustomPlan(img, h, i) == Plan(img, h, i, k) <==> Agrees(img, h, i, k)
  {
    var s, t := CustomPlan(img, h, i), Plan(img, h, i, k);
    forall c | i <= c < |img.chunks|
      ensures c in s <==> CustomMine(img, h, img.chunks[c]) && forall x :: i <= x <= c ==> img.chunks[x].size != 0
      ensures c in t <==> Mine(img, h, img.chunks[c]) && (forall x :: i <= x <= c ==> img.chunks[x].size != 0)
                          && k + MineBetween(img, h, i, c) <= img.Hart(h).lastChunk
    {
      CustomPlanned(img, h, i, c);
      PlannedIff(img, h, i, k, c);
    }
    if Agrees(img, h, i, k) {
      AgreeingPlans(img, h, i, k);
    }
  }

  /** Then a machine running alone leaves the memory that the custom boot leaves. */
  lemma MachineMatchesCustom(img: Image, sys: System, h: nat, actions: seq<Action>)
    requires img.Valid() && sys.Valid() && IsHart(h) && img.Hart(h).numChunks != 0
    requires sys.M(h).state == Init && sys.M(h).prev != Was(OpenSbiInit) && !sys.M(h).loaded
    requires forall k :: 0 <= k < |actions| ==> Proper(actions[k]) && actions[k].Call? && actions[k].h == h
    requires Agrees(img, h, img.Hart(h).firstChunk, 0) && RunAll(img, sys, actions).M(h).loaded
    ensures RunAll(img, sys, actions).mem == Whole(img, h, sys.mem, CustomPlan(img, h, img.Hart(h).firstChunk))
  {
    AloneComputesWhole(img, sys, h, actions);
    SelectionsAgree(img, h, img.Hart(h).firstChunk, 0);
  }
}
