/** What the four boot machines leave in memory, for every schedule. */
module BootMemory {
  import opened BootImage
  import opened BootMachine

  // ---------------------------------------------------------------------- claims

  /** Outside all windows and zeroed regions nothing has changed. */
  ghost predicate Frame(img: Image, mem0: seq<byte>, mem: seq<byte>)
    requires img.Valid()
  {
    |mem| == |mem0| && forall a: nat :: a < |mem| && !AnyWindow(img, a) && !AnyZi(img, a) ==> mem[a] == mem0[a]
  }

  /** The hart's zero-init chunks with a number below n are zero, apart from bytes in windows. */
  ghost predicate Zeroed(img: Image, h: nat, mem: seq<byte>, n: nat)
    requires img.Valid()
  {
    forall j: nat, a: nat ::
      (j < n && ZiListed(img, j) && img.ziChunks[j].owner == h && InZi(img.ziChunks[j], a)
       && a < |mem| && !AnyWindow(img, a)) ==> mem[a] == 0
  }

  /** The first n bytes of the chunk are the image's. */
  ghost predicate Copied(img: Image, c: Chunk, mem0: seq<byte>, mem: seq<byte>, n: nat) {
    forall a: nat :: c.execAddr <= a < c.execAddr + n && InData(c, a) && a < |mem| ==> mem[a] == ByteAt(mem0, Source(img, c, a))
  }

  ghost predicate AllZeroed(img: Image, h: nat, mem: seq<byte>)
    requires img.Valid()
  {
    Zeroed(img, h, mem, |img.ziChunks|)
  }

  ghost predicate AllCopied(img: Image, h: nat, mem0: seq<byte>, mem: seq<byte>)
    requires img.Valid() && IsHart(h)
  {
    forall i :: i in Selected(img, h) && i < |img.chunks| ==> Copied(img, img.chunks[i], mem0, mem, img.chunks[i].size)
  }

  // ---------------------------------------------------------------- the invariant

  ghost predicate DownloadProgress(img: Image, h: nat, m: Machine, mem0: seq<byte>, mem: seq<byte>)
    requires img.Valid() && IsHart(h)
  {
    && m.chunk <= |img.chunks| && m.subOffset % SUB_CHUNK == 0
    && (forall i :: i in Plan(img, h, m.chunk, m.chunkCount) ==> i in Selected(img, h))
    && (forall i :: i in Selected(img, h) && i !in Plan(img, h, m.chunk, m.chunkCount) && i < |img.chunks| ==>
          Copied(img, img.chunks[i], mem0, mem, img.chunks[i].size))
    && (m.subOffset > 0 ==>
          m.chunk in Plan(img, h, m.chunk, m.chunkCount) && m.chunk < |img.chunks|
          && m.subOffset <= img.chunks[m.chunk].size
          && Copied(img, img.chunks[m.chunk], mem0, mem, m.subOffset))
  }

  predicate Late(s: State) {
    s in {OpenSbiInit, Wait, Complete, Idle, Error}
  }

  ghost predicate Progress(img: Image, h: nat, m: Machine, mem0: seq<byte>, mem: seq<byte>)
    requires img.Valid() && IsHart(h)
  {
    && (m.prev == Was(OpenSbiInit) ==> m.state != ZeroInit && m.state != Download)
    && if m.loaded then Late(m.state) && AllZeroed(img, h, mem) && AllCopied(img, h, mem0, mem)
    else match m.state
      case ZeroInit =>
        m.prev == Was(ZeroInit) ==>
          m.ziChunk < |img.ziChunks| && Zeroed(img, h, mem, m.ziChunk)
          && forall k :: 0 <= k < m.ziChunk ==> img.ziChunks[k].size != 0
      case Download =>
        AllZeroed(img, h, mem)
        && (m.prev == Was(Download) && img.Hart(h).numChunks != 0 ==> DownloadProgress(img, h, m, mem0, mem))
      case _ => true
  }

  ghost predicate Inv(img: Image, mem0: seq<byte>, sys: System)
    requires img.Valid()
  {
    && sys.Valid() && Frame(img, mem0, sys.mem)
    && forall h: nat :: IsHart(h) ==> Progress(img, h, sys.M(h), mem0, sys.mem)
  }

  // ------------------------------------------------------- steps of another machine

  /** A step of hart h writes only its windows, or zeros in its zeroed regions. */
  ghost predicate Footprint(img: Image, h: nat, mem: seq<byte>, mem': seq<byte>)
    requires img.Valid() && IsHart(h)
  {
    |mem| == |mem'| && forall a: nat :: a < |mem| && mem'[a] != mem[a] ==>
      HartWindow(img, h, a) || (HartZi(img, h, a) && mem'[a] == 0)
  }

  lemma FootprintKeepsFrame(img: Image, h: nat, mem0: seq<byte>, mem: seq<byte>, mem': seq<byte>)
    requires img.Valid() && IsHart(h) && Frame(img, mem0, mem) && Footprint(img, h, mem, mem')
    ensures Frame(img, mem0, mem')
  {
    forall a: nat | a < |mem'| && !AnyWindow(img, a) && !AnyZi(img, a)
      ensures mem'[a] == mem0[a]
    {
      assert !HartWindow(img, h, a) && !HartZi(img, h, a);
    }
  }

  lemma FootprintKeepsZeroed(img: Image, h: nat, g: nat, mem: seq<byte>, mem': seq<byte>, n: nat)
    requires img.Valid() && IsHart(h) && Footprint(img, h, mem, mem') && Zeroed(img, g, mem, n)
    ensures Zeroed(img, g, mem', n)
  {
    forall j: nat, a: nat | j < n && ZiListed(img, j) && img.ziChunks[j].owner == g && InZi(img.ziChunks[j], a)
      && a < |mem'| && !AnyWindow(img, a)
      ensures mem'[a] == 0
    {
      assert !HartWindow(img, h, a);
    }
  }

  lemma WindowOf(img: Image, h: nat, i: nat, a: nat)
    requires img.Valid() && IsHart(h) && i in Selected(img, h) && i < |img.chunks| && InData(img.chunks[i], a)
    ensures InWindow(img.chunks[i], a) && HartWindow(img, h, a)
  {
    var size := img.chunks[i].size;
    assert size == SUB_CHUNK * (size / SUB_CHUNK) + size % SUB_CHUNK;
  }

  lemma OthersMiss(img: Image, h: nat, g: nat, i: nat, a: nat)
    requires img.Valid() && Disjoint(img) && IsHart(h) && IsHart(g) && h != g
    requires i in Selected(img, g) && i < |img.chunks| && InData(img.chunks[i], a)
    ensures !HartWindow(img, h, a) && !HartZi(img, h, a)
  {
    WindowOf(img, g, i, a);
  }

  lemma OtherKeepsCopied(img: Image, h: nat, g: nat, i: nat, mem0: seq<byte>, mem: seq<byte>, mem': seq<byte>, n: nat)
    requires img.Valid() && Disjoint(img) && IsHart(h) && IsHart(g) && h != g && Footprint(img, h, mem, mem')
    requires i in Selected(img, g) && i < |img.chunks| && Copied(img, img.chunks[i], mem0, mem, n)
    ensures Copied(img, img.chunks[i], mem0, mem', n)
  {
    var c := img.chunks[i];
    forall a: nat | c.execAddr <= a < c.execAddr + n && InData(c, a) && a < |mem'|
      ensures mem'[a] == ByteAt(mem0, Source(img, c, a))
    {
      OthersMiss(img, h, g, i, a);
    }
  }

  lemma OtherKeepsProgress(img: Image, h: nat, g: nat, m: Machine, mem0: seq<byte>, mem: seq<byte>, mem': seq<byte>)
    requires img.Valid() && Disjoint(img) && IsHart(h) && IsHart(g) && h != g && Footprint(img, h, mem, mem')
    requires Progress(img, g, m, mem0, mem)
    ensures Progress(img, g, m, mem0, mem')
  {
    forall n: nat | Zeroed(img, g, mem, n)
      ensures Zeroed(img, g, mem', n)
    {
      FootprintKeepsZeroed(img, h, g, mem, mem', n);
    }
    forall i: nat, n: nat | i in Selected(img, g) && i < |img.chunks| && Copied(img, img.chunks[i], mem0, mem, n)
      ensures Copied(img, img.chunks[i], mem0, mem', n)
    {
      OtherKeepsCopied(img, h, g, i, mem0, mem, mem', n);
    }
  }

  // ------------------------------------------------------------ steps of hart h itself

  /** After the hooks the machine is in the state it remembers, which is the one found unless a
      hook failed; that does not happen on the way into ZeroInit or Download. */
  ghost predicate Hooked(m: Machine, current: State) {
    m.prev == Was(m.state) && (m.state == current || (m.state == Error && current != ZeroInit && current != Download))
  }

  lemma HooksKeepProgress(img: Image, h: nat, m: Machine, o: Oracle, mem0: seq<byte>, mem: seq<byte>)
    requires img.Valid() && IsHart(h) && Progress(img, h, m, mem0, mem)
    ensures var r := Hooks(img, m, h, o); Progress(img, h, r, mem0, mem) && Hooked(r, m.state) && r.loaded == m.loaded
  {
    if m.prev != Was(m.state) && m.state == Download && img.Hart(h).numChunks != 0 {
      assert DownloadProgress(img, h, Hooks(img, m, h, o), mem0, mem) || m.loaded;
    }
  }

  lemma ZeroedNext(img: Image, h: nat, mem: seq<byte>, mem': seq<byte>, n: nat)
    requires img.Valid() && IsHart(h) && n < |img.ziChunks| && Zeroed(img, h, mem, n) && Footprint(img, h, mem, mem')
    requires img.ziChunks[n].owner == h ==> forall a: nat :: InZi(img.ziChunks[n], a) && a < |mem'| ==> mem'[a] == 0
    ensures Zeroed(img, h, mem', n + 1)
  {
    FootprintKeepsZeroed(img, h, h, mem, mem', n);
  }

  lemma ZeroedAtSentinel(img: Image, h: nat, mem: seq<byte>, n: nat)
    requires img.Valid() && IsHart(h) && n < |img.ziChunks| && Zeroed(img, h, mem, n) && img.ziChunks[n].size == 0
    ensures AllZeroed(img, h, mem)
  {
  }

  lemma ZeroInitKeepsProgress(img: Image, h: nat, m: Machine, o: Oracle, mem0: seq<byte>, mem: seq<byte>)
    requires img.Valid() && IsHart(h) && Progress(img, h, m, mem0, mem) && Hooked(m, ZeroInit)
    ensures var (m', mem') := HandleZeroInit(img, m, mem, h, o);
            Footprint(img, h, mem, mem') && Progress(img, h, m', mem0, mem')
  {
    var n := m.ziChunk;
    var z := img.ziChunks[n];
    var mem' := HandleZeroInit(img, m, mem, h, o).1;
    if z.size == 0 {
      ZeroedAtSentinel(img, h, mem, n);
    } else if z.owner != h {
      ZeroedNext(img, h, mem, mem, n);
    } else if !o.ddrBlocked {
      assert ZiListed(img, n);
      forall a: nat | a < |mem| && mem'[a] != mem[a]
        ensures HartZi(img, h, a) && mem'[a] == 0
      {
        assert InZi(z, a);
      }
      ZeroedNext(img, h, mem, mem', n);
    }
  }

  // -------------------------------------------------------------------- one sub-chunk

  /** Multiples of 256 up to the size stay inside the padded window with 256 more bytes. */
  lemma SubChunkInWindow(size: nat, sub: nat)
    requires sub % SUB_CHUNK == 0 && sub <= size
    ensures sub + SUB_CHUNK <= Padded(size) && (sub + SUB_CHUNK) % SUB_CHUNK == 0
  {
    var q := sub / SUB_CHUNK;
    assert sub == SUB_CHUNK * q && q <= size / SUB_CHUNK;
  }

  lemma MoveFootprint(img: Image, h: nat, mem: seq<byte>, i: nat, sub: nat)
    requires img.Valid() && IsHart(h) && i in Selected(img, h) && i < |img.chunks|
    requires sub % SUB_CHUNK == 0 && sub <= img.chunks[i].size
    ensures Footprint(img, h, mem, Moved(img, mem, img.chunks[i], sub))
  {
    SubChunkInWindow(img.chunks[i].size, sub);
    forall a: nat | a < |mem| && Moved(img, mem, img.chunks[i], sub)[a] != mem[a]
      ensures HartWindow(img, h, a)
    {
      assert InWindow(img.chunks[i], a);
    }
  }

  /** The bytes moved are still the original image's: no window or zeroed region covers them. */
  lemma MoveExtendsCopied(img: Image, h: nat, mem0: seq<byte>, mem: seq<byte>, i: nat, sub: nat)
    requires img.Valid() && Disjoint(img) && IsHart(h) && i in Selected(img, h) && i < |img.chunks|
    requires Frame(img, mem0, mem) && Copied(img, img.chunks[i], mem0, mem, sub)
    ensures Copied(img, img.chunks[i], mem0, Moved(img, mem, img.chunks[i], sub), sub + SUB_CHUNK)
  {
    var c := img.chunks[i];
    forall a: nat | c.execAddr <= a < c.execAddr + sub + SUB_CHUNK && InData(c, a) && a < |mem|
      ensures Moved(img, mem, c, sub)[a] == ByteAt(mem0, Source(img, c, a))
    {
      var s := Source(img, c, a);
      assert !AnyWindow(img, s) && !AnyZi(img, s);
      assert ByteAt(mem, s) == ByteAt(mem0, s);
    }
  }

  lemma MoveKeepsCopied(img: Image, h: nat, mem0: seq<byte>, mem: seq<byte>, i: nat, sub: nat, j: nat)
    requires img.Valid() && Disjoint(img) && IsHart(h) && i in Selected(img, h) && i < |img.chunks|
    requires sub % SUB_CHUNK == 0 && sub <= img.chunks[i].size
    requires j in Selected(img, h) && j != i && j < |img.chunks| && Copied(img, img.chunks[j], mem0, mem, img.chunks[j].size)
    ensures Copied(img, img.chunks[j], mem0, Moved(img, mem, img.chunks[i], sub), img.chunks[j].size)
  {
    SubChunkInWindow(img.chunks[i].size, sub);
    var c := img.chunks[j];
    forall a: nat | c.execAddr <= a < c.execAddr + c.size && InData(c, a) && a < |mem|
      ensures Moved(img, mem, img.chunks[i], sub)[a] == mem[a]
    {
      WindowOf(img, h, j, a);
      assert !InWindow(img.chunks[i], a);
    }
  }

  /** The chunks finished before stay finished. */
  lemma MoveKeepsFinished(img: Image, h: nat, m: Machine, mem0: seq<byte>, mem: seq<byte>, mem': seq<byte>)
    requires img.Valid() && Disjoint(img) && IsHart(h) && DownloadProgress(img, h, m, mem0, mem)
    requires m.chunk in Plan(img, h, m.chunk, m.chunkCount) && m.chunk < |img.chunks| && m.subOffset <= img.chunks[m.chunk].size
    requires mem' == Moved(img, mem, img.chunks[m.chunk], m.subOffset)
    ensures forall j :: j in Selected(img, h) && j !in Plan(img, h, m.chunk, m.chunkCount) && j < |img.chunks| ==>
              Copied(img, img.chunks[j], mem0, mem', img.chunks[j].size)
  {
    forall j | j in Selected(img, h) && j !in Plan(img, h, m.chunk, m.chunkCount) && j < |img.chunks|
      ensures Copied(img, img.chunks[j], mem0, mem', img.chunks[j].size)
    {
      MoveKeepsCopied(img, h, mem0, mem, m.chunk, m.subOffset, j);
    }
  }

  /** The last sub-chunk: the chunk leaves the plan, complete. */
  lemma MoveEnds(img: Image, h: nat, i: nat, k: nat, mem0: seq<byte>, mem': seq<byte>, m': Machine)
    requires img.Valid() && IsHart(h) && i in Plan(img, h, i, k) && i < |img.chunks|
    requires forall j :: j in Plan(img, h, i, k) ==> j in Selected(img, h)
    requires forall j :: j in Selected(img, h) && j !in Plan(img, h, i, k) && j < |img.chunks| ==>
               Copied(img, img.chunks[j], mem0, mem', img.chunks[j].size)
    requires Copied(img, img.chunks[i], mem0, mem', img.chunks[i].size)
    requires m'.chunk == i + 1 && m'.chunkCount == k + 1 && m'.subOffset == 0
    ensures DownloadProgress(img, h, m', mem0, mem')
  {
    PlanIndices(img, h, m'.chunk, m'.chunkCount);
    PlanIndices(img, h, i, k);
    var rest := Plan(img, h, m'.chunk, m'.chunkCount);
    assert Plan(img, h, i, k) == [i] + rest;
    assert forall j :: j in Plan(img, h, i, k) <==> j == i || j in rest;
  }

  lemma MoveKeepsProgress(img: Image, h: nat, m: Machine, mem0: seq<byte>, mem: seq<byte>)
    requires img.Valid() && Disjoint(img) && IsHart(h) && Frame(img, mem0, mem) && DownloadProgress(img, h, m, mem0, mem)
    requires m.chunk in Plan(img, h, m.chunk, m.chunkCount) && m.chunk < |img.chunks|
    ensures var c := img.chunks[m.chunk];
            DownloadProgress(img, h, Advance(m, c), mem0, Moved(img, mem, c, m.subOffset))
  {
    var i, sub := m.chunk, m.subOffset;
    var c := img.chunks[i];
    var m', mem' := Advance(m, c), Moved(img, mem, c, sub);
    MoveExtendsCopied(img, h, mem0, mem, i, sub);
    MoveKeepsFinished(img, h, m, mem0, mem, mem');
    if sub + SUB_CHUNK > c.size {
      MoveEnds(img, h, i, m.chunkCount, mem0, mem', m');
    }
  }

  lemma SkipKeepsProgress(img: Image, h: nat, m: Machine, mem0: seq<byte>, mem: seq<byte>)
    requires img.Valid() && IsHart(h) && DownloadProgress(img, h, m, mem0, mem)
    requires m.chunk < |img.chunks| && m.chunkCount <= img.Hart(h).lastChunk && img.chunks[m.chunk].size != 0
    requires !Mine(img, h, img.chunks[m.chunk])
    ensures DownloadProgress(img, h, m.(chunk := m.chunk + 1), mem0, mem)
  {
    PlanIndices(img, h, m.chunk, m.chunkCount);
    assert m.subOffset == 0;
  }

  lemma MoveStepKeepsProgress(img: Image, h: nat, m: Machine, mem0: seq<byte>, mem: seq<byte>, c: Chunk)
    requires img.Valid() && Disjoint(img) && IsHart(h) && Frame(img, mem0, mem) && img.Hart(h).numChunks != 0
    requires DownloadProgress(img, h, m, mem0, mem) && AllZeroed(img, h, mem)
    requires c == ChunkAt(img, m.chunk) && m.chunkCount <= img.Hart(h).lastChunk && c.size != 0 && Mine(img, h, c)
    ensures var mem' := Moved(img, mem, c, m.subOffset);
            Footprint(img, h, mem, mem') && AllZeroed(img, h, mem') && DownloadProgress(img, h, Advance(m, c), mem0, mem')
  {
    PlanIndices(img, h, m.chunk, m.chunkCount);
    assert Plan(img, h, m.chunk, m.chunkCount)[0] == m.chunk;
    var mem' := Moved(img, mem, c, m.subOffset);
    MoveFootprint(img, h, mem, m.chunk, m.subOffset);
    FootprintKeepsZeroed(img, h, h, mem, mem', |img.ziChunks|);
    MoveKeepsProgress(img, h, m, mem0, mem);
  }

  /** Nothing is left in the plan: the download is over. */
  lemma OverKeepsProgress(img: Image, h: nat, m: Machine, m': Machine, mem0: seq<byte>, mem: seq<byte>)
    requires img.Valid() && IsHart(h) && Progress(img, h, m, mem0, mem) && Hooked(m, Download)
    requires img.Hart(h).numChunks == 0 || Plan(img, h, m.chunk, m.chunkCount) == []
    requires m'.loaded && Late(m'.state) && m'.prev == m.prev
    ensures Progress(img, h, m', mem0, mem)
  {
  }

  lemma DownloadKeepsProgress(img: Image, h: nat, m: Machine, mem0: seq<byte>, mem: seq<byte>)
    requires img.Valid() && Disjoint(img) && IsHart(h) && Frame(img, mem0, mem)
    requires Progress(img, h, m, mem0, mem) && Hooked(m, Download)
    ensures var (m', mem') := HandleDownload(img, m, mem, h);
            Footprint(img, h, mem, mem') && Progress(img, h, m', mem0, mem')
  {
    var c, m' := ChunkAt(img, m.chunk), HandleDownload(img, m, mem, h).0;
    if img.Hart(h).numChunks == 0 {
      OverKeepsProgress(img, h, m, m', mem0, mem);
    } else {
      if m.chunkCount > img.Hart(h).lastChunk || c.size == 0 {
        OverKeepsProgress(img, h, m, m', mem0, mem);
      } else if !Mine(img, h, c) {
        SkipKeepsProgress(img, h, m, mem0, mem);
      } else {
        MoveStepKeepsProgress(img, h, m, mem0, mem, c);
      }
    }
  }

  /** Any change of state that neither starts a download nor resumes a zero-init keeps the progress. */
  lemma Elsewhere(img: Image, h: nat, m: Machine, m': Machine, mem0: seq<byte>, mem: seq<byte>)
    requires img.Valid() && IsHart(h) && Progress(img, h, m, mem0, mem)
    requires m'.state != Download && (m'.state == ZeroInit ==> m'.prev != Was(ZeroInit) && m'.prev != Was(OpenSbiInit))
    requires m'.loaded == m.loaded && (m.loaded ==> Late(m'.state))
    ensures Progress(img, h, m', mem0, mem)
  {
  }

  lemma HandleElsewhere(img: Image, sys: System, h: nat, m: Machine, current: State, o: Oracle)
    requires img.Valid() && IsHart(h) && sys.Valid() && Hooked(m, current) && current != ZeroInit && current != Download
    ensures var e := Handle(img, sys, m, h, current, o);
            && e.mem == sys.mem && e.m.loaded == m.loaded && e.m.prev == m.prev && e.m.state != Download
            && (Late(current) ==> Late(e.m.state)) && (e.m.state == ZeroInit ==> current == SetupPmpComplete)
  {
  }

  lemma HandleKeepsProgress(img: Image, sys: System, h: nat, m: Machine, current: State, o: Oracle, mem0: seq<byte>)
    requires img.Valid() && Disjoint(img) && IsHart(h) && sys.Valid() && Frame(img, mem0, sys.mem)
    requires Progress(img, h, m, mem0, sys.mem) && Hooked(m, current) && (m.loaded ==> Late(current))
    ensures var e := Handle(img, sys, m, h, current, o);
            Footprint(img, h, sys.mem, e.mem) && Progress(img, h, e.m, mem0, e.mem)
  {
    if current == ZeroInit {
      ZeroInitKeepsProgress(img, h, m, o, mem0, sys.mem);
    } else if current == Download {
      DownloadKeepsProgress(img, h, m, mem0, sys.mem);
    } else {
      HandleElsewhere(img, sys, h, m, current, o);
      Elsewhere(img, h, m, Handle(img, sys, m, h, current, o).m, mem0, sys.mem);
    }
  }

  lemma UpdateKeepsInv(img: Image, mem0: seq<byte>, sys: System, h: nat, e: Effect)
    requires img.Valid() && Disjoint(img) && Inv(img, mem0, sys) && IsHart(h)
    requires Footprint(img, h, sys.mem, e.mem) && Progress(img, h, e.m, mem0, e.mem)
    ensures Inv(img, mem0, System(sys.machines[h - 1 := e.m], e.mem, e.event))
  {
    FootprintKeepsFrame(img, h, mem0, sys.mem, e.mem);
    forall g: nat | IsHart(g) && g != h
      ensures Progress(img, g, sys.M(g), mem0, e.mem)
    {
      OtherKeepsProgress(img, h, g, sys.M(g), mem0, sys.mem, e.mem);
    }
  }

  lemma ActKeepsInv(img: Image, mem0: seq<byte>, sys: System, a: Action)
    requires img.Valid() && Disjoint(img) && Inv(img, mem0, sys) && Proper(a)
    ensures Inv(img, mem0, Act(img, sys, a))
  {
    var m := sys.M(a.h);
    match a
    case Call(h, o) =>
      HooksKeepProgress(img, h, m, o, mem0, sys.mem);
      HandleKeepsProgress(img, sys, h, Hooks(img, m, h, o), m.state, o, mem0);
      UpdateKeepsInv(img, mem0, sys, h, Step(img, sys, h, o));
    case Restart(h) => UpdateKeepsInv(img, mem0, sys, h, Effect(Restarted(m), sys.mem, sys.event));
  }

  // ------------------------------------------------------------------- the theorem

  /** Before a boot: machines wait in Init or Idle, whatever they were doing before. */
  ghost predicate Start(sys: System) {
    sys.Valid() && forall h: nat :: IsHart(h) ==> sys.M(h).state in {Init, Idle} && !sys.M(h).loaded
  }

  lemma {:induction false} RunKeepsInv(img: Image, sys: System, actions: seq<Action>)
    requires img.Valid() && Disjoint(img) && Start(sys) && forall k :: 0 <= k < |actions| ==> Proper(actions[k])
    ensures Inv(img, sys.mem, RunAll(img, sys, actions))
    decreases |actions|
  {
    if actions != [] {
      var n := |actions| - 1;
      RunKeepsInv(img, sys, actions[..n]);
      ActKeepsInv(img, sys.mem, RunAll(img, sys, actions[..n]), actions[n]);
    }
  }

  /** For every schedule and all restarts: once a hart's machine has finished downloading (and has not
      been restarted since), every byte of each chunk it selects is the image's byte, every byte of its
      zero-init chunks outside a window is zero; and nothing outside windows and zeroed regions has
      ever changed. */
  lemma MemoryCorrect(img: Image, sys: System, actions: seq<Action>, h: nat)
    requires img.Valid() && Disjoint(img) && Start(sys) && forall k :: 0 <= k < |actions| ==> Proper(actions[k])
    requires IsHart(h)
    ensures var r := RunAll(img, sys, actions);
            && Frame(img, sys.mem, r.mem)
            && (r.M(h).loaded ==> AllZeroed(img, h, r.mem) && AllCopied(img, h, sys.mem, r.mem))
  {
    RunKeepsInv(img, sys, actions);
    var r := RunAll(img, sys, actions);
    assert Progress(img, h, r.M(h), sys.mem, r.mem);
  }
}
