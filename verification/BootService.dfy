/** The boot service as it runs: machines and target memory updated in place. */
module BootService {
  import opened BootImage
  import opened BootMachine
  import opened BootCustom
  import opened BootSets
  import Pmp

  class Service {
    const img: Image
    const mem: array<byte>
    var machines: seq<Machine>
    var event: bool

    ghost predicate Valid()
      reads this
    {
      img.Valid() && |machines| == 4
    }

    ghost function Model(): (r: System)
      reads this, mem
    {
      System(machines, mem[..], event)
    }

    constructor (img: Image, mem: array<byte>)
      requires img.Valid()
      ensures Valid() && this.img == img && this.mem == mem && !event
      ensures forall h: nat :: IsHart(h) ==> machines[h - 1] == Machine(Idle, Nothing, 0, 0, 0, 0, 0, 0, false, false)
    {
      this.img, this.mem, event := img, mem, false;
      machines := seq(4, k => Machine(Idle, Nothing, 0, 0, 0, 0, 0, 0, false, false));
    }

    // ---------------------------------------------------------------- memory

    /** A transfer that reads all its bytes before it writes any. */
    method Transfer(to: nat, from: nat, n: nat)
      modifies mem
      ensures mem[..] == CopyBytes(old(mem[..]), to, from, n)
    {
      var before := mem[..];
      forall a | 0 <= a < mem.Length && to <= a < to + n {
        mem[a] := ByteAt(before, from + (a - to));
      }
    }

    method DoDownloadChunk(c: Chunk, subChunkOffset: nat, subChunkSize: nat)
      requires c.size != 0
      modifies mem
      ensures mem[..] == CopyBytes(old(mem[..]), c.execAddr + subChunkOffset, img.base + c.loadAddr + subChunkOffset, subChunkSize)
    {
      var execAddr := c.execAddr + subChunkOffset;
      var loadAddr := img.base + c.loadAddr + subChunkOffset;
      Transfer(execAddr, loadAddr, subChunkSize);
    }

    method DoZeroInitChunk(z: ZiChunk)
      modifies mem
      ensures mem[..] == ZeroBytes(old(mem[..]), z.execAddr, z.size)
    {
      forall a | 0 <= a < mem.Length && z.execAddr <= a < z.execAddr + z.size {
        mem[a] := 0;
      }
    }

    // -------------------------------------------------------------- handlers

    method ZeroInitChunksHandler(h: nat, o: Oracle)
      requires Valid() && IsHart(h)
      modifies `machines, mem
      ensures Valid()
      ensures var (m, after) := HandleZeroInit(img, old(machines)[h - 1], old(mem[..]), h, o);
              machines == old(machines)[h - 1 := m] && mem[..] == after
    {
      var m := machines[h - 1];
      var z := ZiAt(img, m.ziChunk);
      if z.size != 0 {
        if z.owner == h {
          if !o.ddrBlocked {
            DoZeroInitChunk(z);
            m := m.(ziChunk := m.ziChunk + 1);
          }
        } else {
          m := m.(ziChunk := m.ziChunk + 1);
        }
      } else {
        m := m.(state := Download);
      }
      machines := machines[h - 1 := m];
    }

    /** Owned by the hart, ancillary data or not, and writable by it. */
    method IsMine(h: nat, c: Chunk) returns (mine: bool)
      requires Valid() && IsHart(h)
      ensures mine <==> Mine(img, h, c)
    {
      mine := false;
      if c.owner == h || c.owner == h + ANCILLARY {
        mine := Pmp.CheckWrite(img.pmp[h], c.execAddr, c.size);
      }
    }

    method DownloadSubChunk(h: nat, c: Chunk)
      requires Valid() && IsHart(h) && c.size != 0
      modifies `machines, mem
      ensures Valid()
      ensures machines == old(machines)[h - 1 := Advance(old(machines)[h - 1], c)]
      ensures mem[..] == Moved(img, old(mem[..]), c, old(machines)[h - 1].subOffset)
    {
      var m := machines[h - 1];
      DoDownloadChunk(c, m.subOffset, SUB_CHUNK);
      if c.owner >= ANCILLARY && m.ancillary == 0 {
        m := m.(ancillary := c.execAddr);
      }
      m := m.(subOffset := m.subOffset + SUB_CHUNK);
      if m.subOffset > c.size {
        m := m.(subOffset := 0);
        m := m.(chunkCount := m.chunkCount + 1);
        m := m.(chunk := m.chunk + 1);
      }
      machines := machines[h - 1 := m];
    }

    method DownloadChunksHandler(h: nat)
      requires Valid() && IsHart(h)
      modifies `machines, mem
      ensures Valid()
      ensures var (m, after) := HandleDownload(img, old(machines)[h - 1], old(mem[..]), h);
              machines == old(machines)[h - 1 := m] && mem[..] == after
    {
      var m := machines[h - 1];
      if img.Hart(h).numChunks != 0 {
        var c := ChunkAt(img, m.chunk);
        if m.chunkCount <= img.Hart(h).lastChunk && c.size != 0 {
          var mine := IsMine(h, c);
          if mine {
            DownloadSubChunk(h, c);
          } else {
            machines := machines[h - 1 := m.(chunk := m.chunk + 1)];
          }
        } else {
          machines := machines[h - 1 := m.(state := OpenSbiInit, loaded := true)];
        }
      } else {
        machines := machines[h - 1 := m.(state := Complete, loaded := true)];
      }
    }

    method OpenSbiInitHandler(h: nat, o: Oracle)
      requires Valid() && IsHart(h)
      modifies `machines
      ensures Valid()
      ensures machines == old(machines)[h - 1 := HandleOpenSbiInit(img, old(machines)[h - 1], h, o)]
    {
      var m := machines[h - 1];
      if img.Hart(h).Primary() {
        if m.nextPeer < 4 {
          var peer := m.nextPeer + 1;
          if peer == h {
          } else if img.Hart(peer).entryPoint == img.Hart(h).entryPoint {
            if !o.delivered {
              m := m.(state := Error);
            }
          }
          m := m.(nextPeer := m.nextPeer + 1);
        } else {
          m := m.(state := Wait);
        }
        machines := machines[h - 1 := m];
      }
    }

    method CompleteHandler(h: nat)
      requires Valid() && IsHart(h)
      modifies `machines, `event
      ensures Valid()
      ensures if AllComplete(old(Model()), old(machines)[h - 1], h)
              then event && machines == old(machines)[h - 1 := old(machines)[h - 1].(state := Idle)]
              else event == old(event) && machines == old(machines)
    {
      var allComplete := machines[0].complete;
      allComplete := allComplete && machines[1].complete;
      allComplete := allComplete && machines[2].complete;
      allComplete := allComplete && machines[3].complete;
      assert allComplete ==> forall g: nat :: IsHart(g) ==> Model().M(g).complete;
      assert !allComplete ==> !Model().M(1).complete || !Model().M(2).complete || !Model().M(3).complete || !Model().M(4).complete;
      if allComplete {
        event := true;
        machines := machines[h - 1 := machines[h - 1].(state := Idle)];
      }
    }

    // ---------------------------------------------------------------- engine

    method RunHooks(h: nat, o: Oracle)
      requires Valid() && IsHart(h)
      modifies `machines
      ensures Valid()
      ensures machines == old(machines)[h - 1 := Hooks(img, old(machines)[h - 1], h, o)]
    {
      var current := machines[h - 1].state;
      if machines[h - 1].prev != Was(current) {
        machines := machines[h - 1 := OnExit(img, machines[h - 1], h, o)];
        machines := machines[h - 1 := OnEntry(img, machines[h - 1], h, current)];
        machines := machines[h - 1 := machines[h - 1].(prev := Was(machines[h - 1].state))];
      }
    }

    /** The handler of the state found, on the machine as the hooks left it. */
    method RunHandler(h: nat, current: State, o: Oracle)
      requires Valid() && IsHart(h)
      modifies `machines, `event, mem
      ensures Valid()
      ensures var e := Handle(img, old(Model()), old(machines)[h - 1], h, current, o);
              Model() == System(old(machines)[h - 1 := e.m], e.mem, e.event)
    {
      match current
      case ZeroInit => ZeroInitChunksHandler(h, o);
      case Download => DownloadChunksHandler(h);
      case OpenSbiInit => OpenSbiInitHandler(h, o);
      case Complete => CompleteHandler(h);
      case _ =>
        var m := machines[h - 1];
        machines := machines[h - 1 := m.(state := Target(img, m, h, current, o))];
    }

    method RunStateMachine(h: nat, o: Oracle)
      requires Valid() && IsHart(h)
      modifies `machines, `event, mem
      ensures Valid() && Model() == Act(img, old(Model()), Call(h, o))
    {
      var current := machines[h - 1].state;
      RunHooks(h, o);
      RunHandler(h, current, o);
    }

    /** One round of the super-loop. */
    method RunStateMachines(o: seq<Oracle>) returns (ghost calls: seq<Action>)
      requires Valid() && |o| == 4
      modifies `machines, `event, mem
      ensures Valid() && calls == seq(4, k requires 0 <= k < 4 => Call(k + 1, o[k]))
      ensures forall k :: 0 <= k < |calls| ==> Proper(calls[k])
      ensures Model() == RunAll(img, old(Model()), calls)
    {
      calls := [];
      var i := 0;
      while i < 4
        invariant 0 <= i <= 4 && Valid() && |calls| == i
        invariant forall k :: 0 <= k < i ==> calls[k] == Call(k + 1, o[k]) && Proper(calls[k])
        invariant Model() == RunAll(img, old(Model()), calls)
      {
        RunStateMachine(i + 1, o[i]);
        calls := calls + [Call(i + 1, o[i])];
        assert calls[..i] + [calls[i]] == calls && calls[..|calls| - 1] == calls[..i];
        i := i + 1;
      }
    }

    // ----------------------------------------------------------- custom boot

    method FindTarget() returns (target: nat)
      requires Valid()
      ensures target == CustomTarget(img)
    {
      target := 0;
      var i := 0;
      while i < 4
        invariant 0 <= i <= 4
        invariant target <= i && (target == 0 || img.Hart(target).numChunks != 0)
        invariant forall g: nat :: target < g <= i ==> img.Hart(g).numChunks == 0
      {
        if img.harts[i].numChunks != 0 {
          target := i + 1;
        }
        i := i + 1;
      }
      assert forall g: nat :: target < g <= 4 ==> img.Hart(g).numChunks == 0;
    }

    method CustomZero(target: nat)
      requires Valid() && IsHart(target)
      modifies mem
      ensures mem[..] == ZeroAll(img, target, old(mem[..]), 0)
    {
      var j := 0;
      while ZiAt(img, j).size != 0
        invariant 0 <= j < |img.ziChunks|
        invariant ZeroAll(img, target, mem[..], j) == ZeroAll(img, target, old(mem[..]), 0)
        decreases |img.ziChunks| - j
      {
        if target == ZiAt(img, j).owner {
          DoZeroInitChunk(ZiAt(img, j));
        }
        j := j + 1;
      }
    }

    method CustomDownload(target: nat, firstChunk: nat)
      requires Valid() && IsHart(target) && firstChunk < |img.chunks|
      modifies mem
      ensures mem[..] == DownloadAll(img, old(mem[..]), CustomPlan(img, target, firstChunk))
    {
      var i: nat, sub: nat := firstChunk, 0;
      while ChunkAt(img, i).size != 0
        invariant 0 <= i < |img.chunks|
        invariant sub > 0 ==> sub <= img.chunks[i].size && CustomMine(img, target, img.chunks[i])
        invariant CustomRest(img, target, mem[..], i, sub) == DownloadAll(img, old(mem[..]), CustomPlan(img, target, firstChunk))
        decreases |img.chunks| - i, ChunkAt(img, i).size - sub
      {
        var c := ChunkAt(img, i);
        var mine := c.owner == target;
        if mine {
          mine := Pmp.CheckWrite(img.pmp[target], c.execAddr, c.size);
        }
        if mine {
          CustomMoves(img, target, mem[..], i, sub);
          DoDownloadChunk(c, sub, SUB_CHUNK);
          sub := sub + SUB_CHUNK;
          if sub > c.size {
            sub := 0;
            i := i + 1;
          }
        } else {
          i := i + 1;
        }
      }
    }

    /** Downloads for the last hart with chunks of its own; fails without an image or such a hart. */
    method Custom(registered: bool) returns (ok: bool)
      requires Valid()
      modifies mem
      ensures ok <==> registered && exists h: nat :: IsHart(h) && img.Hart(h).numChunks != 0
      ensures !ok ==> mem[..] == old(mem[..])
      ensures ok ==> var t := CustomTarget(img);
                     IsHart(t) && mem[..] == Whole(img, t, old(mem[..]), CustomPlan(img, t, img.Hart(t).firstChunk))
    {
      if !registered {
        return false;
      }
      var target := FindTarget();
      if target == 0 {
        return false;
      }
      CustomZero(target);
      CustomDownload(target, img.Hart(target).firstChunk);
      return true;
    }

    // -------------------------------------------------------------- restarts

    /** Every machine named in the mask, whatever its state. */
    method BootUsingHartBitmask(mask: set<nat>) returns (result: bool)
      requires Valid()
      modifies `machines
      ensures Valid() && machines == RestartedSet(old(machines), mask) && BackInInit(old(machines), machines, mask)
      ensures result <==> exists h: nat :: IsHart(h) && h in mask
    {
      result := false;
      var i := 0;
      while i < 4
        invariant 0 <= i <= 4 && Valid()
        invariant forall k :: 0 <= k < 4 ==> machines[k] == if k < i && k + 1 in mask then Restarted(old(machines)[k]) else old(machines)[k]
        invariant result <==> exists h: nat :: IsHart(h) && h <= i && h in mask
      {
        if i + 1 in mask {
          var m := machines[i];
          if m.state != OpenSbiInit {
            machines := machines[i := m.(state := Init, loaded := false)];
          }
          result := true;
          assert IsHart(i + 1);
        }
        i := i + 1;
      }
      RequestPutsBack(old(machines), mask);
    }

    /** The source hart with every hart that has its entry point. */
    method BootSetOf(source: nat) returns (local: set<nat>)
      requires Valid() && IsHart(source)
      ensures local == Class(img, source)
    {
      local := {};
      var i: nat := 0;
      while i < 4
        invariant i <= 4
        invariant local == set g | g in Class(img, source) && g != source && g <= i
      {
        var peer := i + 1;
        if peer != source {
          if img.Hart(peer).entryPoint == img.Hart(source).entryPoint {
            local := local + {peer};
          }
        }
        i := i + 1;
      }
      local := local + {source};
    }

    /** One source of a request: its boot set, restarted if the source has chunks. */
    method RestartBootSetOf(source: nat) returns (local: set<nat>, booted: bool)
      requires Valid() && IsHart(source)
      modifies `machines
      ensures Valid() && local == Class(img, source) && (booted <==> img.Hart(source).numChunks != 0)
      ensures machines == if booted then RestartedSet(old(machines), local) else old(machines)
    {
      local := BootSetOf(source);
      booted := img.Hart(source).numChunks != 0;
      if booted {
        booted := BootUsingHartBitmask(local);
        assert source in local;
      }
    }

    /** Restarts exactly the boot sets whose lowest-numbered requested hart has chunks, and none of
        their machines twice; succeeds if and only if there is one. */
    method RestartCoresUsingBitmask(valid: bool, mask: set<nat>) returns (success: bool, ghost visited: seq<set<nat>>)
      requires Valid()
      modifies `machines
      ensures Valid()
      ensures machines == RestartedSet(old(machines), if valid then ToRestart(img, mask) else {})
      ensures BackInInit(old(machines), machines, if valid then ToRestart(img, mask) else {})
      ensures success <==> valid && ToRestart(img, mask) != {}
      ensures valid ==> Partitions(visited, ToRestart(img, mask))
    {
      success, visited := false, [];
      if valid {
        var left := mask;
        var source: nat := 1;
        ghost var done: set<nat> := {};
        while source < 5
          invariant 1 <= source <= 5 && Valid()
          invariant left == LeftBelow(img, mask, source) && done == ClassesBelow(img, mask, source)
          invariant machines == RestartedSet(old(machines), done)
          invariant success <==> done != {}
          invariant Partitions(visited, done)
        {
          SourceServed(img, mask, source);
          if source in left {
            var local, booted := RestartBootSetOf(source);
            if booted {
              success := true;
              RestartedTwice(old(machines), done, local);
              PartitionsExtend(visited, done, local);
              visited, done := visited + [local], done + local;
            }
            left := left - local;
          }
          source := source + 1;
        }
      }
      RequestPutsBack(old(machines), if valid then ToRestart(img, mask) else {});
    }

    /** One hart's request, or (source 5) one for all harts, which restarts them all. */
    method RestartCore(valid: bool, source: nat) returns (success: bool)
      requires Valid() && source <= 5
      modifies `machines
      ensures Valid()
      ensures success <==> valid && (source == 5 || (source > 0 && img.Hart(source).numChunks != 0))
      ensures machines == RestartedSet(old(machines),
                                       if !success then {} else if source == 5 then {1, 2, 3, 4} else Class(img, source))
      ensures BackInInit(old(machines), machines,
                         if !success then {} else if source == 5 then {1, 2, 3, 4} else Class(img, source))
    {
      success := false;
      if source != 5 {
        ghost var visited;
        success, visited := RestartCoresUsingBitmask(valid, {source});
        if source > 0 {
          SingleRequest(img, source);
          assert source in Class(img, source);
        }
      } else if valid {
        success := BootUsingHartBitmask({1, 2, 3, 4});
        assert IsHart(1);
      }
      RequestPutsBack(old(machines), if !success then {} else if source == 5 then {1, 2, 3, 4} else Class(img, source));
    }
  }
}
