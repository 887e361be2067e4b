/** The cached QSPI driver itself: descriptors, cache and flash as buffers changed in place. */
module QspiDevice {
  import opened Options
  import opened Bits
  import opened BadBlocks
  import opened QspiCache
  import opened QspiFlush

  const SECTOR: nat := 0x1_0000

  lemma BlockRange(blockSize: nat, p: nat, i: nat)
    requires blockSize > 0
    ensures BlockOf(blockSize, i) == p <==> p * blockSize <= i < p * blockSize + blockSize
  {
    if p * blockSize <= i < p * blockSize + blockSize {
      DivModUnique(i, blockSize, p, i - p * blockSize);
    }
    assert i == blockSize * (i / blockSize) + i % blockSize;
  }

  lemma BlockFits(blockSize: nat, p: nat, total: nat)
    requires p < total
    ensures p * blockSize + blockSize <= blockSize * total
  {
    assert blockSize * total == blockSize * (total - p - 1) + blockSize * p + blockSize;
    assert blockSize * (total - p - 1) >= 0;
  }

  class Device {
    const blockSize: nat
    const total: nat
    const bad: seq<nat>
    const blockCount: nat
    const blocks: array<nat>
    const inCache: array<bool>
    const dirty: array<bool>
    const data: array<byte>
    const flash: array<byte>
    var dirtyFlag: bool
    ghost var erased: seq<nat>

    ghost function Model(): Cache
      requires blockCount <= blocks.Length
      reads this, blocks, inCache, dirty, data, flash
    {
      Cache(blockSize, total, blocks[..blockCount], inCache[..], dirty[..], data[..], flash[..], dirtyFlag, erased)
    }

    ghost predicate Valid()
      reads this, blocks, inCache, dirty, data, flash
    {
      && Scanned(bad, total) && blocks.Length == total && blockCount == |GoodBlocks(bad, total)| == total - |bad|
      && GoodBlocks(bad, total) <= blocks[..]
      && Separate()
      && Model().Valid()
    }

    /** The buffers are different objects. */
    ghost predicate Separate() {
      && inCache != dirty && data != flash
      && inCache as object != blocks && inCache as object != data && inCache as object != flash
      && dirty as object != blocks && dirty as object != data && dirty as object != flash
      && blocks as object != data && blocks as object != flash
      && this as object !in {inCache, dirty, data, flash, blocks}
    }

    /** HSS_QSPIInit: empty descriptors and a freshly built block map. */
    constructor (blockSize: nat, total: nat, bad: seq<nat>, contents: seq<byte>)
      requires blockSize > 0 && Scanned(bad, total) && |contents| == blockSize * total
      ensures Valid() && fresh(blocks) && fresh(inCache) && fresh(dirty) && fresh(data) && fresh(flash)
      ensures this.blockSize == blockSize && this.total == total && this.bad == bad
      ensures Model().blocks == GoodBlocks(bad, total) && Model().flash == contents
      ensures !dirtyFlag && erased == [] && true !in inCache[..] && true !in dirty[..]
    {
      this.blockSize, this.total, this.bad := blockSize, total, bad;
      GoodMapValid(bad, total);
      ProductMonotone(blockSize, total - |bad|, total);
      blockCount := total - |bad|;
      blocks := new nat[total](_ => 0);
      inCache := new bool[total](_ => false);
      dirty := new bool[total](_ => false);
      data := new byte[blockSize * total](_ => 0);
      flash := new byte[|contents|](i requires 0 <= i < |contents| => contents[i]);
      dirtyFlag, erased := false, [];
      new;
      BuildBadBlockMap(bad, total, total, blocks);
      assert blocks[..blockCount] == GoodBlocks(bad, total);
      assert flash[..] == contents;
    }

    // -------------------------------------------------------------------- flash driver

    method FlashRead(p: nat)
      requires blockSize > 0 && p < total && data.Length == flash.Length == blockSize * total && data != flash
      modifies data
      ensures data[..] == CopyBlock(blockSize, p, old(data[..]), flash[..])
    {
      BlockFits(blockSize, p, total);
      var i := p * blockSize;
      while i < p * blockSize + blockSize
        invariant p * blockSize <= i <= p * blockSize + blockSize
        invariant forall k :: 0 <= k < data.Length ==> data[k] == if p * blockSize <= k < i then flash[k] else old(data[k])
      {
        data[i] := flash[i];
        i := i + 1;
      }
      forall k | 0 <= k < data.Length
        ensures data[k] == CopyBlock(blockSize, p, old(data[..]), flash[..])[k]
      {
        BlockRange(blockSize, p, k);
      }
    }

    method FlashEraseBlock(p: nat)
      requires blockSize > 0 && p < total && flash.Length == blockSize * total
      modifies flash
      ensures flash[..] == EraseBlock(blockSize, p, old(flash[..]))
    {
      BlockFits(blockSize, p, total);
      EraseRange(p * blockSize, p * blockSize + blockSize);
      forall k | 0 <= k < flash.Length
        ensures flash[k] == EraseBlock(blockSize, p, old(flash[..]))[k]
      {
        BlockRange(blockSize, p, k);
      }
    }

    method EraseRange(from: nat, to: nat)
      requires from <= to <= flash.Length
      modifies flash
      ensures forall k :: 0 <= k < flash.Length ==> flash[k] == if from <= k < to then ERASED else old(flash[k])
    {
      for i := from to to
        invariant forall k :: 0 <= k < flash.Length ==> flash[k] == if from <= k < i then ERASED else old(flash[k])
      {
        flash[i] := ERASED;
      }
    }

    /** Parts with small pages erase a block as several sectors. */
    method FlashEraseSectors(p: nat, totalSectors: nat)
      requires blockSize == totalSectors * SECTOR > 0 && p < total && flash.Length == blockSize * total
      modifies flash
      ensures flash[..] == EraseBlock(blockSize, p, old(flash[..]))
    {
      BlockFits(blockSize, p, total);
      var count := 0;
      while count < totalSectors
        invariant 0 <= count <= totalSectors
        invariant forall k :: 0 <= k < flash.Length ==>
          flash[k] == if p * blockSize <= k < p * blockSize + count * SECTOR then ERASED else old(flash[k])
      {
        assert (p * totalSectors + count) * SECTOR == p * blockSize + count * SECTOR by {
          assert (p * totalSectors) * SECTOR == p * (totalSectors * SECTOR);
        }
        assert (count + 1) * SECTOR <= totalSectors * SECTOR;
        var addr := (p * totalSectors + count) * SECTOR;
        EraseRange(addr, addr + SECTOR);
        count := count + 1;
      }
      forall k | 0 <= k < flash.Length
        ensures flash[k] == EraseBlock(blockSize, p, old(flash[..]))[k]
      {
        BlockRange(blockSize, p, k);
      }
    }

    method FlashProgram(p: nat, missed: map<nat, byte>)
      requires blockSize > 0 && p < total && data.Length == flash.Length == blockSize * total && data != flash
      modifies flash
      ensures flash[..] == ProgramBlock(blockSize, p, old(flash[..]), data[..], missed)
    {
      BlockFits(blockSize, p, total);
      var i := p * blockSize;
      while i < p * blockSize + blockSize
        invariant p * blockSize <= i <= p * blockSize + blockSize
        invariant forall k :: 0 <= k < flash.Length ==>
          flash[k] == if p * blockSize <= k < i then ProgrammedByte(old(flash[k]), data[k], missed, k) else old(flash[k])
      {
        flash[i] := ProgrammedByte(flash[i], data[i], missed, i);
        i := i + 1;
      }
      forall k | 0 <= k < flash.Length
        ensures flash[k] == ProgramBlock(blockSize, p, old(flash[..]), data[..], missed)[k]
      {
        BlockRange(blockSize, p, k);
      }
    }

    // --------------------------------------------------------------- cached operations

    /** The map lookup, with its check for corruption. */
    method PhysicalBlock(l: nat) returns (p: nat)
      requires Valid() && l < blockCount
      modifies blocks
      ensures Valid() && Model() == old(Model()) && p == Model().blocks[l] < total
    {
      p := LogicalToPhysicalBlock(bad, total, blockCount, blocks, l);
    }

    /** Flash_read of a whole block, noted in its descriptor. */
    method BringIn(p: nat)
      requires Valid() && p < total
      modifies inCache, data
      ensures Valid()
      ensures Model() == old(Model()).(data := CopyBlock(blockSize, p, old(data[..]), flash[..]), inCache := old(inCache[..])[p := true])
    {
      ghost var c := Model();
      FlashRead(p);
      assert Model() == c.(data := data[..]);
      inCache[p] := true;
    }

    method MarkDirty(p: nat)
      requires Valid() && p < total
      modifies dirty
      ensures Valid() && Model() == old(Model()).(dirty := old(dirty[..])[p := true])
    {
      dirty[p] := true;
    }

    method FillOne(l: nat, markDirty: bool)
      requires Valid() && l < blockCount
      modifies blocks, inCache, dirty, data
      ensures Valid() && Model() == FillBlock(old(Model()), l, markDirty)
    {
      var p := PhysicalBlock(l);
      if !inCache[p] {
        BringIn(p);
      }
      if markDirty {
        MarkDirty(p);
      }
    }

    /** One pass of the demand loop. */
    method DemandStep(offset: nat, end: nat, markDirty: bool, ghost result: Cache) returns (next: nat)
      requires Valid() && offset < end && Filled(Model(), offset, end, markDirty) == Some(result)
      modifies blocks, inCache, dirty, data
      ensures next > offset && Valid() && Filled(Model(), next, end, markDirty) == Some(result)
    {
      ghost var c := Model();
      var l := BlockOf(blockSize, offset);
      FillUnfold(c, offset, end, markDirty, l, result);
      FillOne(l, markDirty);
      assert Model() == FillBlock(c, l, markDirty);
      next := offset + blockSize;
    }

    /** demandCopyFlashBlocksToCache_: one block per step of blockSize from the unaligned start. */
    method DemandLoop(byteOffset: nat, end: nat, markDirty: bool, ghost result: Cache)
      requires Valid() && Filled(Model(), byteOffset, end, markDirty) == Some(result)
      modifies blocks, inCache, dirty, data
      ensures Valid() && Model() == result
    {
      var offset: nat := byteOffset;
      while offset < end
        invariant Valid() && Filled(Model(), offset, end, markDirty) == Some(result)
        decreases end - offset
      {
        offset := DemandStep(offset, end, markDirty, result);
      }
      FillDone(Model(), offset, end, markDirty, result);
    }

    method DemandCopy(byteOffset: nat, byteCount: nat, markDirty: bool)
      requires Valid() && byteOffset + byteCount <= Model().DieSize()
      modifies blocks, inCache, dirty, data
      ensures Valid() && Model() == Fill(old(Model()), byteOffset, byteOffset + byteCount, markDirty)
    {
      DemandLoop(byteOffset, byteOffset + byteCount, markDirty, Fill(Model(), byteOffset, byteOffset + byteCount, markDirty));
    }

    method ReadBlock(srcOffset: nat, byteCount: nat) returns (dest: seq<byte>)
      requires Valid() && srcOffset + byteCount <= Model().DieSize()
      modifies blocks, inCache, dirty, data
      ensures Valid() && (Model(), dest) == QspiCache.ReadBlock(old(Model()), srcOffset, byteCount)
    {
      DemandCopy(srcOffset, byteCount, false);
      dest := data[srcOffset..srcOffset + byteCount];
    }

    method RaiseDirtyFlag()
      requires Valid()
      modifies this
      ensures Valid() && Model() == old(Model()).(dirtyFlag := true)
    {
      dirtyFlag := true;
    }

    method WriteBlock(dstOffset: nat, src: seq<byte>)
      requires Valid() && dstOffset + |src| <= Model().DieSize()
      modifies this, blocks, inCache, dirty, data
      ensures Valid() && Model() == QspiCache.WriteBlock(old(Model()), dstOffset, src)
    {
      RaiseDirtyFlag();
      DemandCopy(dstOffset, |src|, true);
      StoreBytes(dstOffset, src);
    }

    /** memcpy into the cache. */
    method StoreBytes(at: nat, src: seq<byte>)
      requires Valid() && at + |src| <= data.Length
      modifies data
      ensures Valid() && Model() == old(Model()).(data := Splice(old(data[..]), at, src))
    {
      ghost var d0 := data[..];
      for k := 0 to |src|
        invariant forall i :: 0 <= i < data.Length ==> data[i] == if at <= i < at + k then src[i - at] else d0[i]
      {
        data[at + k] := src[k];
      }
      assert data[..] == Splice(d0, at, src);
    }

    /** The dirty descriptors below the offered block count. */
    method CountDirty() returns (n: nat)
      requires Valid()
      ensures n == Count(dirty[..blockCount])
    {
      n := 0;
      var b := 0;
      while b < blockCount
        invariant 0 <= b <= blockCount && n == Count(dirty[..b])
      {
        assert dirty[..b + 1][..b] == dirty[..b];
        if dirty[b] {
          n := n + 1;
        }
        b := b + 1;
      }
    }

    method Blank(p: nat)
      requires Valid() && p < total
      modifies this, flash
      ensures Valid()
      ensures Model() == old(Model()).(flash := EraseBlock(blockSize, p, old(flash[..])), erased := old(erased) + [p])
    {
      FlashEraseBlock(p);
      erased := erased + [p];
    }

    method Program(p: nat, missed: map<nat, byte>)
      requires Valid() && p < total
      modifies flash
      ensures Valid() && Model() == old(Model()).(flash := ProgramBlock(blockSize, p, old(flash[..]), data[..], missed))
    {
      FlashProgram(p, missed);
    }

    method MarkClean(p: nat)
      requires Valid() && p < total
      modifies dirty
      ensures Valid() && Model() == old(Model()).(dirty := old(dirty[..])[p := false])
    {
      dirty[p] := false;
    }

    /** Erase and program one dirty block; false if the erase failed. */
    method StoreOne(p: nat, faults: Faults) returns (ok: bool)
      requires Valid() && p < total
      modifies this, dirty, flash
      ensures Valid() && ok == (p !in faults.erase)
      ensures Model() == if ok then Stored(old(Model()), p, faults.missed) else old(Model())
    {
      ok := p !in faults.erase;
      if ok {
        Blank(p);
        Program(p, faults.missed);
        MarkClean(p);
      }
    }

    /** One pass of the write-back loop. */
    method CopyStep(l: nat, n: nat, faults: Faults, ghost result: Cache, ghost next: nat) returns (n': nat, failed: bool)
      requires Valid() && l < blockCount && n > 0 && next == l + 1
      requires Emptied(Model(), l, n, faults) == Some(result)
      modifies this, blocks, dirty, flash
      ensures Valid()
      ensures failed ==> Model() == result
      ensures !failed ==> Emptied(Model(), next, n', faults) == Some(result)
    {
      ghost var c := Model();
      var p := PhysicalBlock(l);
      var fewer: nat := n - 1;
      CopyBackUnfold(c, l, n, faults, p, result, next, fewer);
      n', failed := n, false;
      if inCache[p] && dirty[p] {
        var ok := StoreOne(p, faults);
        if ok {
          n' := fewer;
        } else {
          failed := true;
        }
      }
    }

    /** copyCacheToFlashBlocks_, over the whole device. */
    method CopyCacheToFlash(faults: Faults)
      requires Valid()
      modifies this, blocks, dirty, flash
      ensures Valid() && Model() == CopyBack(old(Model()), 0, Count(old(Model()).dirty[..blockCount]), faults)
    {
      var dirtyBlockCount: nat := CountDirty();
      var offset, endOffset := 0, blockSize * blockCount;
      ghost var l: nat, result := 0, CopyBack(Model(), 0, dirtyBlockCount, faults);
      while dirtyBlockCount != 0 && offset < endOffset
        invariant 0 <= dirtyBlockCount && 0 <= offset && Valid() && l <= blockCount && offset == blockSize * l
        invariant Emptied(Model(), l, dirtyBlockCount, faults) == Some(result)
        decreases blockCount - l
      {
        NotLast(blockSize, l, blockCount);
        var block, failed := BlockOf(blockSize, offset), false;
        assert block == l;
        ghost var next := l + 1;
        dirtyBlockCount, failed := CopyStep(block, dirtyBlockCount, faults, result, next);
        if failed {
          return;
        }
        offset, l := offset + blockSize, next;
      }
      AtEnd(blockSize, l, blockCount);
    }

    method FlushWriteBuffer(faults: Faults)
      requires Valid()
      modifies this, blocks, dirty, flash
      ensures Valid() && Model() == Flush(old(Model()), faults)
    {
      if dirtyFlag {
        CopyCacheToFlash(faults);
        dirtyFlag := false;
      }
    }
  }

  /** Where the rest of the demand loop leads; nothing if it would run off the device. */
  ghost function Filled(c: Cache, offset: nat, end: nat, markDirty: bool): Option<Cache> {
    if c.Valid() && end <= c.DieSize() then Some(Fill(c, offset, end, markDirty)) else None
  }

  lemma FillUnfold(c: Cache, offset: nat, end: nat, markDirty: bool, l: nat, result: Cache)
    requires Filled(c, offset, end, markDirty) == Some(result) && offset < end && l == BlockOf(c.blockSize, offset)
    ensures l < |c.blocks| && Filled(FillBlock(c, l, markDirty), offset + c.blockSize, end, markDirty) == Some(result)
  {
    BlockInRange(c, offset);
  }

  lemma FillDone(c: Cache, offset: nat, end: nat, markDirty: bool, result: Cache)
    requires Filled(c, offset, end, markDirty) == Some(result) && offset >= end
    ensures c == result
  {
  }

  /** Where the rest of the write-back loop leads. */
  ghost function Emptied(c: Cache, l: nat, n: nat, faults: Faults): Option<Cache> {
    if c.Valid() && l <= |c.blocks| then Some(CopyBack(c, l, n, faults)) else None
  }

  lemma CopyBackUnfold(c: Cache, l: nat, n: nat, faults: Faults, p: nat, result: Cache, next: nat, fewer: nat)
    requires Emptied(c, l, n, faults) == Some(result) && l < |c.blocks| && n > 0 && p == c.blocks[l]
    requires next == l + 1 && fewer == n - 1
    ensures !(c.inCache[p] && c.dirty[p]) ==> Emptied(c, next, n, faults) == Some(result)
    ensures c.inCache[p] && c.dirty[p] && p in faults.erase ==> c == result
    ensures c.inCache[p] && c.dirty[p] && p !in faults.erase ==>
              Emptied(Stored(c, p, faults.missed), next, fewer, faults) == Some(result)
  {
  }

  lemma AtEnd(blockSize: nat, l: nat, n: nat)
    requires blockSize > 0 && l <= n
    ensures blockSize * l >= blockSize * n ==> l == n
  {
    MulSign(blockSize, l - n);
    assert blockSize * (l - n) == blockSize * l - blockSize * n;
  }

  lemma NotLast(blockSize: nat, l: nat, n: nat)
    requires blockSize > 0 && blockSize * l < blockSize * n
    ensures l < n && (blockSize * l) / blockSize == l && blockSize * l + blockSize == blockSize * (l + 1)
  {
    DivModUnique(blockSize * l, blockSize, l, 0);
    MulSign(blockSize, l - n);
    assert blockSize * (l - n) == blockSize * l - blockSize * n;
  }

  lemma GoodMapValid(bad: seq<nat>, total: nat)
    requires Scanned(bad, total)
    ensures var g := GoodBlocks(bad, total);
            && |g| == total - |bad|
            && (forall l :: 0 <= l < |g| ==> g[l] < total)
            && (forall k, l :: 0 <= k < l < |g| ==> g[k] != g[l])
  {
    MapIsBijection(bad, total);
    var g := GoodBlocks(bad, total);
    forall l | 0 <= l < |g|
      ensures g[l] < total
    {
      assert g[l] in g;
    }
  }

  lemma ProductMonotone(a: nat, m: nat, n: nat)
    requires m <= n
    ensures a * m <= a * n
  {
    assert a * n == a * m + a * (n - m);
    assert a * (n - m) >= 0;
  }
}
